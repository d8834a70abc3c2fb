/** t_scan.h and t_cursor.cpp: HSCAN, SSCAN and ZSCAN, a batch at a time, with
    numbered cursors that remember where the next batch starts. */
module CursorScan {
  import opened Bytes
  import opened Sequences
  import opened Options
  import opened KvCodec
  import opened Scan

  const UNLIMITED: nat := U64 - 1   // a limit of -1

  /** hgetall and the like: every element of one incarnation of a key. */
  method ReadAll(ks: seq<bytes>, kind: Kind, name: bytes, version: nat) returns (els: seq<Element>)
    requires |ks| < U64
    ensures els == Elements(ks, kind, name, version)
  {
    hide Yield, Ahead, EncodeKey, Decode;
    var p := SeekPos(ks, EncodeKey(TypeOf(kind), name, [], version));
    var raw := new Iterator(ks, p, [], UNLIMITED, true);
    AheadForward(ks, p, UNLIMITED);
    var it := new TypedIterator(raw, kind, name, version);
    ghost var ys := Elements(ks, kind, name, version);
    els := [];
    assert ys[0..] == ys && ys[..0] == [];
    while true
      invariant fresh(it) && fresh(it.it) && it.Valid()
      invariant |els| <= |ys| && els == ys[..|els|] && it.Rest() == ys[|els|..]
      decreases |ys| - |els|
    {
      var more := it.Next();
      if !more { break; }
      els := els + [it.element];
    }
  }

  // ------------------------------------------------------------------ one batch

  function Matching(els: seq<Element>, matches: bytes -> bool): seq<Element> {
    if els == [] then [] else
    (if matches(els[0].member) then [els[0]] else []) + Matching(els[1..], matches)
  }

  lemma {:induction false} MatchingAppend(a: seq<Element>, b: seq<Element>, matches: bytes -> bool)
    ensures Matching(a + b, matches) == Matching(a, matches) + Matching(b, matches)
  {
    if a == [] {
      assert a + b == b;
    } else {
      assert (a + b)[1..] == a[1..] + b && (a + b)[0] == a[0];
      MatchingAppend(a[1..], b, matches);
      Associative(if matches(a[0].member) then [a[0]] else [], Matching(a[1..], matches), Matching(b, matches));
    }
  }

  lemma MatchingNext(rest: seq<Element>, n: nat, matches: bytes -> bool)
    requires n < |rest|
    ensures Matching(rest[..n + 1], matches)
            == Matching(rest[..n], matches) + if matches(rest[n].member) then [rest[n]] else []
  {
    MatchingAppend(rest[..n], [rest[n]], matches);
    assert rest[..n + 1] == rest[..n] + [rest[n]];
  }

  /** doScanGeneric: look at up to limit elements, answer the matching ones, and
      step onto the element the next batch starts with. */
  method ScanBatch(mit: TypedIterator, matches: bytes -> bool, limit: nat) returns (resp: seq<Element>, end: bool)
    requires mit.Valid()
    modifies mit, mit.it
    ensures var rest := old(mit.Rest());
            if limit == 0 then resp == []
            else if |rest| <= limit then end && resp == Matching(rest, matches)
            else !end && resp == Matching(rest[..limit], matches)
                 && 0 <= mit.it.pos < |mit.it.ks|
                 && Decode(mit.kind, mit.it.ks[mit.it.pos]) == Some(Record(mit.name, mit.version, rest[limit]))
  {
    hide Yield, Ahead, Decode;
    ghost var rest := mit.Rest();
    ghost var n: nat := 0;
    var left: nat := limit;
    resp := [];
    assert rest[..0] == [] && rest[0..] == rest;
    while true
      invariant mit.Valid() && n + left == limit && (left == 0 ==> limit == 0) && n <= |rest|
      invariant resp == Matching(rest[..n], matches) && mit.Rest() == rest[n..]
      decreases |rest| - n
    {
      var more := mit.Next();
      if !more { break; }
      if left == 0 { break; }
      MatchingNext(rest, n, matches);
      if matches(mit.element.member) {
        resp := resp + [mit.element];
      }
      left := left - 1;
      n := n + 1;
      if left == 0 { break; }
    }
    assert left > 0 ==> n == |rest|;
    assert left == 0 && limit > 0 ==> n == limit && mit.Rest() == rest[limit..];
    assert n == |rest| ==> rest[..n] == rest;
    end := false;
    var again := mit.Next();
    if !again {
      end := true;
    } else if left != 0 {
      end := true;
    }
  }

  // ------------------------------------------------------------------- cursors

  lemma {:induction false} Greatest(s: set<nat>) returns (m: nat)
    requires s != {}
    ensures m in s && forall k :: k in s ==> k <= m
  {
    var x :| x in s;
    m := x;
    var t := s - {x};
    if t != {} {
      var y := Greatest(t);
      m := if x < y then y else x;
    }
    forall k | k in s ensures k <= m { assert k in t || k == x; }
  }

  /** RedisCursorService: cursors number the record keys where scans resume. */
  class CursorService {
    var table: map<nat, bytes>

    constructor ()
      ensures table == map[]
    {
      table := map[];
    }

    /** GetNewRedisCursor: one past the greatest live cursor, never zero. */
    method GetNew(element: bytes) returns (cursor: nat)
      modifies this
      ensures cursor > 0 && cursor !in old(table)
      ensures table == old(table)[cursor := element]
      ensures (forall k :: k in old(table) ==> k < cursor) && (cursor == 1 || cursor - 1 in old(table))
    {
      if table == map[] {
        cursor := 1;
      } else {
        ghost var g := Greatest(table.Keys);
        var last :| last in table.Keys && forall k :: k in table.Keys ==> k <= last;
        cursor := last + 1;
      }
      table := table[cursor := element];
    }

    /** FindElementByRedisCursor leaves the start empty for an unknown cursor. */
    method Find(cursor: nat) returns (element: bytes)
      ensures element == if cursor in table then table[cursor] else []
    {
      element := if cursor in table then table[cursor] else [];
    }
  }

  /** hscan, sscan and zscan. */
  method ScanCommand(ks: seq<bytes>, kind: Kind, name: bytes, version: nat, cursor: nat,
                     matches: bytes -> bool, limit: nat, service: CursorService)
    returns (next: nat, resp: seq<Element>)
    requires limit > 0 && |ks| < U64
    modifies service
    ensures var rest := Yield(ks[SeekPos(ks, Start(kind, name, version, cursor, old(service.table)))..], kind, name, version);
            if |rest| <= limit then next == 0 && resp == Matching(rest, matches) && service.table == old(service.table)
            else next > 0 && next !in old(service.table) && resp == Matching(rest[..limit], matches)
                 && exists k :: service.table == old(service.table)[next := k]
                                && Decode(kind, k) == Some(Record(name, version, rest[limit]))
  {
    hide Yield, Ahead, Decode;
    var start;
    if cursor == 0 {
      start := EncodeKey(TypeOf(kind), name, [], version);
    } else {
      start := service.Find(cursor);
    }
    var p := SeekPos(ks, start);
    AheadForward(ks, p, UNLIMITED);
    var iter := new Iterator(ks, p, [], UNLIMITED, true);
    var mit := new TypedIterator(iter, kind, name, version);
    var end;
    resp, end := ScanBatch(mit, matches, limit);
    next := 0;
    if !end {
      next := service.GetNew(iter.ks[iter.pos]);
    }
  }

  ghost function Start(kind: Kind, name: bytes, version: nat, cursor: nat, table: map<nat, bytes>): bytes {
    if cursor == 0 then EncodeKey(TypeOf(kind), name, [], version)
    else if cursor in table then table[cursor] else []
  }

  // --------------------------------------------------- following cursors to the end

  /** A walk can be picked up again at the record of any element. */
  lemma {:induction false} Resume(rs: seq<bytes>, kind: Kind, name: bytes, version: nat, n: nat) returns (q: nat)
    requires n < |Yield(rs, kind, name, version)|
    ensures var ys := Yield(rs, kind, name, version);
            q < |rs| && Decode(kind, rs[q]) == Some(Record(name, version, ys[n]))
            && Yield(rs[q..], kind, name, version) == ys[n..]
  {
    hide Decode;
    if Decode(kind, rs[0]).Some? && n == 0 {
      assert rs[0..] == rs;
      q := 0;
    } else {
      var k := Resume(rs[1..], kind, name, version, if Decode(kind, rs[0]).Some? then n - 1 else n);
      q := k + 1;
      assert rs[q..] == rs[1..][k..];
    }
  }

  /** Seeking the record of element n resumes with exactly the elements from n on. */
  lemma {:induction false} ResumeAt(ks: seq<bytes>, kind: Kind, name: bytes, version: nat, n: nat, k: bytes)
    requires |name| < U16 && version < U16 && Ascending(ks) && n < |Elements(ks, kind, name, version)|
    requires Decode(kind, k) == Some(Record(name, version, Elements(ks, kind, name, version)[n]))
    ensures Yield(ks[SeekPos(ks, k)..], kind, name, version) == Elements(ks, kind, name, version)[n..]
  {
    hide Yield, Decode, EncodeKey, Less;
    var rs := From(ks, kind, name, version);
    var q := Resume(rs, kind, name, version, n);
    var el := Elements(ks, kind, name, version)[n];
    DecodeProper(kind, k);
    DecodeExactly(kind, name, version, el, k);
    DecodeExactly(kind, name, version, el, rs[q]);
    var p := SeekPos(ks, EncodeKey(TypeOf(kind), name, [], version));
    SeekHits(ks, p + q);
    assert rs[q..] == ks[p + q..];
  }

  /** HSCAN/SSCAN/ZSCAN from cursor 0 until 0 comes back: over an unchanged store,
      whatever other scans take cursors meanwhile, it terminates and answers every
      matching element exactly once. */
  method FollowCursors(ks: seq<bytes>, kind: Kind, name: bytes, version: nat, matches: bytes -> bool,
                       limit: nat, service: CursorService, others: nat -> seq<bytes>)
    returns (all: seq<Element>)
    requires limit > 0 && |ks| < U64 && |name| < U16 && version < U16 && Ascending(ks)
    modifies service
    ensures all == Matching(Elements(ks, kind, name, version), matches)
  {
    hide Yield, Decode, EncodeKey, Less, Ascending, Matching, SeekPos;
    ghost var ys := Elements(ks, kind, name, version);
    ghost var n: nat := 0;
    var cursor, resp := ScanCommand(ks, kind, name, version, 0, matches, limit, service);
    all := resp;
    var round := 0;
    n := if |ys| <= limit then |ys| else limit;
    assert ys[..|ys|] == ys;
    while cursor != 0
      invariant n <= |ys| && all == Matching(ys[..n], matches)
      invariant cursor == 0 ==> n == |ys|
      invariant cursor != 0 ==> n < |ys| && cursor in service.table
                                && Decode(kind, service.table[cursor]) == Some(Record(name, version, ys[n]))
      decreases |ys| - n, cursor
    {
      ghost var k := service.table[cursor];
      OtherScans(service, others(round), cursor);
      round := round + 1;
      ResumeAt(ks, kind, name, version, n, k);
      cursor, resp := ScanCommand(ks, kind, name, version, cursor, matches, limit, service);
      all := all + resp;
      ghost var step := if |ys| - n <= limit then |ys| - n else limit;
      NextBatch(ys, n, step, matches);
      n := n + step;
    }
    assert ys[..n] == ys;
  }

  lemma NextBatch(ys: seq<Element>, n: nat, step: nat, matches: bytes -> bool)
    requires n + step <= |ys|
    ensures Matching(ys[..n], matches) + Matching(ys[n..][..step], matches) == Matching(ys[..n + step], matches)
    ensures ys[n..][..|ys| - n] == ys[n..]
  {
    hide Matching;
    MatchingAppend(ys[..n], ys[n..][..step], matches);
    assert ys[..n] + ys[n..][..step] == ys[..n + step];
  }

  /** Cursors handed to other clients leave ours alone. */
  method OtherScans(service: CursorService, elements: seq<bytes>, mine: nat)
    requires mine in service.table
    modifies service
    ensures mine in service.table && service.table[mine] == old(service.table[mine])
  {
    for i := 0 to |elements|
      invariant mine in service.table && service.table[mine] == old(service.table[mine])
    {
      var other := service.GetNew(elements[i]);
    }
  }

  /** What the complete scan answers: exactly the matching stored elements. */
  lemma {:induction false} MatchingExact(els: seq<Element>, matches: bytes -> bool, el: Element)
    ensures multiset(Matching(els, matches))[el] == if matches(el.member) then multiset(els)[el] else 0
  {
    if els != [] {
      assert els == [els[0]] + els[1..];
      MatchingExact(els[1..], matches, el);
    }
  }

  lemma {:induction false} CountDistinct(els: seq<Element>, el: Element)
    requires forall i, j :: 0 <= i < j < |els| ==> els[i] != els[j]
    ensures multiset(els)[el] == if el in els then 1 else 0
  {
    if els != [] {
      assert els == [els[0]] + els[1..];
      CountDistinct(els[1..], el);
    }
  }

  lemma AscendingTail(ks: seq<bytes>)
    requires ks != [] && Ascending(ks)
    ensures Ascending(ks[1..])
  {
    hide Less;
  }

  /** They are answered in store order. */
  lemma {:induction false} MatchingOrdered(els: seq<Element>, matches: bytes -> bool, kind: Kind, name: bytes, version: nat)
    requires AllProper(kind, els) && Ascending(Codes(els, kind, name, version))
    ensures var ms := Matching(els, matches);
            && AllProper(kind, ms) && Ascending(Codes(ms, kind, name, version))
            && forall c :: c in Codes(ms, kind, name, version) ==> c in Codes(els, kind, name, version)
  {
    hide Less, Code, Proper, Ascending;
    if els != [] {
      var (cs, tail) := (Codes(els, kind, name, version), els[1..]);
      assert AllProper(kind, tail) by { assert forall i :: 0 <= i < |tail| ==> tail[i] == els[i + 1]; }
      assert Codes(tail, kind, name, version) == cs[1..];
      AscendingTail(cs);
      MatchingOrdered(tail, matches, kind, name, version);
      if matches(els[0].member) {
        var ms := Matching(tail, matches);
        assert Codes([els[0]] + ms, kind, name, version) == [cs[0]] + Codes(ms, kind, name, version);
        Prepend(cs, Codes(ms, kind, name, version));
      } else {
        assert [] + Matching(tail, matches) == Matching(tail, matches);
      }
    }
  }

  /** Every stored element of the incarnation that matches is answered once, and
      nothing else is answered. */
  lemma FullScanExact(ks: seq<bytes>, kind: Kind, name: bytes, version: nat, matches: bytes -> bool, el: Element)
    requires |name| < U16 && version < U16 && Ascending(ks) && Proper(kind, el)
    ensures multiset(Matching(Elements(ks, kind, name, version), matches))[el]
            == if matches(el.member) && Code(kind, name, version, el) in ks then 1 else 0
    ensures var ms := Matching(Elements(ks, kind, name, version), matches);
            AllProper(kind, ms) && Ascending(Codes(ms, kind, name, version))
  {
    hide Elements, Matching, Less, Code;
    var ys := Elements(ks, kind, name, version);
    ScanExact(ks, kind, name, version, el);
    MatchingOrdered(ys, matches, kind, name, version);
    MatchingExact(ys, matches, el);
    var cs := Codes(ys, kind, name, version);
    forall i, j | 0 <= i < j < |ys| ensures ys[i] != ys[j] {
      assert Less(cs[i], cs[j]);
      LessIrreflexive(cs[i]);
    }
    CountDistinct(ys, el);
  }
}
