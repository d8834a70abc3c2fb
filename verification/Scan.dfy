/** storage/iterator.cpp: walking the records of one incarnation of a key in the
    ordered store. */
module Scan {
  import opened Bytes
  import opened Options
  import opened KvCodec

  /** The keys of a snapshot, in store order. */
  ghost predicate Ascending(ks: seq<bytes>) {
    forall i, j :: 0 <= i < j < |ks| ==> Less(ks[i], ks[j])
  }

  /** Where Seek(start) lands: the first key not below start. */
  function SeekPos(ks: seq<bytes>, start: bytes): (p: nat)
    ensures p <= |ks|
    ensures forall i :: 0 <= i < p ==> Less(ks[i], start)
    ensures p < |ks| ==> !Less(ks[p], start)
  {
    if ks == [] || !Less(ks[0], start) then 0 else
    var p := SeekPos(ks[1..], start);
    assert forall i :: 0 < i < p + 1 ==> ks[i] == ks[1..][i - 1];
    p + 1
  }

  lemma SeekAbove(ks: seq<bytes>, start: bytes, i: nat)
    requires Ascending(ks) && SeekPos(ks, start) <= i < |ks|
    ensures !Less(ks[i], start)
  {
    hide Less;
    var p := SeekPos(ks, start);
    if Less(ks[i], start) && p < i { LessTransitive(ks[p], ks[i], start); }
  }

  lemma SeekHits(ks: seq<bytes>, i: nat)
    requires Ascending(ks) && i < |ks|
    ensures SeekPos(ks, ks[i]) == i
  {
    hide Less;
    LessIrreflexive(ks[i]);
    var p := SeekPos(ks, ks[i]);
    assert p <= i;
  }

  // -------------------------------------------------------------- the raw iterator

  predicate Beyond(k: bytes, end: bytes, forward: bool) {
    end != [] && if forward then Less(end, k) else Less(k, end)
  }

  /** The records that repeated next() calls deliver from position p on. */
  ghost function Ahead(ks: seq<bytes>, p: int, forward: bool, end: bytes, limit: nat): seq<bytes>
    decreases limit
  {
    if limit == 0 || p < 0 || p >= |ks| || Beyond(ks[p], end, forward) then []
    else [ks[p]] + Ahead(ks, if forward then p + 1 else p - 1, forward, end, limit - 1)
  }

  /** The place i steps from p. */
  function Place(p: int, forward: bool, i: nat): int { if forward then p + i else p - i }

  /** The store has a record k at place j, and k is not past a given end. */
  ghost predicate Reached(ks: seq<bytes>, j: int, forward: bool, end: bytes, k: bytes) {
    0 <= j < |ks| && k == ks[j] && (end == [] || !(if forward then Less(end, k) else Less(k, end)))
  }

  /** The records from p on in the one direction or the other, one after another, up to
      the limit, the end of the store, or the last one that is not past a given end. */
  lemma {:induction false} AheadMeans(ks: seq<bytes>, p: int, forward: bool, end: bytes, limit: nat)
    ensures var r := Ahead(ks, p, forward, end, limit);
            && |r| <= limit
            && (forall i {:trigger r[i]} :: 0 <= i < |r| ==> Reached(ks, Place(p, forward, i), forward, end, r[i]))
            && (|r| < limit ==> forall k :: !Reached(ks, Place(p, forward, |r|), forward, end, k))
    decreases limit
  {
    hide Less;
    var r := Ahead(ks, p, forward, end, limit);
    if r != [] {
      var q := if forward then p + 1 else p - 1;
      AheadMeans(ks, q, forward, end, limit - 1);
      var t := Ahead(ks, q, forward, end, limit - 1);
      assert r == [ks[p]] + t;
      forall i | 0 <= i < |r| ensures Reached(ks, Place(p, forward, i), forward, end, r[i]) {
        if i > 0 { assert r[i] == t[i - 1] && Place(p, forward, i) == Place(q, forward, i - 1); }
      }
      assert Place(p, forward, |r|) == Place(q, forward, |t|);
    }
  }

  /** Iterator: a direction, an inclusive end and a record limit over a snapshot. */
  class Iterator {
    const ks: seq<bytes>
    const end: bytes
    const forward: bool
    var limit: nat
    var isFirst: bool
    var pos: int

    ghost predicate Valid() reads this {
      -1 <= pos <= |ks| && (!isFirst && limit > 0 ==> 0 <= pos < |ks|)
    }

    ghost function Rest(): seq<bytes>
      reads this
    {
      Ahead(ks, if isFirst then pos else if forward then pos + 1 else pos - 1, forward, end, limit)
    }

    constructor (ks: seq<bytes>, pos: int, end: bytes, limit: nat, forward: bool)
      requires -1 <= pos <= |ks|
      ensures Valid() && this.ks == ks && this.forward == forward
      ensures Rest() == Ahead(ks, pos, forward, end, limit)
    {
      this.ks, this.pos, this.end, this.limit, this.forward := ks, pos, end, limit, forward;
      this.isFirst := true;
    }

    method Next() returns (more: bool)
      requires Valid()
      modifies this
      ensures Valid()
      ensures more == (old(Rest()) != [])
      ensures more ==> 0 <= pos < |ks| && ks[pos] == old(Rest())[0] && Rest() == old(Rest())[1..]
      ensures !more ==> Rest() == []
      ensures |Rest()| <= |old(Rest())|
    {
      if limit == 0 { return false; }
      if isFirst {
        isFirst := false;
      } else if forward {
        pos := pos + 1;
      } else {
        pos := pos - 1;
      }
      if !(0 <= pos < |ks|) {
        limit := 0;
        return false;
      }
      if Beyond(ks[pos], end, forward) {
        limit := 0;
        return false;
      }
      limit := limit - 1;
      return true;
    }
  }

  lemma {:induction false} AheadForward(ks: seq<bytes>, p: nat, limit: nat)
    requires p <= |ks| && |ks| - p <= limit
    ensures Ahead(ks, p, true, [], limit) == ks[p..]
    decreases limit
  {
    if p < |ks| { AheadForward(ks, p + 1, limit - 1); }
  }

  // ------------------------------------------------------------- typed iterators

  /** Hash, set and lexicographic zset iterators read item records; the zset
      iterator reads score records. */
  datatype Kind = Items | Scores

  datatype Element = Element(member: bytes, score: nat)

  function TypeOf(kind: Kind): byte { if kind.Items? then ITEM else ZSCORE }

  ghost predicate Proper(kind: Kind, el: Element) { if kind.Items? then el.score == 0 else el.score < U64 }

  function Field(kind: Kind, el: Element): bytes
    requires kind.Scores? ==> el.score < U64
  {
    if kind.Items? then el.member else BE(EncodeScore(el.score), 8) + el.member
  }

  function Code(kind: Kind, name: bytes, version: nat, el: Element): bytes
    requires kind.Scores? ==> el.score < U64
  {
    EncodeKey(TypeOf(kind), name, Field(kind, el), version)
  }

  datatype Record = Record(name: bytes, version: nat, element: Element)

  function Decode(kind: Kind, s: bytes): Option<Record> {
    if kind.Items? then
      match ParseKey(ITEM, s)
      case None => None
      case Some(x) => Some(Record(x.key, x.version, Element(x.field, 0)))
    else
      match ParseScore(s)
      case None => None
      case Some(x) => Some(Record(x.key, x.version, Element(x.member, x.score)))
  }

  ghost predicate Mine(kind: Kind, name: bytes, version: nat, s: bytes) {
    var d := Decode(kind, s);
    d.Some? && d.value.name == name && d.value.version == version
  }

  /** Decoding recovers exactly what was encoded. */
  lemma DecodeExactly(kind: Kind, name: bytes, version: nat, el: Element, s: bytes)
    requires |name| < U16 && version < U16 && Proper(kind, el)
    ensures Decode(kind, s) == Some(Record(name, version, el)) <==> s == Code(kind, name, version, el)
  {
    hide ParseKey, EncodeKey, BE, EncodeScore;
    if kind.Items? {
      ParseExactly(ITEM, s, name, version, el.member);
    } else {
      ParseScoreExactly(s, name, version, el.score, el.member);
    }
  }

  lemma DecodeProper(kind: Kind, s: bytes)
    requires Decode(kind, s).Some?
    ensures var r := Decode(kind, s).value; |r.name| < U16 && r.version < U16 && Proper(kind, r.element)
  {
    hide ParseKey, FromBE;
    ParseRange(TypeOf(kind), s);
    if kind.Scores? {
      FromBERoundTrip(ParseKey(ZSCORE, s).value.field[..8]);
      Pow256Values();
    }
  }

  /** What a typed iterator makes of the records before it: undecodable ones are
      skipped and a foreign one ends the walk. */
  ghost function Yield(rs: seq<bytes>, kind: Kind, name: bytes, version: nat): seq<Element> {
    if rs == [] then [] else
    match Decode(kind, rs[0])
    case None => Yield(rs[1..], kind, name, version)
    case Some(r) =>
      if r.name != name || r.version != version then []
      else [r.element] + Yield(rs[1..], kind, name, version)
  }

  method DecodeRecord(kind: Kind, s: bytes) returns (r: Option<Record>)
    ensures r == Decode(kind, s)
  {
    var ret, x := DecodeKey(TypeOf(kind), s);
    if ret == -1 { return None; }
    if kind.Items? { return Some(Record(x.key, x.version, Element(x.field, 0))); }
    var d := new Decoder(x.field);
    var ok, tscore := d.ReadUint(8);
    if !ok { return None; }
    var member := d.ReadData();
    return Some(Record(x.key, x.version, Element(member, DecodeScore(tscore))));
  }

  /** HIterator, SIterator, ZIteratorByLex and ZIterator. */
  class TypedIterator {
    const it: Iterator
    const kind: Kind
    const name: bytes
    const version: nat
    var element: Element

    ghost predicate Valid() reads this, it { it.Valid() }

    ghost function Rest(): seq<Element>
      reads this, it
    {
      Yield(it.Rest(), kind, name, version)
    }

    constructor (it: Iterator, kind: Kind, name: bytes, version: nat)
      requires it.Valid()
      ensures Valid() && this.it == it && this.kind == kind && this.name == name && this.version == version
      ensures Rest() == Yield(it.Rest(), kind, name, version)
    {
      this.it, this.kind, this.name, this.version := it, kind, name, version;
      this.element := Element([], 0);
    }

    method Next() returns (more: bool)
      requires Valid()
      modifies this, it
      ensures Valid()
      ensures more == (old(Rest()) != [])
      ensures more ==> element == old(Rest())[0] && Rest() == old(Rest())[1..]
      ensures more ==> 0 <= it.pos < |it.ks| && Decode(kind, it.ks[it.pos]) == Some(Record(name, version, element))
    {
      hide Ahead, Decode, Yield;
      more := it.Next();
      YieldNone(kind, name, version);
      assert more ==> old(it.Rest()) == [it.ks[it.pos]] + it.Rest();
      while more
        invariant it.Valid()
        invariant more ==> 0 <= it.pos < |it.ks|
        invariant old(Rest()) == if more then Yield([it.ks[it.pos]] + it.Rest(), kind, name, version) else []
        decreases |it.Rest()| + if more then 1 else 0
      {
        var r := DecodeRecord(kind, it.ks[it.pos]);
        ghost var rs := it.Rest();
        YieldHead(it.ks[it.pos], rs, kind, name, version);
        if r.Some? {
          if r.value.name != name || r.value.version != version { return false; }
          element := r.value.element;
          return true;
        }
        more := it.Next();
        assert more ==> rs == [it.ks[it.pos]] + it.Rest();
      }
    }
  }

  lemma YieldNone(kind: Kind, name: bytes, version: nat)
    ensures Yield([], kind, name, version) == []
  {}

  lemma YieldHead(k: bytes, rs: seq<bytes>, kind: Kind, name: bytes, version: nat)
    ensures Yield([k] + rs, kind, name, version)
            == match Decode(kind, k)
               case None => Yield(rs, kind, name, version)
               case Some(r) =>
                 if r.name != name || r.version != version then [] else [r.element] + Yield(rs, kind, name, version)
  {
    hide Decode;
    assert ([k] + rs)[1..] == rs;
  }

  // ------------------------------------------------------- what a scan delivers

  lemma {:induction false} Sandwich(p: bytes, x: bytes, f: bytes)
    requires !Less(x, p) && Less(x, p + f)
    ensures |p| <= |x| && x == p + x[|p|..]
  {
    if p == [] {
      assert x[0..] == x;
    } else {
      assert (p + f)[1..] == p[1..] + f;
      assert x != [];
      assert x[0] == p[0];
      Sandwich(p[1..], x[1..], f);
      assert x == [x[0]] + x[1..] && p == [p[0]] + p[1..];
    }
  }

  lemma FieldPrefix(kind: Kind, name: bytes, version: nat, s: bytes)
    requires |name| < U16 && version < U16 && Mine(kind, name, version, s)
    ensures ParseKey(TypeOf(kind), s).Some?
    ensures s == EncodeKey(TypeOf(kind), name, [], version) + ParseKey(TypeOf(kind), s).value.field
  {
    hide ParseKey, EncodeKey;
    var f := ParseKey(TypeOf(kind), s).value.field;
    ParseExactly(TypeOf(kind), s, name, version, f);
    WithPrefix(TypeOf(kind), name, f, version);
  }

  /** Nothing between the incarnation's prefix and one of its records can belong
      to another key or version: names that share a prefix do not interleave. */
  lemma NoStranger(kind: Kind, name: bytes, version: nat, x: bytes, s: bytes)
    requires |name| < U16 && version < U16 && Mine(kind, name, version, s)
    requires !Less(x, EncodeKey(TypeOf(kind), name, [], version)) && Less(x, s)
    ensures Decode(kind, x).None? || Mine(kind, name, version, x)
  {
    hide ParseKey, EncodeKey, Less;
    var p := EncodeKey(TypeOf(kind), name, [], version);
    FieldPrefix(kind, name, version, s);
    Sandwich(p, x, ParseKey(TypeOf(kind), s).value.field);
    WithPrefix(TypeOf(kind), name, x[|p|..], version);
    ParseExactly(TypeOf(kind), x, name, version, x[|p|..]);
  }

  ghost function Codes(els: seq<Element>, kind: Kind, name: bytes, version: nat): (r: seq<bytes>)
    requires AllProper(kind, els)
    ensures |r| == |els| && forall i :: 0 <= i < |els| ==> r[i] == Code(kind, name, version, els[i])
  {
    seq(|els|, i requires 0 <= i < |els| => Code(kind, name, version, els[i]))
  }

  ghost predicate AllProper(kind: Kind, els: seq<Element>) {
    forall i {:trigger els[i]} :: 0 <= i < |els| ==> Proper(kind, els[i])
  }

  ghost predicate AllAbove(rs: seq<bytes>, p: bytes) {
    forall i :: 0 <= i < |rs| ==> !Less(rs[i], p)
  }

  lemma Prepend(rs: seq<bytes>, cs: seq<bytes>)
    requires rs != [] && Ascending(rs) && Ascending(cs)
    requires forall s :: s in cs ==> s in rs[1..]
    ensures Ascending([rs[0]] + cs)
  {
    forall j | 0 <= j < |cs| ensures Less(rs[0], cs[j]) {
      assert cs[j] in rs[1..];
    }
  }

  /** The records delivered are the incarnation's own, in store order. */
  lemma {:induction false} YieldExact(rs: seq<bytes>, kind: Kind, name: bytes, version: nat)
    requires |name| < U16 && version < U16
    requires Ascending(rs) && AllAbove(rs, EncodeKey(TypeOf(kind), name, [], version))
    ensures AllProper(kind, Yield(rs, kind, name, version))
    ensures var cs := Codes(Yield(rs, kind, name, version), kind, name, version);
            Ascending(cs) && forall s :: s in cs <==> s in rs && Mine(kind, name, version, s)
  {
    hide EncodeKey, Less, Decode, Code;
    if rs != [] {
      YieldExact(rs[1..], kind, name, version);
      assert rs == [rs[0]] + rs[1..];
      var ys := Yield(rs[1..], kind, name, version);
      var cs := Codes(ys, kind, name, version);
      if Mine(kind, name, version, rs[0]) {
        var el := Decode(kind, rs[0]).value.element;
        DecodeProper(kind, rs[0]);
        DecodeExactly(kind, name, version, el, rs[0]);
        assert Codes([el] + ys, kind, name, version) == [rs[0]] + cs;
        Prepend(rs, cs);
      } else if Decode(kind, rs[0]).Some? {
        forall s | s in rs ensures !Mine(kind, name, version, s) {
          if s != rs[0] && Mine(kind, name, version, s) { NoStranger(kind, name, version, rs[0], s); }
        }
      }
    }
  }

  /** The records from Seek(prefix) on. */
  ghost function From(ks: seq<bytes>, kind: Kind, name: bytes, version: nat): seq<bytes> {
    ks[SeekPos(ks, EncodeKey(TypeOf(kind), name, [], version))..]
  }

  ghost function Elements(ks: seq<bytes>, kind: Kind, name: bytes, version: nat): seq<Element> {
    Yield(From(ks, kind, name, version), kind, name, version)
  }

  lemma FromAbove(ks: seq<bytes>, kind: Kind, name: bytes, version: nat)
    requires Ascending(ks)
    ensures Ascending(From(ks, kind, name, version))
    ensures AllAbove(From(ks, kind, name, version), EncodeKey(TypeOf(kind), name, [], version))
  {
    hide EncodeKey, Less;
    var p := EncodeKey(TypeOf(kind), name, [], version);
    var n := SeekPos(ks, p);
    forall i | 0 <= i < |ks| - n ensures !Less(ks[n..][i], p) { SeekAbove(ks, p, n + i); }
  }

  /** Over any store contents, scanning one incarnation delivers exactly its
      elements: each once, in store order, and nothing else. */
  lemma {:induction false} ScanExact(ks: seq<bytes>, kind: Kind, name: bytes, version: nat, el: Element)
    requires |name| < U16 && version < U16 && Ascending(ks)
    ensures var ys := Elements(ks, kind, name, version);
            AllProper(kind, ys) && Ascending(Codes(ys, kind, name, version))
            && (Proper(kind, el) ==> (el in ys <==> Code(kind, name, version, el) in ks))
  {
    hide EncodeKey, Less, Decode, Code, Yield;
    FromAbove(ks, kind, name, version);
    var rs := From(ks, kind, name, version);
    YieldExact(rs, kind, name, version);
    var ys := Yield(rs, kind, name, version);
    var cs := Codes(ys, kind, name, version);
    if Proper(kind, el) {
      var c := Code(kind, name, version, el);
      DecodeExactly(kind, name, version, el, c);
      if el in ys {
        var i :| 0 <= i < |ys| && ys[i] == el;
        assert cs[i] == c;
        assert c in cs && c in rs;
      }
      if c in ks {
        NotBelow(ks, kind, name, version, c);
        assert c in cs;
        var i :| 0 <= i < |cs| && cs[i] == c;
        DecodeExactly(kind, name, version, ys[i], c);
      }
    }
  }

  lemma NotBelow(ks: seq<bytes>, kind: Kind, name: bytes, version: nat, c: bytes)
    requires |name| < U16 && version < U16 && c in ks && Mine(kind, name, version, c)
    ensures c in From(ks, kind, name, version)
  {
    hide EncodeKey, Less, Decode;
    var p := EncodeKey(TypeOf(kind), name, [], version);
    FieldPrefix(kind, name, version, c);
    PrefixNotLess(p, ParseKey(TypeOf(kind), c).value.field);
    var i :| 0 <= i < |ks| && ks[i] == c;
    assert ks == ks[..SeekPos(ks, p)] + ks[SeekPos(ks, p)..];
  }

  lemma {:induction false} PrefixNotLess(p: bytes, f: bytes)
    ensures !Less(p + f, p)
  {
    if p != [] {
      assert (p + f)[1..] == p[1..] + f;
      PrefixNotLess(p[1..], f);
    }
  }
}
