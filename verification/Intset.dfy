/** intset.c: a sorted set of integers packed into a byte array whose elements
    are widened in place when a value needs it. */
module Intset {
  import opened Bytes
  import opened Sequences
  import opened Memory

  const ENC_INT16: nat := 2
  const ENC_INT32: nat := 4
  const ENC_INT64: nat := 8

  type Encoding = e: nat | e in {2, 4, 8} witness 2

  predicate Int64(v: int) { Fits(v, 8) }

  /** _intsetValueEncoding. */
  function ValueEncoding(v: int): (e: Encoding)
    ensures Int64(v) ==> Fits(v, e)
  {
    if v < -0x8000_0000 || v > 0x7fff_ffff then ENC_INT64
    else if v < -0x8000 || v > 0x7fff then ENC_INT32
    else ENC_INT16
  }

  /** A value fits every encoding at least as wide as its own. */
  lemma FitsWider(v: int, e: Encoding)
    requires Int64(v)
    ensures ValueEncoding(v) <= e <==> Fits(v, e)
  {}

  /** The byte offset of element n. */
  function At(n: nat, e: Encoding): nat {
    if e == 2 then 2 * n else if e == 4 then 4 * n else 8 * n
  }

  ghost predicate AllFit(vs: seq<int>, e: Encoding) {
    forall i :: 0 <= i < |vs| ==> Fits(vs[i], e)
  }

  ghost function Pack(vs: seq<int>, e: Encoding): (r: bytes)
    requires AllFit(vs, e)
    ensures |r| == At(|vs|, e)
  {
    if vs == [] then [] else Pack(vs[..|vs| - 1], e) + SignedLE(vs[|vs| - 1], e)
  }

  lemma {:induction false} PackSplit(a: seq<int>, b: seq<int>, e: Encoding)
    requires AllFit(a, e) && AllFit(b, e)
    ensures AllFit(a + b, e) && Pack(a + b, e) == Pack(a, e) + Pack(b, e)
    decreases |b|
  {
    hide SignedLE;
    if b == [] {
      assert a + b == a && Pack(a, e) + Pack(b, e) == Pack(a, e);
    } else {
      var k := |b| - 1;
      assert (a + b)[..|a + b| - 1] == a + b[..k] && (a + b)[|a + b| - 1] == b[k];
      PackSplit(a, b[..k], e);
      Associative(Pack(a, e), Pack(b[..k], e), SignedLE(b[k], e));
    }
  }

  lemma PackOne(v: int, e: Encoding)
    requires Fits(v, e)
    ensures Pack([v], e) == SignedLE(v, e)
  {
    assert [v][..0] == [];
    assert Pack([], e) + SignedLE(v, e) == SignedLE(v, e);
  }

  /** The elements of a packed array, read with _intsetGetEncoded. */
  function Get(s: bytes, pos: nat, e: Encoding): int
    requires At(pos + 1, e) <= |s|
  {
    FromSignedLE(s[At(pos, e)..At(pos + 1, e)])
  }

  lemma {:induction false} GetPacked(vs: seq<int>, e: Encoding, s: bytes, pos: nat)
    requires AllFit(vs, e) && At(|vs|, e) <= |s| && s[..At(|vs|, e)] == Pack(vs, e) && pos < |vs|
    ensures At(pos + 1, e) <= |s| && Get(s, pos, e) == vs[pos]
  {
    hide SignedLE, FromSignedLE, Pack;
    var (a, v, b) := (vs[..pos], vs[pos], vs[pos + 1..]);
    assert vs == (a + [v]) + b;
    PackSplit(a + [v], b, e);
    PackSplit(a, [v], e);
    PackOne(v, e);
    SignedRoundTrip(v, e);
    assert s[At(pos, e)..At(pos + 1, e)] == SignedLE(v, e) by {
      Slot(s, Pack(a, e), SignedLE(v, e), Pack(b, e));
    }
  }

  lemma Slot(s: bytes, a: bytes, m: bytes, b: bytes)
    requires |a| + |m| + |b| <= |s| && s[..|a| + |m| + |b|] == (a + m) + b
    ensures s[|a|..|a| + |m|] == m
  {
    var t := s[..|a| + |m| + |b|];
    assert t[|a|..|a| + |m|] == m;
  }

  // ------------------------------------------------------------------ the object

  /** contents may be longer than the elements only inside an operation. */
  datatype Intset = Intset(encoding: Encoding, length: nat, contents: bytes)

  ghost predicate Sorted(vs: seq<int>) {
    forall i, j :: 0 <= i < j < |vs| ==> vs[i] < vs[j]
  }

  /** t holds exactly the values vs, packed and strictly sorted. */
  ghost predicate Holds(t: Intset, vs: seq<int>) {
    && |vs| == t.length && At(t.length, t.encoding) < U32
    && AllFit(vs, t.encoding) && Sorted(vs)
    && t.contents == Pack(vs, t.encoding)
  }

  ghost function Members(vs: seq<int>): set<int> { set v | v in vs }

  method New() returns (t: Intset)
    ensures Holds(t, []) && t.encoding == ENC_INT16
  {
    t := Intset(ENC_INT16, 0, []);
  }

  method Read(t: Intset, pos: nat, ghost vs: seq<int>) returns (v: int)
    requires Holds(t, vs) && pos < |vs|
    ensures v == vs[pos]
  {
    hide Get, Pack, Sorted;
    assert t.contents[..At(|vs|, t.encoding)] == t.contents;
    GetPacked(vs, t.encoding, t.contents, pos);
    v := Get(t.contents, pos, t.encoding);
  }

  /** pos splits vs into the values below and above value. */
  ghost predicate Between(vs: seq<int>, pos: nat, value: int) {
    && pos <= |vs|
    && (forall i :: 0 <= i < pos ==> vs[i] < value)
    && (forall i :: pos <= i < |vs| ==> value < vs[i])
  }

  /** intsetSearch: the position of value, or where it belongs. */
  method Search(t: Intset, value: int, ghost vs: seq<int>) returns (found: bool, pos: nat)
    requires Holds(t, vs)
    ensures found == (value in vs)
    ensures found ==> pos < |vs| && vs[pos] == value
    ensures !found ==> Between(vs, pos, value)
  {
    hide Pack, AllFit, At, Fits;
    if t.length == 0 { return false, 0; }
    var last := Read(t, t.length - 1, vs);
    if value > last { return false, t.length; }
    var first := Read(t, 0, vs);
    if value < first { return false, 0; }
    var min: int, max: int, mid: int, cur: int := 0, t.length - 1, -1, -1;
    while max >= min
      invariant 0 <= min <= t.length && -1 <= max < t.length && min <= max + 1
      invariant forall i :: 0 <= i < min ==> vs[i] < value
      invariant forall i :: max < i < |vs| ==> value < vs[i]
      invariant if mid == -1 then min <= max else cur != value
      decreases max - min
    {
      mid := (min + max) / 2;
      cur := Read(t, mid, vs);
      if value > cur {
        min := mid + 1;
      } else if value < cur {
        max := mid - 1;
      } else {
        break;
      }
    }
    if value == cur {
      return true, mid;
    } else {
      return false, min;
    }
  }

  // ---------------------------------------------------------------- widening

  /** Where a write leaves the bytes before it and after it. */
  lemma PutSlices(s: bytes, p: nat, x: bytes, a: nat, b: nat)
    requires a <= p && p + |x| <= b <= |s|
    ensures PutAt(s, p, x)[..a] == s[..a]
    ensures PutAt(s, p, x)[p..b] == x + s[p + |x|..b]
  {}

  lemma AtMonotone(i: nat, j: nat, e: Encoding, f: Encoding)
    requires i <= j && e <= f
    ensures At(i, e) <= At(j, f) && At(j + 1, e) == At(j, e) + e
  {}

  lemma FitsMonotone(vs: seq<int>, e: Encoding, f: Encoding)
    requires AllFit(vs, e) && e <= f
    ensures AllFit(vs, f)
  {}

  /** The state of the back-to-front loop: the first j elements still narrow,
      the others already wide and moved up by shift slots. */
  ghost predicate HalfWidened(b: bytes, vs: seq<int>, j: nat, e: Encoding, f: Encoding, shift: nat) {
    && j <= |vs| && AllFit(vs, e) && AllFit(vs, f) && e < f && shift <= 1
    && |b| == At(|vs| + 1, f)
    && At(j, e) <= At(j + shift, f) <= At(|vs| + shift, f) <= |b|
    && b[..At(j, e)] == Pack(vs[..j], e)
    && b[At(j + shift, f)..At(|vs| + shift, f)] == Pack(vs[j..], f)
  }

  /** One turn of the loop never overwrites an element still to be read. */
  lemma {:induction false} WidenStep(b: bytes, vs: seq<int>, j: nat, e: Encoding, f: Encoding, shift: nat)
    requires HalfWidened(b, vs, j + 1, e, f, shift)
    ensures At(j + 1, e) <= |b| && Get(b, j, e) == vs[j] && Fits(vs[j], f)
    ensures At(j + shift, f) + f <= |b|
    ensures HalfWidened(PutAt(b, At(j + shift, f), SignedLE(vs[j], f)), vs, j, e, f, shift)
  {
    hide Pack, At, SignedLE, Get, PutAt, Fits;
    AtMonotone(j, j, e, e);
    AtMonotone(j, j + shift, e, f);
    AtMonotone(j + shift, j + shift, f, f);
    AtMonotone(j + shift, |vs| + shift, f, f);
    AtMonotone(j + shift + 1, |vs| + shift, f, f);
    AtMonotone(|vs| + shift, |vs| + 1, f, f);
    assert vs[..j + 1][j] == vs[j];
    GetPacked(vs[..j + 1], e, b, j);
    var (p, x, hi) := (At(j + shift, f), SignedLE(vs[j], f), At(|vs| + shift, f));
    PutSlices(b, p, x, At(j, e), hi);
    assert vs[..j + 1] == vs[..j] + [vs[j]];
    PackSplit(vs[..j], [vs[j]], e);
    assert b[..At(j, e)] == b[..At(j + 1, e)][..At(j, e)] == Pack(vs[..j], e);
    assert vs[j..] == [vs[j]] + vs[j + 1..];
    PackSplit([vs[j]], vs[j + 1..], f);
    PackOne(vs[j], f);
  }

  /** A realloc'd narrow array is the loop's initial state. */
  lemma WidenStart(b: bytes, vs: seq<int>, e: Encoding, f: Encoding, shift: nat)
    requires AllFit(vs, e) && e < f && shift <= 1 && |b| == At(|vs| + 1, f)
    requires b[..At(|vs|, e)] == Pack(vs, e)
    ensures HalfWidened(b, vs, |vs|, e, f, shift)
  {
    hide Pack, Fits;
    assert vs[..|vs|] == vs && vs[|vs|..] == [];
    FitsMonotone(vs, e, f);
    PackEmpty(f);
  }

  lemma PackEmpty(e: Encoding)
    ensures Pack([], e) == []
  {}

  /** The wide array with the new value at the free end. */
  lemma WidenEnd(b: bytes, vs: seq<int>, value: int, e: Encoding, f: Encoding, shift: nat)
    requires HalfWidened(b, vs, 0, e, f, shift) && Fits(value, f)
    ensures shift == 1 ==> AllFit([value] + vs, f) && PutAt(b, 0, SignedLE(value, f)) == Pack([value] + vs, f)
    ensures shift == 0 ==> AllFit(vs + [value], f) && PutAt(b, At(|vs|, f), SignedLE(value, f)) == Pack(vs + [value], f)
  {
    hide Pack, SignedLE, Fits;
    PackOne(value, f);
    assert vs[0..] == vs;
    var w := Pack(vs, f);
    if shift == 1 {
      PackSplit([value], vs, f);
      assert b[f..] == w;
      assert PutAt(b, 0, SignedLE(value, f)) == SignedLE(value, f) + b[f..];
    } else {
      PackSplit(vs, [value], f);
      assert b[..|w|] == w;
      assert PutAt(b, |w|, SignedLE(value, f)) == b[..|w|] + SignedLE(value, f);
    }
  }

  /** A value too wide for every element lies below or above all of them. */
  lemma OutsideRange(vs: seq<int>, value: int, e: Encoding)
    requires AllFit(vs, e) && Int64(value) && ValueEncoding(value) > e
    ensures Between(vs, if value < 0 then 0 else |vs|, value)
  {}

  /** vs with value put in at pos. */
  ghost function Inserted(vs: seq<int>, pos: nat, value: int): seq<int>
    requires pos <= |vs|
  {
    vs[..pos] + ([value] + vs[pos..])
  }

  /** Inserting a new value where it belongs adds it to the set in order. */
  lemma InsertedSorted(vs: seq<int>, pos: nat, value: int)
    requires Sorted(vs) && Between(vs, pos, value)
    ensures Sorted(Inserted(vs, pos, value)) && value !in vs
    ensures Members(Inserted(vs, pos, value)) == Members(vs) + {value}
  {
    var r := Inserted(vs, pos, value);
    forall i | 0 <= i < |r|
      ensures r[i] == if i < pos then vs[i] else if i == pos then value else vs[i - 1]
    {}
    assert r[pos] == value;
    forall v | v in vs ensures v in r {
      var i :| 0 <= i < |vs| && vs[i] == v;
      assert r[if i < pos then i else i + 1] == v;
    }
  }

  lemma RemovedSorted(vs: seq<int>, pos: nat)
    requires Sorted(vs) && pos < |vs|
    ensures Sorted(vs[..pos] + vs[pos + 1..])
    ensures Members(vs[..pos] + vs[pos + 1..]) == Members(vs) - {vs[pos]}
  {
    var r := vs[..pos] + vs[pos + 1..];
    forall v | v in vs && v != vs[pos] ensures v in r {
      var i :| 0 <= i < |vs| && vs[i] == v;
      assert r[if i < pos then i else i - 1] == v;
    }
  }

  /** intsetUpgradeAndAdd: widen every element, back to front in the same
      buffer, and put value at the end it belongs to. */
  method UpgradeAndAdd(t: Intset, value: int, ghost vs: seq<int>) returns (r: Intset, ghost ws: seq<int>)
    requires Holds(t, vs) && Int64(value) && ValueEncoding(value) > t.encoding
    requires At(|vs| + 1, ValueEncoding(value)) < U32
    ensures Holds(r, ws) && Members(ws) == Members(vs) + {value} && value !in vs
    ensures r.length == t.length + 1 && r.encoding == ValueEncoding(value)
  {
    hide Pack, SignedLE, Get, PutAt, Fits, HalfWidened, Sorted, Members, AllFit;
    var e, f := t.encoding, ValueEncoding(value);
    var j: nat := t.length;
    var shift := if value < 0 then 1 else 0;
    var b := Realloc(t.contents, At(t.length + 1, f));
    WidenStart(b, vs, e, f, shift);
    while j > 0
      invariant j <= t.length
      invariant HalfWidened(b, vs, j, e, f, shift)
    {
      j := j - 1;
      WidenStep(b, vs, j, e, f, shift);
      b := PutAt(b, At(j + shift, f), SignedLE(Get(b, j, e), f));
    }
    WidenEnd(b, vs, value, e, f, shift);
    assert HalfWidenedSize(b, vs, f) by { HalfWidenedHasRoom(b, vs, e, f, shift); }
    if shift == 1 {
      b := PutAt(b, 0, SignedLE(value, f));
    } else {
      b := PutAt(b, At(t.length, f), SignedLE(value, f));
    }
    r := Intset(f, t.length + 1, b);
    OutsideRange(vs, value, e);
    var pos := if value < 0 then 0 else |vs|;
    InsertedSorted(vs, pos, value);
    ws := Inserted(vs, pos, value);
    assert ws == if shift == 1 then [value] + vs else vs + [value];
  }

  ghost predicate HalfWidenedSize(b: bytes, vs: seq<int>, f: Encoding) { |b| == At(|vs| + 1, f) }

  lemma HalfWidenedHasRoom(b: bytes, vs: seq<int>, e: Encoding, f: Encoding, shift: nat)
    requires HalfWidened(b, vs, 0, e, f, shift)
    ensures HalfWidenedSize(b, vs, f)
  {}

  // ------------------------------------------------------- insertion and removal

  /** intsetMoveTail. */
  method MoveTail(s: bytes, length: nat, e: Encoding, from: nat, to: nat) returns (r: bytes)
    requires from <= length && At(length, e) <= |s| && At(to, e) + At(length - from, e) <= |s|
    ensures At(from, e) + At(length - from, e) == At(length, e)
    ensures r == MemMove(s, At(to, e), At(from, e), At(length - from, e))
  {
    r := MemMove(s, At(to, e), At(from, e), At(length - from, e));
  }

  /** Opening a slot and filling it is insertion. */
  lemma {:induction false} InsertPacked(s: bytes, vs: seq<int>, e: Encoding, pos: nat, value: int)
    requires AllFit(vs, e) && Fits(value, e) && pos <= |vs| && |s| == At(|vs| + 1, e)
    requires s[..At(|vs|, e)] == Pack(vs, e)
    ensures At(pos + 1, e) <= |s| && At(pos + 1, e) + At(|vs| - pos, e) == |s|
    ensures AllFit(Inserted(vs, pos, value), e)
    ensures PutAt(MemMove(s, At(pos + 1, e), At(pos, e), At(|vs| - pos, e)), At(pos, e), SignedLE(value, e))
            == Pack(Inserted(vs, pos, value), e)
  {
    hide Pack, SignedLE, Fits, PutAt, MemMove;
    var (a, b) := (vs[..pos], vs[pos..]);
    assert vs == a + b;
    PackSplit(a, b, e);
    PackSplit([value], b, e);
    PackSplit(a, [value] + b, e);
    PackOne(value, e);
    OpenSlot(s, Pack(a, e), Pack(b, e), SignedLE(value, e));
  }

  lemma OpenSlot(s: bytes, a: bytes, b: bytes, x: bytes)
    requires |s| == |a| + |x| + |b| && s[..|a| + |b|] == a + b
    ensures PutAt(MemMove(s, |a| + |x|, |a|, |b|), |a|, x) == a + (x + b)
  {
    var t := s[..|a| + |b|];
    assert s[..|a|] == t[..|a|] == a;
    assert s[|a|..|a| + |b|] == t[|a|..] == b;
  }

  lemma CloseSlot(a: bytes, x: bytes, b: bytes)
    ensures MemMove(a + (x + b), |a|, |a| + |x|, |b|)[..|a| + |b|] == a + b
  {
    var s := a + (x + b);
    assert s[|a| + |x|..] == b && s[..|a|] == a;
  }

  /** With nothing behind the slot there is nothing to move. */
  lemma MoveNothing(s: bytes, dst: nat, src: nat)
    requires dst <= |s| && src <= |s|
    ensures MemMove(s, dst, src, 0) == s
  {}

  lemma {:induction false} RemovePacked(s: bytes, vs: seq<int>, e: Encoding, pos: nat)
    requires AllFit(vs, e) && pos < |vs| && s == Pack(vs, e)
    ensures At(pos + 1, e) + At(|vs| - pos - 1, e) == |s| && At(pos, e) <= At(pos + 1, e)
    ensures AllFit(vs[..pos] + vs[pos + 1..], e) && At(|vs| - 1, e) <= |s|
    ensures MemMove(s, At(pos, e), At(pos + 1, e), At(|vs| - pos - 1, e))[..At(|vs| - 1, e)]
            == Pack(vs[..pos] + vs[pos + 1..], e)
  {
    hide Pack, SignedLE, Fits, PutAt, MemMove;
    var (a, v, b) := (vs[..pos], [vs[pos]], vs[pos + 1..]);
    assert vs == a + (v + b);
    PackSplit(v, b, e);
    PackSplit(a, v + b, e);
    PackSplit(a, b, e);
    CloseSlot(Pack(a, e), Pack(v, e), Pack(b, e));
  }

  function Wider(e: Encoding, f: Encoding): Encoding { if f > e then f else e }

  /** intsetAdd. */
  method Add(t: Intset, value: int, ghost vs: seq<int>) returns (r: Intset, success: bool, ghost ws: seq<int>)
    requires Holds(t, vs) && Int64(value)
    requires value in vs || At(|vs| + 1, Wider(t.encoding, ValueEncoding(value))) < U32
    ensures Holds(r, ws) && Members(ws) == Members(vs) + {value}
    ensures success == (value !in vs) && (!success ==> r == t && ws == vs)
    ensures r.length == (t.length + if success then 1 else 0) && r.encoding == Wider(t.encoding, ValueEncoding(value))
  {
    hide Pack, SignedLE, PutAt, MemMove, Fits, Sorted, Members, AllFit;
    if ValueEncoding(value) > t.encoding {
      OutsideRange(vs, value, t.encoding);
      r, ws := UpgradeAndAdd(t, value, vs);
      return r, true, ws;
    }
    FitsWider(value, t.encoding);
    var found, pos := Search(t, value, vs);
    if found {
      MemberAdded(vs, value);
      return t, false, vs;
    }
    var s := Realloc(t.contents, At(t.length + 1, t.encoding));
    InsertPacked(s, vs, t.encoding, pos, value);
    InsertedSorted(vs, pos, value);
    ws := Inserted(vs, pos, value);
    if pos < t.length {
      s := MoveTail(s, t.length, t.encoding, pos, pos + 1);
    } else {
      MoveNothing(s, At(pos + 1, t.encoding), At(pos, t.encoding));
    }
    s := PutAt(s, At(pos, t.encoding), SignedLE(value, t.encoding));
    return Intset(t.encoding, t.length + 1, s), true, ws;
  }

  lemma MemberAdded(vs: seq<int>, value: int)
    requires value in vs
    ensures Members(vs) + {value} == Members(vs)
  {}

  lemma NotMember(vs: seq<int>, value: int)
    requires value !in vs
    ensures Members(vs) - {value} == Members(vs)
  {}

  /** intsetRemove; the encoding never narrows again. */
  method Remove(t: Intset, value: int, ghost vs: seq<int>) returns (r: Intset, success: bool, ghost ws: seq<int>)
    requires Holds(t, vs) && Int64(value)
    ensures Holds(r, ws) && Members(ws) == Members(vs) - {value} && r.encoding == t.encoding
    ensures success == (value in vs) && (!success ==> r == t && ws == vs)
    ensures r.length == t.length - if success then 1 else 0
  {
    hide Pack, SignedLE, PutAt, MemMove, Fits, Sorted, Members;
    FitsWider(value, t.encoding);
    if ValueEncoding(value) <= t.encoding {
      var found, pos := Search(t, value, vs);
      if found {
        RemovePacked(t.contents, vs, t.encoding, pos);
        RemovedSorted(vs, pos);
        var s := t.contents;
        if pos < t.length - 1 {
          s := MoveTail(s, t.length, t.encoding, pos + 1, pos);
        } else {
          MoveNothing(s, At(pos, t.encoding), At(pos + 1, t.encoding));
        }
        s := Realloc(s, At(t.length - 1, t.encoding));
        ws := vs[..pos] + vs[pos + 1..];
        return Intset(t.encoding, t.length - 1, s), true, ws;
      }
    }
    NotMember(vs, value);
    return t, false, vs;
  }

  /** intsetFind. */
  method Find(t: Intset, value: int, ghost vs: seq<int>) returns (found: bool)
    requires Holds(t, vs) && Int64(value)
    ensures found == (value in Members(vs))
  {
    hide Pack, Fits, Sorted;
    FitsWider(value, t.encoding);
    if ValueEncoding(value) > t.encoding { return false; }
    var pos;
    found, pos := Search(t, value, vs);
  }

  /** Strictly sorted arrays are equal exactly when they hold the same set, so
      the bytes of an intset are determined by its width and its members. */
  lemma {:induction false} SortedUnique(a: seq<int>, b: seq<int>)
    requires Sorted(a) && Sorted(b) && Members(a) == Members(b)
    ensures a == b
  {
    assert b != [] ==> b[0] in Members(b);
    if a != [] {
      var x := a[|a| - 1];
      assert x in Members(a) && x in b;
      var y := b[|b| - 1];
      assert y in Members(b) && y in a;
      assert x == y;
      RemovedSorted(a, |a| - 1);
      RemovedSorted(b, |b| - 1);
      assert a[..|a| - 1] + a[|a|..] == a[..|a| - 1];
      assert b[..|b| - 1] + b[|b|..] == b[..|b| - 1];
      SortedUnique(a[..|a| - 1], b[..|b| - 1]);
    }
  }

  // ------------------------------------------------------------------- whole runs

  type Long = v: int | Int64(v) witness 0

  datatype Op = Insert(v: Long) | Delete(v: Long)

  /** The mathematical set after a run of operations. */
  ghost function After(ops: seq<Op>): set<int> {
    if ops == [] then {} else
    var was := After(ops[..|ops| - 1]);
    match ops[|ops| - 1]
    case Insert(v) => was + {v}
    case Delete(v) => was - {v}
  }

  /** The width after them: it grows with the widest value added and never shrinks. */
  ghost function WidthAfter(ops: seq<Op>): Encoding {
    if ops == [] then ENC_INT16 else
    var was := WidthAfter(ops[..|ops| - 1]);
    match ops[|ops| - 1]
    case Insert(v) => Wider(was, ValueEncoding(v))
    case Delete(_) => was
  }

  /** The set stays below 4 GiB all along. */
  ghost predicate Small(ops: seq<Op>) {
    forall n :: 0 <= n <= |ops| ==> At(|After(ops[..n])|, WidthAfter(ops[..n])) < U32
  }

  lemma {:induction false} SortedCounts(vs: seq<int>)
    requires Sorted(vs)
    ensures |Members(vs)| == |vs|
  {
    if vs != [] {
      var (n, init) := (|vs| - 1, vs[..|vs| - 1]);
      SortedCounts(init);
      assert Members(vs) == Members(init) + {vs[n]};
      assert vs[n] !in Members(init);
    }
  }

  lemma CountAdded(vs: seq<int>, v: int)
    requires Sorted(vs) && v !in vs
    ensures |Members(vs) + {v}| == |vs| + 1
  {
    SortedCounts(vs);
    assert v !in Members(vs);
  }

  lemma RunStart()
    ensures After([]) == Members([]) == {} && WidthAfter([]) == ENC_INT16
  {}

  lemma RunStep(ops: seq<Op>, n: nat, vs: seq<int>)
    requires Small(ops) && n < |ops|
    requires Sorted(vs) && Members(vs) == After(ops[..n])
    ensures match ops[n]
            case Insert(v) =>
              && After(ops[..n + 1]) == Members(vs) + {v}
              && WidthAfter(ops[..n + 1]) == Wider(WidthAfter(ops[..n]), ValueEncoding(v))
              && (v in vs || At(|vs| + 1, WidthAfter(ops[..n + 1])) < U32)
            case Delete(v) => After(ops[..n + 1]) == Members(vs) - {v} && WidthAfter(ops[..n + 1]) == WidthAfter(ops[..n])
  {
    hide Sorted, Members;
    assert ops[..n + 1][..n] == ops[..n];
    assert At(|After(ops[..n + 1])|, WidthAfter(ops[..n + 1])) < U32;
    if ops[n].Insert? && ops[n].v !in vs { CountAdded(vs, ops[n].v); }
  }

  /** Any run of additions and removals from an empty intset holds exactly the
      mathematical set, sorted, and answers membership accordingly. */
  method Run(ops: seq<Op>, probe: int) returns (t: Intset, found: bool, ghost vs: seq<int>)
    requires Int64(probe) && Small(ops)
    ensures Holds(t, vs) && Members(vs) == After(ops)
    ensures found == (probe in After(ops))
  {
    hide Sorted, AllFit, Pack, Fits, Members, After, WidthAfter, Small;
    t := New();
    vs := [];
    RunStart();
    assert ops[..0] == [];
    for n := 0 to |ops|
      invariant Holds(t, vs) && Members(vs) == After(ops[..n]) && t.encoding == WidthAfter(ops[..n])
    {
      RunStep(ops, n, vs);
      var done;
      match ops[n]
      case Insert(v) => t, done, vs := Add(t, v, vs);
      case Delete(v) => t, done, vs := Remove(t, v, vs);
    }
    assert ops[..|ops|] == ops;
    found := Find(t, probe, vs);
  }
}
