/** ziplistDelete and the traversals, on the byte image of the list. */
module Ziplist {
  import opened Bytes
  import opened Sequences
  import opened Options
  import opened Memory
  import opened Decimal
  import opened ZipEntry
  import opened ZipSpec
  import opened ZipBuffer

  // ------------------------------------------------------------------- positions

  /** The entries alone, back to back. */
  function Flat(es: seq<Entry>): (r: bytes)
    requires AllValid(es)
    ensures |r| == TotalSize(es)
  {
    if es == [] then [] else EntryBytes(es[0]) + Flat(es[1..])
  }

  lemma {:induction false} RestFlat(a: seq<Entry>, b: seq<Entry>)
    requires AllValid(a) && AllValid(b)
    ensures AllValid(a + b) && Rest(a + b) == Flat(a) + Rest(b)
    decreases |a|
  {
    hide EntryBytes;
    if a == [] {
      assert a + b == b && Flat(a) + Rest(b) == Rest(b);
    } else {
      assert (a + b)[1..] == a[1..] + b;
      RestFlat(a[1..], b);
      Associative(EntryBytes(a[0]), Flat(a[1..]), Rest(b));
    }
  }

  lemma {:induction false} FlatJoin(a: seq<Entry>, b: seq<Entry>)
    requires AllValid(a) && AllValid(b)
    ensures AllValid(a + b) && Flat(a + b) == Flat(a) + Flat(b)
    decreases |a|
  {
    hide EntryBytes;
    if a == [] {
      assert a + b == b && Flat(a) + Flat(b) == Flat(b);
    } else {
      assert (a + b)[1..] == a[1..] + b;
      FlatJoin(a[1..], b);
      Associative(EntryBytes(a[0]), Flat(a[1..]), Flat(b));
    }
  }

  /** Where entry i starts in the image. */
  function Offset(es: seq<Entry>, i: nat): nat
    requires i <= |es|
  {
    10 + TotalSize(es[..i])
  }

  lemma {:induction false} LastOffsetSplit(a: seq<Entry>, b: seq<Entry>)
    requires b != []
    ensures LastOffset(a + b) == TotalSize(a) + LastOffset(b)
    decreases |a|
  {
    if a == [] {
      assert a + b == b;
    } else {
      assert (a + b)[1..] == a[1..] + b;
      LastOffsetSplit(a[1..], b);
    }
  }

  lemma {:induction false} LastEntry(es: seq<Entry>)
    ensures es == [] ==> LastOffset(es) == 0
    ensures es != [] ==> 10 + LastOffset(es) == Offset(es, |es| - 1)
    ensures TotalSize(es) == LastOffset(es) + LastSize(0, es)
  {
    if es != [] {
      hide LastOffset, TotalSize;
      var k := |es| - 1;
      LastAlone(es[k]);
      assert es == es[..k] + [es[k]];
      LastOffsetSplit(es[..k], [es[k]]);
      TotalSplit(es[..k], [es[k]]);
    }
  }

  lemma LastAlone(e: Entry)
    ensures LastOffset([e]) == 0 && TotalSize([e]) == e.Size()
  {}

  lemma FlatOne(e: Entry)
    requires e.Valid()
    ensures Flat([e]) == EntryBytes(e)
  {
    assert EntryBytes(e) + [] == EntryBytes(e);
  }

  /** The image, split in front of entry i. */
  lemma {:induction false} ImageAt(z: Zip, i: nat)
    requires AllValid(z.es) && i <= |z.es|
    ensures var (a, b) := (z.es[..i], z.es[i..]);
            && AllValid(a) && AllValid(b) && 10 + |Flat(a)| == Offset(z.es, i)
            && Image(z) == BufferT(Flat(a), b, 10 + LastOffset(z.es), z.count)
            && (b != [] ==> LastOffset(z.es) == |Flat(a)| + LastOffset(b))
  {
    hide Head, EntryBytes, WellSized, LastOffset, Rest, Flat, TotalSize;
    var (a, b) := (z.es[..i], z.es[i..]);
    assert z.es == a + b;
    RestFlat(a, b);
    TotalSplit(a, b);
    assert [] + Rest(z.es) == Rest(z.es);
    if b != [] { LastOffsetSplit(a, b); }
  }

  lemma {:induction false} OffsetNext(es: seq<Entry>, i: nat)
    requires i < |es|
    ensures Offset(es, i + 1) == Offset(es, i) + es[i].Size()
  {
    assert es[..i + 1] == es[..i] + [es[i]];
    TotalSplit(es[..i], [es[i]]);
  }

  /** What the code sees at the position of entry i. */
  lemma {:induction false} SeeAt(z: Zip, i: nat)
    requires AllValid(z.es) && i <= |z.es|
    ensures var (zl, p) := (Image(z), Offset(z.es, i));
            && p < |zl|
            && (zl[p] == ZIP_END <==> i == |z.es|)
            && (i < |z.es| ==> EntryAt(zl, p, z.es[i]))
  {
    hide Rest, BufferT, EntryBytes, WellSized, Image, EntryAt, TotalSize, Flat;
    ImageAt(z, i);
    AtCursor(Flat(z.es[..i]), z.es[i..], 10 + LastOffset(z.es), z.count);
  }

  // ------------------------------------------------------------------ traversals

  /** ziplistNext. */
  method Next(zl: bytes, p: nat, ghost z: Zip, ghost i: nat) returns (r: Option<nat>)
    requires AllValid(z.es) && zl == Image(z) && i <= |z.es| && p == Offset(z.es, i)
    ensures r == if i + 1 < |z.es| then Some(Offset(z.es, i + 1)) else None
  {
    hide Image, Offset, WellSized, EntryAt;
    SeeAt(z, i);
    if zl[p] == ZIP_END { return None; }
    var e := ReadEntry(zl, p, z.es[i]);
    OffsetNext(z.es, i);
    SeeAt(z, i + 1);
    if zl[p + e.Raw()] == ZIP_END { return None; }
    return Some(p + e.Raw());
  }

  lemma {:induction false} TailSeen(z: Zip)
    requires WellFormed(z)
    ensures |Image(z)| >= 10 && TailOf(Image(z)) == if z.es == [] then 10 else Offset(z.es, |z.es| - 1)
  {
    hide Head, Rest, TailOf, Offset, WellSized;
    LastBound'(z.es);
    HeadReads(11 + TotalSize(z.es), 10 + LastOffset(z.es), z.count, [] + Rest(z.es));
    LastEntry(z.es);
  }

  lemma LastBound'(es: seq<Entry>)
    ensures LastOffset(es) <= TotalSize(es)
  {
    if es != [] { LastBound(es); }
  }

  /** Stepping back by the back link lands on the entry in front. */
  lemma {:induction false} StepBack(z: Zip, i: nat)
    requires WellFormed(z) && i < |z.es|
    ensures z.es[i].prev == 0 <==> i == 0
    ensures i > 0 ==> Offset(z.es, i) - z.es[i].prev == Offset(z.es, i - 1)
  {
    hide WellSized, TotalSize, Offset;
    BackLink(z, i);
    if i > 0 { OffsetNext(z.es, i - 1); }
  }

  /** ziplistPrev. */
  method Prev(zl: bytes, p: nat, ghost z: Zip, ghost i: nat) returns (r: Option<nat>)
    requires WellFormed(z) && zl == Image(z) && i <= |z.es| && p == Offset(z.es, i)
    ensures r == if i > 0 then Some(Offset(z.es, i - 1)) else None
  {
    hide Image, Offset, WellSized, EntryAt, TailOf, WellFormed;
    HeadOffset(z);
    SeeAt(z, i);
    if zl[p] == ZIP_END {
      TailSeen(z);
      var t := TailOf(zl);
      SeeAt(z, if i == 0 then 0 else i - 1);
      if zl[t] == ZIP_END { return None; }
      return Some(t);
    }
    OffsetGrows(z.es, 0, i);
    if p == 10 { return None; }
    var e := ReadEntry(zl, p, z.es[i]);
    StepBack(z, i);
    return Some(p - e.prevLen);
  }

  lemma HeadOffset(z: Zip)
    requires WellFormed(z)
    ensures AllValid(z.es) && Offset(z.es, 0) == 10
  {
    assert z.es[..0] == [];
  }

  lemma {:induction false} OffsetGrows(es: seq<Entry>, i: nat, j: nat)
    requires AllValid(es) && i <= j <= |es|
    ensures i < j ==> Offset(es, i) < Offset(es, j)
    ensures i == j ==> Offset(es, i) == Offset(es, j)
    decreases j - i
  {
    hide WellSized, TotalSize, Offset;
    if i < j {
      OffsetNext(es, j - 1);
      OffsetGrows(es, i, j - 1);
    }
  }

  /** ziplistIndex counting from the front. */
  method IndexForward(zl: bytes, index: nat, ghost z: Zip) returns (r: Option<nat>)
    requires WellFormed(z) && zl == Image(z)
    ensures r == if index < |z.es| then Some(Offset(z.es, index)) else None
  {
    hide Image, Offset, WellSized, EntryAt, WellFormed;
    HeadOffset(z);
    SeeAt(z, 0);
    var p, k := 10, index;
    ghost var i := 0;
    while zl[p] != ZIP_END && k > 0
      invariant 0 <= k <= index && i == index - k <= |z.es| && p == Offset(z.es, i) < |zl|
      invariant zl[p] == ZIP_END <==> i == |z.es|
      decreases k
    {
      SeeAt(z, i);
      var e := ReadEntry(zl, p, z.es[i]);
      OffsetNext(z.es, i);
      SeeAt(z, i + 1);
      p, k, i := p + e.Raw(), k - 1, i + 1;
    }
    return if zl[p] == ZIP_END || k > 0 then None else Some(p);
  }

  /** ziplistIndex counting from the back, along the back links. */
  method IndexBackward(zl: bytes, index: nat, ghost z: Zip) returns (r: Option<nat>)
    requires WellFormed(z) && zl == Image(z)
    ensures r == if index < |z.es| then Some(Offset(z.es, |z.es| - 1 - index)) else None
  {
    hide Image, Offset, WellSized, EntryAt, WellFormed, TailOf;
    HeadOffset(z);
    TailSeen(z);
    var p, k := TailOf(zl), index;
    ghost var i := if z.es == [] then 0 else |z.es| - 1;
    SeeAt(z, i);
    if zl[p] != ZIP_END {
      var e := ReadEntry(zl, p, z.es[i]);
      StepBack(z, i);
      while e.prevLen > 0 && k > 0
        invariant 0 <= k <= index && i == |z.es| - 1 - (index - k) >= 0
        invariant p == Offset(z.es, i) < |zl| && zl[p] != ZIP_END
        invariant e == Fields(z.es[i]) && (e.prevLen == 0 <==> i == 0)
        decreases k
      {
        StepBack(z, i);
        SeeAt(z, i - 1);
        p, k, i := p - e.prevLen, k - 1, i - 1;
        e := ReadEntry(zl, p, z.es[i]);
        StepBack(z, i);
      }
    }
    return if zl[p] == ZIP_END || k > 0 then None else Some(p);
  }

  /** ziplistIndex: both directions name the same entries. */
  method Index(zl: bytes, index: int, ghost z: Zip) returns (r: Option<nat>)
    requires WellFormed(z) && zl == Image(z)
    requires -0x8000_0000 < index <= 0x7fff_ffff
    ensures 0 <= index < |z.es| ==> r == Some(Offset(z.es, index))
    ensures -|z.es| <= index < 0 ==> r == Some(Offset(z.es, |z.es| + index))
    ensures !(-|z.es| <= index < |z.es|) ==> r == None
  {
    hide Image, Offset, WellFormed;
    if index < 0 {
      r := IndexBackward(zl, -index - 1, z);
    } else {
      r := IndexForward(zl, index, z);
    }
  }

  lemma {:induction false} CountSeen(z: Zip, n: nat)
    requires WellFormed(z) && n < U16
    ensures |Image(z)| >= 10 && CountOf(Image(z)) == z.count && PutAt(Image(z), 8, LE(n, 2)) == Image(z.(count := n))
  {
    hide Head, Rest, CountOf, WellSized, LE, PutAt;
    LastBound'(z.es);
    HeadReads(11 + TotalSize(z.es), 10 + LastOffset(z.es), z.count, [] + Rest(z.es));
    HeadWrites(11 + TotalSize(z.es), 10 + LastOffset(z.es), z.count, [] + Rest(z.es), n);
  }

  /** ziplistLen: a count that has run full is counted again, and restored if it
      fits. */
  method Len(zl: bytes, ghost z: Zip) returns (len: nat, r: bytes)
    requires WellFormed(z) && zl == Image(z)
    ensures len == |z.es|
    ensures var z' := z.(count := if |z.es| < U16 - 1 then |z.es| else U16 - 1); WellFormed(z') && r == Image(z')
  {
    hide Image, Offset, WellSized, EntryAt, CountOf, PutAt, LE, Linked;
    CountSeen(z, z.count);
    if CountOf(zl) < U16 - 1 { return CountOf(zl), zl; }
    len := 0;
    HeadOffset(z);
    SeeAt(z, 0);
    var p := 10;
    while zl[p] != ZIP_END
      invariant len <= |z.es| && p == Offset(z.es, len) < |zl|
      invariant zl[p] == ZIP_END <==> len == |z.es|
      decreases |z.es| - len
    {
      SeeAt(z, len);
      var e := ReadEntry(zl, p, z.es[len]);
      OffsetNext(z.es, len);
      SeeAt(z, len + 1);
      p, len := p + e.Raw(), len + 1;
    }
    r := zl;
    if len < U16 - 1 {
      CountSeen(z, len);
      r := PutAt(zl, 8, LE(len, 2));
    }
  }

  /** ziplistGet: the string, or the integer that prints as the string. */
  method Get(zl: bytes, p: nat, ghost z: Zip, ghost i: nat) returns (found: bool, isStr: bool, s: bytes, v: int)
    requires AllValid(z.es) && zl == Image(z) && i <= |z.es| && p == Offset(z.es, i)
    ensures found == (i < |z.es|)
    ensures found ==> Element(z.es[i].body) == if isStr then s else Print(v)
  {
    hide Image, Offset, Element, WellSized, EntryAt;
    SeeAt(z, i);
    if zl[p] == ZIP_END { return false, false, [], 0; }
    found := true;
    isStr, s, v := ReadElement(zl, p, z.es[i]);
  }

  // -------------------------------------------------------------------- deletion

  /** Everything from k on, moved down to just behind a, then cut to size. */
  lemma CutBytes(d: bytes, a: bytes, k: nat, x: bytes, d': bytes)
    requires |a| <= k <= |d| && d[..|a|] == a && d[k..] == x && x != [] && x[|x| - 1] == ZIP_END
    requires |d'| == |a| + |x| && d'[|d'| - 1] == ZIP_END
    requires d'[..|d'| - 1] == MemMove(d, |a|, k, |x| - 1)[..|d'| - 1]
    ensures d' == a + x
  {
    var m := MemMove(d, |a|, k, |x| - 1);
    assert d[k..k + (|x| - 1)] == x[..|x| - 1];
    assert m == a + (x[..|x| - 1] + d[|a| + |x| - 1..]);
    assert m[..|d'| - 1] == a + x[..|x| - 1];
    assert d' == d'[..|d'| - 1] + [ZIP_END];
    assert x == x[..|x| - 1] + [ZIP_END];
    Associative(a, x[..|x| - 1], [ZIP_END]);
  }

  /** Walks over at most num entries. */
  method Skip(zl: bytes, p: nat, num: nat, ghost z: Zip, ghost i: nat) returns (q: nat, deleted: nat)
    requires AllValid(z.es) && zl == Image(z) && i <= |z.es| && p == Offset(z.es, i)
    ensures deleted == (if i + num <= |z.es| then num else |z.es| - i)
    ensures q == Offset(z.es, i + deleted)
  {
    hide Image, Offset, WellSized, EntryAt;
    q, deleted := p, 0;
    SeeAt(z, i);
    while zl[q] != ZIP_END && deleted < num
      invariant i + deleted <= |z.es| && deleted <= num && q == Offset(z.es, i + deleted) < |zl|
      invariant zl[q] == ZIP_END <==> i + deleted == |z.es|
      decreases num - deleted
    {
      SeeAt(z, i + deleted);
      var e := ReadEntry(zl, q, z.es[i + deleted]);
      OffsetNext(z.es, i + deleted);
      q, deleted := q + e.Raw(), deleted + 1;
      SeeAt(z, i + deleted);
    }
  }

  /** Overwrites a field of one width by one of another that ends at the same
      place. */
  lemma PutEnding(a: bytes, gap: bytes, was: bytes, x: bytes, k: nat, now: bytes)
    requires |a| <= k && k + |now| == |a| + |gap| + |was|
    ensures var d := (a + gap) + (was + x);
            && k + |now| <= |d|
            && PutAt(d, k, now)[..|a|] == a
            && PutAt(d, k, now)[k..] == now + x
  {
    var d := (a + gap) + (was + x);
    assert d[k + |now|..] == x;
    assert d[..k][..|a|] == a;
    var r := d[..k] + (now + x);
    assert r[..|a|] == a && r[k..] == now + x;
  }

  lemma GapBytes(a: bytes, gap: bytes, e: Entry, tl: seq<Entry>, prev: nat, k: nat)
    requires e.Valid() && AllValid(tl) && prev < U32
    requires var wide := prev >= ZIP_BIGLEN;
             |a| <= k && k + (if wide then 5 else 1) == |a| + |gap| + e.PrevSize()
    ensures var d := (a + gap) + Rest([e] + tl);
            var e' := e.(wide := prev >= ZIP_BIGLEN, prev := prev);
            && k + e'.PrevSize() <= |d|
            && var d1 := PutAt(d, k, PrevBytes(e'.wide, prev));
            d1[..|a|] == a && d1[k..] == Rest([e'] + tl)
  {
    hide LE, EntryBytes, WellSized, PrevBytes, Rest, PutAt;
    var e' := e.(wide := prev >= ZIP_BIGLEN, prev := prev);
    LinkBytes(e, tl);
    LinkBytes(e', tl);
    PutEnding(a, gap, PrevBytes(e.wide, e.prev), e.body + Rest(tl), k, PrevBytes(e'.wide, prev));
  }

  lemma SeeNext(zl: bytes, q: nat, e: Entry, tl: seq<Entry>)
    requires e.Valid() && AllValid(tl) && q <= |zl| && zl[q..] == Rest([e] + tl)
    ensures EntryAt(zl, q, e) && q + e.Size() < |zl|
    ensures zl[q + e.Size()] == ZIP_END <==> tl == []
  {
    hide EntryBytes, WellSized, Rest, EntryAt;
    assert zl == zl[..q] + Rest([e] + tl);
    AtRest(zl[..q], [e] + tl);
    RestSplit(e, tl);
    Associative(zl[..q], EntryBytes(e), Rest(tl));
    AtRest(zl[..q] + EntryBytes(e), tl);
  }

  lemma SuffixInside(h: bytes, d: bytes, k: nat)
    requires k <= |d|
    ensures (h + d)[|h| + k..] == d[k..]
  {}

  lemma SplitBuffer(a: bytes, es: seq<Entry>, tail: nat, count: nat)
    requires AllValid(es)
    ensures BufferT(a, es, tail, count) == Head(11 + |a| + TotalSize(es), tail, count) + (a + Rest(es))
    ensures |Rest(es)| == TotalSize(es) + 1
  {
    hide LE, Head, Rest, WellSized, TotalSize;
  }

  /** Shifts the tail offset, by nextdiff more when the entry at q, whose size
      changed by nextdiff, is not itself the last (ziplist.c:553-564, 643-654). */
  method ShiftTail(zl: bytes, q: nat, shift: int, nextdiff: int, ghost d: bytes, ghost e: Entry, ghost tl: seq<Entry>,
                   ghost tail: nat, ghost tail': nat, ghost count: nat) returns (r: bytes)
    requires e.Valid() && AllValid(tl) && count < U16 && tail < U32 && |zl| < U32 && 10 <= q <= |zl|
    requires zl == Head(|zl|, tail, count) + d && d[q - 10..] == Rest([e] + tl)
    requires tail + shift >= 0 && tail + shift + nextdiff >= 0
    requires tail' == tail + shift + (if tl == [] then 0 else nextdiff)
    ensures |r| == |zl| && r == Head(|r|, tail', count) + d
  {
    hide LE, Head, EntryBytes, WellSized, Rest, PutAt, TotalSize, TailOf, EntryAt, Fields;
    HeadReads(|zl|, tail, count, d);
    var tailOf := TailOf(zl) + shift;
    SuffixInside(Head(|zl|, tail, count), d, q - 10);
    SeeNext(zl, q, e, tl);
    var next := ReadEntry(zl, q, e);
    if zl[q + next.Raw()] != ZIP_END {
      tailOf := tailOf + nextdiff;
    }
    HeadWrites(|zl|, tail, count, d, tailOf);
    r := PutAt(zl, 4, LE(tailOf, 4));
  }

  /** Writes the deleted slice's back link in front of what follows, over the
      end of the slice (ziplist.c:549-551). */
  method RelinkGap(zl: bytes, q: nat, prev: nat, ghost a: bytes, ghost gap: bytes, ghost e: Entry,
                   ghost tl: seq<Entry>, ghost tail: nat, ghost count: nat) returns (r: bytes)
    requires e.Valid() && AllValid(tl) && prev < U32
    requires zl == BufferT(a + gap, [e] + tl, tail, count)
    requires q == 10 + |a| + |gap| + e.PrevSize() - (if prev >= ZIP_BIGLEN then 5 else 1) >= 10 + |a|
    ensures var e' := e.(wide := prev >= ZIP_BIGLEN, prev := prev);
            && e'.Valid() && |r| == |zl| && r == Head(|zl|, tail, count) + r[10..]
            && r[10..][..|a|] == a && q <= |r| && r[10..][q - 10..] == Rest([e'] + tl)
  {
    hide LE, Head, EntryBytes, WellSized, Rest, PutAt, PrevBytes, TotalSize, BufferT;
    var wide := prev >= ZIP_BIGLEN;
    ghost var d := (a + gap) + Rest([e] + tl);
    SplitBuffer(a + gap, [e] + tl, tail, count);
    GapBytes(a, gap, e, tl, prev, q - 10);
    PutInside(Head(|zl|, tail, count), d, q - 10, PrevBytes(wide, prev));
    r := PutAt(zl, q, PrevBytes(wide, prev));
    assert r[10..] == PutAt(d, q - 10, PrevBytes(wide, prev));
  }

  /** How sizes and the last position change when only a back link does. */
  lemma GapSizes(e: Entry, e': Entry, tl: seq<Entry>)
    requires e.Valid() && e'.Valid() && AllValid(tl) && e'.body == e.body
    ensures LastOffset([e] + tl) <= TotalSize([e] + tl)
    ensures var diff := e'.PrevSize() - e.PrevSize();
            && TotalSize([e'] + tl) == TotalSize([e] + tl) + diff
            && LastOffset([e'] + tl) == LastOffset([e] + tl) + (if tl == [] then 0 else diff)
            && LastOffset([e] + tl) + (if tl == [] then 0 else diff) >= 0
  {
    hide EntryBytes, WellSized, Rest, LastOffset, TotalSize;
    LastZero(e, tl);
    LastZero(e', tl);
    RestSplit(e, tl);
    RestSplit(e', tl);
    LastBound([e] + tl);
  }

  lemma AsBuffer(r: bytes, pre: bytes, es: seq<Entry>, tail: nat, count: nat)
    requires AllValid(es) && r == Head(|r|, tail, count) + (pre + Rest(es)) && tail == 10 + |pre| + LastOffset(es)
    ensures r == Buffer(pre, es, count)
  {
    hide LE, WellSized, Rest, LastOffset, TotalSize;
    SplitBuffer(pre, es, tail, count);
  }

  /** Closes the gap left by a deleted slice that is not at the end. */
  method CloseGap(zl: bytes, p: nat, q: nat, prev: nat, nextdiff: int, ghost a: bytes, ghost gap: bytes,
                  ghost e: Entry, ghost e': Entry, ghost tl: seq<Entry>, ghost count: nat) returns (r: bytes)
    requires e.Valid() && AllValid(tl) && count < U16 && prev < U32
    requires zl == Buffer(a + gap, [e] + tl, count) && p == 10 + |a| && q == p + |gap| && |zl| < U32
    requires e' == e.(wide := prev >= ZIP_BIGLEN, prev := prev) && e'.Valid()
    requires nextdiff == e'.PrevSize() - e.PrevSize() && |gap| >= (if prev >= ZIP_BIGLEN then 6 else 2)
    ensures r == Buffer(a, [e'] + tl, count)
  {
    hide LE, Head, EntryBytes, WellSized, Rest, LastOffset, TotalSize, BufferT;
    ghost var was, now := LastOffset([e] + tl), LastOffset([e'] + tl);
    GapSizes(e, e', tl);
    r := RelinkGap(zl, q - nextdiff, prev, a, gap, e, tl, q + was, count);
    r := Compact(r, p, q, nextdiff, a, e', tl, q + was, p + now, count);
  }

  /** Shifts the tail offset and closes the gap (ziplist.c:553-577). */
  method Compact(zl: bytes, p: nat, q: nat, nextdiff: int, ghost a: bytes, ghost e: Entry, ghost tl: seq<Entry>,
                 ghost tail: nat, ghost tail': nat, ghost count: nat) returns (r: bytes)
    requires e.Valid() && AllValid(tl) && count < U16 && tail < U32 && |zl| < U32
    requires p == 10 + |a| && p <= q - nextdiff <= |zl| && p <= q && zl == Head(|zl|, tail, count) + zl[10..]
    requires zl[10..][..|a|] == a && zl[10..][q - nextdiff - 10..] == Rest([e] + tl)
    requires tail + p - q >= 0 && tail + p - q + nextdiff >= 0
    requires tail' == tail + p - q + (if tl == [] then 0 else nextdiff) == p + LastOffset([e] + tl)
    ensures r == Buffer(a, [e] + tl, count)
  {
    hide LE, Head, EntryBytes, WellSized, Rest, LastOffset, TotalSize, BufferT;
    ghost var d := zl[10..];
    r := ShiftTail(zl, q - nextdiff, p - q, nextdiff, d, e, tl, tail, tail', count);
    r := MoveDown(r, p, q - nextdiff, |zl| - (q - p) + nextdiff, a, d, Rest([e] + tl), tail', count);
    AsBuffer(r, a, [e] + tl, tail', count);
  }

  /** memmove to the front, then resize (ziplist.c:567-577). */
  method MoveDown(zl: bytes, p: nat, q: nat, n: nat, ghost a: bytes, ghost d: bytes, ghost x: bytes,
                  ghost tail: nat, ghost count: nat) returns (r: bytes)
    requires zl == Head(|zl|, tail, count) + d && p == 10 + |a| <= q < |zl|
    requires d[..|a|] == a && d[q - 10..] == x && x[|x| - 1] == ZIP_END && n == 10 + |a| + |x|
    ensures |r| == n && r == Head(|r|, tail, count) + (a + x)
  {
    hide LE, Head, MemMove;
    ghost var h := Head(|zl|, tail, count);
    MoveInside(h, d, |a|, q - 10, |zl| - q - 1);
    r := MemMove(zl, p, q, |zl| - q - 1);
    ghost var d2 := MemMove(d, |a|, q - 10, |x| - 1);
    r := Resize(r, n, tail, count, d2);
    CutBytes(d, a, q - 10, x, r[10..]);
  }

  /** ZIPLIST_INCR_LENGTH. */
  method IncrLength(zl: bytes, delta: int, ghost a: bytes, ghost es: seq<Entry>, ghost tail: nat, ghost count: nat)
      returns (r: bytes)
    requires AllValid(es) && count < U16 && tail < U32 && |zl| < U32 && zl == BufferT(a, es, tail, count)
    ensures r == BufferT(a, es, tail, Incr(count, delta))
  {
    hide LE, Head, Rest, PutAt, CountOf;
    HeadReads(|zl|, tail, count, a + Rest(es));
    r := zl;
    if CountOf(zl) < U16 - 1 {
      var n := (CountOf(zl) + delta) % U16;
      HeadWrites(|zl|, tail, count, a + Rest(es), n);
      r := PutAt(zl, 8, LE(n, 2));
    }
  }

  /** Two stretches of entries make one image. */
  lemma {:induction false} JoinImage(a: seq<Entry>, b: seq<Entry>, count: nat)
    requires AllValid(a) && AllValid(b)
    ensures AllValid(a + b)
    ensures b != [] ==> Image(Zip(a + b, count)) == Buffer(Flat(a), b, count)
    ensures b == [] ==> Image(Zip(a + b, count)) == BufferT(Flat(a), [], 10 + LastOffset(a), count)
  {
    hide Image, BufferT, Rest, Flat, LastOffset;
    var z := Zip(a + b, count);
    ImageAt(z, |a|);
    assert z.es[..|a|] == a && z.es[|a|..] == b;
    if b == [] { assert a + b == a; }
  }

  lemma {:induction false} GapWidth(es: seq<Entry>)
    requires AllValid(es) && es != []
    ensures TotalSize(es) >= 2 && (es[0].wide ==> TotalSize(es) >= 6)
  {}

  /** Deletion in front of some entry that stays. */
  method DeleteMiddle(zl: bytes, p: nat, q: nat, prev: nat, deleted: nat, ghost z: Zip, ghost i: nat) returns (r: bytes)
    requires WellFormed(z) && zl == Image(z) && deleted > 0 && i + deleted < |z.es|
    requires p == Offset(z.es, i) && q == Offset(z.es, i + deleted) && prev == z.es[i].prev
    requires 11 + TotalSize(Delete(z, i, deleted).es) < U32
    ensures var z' := Delete(z, i, deleted);
            AllValid(z'.es) && r == Image(z')
  {
    hide LE, Head, EntryBytes, WellSized, Rest, LastOffset, TotalSize, BufferT, Image, Linked, Offset, EntryAt, Flat, Cascade, Reseat;
    ghost var j := i + deleted;
    ghost var z' := Delete(z, i, deleted);
    DeleteRefines(z, i, deleted);
    DeletedSplit(z, i, j);
    SeeAt(z, j);
    ghost var (a, gap, e, tl) := (Flat(z.es[..i]), Flat(z.es[i..j]), z.es[j], z.es[j + 1..]);
    var next := ReadEntry(zl, q, e);
    var nextdiff := (if prev < ZIP_BIGLEN then 1 else 5) - next.prevSize;
    ghost var e' := e.(wide := prev >= ZIP_BIGLEN, prev := prev);
    r := CloseGap(zl, p, q, prev, nextdiff, a, gap, e, e', tl, z.count);
    ghost var tail := 10 + |a| + LastOffset([e'] + tl);
    ReseatParts(z.es[j..], e, tl, prev);
    TotalSplit(z.es[..i], Reseat(z.es[j..], prev));
    CascadeGrowth([e'] + tl);
    LastBound([e'] + tl);
    var delta: int := deleted;
    r := IncrLength(r, -delta, a, [e'] + tl, tail, z.count);
    if nextdiff != 0 {
      CascadeAlone(e', tl);
      r := CascadeUpdate(r, p, a, [e'] + tl, tail, z'.count);
    }
    JoinImage(z.es[..i], Reseat(z.es[j..], prev), z'.count);
  }

  /** __ziplistDelete: removes up to num entries from entry i on. */
  method DeleteAt(zl: bytes, p: nat, num: nat, ghost z: Zip, ghost i: nat) returns (r: bytes)
    requires WellFormed(z) && zl == Image(z) && i < |z.es| && p == Offset(z.es, i)
    requires var n := if i + num <= |z.es| then num else |z.es| - i;
             11 + TotalSize(Delete(z, i, n).es) < U32
    ensures var z' := Delete(z, i, if i + num <= |z.es| then num else |z.es| - i);
            AllValid(z'.es) && r == Image(z')
  {
    hide EntryBytes, WellSized, Rest, LastOffset, TotalSize, BufferT, Image, Linked, Offset, EntryAt, Flat, Cascade;
    SeeAt(z, i);
    var first := ReadEntry(zl, p, z.es[i]);
    var q, deleted := Skip(zl, p, num, z, i);
    OffsetGrows(z.es, i, i + deleted);
    if q - p == 0 { return zl; }
    SeeAt(z, i + deleted);
    if zl[q] != ZIP_END {
      r := DeleteMiddle(zl, p, q, first.prevLen, deleted, z, i);
    } else {
      var delta: int := deleted;
      r := CutTail(zl, p, q, first.prevLen, z, i);
      LastBound'(z.es[..i]);
      FrontFits(z, i);
      r := IncrLength(r, -delta, Flat(z.es[..i]), [], 10 + LastOffset(z.es[..i]), z.count);
      JoinImage(z.es[..i], [], Incr(z.count, -delta));
      assert z.es[i + deleted..] == [];
    }
  }

  lemma {:induction false} FrontFits(z: Zip, i: nat)
    requires WellFormed(z) && i <= |z.es|
    ensures 11 + TotalSize(z.es[..i]) < U32
  {
    SplitValid(z, i);
  }

  lemma CascadeAlone(e: Entry, tl: seq<Entry>)
    ensures tl == [] ==> Cascade([e] + tl) == [e] + tl
  {}

  lemma ReseatParts(es: seq<Entry>, e: Entry, tl: seq<Entry>, raw: nat)
    requires es == [e] + tl
    ensures var e' := e.(wide := raw >= ZIP_BIGLEN, prev := raw);
            Reseat(es, raw) == if e'.wide != e.wide then Cascade([e'] + tl) else [e'] + tl
  {
    hide Cascade;
    assert es[1..] == tl;
  }

  lemma {:induction false} DeletedSplit(z: Zip, i: nat, j: nat)
    requires WellFormed(z) && i < j <= |z.es|
    ensures AllValid(z.es[..i]) && AllValid(z.es[i..j]) && AllValid(z.es[j..])
    ensures Offset(z.es, i) == 10 + |Flat(z.es[..i])| && Offset(z.es, j) == Offset(z.es, i) + |Flat(z.es[i..j])|
    ensures |Flat(z.es[i..j])| >= (if z.es[i].prev >= ZIP_BIGLEN then 6 else 2)
    ensures j < |z.es| ==> z.es[j..] == [z.es[j]] + z.es[j + 1..]
    ensures j < |z.es| ==> Image(z) == Buffer(Flat(z.es[..i]) + Flat(z.es[i..j]), z.es[j..], z.count)
    ensures |Image(z)| < U32
  {
    hide LE, Head, EntryBytes, WellSized, Rest, LastOffset, BufferT, Image, Linked, Flat;
    ImageAt(z, i);
    ImageAt(z, j);
    assert z.es[..j] == z.es[..i] + z.es[i..j];
    FlatJoin(z.es[..i], z.es[i..j]);
    GapWidth(z.es[i..j]);
    ImageSize(z);
  }

  lemma ImageSize(z: Zip)
    requires AllValid(z.es)
    ensures |Image(z)| == 11 + TotalSize(z.es)
  {}

  /** The whole tail goes: only the tail offset and the end mark move. */
  method CutTail(zl: bytes, p: nat, q: nat, prev: nat, ghost z: Zip, ghost i: nat) returns (r: bytes)
    requires WellFormed(z) && zl == Image(z) && i < |z.es| && p == Offset(z.es, i) && q == Offset(z.es, |z.es|)
    requires prev == z.es[i].prev
    ensures AllValid(z.es[..i]) && |r| < U32
    ensures r == BufferT(Flat(z.es[..i]), [], 10 + LastOffset(z.es[..i]), z.count)
  {
    hide LE, Head, EntryBytes, WellSized, LastOffset, TotalSize, Linked, Flat, Rest, BufferT, Image, Offset, PutAt;
    ghost var (a, b) := (z.es[..i], z.es[i..]);
    CutPlan(z, i, p, q, prev);
    ghost var d := Flat(a) + Rest(b);
    HeadWrites(|zl|, 10 + LastOffset(z.es), z.count, d, p - prev);
    r := PutAt(zl, 4, LE(p - prev, 4));
    r := Resize(r, |zl| - (q - p), p - prev, z.count, d);
    CutEnd(r[10..], Flat(a), Rest(b));
    EndBuffer(Flat(a), 10 + LastOffset(a), z.count);
  }

  /** A buffer without entries behind a. */
  lemma EndBuffer(a: bytes, tail: nat, count: nat)
    ensures AllValid([]) && BufferT(a, [], tail, count) == Head(11 + |a|, tail, count) + (a + [ZIP_END])
  {}

  lemma CutEnd(d: bytes, a: bytes, x: bytes)
    requires |d| == |a| + 1 && x != [] && d[..|a|] == (a + x)[..|a|] && d[|a|] == ZIP_END
    ensures d == a + [ZIP_END]
  {}

  /** What there is to cut, and where the tail offset has to go. */
  lemma {:induction false} CutPlan(z: Zip, i: nat, p: nat, q: nat, prev: nat)
    requires WellFormed(z) && i < |z.es| && p == Offset(z.es, i) && q == Offset(z.es, |z.es|) && prev == z.es[i].prev
    ensures var (a, b, zl) := (z.es[..i], z.es[i..], Image(z));
            && AllValid(a) && AllValid(b) && |zl| < U32 && p == 10 + |Flat(a)| && p < q
            && zl == Head(|zl|, 10 + LastOffset(z.es), z.count) + (Flat(a) + Rest(b))
            && |zl| - (q - p) == 11 + |Flat(a)| && prev <= p && p - prev == 10 + LastOffset(a)
  {
    hide LE, Head, EntryBytes, WellSized, LastOffset, TotalSize, Linked, Flat, Rest;
    var (a, b) := (z.es[..i], z.es[i..]);
    ImageAt(z, i);
    ImageSize(z);
    BackLink(z, i);
    LastEntry(a);
    SplitBuffer(Flat(a), b, 10 + LastOffset(z.es), z.count);
    assert z.es[..|z.es|] == z.es;
    OffsetGrows(z.es, i, |z.es|);
  }
}
