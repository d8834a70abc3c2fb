/** ziplistMerge on byte images, with the exact condition under which the tail
    offset it computes is right. */
module ZiplistMerge {
  import opened Bytes
  import opened Sequences
  import opened Memory
  import opened ZipEntry
  import opened ZipSpec
  import opened ZipBuffer
  import opened Ziplist

  /** Appending to the first buffer or prepending to the second gives the same
      bytes (ziplist.c:745-762). */
  method Concatenate(first: bytes, second: bytes, append: bool) returns (r: bytes)
    requires |first| >= 11 && |second| >= 11
    ensures r == first[..|first| - 1] + second[10..]
  {
    var n := |first| + |second| - 11;
    if append {
      r := Realloc(first, n);
      assert r[..|first| - 1] == r[..|first|][..|first| - 1] == first[..|first| - 1];
      r := PutAt(r, |first| - 1, second[10..]);
    } else {
      r := Realloc(second, n);
      assert r[10..|second|] == r[..|second|][10..] == second[10..];
      r := MemMove(r, |first| - 1, 10, |second| - 10);
      assert r[|first| - 1..] == second[10..];
      r := PutAt(r, 0, first[..|first| - 1]);
    }
  }

  /** An image without its end mark, and one without its header. */
  lemma {:induction false} Halves(a: Zip, b: Zip)
    requires AllValid(a.es) && AllValid(b.es)
    ensures var (first, second) := (Image(a), Image(b));
            && |first| >= 11 && |second| >= 11
            && first[..|first| - 1] + second[10..]
               == Head(|first|, 10 + LastOffset(a.es), a.count) + (Flat(a.es) + Rest(b.es))
  {
    hide Head, Rest, Flat, LE, LastOffset, TotalSize, Image, BufferT;
    var (first, second) := (Image(a), Image(b));
    ImageAt(a, |a.es|);
    ImageAt(b, 0);
    assert a.es[..|a.es|] == a.es && a.es[|a.es|..] == [] && b.es[..0] == [] && b.es[0..] == b.es;
    SplitBuffer(Flat(a.es), [], 10 + LastOffset(a.es), a.count);
    SplitBuffer(Flat([]), b.es, 10 + LastOffset(b.es), b.count);
    FlatNone();
    var h := Head(|first|, 10 + LastOffset(a.es), a.count);
    Associative(h, Flat(a.es), [ZIP_END]);
    assert first[..|first| - 1] == h + Flat(a.es);
    assert second[10..] == [] + Rest(b.es) == Rest(b.es);
    Associative(h, Flat(a.es), Rest(b.es));
  }

  lemma FlatNone()
    ensures Flat([]) == [] && Rest([]) == [ZIP_END]
  {}

  lemma {:induction false} HeaderSeen(z: Zip)
    requires WellFormed(z)
    ensures |Image(z)| == 11 + TotalSize(z.es)
    ensures SizeOf(Image(z)) == |Image(z)| && CountOf(Image(z)) == z.count
    ensures TailOf(Image(z)) == 10 + LastOffset(z.es)
  {
    hide Head, Rest, TailOf, SizeOf, CountOf, LastOffset, Linked, WellSized;
    LastBound'(z.es);
    HeadReads(11 + TotalSize(z.es), 10 + LastOffset(z.es), z.count, [] + Rest(z.es));
  }

  /** The two lists laid end to end, under the header ziplistMerge writes. */
  method Join(first: bytes, second: bytes, ghost a: Zip, ghost b: Zip) returns (r: bytes)
    requires WellFormed(a) && WellFormed(b) && first == Image(a) && second == Image(b)
    requires |first| + |second| - 11 < U32
    ensures r == Head(|first| + |second| - 11, 10 + TotalSize(a.es) + LastOffset(b.es), ZipSpec.Merge(a, b).count)
                 + (Flat(a.es) + Rest(b.es))
  {
    hide Head, Rest, Flat, LE, LastOffset, TotalSize, Image, Linked, TailOf, SizeOf, CountOf, PutAt, WellSized, Cascade;
    Halves(a, b);
    HeaderSeen(a);
    HeaderSeen(b);
    var firstLen, secondLen := CountOf(first), CountOf(second);
    var zlbytes := SizeOf(first) + SizeOf(second) - 10 - 1;
    var zllength := firstLen + secondLen;
    zllength := if zllength < U16 - 1 then zllength else U16 - 1;
    r := Concatenate(first, second, firstLen >= secondLen);
    ghost var d := Flat(a.es) + Rest(b.es);
    HeadWrites(|first|, 10 + LastOffset(a.es), a.count, d, zlbytes);
    r := PutAt(r, 0, LE(zlbytes, 4));
    HeadWrites(zlbytes, 10 + LastOffset(a.es), a.count, d, zllength);
    r := PutAt(r, 8, LE(zllength, 2));
    var tail := SizeOf(first) - 1 + (TailOf(second) - 10);
    HeadWrites(zlbytes, 10 + LastOffset(a.es), zllength, d, tail);
    r := PutAt(r, 4, LE(tail, 4));
  }

  /** ziplistMerge: the concatenation, exactly when the second list is non-empty
      or both are empty; otherwise the tail offset points at the end mark. */
  method MergeLists(first: bytes, second: bytes, ghost a: Zip, ghost b: Zip) returns (r: bytes)
    requires WellFormed(a) && WellFormed(b) && first == Image(a) && second == Image(b)
    requires 11 + TotalSize(ZipSpec.Merge(a, b).es) < U32
    ensures AllValid(ZipSpec.Merge(a, b).es)
    ensures r == Image(ZipSpec.Merge(a, b)) <==> b.es != [] || a.es == []
  {
    hide Head, Rest, Flat, LE, LastOffset, TotalSize, Image, BufferT, Linked, TailOf, WellSized, Cascade, Offset, AllValid;
    ghost var z := ZipSpec.Merge(a, b);
    MergeRefines(a, b);
    HeaderSeen(a);
    HeaderSeen(b);
    MergeSizes(a, b);
    r := Join(first, second, a, b);
    ghost var t := 10 + TotalSize(a.es) + LastOffset(b.es);
    ghost var pre, es := [], b.es;
    if a.es == [] {
      AloneMerge(b, z.count);
      FlatNone();
      LastEntry([]);
      SplitBuffer([], b.es, t, z.count);
    } else {
      ghost var k := |a.es| - 1;
      SplitValid(a, k);
      pre, es := Flat(a.es[..k]), [a.es[k]] + b.es;
      SeamImage(a, b, t, z.count);
    }
    r := CascadeUpdate(r, TailOf(first), pre, es, t, z.count);
    if a.es != [] {
      ghost var k := |a.es| - 1;
      JoinImage(a.es[..k], Cascade(es), z.count);
      if b.es == [] {
        CascadeAlone(a.es[k], []);
        WrongTail(pre, es, z.count, t);
      }
    }
  }

  lemma {:induction false} MergeSizes(a: Zip, b: Zip)
    requires WellFormed(a) && WellFormed(b) && 11 + TotalSize(ZipSpec.Merge(a, b).es) < U32
    ensures 11 + TotalSize(a.es) + TotalSize(b.es) < U32
    ensures a.es != [] ==> 11 + TotalSize(a.es[..|a.es| - 1]) + TotalSize(Cascade([a.es[|a.es| - 1]] + b.es)) < U32
  {
    hide Cascade, Linked, WellSized;
    if a.es != [] {
      var k := |a.es| - 1;
      var seam := [a.es[k]] + b.es;
      TotalSplit(a.es[..k], Cascade(seam));
      CascadeGrowth(seam);
      TotalSplit([a.es[k]], b.es);
      TotalSplit(a.es[..k], [a.es[k]]);
      assert a.es == a.es[..k] + [a.es[k]];
    }
  }

  /** A list that is linked already does not change. */
  lemma {:induction false} AloneMerge(b: Zip, count: nat)
    requires WellFormed(b)
    ensures Cascade(b.es) == b.es && Image(Zip(b.es, count)) == Buffer([], b.es, count)
  {
    if |b.es| >= 2 {
      assert b.es[1..][0] == b.es[1];
      assert Linked(b.es[0].Size(), b.es[1..]);
    }
  }

  lemma SeamBytes(h: bytes, f: bytes, e: bytes, x: bytes, y: bytes)
    requires y == e + x
    ensures h + ((f + e) + x) == h + (f + y)
  {
    Associative(f, e, x);
  }

  lemma {:induction false} SeamSizes(a: Zip, b: Zip)
    requires WellFormed(a) && WellFormed(b) && a.es != []
    ensures var k := |a.es| - 1;
            var (front, last, es) := (a.es[..k], a.es[k], [a.es[k]] + b.es);
            && AllValid(front) && last.Valid() && AllValid(es) && Flat(a.es) == Flat(front) + EntryBytes(last)
            && Rest(es) == EntryBytes(last) + Rest(b.es) && TotalSize(es) == last.Size() + TotalSize(b.es)
            && |Flat(front)| == TotalSize(front) == LastOffset(a.es) && TotalSize(a.es) == TotalSize(front) + last.Size()
            && (b.es != [] ==> LastOffset(es) == last.Size() + LastOffset(b.es))
            && (b.es == [] ==> LastOffset(b.es) == 0)
  {
    hide Head, Rest, Flat, LE, LastOffset, TotalSize, Linked, WellSized, EntryBytes;
    var k := |a.es| - 1;
    var (front, last) := (a.es[..k], a.es[k]);
    SplitValid(a, k);
    assert a.es == front + [last];
    TotalSplit(front, [last]);
    LastAlone(last);
    LastOffsetSplit(front, [last]);
    FlatJoin(front, [last]);
    FlatOne(last);
    RestSplit(last, b.es);
    LastZero(last, b.es);
    LastEntry([]);
  }

  lemma {:induction false} SeamImage(a: Zip, b: Zip, t: nat, count: nat)
    requires WellFormed(a) && WellFormed(b) && a.es != []
    requires t == 10 + TotalSize(a.es) + LastOffset(b.es)
    ensures var k := |a.es| - 1;
            var (pre, es) := (Flat(a.es[..k]), [a.es[k]] + b.es);
            && AllValid(a.es[..k]) && AllValid(es)
            && 10 + LastOffset(a.es) == 10 + |pre|
            && Head(11 + TotalSize(a.es) + TotalSize(b.es), t, count) + (Flat(a.es) + Rest(b.es))
               == BufferT(pre, es, t, count)
            && (b.es != [] ==> t == 10 + |pre| + LastOffset(es))
            && (b.es == [] ==> t == 10 + |pre| + a.es[k].Size())
  {
    hide Head, Rest, Flat, LE, LastOffset, TotalSize, Linked, WellSized, EntryBytes, BufferT, AllValid;
    var k := |a.es| - 1;
    var (front, last) := (a.es[..k], a.es[k]);
    SeamSizes(a, b);
    var h := Head(11 + TotalSize(a.es) + TotalSize(b.es), t, count);
    SeamBytes(h, Flat(front), EntryBytes(last), Rest(b.es), Rest([last] + b.es));
    SplitBuffer(Flat(front), [last] + b.es, t, count);
  }

  lemma {:induction false} WrongTail(pre: bytes, es: seq<Entry>, count: nat, t: nat)
    requires AllValid(es) && |es| == 1 && count < U16 && 11 + |pre| + TotalSize(es) < U32
    requires t == 10 + |pre| + es[0].Size()
    ensures BufferT(pre, es, t, count) != Buffer(pre, es, count)
  {
    hide Head, Rest, TailOf;
    LastAlone(es[0]);
    assert es == [es[0]];
    HeadReads(11 + |pre| + TotalSize(es), t, count, pre + Rest(es));
    HeadReads(11 + |pre| + TotalSize(es), 10 + |pre|, count, pre + Rest(es));
  }
}
