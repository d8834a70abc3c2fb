/** The byte image of a ziplist and the code that edits it in place: resize,
    memmove and field writes, each proved to turn one image into the next. */
module ZipBuffer {
  import opened Bytes
  import opened Sequences
  import opened Memory
  import opened ZipEntry
  import opened ZipSpec

  // --------------------------------------------------------------------- header

  function Head(size: nat, tail: nat, count: nat): (r: bytes)
    ensures |r| == 10
  {
    LE(size, 4) + (LE(tail, 4) + LE(count, 2))
  }

  function TailOf(zl: bytes): nat
    requires |zl| >= 10
  {
    FromLE(zl[4..8])
  }

  function CountOf(zl: bytes): nat
    requires |zl| >= 10
  {
    FromLE(zl[8..10])
  }

  function SizeOf(zl: bytes): nat
    requires |zl| >= 10
  {
    FromLE(zl[0..4])
  }

  lemma HeadReads(size: nat, tail: nat, count: nat, d: bytes)
    requires size < U32 && tail < U32 && count < U16
    ensures var zl := Head(size, tail, count) + d;
            SizeOf(zl) == size && TailOf(zl) == tail && CountOf(zl) == count
  {
    var zl := Head(size, tail, count) + d;
    assert zl[0..4] == LE(size, 4) && zl[4..8] == LE(tail, 4) && zl[8..10] == LE(count, 2);
    Pow256Values();
    LERoundTrip(size, 4);
    LERoundTrip(tail, 4);
    LERoundTrip(count, 2);
  }

  /** The header and what follows it, as one right-nested concatenation. */
  lemma HeadParts(size: nat, tail: nat, count: nat, d: bytes)
    ensures Head(size, tail, count) + d == LE(size, 4) + (LE(tail, 4) + (LE(count, 2) + d))
  {
    hide LE;
    Associative(LE(size, 4), LE(tail, 4) + LE(count, 2), d);
    Associative(LE(tail, 4), LE(count, 2), d);
  }

  lemma HeadWrites(size: nat, tail: nat, count: nat, d: bytes, x: nat)
    ensures var zl := Head(size, tail, count) + d;
            && PutAt(zl, 0, LE(x, 4)) == Head(x, tail, count) + d
            && PutAt(zl, 4, LE(x, 4)) == Head(size, x, count) + d
            && PutAt(zl, 8, LE(x, 2)) == Head(size, tail, x) + d
  {
    hide LE, Head;
    var (a, b, c) := (LE(size, 4), LE(tail, 4), LE(count, 2));
    HeadParts(size, tail, count, d);
    HeadParts(x, tail, count, d);
    HeadParts(size, x, count, d);
    HeadParts(size, tail, x, d);
    assert [] + (a + (b + (c + d))) == a + (b + (c + d));
    PutOver([], a, b + (c + d), LE(x, 4));
    assert [] + (LE(x, 4) + (b + (c + d))) == LE(x, 4) + (b + (c + d));
    PutOver(a, b, c + d, LE(x, 4));
    Associative(a, b, c + d);
    Associative(a, b, LE(x, 2) + d);
    PutOver(a + b, c, d, LE(x, 2));
  }

  /** ziplistResize. */
  method Resize(zl: bytes, n: nat, ghost tail: nat, ghost count: nat, ghost d: bytes) returns (r: bytes)
    requires n >= 11 && zl == Head(|zl|, tail, count) + d
    ensures |r| == n && r == Head(n, tail, count) + r[10..]
    ensures r[n - 1] == ZIP_END
    ensures var k := if n - 1 < |zl| then n - 11 else |d|; r[10..][..k] == d[..k]
  {
    hide Head, LE, PutAt;
    r := Realloc(zl, n);
    ghost var m := if n < |zl| then n else |zl|;
    ghost var k := if n - 1 < |zl| then n - 11 else |d|;
    ghost var e := r[10..];
    KeptBytes(r, zl, Head(|zl|, tail, count), d, m, k);
    HeadWrites(|zl|, tail, count, e, n);
    r := PutAt(r, 0, LE(n, 4));
    r := r[n - 1 := ZIP_END];
    assert r == Head(n, tail, count) + e[n - 11 := ZIP_END];
  }

  lemma KeptBytes(r: bytes, zl: bytes, h: bytes, d: bytes, m: nat, k: nat)
    requires |h| == 10 && zl == h + d && 10 + k <= m <= |zl| && m <= |r|
    requires r[..m] == zl[..m]
    ensures r == h + r[10..] && r[10..][..k] == d[..k]
  {
    assert r[0..0 + m] == zl[..m];
    SubSlice(r, 0, zl[..m], 0, 10);
    SubSlice(r, 0, zl[..m], 10, 10 + k);
    assert zl[..m][..10] == h && zl[..m][10..10 + k] == d[..k];
  }

  // --------------------------------------------------------------------- images

  /** The entries from some point on, and the end mark. */
  function Rest(es: seq<Entry>): (r: bytes)
    requires AllValid(es)
    ensures r != [] && r[|r| - 1] == ZIP_END && |r| == TotalSize(es) + 1
    ensures (r[0] == ZIP_END) == (es == [])
  {
    if es == [] then [ZIP_END] else EntryBytes(es[0]) + Rest(es[1..])
  }

  /** Where the last entry starts, counted from the first. */
  function LastOffset(es: seq<Entry>): nat {
    if |es| <= 1 then 0 else es[0].Size() + LastOffset(es[1..])
  }

  /** A buffer that ends with these entries, whatever bytes come before them,
      under a header with the given tail offset. */
  function BufferT(pre: bytes, es: seq<Entry>, tail: nat, count: nat): (r: bytes)
    requires AllValid(es)
    ensures |r| == 11 + |pre| + TotalSize(es)
  {
    Head(11 + |pre| + TotalSize(es), tail, count) + (pre + Rest(es))
  }

  /** The same with the right tail offset. */
  function Buffer(pre: bytes, es: seq<Entry>, count: nat): (r: bytes)
    requires AllValid(es)
    ensures |r| == 11 + |pre| + TotalSize(es)
  {
    BufferT(pre, es, 10 + |pre| + LastOffset(es), count)
  }

  function Image(z: Zip): bytes
    requires AllValid(z.es)
  {
    Buffer([], z.es, z.count)
  }

  lemma RestSplit(e: Entry, es: seq<Entry>)
    requires e.Valid() && AllValid(es)
    ensures Rest([e] + es) == EntryBytes(e) + Rest(es)
    ensures TotalSize([e] + es) == e.Size() + TotalSize(es)
    ensures es != [] ==> LastOffset([e] + es) == e.Size() + LastOffset(es)
  {
    assert ([e] + es)[1..] == es;
  }

  /** Moves the first entry over to the bytes in front. */
  lemma AdvanceT(pre: bytes, es: seq<Entry>, tail: nat, count: nat)
    requires AllValid(es) && es != []
    ensures BufferT(pre, es, tail, count) == BufferT(pre + EntryBytes(es[0]), es[1..], tail, count)
  {
    hide Head, EntryBytes;
    Associative(pre, EntryBytes(es[0]), Rest(es[1..]));
  }

  lemma Advance(pre: bytes, es: seq<Entry>, count: nat)
    requires AllValid(es) && |es| >= 2
    ensures Buffer(pre, es, count) == Buffer(pre + EntryBytes(es[0]), es[1..], count)
  {
    hide BufferT, EntryBytes, Rest;
    AdvanceT(pre, es, 10 + |pre| + LastOffset(es), count);
  }

  /** The first byte of what remains tells the end of the list, and the entry
      there can be read. */
  lemma AtRest(x: bytes, es: seq<Entry>)
    requires AllValid(es)
    ensures var zl := x + Rest(es);
            && |zl| > |x|
            && (zl[|x|] == ZIP_END <==> es == [])
            && (es != [] ==> EntryAt(zl, |x|, es[0]))
            && (|es| == 1 ==> zl[|x| + es[0].Size()] == ZIP_END)
  {
    hide EntryBytes, WellSized;
    var zl := x + Rest(es);
    assert zl[|x|..] == Rest(es);
    if es != [] {
      var eb := EntryBytes(es[0]);
      assert zl[|x|..|x| + |eb|] == Rest(es)[..|eb|] == eb;
    }
  }

  lemma AtCursor(pre: bytes, es: seq<Entry>, tail: nat, count: nat)
    requires AllValid(es)
    ensures var zl := BufferT(pre, es, tail, count);
            && (zl[10 + |pre|] == ZIP_END <==> es == [])
            && (es != [] ==> EntryAt(zl, 10 + |pre|, es[0]))
            && (|es| == 1 ==> zl[10 + |pre| + es[0].Size()] == ZIP_END)
  {
    hide Head, Rest, EntryBytes, WellSized;
    var h := Head(11 + |pre| + TotalSize(es), tail, count);
    Associative(h, pre, Rest(es));
    AtRest(h + pre, es);
  }

  // -------------------------------------------------------------------- cascade

  /** The bytes after a one-byte link at the cursor grew to five. */
  lemma GrownBytes(d: bytes, y: bytes, w: bytes, five: bytes)
    requires |five| == 5 && |d| == |y| + 1 + |w| + 5
    requires d[..|y|] == y && d[|y| + 1..|y| + 1 + |w|] == w && d[|d| - 1] == ZIP_END
    ensures PutAt(MemMove(d, |y| + 5, |y| + 1, |w|), |y|, five) == y + (five + (w + [ZIP_END]))
  {
    var m := MemMove(d, |y| + 5, |y| + 1, |w|);
    assert m == d[..|y| + 5] + (w + d[|y| + 5 + |w|..]);
    assert d[|y| + 5 + |w|..] == [ZIP_END];
    assert m[..|y|] == y;
    assert m[|y| + 5..] == w + [ZIP_END];
  }

  lemma LinkBytes(e: Entry, tl: seq<Entry>)
    requires e.Valid() && AllValid(tl)
    ensures Rest([e] + tl) == PrevBytes(e.wide, e.prev) + (e.body + Rest(tl))
  {
    RestSplit(e, tl);
    Associative(PrevBytes(e.wide, e.prev), e.body, Rest(tl));
  }

  /** The resize in front of a widening, and the tail offset unless the entry at np is
      the last (ziplist.c:488-503). */
  method GrowHead(zl: bytes, np: nat, ghost y: bytes, ghost e: Entry, ghost tl: seq<Entry>, ghost count: nat,
                  ghost d: bytes) returns (r: bytes)
    requires e.Valid() && AllValid(tl) && count < U16 && d == y + Rest([e] + tl)
    requires zl == Buffer(y, [e] + tl, count) && np == 10 + |y| && |zl| + 4 < U32
    ensures var last := 10 + |y| + LastOffset([e] + tl);
            |r| == |zl| + 4 && r == Head(|r|, if tl == [] then last else last + 4, count) + r[10..]
    ensures r[10..][..|d|] == d && r[|r| - 1] == ZIP_END
  {
    hide LE, Head, EntryBytes, WellSized, Rest, PutAt, LastOffset, TotalSize;
    ghost var tail := 10 + |y| + LastOffset([e] + tl);
    RestSplit(e, tl);
    r := Resize(zl, |zl| + 4, tail, count, d);
    ghost var d' := r[10..];
    LastBound([e] + tl);
    LastZero(e, tl);
    HeadReads(|r|, tail, count, d');
    HeadWrites(|r|, tail, count, d', tail + 4);
    if TailOf(r) != np {
      r := PutAt(r, 4, LE(TailOf(r) + 4, 4));
      HeadBehind(Head(|r|, tail + 4, count), d');
    }
  }

  lemma HeadBehind(h: bytes, d: bytes)
    requires |h| == 10 && d != []
    ensures (h + d)[10..] == d && (h + d)[|h + d| - 1] == d[|d| - 1]
  {}

  /** Widens the back link at np from one byte to five (ziplist.c:486-512). */
  method GrowLink(zl: bytes, np: nat, raw: nat, ghost y: bytes, ghost e: Entry, ghost tl: seq<Entry>,
                  ghost count: nat) returns (r: bytes)
    requires e.Valid() && AllValid(tl) && !e.wide && ZIP_BIGLEN <= raw < U32 && count < U16
    requires zl == Buffer(y, [e] + tl, count) && np == 10 + |y| && |zl| + 4 < U32
    ensures Widen(e, raw).Valid() && r == Buffer(y, [Widen(e, raw)] + tl, count)
  {
    hide LE, Head, EntryBytes, WellSized, Rest, PutAt, MemMove, PrevBytes, LastOffset, TotalSize;
    var curlen := |zl|;
    ghost var d := y + Rest([e] + tl);
    RestSplit(e, tl);
    RestSplit(Widen(e, raw), tl);
    LastZero(e, tl);
    LastZero(Widen(e, raw), tl);
    r := GrowHead(zl, np, y, e, tl, count, d);
    ghost var d' := r[10..];
    ghost var last := 10 + |y| + LastOffset([e] + tl);
    ghost var h := Head(curlen + 4, if tl == [] then last else last + 4, count);
    GrownInside(d, d', y, e, tl, raw);
    MoveInside(h, d', |y| + 5, |y| + 1, curlen - np - 1 - 1);
    r := MemMove(r, np + 5, np + 1, curlen - np - 1 - 1);
    PutInside(h, MemMove(d', |y| + 5, |y| + 1, curlen - np - 1 - 1), |y|, PrevBytes(true, raw));
    r := PutAt(r, np, PrevBytes(true, raw));
  }

  lemma LastBound(es: seq<Entry>)
    requires es != []
    ensures LastOffset(es) <= TotalSize(es)
  {
    if |es| > 1 { LastBound(es[1..]); }
  }

  lemma LastZero(e: Entry, tl: seq<Entry>)
    requires e.Valid()
    ensures LastOffset([e] + tl) == if tl == [] then 0 else e.Size() + LastOffset(tl)
    ensures e.Size() >= 2
  {
    assert ([e] + tl)[1..] == tl;
  }

  lemma GrownInside(d: bytes, d': bytes, y: bytes, e: Entry, tl: seq<Entry>, raw: nat)
    requires e.Valid() && AllValid(tl) && !e.wide && ZIP_BIGLEN <= raw < U32
    requires d == y + Rest([e] + tl) && |d'| == |d| + 4 && d'[..|d|] == d && d'[|d'| - 1] == ZIP_END
    ensures var n := |d| - |y| - 1 - 1;
            && |y| + 5 + n <= |d'|
            && PutAt(MemMove(d', |y| + 5, |y| + 1, n), |y|, PrevBytes(true, raw))
               == y + Rest([Widen(e, raw)] + tl)
  {
    hide LE, EntryBytes, Rest, WellSized, MemMove, PutAt;
    var e' := Widen(e, raw);
    LinkBytes(e, tl);
    LinkBytes(e', tl);
    var z := e.body + Rest(tl);
    var w := z[..|z| - 1];
    assert z == w + [ZIP_END];
    assert d == y + ([e.prev] + z);
    assert d[..|y|] == y && d[|y| + 1..|y| + 1 + |w|] == w;
    assert d'[0..0 + |d|] == d;
    SubSlice(d', 0, d, 0, |y|);
    SubSlice(d', 0, d, |y| + 1, |y| + 1 + |w|);
    GrownBytes(d', y, w, PrevBytes(true, raw));
  }

  /** Rewrites a back link in the bytes it has (ziplist.c:514-520). */
  method SetLink(zl: bytes, np: nat, wide: bool, raw: nat, ghost y: bytes, ghost e: Entry, ghost tl: seq<Entry>,
                 ghost count: nat) returns (r: bytes)
    requires e.Valid() && AllValid(tl) && wide == e.wide && raw < U32 && (!wide ==> raw < ZIP_BIGLEN)
    requires zl == Buffer(y, [e] + tl, count) && np == 10 + |y|
    ensures e.(prev := raw).Valid() && r == Buffer(y, [e.(prev := raw)] + tl, count)
  {
    hide LE, Head, EntryBytes, WellSized, Rest, PutAt, PrevBytes, LastOffset, TotalSize;
    ghost var e' := e.(prev := raw);
    RestSplit(e, tl);
    RestSplit(e', tl);
    LastZero(e, tl);
    LastZero(e', tl);
    LinkBytes(e, tl);
    LinkBytes(e', tl);
    ghost var h := Head(|zl|, 10 + |y| + LastOffset([e] + tl), count);
    PutInside(h, y + Rest([e] + tl), |y|, PrevBytes(wide, raw));
    PutOver(y, PrevBytes(e.wide, e.prev), e.body + Rest(tl), PrevBytes(wide, raw));
    r := PutAt(zl, np, PrevBytes(wide, raw));
  }

  /** The bytes of a cascade do not depend on where it is split. */
  lemma CascadeTail(pre: bytes, es: seq<Entry>, count: nat)
    requires AllValid(es) && |es| >= 2 && TotalSize(Cascade(es)) < U32
    requires es[1].prev != es[0].Size() && !es[1].wide && es[0].Size() >= ZIP_BIGLEN
    ensures var es' := [Widen(es[1], es[0].Size())] + es[2..];
            && AllValid(es') && AllValid(Cascade(es)) && AllValid(Cascade(es'))
            && TotalSize(Cascade(es)) == es[0].Size() + TotalSize(Cascade(es'))
            && Buffer(pre, Cascade(es), count) == Buffer(pre + EntryBytes(es[0]), Cascade(es'), count)
  {
    hide LE, Head, EntryBytes, WellSized, Rest, Cascade, Buffer, TotalSize, AllValid;
    CascadeValid(es);
    SizeInTotal(Cascade(es), 0);
    CascadeStep(es);
    WidenedValid(es);
    TailValid(Cascade(es));
    TotalStep(Cascade(es));
    Advance(pre, Cascade(es), count);
  }

  lemma WidenedValid(es: seq<Entry>)
    requires AllValid(es) && |es| >= 2 && ZIP_BIGLEN <= es[0].Size() < U32
    ensures AllValid([Widen(es[1], es[0].Size())] + es[2..])
  {
    hide WellSized;
  }

  lemma TailValid(es: seq<Entry>)
    requires AllValid(es) && es != []
    ensures AllValid(es[1..])
  {
    hide WellSized;
  }

  lemma {:induction false} CascadeStep(es: seq<Entry>)
    requires |es| >= 2 && es[1].prev != es[0].Size() && !es[1].wide && es[0].Size() >= ZIP_BIGLEN
    ensures var c := Cascade([Widen(es[1], es[0].Size())] + es[2..]);
            Cascade(es) == [es[0]] + c && Cascade(es)[1..] == c
  {
    hide LE, TotalSize, WellSized;
  }

  lemma TotalStep(es: seq<Entry>)
    requires es != []
    ensures TotalSize(es) == es[0].Size() + TotalSize(es[1..])
  {}

  /** The size of the entry at q, and the entry after it if there is one. */
  method Peek(r: bytes, q: nat, ghost x: bytes, ghost es: seq<Entry>, ghost tail: nat, ghost count: nat)
      returns (rawlen: nat, more: bool, next: Header)
    requires AllValid(es) && es != [] && r == BufferT(x, es, tail, count) && q == 10 + |x|
    ensures rawlen == es[0].Size() && more == (|es| >= 2)
    ensures more ==> next == Fields(es[1])
  {
    hide LE, Head, EntryBytes, WellSized, Rest, BufferT, LenSize, PayloadLen, EntryAt;
    AtCursor(x, es, tail, count);
    var cur := ReadEntry(r, q, es[0]);
    rawlen, next := cur.Raw(), cur;
    if |es| >= 2 {
      AdvanceT(x, es, tail, count);
      AtCursor(x + EntryBytes(es[0]), es[1..], tail, count);
    }
    more := r[q + rawlen] != ZIP_END;
    if more { next := ReadEntry(r, q + rawlen, es[1]); }
  }

  /** __ziplistCascadeUpdate over the buffer (ziplist.c:468-527).  With nothing
      behind the entry at p it leaves the buffer alone. */
  method CascadeUpdate(zl: bytes, p: nat, ghost pre: bytes, ghost es: seq<Entry>, ghost tail: nat, ghost count: nat)
      returns (r: bytes)
    requires AllValid(es) && count < U16
    requires zl == BufferT(pre, es, tail, count) && p == 10 + |pre|
    requires |es| >= 2 ==> tail == 10 + |pre| + LastOffset(es)
    requires 11 + |pre| + TotalSize(Cascade(es)) < U32
    ensures AllValid(Cascade(es))
    ensures r == if |es| >= 2 then Buffer(pre, Cascade(es), count) else zl
  {
    hide LE, Head, EntryBytes, WellSized, Rest, BufferT, LenSize, PayloadLen, Cascade, TotalSize, LastOffset;
    r := zl;
    var q := p;
    ghost var x, rest, t: nat := pre, es, tail;
    CascadeValid(es);
    while true
      invariant AllValid(rest) && r == BufferT(x, rest, t, count) && q == 10 + |x|
      invariant |es| < 2 ==> r == zl && rest == es
      invariant |es| >= 2 ==> t == 10 + |x| + LastOffset(rest)
      invariant |x| + TotalSize(Cascade(rest)) == |pre| + TotalSize(Cascade(es))
      invariant AllValid(Cascade(rest)) && Buffer(x, Cascade(rest), count) == Buffer(pre, Cascade(es), count)
      decreases |rest|
    {
      AtCursor(x, rest, t, count);
      CascadeStops(rest);
      if r[q] == ZIP_END { break; }
      var rawlen, more, next := Peek(r, q, x, rest, t, count);
      if !more || next.prevLen == rawlen { break; }
      Advance(x, rest, count);
      ghost var y := x + EntryBytes(rest[0]);
      assert rest[1..] == [rest[1]] + rest[2..];
      var need := if rawlen < ZIP_BIGLEN then 1 else 5;
      if next.prevSize < need {
        CascadeTail(x, rest, count);
        CascadeRoom(rest);
        r := GrowLink(r, q + rawlen, rawlen, y, rest[1], rest[2..], count);
        q := q + rawlen;
        x, rest := y, [Widen(rest[1], rawlen)] + rest[2..];
        t := 10 + |x| + LastOffset(rest);
      } else {
        SizeInTotal(Cascade(rest), 0);
        r := SetLink(r, q + rawlen, next.prevSize > 1, rawlen, y, rest[1], rest[2..], count);
        Advance(x, Cascade(rest), count);
        break;
      }
    }
  }

  /** Where a cascade goes no further. */
  lemma {:induction false} CascadeStops(es: seq<Entry>)
    ensures |es| < 2 || es[1].prev == es[0].Size() ==> Cascade(es) == es
    ensures |es| >= 2 && es[1].prev != es[0].Size() && (es[1].wide || es[0].Size() < ZIP_BIGLEN) ==>
              var done := [es[1].(prev := es[0].Size())] + es[2..];
              Cascade(es) == [es[0]] + done && Cascade(es)[1..] == done
  {
    hide WellSized, TotalSize;
    if |es| >= 2 && es[1].prev != es[0].Size() && (es[1].wide || es[0].Size() < ZIP_BIGLEN) {
      var e := es[1].(prev := es[0].Size());
      assert Cascade(es) == [es[0], e] + es[2..];
      assert [es[0], e] + es[2..] == [es[0]] + ([e] + es[2..]);
    }
  }

  lemma CascadeRoom(es: seq<Entry>)
    requires |es| >= 2 && es[1].prev != es[0].Size() && !es[1].wide && es[0].Size() >= ZIP_BIGLEN
    ensures TotalSize(es) + 4 <= TotalSize(Cascade(es))
  {
    CascadeGrowth(es);
    assert es[1..][0] == es[1] && Cascade(es)[1..][0] == Cascade(es)[1];
  }
}
