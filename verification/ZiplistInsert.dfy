/** ziplistInsert on the byte image, with the exact condition under which its
    resize does not cut into the list. */
module ZiplistInsert {
  import opened Bytes
  import opened Sequences
  import opened Options
  import opened Memory
  import opened Decimal
  import opened ZipEntry
  import opened ZipSpec
  import opened ZipBuffer
  import opened Ziplist
  import opened ZipSpoil

  /** The buffer is resized before the tail is moved.  The move is complete when
      the buffer did not shrink, or when it shrank by one byte and the byte that
      the new end mark overwrote was 255 already. */
  predicate Safe(zl: bytes, growth: int)
    requires |zl| >= 2
  {
    growth >= 0 || (growth == -1 && zl[|zl| - 2] == ZIP_END)
  }

  /** What ziplistResize leaves behind. */
  predicate Resized(zl: bytes, zl1: bytes)
    requires |zl| >= 11 && |zl1| >= 11
  {
    var k := if |zl1| - 1 < |zl| then |zl1| - 1 else |zl|;
    zl1[|zl1| - 1] == ZIP_END && zl1[10..k] == zl[10..k]
  }

  /** The exact condition: after the resize the bytes that follow a position of
      the list are still all there if and only if the growth is safe. */
  lemma ResizeExact(zl: bytes, zl1: bytes, from: nat)
    requires 11 <= |zl1| && 10 <= from < |zl| - 1 && from < |zl1| && Resized(zl, zl1)
    ensures (|zl| - 1 <= |zl1| && zl1[from..|zl| - 1] == zl[from..|zl| - 1]) <==> Safe(zl, |zl1| - |zl|)
  {
    var n, m := |zl|, |zl1|;
    var k := if m - 1 < n then m - 1 else n;
    assert forall i :: 10 <= i < k ==> zl1[10..k][i - 10] == zl1[i] && zl[10..k][i - 10] == zl[i];
    if m >= n {
      assert zl1[from..n - 1] == zl[from..n - 1];
    } else if m == n - 1 {
      var i := n - 2 - from;
      assert zl1[from..n - 1][i] == ZIP_END && zl[from..n - 1][i] == zl[n - 2];
      if zl[n - 2] == ZIP_END {
        assert zl1[from..n - 1] == zl[from..n - 1];
      }
    }
  }

  /** The move that makes room for reqlen bytes in front of a field of ps bytes,
      which becomes pb: everything behind the field follows, whatever lies in
      the room. */
  lemma RoomBytes(zl: bytes, p: nat, reqlen: nat, ps: nat, pb: bytes, w: bytes)
    requires ps in {1, 5} && |pb| in {1, 5} && p >= 10 && reqlen >= 2
    requires |zl| == p + ps + |w| + 1 + reqlen + (|pb| - ps) && p + ps + |w| <= |zl|
    requires zl[p + ps..p + ps + |w|] == w && zl[|zl| - 1] == ZIP_END
    ensures var nd := |pb| - ps;
            var m := ps + |w| + nd;
            && p + reqlen + m <= |zl| && p - nd + m <= |zl|
            && var y := PutAt(MemMove(zl, p + reqlen, p - nd, m), p + reqlen, pb);
            y[..p] == zl[..p] && y[p + reqlen..] == pb + (w + [ZIP_END])
  {
    hide PutAt, MemMove;
    var nd := |pb| - ps;
    MovedBytes(zl, p + reqlen, p - nd, ps + |w| + nd, |pb|, w);
    PutFront(MemMove(zl, p + reqlen, p - nd, ps + |w| + nd), zl, p, p + reqlen, pb, w + [ZIP_END]);
  }

  /** The move takes everything behind the field along and leaves the end mark. */
  lemma MovedBytes(zl: bytes, dst: nat, src: nat, m: nat, k: nat, w: bytes)
    requires dst + m == |zl| - 1 && src + m <= |zl| && k + |w| == m
    requires zl[src + k..src + m] == w && zl[|zl| - 1] == ZIP_END
    ensures var y := MemMove(zl, dst, src, m); y[..dst] == zl[..dst] && y[dst + k..] == w + [ZIP_END]
  {
    var x := zl[src..src + m];
    assert x[k..] == w;
    assert zl[dst + m..] == [ZIP_END];
    assert MemMove(zl, dst, src, m) == zl[..dst] + (x + [ZIP_END]);
    assert (x + [ZIP_END])[k..] == x[k..] + [ZIP_END];
  }

  lemma PutFront(y: bytes, zl: bytes, p: nat, dst: nat, pb: bytes, tail: bytes)
    requires p <= dst && dst <= |zl| == |y| && dst + |pb| <= |y| && y[..dst] == zl[..dst] && y[dst + |pb|..] == tail
    ensures PutAt(y, dst, pb)[..p] == zl[..p] && PutAt(y, dst, pb)[dst..] == pb + tail
  {
    assert PutAt(y, dst, pb)[..p] == y[..dst][..p];
    assert zl[..p] == zl[..dst][..p];
  }

  /** x is zl as the resize will leave it readable: the same bytes, but for the
      last one in front of the end mark, which a buffer that shrinks by one byte
      loses to the new end mark. */
  ghost predicate Seen(zl: bytes, x: bytes, growth: int) {
    && |zl| == |x| >= 13 && growth >= -1 && zl[..|zl| - 2] == x[..|x| - 2] && zl[|zl| - 1] == x[|x| - 1]
    && if growth >= 0 then zl == x else x[|x| - 2] == ZIP_END
  }

  /** The resize keeps what is in front of p and what is behind q. */
  method ResizeSeen(zl: bytes, n: nat, ghost x: bytes, ghost p: nat, ghost q: nat, ghost tail: nat, ghost count: nat)
      returns (r: bytes)
    requires n >= 11 && Seen(zl, x, n - |zl|) && zl == Head(|zl|, tail, count) + zl[10..] && 10 <= p < q < |zl| - 1
    ensures |r| == n >= |zl| - 1 && r == Head(|r|, tail, count) + r[10..] && r[n - 1] == ZIP_END
    ensures r[10..p] == x[10..p] && r[q..|zl| - 1] == x[q..|zl| - 1]
  {
    hide LE, Head;
    r := Resize(zl, n, tail, count, zl[10..]);
    SeenKept(zl, r, x, p, q);
  }

  /** Moves the tail behind the room and writes its new back link. */
  method MoveTail(zl: bytes, p: nat, reqlen: nat, nextdiff: int, curlen: nat, ghost ps: nat, ghost w: bytes)
      returns (r: bytes)
    requires ps in {1, 5} && p >= 10 && 2 <= reqlen < U32
    requires nextdiff == (if reqlen >= ZIP_BIGLEN then 5 else 1) - ps
    requires curlen == p + ps + |w| + 1 <= |zl| + 1 && |zl| == curlen + reqlen + nextdiff
    requires zl[p + ps..p + ps + |w|] == w && zl[|zl| - 1] == ZIP_END
    ensures |r| == |zl| && r[..p] == zl[..p] && p + reqlen < |r|
    ensures r[p + reqlen..] == PrevBytes(reqlen >= ZIP_BIGLEN, reqlen) + (w + [ZIP_END])
  {
    hide LE, PutAt, MemMove, PrevBytes;
    RoomBytes(zl, p, reqlen, ps, PrevBytes(reqlen >= ZIP_BIGLEN, reqlen), w);
    r := MemMove(zl, p + reqlen, p - nextdiff, curlen - p - 1 + nextdiff);
    r := PutAt(r, p + reqlen, PrevBytes(reqlen >= ZIP_BIGLEN, reqlen));
  }

  /** Resizes and moves the tail, and gives it its new back link
      (ziplist.c:631-641). */
  method OpenRoom(zl: bytes, p: nat, reqlen: nat, ghost x: bytes, ghost a: bytes, ghost e: Entry, ghost e': Entry,
                  ghost tl: seq<Entry>, ghost tail: nat, ghost count: nat, nextdiff: int) returns (r: bytes)
    requires e.Valid() && AllValid(tl) && 2 <= reqlen < U32
    requires x == BufferT(a, [e] + tl, tail, count) && p == 10 + |a| && Seen(zl, x, reqlen + nextdiff)
    requires e' == e.(wide := reqlen >= ZIP_BIGLEN, prev := reqlen) && nextdiff == e'.PrevSize() - e.PrevSize()
    ensures e'.Valid() && |r| == |zl| + reqlen + nextdiff && p + reqlen < |r|
    ensures r == Head(|r|, tail, count) + r[10..]
    ensures r[10..p] == a && r[p + reqlen..] == Rest([e'] + tl)
  {
    hide LE, Head, EntryBytes, WellSized, Rest, PutAt, MemMove, TotalSize, BufferT, PrevBytes, Seen;
    var curlen := |zl|;
    ghost var w := (e.body + Rest(tl))[..|e.body + Rest(tl)| - 1];
    ghost var q := p + e.PrevSize();
    TailWords(x, p, a, e, tl, tail, count, w);
    SeenSize(zl, x, reqlen + nextdiff);
    SeenHead(zl, x, reqlen + nextdiff, Head(|zl|, tail, count));
    var zl1 := ResizeSeen(zl, curlen + reqlen + nextdiff, x, p, q, tail, count);
    r := MoveTail(zl1, p, reqlen, nextdiff, curlen, e.PrevSize(), w);
    LinkBytes(e', tl);
    RoomFront(zl1, r, Head(|zl1|, tail, count), p);
  }

  lemma SeenHead(zl: bytes, x: bytes, growth: int, h: bytes)
    requires Seen(zl, x, growth) && |h| == 10 && x == h + x[10..]
    ensures |zl| == |x| && growth >= -1 && zl == h + zl[10..]
  {
    assert zl[..10] == zl[..|zl| - 2][..10] == x[..|x| - 2][..10] == h;
  }

  /** Where the bytes behind the back link lie. */
  lemma TailWords(zl: bytes, p: nat, a: bytes, e: Entry, tl: seq<Entry>, tail: nat, count: nat, w: bytes)
    requires e.Valid() && AllValid(tl)
    requires zl == BufferT(a, [e] + tl, tail, count) && p == 10 + |a|
    requires w == (e.body + Rest(tl))[..|e.body + Rest(tl)| - 1]
    ensures e.body + Rest(tl) == w + [ZIP_END] && w != []
    ensures var q := p + e.PrevSize(); q + |w| + 1 == |zl| && zl[q..q + |w|] == w
    ensures zl == Head(|zl|, tail, count) + zl[10..] && zl[10..p] == a
  {
    hide LE, Head, EntryBytes, Rest, TotalSize, PrevBytes, WellSized, BufferT;
    var x := e.body + Rest(tl);
    SplitBuffer(a, [e] + tl, tail, count);
    LinkBytes(e, tl);
    assert x == w + [ZIP_END];
    BodySome(e);
    Locate(Head(|zl|, tail, count), a, PrevBytes(e.wide, e.prev), w);
  }

  lemma BodySome(e: Entry)
    requires e.Valid()
    ensures e.body != []
  {}

  lemma Locate(h: bytes, a: bytes, pb: bytes, w: bytes)
    requires |h| == 10
    ensures var zl := h + (a + (pb + (w + [ZIP_END])));
            var q := 10 + |a| + |pb|;
            && q + |w| + 1 == |zl| && zl[q..q + |w|] == w
            && zl == h + zl[10..] && zl[10..10 + |a|] == a
  {
    var x := w + [ZIP_END];
    Associative(h, a, pb + x);
    Associative(h + a, pb, x);
    var u := (h + a) + pb;
    var zl := u + x;
    assert zl[|u|..|u| + |w|] == x[..|w|] == w;
    assert zl[10..] == a + (pb + x);
    assert zl[10..10 + |a|] == a;
  }

  /** The resize kept what the move needs. */
  lemma SeenKept(zl: bytes, zl1: bytes, x: bytes, p: nat, q: nat)
    requires |zl1| >= 11 && Seen(zl, x, |zl1| - |zl|) && zl1[|zl1| - 1] == ZIP_END && 10 <= p < q < |zl| - 1
    requires var k := if |zl1| - 1 < |zl| then |zl1| - 11 else |zl| - 10; zl1[10..][..k] == zl[10..][..k]
    ensures zl1[10..p] == x[10..p] && zl1[q..|zl| - 1] == x[q..|zl| - 1]
  {
    var n := |zl|;
    var k := if |zl1| - 1 < n then |zl1| - 1 else n;
    assert forall i :: 10 <= i < k ==> zl1[i] == zl1[10..][..k - 10][i - 10] && zl[i] == zl[10..][..k - 10][i - 10];
    assert forall i :: 0 <= i < n - 2 ==> zl[i] == zl[..n - 2][i] && x[i] == x[..n - 2][i];
    assert forall i :: 10 <= i < n - 1 ==> zl1[i] == x[i];
  }

  lemma RoomFront(zl1: bytes, r: bytes, h1: bytes, p: nat)
    requires |h1| == 10 && |zl1| >= 11 && zl1 == h1 + zl1[10..] && |r| == |zl1|
    requires 10 <= p <= |zl1| && r[..p] == zl1[..p]
    ensures r == h1 + r[10..] && r[10..p] == zl1[10..p]
  {
    assert r[..10] == r[..p][..10] == zl1[..p][..10] == h1;
    assert r[10..p] == r[..p][10..] && zl1[10..p] == zl1[..p][10..];
  }

  /** The size of the entry in front of position p (ziplist.c:601-609). */
  method PrevLen(zl: bytes, p: nat, ghost z: Zip, ghost i: nat) returns (prev: nat)
    requires WellFormed(z) && zl == Image(z) && i <= |z.es| && p == Offset(z.es, i)
    ensures prev == LastSize(0, z.es[..i])
  {
    hide Image, Offset, WellSized, EntryAt, TailOf, Linked, TotalSize;
    SeeAt(z, i);
    if zl[p] != ZIP_END {
      var e := ReadEntry(zl, p, z.es[i]);
      BackLink(z, i);
      return e.prevLen;
    }
    assert z.es[..i] == z.es;
    TailSeen(z);
    HeadOffset(z);
    var t := TailOf(zl);
    ghost var k := if z.es == [] then 0 else |z.es| - 1;
    SeeAt(z, k);
    if zl[t] == ZIP_END { return 0; }
    var e := ReadEntry(zl, t, z.es[k]);
    return e.Raw();
  }

  /** zipTryEncoding, zipEncodeLength and zipSaveInteger: the encoded element. */
  method Encode(s: bytes) returns (body: bytes)
    requires |s| < U32
    ensures body == EncodeBody(s)
  {
    hide LE, Parse, StrHeader, IntPayload, IntEncoding;
    if |s| >= 32 || |s| == 0 { return StrHeader(|s|) + s; }
    var ok, v := StringToLL(s);
    if ok {
      ghost var r := AsInteger(s);
      return [IntEncoding(v)] + IntPayload(v);
    }
    return StrHeader(|s|) + s;
  }

  /** Writes the new entry over the room made for it. */
  method WriteEntry(zl: bytes, p: nat, prev: nat, body: bytes, ghost a: bytes, ghost room: bytes, ghost added: Entry,
                    ghost es: seq<Entry>, ghost tail: nat, ghost count: nat) returns (r: bytes)
    requires added == Entry(prev >= ZIP_BIGLEN, prev, body) && added.Valid() && AllValid(es)
    requires zl == BufferT(a + room, es, tail, count) && p == 10 + |a| && |room| == added.Size()
    ensures r == BufferT(a + EntryBytes(added), es, tail, count)
  {
    hide LE, Head, WellSized, Rest, PutAt, TotalSize, PrevBytes;
    ghost var h := Head(|zl|, tail, count);
    ghost var (pb, x) := (PrevBytes(added.wide, prev), Rest(es));
    ghost var (m, n) := (room[..|pb|], room[|pb|..]);
    assert room == m + n;
    Associative(a, room, x);
    Associative(m, n, x);
    PutInside(h, a + (m + (n + x)), |a|, pb);
    PutOver(a, m, n + x, pb);
    r := PutAt(zl, p, PrevBytes(prev >= ZIP_BIGLEN, prev));
    SecondWrite(h, a, pb, n, x, body);
    r := PutAt(r, p + (if prev >= ZIP_BIGLEN then 5 else 1), body);
  }

  lemma SecondWrite(h: bytes, a: bytes, pb: bytes, n: bytes, x: bytes, body: bytes)
    requires |n| == |body|
    ensures PutAt(h + (a + (pb + (n + x))), |h| + |a| + |pb|, body) == h + ((a + (pb + body)) + x)
  {
    hide PutAt;
    Associative(a, pb, n + x);
    PutInside(h, (a + pb) + (n + x), |a| + |pb|, body);
    PutOver(a + pb, n, x, body);
    Associative(a + pb, body, x);
    Associative(a, pb, body);
  }

  /** Room in front of an entry that gets a new back link (ziplist.c:628-654). */
  method ShiftIn(zl: bytes, p: nat, reqlen: nat, nextdiff: int, ghost x: bytes, ghost a: bytes, ghost e: Entry,
                 ghost e': Entry, ghost tl: seq<Entry>, ghost count: nat) returns (r: bytes, ghost room: bytes)
    requires e.Valid() && e'.Valid() && AllValid(tl) && 2 <= reqlen < U32 && count < U16
    requires x == Buffer(a, [e] + tl, count) && p == 10 + |a| && |x| < U32 && |x| + reqlen + nextdiff < U32
    requires e' == e.(wide := reqlen >= ZIP_BIGLEN, prev := reqlen) && nextdiff == e'.PrevSize() - e.PrevSize()
    requires Seen(zl, x, reqlen + nextdiff)
    ensures |room| == reqlen && r == Buffer(a + room, [e'] + tl, count)
  {
    hide LE, Head, EntryBytes, WellSized, Rest, LastOffset, TotalSize, BufferT, Seen;
    ghost var was, now := LastOffset([e] + tl), LastOffset([e'] + tl);
    GapSizes(e, e', tl);
    SeenSize(zl, x, reqlen + nextdiff);
    r := OpenRoom(zl, p, reqlen, x, a, e, e', tl, p + was, count, nextdiff);
    r, room := SettleTail(r, p, reqlen, nextdiff, a, e', tl, p + was, p + reqlen + now, count);
  }

  /** The tail offset behind the room (ziplist.c:643-654). */
  method SettleTail(zl: bytes, p: nat, reqlen: nat, nextdiff: int, ghost a: bytes, ghost e: Entry, ghost tl: seq<Entry>,
                    ghost tail: nat, ghost tail': nat, ghost count: nat) returns (r: bytes, ghost room: bytes)
    requires e.Valid() && AllValid(tl) && count < U16 && tail < U32 && |zl| < U32
    requires p == 10 + |a| && p + reqlen <= |zl| && zl == Head(|zl|, tail, count) + zl[10..]
    requires zl[10..p] == a && zl[p + reqlen..] == Rest([e] + tl) && tail + reqlen + nextdiff >= 0
    requires tail' == tail + reqlen + (if tl == [] then 0 else nextdiff) == p + reqlen + LastOffset([e] + tl)
    ensures |room| == reqlen && r == Buffer(a + room, [e] + tl, count)
  {
    hide LE, Head, EntryBytes, WellSized, Rest, LastOffset, TotalSize, BufferT;
    ghost var d := zl[10..];
    room := RoomOf(zl, p, reqlen, a, Rest([e] + tl));
    r := ShiftTail(zl, p + reqlen, reqlen, nextdiff, d, e, tl, tail, tail', count);
    AsBuffer(r, a + room, [e] + tl, tail', count);
  }

  lemma SeenSize(zl: bytes, x: bytes, growth: int)
    requires Seen(zl, x, growth)
    ensures |zl| == |x| && growth >= -1
  {}

  lemma RoomOf(r: bytes, p: nat, reqlen: nat, a: bytes, x: bytes) returns (room: bytes)
    requires p == 10 + |a| && p + reqlen <= |r| && r[10..p] == a && r[p + reqlen..] == x
    ensures |room| == reqlen && r[10..] == (a + room) + x && r[10..][p + reqlen - 10..] == x
  {
    room := r[p..p + reqlen];
  }

  /** Room in front of an existing entry, cascade included (ziplist.c:628-666). The
      code goes on as if the list were z, which the buffer shows after the resize. */
  method InsertBefore(zl: bytes, p: nat, reqlen: nat, ghost z: Zip, ghost i: nat) returns (r: bytes, ghost room: bytes)
    requires WellFormed(z) && i < |z.es| && p == Offset(z.es, i) && 2 <= reqlen < U32
    requires Seen(zl, Image(z), reqlen + NextDiff(z, i, reqlen))
    requires 11 + TotalSize(z.es[..i]) + reqlen + TotalSize(Reseat(z.es[i..], reqlen)) < U32
    ensures |room| == reqlen && AllValid(z.es[..i]) && AllValid(Reseat(z.es[i..], reqlen))
    ensures r == Buffer(Flat(z.es[..i]) + room, Reseat(z.es[i..], reqlen), z.count)
  {
    hide LE, Head, EntryBytes, WellSized, Rest, LastOffset, TotalSize, BufferT, Image, Linked, Offset, EntryAt, Flat, Cascade, Reseat, Seen, AllValid;
    SplitValid(z, i);
    ghost var (a, e, tl) := (Flat(z.es[..i]), z.es[i], z.es[i + 1..]);
    InsertPlan(z, i, reqlen, a, e, tl);
    SeenLink(zl, z, i, reqlen + NextDiff(z, i, reqlen));
    var nextdiff := (if reqlen < ZIP_BIGLEN then 1 else 5) - (if zl[p] < ZIP_BIGLEN then 1 else 5);
    ghost var e' := e.(wide := reqlen >= ZIP_BIGLEN, prev := reqlen);
    r, room := ShiftIn(zl, p, reqlen, nextdiff, Image(z), a, e, e', tl, z.count);
    if nextdiff != 0 {
      ValidJoin(e', tl);
      r := CascadeUpdate(r, p + reqlen, a + room, [e'] + tl, 10 + |a + room| + LastOffset([e'] + tl), z.count);
    }
  }

  lemma ValidJoin(e: Entry, tl: seq<Entry>)
    requires e.Valid() && AllValid(tl)
    ensures AllValid([e] + tl)
  {
    hide WellSized;
  }

  /** The width of an entry's back link is read before the resize. */
  lemma {:induction false} SeenLink(zl: bytes, z: Zip, i: nat, growth: int)
    requires WellFormed(z) && i < |z.es| && Seen(zl, Image(z), growth)
    ensures var p := Offset(z.es, i); p < |zl| && (zl[p] < ZIP_BIGLEN <==> !z.es[i].wide) && zl[p] != ZIP_END
  {
    hide LE, Image, Offset, Linked, TotalSize, Rest, WellSized;
    SeeAt(z, i);
    ImageSize(z);
    OffsetNext(z.es, i);
    OffsetEnd(z, i + 1);
    BodySome(z.es[i]);
    var (x, p, e) := (Image(z), Offset(z.es, i), z.es[i]);
    assert zl[p] == zl[..|zl| - 2][p] && x[p] == x[..|x| - 2][p];
    FirstByte(x, p, e);
  }

  lemma FirstByte(x: bytes, p: nat, e: Entry)
    requires EntryAt(x, p, e)
    ensures x[p] < ZIP_BIGLEN <==> !e.wide
    ensures x[p] != ZIP_END
  {
    hide LE, WellSized;
    assert x[p..p + e.Size()][0] == x[p];
  }

  lemma {:induction false} OffsetEnd(z: Zip, i: nat)
    requires AllValid(z.es) && i <= |z.es|
    ensures Offset(z.es, i) <= 10 + TotalSize(z.es)
  {
    assert z.es == z.es[..i] + z.es[i..];
    TotalSplit(z.es[..i], z.es[i..]);
  }

  /** What the insertion in front of entry i finds, and what it has to leave. */
  lemma {:induction false} InsertPlan(z: Zip, i: nat, reqlen: nat, a: bytes, e: Entry, tl: seq<Entry>)
    requires WellFormed(z) && i < |z.es| && 2 <= reqlen < U32 && AllValid(z.es[..i])
    requires a == Flat(z.es[..i]) && e == z.es[i] && tl == z.es[i + 1..]
    requires 11 + TotalSize(z.es[..i]) + reqlen + TotalSize(Reseat(z.es[i..], reqlen)) < U32
    ensures var e' := e.(wide := reqlen >= ZIP_BIGLEN, prev := reqlen);
            var tail := Reseat(z.es[i..], reqlen);
            && e.Valid() && e'.Valid() && AllValid(tl) && AllValid(tail) && Image(z) == Buffer(a, [e] + tl, z.count)
            && Offset(z.es, i) == 10 + |a| && |Image(z)| < U32 && |Image(z)| + reqlen + NextDiff(z, i, reqlen) < U32
            && tail == (if NextDiff(z, i, reqlen) != 0 then Cascade([e'] + tl) else [e'] + tl)
            && (tl == [] ==> Cascade([e'] + tl) == [e'] + tl) && 11 + |a| + reqlen + TotalSize(tail) < U32
  {
    hide LE, Head, EntryBytes, WellSized, Rest, LastOffset, TotalSize, BufferT, Linked, Flat, Cascade, Reseat, Image, Offset;
    var e' := e.(wide := reqlen >= ZIP_BIGLEN, prev := reqlen);
    PlanImage(z, i, a, e, tl);
    SplitValid(z, i);
    assert z.es[i..] == [e] + tl;
    ReseatLinks(z.es[i..], LastSize(0, z.es[..i]), reqlen);
    ReseatParts(z.es[i..], e, tl, reqlen);
    CascadeGrowth([e'] + tl);
    GapSizes(e, e', tl);
    CascadeAlone(e', tl);
    ImageSize(z);
  }

  lemma PlanImage(z: Zip, i: nat, a: bytes, e: Entry, tl: seq<Entry>)
    requires WellFormed(z) && i < |z.es| && AllValid(z.es[..i])
    requires a == Flat(z.es[..i]) && e == z.es[i] && tl == z.es[i + 1..]
    ensures e.Valid() && AllValid(tl) && Image(z) == Buffer(a, [e] + tl, z.count) && Offset(z.es, i) == 10 + |a|
    ensures |a| == TotalSize(z.es[..i])
  {
    hide LE, Head, EntryBytes, WellSized, Rest, LastOffset, TotalSize, BufferT, Linked, Flat, Image, Offset;
    ImageAt(z, i);
    assert z.es[i..] == [e] + tl;
  }

  /** zipPrevLenByteDiff for the entry behind the insertion point. */
  function NextDiff(z: Zip, i: nat, reqlen: nat): int
    requires i < |z.es|
  {
    (if reqlen >= ZIP_BIGLEN then 5 else 1) - z.es[i].PrevSize()
  }

  /** Room at the end (ziplist.c:655-658). */
  method InsertLast(zl: bytes, p: nat, reqlen: nat, ghost z: Zip) returns (r: bytes, ghost room: bytes)
    requires WellFormed(z) && zl == Image(z) && p == Offset(z.es, |z.es|) && |zl| + reqlen < U32
    ensures |room| == reqlen
    ensures r == BufferT(Flat(z.es) + room, [], 10 + TotalSize(z.es), z.count)
  {
    hide LE, Head, EntryBytes, WellSized, LastOffset, TotalSize, Linked, Flat, Offset, Image, BufferT, PutAt;
    ghost var a := Flat(z.es);
    ImageAt(z, |z.es|);
    assert z.es[..|z.es|] == z.es && z.es[|z.es|..] == [];
    SplitBuffer(a, [], 10 + LastOffset(z.es), z.count);
    r := Resize(zl, |zl| + reqlen, 10 + LastOffset(z.es), z.count, a + [ZIP_END]);
    ghost var d := r[10..];
    room := LastRoom(r, a, reqlen);
    HeadWrites(|r|, 10 + LastOffset(z.es), z.count, d, p);
    r := PutAt(r, 4, LE(p, 4));
    SplitBuffer(a + room, [], p, z.count);
  }

  lemma LastRoom(r: bytes, a: bytes, reqlen: nat) returns (room: bytes)
    requires |r| == 11 + |a| + reqlen && r[10..][..|a| + 1] == (a + [ZIP_END])[..|a| + 1] && r[|r| - 1] == ZIP_END
    ensures |room| == reqlen && r[10..] == (a + room) + [ZIP_END]
  {
    var d := r[10..];
    room := d[|a|..|a| + reqlen];
    assert d[..|a|] == d[..|a| + 1][..|a|] == a;
  }

  /** The code of __ziplistInsert behind the search for prevlen: it works on the list
      that the resize leaves to be seen. */
  method InsertSeen(zl: bytes, p: nat, prev: nat, s: bytes, ghost z: Zip, ghost i: nat) returns (r: bytes)
    requires WellFormed(z) && i <= |z.es| && p == Offset(z.es, i) && |s| < U32 && prev == LastSize(0, z.es[..i])
    requires 11 + TotalSize(Insert(z, i, s).es) < U32
    requires if i < |z.es| then Seen(zl, Image(z), Growth(z, i, s)) else zl == Image(z)
    ensures AllValid(Insert(z, i, s).es) && r == Image(Insert(z, i, s))
  {
    hide LE, Head, EntryBytes, WellSized, Rest, LastOffset, TotalSize, BufferT, Image, Linked, Offset, EntryAt, Flat, Cascade, Reseat, Seen, EncodeBody;
    InsertRefines(z, i, s);
    var body := Encode(s);
    var reqlen := (if prev < ZIP_BIGLEN then 1 else 5) + |body|;
    ghost var added := NewEntry(prev, s);
    ghost var (a, tail) := (z.es[..i], Reseat(z.es[i..], reqlen));
    InsertSizes(z, i, s, added);
    if i < |z.es| { SeenLink(zl, z, i, Growth(z, i, s)); } else { SeeAt(z, i); }
    ghost var room;
    ghost var t;
    if zl[p] != ZIP_END {
      r, room := InsertBefore(zl, p, reqlen, z, i);
      t := 10 + |Flat(a) + room| + LastOffset(tail);
      LastBound(tail);
    } else {
      assert z.es[..i] == z.es && tail == [];
      r, room := InsertLast(zl, p, reqlen, z);
      t := 10 + TotalSize(z.es);
    }
    r := WriteEntry(r, p, prev, body, Flat(a), room, added, tail, t, z.count);
    r := IncrLength(r, 1, Flat(a) + EntryBytes(added), tail, t, z.count);
    FlatAdd(a, added);
    JoinImage(a + [added], tail, Incr(z.count, 1));
  }

  /** reqlen + nextdiff: by how much the buffer grows in front of entry i. */
  function Growth(z: Zip, i: nat, s: bytes): int
    requires i < |z.es| && |s| < U32
  {
    var reqlen := NewEntry(LastSize(0, z.es[..i]), s).Size();
    reqlen + NextDiff(z, i, reqlen)
  }

  /** The memmove stays inside the resized block exactly when the growth is not below
      -1; a growth of -2 makes it read past the end. */
  lemma MoveInBlock(curlen: nat, p: nat, reqlen: nat, nextdiff: int)
    requires 10 <= p < curlen && 2 <= reqlen && nextdiff in {-4, 0, 4}
    ensures (p - nextdiff) + (curlen - p - 1 + nextdiff) <= curlen + reqlen + nextdiff <==> reqlen + nextdiff >= -1
    ensures reqlen + nextdiff >= -2
  {}

  /** __ziplistInsert, whenever its memmove stays inside the block: the list with s as
      element i, but with the last byte lost to the end mark when the buffer shrank by
      one. That is the right list exactly when the growth is safe. */
  method InsertAt(zl: bytes, p: nat, s: bytes, ghost z: Zip, ghost i: nat) returns (r: bytes)
    requires WellFormed(z) && zl == Image(z) && i <= |z.es| && p == Offset(z.es, i) && |s| < U32
    requires 11 + TotalSize(Insert(z, i, s).es) < U32
    requires i < |z.es| ==> Growth(z, i, s) >= -1
                            && (Growth(z, i, s) == -1 ==> Safe(zl, -1) || PlainEnd(z.es[|z.es| - 1].body))
    ensures var y := Insert(z, i, s);
            && AllValid(y.es) && |Image(y)| >= 2
            && r == (if i < |z.es| && Growth(z, i, s) == -1 then Image(y)[|Image(y)| - 2 := ZIP_END] else Image(y))
            && (r == Image(y) <==> i == |z.es| || Safe(zl, Growth(z, i, s)))
  {
    hide WellSized, TotalSize, Image, Linked, Offset, EntryAt, Insert, NextDiff, Growth;
    InsertRefines(z, i, s);
    ImageSize(z);
    ImageSize(Insert(z, i, s));
    var prev := PrevLen(zl, p, z, i);
    ghost var seen := z;
    if i < |z.es| {
      LastByte(z, i, s);
      if Safe(zl, Growth(z, i, s)) {
        SeenSelf(zl, Growth(z, i, s), z);
      } else {
        SpoiltSeen(z, i, s);
        seen := Spoilt(z);
        SpoilImage(Insert(z, i, s));
      }
    }
    r := InsertSeen(zl, p, prev, s, seen, i);
  }

  lemma SeenSelf(zl: bytes, growth: int, z: Zip)
    requires AllValid(z.es) && z.es != [] && zl == Image(z) && growth >= -1 && Safe(zl, growth)
    ensures Seen(zl, zl, growth)
  {
    hide WellSized, Image;
    ImageSize(z);
    GapWidth(z.es);
  }

  /** The last body stays the last body. */
  lemma {:induction false} LastBody(z: Zip, i: nat, s: bytes)
    requires WellFormed(z) && i < |z.es| && |s| < U32 && 11 + TotalSize(Insert(z, i, s).es) < U32
    ensures var y := Insert(z, i, s); y.es != [] && y.es[|y.es| - 1].body == z.es[|z.es| - 1].body
  {
    hide WellSized, Linked, TotalSize, Reseat, EncodeBody;
    var added := NewEntry(LastSize(0, z.es[..i]), s);
    var tail := Reseat(z.es[i..], added.Size());
    InsertSizes(z, i, s, added);
    SplitValid(z, i);
    ReseatLinks(z.es[i..], LastSize(0, z.es[..i]), added.Size());
    assert tail[|tail| - 1].body == z.es[i..][|tail| - 1].body;
  }

  lemma {:induction false} LastByte(z: Zip, i: nat, s: bytes)
    requires WellFormed(z) && i < |z.es| && |s| < U32 && 11 + TotalSize(Insert(z, i, s).es) < U32
    requires AllValid(Insert(z, i, s).es)
    ensures var (x, y) := (Image(z), Image(Insert(z, i, s)));
            |x| >= 13 && |y| >= 13 && x[|x| - 2] == y[|y| - 2]
  {
    hide WellSized, Image, Linked, TotalSize, Insert;
    LastBody(z, i, s);
    LastImageByte(z);
    LastImageByte(Insert(z, i, s));
  }

  /** What a buffer that shrank by one byte shows is the spoilt list. */
  lemma {:induction false} SpoiltSeen(z: Zip, i: nat, s: bytes)
    requires WellFormed(z) && i < |z.es| && |s| < U32 && 11 + TotalSize(Insert(z, i, s).es) < U32
    requires WellFormed(Insert(z, i, s)) && Growth(z, i, s) == -1 && PlainEnd(z.es[|z.es| - 1].body)
    ensures var (t, y) := (Spoilt(z), Insert(z, i, s));
            && WellFormed(t) && |t.es| == |z.es| && Offset(t.es, i) == Offset(z.es, i)
            && LastSize(0, t.es[..i]) == LastSize(0, z.es[..i]) && Growth(t, i, s) == -1
            && Spoilable(y.es) && Insert(t, i, s) == Spoilt(y) && TotalSize(Spoilt(y).es) == TotalSize(y.es)
            && Seen(Image(z), Image(t), -1)
  {
    hide WellSized, Linked, TotalSize, Reseat, EncodeBody, Image, Offset;
    LastBody(z, i, s);
    SpoilImage(z);
    SpoilInsert(z, i, s);
    SpoilSizes(Insert(z, i, s).es, 0);
    assert Spoilt(z).es[..i] == z.es[..i];
    SameOffset(z.es, Spoilt(z).es, i);
    var (x, t) := (Image(z), Image(Spoilt(z)));
    assert t[..|t| - 2] == x[..|x| - 2];
  }

  lemma SameOffset(es: seq<Entry>, t: seq<Entry>, i: nat)
    requires i <= |es| && i <= |t| && es[..i] == t[..i]
    ensures Offset(es, i) == Offset(t, i)
  {}

  lemma {:induction false} FlatAdd(a: seq<Entry>, e: Entry)
    requires AllValid(a) && e.Valid()
    ensures AllValid(a + [e]) && Flat(a + [e]) == Flat(a) + EntryBytes(e)
    ensures LastOffset(a + [e]) == TotalSize(a)
  {
    hide EntryBytes, WellSized;
    FlatJoin(a, [e]);
    FlatOne(e);
    LastAlone(e);
    LastOffsetSplit(a, [e]);
  }

  lemma {:induction false} InsertSizes(z: Zip, i: nat, s: bytes, added: Entry)
    requires WellFormed(z) && i <= |z.es| && |s| < U32 && 11 + TotalSize(Insert(z, i, s).es) < U32
    requires added == NewEntry(LastSize(0, z.es[..i]), s)
    ensures var tail := Reseat(z.es[i..], added.Size());
            && added.Valid() && added.body == EncodeBody(s) && AllValid(z.es[..i]) && AllValid(z.es[i..])
            && 2 <= added.Size() < U32 && AllValid(tail) && (tail == [] <==> i == |z.es|)
            && 11 + TotalSize(z.es[..i]) + added.Size() + TotalSize(tail) < U32
            && 10 + |Flat(z.es[..i])| == Offset(z.es, i)
            && |Image(z)| == 11 + TotalSize(z.es)
            && TotalSize(z.es[..i]) + TotalSize(z.es[i..]) == TotalSize(z.es)
  {
    hide EncodeBody, WellSized, Linked, Reseat, TotalSize, Image, Flat, AllValid, Insert, Offset;
    SplitValid(z, i);
    InsertParts(z, i, s, added);
    InsertTotal(z, i, s, added);
    ImageSize(z);
    ImageAt(z, i);
  }

  /** The new list is the front, the new entry and the reseated tail, all valid. */
  lemma {:induction false} InsertParts(z: Zip, i: nat, s: bytes, added: Entry)
    requires WellFormed(z) && i <= |z.es| && |s| < U32 && 11 + TotalSize(Insert(z, i, s).es) < U32
    requires added == NewEntry(LastSize(0, z.es[..i]), s)
    ensures var tail := Reseat(z.es[i..], added.Size());
            && Insert(z, i, s).es == (z.es[..i] + [added]) + tail && |tail| == |z.es| - i
            && added.Valid() && added.body == EncodeBody(s) && AllValid(tail)
  {
    hide EncodeBody, Linked, Reseat, TotalSize, AllValid;
    InsertRefines(z, i, s);
    ValidBehind(z.es[..i], added, Reseat(z.es[i..], added.Size()));
  }

  lemma ValidBehind(front: seq<Entry>, e: Entry, tail: seq<Entry>)
    requires AllValid((front + [e]) + tail)
    ensures e.Valid() && AllValid(tail)
  {
    hide WellSized;
    var es := (front + [e]) + tail;
    assert e == es[|front|];
    assert forall k :: 0 <= k < |tail| ==> tail[k] == es[|front| + 1 + k];
  }

  lemma {:induction false} InsertTotal(z: Zip, i: nat, s: bytes, added: Entry)
    requires i <= |z.es| && |s| < U32 && added == NewEntry(LastSize(0, z.es[..i]), s) && added.Valid()
    ensures TotalSize(Insert(z, i, s).es)
            == TotalSize(z.es[..i]) + added.Size() + TotalSize(Reseat(z.es[i..], added.Size()))
    ensures added.Size() >= 2
  {
    hide EncodeBody, WellSized, Reseat, TotalSize;
    BodySome(added);
    TotalSplit(z.es[..i] + [added], Reseat(z.es[i..], added.Size()));
    TotalSplit(z.es[..i], [added]);
    LastAlone(added);
  }

  // ----------------------------------------------------- the unsafe case is real

  lemma {:induction false} PushSpec(z: Zip, s: bytes)
    requires WellFormed(z) && |s| < U32
    requires 11 + TotalSize(z.es) + NewEntry(LastSize(0, z.es), s).Size() < U32
    ensures var added := NewEntry(LastSize(0, z.es), s);
            && Insert(z, |z.es|, s) == Zip(z.es + [added], Incr(z.count, 1))
            && WellFormed(Insert(z, |z.es|, s))
            && TotalSize(z.es + [added]) == TotalSize(z.es) + added.Size()
  {
    hide EncodeBody, Linked;
    var added := NewEntry(LastSize(0, z.es), s);
    assert z.es[..|z.es|] == z.es && z.es[|z.es|..] == [];
    assert (z.es + [added]) + [] == z.es + [added];
    TotalSplit(z.es, [added]);
    LastAlone(added);
    InsertRefines(z, |z.es|, s);
  }

  lemma Bodies(x: bytes, y: bytes)
    requires |x| == 300 && |y| == 248
    ensures |EncodeBody(x)| == 302 && |EncodeBody(y)| == 250
    ensures EncodeBody([97]) == [1, 97] && EncodeBody([49]) == [0xf2] && |EncodeBody([57, 57])| == 2
  {
    hide EncodeBody;
    LongBody(x);
    LongBody(y);
    LetterBody();
    OneBody();
    NinesBody();
  }

  lemma LongBody(x: bytes)
    requires 64 <= |x| < 16384
    ensures |EncodeBody(x)| == |x| + 2
  {}

  lemma LetterBody()
    ensures EncodeBody([97]) == [1, 97]
  {
    assert !Canonical([97]) by { assert Unsigned([97]) == [97]; }
  }

  lemma OneBody()
    ensures EncodeBody([49]) == [0xf2]
  {
    assert FromDigits([49]) == 10 * FromDigits([]) + 1 by { assert [49][..0] == []; }
    assert Parse([49]) == Some(1);
  }

  lemma NinesBody()
    ensures |EncodeBody([57, 57])| == 2
  {
    assert FromDigits([57]) == 9 by { assert [57][..0] == []; }
    assert FromDigits([57, 57]) == 99 by { assert [57, 57][..1] == [57]; }
    assert Parse([57, 57]) == Some(99);
  }

  /** Three pushes, the second and third behind large entries. */
  lemma {:induction false} Pushed(x: bytes, y: bytes) returns (z: Zip, ex: Entry, ey: Entry, em: Entry)
    requires |x| == 300 && |y| == 248
    ensures z == Insert(Insert(Insert(Zip([], 0), 0, x), 1, y), 2, [97])
    ensures WellFormed(z) && z.es == [ex, ey, em] && ex.prev == 0
    ensures ey == Entry(true, 303, EncodeBody(y)) && em == Entry(true, 255, [1, 97])
    ensures TotalSize(z.es) == 303 + 255 + 7
  {
    hide EncodeBody, Insert, Linked, TotalSize;
    Bodies(x, y);
    var z0 := Zip([], 0);
    EmptyWellFormed();
    PushSpec(z0, x);
    ex := NewEntry(0, x);
    var z1 := Insert(z0, 0, x);
    PushSpec(z1, y);
    ey := NewEntry(303, y);
    var z2 := Insert(z1, 1, y);
    PushSpec(z2, [97]);
    em := NewEntry(255, [97]);
    z := Insert(z2, 2, [97]);
    assert ([] + [ex]) + [ey] + [em] == [ex, ey, em];
  }

  lemma EmptyWellFormed()
    ensures WellFormed(Zip([], 0)) && TotalSize([]) == 0
  {}

  /** Dropping the first of two entries behind it shrinks one and leaves the
      other with a wide link of a small value. */
  lemma {:induction false} Dropped(ey: Entry, em: Entry)
    requires ey.wide && em.wide && |ey.body| == 250 && em.prev == 255
    ensures Reseat([ey, em], 0) == [ey.(wide := false, prev := 0), em.(prev := 251)]
  {
    var ey' := ey.(wide := false, prev := 0);
    assert [ey, em][1..] == [em] && [ey'] + [em] == [ey', em] && [ey', em][2..] == [];
    assert Reseat([ey, em], 0) == Cascade([ey', em]);
    assert [ey', em.(prev := 251)] + [] == [ey', em.(prev := 251)];
  }

  /** Push 300, 248 and 1 bytes and drop the first element. */
  ghost function Worn(x: bytes, y: bytes): Zip
    requires |x| == 300 && |y| == 248
  {
    Delete(Insert(Insert(Insert(Zip([], 0), 0, x), 1, y), 2, [97]), 0, 1)
  }

  lemma {:induction false} WornShape(x: bytes, y: bytes) returns (a: Entry, b: Entry)
    requires |x| == 300 && |y| == 248
    ensures var z := Worn(x, y); WellFormed(z) && z.es == [a, b]
    ensures !a.wide && a.prev == 0 && |a.body| == 250 && b == Entry(true, 251, [1, 97])
  {
    hide Image, Linked, EncodeBody, Insert, TotalSize, Reseat;
    Bodies(x, y);
    var z3, ex, ey, em := Pushed(x, y);
    Dropped(ey, em);
    assert z3.es[0..0] == [] && z3.es[1..] == [ey, em];
    var z := Delete(z3, 0, 1);
    var r := Reseat([ey, em], 0);
    assert z.es == r by { assert [] + r == r; }
    PairSize(r[0], r[1]);
    DeleteRefines(z3, 0, 1);
    a, b := r[0], r[1];
  }

  /** The last entry keeps a five-byte back link of a small value. Between the two
      entries, the string "99" shrinks the buffer by one byte and "1" by two. */
  lemma {:induction false} UnsafeInsertReachable(x: bytes, y: bytes)
    requires |x| == 300 && |y| == 248
    ensures var z := Worn(x, y);
            && WellFormed(z) && |z.es| == 2 && PlainEnd(z.es[1].body) && Elements(z.es)[1] == [97]
            && Growth(z, 1, [57, 57]) == -1 && !Safe(Image(z), -1) && Growth(z, 1, [49]) == -2
            && 11 + TotalSize(Insert(z, 1, [57, 57]).es) < U32
  {
    hide Image, Linked, EncodeBody, Reseat, Worn;
    Bodies(x, y);
    var a, b := WornShape(x, y);
    var z := Worn(x, y);
    assert z.es[..1] == [a] && z.es[1..] == [b];
    LastImageByte(z);
    ReseatLast(b, 3);
    var added := NewEntry(251, [57, 57]);
    assert Insert(z, 1, [57, 57]).es == [a, added, b.(wide := false, prev := 3)];
    TripleSize(a, added, b.(wide := false, prev := 3));
  }

  lemma ReseatLast(b: Entry, raw: nat)
    requires raw < ZIP_BIGLEN
    ensures Reseat([b], raw) == [b.(wide := false, prev := raw)]
  {
    assert [b.(wide := false, prev := raw)] + [b][1..] == [b.(wide := false, prev := raw)];
  }

  lemma TripleSize(a: Entry, b: Entry, c: Entry)
    ensures TotalSize([a, b, c]) == a.Size() + b.Size() + c.Size()
  {
    PairSize(b, c);
    assert [a, b, c][1..] == [b, c];
  }

  /** Inserting "99" there turns the last element "a" into a byte 255. */
  method WrongInsert(zl: bytes, p: nat, ghost x: bytes, ghost y: bytes) returns (r: bytes, ghost t: Zip)
    requires |x| == 300 && |y| == 248 && AllValid(Worn(x, y).es) && |Worn(x, y).es| == 2
    requires zl == Image(Worn(x, y)) && p == Offset(Worn(x, y).es, 1)
    ensures var right := Insert(Worn(x, y), 1, [57, 57]);
            AllValid(right.es) && |right.es| == 3 && Elements(right.es)[2] == [97] && r != Image(right)
    ensures AllValid(t.es) && r == Image(t) && |t.es| == 3 && Elements(t.es)[2] == [255]
  {
    hide Image, Offset, EncodeBody, Linked, Worn, Insert, Reseat, TotalSize, SpoilBody, Elements, Element;
    UnsafeInsertReachable(x, y);
    ghost var z := Worn(x, y);
    r := InsertAt(zl, p, [57, 57], z, 1);
    ghost var right := Insert(z, 1, [57, 57]);
    InsertRefines(z, 1, [57, 57]);
    LastBody(z, 1, [57, 57]);
    SpoilImage(right);
    t := Spoilt(right);
    ghost var a, b := WornShape(x, y);
    SpoilLetter(right.es);
  }

  lemma SpoilLetter(es: seq<Entry>)
    requires |es| == 3 && AllValid(es) && es[2].body == [1, 97] && AllValid(SpoilLast(es))
    ensures Elements(es)[2] == [97] && Elements(SpoilLast(es))[2] == [255]
  {
    assert SpoilBody([1, 97]) == [1, 255];
  }

  lemma PairSize(a: Entry, b: Entry)
    ensures TotalSize([a, b]) == a.Size() + b.Size()
  {
    TotalSplit([a], [b]);
    LastAlone(a);
    LastAlone(b);
    assert [a] + [b] == [a, b];
  }
}
