/** A ziplist whose last byte in front of the end mark has become 255: what an insert
    that shrinks the buffer by one byte makes of the list. */
module ZipSpoil {
  import opened Bytes
  import opened Sequences
  import opened ZipEntry
  import opened ZipSpec
  import opened ZipBuffer
  import opened Ziplist

  /** The last byte of an encoded element is not one of its length bytes, unless it is
      the only byte. So zipEncodeLength writes them. */
  predicate PlainEnd(b: bytes) { b != [] && (|b| == 1 || |b| > LenSize(b[0])) }

  function SpoilBody(b: bytes): bytes
    requires b != []
  {
    b[..|b| - 1] + [ZIP_END]
  }

  /** The entries, with the last byte of the last one overwritten. */
  function SpoilLast(es: seq<Entry>): (r: seq<Entry>)
    requires es != [] && es[|es| - 1].body != []
    ensures |r| == |es|
  {
    var k := |es| - 1;
    es[..k] + [es[k].(body := SpoilBody(es[k].body))]
  }

  lemma SpoilBodySized(b: bytes)
    requires WellSized(b) && PlainEnd(b)
    ensures WellSized(SpoilBody(b)) && |SpoilBody(b)| == |b|
  {
    var c := SpoilBody(b);
    if |b| > 1 && 0x80 <= b[0] < 0xc0 { assert c[1..5] == b[1..5]; }
  }

  ghost predicate Spoilable(es: seq<Entry>) {
    es != [] && AllValid(es) && PlainEnd(es[|es| - 1].body)
  }

  lemma SpoilValid(es: seq<Entry>)
    requires Spoilable(es)
    ensures AllValid(SpoilLast(es))
  {
    hide WellSized;
    SpoilBodySized(es[|es| - 1].body);
  }

  lemma {:induction false} SpoilTail(es: seq<Entry>)
    requires |es| >= 2 && es[|es| - 1].body != []
    ensures SpoilLast(es) == [es[0]] + SpoilLast(es[1..])
  {
    var k := |es| - 1;
    assert es[..k] == [es[0]] + es[1..][..k - 1];
  }

  lemma {:induction false} SpoilSizes(es: seq<Entry>, before: nat)
    requires es != [] && es[|es| - 1].body != []
    ensures TotalSize(SpoilLast(es)) == TotalSize(es) && LastOffset(SpoilLast(es)) == LastOffset(es)
    ensures Linked(before, SpoilLast(es)) == Linked(before, es)
  {
    if |es| == 1 {
      assert SpoilLast(es)[1..] == es[1..] == [];
    } else {
      SpoilTail(es);
      SpoilSizes(es[1..], es[0].Size());
      assert SpoilLast(es)[1..] == SpoilLast(es[1..]);
    }
  }

  /** Only sizes steer a cascade, so it takes the overwritten byte along. */
  lemma {:induction false} SpoilCascade(es: seq<Entry>)
    requires es != [] && es[|es| - 1].body != []
    ensures Cascade(es)[|es| - 1].body != []
    ensures Cascade(SpoilLast(es)) == SpoilLast(Cascade(es))
    decreases |es|
  {
    var t := SpoilLast(es);
    if |es| >= 2 {
      var raw := es[0].Size();
      assert t[0] == es[0] && t[1].prev == es[1].prev && t[1].wide == es[1].wide;
      if es[1].prev == raw {
      } else if !es[1].wide && raw >= ZIP_BIGLEN {
        var mid := [Widen(es[1], raw)] + es[2..];
        assert mid[|mid| - 1].body == es[|es| - 1].body;
        SpoilCascade(mid);
        assert [Widen(t[1], raw)] + t[2..] == SpoilLast(mid);
        var c := [es[0]] + Cascade(mid);
        SpoilTail(c);
        assert c[1..] == Cascade(mid);
      } else {
        var c := [es[0], es[1].(prev := raw)] + es[2..];
        assert [t[0], t[1].(prev := raw)] + t[2..] == SpoilLast(c);
      }
    }
  }

  lemma {:induction false} SpoilReseat(es: seq<Entry>, raw: nat)
    requires es != [] && es[|es| - 1].body != []
    ensures Reseat(es, raw)[|es| - 1].body != []
    ensures Reseat(SpoilLast(es), raw) == SpoilLast(Reseat(es, raw))
  {
    hide Cascade;
    var first := es[0].(wide := raw >= ZIP_BIGLEN, prev := raw);
    var es' := [first] + es[1..];
    var t := SpoilLast(es);
    assert es'[|es| - 1].body == es[|es| - 1].body;
    SpoilCascade(es');
    assert [t[0].(wide := raw >= ZIP_BIGLEN, prev := raw)] + t[1..] == SpoilLast(es');
  }

  function Spoilt(z: Zip): Zip
    requires z.es != [] && z.es[|z.es| - 1].body != []
  {
    z.(es := SpoilLast(z.es))
  }

  /** Inserting into the spoilt list is spoiling the list with the element inserted. */
  lemma {:induction false} SpoilInsert(z: Zip, i: nat, s: bytes)
    requires i < |z.es| && z.es[|z.es| - 1].body != [] && |s| < U32
    ensures var y := Insert(z, i, s);
            && y.es != [] && y.es[|y.es| - 1].body != [] && Insert(Spoilt(z), i, s) == Spoilt(y)
  {
    hide Reseat, EncodeBody, SpoilBody;
    var t := SpoilLast(z.es);
    assert t[..i] == z.es[..i] && t[i..] == SpoilLast(z.es[i..]);
    var added := NewEntry(LastSize(0, z.es[..i]), s);
    SpoilReseat(z.es[i..], added.Size());
    var tail := Reseat(z.es[i..], added.Size());
    var y := (z.es[..i] + [added]) + tail;
    assert SpoilLast(y) == (z.es[..i] + [added]) + SpoilLast(tail);
  }

  lemma UpdateBehind(a: bytes, x: bytes)
    requires |x| >= 2
    ensures (a + x)[|a + x| - 2 := ZIP_END] == a + x[|x| - 2 := ZIP_END]
    ensures (a + x)[|a + x| - 2] == x[|x| - 2]
  {}

  lemma UpdateBody(b: bytes)
    requires b != []
    ensures SpoilBody(b) + [ZIP_END] == (b + [ZIP_END])[|b| - 1 := ZIP_END]
  {}

  lemma RestOne(e: Entry)
    requires e.Valid()
    ensures Rest([e]) == PrevBytes(e.wide, e.prev) + (e.body + [ZIP_END])
  {
    hide WellSized, PrevBytes;
    assert [e][1..] == [];
    Associative(PrevBytes(e.wide, e.prev), e.body, [ZIP_END]);
  }

  lemma SpoilRestOne(es: seq<Entry>)
    requires Spoilable(es) && AllValid(SpoilLast(es)) && |es| == 1
    ensures Rest(SpoilLast(es)) == Rest(es)[|Rest(es)| - 2 := ZIP_END]
  {
    hide WellSized, PrevBytes, SpoilBody, Rest;
    var e := es[0];
    var t := e.(body := SpoilBody(e.body));
    assert es == [e] && SpoilLast(es) == [t];
    assert e == es[0] && t == SpoilLast(es)[0];
    RestOne(e);
    RestOne(t);
    UpdateBehind(PrevBytes(e.wide, e.prev), e.body + [ZIP_END]);
    UpdateBody(e.body);
  }

  lemma {:induction false} SpoilRest(es: seq<Entry>)
    requires Spoilable(es) && AllValid(SpoilLast(es))
    ensures Rest(SpoilLast(es)) == Rest(es)[|Rest(es)| - 2 := ZIP_END]
  {
    hide WellSized, EntryBytes, SpoilBody, SpoilLast, TotalSize;
    if |es| == 1 {
      SpoilRestOne(es);
    } else {
      SpoilTail(es);
      assert SpoilLast(es)[1..] == SpoilLast(es[1..]);
      RestRoom(es[1..]);
      SpoilRest(es[1..]);
      UpdateBehind(EntryBytes(es[0]), Rest(es[1..]));
    }
  }

  lemma RestRoom(es: seq<Entry>)
    requires AllValid(es) && es != []
    ensures |Rest(es)| >= 3
  {
    GapWidth(es);
  }

  lemma LastRestByteOne(e: Entry)
    requires e.Valid()
    ensures |Rest([e])| >= 3 && Rest([e])[|Rest([e])| - 2] == e.body[|e.body| - 1]
  {
    hide PrevBytes, PayloadLen;
    assert [e][1..] == [];
    Associative(PrevBytes(e.wide, e.prev), e.body, [ZIP_END]);
    UpdateBehind(PrevBytes(e.wide, e.prev), e.body + [ZIP_END]);
  }

  lemma {:induction false} LastRestByte(es: seq<Entry>)
    requires AllValid(es) && es != []
    ensures |Rest(es)| >= 3 && es[|es| - 1].body != []
    ensures Rest(es)[|Rest(es)| - 2] == es[|es| - 1].body[|es[|es| - 1].body| - 1]
  {
    hide EntryBytes, TotalSize, BodyLen, LenSize;
    if |es| == 1 {
      assert es == [es[0]];
      LastRestByteOne(es[0]);
    } else {
      LastRestByte(es[1..]);
      UpdateBehind(EntryBytes(es[0]), Rest(es[1..]));
    }
  }

  /** The last byte in front of the end mark belongs to the last element. */
  lemma LastImageByte(z: Zip)
    requires AllValid(z.es) && z.es != []
    ensures |Image(z)| >= 13 && z.es[|z.es| - 1].body != []
    ensures Image(z)[|Image(z)| - 2] == z.es[|z.es| - 1].body[|z.es[|z.es| - 1].body| - 1]
  {
    hide WellSized, Head, Rest, LastOffset, TotalSize;
    LastRestByte(z.es);
    UpdateBehind(Head(11 + TotalSize(z.es), 10 + LastOffset(z.es), z.count), Rest(z.es));
    assert [] + Rest(z.es) == Rest(z.es);
  }

  /** One byte of the image changes. */
  lemma {:induction false} SpoilImage(z: Zip)
    requires WellFormed(z) && Spoilable(z.es)
    ensures WellFormed(Spoilt(z)) && |Image(z)| >= 13
    ensures Image(Spoilt(z)) == Image(z)[|Image(z)| - 2 := ZIP_END]
  {
    hide WellSized, Head, Rest, SpoilLast, LastOffset, TotalSize, Linked;
    SpoilValid(z.es);
    SpoilSizes(z.es, 0);
    RestRoom(z.es);
    SpoilRest(z.es);
    var (h, x) := (Head(11 + TotalSize(z.es), 10 + LastOffset(z.es), z.count), Rest(z.es));
    assert [] + x == x && [] + Rest(SpoilLast(z.es)) == Rest(SpoilLast(z.es));
    UpdateBehind(h, x);
  }
}
