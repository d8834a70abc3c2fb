/** What ziplist edits do to the sequence of entries: the cascade of back-link
    growth, and insertion, deletion and merging on top of it. */
module ZipSpec {
  import opened Bytes
  import opened ZipEntry

  predicate AllValid(es: seq<Entry>) {
    forall i :: 0 <= i < |es| ==> es[i].Valid()
  }

  function TotalSize(es: seq<Entry>): nat {
    if es == [] then 0 else es[0].Size() + TotalSize(es[1..])
  }

  /** Each entry's back link is the size of the entry in front of it; `before`
      is the size of whatever precedes the first one (0 at the head). */
  predicate Linked(before: nat, es: seq<Entry>)
    decreases |es|
  {
    es == [] || (es[0].prev == before && Linked(es[0].Size(), es[1..]))
  }

  function LastSize(before: nat, es: seq<Entry>): nat {
    if es == [] then before else es[|es| - 1].Size()
  }

  lemma {:induction false} LinkedSplit(before: nat, a: seq<Entry>, b: seq<Entry>)
    ensures Linked(before, a + b) <==> Linked(before, a) && Linked(LastSize(before, a), b)
    decreases |a|
  {
    if a == [] {
      assert a + b == b;
    } else {
      assert (a + b)[1..] == a[1..] + b;
      LinkedSplit(a[0].Size(), a[1..], b);
    }
  }

  lemma {:induction false} TotalSplit(a: seq<Entry>, b: seq<Entry>)
    ensures TotalSize(a + b) == TotalSize(a) + TotalSize(b)
    decreases |a|
  {
    if a == [] {
      assert a + b == b;
    } else {
      assert (a + b)[1..] == a[1..] + b;
      TotalSplit(a[1..], b);
    }
  }

  lemma {:induction false} SizeInTotal(es: seq<Entry>, i: nat)
    requires i < |es|
    ensures es[i].Size() <= TotalSize(es)
  {
    if i > 0 { SizeInTotal(es[1..], i - 1); }
  }

  // --------------------------------------------------------------------- cascade

  function Widen(e: Entry, raw: nat): Entry { e.(wide := true, prev := raw) }

  /** __ziplistCascadeUpdate, starting at an entry whose own size just changed:
      the next back link is set, and if it had to grow, so may the one after. */
  function Cascade(es: seq<Entry>): (r: seq<Entry>)
    ensures |r| == |es| && (es != [] ==> r[0] == es[0])
    decreases |es|
  {
    if |es| < 2 then es else
      var raw := es[0].Size();
      if es[1].prev == raw then es
      else if !es[1].wide && raw >= ZIP_BIGLEN then [es[0]] + Cascade([Widen(es[1], raw)] + es[2..])
      else [es[0], es[1].(prev := raw)] + es[2..]
  }

  /** The entries whose back link went from one byte to five. */
  function Widened(before: seq<Entry>, after: seq<Entry>): nat
    requires |before| == |after|
  {
    if before == [] then 0
    else (if !before[0].wide && after[0].wide then 1 else 0) + Widened(before[1..], after[1..])
  }

  lemma {:induction false} WidenedNone(es: seq<Entry>)
    ensures Widened(es, es) == 0
  {
    if es != [] { WidenedNone(es[1..]); }
  }

  /** A cascade touches back links only, and never narrows one. */
  lemma {:induction false} CascadeKeeps(es: seq<Entry>)
    ensures forall i :: 0 <= i < |es| ==> Cascade(es)[i].body == es[i].body
    ensures forall i :: 0 <= i < |es| ==> es[i].wide ==> Cascade(es)[i].wide
    decreases |es|
  {
    if |es| >= 2 && es[1].prev != es[0].Size() && !es[1].wide && es[0].Size() >= ZIP_BIGLEN {
      var mid := [Widen(es[1], es[0].Size())] + es[2..];
      CascadeKeeps(mid);
      assert Cascade(es) == [es[0]] + Cascade(mid);
      assert forall i :: 1 <= i < |es| ==> Cascade(es)[i] == Cascade(mid)[i - 1];
      assert forall i :: 2 <= i < |es| ==> es[i] == mid[i - 1];
    }
  }

  /** The list grows by four bytes for each back link that widened. */
  lemma {:induction false} CascadeGrowth(es: seq<Entry>)
    ensures TotalSize(Cascade(es)) == TotalSize(es) + 4 * Widened(es, Cascade(es))
    decreases |es|
  {
    if |es| < 2 || es[1].prev == es[0].Size() {
      WidenedNone(es);
    } else {
      var raw := es[0].Size();
      var next' := if !es[1].wide && raw >= ZIP_BIGLEN then Widen(es[1], raw) else es[1].(prev := raw);
      var mid := [next'] + es[2..];
      assert es[1..][1..] == es[2..] == mid[1..];
      if !es[1].wide && raw >= ZIP_BIGLEN {
        CascadeGrowth(mid);
        assert Cascade(es)[1..] == Cascade(mid);
        assert Widened(es[1..], Cascade(mid)) == 1 + Widened(mid, Cascade(mid));
      } else {
        assert Cascade(es)[1..] == mid;
        WidenedNone(es[2..]);
      }
    }
  }

  lemma {:induction false} CascadeValid(es: seq<Entry>)
    requires AllValid(es) && TotalSize(Cascade(es)) < U32
    ensures AllValid(Cascade(es))
    decreases |es|
  {
    if |es| >= 2 && es[1].prev != es[0].Size() {
      SizeInTotal(Cascade(es), 0);
      if !es[1].wide && es[0].Size() >= ZIP_BIGLEN {
        var mid := [Widen(es[1], es[0].Size())] + es[2..];
        assert Cascade(es)[1..] == Cascade(mid);
        CascadeValid(mid);
      }
    }
  }

  /** Everything behind the second entry is linked: only the seam may be off. */
  predicate SeamOnly(es: seq<Entry>) {
    |es| >= 2 ==> Linked(es[1].Size(), es[2..])
  }

  /** The cascade repairs every back link, whatever the seam held. */
  lemma {:induction false} CascadeRepairs(es: seq<Entry>)
    requires es != [] && AllValid(es) && SeamOnly(es)
    requires TotalSize(Cascade(es)) < U32
    ensures Linked(es[0].Size(), Cascade(es)[1..]) && AllValid(Cascade(es))
    decreases |es|
  {
    CascadeValid(es);
    if |es| >= 2 {
      var raw := es[0].Size();
      SizeInTotal(Cascade(es), 0);
      assert es[1..][1..] == es[2..];
      if es[1].prev == raw {
      } else if !es[1].wide && raw >= ZIP_BIGLEN {
        var mid := [Widen(es[1], raw)] + es[2..];
        assert Cascade(es)[1..] == Cascade(mid);
        assert mid[1..] == es[2..];
        if |mid| >= 2 {
          assert es[2..][1..] == mid[2..];
        }
        CascadeRepairs(mid);
      } else {
        assert Cascade(es)[1..][1..] == es[2..];
      }
    }
  }

  // ----------------------------------------------------------------------- edits

  /** Gives the first entry a new back link of the width it needs; when that
      changes the entry's size, the change cascades. */
  function Reseat(es: seq<Entry>, raw: nat): (r: seq<Entry>)
    ensures |r| == |es|
  {
    if es == [] then [] else
      var first := es[0].(wide := raw >= ZIP_BIGLEN, prev := raw);
      var es' := [first] + es[1..];
      if first.wide != es[0].wide then Cascade(es') else es'
  }

  lemma ReseatLinks(es: seq<Entry>, before: nat, raw: nat)
    requires AllValid(es) && Linked(before, es) && raw < U32 && TotalSize(Reseat(es, raw)) < U32
    ensures Linked(raw, Reseat(es, raw)) && AllValid(Reseat(es, raw))
    ensures forall i :: 0 <= i < |es| ==> Reseat(es, raw)[i].body == es[i].body
  {
    if es != [] {
      var first := es[0].(wide := raw >= ZIP_BIGLEN, prev := raw);
      var es' := [first] + es[1..];
      assert es'[1..] == es[1..];
      if first.wide != es[0].wide {
        if |es'| >= 2 {
          assert es[1..][1..] == es'[2..];
        }
        CascadeKeeps(es');
        CascadeRepairs(es');
      }
    }
  }

  /** A ziplist: its entries and the 16-bit entry count of its header. */
  datatype Zip = Zip(es: seq<Entry>, count: nat)

  /** The count field is exact until it has once reached 65535. */
  predicate CountOk(count: nat, n: nat) {
    count < U16 && (count == U16 - 1 || count == n)
  }

  predicate WellFormed(z: Zip) {
    AllValid(z.es) && Linked(0, z.es) && CountOk(z.count, |z.es|) && 11 + TotalSize(z.es) < U32
  }

  /** The strings a list of entries stands for. */
  function Elements(es: seq<Entry>): (r: seq<bytes>)
    requires AllValid(es)
    ensures |r| == |es|
  {
    seq(|es|, i requires 0 <= i < |es| => Element(es[i].body))
  }

  function Incr(count: nat, delta: int): nat {
    if count < U16 - 1 then (count + delta) % U16 else count
  }

  function NewEntry(before: nat, s: bytes): Entry
    requires |s| < U32
  {
    Entry(before >= ZIP_BIGLEN, before, EncodeBody(s))
  }

  function Insert(z: Zip, i: nat, s: bytes): Zip
    requires i <= |z.es| && |s| < U32
  {
    var added := NewEntry(LastSize(0, z.es[..i]), s);
    Zip((z.es[..i] + [added]) + Reseat(z.es[i..], added.Size()), Incr(z.count, 1))
  }

  /** Removes n entries from position i on. */
  function Delete(z: Zip, i: nat, n: nat): Zip
    requires i + n <= |z.es|
  {
    if n == 0 then z
    else Zip(z.es[..i] + Reseat(z.es[i + n..], z.es[i].prev), Incr(z.count, 0 - n))
  }

  /** The two lists end to end, with the seam repaired from the last entry of
      the first list on. */
  function Merge(a: Zip, b: Zip): Zip {
    var sum := a.count + b.count;
    Zip(if a.es == [] then b.es else a.es[..|a.es| - 1] + Cascade([a.es[|a.es| - 1]] + b.es),
        if sum < U16 - 1 then sum else U16 - 1)
  }

  lemma SplitValid(z: Zip, i: nat)
    requires WellFormed(z) && i <= |z.es|
    ensures AllValid(z.es[..i]) && AllValid(z.es[i..])
    ensures Linked(0, z.es[..i]) && Linked(LastSize(0, z.es[..i]), z.es[i..])
    ensures TotalSize(z.es) == TotalSize(z.es[..i]) + TotalSize(z.es[i..])
    ensures LastSize(0, z.es[..i]) < U32
  {
    assert z.es == z.es[..i] + z.es[i..];
    LinkedSplit(0, z.es[..i], z.es[i..]);
    TotalSplit(z.es[..i], z.es[i..]);
    if i > 0 { SizeInTotal(z.es[..i], i - 1); }
  }

  lemma ElementsJoin(a: seq<Entry>, b: seq<Entry>)
    requires AllValid(a) && AllValid(b)
    ensures AllValid(a + b) && Elements(a + b) == Elements(a) + Elements(b)
  {}

  lemma SameElements(a: seq<Entry>, b: seq<Entry>)
    requires AllValid(a) && AllValid(b) && |a| == |b|
    requires forall i :: 0 <= i < |a| ==> a[i].body == b[i].body
    ensures Elements(a) == Elements(b)
  {}

  /** A linked front and a reseated tail make one linked list with the elements
      of both. */
  lemma Rejoin(front: seq<Entry>, tail: seq<Entry>, before: nat, raw: nat)
    requires AllValid(front) && Linked(0, front) && LastSize(0, front) == raw
    requires AllValid(tail) && Linked(before, tail)
    requires TotalSize(front + Reseat(tail, raw)) < U32
    ensures Linked(0, front + Reseat(tail, raw)) && AllValid(front + Reseat(tail, raw))
    ensures Elements(front + Reseat(tail, raw)) == Elements(front) + Elements(tail)
  {
    hide Element, Cascade, Reseat;
    TotalSplit(front, Reseat(tail, raw));
    if front != [] { SizeInTotal(front, |front| - 1); }
    ReseatLinks(tail, before, raw);
    LinkedSplit(0, front, Reseat(tail, raw));
    SameElements(Reseat(tail, raw), tail);
    ElementsJoin(front, Reseat(tail, raw));
  }

  lemma FrontWith(z: Zip, i: nat, s: bytes)
    requires WellFormed(z) && i <= |z.es| && |s| < U32
    ensures var before := LastSize(0, z.es[..i]);
            var front := z.es[..i] + [NewEntry(before, s)];
            && AllValid(front) && Linked(0, front) && LastSize(0, front) == NewEntry(before, s).Size()
            && Elements(front) == Elements(z.es)[..i] + [s]
  {
    hide Element, EncodeBody;
    SplitValid(z, i);
    var added := NewEntry(LastSize(0, z.es[..i]), s);
    ElementRoundTrip(s);
    LinkedSplit(0, z.es[..i], [added]);
    ElementsJoin(z.es[..i], [added]);
    assert Elements(z.es[..i]) == Elements(z.es)[..i];
    assert Elements([added]) == [s];
  }

  /** Inserting keeps the list well formed and puts s at position i. */
  lemma InsertRefines(z: Zip, i: nat, s: bytes)
    requires WellFormed(z) && i <= |z.es| && |s| < U32
    requires 11 + TotalSize(Insert(z, i, s).es) < U32
    ensures WellFormed(Insert(z, i, s))
    ensures Elements(Insert(z, i, s).es) == Elements(z.es)[..i] + [s] + Elements(z.es)[i..]
  {
    hide Element, EncodeBody, Reseat, Linked, TotalSize;
    FrontWith(z, i, s);
    SplitValid(z, i);
    var before := LastSize(0, z.es[..i]);
    var added := NewEntry(before, s);
    Rejoin(z.es[..i] + [added], z.es[i..], before, added.Size());
    assert Elements(z.es[i..]) == Elements(z.es)[i..];
  }

  /** A back link that an edit has set takes one byte below 254 and five from there on. */
  predicate Narrowest(e: Entry) { e.wide <==> e.prev >= 254 }

  /** A cascade leaves its first entry as it is. */
  lemma ReseatNarrowest(es: seq<Entry>, raw: nat)
    requires es != []
    ensures Reseat(es, raw)[0].prev == raw && Narrowest(Reseat(es, raw)[0])
  {}

  /** The links an insertion and a deletion set. */
  lemma EditsNarrowest(z: Zip, i: nat, s: bytes, n: nat)
    requires WellFormed(z) && i <= |z.es| && |s| < U32
    ensures var r := Insert(z, i, s).es;
            && |r| == |z.es| + 1 && r[i].body == EncodeBody(s) && Narrowest(r[i])
            && (i < |z.es| ==> Narrowest(r[i + 1])) && r[..i] == z.es[..i]
    ensures 0 < n && i + n < |z.es| ==> var r := Delete(z, i, n).es; |r| == |z.es| - n && Narrowest(r[i]) && r[..i] == z.es[..i]
  {
    hide Element, EncodeBody, Reseat, Linked, TotalSize;
    var added := NewEntry(LastSize(0, z.es[..i]), s);
    if i < |z.es| { ReseatNarrowest(z.es[i..], added.Size()); }
    if 0 < n && i + n < |z.es| { ReseatNarrowest(z.es[i + n..], z.es[i].prev); }
  }

  lemma BackLink(z: Zip, i: nat)
    requires WellFormed(z) && i < |z.es|
    ensures z.es[i].prev == LastSize(0, z.es[..i])
  {
    SplitValid(z, i);
    assert z.es[i..][0] == z.es[i];
  }

  lemma CountAfter(count: nat, size: nat, n: nat)
    requires CountOk(count, size) && n <= size
    ensures CountOk(Incr(count, 0 - n), size - n)
  {}

  /** Deleting keeps the list well formed and cuts out the slice. */
  lemma DeleteRefines(z: Zip, i: nat, n: nat)
    requires WellFormed(z) && i + n <= |z.es|
    requires 11 + TotalSize(Delete(z, i, n).es) < U32
    ensures WellFormed(Delete(z, i, n))
    ensures Elements(Delete(z, i, n).es) == Elements(z.es)[..i] + Elements(z.es)[i + n..]
  {
    hide Element, Reseat, TotalSize, Linked, Incr;
    if n == 0 {
      assert Elements(z.es) == Elements(z.es)[..i] + Elements(z.es)[i..];
    } else {
      SplitValid(z, i);
      SplitValid(z, i + n);
      BackLink(z, i);
      CountAfter(z.count, |z.es|, n);
      Rejoin(z.es[..i], z.es[i + n..], LastSize(0, z.es[..i + n]), z.es[i].prev);
      assert Elements(z.es[..i]) == Elements(z.es)[..i];
      assert Elements(z.es[i + n..]) == Elements(z.es)[i + n..];
    }
  }

  /** The repaired seam. */
  lemma {:induction false} SeamLinked(a: Zip, b: Zip, front: seq<Entry>, last: Entry)
    requires WellFormed(a) && WellFormed(b) && a.es == front + [last]
    requires TotalSize(Cascade([last] + b.es)) < U32
    ensures var seam := [last] + b.es;
            && AllValid(front) && AllValid(seam) && AllValid(Cascade(seam)) && Linked(0, front)
            && Linked(LastSize(0, front), Cascade(seam))
            && forall i :: 0 <= i < |seam| ==> Cascade(seam)[i].body == seam[i].body
  {
    hide WellSized, TotalSize, Cascade;
    var (seam, k) := ([last] + b.es, |front|);
    SplitValid(a, k);
    assert a.es[..k] == front && a.es[k..] == [last];
    CascadeKeeps(seam);
    assert b.es != [] ==> seam[2..] == b.es[1..];
    CascadeRepairs(seam);
  }

  /** Merging keeps the list well formed and concatenates. */
  lemma MergeRefines(a: Zip, b: Zip)
    requires WellFormed(a) && WellFormed(b)
    requires 11 + TotalSize(Merge(a, b).es) < U32
    ensures WellFormed(Merge(a, b))
    ensures Elements(Merge(a, b).es) == Elements(a.es) + Elements(b.es)
  {
    hide Element, Cascade, Linked, TotalSize, WellSized;
    if a.es == [] {
      NoElements(a.es, b.es);
    } else {
      var k := |a.es| - 1;
      var (front, last) := (a.es[..k], a.es[k]);
      assert a.es == front + [last];
      var seam := [last] + b.es;
      TotalSplit(front, Cascade(seam));
      SeamLinked(a, b, front, last);
      LinkedSplit(0, front, Cascade(seam));
      SameElements(Cascade(seam), seam);
      ElementsJoin([last], b.es);
      ElementsJoin(front, Cascade(seam));
      ElementsJoin(front, [last]);
      JoinedOnce(Elements(front), Elements([last]), Elements(b.es));
    }
  }

  lemma NoElements(a: seq<Entry>, b: seq<Entry>)
    requires AllValid(a) && AllValid(b) && a == []
    ensures Elements(a) + Elements(b) == Elements(b)
  {}

  lemma JoinedOnce(a: seq<bytes>, b: seq<bytes>, c: seq<bytes>)
    ensures a + (b + c) == (a + b) + c
  {}
}
