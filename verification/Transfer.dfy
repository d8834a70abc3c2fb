/** Whole keys through DUMP and RESTORE: what is rebuilt in the store equals what
    was dumped from it, and its stored length is right. */
module Transfer {
  import opened Bytes
  import opened Collections
  import opened ZSets
  import opened ListWindow
  import opened RdbFormat
  import DumpRestore

  type Sum = bytes -> nat

  // Elements as the encoder sees them, and back.

  function Ones(s: seq<bytes>): (r: seq<DumpRestore.Elem>)
    ensures |r| == |s| && forall i {:trigger r[i]} :: 0 <= i < |s| ==> r[i] == DumpRestore.One(s[i])
  {
    seq(|s|, i requires 0 <= i < |s| => DumpRestore.One(s[i]))
  }

  function FieldPairs(s: seq<(bytes, bytes)>): (r: seq<DumpRestore.Elem>)
    ensures |r| == |s| && forall i {:trigger r[i]} :: 0 <= i < |s| ==> r[i] == DumpRestore.Pair(s[i].0, s[i].1)
  {
    seq(|s|, i requires 0 <= i < |s| => DumpRestore.Pair(s[i].0, s[i].1))
  }

  function ScorePairs(s: Pairs): (r: seq<DumpRestore.Elem>)
    ensures |r| == |s| && forall i {:trigger r[i]} :: 0 <= i < |s| ==> r[i] == DumpRestore.Scored(s[i].0, s[i].1)
  {
    seq(|s|, i requires 0 <= i < |s| => DumpRestore.Scored(s[i].0, s[i].1))
  }

  ghost predicate Short(s: seq<bytes>) { forall i {:trigger s[i]} :: 0 <= i < |s| ==> |s[i]| < RDB_LENERR }

  /** A list, read from left to right and pushed back in that order. */
  method TransferList(l: StoredList, compression: bool, crc: Sum) returns (back: StoredList)
    requires l.Valid() && l.live && forall i {:trigger l.contents[i]} :: 0 <= i < |l.contents| ==> |l.contents[i]| < U32
    ensures fresh(back) && back.Valid() && back.contents == l.contents
  {
    hide Window;
    var ret, items := l.RangeOf(0, -1);
    var o := DumpRestore.Coll(DumpRestore.List, Ones(items));
    var got := DumpRestore.DumpThenRestore(o, l.lv.length, compression, crc);
    var elems := got.value.elems;
    var vals := seq(|elems|, i requires 0 <= i < |elems| => elems[i].s);
    assert vals == items;
    back := new StoredList();
    ret := back.Push(Tail, vals, 0);
    assert [] + vals[0..] == vals;
  }

  lemma OrderMakes(order: seq<(bytes, bytes)>, items: map<bytes, bytes>)
    requires Collections.DistinctKeys(order)
    requires forall i :: 0 <= i < |order| ==> order[i].0 in items && items[order[i].0] == order[i].1
    requires forall k :: k in items ==> exists i :: 0 <= i < |order| && order[i].0 == k
    ensures Collections.Updated(map[], order) == items
  {
    hide Collections.Updated;
    var r := Collections.Updated(map[], order);
    forall k ensures (k in r <==> k in items) && (k in r ==> r[k] == items[k]) {
      if i: nat :| i < |order| && order[i].0 == k {
        UpdatedLast(map[], order, i);
      } else {
        UpdatedOther(map[], order, k);
      }
    }
  }

  /** A hash; order is what its iterator delivers. */
  method TransferHash(c: Collection, order: seq<(bytes, bytes)>, compression: bool, crc: Sum) returns (back: Collection)
    requires c.Valid() && c.live && |order| < RDB_LENERR
    requires Collections.DistinctKeys(order)
    requires forall i :: 0 <= i < |order| ==> order[i].0 in c.items && c.items[order[i].0] == order[i].1
    requires forall k :: k in c.items ==> exists i :: 0 <= i < |order| && order[i].0 == k
    requires forall i {:trigger order[i]} :: 0 <= i < |order| ==> |order[i].0| < RDB_LENERR && |order[i].1| < RDB_LENERR
    ensures fresh(back) && back.Valid() && back.items == c.items
  {
    hide Collections.Updated;
    UpdatedSize(order);
    OrderMakes(order, c.items);
    var o := DumpRestore.Coll(DumpRestore.Hash, FieldPairs(order));
    var got := DumpRestore.DumpThenRestore(o, c.length, compression, crc);
    var elems := got.value.elems;
    var kvs := seq(|elems|, i requires 0 <= i < |elems| => (elems[i].field, elems[i].val));
    assert kvs == order;
    back := new Collection();
    var ret := back.QuickHash(kvs);
  }

  /** A set; order is what its iterator delivers. */
  method TransferSet(c: Collection, order: seq<bytes>, compression: bool, crc: Sum) returns (back: Collection)
    requires c.Valid() && c.live && |order| < RDB_LENERR
    requires Distinct(order) && Listed(order) == c.items.Keys && Short(order)
    ensures fresh(back) && back.Valid() && back.items.Keys == c.items.Keys
  {
    hide Listed, Distinct;
    DistinctCounts(order);
    assert |c.items| == |c.items.Keys|;
    var o := DumpRestore.Coll(DumpRestore.Set, Ones(order));
    var got := DumpRestore.DumpThenRestore(o, c.length, compression, crc);
    var elems := got.value.elems;
    var members := seq(|elems|, i requires 0 <= i < |elems| => elems[i].s);
    assert members == order;
    back := new Collection();
    var ret := back.QuickSet(members);
  }

  /** A zset; every score keeps its bits. */
  method TransferZSet(z: ZSets.ZSet, order: Pairs, compression: bool, crc: Sum) returns (back: ZSets.ZSet)
    requires z.Valid() && z.live && |order| < RDB_LENERR
    requires ZSets.DistinctKeys(order) && Tabulates(order, z.records.scores) && Numbers(order)
    requires forall i {:trigger order[i]} :: 0 <= i < |order| ==> |order[i].0| < RDB_LENERR
    ensures fresh(back) && back.Valid() && back.records.scores == z.records.scores
  {
    hide Tabulates, Bijection;
    ghost var m := Tabulated(order);
    TabulatesOne(order, m, z.records.scores);
    var o := DumpRestore.Coll(DumpRestore.ZSet, ScorePairs(order));
    var got := DumpRestore.DumpThenRestore(o, z.length, compression, crc);
    var elems := got.value.elems;
    var kvs := seq(|elems|, i requires 0 <= i < |elems| => (elems[i].member, elems[i].bits));
    assert kvs == order;
    back := new ZSets.ZSet();
    var ret := back.QuickZSet(kvs);
    TabulatesOne(order, back.records.scores, z.records.scores);
  }
}
