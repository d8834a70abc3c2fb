/** util/sorted_set.h: keys with scores, kept in (score, key) order. */
module SortedSets {
  import opened Bytes

  datatype Item = Item(score: int, key: bytes)

  predicate Before(a: Item, b: Item) { a.score < b.score || (a.score == b.score && Less(a.key, b.key)) }

  ghost predicate Sorted(s: seq<Item>) {
    forall i, j :: 0 <= i < j < |s| ==> Before(s[i], s[j])
  }

  /** s lists exactly the entries of m, in order. */
  ghost predicate Lists(s: seq<Item>, m: map<bytes, int>) {
    && Sorted(s)
    && (forall i {:trigger s[i]} :: 0 <= i < |s| ==> s[i].key in m && m[s[i].key] == s[i].score)
    && (forall k :: k in m ==> Item(m[k], k) in s)
  }

  lemma BeforeTotal(a: Item, b: Item)
    ensures a == b || Before(a, b) || Before(b, a)
    ensures !(Before(a, b) && Before(b, a)) && !Before(a, a)
  {
    hide Less;
    LessTotal(a.key, b.key);
    LessIrreflexive(a.key);
    if Less(a.key, b.key) { LessAsymmetric(a.key, b.key); }
  }

  lemma BeforeTransitive(a: Item, b: Item, c: Item)
    requires Before(a, b) && Before(b, c)
    ensures Before(a, c)
  {
    hide Less;
    if a.score == b.score == c.score { LessTransitive(a.key, b.key, c.key); }
  }

  lemma {:induction false} ListsSize(s: seq<Item>, m: map<bytes, int>)
    requires Lists(s, m)
    ensures |s| == |m|
  {
    hide Before;
    if s == [] {
      assert m == map[];
    } else {
      var n := |s| - 1;
      var x := s[n];
      var r := m - {x.key};
      RemoveAt(s, m, n);
      assert Without(s, n) == s[..n];
      ListsSize(s[..n], r);
      assert m.Keys == r.Keys + {x.key};
    }
  }

  /** s without item i. */
  function Without(s: seq<Item>, i: nat): (r: seq<Item>)
    requires i < |s|
    ensures |r| == |s| - 1 && forall j {:trigger r[j]} :: 0 <= j < |r| ==> r[j] == if j < i then s[j] else s[j + 1]
  {
    s[..i] + s[i + 1..]
  }

  /** s with x at position i. */
  function With(s: seq<Item>, i: nat, x: Item): (r: seq<Item>)
    requires i <= |s|
    ensures |r| == |s| + 1 && forall j {:trigger r[j]} :: 0 <= j < |r| ==> r[j] == if j < i then s[j] else if j == i then x else s[j - 1]
  {
    s[..i] + ([x] + s[i..])
  }

  /** Dropping one item drops its key. */
  lemma RemoveAt(s: seq<Item>, m: map<bytes, int>, i: nat)
    requires Lists(s, m) && i < |s|
    ensures Lists(Without(s, i), m - {s[i].key})
  {
    hide Less, Without;
    var r := Without(s, i);
    forall j | 0 <= j < |r| ensures r[j].key in m - {s[i].key} && m[r[j].key] == r[j].score {
      var k := if j < i then j else j + 1;
      if s[k].key == s[i].key { BeforeTotal(s[k], s[k]); }
    }
    forall k | k in m && k != s[i].key ensures Item(m[k], k) in r {
      var j :| 0 <= j < |s| && s[j] == Item(m[k], k);
      assert r[if j < i then j else j - 1] == s[j];
    }
  }

  /** Where x goes among the sorted items. */
  ghost predicate Belongs(s: seq<Item>, i: nat, x: Item) {
    && i <= |s|
    && (forall j :: 0 <= j < i ==> Before(s[j], x))
    && (forall j :: i <= j < |s| ==> Before(x, s[j]))
  }

  lemma InsertSorted(s: seq<Item>, i: nat, x: Item)
    requires Sorted(s) && Belongs(s, i, x)
    ensures Sorted(With(s, i, x))
  {
    hide Less, Before, With;
  }

  lemma InsertAt(s: seq<Item>, m: map<bytes, int>, i: nat, x: Item)
    requires Lists(s, m) && x.key !in m && Belongs(s, i, x)
    ensures Lists(With(s, i, x), m[x.key := x.score])
  {
    hide Less, Before, With, Sorted;
    InsertSorted(s, i, x);
    var r := With(s, i, x);
    forall k | k in m ensures Item(m[k], k) in r {
      var j :| 0 <= j < |s| && s[j] == Item(m[k], k);
      assert r[if j < i then j else j + 1] == s[j];
    }
    assert r[i] == x;
  }

  class SortedSet {
    var existed: map<bytes, int>
    var sorted: seq<Item>

    ghost predicate Valid()
      reads this
    {
      Lists(sorted, existed)
    }

    constructor ()
      ensures Valid() && existed == map[]
    {
      existed, sorted := map[], [];
    }

    method Insert(x: Item)
      requires Valid() && x.key !in existed
      modifies this
      ensures Valid() && existed == old(existed)[x.key := x.score]
    {
      hide Less;
      var i := 0;
      while i < |sorted| && Before(sorted[i], x)
        invariant 0 <= i <= |sorted| && forall j :: 0 <= j < i ==> Before(sorted[j], x)
      {
        i := i + 1;
      }
      assert Belongs(sorted, i, x) by { BelongsHere(sorted, existed, i, x); }
      InsertAt(sorted, existed, i, x);
      sorted := With(sorted, i, x);
      existed := existed[x.key := x.score];
    }

    method Erase(key: bytes)
      requires Valid() && key in existed
      modifies this
      ensures Valid() && existed == old(existed) - {key}
    {
      hide Less;
      assert Item(existed[key], key) in sorted;
      var i :| 0 <= i < |sorted| && sorted[i] == Item(existed[key], key);
      RemoveAt(sorted, existed, i);
      sorted := Without(sorted, i);
      existed := existed - {key};
    }

    method Add(key: bytes, score: int) returns (ret: int)
      requires Valid()
      modifies this
      ensures Valid() && existed == old(existed)[key := score]
      ensures ret == if key in old(existed) then 0 else 1
    {
      ret := 1;
      if key in existed {
        ret := 0;
        if existed[key] == score { return; }
        Erase(key);
      }
      Insert(Item(score, key));
    }

    method Del(key: bytes) returns (ret: int)
      requires Valid()
      modifies this
      ensures Valid() && existed == old(existed) - {key}
      ensures ret == if key in old(existed) then 1 else 0
    {
      if key !in existed { return 0; }
      Erase(key);
      return 1;
    }

    method Size() returns (n: nat)
      requires Valid()
      ensures n == |existed|
    {
      ListsSize(sorted, existed);
      n := |sorted|;
    }

    /** The earliest item. */
    method Front() returns (ok: bool, key: bytes, score: int)
      requires Valid()
      ensures ok == (existed != map[])
      ensures ok ==> key in existed && existed[key] == score && forall k :: k in existed ==> score <= existed[k]
      ensures ok ==> forall k :: k in existed && k != key ==> Before(Item(score, key), Item(existed[k], k))
    {
      if |sorted| == 0 { return false, [], 0; }
      EndsBound(sorted, existed);
      FrontIsLeast(sorted, existed);
      return true, sorted[0].key, sorted[0].score;
    }

    /** The greatest item. */
    method Back() returns (ok: bool, key: bytes, score: int)
      requires Valid()
      ensures ok == (existed != map[])
      ensures ok ==> key in existed && existed[key] == score && forall k :: k in existed && k != key ==>
                Before(Item(existed[k], k), Item(score, key))
    {
      if |sorted| == 0 { return false, [], 0; }
      BackIsGreatest(sorted, existed);
      return true, sorted[|sorted| - 1].key, sorted[|sorted| - 1].score;
    }

    /** The greatest score, or 0 when empty. */
    method MaxScore() returns (score: int)
      requires Valid()
      ensures IsMax(existed, score)
    {
      score := 0;
      var ok, key, back := Back();
      if ok {
        score := back;
        assert forall k :: k in existed && k != key ==> Before(Item(existed[k], k), Item(score, key));
      }
    }

    method PopFront() returns (ret: int, ghost gone: bytes)
      requires Valid()
      modifies this
      ensures Valid() && existed == old(existed) - {gone} && ret == if old(existed) == map[] then 0 else 1
      ensures ret == 1 ==> gone in old(existed) && forall k :: k in old(existed) && k != gone ==>
                Before(Item(old(existed)[gone], gone), Item(old(existed)[k], k))
    {
      hide Less;
      gone := [];
      if |sorted| == 0 { return 0, gone; }
      gone := sorted[0].key;
      FrontIsLeast(sorted, existed);
      RemoveAt(sorted, existed, 0);
      assert Without(sorted, 0) == sorted[1..];
      existed := existed - {sorted[0].key};
      sorted := sorted[1..];
      return 1, gone;
    }

    method PopBack() returns (ret: int, ghost gone: bytes)
      requires Valid()
      modifies this
      ensures Valid() && existed == old(existed) - {gone} && ret == if old(existed) == map[] then 0 else 1
      ensures ret == 1 ==> gone in old(existed) && forall k :: k in old(existed) && k != gone ==>
                Before(Item(old(existed)[k], k), Item(old(existed)[gone], gone))
    {
      hide Less;
      gone := [];
      if |sorted| == 0 { return 0, gone; }
      var n := |sorted| - 1;
      gone := sorted[n].key;
      BackIsGreatest(sorted, existed);
      RemoveAt(sorted, existed, n);
      assert Without(sorted, n) == sorted[..n];
      existed := existed - {sorted[n].key};
      sorted := sorted[..n];
      return 1, gone;
    }
  }

  ghost predicate IsMax(m: map<bytes, int>, score: int) {
    if m == map[] then score == 0
    else (exists k :: k in m && m[k] == score) && forall k :: k in m ==> m[k] <= score
  }

  lemma BelongsHere(s: seq<Item>, m: map<bytes, int>, i: nat, x: Item)
    requires Lists(s, m) && x.key !in m && i <= |s|
    requires (forall j :: 0 <= j < i ==> Before(s[j], x)) && (i < |s| ==> !Before(s[i], x))
    ensures Belongs(s, i, x)
  {
    hide Less;
    if i < |s| {
      BeforeTotal(s[i], x);
      forall j | i < j < |s| ensures Before(x, s[j]) { BeforeTransitive(x, s[i], s[j]); }
    }
  }

  lemma FrontIsLeast(s: seq<Item>, m: map<bytes, int>)
    requires Lists(s, m) && s != []
    ensures forall k :: k in m && k != s[0].key ==> Before(s[0], Item(m[k], k))
  {
    hide Less;
    forall k | k in m && k != s[0].key ensures Before(s[0], Item(m[k], k)) {
      var j :| 0 <= j < |s| && s[j] == Item(m[k], k);
    }
  }

  lemma BackIsGreatest(s: seq<Item>, m: map<bytes, int>)
    requires Lists(s, m) && s != []
    ensures forall k :: k in m && k != s[|s| - 1].key ==> Before(Item(m[k], k), s[|s| - 1])
  {
    hide Less;
    forall k | k in m && k != s[|s| - 1].key ensures Before(Item(m[k], k), s[|s| - 1]) {
      var j :| 0 <= j < |s| && s[j] == Item(m[k], k);
    }
  }

  lemma EndsBound(s: seq<Item>, m: map<bytes, int>)
    requires Lists(s, m) && s != []
    ensures forall k :: k in m ==> s[0].score <= m[k] <= s[|s| - 1].score
  {
    hide Less;
    forall k | k in m ensures s[0].score <= m[k] <= s[|s| - 1].score {
      var j :| 0 <= j < |s| && s[j] == Item(m[k], k);
      assert j == 0 || Before(s[0], s[j]);
      assert j == |s| - 1 || Before(s[j], s[|s| - 1]);
    }
  }
}
