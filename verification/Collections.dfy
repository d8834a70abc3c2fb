/** t_hash, t_set and t_zset: collections whose meta record stores a length beside
    the item records it counts. */
module Collections {
  import opened Bytes
  import opened Errors
  import opened Maps

  /** incr_hsize, incr_ssize and incr_zsize: the new length. One that reaches zero
      deletes the key. */
  method IncrSize(length: nat, incr: int) returns (ret: int, len: nat)
    ensures if length + incr < 0 then ret == INVALID_INCR_LEN && len == length
            else len == length + incr && ret == if len > 0 then 1 else 0
  {
    ret, len := 1, length;
    if length == 0 {
      if incr > 0 {
        len := incr;
      } else if incr == 0 {
        return 0, len;
      } else {
        return INVALID_INCR_LEN, len;
      }
    } else {
      if incr > 0 {
        len := len + incr;
      } else if incr < 0 {
        var u64 := -incr;
        if len < u64 { return INVALID_INCR_LEN, len; }
        len := len - u64;
      } else {
        return ret, len;
      }
      if len == 0 { ret := 0; }
    }
  }

  /** The live incarnation of one hash or set key. A hash keeps a value with each
      field, a set an empty one. */
  class Collection {
    var live: bool
    var length: nat
    var items: map<bytes, bytes>

    /** The stored length counts the items, and no empty collection is live. */
    ghost predicate Valid()
      reads this
    {
      live == (length > 0) && length == |items|
    }

    constructor ()
      ensures Valid() && items == map[]
    {
      live, length, items := false, 0, map[];
    }

    /** Store the new length and commit the batch. What a deleted key still had
        belongs to no live incarnation. */
    method Commit(batch: map<bytes, bytes>, incr: int) returns (ret: int)
      requires Valid()
      modifies this
      ensures if old(length) + incr < 0 then ret == INVALID_INCR_LEN && items == old(items) && Valid()
              else length == old(length) + incr && live == (length > 0) && ret == (if live then 1 else 0)
                   && items == if live then batch else map[]
    {
      var len;
      ret, len := IncrSize(length, incr);
      if ret < 0 { return; }
      length, live := len, len > 0;
      items := if live then batch else map[];
    }

    /** hsetCommon: HSET, and HSETNX with nx. */
    method HSet(key: bytes, val: bytes, nx: bool) returns (ret: int, added: int)
      requires Valid()
      modifies this
      ensures Valid() && ret == 1
      ensures items == if nx && key in old(items) then old(items) else old(items)[key := val]
      ensures added == if key in old(items) then 0 else 1
    {
      if nx && live {
        if key in items { return 1, 0; }
      }
      PutSize(items, key, val);
      var batch;
      added, batch := HSetOne(items, items, !nx, key, val);
      ret := Commit(batch, added);
    }

    /** hmsetNoLock; kvs is a std::map in iteration order. */
    method HMSet(kvs: seq<(bytes, bytes)>) returns (ret: int)
      requires Valid() && DistinctKeys(kvs)
      modifies this
      ensures Valid() && items == Updated(old(items), kvs) && ret == if items == map[] then 0 else 1
      ensures forall i :: 0 <= i < |kvs| ==> kvs[i].0 in items && items[kvs[i].0] == kvs[i].1
      ensures forall k :: (forall i :: 0 <= i < |kvs| ==> kvs[i].0 != k) ==>
                (k in items <==> k in old(items)) && (k in items ==> items[k] == old(items)[k])
    {
      hide Updated;
      var batch, sum := PutAll(items, kvs);
      ret := Commit(batch, sum);
    }

    /** hdel; fields is a std::set in iteration order. */
    method HDel(fields: seq<bytes>) returns (ret: int, deleted: nat)
      requires Valid() && Distinct(fields)
      modifies this
      ensures Valid() && items == old(items) - Listed(fields) && ret == if items == map[] then 0 else 1
      ensures deleted == |old(items)| - |items|
    {
      if !live {
        assert items == map[];
        return 0, 0;
      }
      var batch;
      batch, deleted := DropListed(items, fields);
      ret := Commit(batch, 0 - deleted);
    }

    /** hincrCommon, given what its callback makes of the field: a new value, or an error
        that leaves everything as it was. */
    method HIncr(key: bytes, outcome: int, newVal: bytes) returns (ret: int)
      requires Valid()
      modifies this
      ensures Valid() && ret == if outcome < 0 then outcome else 1
      ensures items == if outcome < 0 then old(items) else old(items)[key := newVal]
    {
      var found := live && key in items;
      if outcome < 0 { return outcome; }
      PutSize(items, key, newVal);
      var added := 1;
      if found { added := 0; }
      var batch := items[key := newVal];
      ret := Commit(batch, added);
    }

    /** quickHash, into a new incarnation: every pair counts, so the length is right
        exactly when no field comes twice. */
    method QuickHash(kvs: seq<(bytes, bytes)>) returns (ret: int)
      requires Valid() && !live
      modifies this
      ensures items == Updated(map[], kvs) && length == |kvs| && live == (length > 0)
      ensures Valid() <==> DistinctKeys(kvs)
      ensures forall i :: 0 <= i < |kvs| && (forall j :: i < j < |kvs| ==> kvs[j].0 != kvs[i].0) ==>
                kvs[i].0 in items && items[kvs[i].0] == kvs[i].1
      ensures forall k :: k in items ==> exists i :: 0 <= i < |kvs| && kvs[i].0 == k
    {
      hide Updated;
      UpdatedMeans(map[], kvs);
      UpdatedNone();
      var batch: map<bytes, bytes> := map[];
      assert kvs[..0] == [];
      for i := 0 to |kvs|
        invariant batch == Updated(map[], kvs[..i])
        invariant Valid() && !live && items == map[] && length == 0
      {
        UpdatedNext(kvs, i);
        batch := batch[kvs[i].0 := kvs[i].1];
      }
      assert kvs[..|kvs|] == kvs;
      UpdatedSize(kvs);
      ret := Commit(batch, |kvs|);
    }

    /** quickSet, likewise. */
    method QuickSet(members: seq<bytes>) returns (ret: int)
      requires Valid() && !live
      modifies this
      ensures items.Keys == Listed(members) && length == |members| && live == (length > 0)
      ensures Valid() <==> Distinct(members)
    {
      var batch: map<bytes, bytes> := map[];
      for i := 0 to |members|
        invariant forall k :: k in batch <==> k in members[..i]
        invariant Valid() && !live && items == map[] && length == 0
      {
        assert members[..i + 1] == members[..i] + [members[i]];
        batch := batch[members[i] := []];
      }
      assert members[..|members|] == members;
      assert batch.Keys == Listed(members);
      assert |batch| == |batch.Keys|;
      DistinctCounts(members);
      ret := Commit(batch, |members|);
    }

    /** saddNoLock; members is a std::set in iteration order. */
    method SAdd(members: seq<bytes>) returns (ret: int, num: nat)
      requires Valid() && Distinct(members)
      modifies this
      ensures Valid() && items.Keys == old(items).Keys + Listed(members) && ret == if items == map[] then 0 else 1
      ensures num == |items| - |old(items)| && forall k :: k in old(items) ==> items[k] == old(items)[k]
      ensures forall k :: k in items && k !in old(items) ==> items[k] == []
    {
      var batch;
      batch, num := AddAll(items, live, members);
      ret := Commit(batch, num);
    }

    /** srem, whose members come as a list: a member named twice is counted twice.
        The command does what it should exactly when no present member is. */
    method SRem(members: seq<bytes>) returns (ret: int, num: nat)
      requires Valid()
      modifies this
      ensures NoRepeat(members, old(items)) <==>
              ret >= 0 && Valid() && items == old(items) - Listed(members)
      ensures NoRepeat(members, old(items)) ==> num == |old(items)| - |items| && ret == if items == map[] then 0 else 1
    {
      if !live {
        assert items == map[];
        return 0, 0;
      }
      var batch;
      batch, num := DropListed(items, members);
      assert |batch| == 0 ==> batch == map[];
      ret := Commit(batch, 0 - num);
    }

    /** spop: a stretch of the scan order, from a random place near its start. */
    method SPop(popcnt: int, order: seq<bytes>, random: nat) returns (ret: int, members: seq<bytes>)
      requires Valid() && Listed(order) == items.Keys && Distinct(order)
      modifies this
      ensures Valid() && Distinct(members) && items == old(items) - Listed(members)
      ensures Listed(members) <= old(items).Keys
      ensures ret >= 0 ==> |members| == if 0 <= popcnt < |old(items)| then popcnt else |old(items)|
      ensures ret >= 0 && 0 <= popcnt < |old(items)| ==>
                var places := if |old(items)| - popcnt + 1 > 100 then 100 else |old(items)| - popcnt + 1;
                random % places + popcnt <= |order| && members == order[random % places..random % places + popcnt]
      ensures ret < 0 ==> items == old(items) && old(live) && (popcnt < 0 || 0x7fff_ffff < popcnt < |old(items)|)
    {
      hide Listed, Distinct;
      PopNothing(items);
      if !live {
        assert items == map[];
        return 0, [];
      }
      if popcnt < 0 { return INDEX_OUT_OF_RANGE, []; }
      DistinctCounts(order);
      var cnt, start := popcnt, 0;
      if popcnt >= length {
        cnt := length;
      } else if popcnt > 0x7fff_ffff {
        return INVALID_INT, [];
      } else {
        var max := length - popcnt + 1;
        if max > 100 { max := 100; }
        start := random % max;
        Remainder(random, max);
      }
      PopSize(items, order, start, cnt);
      var batch;
      batch, members := DropStretch(items, order, start, cnt);
      ret := Commit(batch, -cnt);
    }
  }

  // ---------------------------------------------------------- building the batches
  // Each reads the committed items and adds its writes to a batch; batch is the
  // items as that batch leaves them.

  /** hset_one. */
  method HSetOne(items: map<bytes, bytes>, batch: map<bytes, bytes>, checkExists: bool, key: bytes, val: bytes)
    returns (added: nat, batch': map<bytes, bytes>)
    requires checkExists || key !in items
    requires key in items ==> key in batch && batch[key] == items[key]
    ensures batch' == batch[key := val] && added == if key in items then 0 else 1
  {
    batch' := batch;
    if checkExists {
      if key !in items {
        batch' := batch[key := val];
        return 1, batch';
      } else {
        if items[key] != val { batch' := batch[key := val]; }
        return 0, batch';
      }
    }
    return 1, batch[key := val];
  }

  method PutAll(items: map<bytes, bytes>, kvs: seq<(bytes, bytes)>) returns (batch: map<bytes, bytes>, sum: nat)
    requires DistinctKeys(kvs)
    ensures batch == Updated(items, kvs) && |batch| == |items| + sum
    ensures forall i :: 0 <= i < |kvs| ==> kvs[i].0 in batch && batch[kvs[i].0] == kvs[i].1
    ensures forall k :: (forall i :: 0 <= i < |kvs| ==> kvs[i].0 != k) ==>
              (k in batch <==> k in items) && (k in batch ==> batch[k] == items[k])
  {
    UpdatedMeans(items, kvs);
    sum, batch := 0, items;
    assert kvs[..0] == [];
    for i := 0 to |kvs|
      invariant batch == Updated(items, kvs[..i]) && |batch| == |items| + sum
      invariant forall j :: i <= j < |kvs| ==>
                  (kvs[j].0 in batch <==> kvs[j].0 in items) && (kvs[j].0 in items ==> batch[kvs[j].0] == items[kvs[j].0])
    {
      assert kvs[..i + 1][..i] == kvs[..i];
      var (key, val) := kvs[i];
      PutSize(batch, key, val);
      var added;
      added, batch := HSetOne(items, batch, true, key, val);
      sum := sum + added;
    }
    assert kvs[..|kvs|] == kvs;
  }

  method AddAll(items: map<bytes, bytes>, live: bool, members: seq<bytes>) returns (batch: map<bytes, bytes>, num: nat)
    requires Distinct(members) && (!live ==> items == map[])
    ensures batch.Keys == items.Keys + Listed(members) && |batch| == |items| + num
    ensures forall k :: k in items ==> batch[k] == items[k]
    ensures forall k :: k in batch && k !in items ==> batch[k] == []
  {
    hide Distinct;
    num, batch := 0, items;
    for i := 0 to |members|
      invariant |batch| == |items| + num && forall k :: k in batch <==> k in items || k in members[..i]
      invariant forall k :: k in items ==> batch[k] == items[k]
      invariant forall k :: k in batch && k !in items ==> batch[k] == []
    {
      var member := members[i];
      PutSize(batch, member, []);
      NextMember(members, i);
      var change := 0;
      if !live {
        batch := batch[member := []];
        change := 1;
      } else if member !in items {
        batch := batch[member := []];
        change := 1;
      }
      num := num + change;
    }
    assert members[..|members|] == members;
  }

  lemma NextMember(members: seq<bytes>, i: nat)
    requires Distinct(members) && i < |members|
    ensures members[i] !in members[..i]
    ensures forall k :: k in members[..i + 1] <==> k in members[..i] || k == members[i]
  {
    assert members[..i + 1] == members[..i] + [members[i]];
  }

  /** The loop of srem: repeats are looked up in the committed items again. */
  method DropListed(items: map<bytes, bytes>, members: seq<bytes>) returns (batch: map<bytes, bytes>, num: nat)
    ensures batch == items - Listed(members) && |batch| + num >= |items|
    ensures |batch| + num == |items| <==> NoRepeat(members, items)
  {
    hide NoRepeat, Listed;
    num, batch := 0, items;
    NoRepeatNone(items);
    assert members[..0] == [];
    for i := 0 to |members|
      invariant batch == items - Listed(members[..i])
      invariant |batch| + num >= |items|
      invariant |batch| + num == |items| <==> NoRepeat(members[..i], items)
    {
      var member := members[i];
      DropSize(batch, member);
      RepeatStep(members, i, items);
      if member in items {
        StillThere(members[..i], items, member);
        num := num + 1;
        batch := batch - {member};
      }
    }
    assert members[..|members|] == members;
  }

  /** The loop of spop: skip start members of the scan, then take cnt. */
  method DropStretch(items: map<bytes, bytes>, order: seq<bytes>, start: nat, cnt: nat)
    returns (batch: map<bytes, bytes>, members: seq<bytes>)
    requires start + cnt <= |order|
    ensures members == order[start..start + cnt] && batch == items - Listed(members)
  {
    hide Listed;
    batch, members := items, [];
    NoRepeatNone(items);
    var i := 0;
    while |members| < cnt && i < |order|
      invariant 0 <= i <= |order| && |members| <= cnt && |members| == (if i <= start then 0 else i - start)
      invariant members == (if i <= start then [] else order[start..i]) && batch == items - Listed(members)
      decreases |order| - i
    {
      if i >= start {
        ListedNext(items, members, order[i]);
        batch := batch - {order[i]};
        members := members + [order[i]];
      }
      i := i + 1;
    }
    if cnt == 0 { assert order[start..start] == []; }
  }

  lemma ListedNext(items: map<bytes, bytes>, members: seq<bytes>, m: bytes)
    ensures items - Listed(members + [m]) == (items - Listed(members)) - {m}
  {}

  lemma NoRepeatNone(items: map<bytes, bytes>)
    ensures NoRepeat([], items) && items - Listed([]) == items
  {}

  lemma StillThere(done: seq<bytes>, items: map<bytes, bytes>, member: bytes)
    requires member in items
    ensures member in items - Listed(done) <==> member !in done
  {}

  /** items with the pairs put in one after another. */
  ghost function Updated(items: map<bytes, bytes>, kvs: seq<(bytes, bytes)>): map<bytes, bytes> {
    if kvs == [] then items else
    var n := |kvs| - 1;
    Updated(items, kvs[..n])[kvs[n].0 := kvs[n].1]
  }

  lemma {:induction false} UpdatedOther(items: map<bytes, bytes>, kvs: seq<(bytes, bytes)>, k: bytes)
    requires forall i :: 0 <= i < |kvs| ==> kvs[i].0 != k
    ensures var r := Updated(items, kvs); (k in r <==> k in items) && (k in r ==> r[k] == items[k])
  {
    if kvs != [] { UpdatedOther(items, kvs[..|kvs| - 1], k); }
  }

  lemma {:induction false} UpdatedLast(items: map<bytes, bytes>, kvs: seq<(bytes, bytes)>, i: nat)
    requires i < |kvs| && forall j :: i < j < |kvs| ==> kvs[j].0 != kvs[i].0
    ensures var r := Updated(items, kvs); kvs[i].0 in r && r[kvs[i].0] == kvs[i].1
  {
    if i < |kvs| - 1 { UpdatedLast(items, kvs[..|kvs| - 1], i); }
  }

  /** The last pair of a key gives its value; other keys keep theirs. */
  lemma UpdatedMeans(items: map<bytes, bytes>, kvs: seq<(bytes, bytes)>)
    ensures var r := Updated(items, kvs);
            && (forall i :: 0 <= i < |kvs| && (forall j :: i < j < |kvs| ==> kvs[j].0 != kvs[i].0) ==>
                  kvs[i].0 in r && r[kvs[i].0] == kvs[i].1)
            && (forall k :: (forall i :: 0 <= i < |kvs| ==> kvs[i].0 != k) ==>
                  (k in r <==> k in items) && (k in r ==> r[k] == items[k]))
  {
    hide Updated;
    var r := Updated(items, kvs);
    forall i | 0 <= i < |kvs| && (forall j :: i < j < |kvs| ==> kvs[j].0 != kvs[i].0)
      ensures kvs[i].0 in r && r[kvs[i].0] == kvs[i].1
    {
      UpdatedLast(items, kvs, i);
    }
    forall k | forall i :: 0 <= i < |kvs| ==> kvs[i].0 != k
      ensures (k in r <==> k in items) && (k in r ==> r[k] == items[k])
    {
      UpdatedOther(items, kvs, k);
    }
  }

  ghost predicate DistinctKeys(kvs: seq<(bytes, bytes)>) {
    forall i, j :: 0 <= i < j < |kvs| ==> kvs[i].0 != kvs[j].0
  }

  function Listed(s: seq<bytes>): set<bytes> { set k | k in s }

  ghost predicate Distinct(s: seq<bytes>) { forall i, j :: 0 <= i < j < |s| ==> s[i] != s[j] }

  ghost predicate NoRepeat(members: seq<bytes>, items: map<bytes, bytes>) {
    forall i, j :: 0 <= i < j < |members| && members[i] == members[j] ==> members[i] !in items
  }

  lemma RepeatStep(members: seq<bytes>, n: nat, items: map<bytes, bytes>)
    requires n < |members|
    ensures NoRepeat(members[..n + 1], items) <==>
            NoRepeat(members[..n], items) && (members[n] in items ==> members[n] !in members[..n])
    ensures items - Listed(members[..n + 1]) == (items - Listed(members[..n])) - {members[n]}
    ensures members[n] !in items ==> items - Listed(members[..n + 1]) == items - Listed(members[..n])
  {
    var (a, b) := (members[..n], members[..n + 1]);
    assert b == a + [members[n]];
    if NoRepeat(b, items) {
      forall i, j | 0 <= i < j < |a| && a[i] == a[j] ensures a[i] !in items { assert b[i] == b[j]; }
      if members[n] in a {
        var i :| 0 <= i < n && a[i] == members[n];
        assert b[i] == b[n];
      }
    }
  }

  lemma UpdatedNone()
    ensures Updated(map[], []) == map[]
  {}

  lemma UpdatedNext(kvs: seq<(bytes, bytes)>, i: nat)
    requires i < |kvs|
    ensures Updated(map[], kvs[..i + 1]) == Updated(map[], kvs[..i])[kvs[i].0 := kvs[i].1]
  {
    assert kvs[..i + 1][..i] == kvs[..i];
  }

  lemma {:induction false} UpdatedHas(kvs: seq<(bytes, bytes)>, k: bytes)
    ensures k in Updated(map[], kvs) <==> exists i :: 0 <= i < |kvs| && kvs[i].0 == k
  {
    if kvs != [] {
      var n := |kvs| - 1;
      UpdatedHas(kvs[..n], k);
      if exists i :: 0 <= i < n && kvs[..n][i].0 == k {
        var i :| 0 <= i < n && kvs[..n][i].0 == k;
        assert kvs[i].0 == k;
      }
      if exists i :: 0 <= i < |kvs| && kvs[i].0 == k {
        var i :| 0 <= i < |kvs| && kvs[i].0 == k;
        assert i == n || kvs[..n][i].0 == k;
      }
    }
  }

  /** Pairs make as many entries exactly when no key repeats. */
  lemma {:induction false} UpdatedSize(kvs: seq<(bytes, bytes)>)
    ensures |Updated(map[], kvs)| <= |kvs|
    ensures |Updated(map[], kvs)| == |kvs| <==> DistinctKeys(kvs)
  {
    if kvs != [] {
      var n := |kvs| - 1;
      var init := kvs[..n];
      UpdatedSize(init);
      UpdatedHas(init, kvs[n].0);
      PutSize(Updated(map[], init), kvs[n].0, kvs[n].1);
      if DistinctKeys(kvs) {
        assert forall i :: 0 <= i < n ==> init[i].0 != kvs[n].0;
      } else if DistinctKeys(init) {
        var i, j :| 0 <= i < j < |kvs| && kvs[i].0 == kvs[j].0;
        assert j == n;
        assert init[i].0 == kvs[n].0;
      } else {
        var i, j :| 0 <= i < j < |init| && init[i].0 == init[j].0;
      }
    }
  }

  lemma {:induction false} DistinctCounts(s: seq<bytes>)
    ensures |Listed(s)| <= |s| && (|Listed(s)| == |s| <==> Distinct(s))
  {
    hide Distinct, Listed;
    if s == [] {
      ListedNone();
    } else {
      var n := |s| - 1;
      DistinctCounts(s[..n]);
      ListedMore(s[..n], s[n]);
      assert s == s[..n] + [s[n]];
      DistinctMore(s[..n], s[n]);
    }
  }

  lemma ListedNone()
    ensures Listed([]) == {} && Distinct([])
  {}

  lemma ListedMore(a: seq<bytes>, x: bytes)
    ensures Listed(a + [x]) == Listed(a) + {x} && (x in Listed(a) <==> x in a)
  {}

  lemma DistinctMore(a: seq<bytes>, x: bytes)
    ensures Distinct(a + [x]) <==> Distinct(a) && x !in a
  {
    var s := a + [x];
    if Distinct(s) {
      forall i, j | 0 <= i < j < |a| ensures a[i] != a[j] { assert s[i] == a[i] && s[j] == a[j]; }
      forall i | 0 <= i < |a| ensures a[i] != x { assert s[i] == a[i] && s[|a|] == x; }
    }
    if Distinct(a) && x !in a {
      forall i, j | 0 <= i < j < |s| ensures s[i] != s[j] { assert s[i] == a[i] && a[i] in a; }
    }
  }

  lemma PopNothing(items: map<bytes, bytes>)
    ensures items - Listed([]) == items && Distinct([]) && Listed([]) == {}
  {}

  lemma Remainder(a: nat, n: nat)
    requires n > 0
    ensures 0 <= a % n < n
  {}

  lemma PopSize(items: map<bytes, bytes>, order: seq<bytes>, start: nat, cnt: nat)
    requires Distinct(order) && Listed(order) == items.Keys && start + cnt <= |order|
    ensures var members := order[start..start + cnt];
            Distinct(members) && Listed(members) <= items.Keys && |items - Listed(members)| == |items| - cnt
  {
    var members := order[start..start + cnt];
    DistinctCounts(members);
    forall k | k in members ensures k in order {}
    var rest := items - Listed(members);
    assert rest.Keys == items.Keys - Listed(members);
    assert |rest| == |rest.Keys| && |items| == |items.Keys|;
  }
}
