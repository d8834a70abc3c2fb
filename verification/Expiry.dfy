/** ttl.cpp and t_eset.cpp: the deadline records, the cache and the wake-up time as the
    code updates them, step for step as in ExpirySpec. */
module Expiry {
  import opened Bytes
  import opened SortedSets
  import opened Maps
  import opened KvCodec
  import opened ExpirySpec
  import opened ExpirySafety

  datatype TimeUnit = Second | Millisecond

  /** The two records of a deadline, by key and by time, always come together. */
  ghost predicate Indexed(ekey: Deadlines, escore: set<Item>) {
    && (forall k :: k in ekey ==> Item(ekey[k], k) in escore)
    && (forall x :: x in escore ==> x.key in ekey && ekey[x.key] == x.score)
  }

  lemma {:induction false} Least(s: set<Item>) returns (x: Item)
    requires s != {}
    ensures x in s && forall y :: y in s && y != x ==> Before(x, y)
  {
    hide Before;
    x :| x in s;
    var t := s - {x};
    assert forall y :: y in s ==> y == x || y in t;
    if t != {} {
      var z := Least(t);
      BeforeTotal(x, z);
      if Before(z, x) {
        x := z;
      } else {
        forall y | y in t && y != z ensures Before(x, y) { BeforeTransitive(x, z, y); }
      }
    }
  }

  /** The order in which the thread meets deadlines is the order of their records. */
  lemma StoreOrder(x: Item, y: Item)
    requires 0 <= x.score < U64 && 0 <= y.score < U64
    ensures Less(EncodeEScoreKey(x.key, x.score), EncodeEScoreKey(y.key, y.score)) <==> Before(x, y)
  {
    hide Less, BE;
    DeadlineOrder(x.key, x.score, y.key, y.score);
  }

  /** Behind the latest entry a deadline stays out of the cache, and the key's old entry
      goes. Otherwise it goes in, and the latest entry of more than 1000 goes out. */
  ghost predicate CacheTakes(was: Deadlines, now: Deadlines, key: bytes, ts: int) {
    var full := was[key := ts];
    if forall j :: j in was ==> was[j] < ts then now == was - {key}
    else if |full| <= 1000 then now == full
    else exists k :: k in full && now == full - {k} && forall j :: j in full && j != k ==> Before(Item(full[j], j), Item(full[k], k))
  }

  lemma InsertedTakes(was: Deadlines, key: bytes, ts: int)
    ensures CacheTakes(was, Inserted(was, key, ts), key, ts)
  {
    hide Before;
    if was != map[] {
      var l := Latest(was);
      forall j | j in was ensures was[j] <= was[l] { LatestBounds(was, j); }
    }
    var full := was[key := ts];
    if |full| > BATCH_SIZE { assert IsLatest(full, Latest(full)); }
  }

  class ExpirationHandler {
    const fast: SortedSet
    var firstTimeout: int
    /** The store's part: deadlines by key, deadlines by time, and the live keys. */
    var ekey: Deadlines
    var escore: set<Item>
    var live: set<bytes>
    /** What the thread carries from one critical section to the next. */
    var phase: Phase

    ghost predicate Valid()
      reads this, fast
    {
      fast.Valid() && Indexed(ekey, escore) && ekey.Keys <= live
    }

    ghost function State(): View
      reads this, fast
    {
      View(fast.existed, firstTimeout, ekey, live, phase)
    }

    /** start(): an empty cache and an immediate wake-up. */
    constructor (ekey: Deadlines, escore: set<Item>, live: set<bytes>)
      requires Indexed(ekey, escore) && ekey.Keys <= live && forall k :: k in ekey ==> 0 <= ekey[k]
      ensures Valid() && fresh(fast) && State() == View(map[], 0, ekey, live, Resting) && Inv(State())
    {
      fast := new SortedSet();
      this.ekey, this.escore, this.live := ekey, escore, live;
      firstTimeout, phase := 0, Resting;
    }

    // -------------------------------------------------------------- the index

    method EsetOne(key: bytes, ts: int)
      requires Indexed(ekey, escore)
      modifies this`ekey, this`escore
      ensures Indexed(ekey, escore) && ekey == old(ekey)[key := ts]
    {
      if key in ekey {
        if ekey[key] != ts { escore := escore - {Item(ekey[key], key)}; }
      }
      ekey := ekey[key := ts];
      escore := escore + {Item(ts, key)};
    }

    method EdelOne(key: bytes) returns (ret: int)
      requires Indexed(ekey, escore)
      modifies this`ekey, this`escore
      ensures Indexed(ekey, escore) && ekey == old(ekey) - {key}
      ensures ret == if key in old(ekey) then 1 else 0
    {
      if key !in ekey { return 0; }
      escore := escore - {Item(ekey[key], key)};
      ekey := ekey - {key};
      return 1;
    }

    // -------------------------------------------------------- client commands

    /** _insertFastKey. */
    method InsertFastKey(key: bytes, ts: int)
      requires fast.Valid()
      modifies this`firstTimeout, fast
      ensures fast.Valid() && fast.existed == Inserted(old(fast.existed), key, ts)
      ensures CacheTakes(old(fast.existed), fast.existed, key, ts)
      ensures firstTimeout == if ts < old(firstTimeout) then ts else old(firstTimeout)
    {
      hide Before, Lists, Latest, IsLatest, CacheTakes;
      ghost var was := fast.existed;
      InsertedTakes(was, key, ts);
      if ts < firstTimeout { firstTimeout := ts; }
      var n := fast.Size();
      var max := fast.MaxScore();
      if was != map[] { MaxIsLatest(was, max); }
      if n != 0 && ts <= max {
        var added := fast.Add(key, ts);
        n := fast.Size();
        if n > BATCH_SIZE {
          ghost var full := fast.existed;
          var ret, gone := fast.PopBack();
          IsTheLatest(full, gone);
        }
      } else {
        var ret := fast.Del(key);
      }
    }

    /** cancelExpiration. */
    method CancelExpiration(key: bytes) returns (ret: int)
      requires Valid()
      modifies this`ekey, this`escore, fast
      ensures Valid() && State() == Cancel(old(State()), key) && ret == if key in old(ekey) then 1 else 0
      ensures fast.existed == old(fast.existed) - {key} && ekey == old(ekey) - {key}
    {
      var n := fast.Del(key);
      ret := EdelOne(key);
    }

    /** del_key_internal: deleting a key takes its deadline along. */
    method DeleteKey(key: bytes) returns (ret: int)
      requires Valid()
      modifies this`live, this`ekey, this`escore, fast
      ensures Valid() && State() == Apply(old(State()), Delete(key)) && ret == if key in old(live) then 1 else 0
      ensures live == old(live) - {key} && ekey == old(ekey) - {key}
      ensures fast.existed == if key in old(live) then old(fast.existed) - {key} else old(fast.existed)
    {
      if key !in live { return 0; }
      ret := CancelExpiration(key);
      live := live - {key};
      return 1;
    }

    /** set without a ttl: the key is live and loses any deadline. */
    method SetKey(key: bytes)
      requires Valid()
      modifies this`live, this`ekey, this`escore, fast
      ensures Valid() && State() == Apply(old(State()), Set(key))
      ensures live == old(live) + {key} && ekey == old(ekey) - {key} && fast.existed == old(fast.existed) - {key}
    {
      live := live + {key};
      var ret := CancelExpiration(key);
    }

    /** Any write that makes the key if it is missing, and sets or drops no deadline. */
    method CreateKey(key: bytes)
      requires Valid()
      modifies this`live
      ensures Valid() && State() == Apply(old(State()), Create(key)) && live == old(live) + {key}
    {
      live := live + {key};
    }

    /** expireAt: a time already past deletes the key. */
    method ExpireKeyAt(key: bytes, ts: int, now: int) returns (ret: int)
      requires Valid()
      modifies this, fast
      ensures Valid() && State() == Apply(old(State()), ExpireAt(key, ts, now)) && phase == old(phase)
      ensures ret == if ts <= now || key in old(live) then 2 else 0
      ensures key in old(live) && ts > now ==>
                && ekey == old(ekey)[key := ts] && live == old(live)
                && firstTimeout == (if ts < old(firstTimeout) then ts else old(firstTimeout))
                && CacheTakes(old(fast.existed), fast.existed, key, ts)
      ensures key in old(live) && ts <= now ==>
                && ekey == old(ekey) - {key} && live == old(live) - {key}
                && firstTimeout == old(firstTimeout) && fast.existed == old(fast.existed) - {key}
      ensures key !in old(live) ==>
                && ekey == old(ekey) && live == old(live)
                && firstTimeout == old(firstTimeout) && fast.existed == old(fast.existed)
    {
      hide Lists, Before, Inserted, Indexed, CacheTakes;
      if ts <= now {
        ret := DeleteKey(key);
      } else {
        if key !in live { return 0; }
        EsetOne(key, ts);
        InsertFastKey(key, ts);
      }
      return 2;
    }

    /** persist: nothing is looked up while the thread expects no deadline. */
    method PersistKey(key: bytes) returns (ret: int)
      requires Valid()
      modifies this, fast
      ensures Valid() && State() == Apply(old(State()), Persist(key)) && phase == old(phase)
      ensures ret == if key in old(ekey) && key !in ekey then 1 else 0
      ensures live == old(live) && firstTimeout == old(firstTimeout)
      ensures ekey == if firstTimeout == 0x7fff_ffff_ffff_ffff then old(ekey) else old(ekey) - {key}
      ensures fast.existed == if firstTimeout == 0x7fff_ffff_ffff_ffff then old(fast.existed) else old(fast.existed) - {key}
    {
      ret := 0;
      if firstTimeout != INT64_MAX {
        ret := CancelExpiration(key);
      }
    }

    /** pttl: the time left, in seconds rounded to the nearest or in milliseconds. */
    method Pttl(key: bytes, tu: TimeUnit, now: int) returns (ttl: int)
      requires Valid()
      ensures if key !in live || (key in ekey && ekey[key] < now) then ttl == -2
              else if key !in ekey then ttl == -1
              else var left := ekey[key] - now;
                   if tu == Millisecond then ttl == left else 0 <= ttl && -500 <= left - 1000 * ttl < 500
    {
      if key !in live { return -2; }
      if key !in ekey { return -1; }
      ttl := ekey[key] - now;
      if ttl < 0 { return -2; }
      if tu == Second { ttl := (ttl + 500) / 1000; }
    }

    method Obey(c: Command)
      requires Valid()
      modifies this, fast
      ensures Valid() && State() == Apply(old(State()), c)
    {
      hide Apply, Indexed, Lists;
      var ret;
      match c
      case Set(k) => SetKey(k);
      case Create(k) => CreateKey(k);
      case Delete(k) => ret := DeleteKey(k);
      case Persist(k) => ret := PersistKey(k);
      case ExpireAt(k, ts, now) => ret := ExpireKeyAt(k, ts, now);
    }

    /** A window of commands, in order. */
    method ObeyAll(cmds: seq<Command>)
      requires Valid()
      modifies this, fast
      ensures Valid() && State() == Commands(old(State()), cmds)
    {
      hide Apply, Indexed, Lists;
      assert cmds[..0] == [];
      for i := 0 to |cmds|
        invariant Valid() && State() == Commands(old(State()), cmds[..i])
      {
        assert cmds[..i + 1][..i] == cmds[..i];
        Obey(cmds[i]);
      }
      assert cmds[..|cmds|] == cmds;
    }

    // ------------------------------------------------------------- the thread

    /** The snapshot that _load_expiration_keys_from_db iterates over. */
    method BeginLoad()
      requires Valid() && phase == Resting && fast.existed == map[]
      modifies this`phase
      ensures Valid() && phase.Loading? && Enabled(old(State()), Begin(phase.rest))
      ensures State() == Take(old(State()), Begin(phase.rest))
      ensures |phase.rest| <= 1000 && forall x :: x in phase.rest ==> x.key in ekey && ekey[x.key] == x.score
      ensures forall i, j :: 0 <= i < j < |phase.rest| ==> Before(phase.rest[i], phase.rest[j])
      ensures forall k :: k in ekey && Item(ekey[k], k) !in phase.rest ==>
                |phase.rest| == 1000 && forall i :: 0 <= i < 1000 ==> Before(phase.rest[i], Item(ekey[k], k))
    {
      hide Before;
      var rest := FirstDeadlines(escore, ekey, BATCH_SIZE);
      phase := Loading(rest);
    }

    /** One turn of its loop: the cache takes the next record of the snapshot. */
    method AddNext()
      requires Valid() && phase.Loading? && phase.rest != []
      modifies this`phase, fast
      ensures Valid() && State() == Take(old(State()), AddOne) && phase == Loading(old(phase).rest[1..])
      ensures var x := old(phase).rest[0]; fast.existed == old(fast.existed)[x.key := x.score]
    {
      var x := phase.rest[0];
      phase := Loading(phase.rest[1..]);
      var ret := fast.Add(x.key, x.score);
    }

    /** The end of the load. */
    method FinishLoad() returns (quit: bool)
      requires Valid() && phase == Loading([])
      modifies this`phase, this`firstTimeout
      ensures Valid() && State() == Take(old(State()), Finish) && quit == (fast.existed == map[]) && phase == Resting
      ensures firstTimeout == if fast.existed == map[] then 0x7fff_ffff_ffff_ffff else old(firstTimeout)
    {
      var n := fast.Size();
      phase := Resting;
      quit := n == 0;
      if quit { firstTimeout := INT64_MAX; }
    }

    /** The locked part of _expire_loop: pop what is due, a hundred or so at a time. */
    method PopKeys(now: int) returns (keys: set<bytes>)
      requires fast.Valid()
      modifies this`firstTimeout, fast
      ensures fast.Valid()
      ensures Popped(fast.existed, firstTimeout, keys)
              == Pops(Popped(old(fast.existed), old(firstTimeout), {}), now, POP_LIMIT)
      ensures PopsOut(old(fast.existed), old(firstTimeout), now, keys, fast.existed, firstTimeout)
    {
      hide Before, Lists, Earliest, IsEarliest, Pops, PopsOut;
      PopsFromNone(fast.existed, firstTimeout, now);
      var count: nat := 0;
      keys := {};
      ghost var goal := Pops(Popped(fast.existed, firstTimeout, {}), now, POP_LIMIT);
      while true
        invariant fast.Valid() && count <= 101
        invariant goal == Pops(Popped(fast.existed, firstTimeout, keys), now, POP_LIMIT - count)
        decreases |fast.existed|
      {
        ghost var p := Popped(fast.existed, firstTimeout, keys);
        PopsTurn(p, now, POP_LIMIT - count);
        var ok, key, score := fast.Front();
        if !ok { break; }
        IsTheEarliest(p.fast, key);
        firstTimeout := score;
        count := count + 1;
        if score <= now {
          keys := keys + {key};
          DropSize(fast.existed, key);
          var ret, gone := fast.PopFront();
          IsTheEarliest(p.fast, gone);
        } else {
          break;
        }
        if count > 101 {
          PopsTurn(Popped(fast.existed, firstTimeout, keys), now, 0);
          break;
        }
      }
    }

    method PopDue(now: int)
      requires Valid() && phase == Resting
      modifies this`firstTimeout, this`phase, fast
      ensures Valid() && State() == Take(old(State()), Pop(now)) && phase.Deleting? && phase.at == now
      ensures PopsOut(old(fast.existed), old(firstTimeout), now, phase.doomed, fast.existed, firstTimeout)
    {
      hide Lists, Indexed, Pops, PopsOut;
      var keys := PopKeys(now);
      phase := Deleting(keys, now);
    }

    /** multi_del of the popped keys. */
    method EraseDoomed()
      requires Valid() && phase.Deleting?
      modifies this, fast
      ensures Valid() && State() == Take(old(State()), Erase) && phase == Resting && firstTimeout == old(firstTimeout)
      ensures live == old(live) - old(phase).doomed && ekey == old(ekey) - old(phase).doomed
      ensures fast.existed == old(fast.existed) - (old(phase).doomed * old(live))
    {
      hide Lists, Indexed;
      var rest := phase.doomed;
      ghost var done: set<bytes> := {};
      ErasedNone(State());
      while rest != {}
        invariant Valid() && phase == old(phase) && phase.doomed == done + rest && done !! rest
        invariant State() == Erased(old(State()), done)
        decreases rest
      {
        var key :| key in rest;
        ErasedNext(old(State()), done, key);
        var ret := DeleteKey(key);
        done := done + {key};
        rest := rest - {key};
      }
      assert done == phase.doomed;
      phase := Resting;
    }

    /** One turn of the thread, undisturbed. */
    method ExpireLoop(now: int) returns (ghost gone: set<bytes>)
      requires Valid() && phase == Resting && Inv(State()) && now < INT64_MAX
      modifies this, fast
      ensures Valid() && phase == Resting && Inv(State())
      ensures live == old(live) - gone && ekey == old(ekey) - gone && gone <= old(ekey).Keys
      ensures forall k :: k in gone ==> old(ekey)[k] <= now
      ensures gone != {} || (firstTimeout > now && (firstTimeout == INT64_MAX || Armed(State())))
      ensures old(Armed(State())) && old(firstTimeout) <= now ==> gone != {}
    {
      hide Lists, Indexed, Inv, Take, Enabled, Earliest;
      gone := {};
      var n := fast.Size();
      if n == 0 {
        LoadAll();
        n := fast.Size();
        if n == 0 {
          return;
        }
      }
      ghost var v := State();
      PopDue(now);
      PopFacts(v, now);
      gone := phase.doomed;
      ghost var w := State();
      EraseDoomed();
      EraseFacts(w);
    }

    /** The whole load, undisturbed. */
    method LoadAll()
      requires Valid() && phase == Resting && fast.existed == map[] && Inv(State())
      modifies this, fast
      ensures Valid() && phase == Resting && Inv(State()) && ekey == old(ekey) && live == old(live)
      ensures fast.existed == map[] ==> firstTimeout == INT64_MAX
    {
      hide Lists, Indexed, Inv, IsBatch;
      ghost var v := State();
      BeginLoad();
      BeginKeeps(v, phase.rest);
      while phase.rest != []
        invariant Valid() && phase.Loading? && Inv(State()) && ekey == old(ekey) && live == old(live)
        decreases |phase.rest|
      {
        v := State();
        AddNext();
        AddKeeps(v);
      }
      v := State();
      var quit := FinishLoad();
      FinishKeeps(v);
    }

    /** _thread_func from one sleep to the next, as the clock is read again and again:
        when it goes to sleep exactly the keys due at that moment are gone. */
    method RunThread(clock: nat -> int) returns (n: nat)
      requires Valid() && phase == Resting && Inv(State())
      requires forall i: nat, j: nat :: i <= j ==> clock(i) <= clock(j) < INT64_MAX
      modifies this, fast
      ensures Valid() && phase == Resting && Inv(State()) && firstTimeout > clock(n)
      ensures forall k :: k in live <==> k in old(live) && !(k in old(ekey) && old(ekey)[k] <= clock(n))
      ensures forall k :: k in ekey <==> k in old(ekey) && old(ekey)[k] > clock(n)
      ensures forall k :: k in ekey ==> ekey[k] == old(ekey)[k]
    {
      hide Lists, Indexed, Inv, Armed;
      n := 0;
      while firstTimeout <= clock(n)
        invariant Valid() && phase == Resting && Inv(State())
        invariant forall k :: k in old(live) && k !in live ==> k in old(ekey) && old(ekey)[k] <= clock(n)
        invariant live <= old(live) && ekey.Keys <= old(ekey).Keys
        invariant forall k :: k in old(ekey) && k !in ekey ==> k !in live
        invariant forall k :: k in ekey ==> ekey[k] == old(ekey)[k]
        invariant forall k :: k in old(ekey) && k !in ekey ==> old(ekey)[k] <= clock(n)
        decreases |ekey.Keys|, if firstTimeout == INT64_MAX || Armed(State()) then 0 else 1
      {
        ghost var before := ekey;
        assert clock(n) <= clock(n + 1) <= clock(n + 2);
        ghost var gone := ExpireLoop(clock(n + 1));
        n := n + 2;
        if gone != {} { Smaller(before.Keys, gone); }
        assert ekey.Keys == before.Keys - gone;
      }
      SleepIsSafe(State(), clock(n));
    }
  }

  /** The wake-up time is that of the earliest entry of the cache. */
  ghost predicate Armed(v: View) { v.fast != map[] && v.first == v.fast[Earliest(v.fast)] }

  lemma IsTheLatest(m: Deadlines, k: bytes)
    requires k in m && forall j :: j in m && j != k ==> Before(Item(m[j], j), Item(m[k], k))
    ensures Latest(m) == k
  {
    ExtremeUnique(m, k, Latest(m));
  }

  lemma MaxIsLatest(m: Deadlines, score: int)
    requires m != map[] && IsMax(m, score)
    ensures score == m[Latest(m)]
  {
    var j :| j in m && m[j] == score;
    LatestBounds(m, j);
  }

  lemma IsTheEarliest(m: Deadlines, k: bytes)
    requires k in m && forall j :: j in m && j != k ==> Before(Item(m[k], k), Item(m[j], j))
    ensures Earliest(m) == k
  {
    ExtremeUnique(m, k, Earliest(m));
  }

  lemma PopsTurn(p: Popped, now: int, n: nat)
    ensures n == 0 || p.fast == map[] ==> Pops(p, now, n) == p
    ensures n > 0 && p.fast != map[] ==>
              var k := Earliest(p.fast);
              Pops(p, now, n) == if p.fast[k] > now then p.(first := p.fast[k])
                                 else Pops(Popped(p.fast - {k}, p.fast[k], p.doomed + {k}), now, n - 1)
  {}

  /** The keys taken out were all due, and came before everything that is left. */
  ghost predicate PoppedInOrder(was: Deadlines, now: int, keys: set<bytes>, left: Deadlines) {
    && keys <= was.Keys && left == was - keys
    && (forall k :: k in keys ==> was[k] <= now)
    && (forall k, j :: k in keys && j in left ==> Before(Item(was[k], k), Item(was[j], j)))
  }

  /** The score looked at last: the earliest one left when the loop stopped at it, else
      the latest one taken out. */
  ghost predicate LastSeen(was: Deadlines, first: int, keys: set<bytes>, left: Deadlines, looked: bool, seen: int)
    requires keys <= was.Keys && left.Keys <= was.Keys
  {
    if was == map[] then seen == first
    else if looked && left != map[] then (exists j :: j in left && was[j] == seen) && forall j :: j in left ==> seen <= was[j]
    else (exists k :: k in keys && was[k] == seen) && forall k :: k in keys ==> was[k] <= seen
  }

  /** Up to 102 due keys go, all of them if there are fewer. */
  ghost predicate PopsOut(was: Deadlines, first: int, now: int, keys: set<bytes>, left: Deadlines, seen: int) {
    && PoppedInOrder(was, now, keys, left) && |keys| <= 102
    && (|keys| < 102 ==> forall j :: j in left ==> left[j] > now)
    && LastSeen(was, first, keys, left, |keys| < 102, seen)
  }

  lemma PopsFromNone(fast: Deadlines, first: int, now: int)
    ensures var q := Pops(Popped(fast, first, {}), now, POP_LIMIT); PopsOut(fast, first, now, q.doomed, q.fast, q.first)
  {
    hide Pops, Before, LastSeen;
    var p := Popped(fast, first, {});
    PopsMeans(p, now, POP_LIMIT);
    assert Pops(p, now, POP_LIMIT).doomed - {} == Pops(p, now, POP_LIMIT).doomed;
  }

  lemma InOrderMore(was: Deadlines, now: int, k: bytes, more: set<bytes>, left: Deadlines)
    requires k in was && was[k] <= now && PoppedInOrder(was - {k}, now, more, left)
    requires forall j :: j in was && j != k ==> Before(Item(was[k], k), Item(was[j], j))
    ensures PoppedInOrder(was, now, more + {k}, left) && |more + {k}| == |more| + 1
  {
    hide Before;
    assert k !in more;
    assert was - (more + {k}) == (was - {k}) - more;
  }

  lemma SeenMore(was: Deadlines, first: int, k: bytes, more: set<bytes>, left: Deadlines, looked: bool, seen: int)
    requires k in was && more <= (was - {k}).Keys && left == (was - {k}) - more
    requires forall j :: j in was ==> was[k] <= was[j]
    requires LastSeen(was - {k}, was[k], more, left, looked, seen) || (more == {} && !looked && seen == was[k])
    ensures LastSeen(was, first, more + {k}, left, looked, seen)
  {
    if was - {k} == map[] {
      assert left == map[] && more == {};
      assert k in more + {k};
    } else if !(looked && left != map[]) {
      if more == {} && !looked && seen == was[k] {
        assert k in more + {k};
      } else {
        var j :| j in more && (was - {k})[j] == seen;
        assert j in more + {k} && was[j] == seen;
        forall j | j in more + {k} ensures was[j] <= seen { assert j == k || (was - {k})[j] <= seen; }
      }
    }
  }

  lemma {:induction false} PopsMeans(p: Popped, now: int, n: nat)
    requires p.doomed !! p.fast.Keys && n > 0
    ensures var q := Pops(p, now, n); var keys := q.doomed - p.doomed;
            && p.doomed <= q.doomed && PoppedInOrder(p.fast, now, keys, q.fast) && |keys| <= n
            && (|keys| < n ==> forall j :: j in q.fast ==> q.fast[j] > now)
            && LastSeen(p.fast, p.first, keys, q.fast, |keys| < n, q.first)
    decreases n
  {
    hide Before, IsEarliest, Earliest, Pops, PoppedInOrder, LastSeen;
    PopsTurn(p, now, n);
    if p.fast != map[] { EarliestFirst(p.fast); }
    if p.fast == map[] || p.fast[Earliest(p.fast)] > now {
      PopsNone(p, now, n);
    } else {
      var k := Earliest(p.fast);
      var p' := Popped(p.fast - {k}, p.fast[k], p.doomed + {k});
      var q := Pops(p', now, n - 1);
      if n > 1 {
        PopsMeans(p', now, n - 1);
      } else {
        PopsTurn(p', now, 0);
        NothingPopped(p'.fast, now);
      }
      var (keys, more) := (q.doomed - p.doomed, q.doomed - p'.doomed);
      PoppedKeys(p'.fast, now, more, q.fast);
      assert keys == more + {k};
      InOrderMore(p.fast, now, k, more, q.fast);
      SeenMore(p.fast, p.first, k, more, q.fast, |more| < n - 1, q.first);
    }
  }

  lemma PoppedKeys(was: Deadlines, now: int, keys: set<bytes>, left: Deadlines)
    requires PoppedInOrder(was, now, keys, left)
    ensures keys <= was.Keys && left == was - keys
  {}

  lemma NothingPopped(was: Deadlines, now: int)
    ensures PoppedInOrder(was, now, {}, was)
  {
    hide Before;
    assert was - {} == was;
  }

  lemma PopsNone(p: Popped, now: int, n: nat)
    requires n > 0 && (p.fast == map[] || p.fast[Earliest(p.fast)] > now)
    ensures var q := Pops(p, now, n);
            && q.doomed == p.doomed && PoppedInOrder(p.fast, now, {}, q.fast) && q.fast == p.fast
            && (forall j :: j in q.fast ==> q.fast[j] > now)
            && LastSeen(p.fast, p.first, {}, q.fast, true, q.first)
  {
    hide Before, IsEarliest, PoppedInOrder;
    NothingPopped(p.fast, now);
    if p.fast != map[] { EarliestFirst(p.fast); }
  }

  lemma EarliestFirst(m: Deadlines)
    requires m != map[]
    ensures var k := Earliest(m);
            k in m && forall j :: j in m && j != k ==> Before(Item(m[k], k), Item(m[j], j)) && m[k] <= m[j]
  {}

  /** v without the keys already deleted. */
  ghost function Erased(v: View, done: set<bytes>): View {
    v.(fast := v.fast - (done * v.live), ekey := v.ekey - done, live := v.live - done)
  }

  lemma ErasedNone(v: View)
    ensures Erased(v, {}) == v
  {}

  lemma ErasedNext(v: View, done: set<bytes>, key: bytes)
    requires v.ekey.Keys <= v.live && key !in done
    ensures Erased(v, done + {key}) == Apply(Erased(v, done), Delete(key))
  {
    var (a, b) := (Erased(v, done + {key}), Apply(Erased(v, done), Delete(key)));
    if key in v.live {
      assert (done + {key}) * v.live == done * v.live + {key};
    } else {
      assert (done + {key}) * v.live == done * v.live;
    }
    assert a.fast == b.fast && a.ekey == b.ekey && a.live == b.live;
  }

  lemma Smaller(s: set<bytes>, gone: set<bytes>)
    requires gone <= s && gone != {}
    ensures |s - gone| < |s|
  {
    assert s == (s - gone) + gone;
  }

  /** After the pop some key is picked or the thread may sleep. */
  lemma PopFacts(v: View, now: int)
    requires Inv(v) && v.phase.Resting? && v.fast != map[]
    ensures var t := Take(v, Pop(now));
            && Inv(t) && t.ekey == v.ekey && t.live == v.live && t.phase.Deleting?
            && (forall k :: k in t.phase.doomed ==> k in v.ekey && v.ekey[k] <= now)
            && (t.phase.doomed != {} || (t.first > now && Armed(t)))
            && (Armed(v) && v.first <= now ==> t.phase.doomed != {})
  {
    hide Before, Pops;
    PopKeeps(v, now);
    var p := Popped(v.fast, v.first, {});
    PopsOk(p, v.ekey, now, POP_LIMIT);
    PopsTurn(p, now, POP_LIMIT);
    var k := Earliest(v.fast);
    if v.fast[k] <= now {
      assert k in p.doomed + {k};
      PopsGrow(Popped(v.fast - {k}, v.fast[k], p.doomed + {k}), now, POP_LIMIT - 1);
    }
  }

  lemma {:induction false} PopsGrow(p: Popped, now: int, n: nat)
    ensures p.doomed <= Pops(p, now, n).doomed
    decreases n
  {
    if n > 0 && p.fast != map[] {
      var k := Earliest(p.fast);
      if p.fast[k] <= now { PopsGrow(Popped(p.fast - {k}, p.fast[k], p.doomed + {k}), now, n - 1); }
    }
  }

  lemma EraseFacts(v: View)
    requires Inv(v) && v.phase.Deleting?
    ensures var t := Take(v, Erase);
            && Inv(t) && t.phase.Resting? && t.live == v.live - v.phase.doomed && t.ekey == v.ekey - v.phase.doomed
            && t.first == v.first && (v.phase.doomed == {} ==> t.fast == v.fast)
  {
    EraseKeeps(v);
  }

  /** The first deadlines in store order. */
  method FirstDeadlines(escore: set<Item>, ghost ekey: Deadlines, num: nat) returns (rest: seq<Item>)
    requires Indexed(ekey, escore) && num == BATCH_SIZE
    ensures IsBatch(ekey, rest) && forall i, j :: 0 <= i < j < |rest| ==> Before(rest[i], rest[j])
    ensures forall x :: x in rest ==> x in escore
    ensures forall x :: x in escore && x !in rest ==> |rest| == num && forall i :: 0 <= i < |rest| ==> Before(rest[i], x)
  {
    hide Before;
    rest := [];
    var left := escore;
    while |rest| < num && left != {}
      invariant |rest| <= num && left <= escore && forall x :: x in escore <==> x in left || x in rest
      invariant forall i, j :: 0 <= i < j < |rest| ==> Before(rest[i], rest[j])
      invariant forall i, x :: 0 <= i < |rest| && x in left ==> Before(rest[i], x)
      decreases num - |rest|
    {
      ghost var l := Least(left);
      var x :| x in left && forall y :: y in left && y != x ==> Before(x, y);
      left := left - {x};
      rest := rest + [x];
    }
    BatchFound(ekey, escore, left, rest);
  }

  lemma BatchFound(ekey: Deadlines, escore: set<Item>, left: set<Item>, rest: seq<Item>)
    requires Indexed(ekey, escore) && (forall x :: x in escore <==> x in left || x in rest)
    requires forall i, j :: 0 <= i < j < |rest| ==> Before(rest[i], rest[j])
    requires forall i, x :: 0 <= i < |rest| && x in left ==> Before(rest[i], x)
    requires |rest| <= BATCH_SIZE && (|rest| == BATCH_SIZE || left == {})
    ensures IsBatch(ekey, rest)
  {
    hide Less;
    forall i | 0 <= i < |rest| ensures rest[i].key in ekey && ekey[rest[i].key] == rest[i].score { assert rest[i] in escore; }
    forall i, j | 0 <= i < j < |rest| ensures rest[i].key != rest[j].key {
      BeforeTotal(rest[i], rest[j]);
    }
    forall i, k | 0 <= i < |rest| && k in ekey && Item(ekey[k], k) !in rest ensures rest[i].score <= ekey[k] {
      assert Item(ekey[k], k) in left;
      assert Before(rest[i], Item(ekey[k], k));
    }
  }

  /** The thread pops at time at, commands follow, and the deletion comes at time now: a
      key that is not due is deleted exactly if the commands put some popped key off. */
  method DisturbedDeletion(h: ExpirationHandler, at: int, cmds: seq<Command>, now: int)
    requires h.Valid() && h.phase == Resting && Inv(h.State()) && BelowMax(h.ekey) && at <= now
    modifies h, h.fast
    ensures h.Valid() && h.phase == Resting
    ensures var v := Take(old(h.State()), Pop(at));
            var w := Commands(v, cmds);
            && h.live == w.live - v.phase.doomed
            && ((exists k :: k in w.live && k !in h.live && !Due(w, k, now)) <==>
                exists k :: k in v.phase.doomed && FateOf(cmds, k, now) == PutOff)
  {
    hide Lists, Indexed, Inv, Commands, FateOf, Pops;
    ghost var s := h.State();
    h.PopDue(at);
    ghost var v := h.State();
    WindowOpens(s, at);
    h.ObeyAll(cmds);
    ghost var w := h.State();
    SamePhase(v, cmds);
    if v.phase.doomed != {} { WindowExact(v, cmds, now); }
    h.EraseDoomed();
  }

  /** A PERSIST between the pop and the deletion: the key has no deadline any more and is
      deleted all the same. */
  method PersistRace(key: bytes, ts: int) returns (h: ExpirationHandler, persisted: bool)
    requires 0 < ts < INT64_MAX
    ensures persisted && key !in h.live
  {
    hide Lists, Indexed;
    h := new ExpirationHandler(map[key := ts], {Item(ts, key)}, {key}) by { OneIndexed(key, ts); }
    h.LoadAll();
    ghost var v := h.State();
    h.PopDue(ts);
    WindowOpens(v, ts);
    assert h.phase.doomed == {key} by { OnlyDoomed(v, key, ts); }
    var ret := h.PersistKey(key);
    persisted := ret == 1 && key in h.live && key !in h.ekey;
    h.EraseDoomed();
  }

  lemma OneIndexed(key: bytes, ts: int)
    ensures Indexed(map[key := ts], {Item(ts, key)})
  {}

  lemma OnlyDoomed(v: View, key: bytes, ts: int)
    requires Inv(v) && v.phase.Resting? && v.ekey == map[key := ts] && ts < INT64_MAX
    requires v.fast == map[] ==> v.first == INT64_MAX
    ensures Take(v, Pop(ts)).phase.doomed == {key}
  {
    assert key in v.ekey && v.ekey[key] == ts;
    PopFacts(v, ts);
    var t := Take(v, Pop(ts));
    assert key in t.phase.doomed || t.first <= ts;
  }
}
