/** ttl.cpp as a state machine: client commands and the steps of the expiry thread, at
    the granularity of its critical sections, in any order. */
module ExpirySpec {
  import opened Bytes
  import opened SortedSets
  import opened Maps

  const BATCH_SIZE: nat := 1000
  const POP_LIMIT: nat := 102
  const INT64_MAX: int := 0x7fff_ffff_ffff_ffff

  type Deadlines = map<bytes, int>

  /** Where the thread is: at its loop test, between the snapshot of a load and the end
      of it, or between popping due keys and deleting them. */
  datatype Phase =
    | Resting
    | Loading(rest: seq<Item>)
    | Deleting(doomed: set<bytes>, at: int)

  /** The cache, the wake-up time, the stored deadlines and the live keys. */
  datatype View = View(fast: Deadlines, first: int, ekey: Deadlines, live: set<bytes>, phase: Phase)

  /** Create stands for every write that makes a missing key and leaves deadlines alone,
      such as HSET or LPUSH; on a live key it changes nothing here. */
  datatype Command =
    | Set(key: bytes)
    | Create(key: bytes)
    | Delete(key: bytes)
    | Persist(key: bytes)
    | ExpireAt(key: bytes, ts: int, now: int)

  // ------------------------------------------------------------------- extremes

  ghost predicate IsLatest(m: Deadlines, k: bytes) {
    k in m && forall j :: j in m && j != k ==> Before(Item(m[j], j), Item(m[k], k))
  }

  ghost predicate IsEarliest(m: Deadlines, k: bytes) {
    k in m && forall j :: j in m && j != k ==> Before(Item(m[k], k), Item(m[j], j))
  }

  lemma {:induction false} LatestExists(m: Deadlines)
    requires m != map[]
    ensures exists k :: IsLatest(m, k)
    decreases |m|
  {
    hide Before;
    var x :| x in m;
    var r := m - {x};
    DropSize(m, x);
    assert forall j :: j in m ==> j == x || (j in r && r[j] == m[j]);
    if r == map[] {
      assert IsLatest(m, x);
    } else {
      LatestExists(r);
      var y :| IsLatest(r, y);
      BeforeTotal(Item(m[x], x), Item(m[y], y));
      if Before(Item(m[x], x), Item(m[y], y)) {
        assert IsLatest(m, y);
      } else {
        forall j | j in r && j != y ensures Before(Item(m[j], j), Item(m[x], x)) {
          BeforeTransitive(Item(m[j], j), Item(m[y], y), Item(m[x], x));
        }
        assert IsLatest(m, x);
      }
    }
  }

  lemma {:induction false} EarliestExists(m: Deadlines)
    requires m != map[]
    ensures exists k :: IsEarliest(m, k)
    decreases |m|
  {
    hide Before;
    var x :| x in m;
    var r := m - {x};
    DropSize(m, x);
    assert forall j :: j in m ==> j == x || (j in r && r[j] == m[j]);
    if r == map[] {
      assert IsEarliest(m, x);
    } else {
      EarliestExists(r);
      var y :| IsEarliest(r, y);
      BeforeTotal(Item(m[x], x), Item(m[y], y));
      if Before(Item(m[y], y), Item(m[x], x)) {
        assert IsEarliest(m, y);
      } else {
        forall j | j in r && j != y ensures Before(Item(m[x], x), Item(m[j], j)) {
          BeforeTransitive(Item(m[x], x), Item(m[y], y), Item(m[j], j));
        }
        assert IsEarliest(m, x);
      }
    }
  }

  lemma ExtremeUnique(m: Deadlines, a: bytes, b: bytes)
    ensures IsLatest(m, a) && IsLatest(m, b) ==> a == b
    ensures IsEarliest(m, a) && IsEarliest(m, b) ==> a == b
  {
    hide Before;
    if a in m && b in m { BeforeTotal(Item(m[a], a), Item(m[b], b)); }
  }

  ghost function Latest(m: Deadlines): (k: bytes)
    requires m != map[]
    ensures IsLatest(m, k)
  {
    LatestExists(m);
    var k :| IsLatest(m, k);
    k
  }

  ghost function Earliest(m: Deadlines): (k: bytes)
    requires m != map[]
    ensures IsEarliest(m, k)
  {
    EarliestExists(m);
    var k :| IsEarliest(m, k);
    k
  }

  lemma LatestBounds(m: Deadlines, j: bytes)
    requires j in m
    ensures m[j] <= m[Latest(m)]
  {
    assert j == Latest(m) || Before(Item(m[j], j), Item(m[Latest(m)], Latest(m)));
  }

  lemma EarliestBounds(m: Deadlines, j: bytes)
    requires j in m
    ensures m[Earliest(m)] <= m[j]
  {
    assert j == Earliest(m) || Before(Item(m[Earliest(m)], Earliest(m)), Item(m[j], j));
  }

  // ------------------------------------------------------------------- commands

  /** Does _insertFastKey take the deadline into the cache? */
  ghost predicate Admits(fast: Deadlines, ts: int) { fast != map[] && ts <= fast[Latest(fast)] }

  /** _insertFastKey: a deadline within the cache's range goes in, and the latest one
      goes out of a cache that has become too large. */
  ghost function Inserted(fast: Deadlines, key: bytes, ts: int): Deadlines {
    if Admits(fast, ts) then
      var f := fast[key := ts];
      if |f| > BATCH_SIZE then f - {Latest(f)} else f
    else fast - {key}
  }

  /** cancelExpiration. */
  ghost function Cancel(v: View, key: bytes): View {
    v.(fast := v.fast - {key}, ekey := v.ekey - {key})
  }

  ghost function Min(a: int, b: int): int { if a < b then a else b }

  ghost function Apply(v: View, c: Command): View {
    match c
    case Set(k) => Cancel(v, k).(live := v.live + {k})
    case Create(k) => v.(live := v.live + {k})
    case Delete(k) => if k in v.live then Cancel(v, k).(live := v.live - {k}) else v
    case Persist(k) => if v.first == INT64_MAX then v else Cancel(v, k)
    case ExpireAt(k, ts, now) =>
      if k !in v.live then v
      else if ts <= now then Cancel(v, k).(live := v.live - {k})
      else v.(fast := Inserted(v.fast, k, ts), first := Min(ts, v.first), ekey := v.ekey[k := ts])
  }

  // ---------------------------------------------------------- steps of the thread

  ghost predicate Distinct(rest: seq<Item>) { forall i, j :: 0 <= i < j < |rest| ==> rest[i].key != rest[j].key }

  /** rest is the first deadlines in store order, as many as fit the batch. */
  ghost predicate IsBatch(ekey: Deadlines, rest: seq<Item>) {
    && |rest| <= BATCH_SIZE
    && (forall i {:trigger rest[i]} :: 0 <= i < |rest| ==> rest[i].key in ekey && ekey[rest[i].key] == rest[i].score)
    && Distinct(rest)
    && (forall i, k {:trigger rest[i], ekey[k]} :: 0 <= i < |rest| && k in ekey && Item(ekey[k], k) !in rest ==> rest[i].score <= ekey[k])
    && (|rest| < BATCH_SIZE ==> forall k :: k in ekey ==> Item(ekey[k], k) in rest)
  }

  datatype Popped = Popped(fast: Deadlines, first: int, doomed: set<bytes>)

  /** The locked loop of _expire_loop, with n turns left. */
  ghost function Pops(p: Popped, now: int, n: nat): Popped
    decreases n
  {
    if n == 0 || p.fast == map[] then p else
    var k := Earliest(p.fast);
    if p.fast[k] > now then p.(first := p.fast[k])
    else Pops(Popped(p.fast - {k}, p.fast[k], p.doomed + {k}), now, n - 1)
  }

  datatype Step =
    | Cmd(c: Command)
    | Begin(rest: seq<Item>)
    | AddOne
    | Finish
    | Pop(now: int)
    | Erase

  ghost predicate Enabled(v: View, step: Step) {
    match step
    case Cmd(_) => true
    case Begin(rest) => v.phase.Resting? && v.fast == map[] && IsBatch(v.ekey, rest)
    case AddOne => v.phase.Loading? && v.phase.rest != []
    case Finish => v.phase.Loading? && v.phase.rest == []
    case Pop(_) => v.phase.Resting?
    case Erase => v.phase.Deleting?
  }

  ghost function Take(v: View, step: Step): View
    requires Enabled(v, step)
  {
    match step
    case Cmd(c) => Apply(v, c)
    case Begin(rest) => v.(phase := Loading(rest))
    case AddOne =>
      var x := v.phase.rest[0];
      v.(fast := v.fast[x.key := x.score], phase := Loading(v.phase.rest[1..]))
    case Finish => v.(first := if v.fast == map[] then INT64_MAX else v.first, phase := Resting)
    case Pop(now) =>
      var p := Pops(Popped(v.fast, v.first, {}), now, POP_LIMIT);
      v.(fast := p.fast, first := p.first, phase := Deleting(p.doomed, now))
    case Erase =>
      var d := v.phase.doomed;
      View(v.fast - (d * v.live), v.first, v.ekey - d, v.live - d, Resting)
  }

  // ------------------------------------------------------------------- invariant

  ghost predicate Agrees(fast: Deadlines, ekey: Deadlines) {
    forall k :: k in fast ==> k in ekey && ekey[k] == fast[k]
  }

  /** The cache agrees with the stored deadlines and misses none below its maximum. Keys
      picked for deletion are on their way out. */
  ghost predicate Cached(fast: Deadlines, ekey: Deadlines, doomed: set<bytes>) {
    && Agrees(fast, ekey)
    && (forall k, j :: k in ekey && k !in doomed && k !in fast && j in fast ==> fast[j] <= ekey[k])
  }

  /** The thread wakes no later than any deadline. */
  ghost predicate Wakes(first: int, ekey: Deadlines, doomed: set<bytes>) {
    forall k :: k in ekey && k !in doomed ==> first <= ekey[k]
  }

  /** The cache as it will be when the rest has been added. */
  ghost function Overlay(fast: Deadlines, rest: seq<Item>): Deadlines
    decreases |rest|
  {
    if rest == [] then fast else Overlay(fast[rest[0].key := rest[0].score], rest[1..])
  }

  ghost predicate Named(rest: seq<Item>, k: bytes) { exists i :: 0 <= i < |rest| && rest[i].key == k }

  ghost predicate Due(v: View, k: bytes, now: int) { k in v.ekey && v.ekey[k] <= now }

  ghost predicate PhaseOk(v: View) {
    match v.phase
    case Resting => Cached(v.fast, v.ekey, {}) && Wakes(v.first, v.ekey, {})
    case Loading(rest) =>
      && Distinct(rest) && Agrees(v.fast, v.ekey)
      && Cached(Overlay(v.fast, rest), v.ekey, {}) && Wakes(v.first, v.ekey, {})
      && (Overlay(v.fast, rest) == map[] ==> v.ekey == map[])
    case Deleting(doomed, at) =>
      && Cached(v.fast, v.ekey, doomed) && Wakes(v.first, v.ekey, doomed)
      && (forall k :: k in doomed && k in v.live ==> Due(v, k, at))
  }

  ghost predicate Inv(v: View) { v.ekey.Keys <= v.live && PhaseOk(v) }

  // ------------------------------------------------------------- the overlay of a load

  lemma {:induction false} OverlayHas(fast: Deadlines, rest: seq<Item>, k: bytes)
    requires Distinct(rest)
    ensures k in Overlay(fast, rest) <==> k in fast || Named(rest, k)
    ensures !Named(rest, k) && k in fast ==> Overlay(fast, rest)[k] == fast[k]
    decreases |rest|
  {
    if rest != [] {
      OverlayHas(fast[rest[0].key := rest[0].score], rest[1..], k);
      if Named(rest, k) && k != rest[0].key {
        var i :| 0 <= i < |rest| && rest[i].key == k;
        assert rest[1..][i - 1].key == k;
      }
      if Named(rest[1..], k) {
        var i :| 0 <= i < |rest| - 1 && rest[1..][i].key == k;
        assert rest[i + 1].key == k;
      }
    }
  }

  lemma {:induction false} OverlayScore(fast: Deadlines, rest: seq<Item>, i: nat)
    requires Distinct(rest) && i < |rest|
    ensures rest[i].key in Overlay(fast, rest) && Overlay(fast, rest)[rest[i].key] == rest[i].score
    decreases |rest|
  {
    var f := fast[rest[0].key := rest[0].score];
    if i == 0 {
      assert !Named(rest[1..], rest[0].key);
      OverlayHas(f, rest[1..], rest[0].key);
    } else {
      OverlayScore(f, rest[1..], i - 1);
    }
  }

  /** Pending additions win over what the cache holds already. */
  lemma OverlayMeans(fast: Deadlines, rest: seq<Item>)
    requires Distinct(rest)
    ensures forall k :: k in Overlay(fast, rest) <==> k in fast || Named(rest, k)
    ensures forall k :: !Named(rest, k) && k in fast ==> Overlay(fast, rest)[k] == fast[k]
    ensures forall i {:trigger rest[i]} :: 0 <= i < |rest| ==>
              rest[i].key in Overlay(fast, rest) && Overlay(fast, rest)[rest[i].key] == rest[i].score
  {
    hide Named, Distinct;
    forall k ensures (k in Overlay(fast, rest) <==> k in fast || Named(rest, k))
                     && (!Named(rest, k) && k in fast ==> Overlay(fast, rest)[k] == fast[k])
    {
      OverlayHas(fast, rest, k);
    }
    forall i | 0 <= i < |rest|
      ensures rest[i].key in Overlay(fast, rest) && Overlay(fast, rest)[rest[i].key] == rest[i].score
    {
      OverlayScore(fast, rest, i);
    }
  }
}
