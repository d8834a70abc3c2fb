/** What every order of commands and thread steps keeps, and exactly which commands, when
    they land inside a load or a deletion, break it. */
module ExpirySafety {
  import opened Bytes
  import opened Options
  import opened SortedSets
  import opened ExpirySpec

  // -------------------------------------------------------------- clean commands

  /** The entry an insertion leaves out of the cache: the key itself, or the one it
      pushes out. */
  ghost function LeftOut(fast: Deadlines, key: bytes, ts: int): Option<Item> {
    if !Admits(fast, ts) then Some(Item(ts, key)) else
    var f := fast[key := ts];
    if |f| > BATCH_SIZE then Some(Item(f[Latest(f)], Latest(f))) else None
  }

  /** A command that takes a key's deadline away. Inside a load it must not name a key
      still to be added, nor empty the cache while deadlines remain; inside a deletion
      it must not leave a picked key alive. */
  ghost predicate CleanDrop(v: View, key: bytes, alive: bool) {
    match v.phase
    case Resting => true
    case Loading(rest) =>
      !Named(rest, key) && (Overlay(v.fast, rest) - {key} != map[] || v.ekey - {key} == map[])
    case Deleting(doomed, _) => key !in doomed || !alive
  }

  /** A command that sets a deadline. Inside a load the deadline must be the one still to
      be added, if any, and what it leaves out of the cache must not lie before an entry
      still to be added; inside a deletion it must not put a picked key off. */
  ghost predicate CleanPut(v: View, key: bytes, ts: int) {
    match v.phase
    case Resting => true
    case Loading(rest) =>
      && (forall i {:trigger rest[i]} :: 0 <= i < |rest| && rest[i].key == key ==> rest[i].score == ts)
      && Overlay(Inserted(v.fast, key, ts), rest) != map[]
      && (var out := LeftOut(v.fast, key, ts);
          out.None? || Named(rest, out.value.key)
          || forall i {:trigger rest[i]} :: 0 <= i < |rest| ==> rest[i].score <= out.value.score)
    case Deleting(doomed, at) => key !in doomed || ts <= at
  }

  /** A command that makes a missing key must not make one picked for deletion. */
  ghost predicate CleanCreate(v: View, key: bytes) {
    match v.phase
    case Resting => true
    case Loading(_) => true
    case Deleting(doomed, _) => key !in doomed
  }

  ghost predicate Clean(v: View, c: Command) {
    match c
    case Set(k) => CleanDrop(v, k, true)
    case Create(k) => k !in v.live ==> CleanCreate(v, k)
    case Delete(k) => k in v.live ==> CleanDrop(v, k, false)
    case Persist(k) => v.first != INT64_MAX ==> CleanDrop(v, k, k in v.live)
    case ExpireAt(k, ts, now) =>
      k in v.live ==> if ts <= now then CleanDrop(v, k, false) else CleanPut(v, k, ts)
  }

  // -------------------------------------------------------------------- dropping

  lemma CachedDrop(fast: Deadlines, ekey: Deadlines, doomed: set<bytes>, key: bytes)
    requires Cached(fast, ekey, doomed)
    ensures Cached(fast - {key}, ekey - {key}, doomed)
  {}

  lemma OverlayDrop(fast: Deadlines, rest: seq<Item>, key: bytes)
    requires Distinct(rest) && !Named(rest, key)
    ensures Overlay(fast - {key}, rest) == Overlay(fast, rest) - {key}
  {
    hide Named, Distinct, Overlay;
    OverlayMeans(fast, rest);
    OverlayMeans(fast - {key}, rest);
    var (f, g) := (Overlay(fast, rest), Overlay(fast - {key}, rest));
    forall k | k in g ensures k in f && k != key && g[k] == f[k] {
      if Named(rest, k) { OverlayNamed(fast, fast - {key}, rest, k); }
    }
  }

  lemma OverlayNamed(fast: Deadlines, other: Deadlines, rest: seq<Item>, k: bytes)
    requires Distinct(rest) && Named(rest, k)
    ensures k in Overlay(fast, rest) && k in Overlay(other, rest) && Overlay(fast, rest)[k] == Overlay(other, rest)[k]
  {
    hide Overlay;
    OverlayMeans(fast, rest);
    OverlayMeans(other, rest);
    var i :| 0 <= i < |rest| && rest[i].key == k;
  }

  /** Taking a deadline away keeps the invariant exactly if it is clean. */
  lemma DropExact(v: View, key: bytes, live: set<bytes>)
    requires Inv(v) && (forall k :: k != key ==> (k in live <==> k in v.live))
    ensures Inv(Cancel(v, key).(live := live)) <==> CleanDrop(v, key, key in live)
  {
    hide Overlay, Named, Distinct;
    var t := Cancel(v, key).(live := live);
    assert t.ekey.Keys <= live;
    match v.phase
    case Resting => CachedDrop(v.fast, v.ekey, {}, key);
    case Deleting(doomed, at) => CachedDrop(v.fast, v.ekey, doomed, key);
    case Loading(rest) =>
      OverlayMeans(t.fast, rest);
      if Named(rest, key) {
        assert key in Overlay(t.fast, rest);
      } else {
        OverlayDrop(v.fast, rest, key);
        CachedDrop(Overlay(v.fast, rest), v.ekey, {}, key);
      }
  }

  // --------------------------------------------------------------------- setting

  /** What _insertFastKey keeps, and what it leaves out. */
  lemma InsertedMeans(fast: Deadlines, key: bytes, ts: int)
    ensures var (f, out) := (Inserted(fast, key, ts), LeftOut(fast, key, ts));
            && (forall j :: j in f && j != key ==> j in fast && f[j] == fast[j])
            && (key in f ==> f[key] == ts && Admits(fast, ts))
            && (forall j :: j in fast && j != key && j !in f ==> out == Some(Item(fast[j], j)))
            && (key !in f ==> out == Some(Item(ts, key)))
            && (out.Some? ==> out.value.key !in f && (forall j :: j in f ==> f[j] <= out.value.score)
                              && (out.value.key == key ==> out.value.score == ts)
                              && (out.value.key != key ==> out.value.key in fast && fast[out.value.key] == out.value.score))
  {
    hide Before;
    if Admits(fast, ts) {
      var g := fast[key := ts];
      forall j | j in g ensures g[j] <= g[Latest(g)] { LatestBounds(g, j); }
    } else {
      forall j | j in fast ensures fast[j] < ts { LatestBounds(fast, j); }
    }
  }

  lemma CachedPut(fast: Deadlines, ekey: Deadlines, doomed: set<bytes>, key: bytes, ts: int)
    requires Cached(fast, ekey, doomed)
    ensures Cached(Inserted(fast, key, ts), ekey[key := ts], doomed)
  {
    hide Inserted, LeftOut, Admits;
    InsertedMeans(fast, key, ts);
    var (f, e) := (Inserted(fast, key, ts), ekey[key := ts]);
    forall k, j | k in e && k !in doomed && k !in f && j in f ensures f[j] <= e[k] {
      if k != key && k !in fast && j == key { AdmittedBelow(fast, ts, ekey, k, doomed); }
    }
  }

  /** An admitted deadline lies below every stored one outside the cache. */
  lemma AdmittedBelow(fast: Deadlines, ts: int, ekey: Deadlines, k: bytes, doomed: set<bytes>)
    requires Admits(fast, ts) && Cached(fast, ekey, doomed) && k in ekey && k !in doomed && k !in fast
    ensures ts <= ekey[k]
  {
    assert Latest(fast) in fast;
  }

  lemma WakesPut(first: int, ekey: Deadlines, doomed: set<bytes>, key: bytes, ts: int)
    requires Wakes(first, ekey, doomed)
    ensures Wakes(Min(ts, first), ekey[key := ts], doomed)
  {}

  ghost predicate Loaded(fast: Deadlines, rest: seq<Item>, ekey: Deadlines) {
    Distinct(rest) && Agrees(fast, ekey) && Cached(Overlay(fast, rest), ekey, {})
  }

  lemma LoadPutAgrees(fast: Deadlines, rest: seq<Item>, ekey: Deadlines, key: bytes, ts: int)
    requires Loaded(fast, rest, ekey)
    ensures Agrees(Inserted(fast, key, ts), ekey[key := ts])
    ensures Agrees(Overlay(Inserted(fast, key, ts), rest), ekey[key := ts]) <==>
            forall i {:trigger rest[i]} :: 0 <= i < |rest| && rest[i].key == key ==> rest[i].score == ts
  {
    hide Overlay, Inserted, LeftOut, Admits, Distinct, Named, Cached;
    InsertedMeans(fast, key, ts);
    var f := Inserted(fast, key, ts);
    OverlayMeans(f, rest);
    var (o, e) := (Overlay(f, rest), ekey[key := ts]);
    if forall i {:trigger rest[i]} :: 0 <= i < |rest| && rest[i].key == key ==> rest[i].score == ts {
      forall k | k in o ensures k in e && e[k] == o[k] {
        if Named(rest, k) { LoadNamed(fast, f, rest, ekey, key, ts, k); }
      }
    }
  }

  lemma LoadNamed(fast: Deadlines, f: Deadlines, rest: seq<Item>, ekey: Deadlines, key: bytes, ts: int, k: bytes)
    requires Loaded(fast, rest, ekey) && Named(rest, k)
    requires forall i {:trigger rest[i]} :: 0 <= i < |rest| && rest[i].key == key ==> rest[i].score == ts
    ensures k in Overlay(f, rest) && k in ekey && Overlay(f, rest)[k] == ekey[key := ts][k]
  {
    hide Overlay, Distinct;
    OverlayNamed(fast, f, rest, k);
    OverlayMeans(f, rest);
    var i :| 0 <= i < |rest| && rest[i].key == k;
    assert Overlay(f, rest)[k] == rest[i].score;
  }

  lemma LoadPutComplete(fast: Deadlines, rest: seq<Item>, ekey: Deadlines, key: bytes, ts: int, k: bytes, j: bytes)
    requires Loaded(fast, rest, ekey)
    requires var o := Overlay(Inserted(fast, key, ts), rest);
             k in ekey[key := ts] && k !in o && j in o && (j == key && Named(rest, key) ==> o[j] == ts)
    requires var out := LeftOut(fast, key, ts);
             out.None? || Named(rest, out.value.key)
             || forall i {:trigger rest[i]} :: 0 <= i < |rest| ==> rest[i].score <= out.value.score
    ensures Overlay(Inserted(fast, key, ts), rest)[j] <= ekey[key := ts][k]
  {
    hide Overlay, Inserted, LeftOut, Admits, Distinct;
    InsertedMeans(fast, key, ts);
    var f := Inserted(fast, key, ts);
    OverlayMeans(fast, rest);
    OverlayMeans(f, rest);
    if Named(rest, j) {
      OverlayNamed(fast, f, rest, j);
      var i :| 0 <= i < |rest| && rest[i].key == j;
    }
    if k != key && k !in fast && j == key && !Named(rest, j) { AdmittedOutside(fast, rest, ekey, ts, k); }
  }

  lemma AdmittedOutside(fast: Deadlines, rest: seq<Item>, ekey: Deadlines, ts: int, k: bytes)
    requires Loaded(fast, rest, ekey) && Admits(fast, ts) && k in ekey && k !in fast && !Named(rest, k)
    ensures ts <= ekey[k]
  {
    hide Overlay, Distinct;
    OverlayMeans(fast, rest);
    var l := Latest(fast);
    assert l in Overlay(fast, rest) && k !in Overlay(fast, rest);
    assert Overlay(fast, rest)[l] == ekey[l] == fast[l];
  }

  /** The other half: an entry left out that lies before one still to be added. */
  lemma LoadPutGap(fast: Deadlines, rest: seq<Item>, ekey: Deadlines, key: bytes, ts: int)
    requires Loaded(fast, rest, ekey) && Cached(Overlay(Inserted(fast, key, ts), rest), ekey[key := ts], {})
    ensures var out := LeftOut(fast, key, ts);
            out.None? || Named(rest, out.value.key)
            || forall i {:trigger rest[i]} :: 0 <= i < |rest| ==> rest[i].score <= out.value.score
  {
    hide Overlay, Inserted, LeftOut, Admits, Distinct;
    InsertedMeans(fast, key, ts);
    OverlayMeans(fast, rest);
    OverlayMeans(Inserted(fast, key, ts), rest);
    var (o, e) := (Overlay(Inserted(fast, key, ts), rest), ekey[key := ts]);
    var out := LeftOut(fast, key, ts);
    if out.Some? && !Named(rest, out.value.key) {
      var y := out.value;
      assert y.key !in o && y.key in e && e[y.key] == y.score;
      forall i | 0 <= i < |rest| ensures rest[i].score <= y.score { assert o[rest[i].key] <= e[y.key]; }
    }
  }

  lemma LoadPutExact(fast: Deadlines, rest: seq<Item>, ekey: Deadlines, key: bytes, ts: int)
    requires Loaded(fast, rest, ekey)
    ensures Cached(Overlay(Inserted(fast, key, ts), rest), ekey[key := ts], {}) <==>
            && (forall i {:trigger rest[i]} :: 0 <= i < |rest| && rest[i].key == key ==> rest[i].score == ts)
            && (var out := LeftOut(fast, key, ts);
                out.None? || Named(rest, out.value.key)
                || forall i {:trigger rest[i]} :: 0 <= i < |rest| ==> rest[i].score <= out.value.score)
  {
    hide Overlay, Inserted, LeftOut, Distinct, Named;
    LoadPutAgrees(fast, rest, ekey, key, ts);
    var (o, e) := (Overlay(Inserted(fast, key, ts), rest), ekey[key := ts]);
    var out := LeftOut(fast, key, ts);
    if Cached(o, e, {}) {
      LoadPutGap(fast, rest, ekey, key, ts);
    } else if Agrees(o, e) && (out.None? || Named(rest, out.value.key)
                               || forall i {:trigger rest[i]} :: 0 <= i < |rest| ==> rest[i].score <= out.value.score) {
      forall k, j | k in e && k !in o && j in o ensures o[j] <= e[k] {
        LoadPutComplete(fast, rest, ekey, key, ts, k, j);
      }
    }
  }

  /** Setting a deadline keeps the invariant exactly if it is clean. */
  lemma PutExact(v: View, key: bytes, ts: int)
    requires Inv(v) && key in v.live
    ensures Inv(v.(fast := Inserted(v.fast, key, ts), first := Min(ts, v.first), ekey := v.ekey[key := ts]))
            <==> CleanPut(v, key, ts)
  {
    hide Overlay, Inserted, LeftOut, Distinct, Named, Cached, Wakes, Min;
    var t := v.(fast := Inserted(v.fast, key, ts), first := Min(ts, v.first), ekey := v.ekey[key := ts]);
    assert t.ekey.Keys <= t.live && key in t.ekey;
    match v.phase
    case Resting =>
      CachedPut(v.fast, v.ekey, {}, key, ts);
      WakesPut(v.first, v.ekey, {}, key, ts);
    case Deleting(doomed, at) =>
      CachedPut(v.fast, v.ekey, doomed, key, ts);
      WakesPut(v.first, v.ekey, doomed, key, ts);
    case Loading(rest) =>
      WakesPut(v.first, v.ekey, {}, key, ts);
      LoadPutAgrees(v.fast, rest, v.ekey, key, ts);
      LoadPutExact(v.fast, rest, v.ekey, key, ts);
  }

  /** Making a missing key keeps the invariant exactly if it is clean. */
  lemma CreateExact(v: View, key: bytes)
    requires Inv(v)
    ensures Inv(v.(live := v.live + {key})) <==> (key !in v.live ==> CleanCreate(v, key))
  {
    hide Cached, Wakes, Overlay, Distinct, Agrees;
  }

  /** A command keeps the invariant if and only if it is clean. */
  lemma CommandExact(v: View, c: Command)
    requires Inv(v)
    ensures Inv(Apply(v, c)) <==> Clean(v, c)
  {
    hide Inv, CleanDrop, CleanPut, Inserted, Min;
    match c
    case Set(k) => DropExact(v, k, v.live + {k});
    case Create(k) => CreateExact(v, k);
    case Delete(k) => DropExact(v, k, v.live - {k});
    case Persist(k) =>
      DropExact(v, k, v.live);
      assert Cancel(v, k).(live := v.live) == Cancel(v, k);
    case ExpireAt(k, ts, now) =>
      DropExact(v, k, v.live - {k});
      if k in v.live { PutExact(v, k, ts); }
  }

  // ----------------------------------------------------------- steps of the thread

  /** A snapshot of the first deadlines, added undisturbed, is a sound cache. */
  lemma BeginKeeps(v: View, rest: seq<Item>)
    requires Inv(v) && Enabled(v, Begin(rest))
    ensures Inv(Take(v, Begin(rest)))
  {
    hide Overlay, Distinct, Wakes;
    OverlayMeans(v.fast, rest);
    var o := Overlay(v.fast, rest);
    forall k | k in o ensures k in v.ekey && v.ekey[k] == o[k] {
      var i :| 0 <= i < |rest| && rest[i].key == k;
    }
    forall k, j | k in v.ekey && k !in o && j in o ensures o[j] <= v.ekey[k] {
      var i :| 0 <= i < |rest| && rest[i].key == j;
      assert Item(v.ekey[k], k) !in rest;
    }
    assert rest != [] ==> rest[0].key in o;
  }

  lemma AddKeeps(v: View)
    requires Inv(v) && Enabled(v, AddOne)
    ensures Inv(Take(v, AddOne))
  {
    hide Cached, Wakes;
    var (t, rest) := (Take(v, AddOne), v.phase.rest);
    assert Overlay(t.fast, t.phase.rest) == Overlay(v.fast, rest);
    AddAgrees(v.fast, rest, v.ekey);
  }

  lemma AddAgrees(fast: Deadlines, rest: seq<Item>, ekey: Deadlines)
    requires rest != [] && Distinct(rest) && Agrees(fast, ekey) && Cached(Overlay(fast, rest), ekey, {})
    ensures Agrees(fast[rest[0].key := rest[0].score], ekey)
  {
    hide Overlay, Distinct;
    OverlayMeans(fast, rest);
    assert rest[0].key in Overlay(fast, rest);
  }

  /** The end of a load: an empty cache puts the thread to sleep for good, which is right
      because then there is no deadline. */
  lemma FinishKeeps(v: View)
    requires Inv(v) && Enabled(v, Finish)
    ensures Inv(Take(v, Finish))
  {
    assert Overlay(v.fast, v.phase.rest) == v.fast;
  }

  /** Whatever came before: the end of a load leaves the wake-up time early enough exactly
      if the cache is not empty or no deadline below INT64_MAX is stored. */
  lemma FinishExact(v: View)
    requires Enabled(v, Finish) && Wakes(v.first, v.ekey, {})
    ensures Wakes(Take(v, Finish).first, v.ekey, {}) <==>
            v.fast != map[] || forall k :: k in v.ekey ==> v.ekey[k] >= INT64_MAX
  {}

  /** The cache stays complete below its maximum, and what has been popped is due. */
  ghost predicate PopOk(p: Popped, ekey: Deadlines, now: int) {
    && Cached(p.fast, ekey, p.doomed) && Wakes(p.first, ekey, p.doomed)
    && forall k :: k in p.doomed ==> k in ekey && ekey[k] <= now
  }

  lemma {:induction false} PopsOk(p: Popped, ekey: Deadlines, now: int, n: nat)
    requires PopOk(p, ekey, now)
    ensures PopOk(Pops(p, now, n), ekey, now)
    decreases n
  {
    hide Before;
    if n > 0 && p.fast != map[] {
      var k := Earliest(p.fast);
      forall j | j in p.fast ensures p.fast[k] <= p.fast[j] { EarliestBounds(p.fast, j); }
      FrontWakes(p.fast, ekey, p.doomed, p.fast[k]);
      if p.fast[k] <= now { PopsOk(Popped(p.fast - {k}, p.fast[k], p.doomed + {k}), ekey, now, n - 1); }
    }
  }

  lemma FrontWakes(fast: Deadlines, ekey: Deadlines, doomed: set<bytes>, score: int)
    requires Cached(fast, ekey, doomed) && fast != map[] && forall k :: k in fast ==> score <= fast[k]
    ensures Wakes(score, ekey, doomed)
  {
    var j :| j in fast;
  }

  lemma PopKeeps(v: View, now: int)
    requires Inv(v) && Enabled(v, Pop(now))
    ensures Inv(Take(v, Pop(now)))
  {
    hide Pops;
    PopsOk(Popped(v.fast, v.first, {}), v.ekey, now, POP_LIMIT);
  }

  lemma EraseKeeps(v: View)
    requires Inv(v) && Enabled(v, Erase)
    ensures Inv(Take(v, Erase))
  {
    var t := Take(v, Erase);
    assert forall k :: k in t.fast ==> k in v.fast && k !in v.phase.doomed;
  }

  ghost predicate CleanStep(v: View, step: Step) { step.Cmd? ==> Clean(v, step.c) }

  /** A step keeps the invariant if and only if it is a thread step or a clean command. */
  lemma StepExact(v: View, step: Step)
    requires Inv(v) && Enabled(v, step)
    ensures Inv(Take(v, step)) <==> CleanStep(v, step)
  {
    hide Inv, Clean, Apply, IsBatch, Pops;
    match step
    case Cmd(c) => CommandExact(v, c);
    case Begin(rest) => BeginKeeps(v, rest);
    case AddOne => AddKeeps(v);
    case Finish => FinishKeeps(v);
    case Pop(now) => PopKeeps(v, now);
    case Erase => EraseKeeps(v);
  }

  // ------------------------------------------------------------------ whole runs

  ghost predicate IsRun(v: View, steps: seq<Step>)
    decreases |steps|
  {
    steps == [] || (Enabled(v, steps[0]) && IsRun(Take(v, steps[0]), steps[1..]))
  }

  ghost function After(v: View, steps: seq<Step>): View
    requires IsRun(v, steps)
    decreases |steps|
  {
    if steps == [] then v else After(Take(v, steps[0]), steps[1..])
  }

  ghost predicate AllClean(v: View, steps: seq<Step>)
    requires IsRun(v, steps)
    decreases |steps|
  {
    steps == [] || (CleanStep(v, steps[0]) && AllClean(Take(v, steps[0]), steps[1..]))
  }

  ghost predicate AllInv(v: View, steps: seq<Step>)
    requires IsRun(v, steps)
    decreases |steps|
  {
    Inv(v) && (steps == [] || AllInv(Take(v, steps[0]), steps[1..]))
  }

  /** In every order of commands and thread steps the invariant holds all along if and
      only if every command was clean when it came. */
  lemma {:induction false} RunExact(v: View, steps: seq<Step>)
    requires Inv(v) && IsRun(v, steps)
    ensures AllInv(v, steps) <==> AllClean(v, steps)
    ensures AllClean(v, steps) ==> Inv(After(v, steps))
    decreases |steps|
  {
    hide Inv, Enabled, Take, CleanStep;
    if steps != [] {
      StepExact(v, steps[0]);
      var t := Take(v, steps[0]);
      if CleanStep(v, steps[0]) {
        RunExact(t, steps[1..]);
      } else {
        assert !AllInv(t, steps[1..]);
      }
    }
  }

  // ------------------------------------------------------------- what it is worth

  ghost predicate BelowMax(ekey: Deadlines) { forall k :: k in ekey ==> ekey[k] < INT64_MAX }

  /** The thread sleeps only while no key is due. */
  lemma SleepIsSafe(v: View, now: int)
    requires Inv(v) && !v.phase.Deleting? && v.first > now
    ensures forall k :: k in v.ekey ==> !Due(v, k, now)
  {}

  /** Only due keys are deleted. */
  lemma EraseOnlyDue(v: View, k: bytes)
    requires Inv(v) && Enabled(v, Erase) && k in v.live && k !in Take(v, Erase).live
    ensures Due(v, k, v.phase.at)
  {}

  /** PERSIST without a lookup misses nothing. */
  lemma PersistRight(v: View, key: bytes)
    requires Inv(v) && BelowMax(v.ekey) && (!v.phase.Deleting? || v.first < INT64_MAX)
    ensures key !in Apply(v, Persist(key)).ekey
  {}

  /** In a deletion the lookup always takes place: popping leaves a wake-up time that is
      some deadline, and commands only lower it. */
  lemma {:induction false} PopsArm(p: Popped, ekey: Deadlines, now: int, n: nat)
    requires PopOk(p, ekey, now) && BelowMax(ekey) && (p.doomed != {} ==> p.first < INT64_MAX)
    ensures var q := Pops(p, now, n); q.doomed != {} ==> q.first < INT64_MAX
    decreases n
  {
    hide Before;
    if n > 0 && p.fast != map[] {
      var k := Earliest(p.fast);
      if p.fast[k] <= now {
        forall j | j in p.fast ensures p.fast[k] <= p.fast[j] { EarliestBounds(p.fast, j); }
        FrontWakes(p.fast, ekey, p.doomed, p.fast[k]);
        PopsArm(Popped(p.fast - {k}, p.fast[k], p.doomed + {k}), ekey, now, n - 1);
      }
    }
  }

  lemma PopArms(v: View, now: int)
    requires Inv(v) && Enabled(v, Pop(now)) && BelowMax(v.ekey)
    ensures var t := Take(v, Pop(now)); t.phase.doomed != {} ==> t.first < INT64_MAX
  {
    hide Pops;
    PopsArm(Popped(v.fast, v.first, {}), v.ekey, now, POP_LIMIT);
  }

  // ------------------------------------------- commands between popping and deleting

  ghost function Commands(v: View, cmds: seq<Command>): View
    decreases |cmds|
  {
    if cmds == [] then v else Apply(Commands(v, cmds[..|cmds| - 1]), cmds[|cmds| - 1])
  }

  /** What the commands make of a key that is live and due: still due, not due, or
      gone. */
  datatype Fate = StillDue | PutOff | Gone

  ghost function Next(f: Fate, c: Command, now: int): Fate {
    match c
    case Set(_) => PutOff
    case Create(_) => if f == Gone then PutOff else f
    case Delete(_) => Gone
    case Persist(_) => if f == Gone then Gone else PutOff
    case ExpireAt(_, ts, at) => if f == Gone || ts <= at then Gone else if ts <= now then StillDue else PutOff
  }

  /** The fate of a key depends on the commands that name it and on nothing else. */
  ghost function FateOf(cmds: seq<Command>, k: bytes, now: int): Fate
    decreases |cmds|
  {
    if cmds == [] then StillDue else
    var (c, f) := (cmds[|cmds| - 1], FateOf(cmds[..|cmds| - 1], k, now));
    if c.key == k then Next(f, c, now) else f
  }

  ghost predicate Meets(v: View, k: bytes, now: int, f: Fate) {
    match f
    case StillDue => k in v.live && Due(v, k, now)
    case PutOff => k in v.live && !Due(v, k, now)
    case Gone => k !in v.live
  }

  lemma FateStep(v: View, c: Command, k: bytes, now: int, f: Fate)
    requires v.ekey.Keys <= v.live && v.first < INT64_MAX && Meets(v, k, now, f)
    ensures var w := Apply(v, c);
            && w.ekey.Keys <= w.live && w.first < INT64_MAX && w.phase == v.phase
            && Meets(w, k, now, if c.key == k then Next(f, c, now) else f)
  {
    hide Inserted;
  }

  lemma {:induction false} WindowKey(v: View, cmds: seq<Command>, k: bytes, now: int)
    requires v.ekey.Keys <= v.live && Due(v, k, now) && v.first < INT64_MAX
    ensures var w := Commands(v, cmds);
            && w.ekey.Keys <= w.live && w.first < INT64_MAX && Meets(w, k, now, FateOf(cmds, k, now))
    decreases |cmds|
  {
    hide Apply, Meets, Next;
    if cmds == [] {
      assert Meets(v, k, now, StillDue) by { DueMeets(v, k, now); }
    } else {
      var n := |cmds| - 1;
      WindowKey(v, cmds[..n], k, now);
      FateStep(Commands(v, cmds[..n]), cmds[n], k, now, FateOf(cmds[..n], k, now));
    }
  }

  lemma DueMeets(v: View, k: bytes, now: int)
    requires v.ekey.Keys <= v.live && Due(v, k, now)
    ensures Meets(v, k, now, StillDue)
  {}

  /** Whatever commands land between the pop and the deletion: a key that is not due is
      deleted if and only if the commands on some popped key put it off, by a SET, a
      PERSIST, an EXPIRE to a later time, or by making it anew after deleting it. */
  lemma WindowExact(v: View, cmds: seq<Command>, now: int)
    requires v.phase.Deleting? && v.first < INT64_MAX && v.phase.at <= now && v.ekey.Keys <= v.live
    requires forall k :: k in v.phase.doomed ==> Due(v, k, v.phase.at)
    ensures var w := Commands(v, cmds);
            && w.phase == v.phase
            && ((exists k :: k in w.live && k !in Take(w, Erase).live && !Due(w, k, now)) <==>
                exists k :: k in v.phase.doomed && FateOf(cmds, k, now) == PutOff)
  {
    hide Commands, FateOf;
    var w := Commands(v, cmds);
    SamePhase(v, cmds);
    forall k | k in v.phase.doomed
      ensures FateOf(cmds, k, now) == PutOff <==> k in w.live && !Due(w, k, now)
    {
      WindowKey(v, cmds, k, now);
    }
    if k :| k in w.live && k !in Take(w, Erase).live && !Due(w, k, now) {
      assert k in v.phase.doomed && FateOf(cmds, k, now) == PutOff;
    }
    if k :| k in v.phase.doomed && FateOf(cmds, k, now) == PutOff {
      assert k !in Take(w, Erase).live;
    }
  }

  lemma {:induction false} SamePhase(v: View, cmds: seq<Command>)
    ensures Commands(v, cmds).phase == v.phase
    decreases |cmds|
  {
    hide Inserted;
    if cmds != [] { SamePhase(v, cmds[..|cmds| - 1]); }
  }

  /** The window as the thread opens it. */
  lemma WindowOpens(v: View, now: int)
    requires Inv(v) && Enabled(v, Pop(now)) && BelowMax(v.ekey)
    ensures var t := Take(v, Pop(now));
            && t.phase.at == now && (forall k :: k in t.phase.doomed ==> Due(t, k, now) && k in t.live)
            && (t.phase.doomed != {} ==> t.first < INT64_MAX)
  {
    hide Pops;
    PopArms(v, now);
    PopsOk(Popped(v.fast, v.first, {}), v.ekey, now, POP_LIMIT);
  }

  // ------------------------------------------------------- commands inside a load

  /** An EXPIRE that lands in the load of an empty index is never woken for, and PERSIST
      then leaves the deadline in place. */
  lemma LostDeadline(key: bytes, ts: int, now: int)
    requires ts <= now < INT64_MAX
    ensures var v := View(map[], 0, map[], {key}, Resting);
            var steps := [Begin([]), Cmd(ExpireAt(key, ts, ts - 1)), Finish];
            && Inv(v) && IsRun(v, steps)
            && var w := After(v, steps);
               Due(w, key, now) && w.first > now && key in Apply(w, Persist(key)).ekey
  {
    var v := View(map[], 0, map[], {key}, Resting);
    var c := Cmd(ExpireAt(key, ts, ts - 1));
    var steps := [Begin([]), c, Finish];
    assert steps[1..] == [c, Finish] && [c, Finish][1..] == [Finish] && [Finish][1..] == [];
    var v1 := v.(phase := Loading([]));
    var v2 := v1.(first := Min(ts, 0), ekey := map[key := ts]);
    assert Take(v, Begin([])) == v1;
    assert Inserted(map[], key, ts) == map[];
    assert Take(v1, c) == v2;
    var v3 := Take(v2, Finish);
    assert IsRun(v3, []) && After(v3, []) == v3;
    assert IsRun(v2, [Finish]) && After(v2, [Finish]) == v3;
    assert IsRun(v1, [c, Finish]) && After(v1, [c, Finish]) == v3;
    assert IsRun(v, steps) && After(v, steps) == v3;
  }

  /** A PERSIST that lands between the snapshot and the addition of its key leaves a stale
      entry, which deletes the key. */
  lemma StaleEntry(key: bytes, ts: int)
    requires 0 < ts < INT64_MAX
    ensures var v := View(map[], 0, map[key := ts], {key}, Resting);
            var steps := [Begin([Item(ts, key)]), Cmd(Persist(key)), AddOne, Finish];
            && Inv(v) && IsRun(v, steps)
            && var w := After(v, steps);
               key in w.live && key !in w.ekey && w.fast == map[key := ts] && w.phase.Resting?
  {
    var x := Item(ts, key);
    var v := View(map[], 0, map[key := ts], {key}, Resting);
    var (s1, s2, s3) := ([Cmd(Persist(key)), AddOne, Finish], [AddOne, Finish], [Finish]);
    var steps := [Begin([x]), Cmd(Persist(key)), AddOne, Finish];
    assert steps[1..] == s1 && s1[1..] == s2 && s2[1..] == s3 && s3[1..] == [];
    var v1 := v.(phase := Loading([x]));
    var v2 := v1.(ekey := map[]);
    var v3 := v2.(fast := map[key := ts], phase := Loading([]));
    assert IsBatch(v.ekey, [x]);
    assert Take(v, Begin([x])) == v1 && Take(v1, Cmd(Persist(key))) == v2;
    assert [x][1..] == [];
    assert Take(v2, AddOne) == v3;
    var v4 := Take(v3, Finish);
    assert IsRun(v4, []) && After(v4, []) == v4;
    assert IsRun(v3, s3) && After(v3, s3) == v4;
    assert IsRun(v2, s2) && After(v2, s2) == v4;
    assert IsRun(v1, s1) && After(v1, s1) == v4;
    assert IsRun(v, steps) && After(v, steps) == v4;
  }
}
