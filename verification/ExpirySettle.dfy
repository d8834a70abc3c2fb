/** The invariant of ExpirySafety asks for nothing beyond its purpose: a command is clean
    exactly if the thread, left alone from then on, ends up with a sound cache and an
    early enough wake-up time and has deleted only keys that were due. */
module ExpirySettle {
  import opened Bytes
  import opened SortedSets
  import opened ExpirySpec
  import opened ExpirySafety

  /** Where the thread gets when it finishes what it is at, undisturbed. */
  ghost function Settled(v: View): View {
    match v.phase
    case Resting => v
    case Loading(rest) =>
      var f := Overlay(v.fast, rest);
      v.(fast := f, first := if f == map[] then INT64_MAX else v.first, phase := Resting)
    case Deleting(_, _) => Take(v, Erase)
  }

  ghost predicate ThreadOnly(steps: seq<Step>) { forall i :: 0 <= i < |steps| ==> !steps[i].Cmd? }

  lemma {:induction false} LoadRun(v: View) returns (steps: seq<Step>)
    requires v.phase.Loading?
    ensures ThreadOnly(steps) && IsRun(v, steps) && After(v, steps) == Settled(v)
    decreases |v.phase.rest|
  {
    if v.phase.rest == [] {
      steps := [Finish];
      var t := Take(v, Finish);
      assert steps[1..] == [] && IsRun(t, []) && After(t, []) == t;
    } else {
      var rest := LoadRun(Take(v, AddOne));
      steps := [AddOne] + rest;
      assert steps[1..] == rest;
    }
  }

  /** Settled is reached by steps of the thread alone. */
  lemma SettledIsRun(v: View) returns (steps: seq<Step>)
    ensures ThreadOnly(steps) && IsRun(v, steps) && After(v, steps) == Settled(v)
  {
    match v.phase
    case Resting => steps := [];
    case Loading(_) => steps := LoadRun(v);
    case Deleting(_, _) =>
      steps := [Erase];
      var t := Take(v, Erase);
      assert steps[1..] == [] && IsRun(t, []) && After(t, []) == t;
  }

  /** What the thread is for. */
  ghost predicate Good(v: View) {
    var t := Settled(v);
    && v.ekey.Keys <= v.live && Cached(t.fast, t.ekey, {}) && Wakes(t.first, t.ekey, {})
    && (forall k :: k in v.live && k !in t.live ==> v.phase.Deleting? && Due(v, k, v.phase.at))
  }

  lemma InvGood(v: View)
    requires Inv(v)
    ensures Good(v)
  {
    hide Cached, Overlay;
    if v.phase.Deleting? { EraseKeeps(v); }
  }

  /** What any command keeps, clean or not. */
  ghost predicate Remains(v: View) {
    && v.ekey.Keys <= v.live
    && match v.phase
       case Resting => true
       case Loading(rest) => Distinct(rest) && Agrees(v.fast, v.ekey) && Wakes(v.first, v.ekey, {})
       case Deleting(doomed, _) => Cached(v.fast, v.ekey, doomed) && Wakes(v.first, v.ekey, doomed)
  }

  lemma RemainsDrop(v: View, key: bytes, live: set<bytes>)
    requires Inv(v) && (forall k :: k != key ==> (k in live <==> k in v.live))
    ensures Remains(Cancel(v, key).(live := live))
  {
    hide Overlay, Distinct;
    if v.phase.Deleting? { CachedDrop(v.fast, v.ekey, v.phase.doomed, key); }
  }

  lemma RemainsPut(v: View, key: bytes, ts: int)
    requires Inv(v) && key in v.live
    ensures Remains(v.(fast := Inserted(v.fast, key, ts), first := Min(ts, v.first), ekey := v.ekey[key := ts]))
  {
    hide Overlay, Inserted, Distinct, Cached, Wakes, Min;
    match v.phase
    case Resting =>
    case Loading(rest) =>
      WakesPut(v.first, v.ekey, {}, key, ts);
      LoadPutAgrees(v.fast, rest, v.ekey, key, ts);
    case Deleting(doomed, _) =>
      CachedPut(v.fast, v.ekey, doomed, key, ts);
      WakesPut(v.first, v.ekey, doomed, key, ts);
  }

  lemma InvRemains(v: View)
    requires Inv(v)
    ensures Remains(v)
  {
    hide Overlay, Distinct, Cached, Wakes;
  }

  lemma RemainsCreate(v: View, key: bytes)
    requires Inv(v)
    ensures Remains(v.(live := v.live + {key}))
  {
    hide Overlay, Distinct, Cached, Wakes, Agrees;
  }

  lemma CommandRemains(v: View, c: Command)
    requires Inv(v)
    ensures Remains(Apply(v, c))
  {
    hide Inv, Remains, Inserted, Min;
    InvRemains(v);
    match c
    case Set(k) => RemainsDrop(v, k, v.live + {k});
    case Create(k) => RemainsCreate(v, k);
    case Delete(k) => RemainsDrop(v, k, v.live - {k});
    case Persist(k) =>
      RemainsDrop(v, k, v.live);
      assert Cancel(v, k).(live := v.live) == Cancel(v, k);
    case ExpireAt(k, ts, now) =>
      RemainsDrop(v, k, v.live - {k});
      if k in v.live { RemainsPut(v, k, ts); }
  }

  lemma GoodInv(v: View)
    requires Remains(v) && Good(v) && BelowMax(v.ekey)
    ensures Inv(v)
  {
    hide Overlay, Distinct, Agrees;
  }

  /** A command leaves things good if and only if it is clean. */
  lemma CommandGood(v: View, c: Command)
    requires Inv(v) && BelowMax(Apply(v, c).ekey)
    ensures Good(Apply(v, c)) <==> Clean(v, c)
  {
    hide Inv, Good, Remains, Apply, Clean;
    CommandExact(v, c);
    CommandRemains(v, c);
    var t := Apply(v, c);
    if Clean(v, c) { InvGood(t); }
    if Good(t) { GoodInv(t); }
  }

  /** INT64_MAX stands for no deadline at all. */
  ghost predicate Bounded(step: Step) { step.Cmd? && step.c.ExpireAt? ==> step.c.ts < INT64_MAX }

  lemma BoundedKeeps(v: View, step: Step)
    requires BelowMax(v.ekey) && Enabled(v, step) && Bounded(step)
    ensures BelowMax(Take(v, step).ekey)
  {
    hide Inserted, Pops, IsBatch;
  }

  ghost predicate AllGood(v: View, steps: seq<Step>)
    requires IsRun(v, steps)
    decreases |steps|
  {
    Good(v) && (steps == [] || AllGood(Take(v, steps[0]), steps[1..]))
  }

  /** In every order of commands and thread steps: things are good all along if and only
      if every command was clean when it came. */
  lemma {:induction false} RunGood(v: View, steps: seq<Step>)
    requires Inv(v) && BelowMax(v.ekey) && IsRun(v, steps)
    requires forall i :: 0 <= i < |steps| ==> Bounded(steps[i])
    ensures AllGood(v, steps) <==> AllClean(v, steps)
    decreases |steps|
  {
    hide Inv, Good, Enabled, Take, Bounded, Clean, BelowMax;
    InvGood(v);
    if steps != [] {
      var (t, step) := (Take(v, steps[0]), steps[0]);
      BoundedKeeps(v, step);
      StepGood(v, step);
      if CleanStep(v, step) {
        StepExact(v, step);
        RunGood(t, steps[1..]);
      } else {
        assert !AllGood(t, steps[1..]);
      }
    }
  }

  lemma StepGood(v: View, step: Step)
    requires Inv(v) && Enabled(v, step) && BelowMax(Take(v, step).ekey)
    ensures Good(Take(v, step)) <==> CleanStep(v, step)
  {
    hide Inv, Good, Clean, Apply, IsBatch, Pops;
    if step.Cmd? {
      CommandGood(v, step.c);
    } else {
      StepExact(v, step);
      InvGood(Take(v, step));
    }
  }
}
