/** util/thread.h: one reference-counted mutex for every key that is locked or
    waited for. RecordLock objects are the agents; their steps interleave freely. */
module RecordLock {
  import opened Bytes
  import opened Options

  type Agent = nat

  /** The address of a RefMutex; freed addresses may be handed out again. */
  type Ref = nat

  /** kEstimatePairSize. */
  const PAIR_SIZE: nat := 80

  datatype RefMutex = RefMutex(refs: int, owner: Option<Agent>)

  /** Where an agent that is not idle stands. Releasing is the inside of Unlock,
      after the key's mutex has been given up and before the reference is. */
  datatype Phase =
    | Waiting(key: bytes, ref: Ref)
    | Holding(key: bytes, ref: Ref)
    | Releasing(key: bytes, ref: Ref)

  datatype State = State(
    agents: map<Agent, Phase>,
    records: map<bytes, Ref>,
    heap: map<Ref, RefMutex>,
    charge: int,
    inside: Option<Agent>)      // who has mutex_ in the middle of Unlock

  const Empty := State(map[], map[], map[], 0, None)

  datatype Step =
    | Enter(a: Agent, key: bytes, fresh_: Ref)
    | Acquire(a: Agent)
    | BeginUnlock(a: Agent)
    | EndUnlock(a: Agent)

  ghost predicate Enabled(s: State, step: Step) {
    match step
    case Enter(a, key, r) => a !in s.agents && s.inside == None && r !in s.heap
    case Acquire(a) => a in s.agents && s.agents[a].Waiting?
                       && (s.agents[a].ref in s.heap ==> s.heap[s.agents[a].ref].owner == None)
    case BeginUnlock(a) => a in s.agents && s.agents[a].Holding? && s.inside == None
    case EndUnlock(a) => a in s.agents && s.agents[a].Releasing?
  }

  /** Does the step touch only a mutex that has not been freed? */
  ghost predicate Safe(s: State, step: Step) {
    match step
    case Enter(a, key, r) => key in s.records ==> s.records[key] in s.heap
    case Acquire(a) => a in s.agents ==> s.agents[a].ref in s.heap
    case BeginUnlock(a) => a in s.agents ==> s.agents[a].key in s.records && s.records[s.agents[a].key] in s.heap
    case EndUnlock(a) => a in s.agents ==> s.agents[a].ref in s.heap
  }

  function Cost(key: bytes): nat { PAIR_SIZE + |key| }

  /** lockKeyInternal, up to the wait on the key's own mutex. */
  ghost function DoEnter(s: State, a: Agent, key: bytes, r: Ref): State
    requires key in s.records ==> s.records[key] in s.heap
  {
    if key in s.records then
      var q := s.records[key];
      var m := s.heap[q];
      s.(agents := s.agents[a := Waiting(key, q)], heap := s.heap[q := m.(refs := m.refs + 1)])
    else
      s.(agents := s.agents[a := Waiting(key, r)], records := s.records[key := r],
         heap := s.heap[r := RefMutex(1, None)], charge := s.charge + Cost(key))
  }

  ghost function DoAcquire(s: State, a: Agent): State
    requires a in s.agents && s.agents[a].ref in s.heap
  {
    var p := s.agents[a];
    s.(agents := s.agents[a := Holding(p.key, p.ref)], heap := s.heap[p.ref := s.heap[p.ref].(owner := Some(a))])
  }

  /** Unlock, which looks the key up again: the last reference takes the record away. */
  ghost function DoBeginUnlock(s: State, a: Agent): State
    requires a in s.agents && s.agents[a].key in s.records && s.records[s.agents[a].key] in s.heap
  {
    var key := s.agents[a].key;
    var q := s.records[key];
    var m := s.heap[q];
    var t := if m.refs == 1 then s.(records := s.records - {key}, charge := s.charge - Cost(key)) else s;
    t.(agents := s.agents[a := Releasing(key, q)], heap := s.heap[q := m.(owner := None)], inside := Some(a))
  }

  /** Unref frees the mutex when nobody refers to it. */
  ghost function DoEndUnlock(s: State, a: Agent): State
    requires a in s.agents && s.agents[a].ref in s.heap
  {
    var q := s.agents[a].ref;
    var m := s.heap[q];
    var t := s.(agents := s.agents - {a}, inside := None);
    if m.refs - 1 == 0 then t.(heap := s.heap - {q}) else t.(heap := s.heap[q := m.(refs := m.refs - 1)])
  }

  ghost function Apply(s: State, step: Step): State
    requires Enabled(s, step) && Safe(s, step)
  {
    match step
    case Enter(a, key, r) => DoEnter(s, a, key, r)
    case Acquire(a) => DoAcquire(s, a)
    case BeginUnlock(a) => DoBeginUnlock(s, a)
    case EndUnlock(a) => DoEndUnlock(s, a)
  }

  // ------------------------------------------------------------------- invariant

  ghost function Users(s: State, q: Ref): set<Agent> {
    set a | a in s.agents && s.agents[a].ref == q
  }

  /** An agent in the middle of Unlock that was the last to refer to its mutex. */
  ghost predicate Gone(s: State, p: Phase) { p.Releasing? && p.ref in s.heap && s.heap[p.ref].refs == 1 }

  /** Agents refer to allocated mutexes, and one at a time is inside Unlock. */
  ghost predicate AgentsOk(s: State) {
    && (forall a :: a in s.agents ==> s.agents[a].ref in s.heap && (s.agents[a].Releasing? <==> s.inside == Some(a)))
    && (s.inside.Some? ==> s.inside.value in s.agents)
  }

  /** They refer to the mutex filed under their key, unless its record is gone. */
  ghost predicate FiledOk(s: State) {
    && (forall a :: a in s.agents && !Gone(s, s.agents[a]) ==>
          s.agents[a].key in s.records && s.records[s.agents[a].key] == s.agents[a].ref)
    && (forall a, k :: a in s.agents && Gone(s, s.agents[a]) && k in s.records ==> s.records[k] != s.agents[a].ref)
  }

  /** A mutex counts its users. */
  ghost predicate CountsOk(s: State) {
    forall q :: q in s.heap ==> s.heap[q].refs == |Users(s, q)| > 0
  }

  /** A mutex is owned by the agent that holds it. */
  ghost predicate OwnersOk(s: State) {
    && (forall q :: q in s.heap && s.heap[q].owner.Some? ==>
          var a := s.heap[q].owner.value; a in s.agents && s.agents[a].Holding? && s.agents[a].ref == q)
    && (forall a :: a in s.agents && s.agents[a].Holding? ==>
          s.agents[a].ref in s.heap && s.heap[s.agents[a].ref].owner == Some(a))
  }

  ghost predicate RecordsOk(s: State) {
    && (forall k :: k in s.records ==> s.records[k] in s.heap)
    && (forall k, l :: k in s.records && l in s.records && s.records[k] == s.records[l] ==> k == l)
    && s.charge == Total(s.records.Keys)
  }

  ghost predicate Inv(s: State) {
    AgentsOk(s) && FiledOk(s) && CountsOk(s) && OwnersOk(s) && RecordsOk(s)
  }

  ghost function Total(keys: set<bytes>): int
    decreases |keys|
  {
    if keys == {} then 0 else
    var k :| k in keys;
    Cost(k) + Total(keys - {k})
  }

  lemma {:induction false} TotalWithout(keys: set<bytes>, k: bytes)
    requires k in keys
    ensures Total(keys) == Cost(k) + Total(keys - {k})
    decreases |keys|
  {
    var x :| x in keys && Total(keys) == Cost(x) + Total(keys - {x});
    if x != k {
      TotalWithout(keys - {x}, k);
      TotalWithout(keys - {k}, x);
      assert keys - {x} - {k} == keys - {k} - {x};
    }
  }

  // ------------------------------------------------------- each step keeps it

  lemma UsersJoin(s: State, t: State, a: Agent)
    requires a !in s.agents && a in t.agents && t.agents == s.agents[a := t.agents[a]]
    ensures forall q {:trigger Users(t, q)} :: |Users(t, q)| == |Users(s, q)| + if t.agents[a].ref == q then 1 else 0
  {
    forall q ensures |Users(t, q)| == |Users(s, q)| + if t.agents[a].ref == q then 1 else 0 {
      assert Users(t, q) == Users(s, q) + if t.agents[a].ref == q then {a} else {};
      assert a !in Users(s, q);
    }
  }

  lemma UsersSame(s: State, t: State, a: Agent)
    requires a in s.agents && a in t.agents && t.agents == s.agents[a := t.agents[a]] && t.agents[a].ref == s.agents[a].ref
    ensures forall q :: Users(t, q) == Users(s, q)
  {
    forall q ensures Users(t, q) == Users(s, q) {}
  }

  lemma UsersLeave(s: State, t: State, a: Agent)
    requires a in s.agents && t.agents == s.agents - {a}
    ensures forall q {:trigger Users(t, q)} :: |Users(t, q)| == |Users(s, q)| - if s.agents[a].ref == q then 1 else 0
  {
    assert a in Users(s, s.agents[a].ref);
    forall q ensures |Users(t, q)| == |Users(s, q)| - if s.agents[a].ref == q then 1 else 0 {
      assert Users(t, q) == Users(s, q) - if s.agents[a].ref == q then {a} else {};
    }
  }

  /** No step of a reachable state touches a freed mutex. */
  lemma StepSafe(s: State, step: Step)
    requires Inv(s) && Enabled(s, step)
    ensures Safe(s, step)
  {
    hide Users, Total, CountsOk, OwnersOk;
  }

  /** Nobody refers to an address that has not been allocated. */
  lemma FreshUnused(s: State, r: Ref)
    requires AgentsOk(s) && r !in s.heap
    ensures Users(s, r) == {}
  {}

  lemma EnterAgents(s: State, a: Agent, key: bytes, r: Ref)
    requires AgentsOk(s) && FiledOk(s) && RecordsOk(s) && Enabled(s, Enter(a, key, r))
    ensures AgentsOk(DoEnter(s, a, key, r)) && FiledOk(DoEnter(s, a, key, r))
  {
    hide Total;
  }

  lemma EnterCounts(s: State, a: Agent, key: bytes, r: Ref)
    requires AgentsOk(s) && CountsOk(s) && RecordsOk(s) && Enabled(s, Enter(a, key, r))
    ensures CountsOk(DoEnter(s, a, key, r))
  {
    hide Users, Total;
    var t := DoEnter(s, a, key, r);
    UsersJoin(s, t, a);
    FreshUnused(s, r);
    assert t.heap.Keys == s.heap.Keys + {t.agents[a].ref};
  }

  lemma EnterOwners(s: State, a: Agent, key: bytes, r: Ref)
    requires OwnersOk(s) && RecordsOk(s) && Enabled(s, Enter(a, key, r))
    ensures OwnersOk(DoEnter(s, a, key, r))
  {
    hide Total;
  }

  lemma EnterRecords(s: State, a: Agent, key: bytes, r: Ref)
    requires RecordsOk(s) && Enabled(s, Enter(a, key, r))
    ensures RecordsOk(DoEnter(s, a, key, r))
  {
    hide Total;
    var t := DoEnter(s, a, key, r);
    if key !in s.records {
      TotalWithout(t.records.Keys, key);
      assert t.records.Keys - {key} == s.records.Keys;
    }
  }

  lemma AcquireKeeps(s: State, a: Agent)
    requires AgentsOk(s) && FiledOk(s) && OwnersOk(s) && RecordsOk(s) && Enabled(s, Acquire(a))
    ensures var t := DoAcquire(s, a); AgentsOk(t) && FiledOk(t) && OwnersOk(t) && RecordsOk(t)
  {
    hide AgentsOk, FiledOk, OwnersOk, RecordsOk;
    AcquireOwners(s, a);
    AcquireFiled(s, a);
  }

  lemma AcquireOwners(s: State, a: Agent)
    requires AgentsOk(s) && OwnersOk(s) && Enabled(s, Acquire(a))
    ensures AgentsOk(DoAcquire(s, a)) && OwnersOk(DoAcquire(s, a))
  {}

  lemma AcquireFiled(s: State, a: Agent)
    requires AgentsOk(s) && FiledOk(s) && RecordsOk(s) && Enabled(s, Acquire(a))
    ensures FiledOk(DoAcquire(s, a)) && RecordsOk(DoAcquire(s, a))
  {
    hide Total;
  }

  lemma AcquireCounts(s: State, a: Agent)
    requires AgentsOk(s) && CountsOk(s) && Enabled(s, Acquire(a))
    ensures CountsOk(DoAcquire(s, a))
  {
    hide Users;
    UsersSame(s, DoAcquire(s, a), a);
  }

  /** The last reference is the holder's own. */
  lemma OnlyUser(s: State, a: Agent)
    requires CountsOk(s) && a in s.agents && s.agents[a].ref in s.heap && s.heap[s.agents[a].ref].refs == 1
    ensures forall b :: b in s.agents && s.agents[b].ref == s.agents[a].ref ==> b == a
  {
    var q := s.agents[a].ref;
    assert a in Users(s, q);
    assert |Users(s, q) - {a}| == 0;
    forall b | b in s.agents && s.agents[b].ref == q ensures b == a {
      assert b in Users(s, q) && b !in Users(s, q) - {a};
    }
  }

  lemma BeginAgents(s: State, a: Agent)
    requires AgentsOk(s) && FiledOk(s) && RecordsOk(s) && Enabled(s, BeginUnlock(a))
    requires s.heap[s.agents[a].ref].refs == 1 ==>
               forall b :: b in s.agents && s.agents[b].ref == s.agents[a].ref ==> b == a
    ensures var t := DoBeginUnlock(s, a); AgentsOk(t) && FiledOk(t)
  {
    hide Total;
  }

  lemma BeginOwners(s: State, a: Agent)
    requires AgentsOk(s) && FiledOk(s) && OwnersOk(s) && RecordsOk(s) && Enabled(s, BeginUnlock(a))
    ensures OwnersOk(DoBeginUnlock(s, a))
  {
    hide Total;
  }

  lemma BeginCounts(s: State, a: Agent)
    requires AgentsOk(s) && FiledOk(s) && CountsOk(s) && RecordsOk(s) && Enabled(s, BeginUnlock(a))
    ensures CountsOk(DoBeginUnlock(s, a)) && RecordsOk(DoBeginUnlock(s, a))
  {
    hide Users, Total;
    var t, key := DoBeginUnlock(s, a), s.agents[a].key;
    UsersSame(s, t, a);
    TotalWithout(s.records.Keys, key);
    assert (s.records - {key}).Keys == s.records.Keys - {key};
  }

  lemma EndAgents(s: State, a: Agent)
    requires AgentsOk(s) && FiledOk(s) && Enabled(s, EndUnlock(a))
    requires s.heap[s.agents[a].ref].refs == 1 ==>
               forall b :: b in s.agents && s.agents[b].ref == s.agents[a].ref ==> b == a
    ensures var t := DoEndUnlock(s, a); AgentsOk(t) && FiledOk(t)
  {}

  lemma EndOwners(s: State, a: Agent)
    requires AgentsOk(s) && FiledOk(s) && OwnersOk(s) && RecordsOk(s) && Enabled(s, EndUnlock(a))
    requires s.heap[s.agents[a].ref].refs == 1 ==>
               forall b :: b in s.agents && s.agents[b].ref == s.agents[a].ref ==> b == a
    ensures var t := DoEndUnlock(s, a); OwnersOk(t) && RecordsOk(t)
  {
    hide Total;
  }

  lemma EndCounts(s: State, a: Agent)
    requires AgentsOk(s) && CountsOk(s) && Enabled(s, EndUnlock(a))
    ensures CountsOk(DoEndUnlock(s, a))
  {
    hide Users;
    var t, p := DoEndUnlock(s, a), s.agents[a];
    UsersLeave(s, t, a);
    assert forall q :: q in t.heap ==> q in s.heap;
    assert forall q :: q in t.heap && q != p.ref ==> t.heap[q] == s.heap[q];
  }

  lemma StepKeepsInv(s: State, step: Step)
    requires Inv(s) && Enabled(s, step)
    ensures Safe(s, step) && Inv(Apply(s, step))
  {
    hide AgentsOk, FiledOk, CountsOk, OwnersOk, RecordsOk, DoEnter, DoAcquire, DoBeginUnlock, DoEndUnlock;
    StepSafe(s, step);
    match step
    case Enter(a, key, r) =>
      EnterAgents(s, a, key, r);
      EnterCounts(s, a, key, r);
      EnterOwners(s, a, key, r);
      EnterRecords(s, a, key, r);
    case Acquire(a) =>
      AcquireKeeps(s, a);
      AcquireCounts(s, a);
    case BeginUnlock(a) =>
      BeginKeeps(s, a);
    case EndUnlock(a) =>
      if s.heap[s.agents[a].ref].refs == 1 { OnlyUser(s, a); }
      EndAgents(s, a);
      EndOwners(s, a);
      EndCounts(s, a);
  }

  lemma BeginKeeps(s: State, a: Agent)
    requires Inv(s) && Enabled(s, BeginUnlock(a))
    ensures Inv(DoBeginUnlock(s, a))
  {
    hide FiledOk, CountsOk, OwnersOk, RecordsOk, DoBeginUnlock;
    if s.heap[s.agents[a].ref].refs == 1 { OnlyUser(s, a); }
    BeginAgents(s, a);
    BeginOwners(s, a);
    BeginCounts(s, a);
  }

  // ------------------------------------------------------------------ whole runs

  ghost predicate IsRun(s: State, steps: seq<Step>)
    decreases |steps|
  {
    steps == [] || (Enabled(s, steps[0]) && Safe(s, steps[0]) && IsRun(Apply(s, steps[0]), steps[1..]))
  }

  ghost function After(s: State, steps: seq<Step>): State
    requires IsRun(s, steps)
    decreases |steps|
  {
    if steps == [] then s else After(Apply(s, steps[0]), steps[1..])
  }

  ghost function Holders(s: State, key: bytes): set<Agent> {
    set a | a in s.agents && s.agents[a].Holding? && s.agents[a].key == key
  }

  ghost function Waiters(s: State, key: bytes): set<Agent> {
    set a | a in s.agents && s.agents[a].Waiting? && s.agents[a].key == key
  }

  /** In every reachable state: one holder a key at most; outside Unlock the
      reference count is holders plus waiters, and no mutex is kept for a key that
      has neither; the charge is the sum over the records. */
  ghost predicate Sound(s: State) {
    && (forall key, a, b :: a in Holders(s, key) && b in Holders(s, key) ==> a == b)
    && (s.inside == None ==> forall key :: key in s.records ==>
          s.records[key] in s.heap && s.heap[s.records[key]].refs == |Holders(s, key)| + |Waiters(s, key)| > 0)
    && (forall key :: Holders(s, key) != {} ==> key in s.records)
    && s.charge == Total(s.records.Keys)
  }

  lemma OneHolder(s: State, key: bytes, a: Agent, b: Agent)
    requires Inv(s) && a in Holders(s, key) && b in Holders(s, key)
    ensures a == b && key in s.records
  {
    hide Total, CountsOk, RecordsOk;
    assert s.heap[s.agents[a].ref].owner == Some(a) && s.heap[s.agents[b].ref].owner == Some(b);
  }

  lemma InvSound(s: State)
    requires Inv(s)
    ensures Sound(s)
  {
    hide Total, Users, Holders, Waiters, AgentsOk, FiledOk, OwnersOk;
    forall key, a, b | a in Holders(s, key) && b in Holders(s, key) ensures a == b { OneHolder(s, key, a, b); }
    forall key | Holders(s, key) != {} ensures key in s.records {
      var a :| a in Holders(s, key);
      OneHolder(s, key, a, a);
    }
    if s.inside == None {
      forall key | key in s.records
        ensures s.records[key] in s.heap && s.heap[s.records[key]].refs == |Holders(s, key)| + |Waiters(s, key)| > 0
      {
        UsersSplit(s, key);
      }
    }
  }

  lemma UsersSplit(s: State, key: bytes)
    requires Inv(s) && s.inside == None && key in s.records
    ensures |Users(s, s.records[key])| == |Holders(s, key)| + |Waiters(s, key)|
  {
    var (u, h, w) := (Users(s, s.records[key]), Holders(s, key), Waiters(s, key));
    forall a ensures a in u <==> a in h || a in w {
      if a in s.agents { assert !s.agents[a].Releasing?; }
    }
    assert u == h + w && h !! w;
  }

  /** Every interleaving of RecordLock objects, from an empty table. */
  lemma {:induction false} RunSound(s: State, steps: seq<Step>)
    requires Inv(s) && IsRun(s, steps)
    ensures Inv(After(s, steps)) && Sound(After(s, steps))
    decreases |steps|
  {
    hide Inv, Enabled, Safe, Apply, Sound;
    if steps == [] {
      InvSound(s);
    } else {
      StepKeepsInv(s, steps[0]);
      RunSound(Apply(s, steps[0]), steps[1..]);
    }
  }

  lemma EmptyInv()
    ensures Inv(Empty)
  {}

  /** Whatever can happen next, after any interleaving, it uses no freed mutex. */
  lemma NoUseAfterFree(steps: seq<Step>, next: Step)
    requires IsRun(Empty, steps) && Enabled(After(Empty, steps), next)
    ensures Safe(After(Empty, steps), next)
  {
    hide Inv, Enabled, Safe, Apply, IsRun, After;
    EmptyInv();
    RunSound(Empty, steps);
    StepSafe(After(Empty, steps), next);
  }

  /** Nobody is stuck: while some agent is not idle, one of them can step. */
  lemma NoDeadlock(s: State) returns (step: Step)
    requires Inv(s) && s.agents != map[]
    ensures Enabled(s, step) && !step.Enter?
  {
    hide Users, Total;
    if s.inside.Some? {
      step := EndUnlock(s.inside.value);
    } else {
      var a :| a in s.agents;
      var q := s.agents[a].ref;
      if s.agents[a].Holding? {
        step := BeginUnlock(a);
      } else if s.heap[q].owner == None {
        step := Acquire(a);
      } else {
        var b := s.heap[q].owner.value;
        assert s.heap[q].owner == Some(b);
        step := BeginUnlock(b);
      }
    }
  }

  /** Once every lock is given up the table is empty again. */
  lemma NothingLeft(s: State)
    requires Inv(s) && s.agents == map[]
    ensures s.records == map[] && s.heap == map[] && s.charge == 0
  {
    assert forall q :: Users(s, q) == {};
    assert s.heap == map[];
    assert s.records == map[];
  }
}
