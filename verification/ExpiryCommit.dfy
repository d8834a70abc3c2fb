/** The state machine of ExpirySpec with every command in two steps: its cache section
    under the mutex, and the commit of its records. Loads and deletions read the committed
    records in between. */
module ExpiryCommit {
  import opened Bytes
  import opened Options
  import opened SortedSets
  import opened ExpirySpec
  import opened ExpirySafety
  import opened ExpirySettle

  /** What a command in flight will commit: a deadline taken away, along with the key
      being made or deleted, or a deadline set. */
  datatype Write = Drop(alive: Option<bool>) | Put(ts: int)

  /** The cache and the wake-up time, the committed deadlines and keys, and the commands
      between their two steps. A key's lock admits one command at a time. */
  datatype State = State(fast: Deadlines, first: int, ekey: Deadlines, live: set<bytes>, phase: Phase, flight: map<bytes, Write>)

  /** Deadlines and keys once everything in flight is committed. */
  ghost function Ahead(s: State): Deadlines {
    map k | k in s.ekey.Keys + s.flight.Keys && (k in s.flight ==> s.flight[k].Put?)
      :: if k in s.flight then s.flight[k].ts else s.ekey[k]
  }

  ghost predicate Alive(s: State, k: bytes) {
    if k in s.flight && s.flight[k].Drop? && s.flight[k].alive.Some? then s.flight[k].alive.value else k in s.live
  }

  ghost function Living(s: State): set<bytes> { set k | k in s.live + s.flight.Keys && Alive(s, k) }

  /** The state as the machine of whole commands sees it. */
  ghost function Effective(s: State): View { View(s.fast, s.first, Ahead(s), Living(s), s.phase) }

  ghost function WriteOf(c: Command): Write {
    match c
    case Set(_) => Drop(Some(true))
    case Create(_) => Drop(Some(true))
    case Delete(_) => Drop(Some(false))
    case Persist(_) => Drop(None)
    case ExpireAt(_, ts, now) => if ts <= now then Drop(Some(false)) else Put(ts)
  }

  /** A command on a missing key, and a PERSIST without a lookup, write nothing. */
  ghost predicate Writes(s: State, c: Command) {
    match c
    case Set(_) => true
    case Create(_) => true
    case Delete(k) => k in s.live
    case Persist(_) => s.first != INT64_MAX
    case ExpireAt(k, _, _) => k in s.live
  }

  /** Make is a write that makes a missing key and has no cache section. */
  datatype Move =
    | Open(c: Command)
    | Close(key: bytes)
    | Make(key: bytes)
    | Thread(step: Step)

  ghost predicate Can(s: State, move: Move) {
    match move
    case Open(c) => !c.Create? && c.key !in s.flight
    case Close(key) => key in s.flight
    case Make(key) => key !in s.flight
    case Thread(step) =>
      match step
      case Cmd(_) => false
      case Begin(rest) => s.phase.Resting? && s.fast == map[] && IsBatch(s.ekey, rest)
      case _ => Enabled(Effective(s), step)
  }

  ghost function Committed(s: State, key: bytes): State
    requires key in s.flight
  {
    var w := s.flight[key];
    s.(ekey := if w.Put? then s.ekey[key := w.ts] else s.ekey - {key},
       live := if w.Put? || w.alive.None? then s.live else if w.alive.value then s.live + {key} else s.live - {key},
       flight := s.flight - {key})
  }

  /** multi_del of the popped keys takes no lock and reads what is committed. */
  ghost function Erased(s: State): State
    requires s.phase.Deleting?
  {
    var d := s.phase.doomed * s.live;
    s.(fast := s.fast - d, ekey := s.ekey - d, live := s.live - d, phase := Resting)
  }

  ghost function Go(s: State, move: Move): State
    requires Can(s, move)
  {
    match move
    case Open(c) =>
      var v := Apply(Effective(s), c);
      s.(fast := v.fast, first := v.first, flight := if Writes(s, c) then s.flight[c.key := WriteOf(c)] else s.flight)
    case Close(key) => Committed(s, key)
    case Make(key) => s.(live := s.live + {key})
    case Thread(step) =>
      match step
      case Begin(rest) => s.(phase := Loading(rest))
      case Erase => Erased(s)
      case _ => var v := Take(Effective(s), step); s.(fast := v.fast, first := v.first, phase := v.phase)
  }

  // -------------------------------------------------- the same, on the effective state

  lemma SameView(a: View, b: View)
    requires a.fast == b.fast && a.first == b.first && a.phase == b.phase
    requires (forall k :: k in a.ekey <==> k in b.ekey) && (forall k :: k in a.ekey ==> a.ekey[k] == b.ekey[k])
    requires forall k :: k in a.live <==> k in b.live
    ensures a == b
  {
    assert a.ekey == b.ekey && a.live == b.live;
  }

  lemma OpenAhead(s: State, key: bytes, w: Write)
    requires key !in s.flight
    ensures var t := s.(flight := s.flight[key := w]);
            Ahead(t) == if w.Put? then Ahead(s)[key := w.ts] else Ahead(s) - {key}
  {
    var t := s.(flight := s.flight[key := w]);
    var e := if w.Put? then Ahead(s)[key := w.ts] else Ahead(s) - {key};
    assert forall k :: k in Ahead(t) <==> k in e;
  }

  lemma OpenLiving(s: State, key: bytes, w: Write)
    requires key !in s.flight
    ensures var t := s.(flight := s.flight[key := w]);
            Living(t) == if w.Put? || w.alive.None? then Living(s)
                         else if w.alive.value then Living(s) + {key} else Living(s) - {key}
    ensures key in Living(s) <==> key in s.live
  {
    var t := s.(flight := s.flight[key := w]);
    assert forall k :: k in Living(t) && k != key <==> k in Living(s) && k != key;
    assert key in Living(t) <==> Alive(t, key);
  }

  /** The cache section is where a command takes effect. */
  lemma OpenTakesEffect(s: State, c: Command)
    requires Can(s, Open(c))
    ensures Effective(Go(s, Open(c))) == Apply(Effective(s), c)
  {
    hide Inserted, Min, Ahead, Living;
    var t := Go(s, Open(c));
    OpenAhead(s, c.key, WriteOf(c));
    OpenLiving(s, c.key, WriteOf(c));
    SameAhead(s.(flight := t.flight), t);
    assert s.(flight := s.flight) == s;
  }

  /** The commit changes nothing any more. */
  lemma CloseIsSilent(s: State, key: bytes)
    requires Can(s, Close(key))
    ensures Effective(Go(s, Close(key))) == Effective(s)
  {
    SameView(Effective(Go(s, Close(key))), Effective(s));
  }

  lemma MakeTakesEffect(s: State, key: bytes)
    requires Can(s, Make(key))
    ensures Effective(Go(s, Make(key))) == Apply(Effective(s), Create(key))
  {
    SameView(Effective(Go(s, Make(key))), Apply(Effective(s), Create(key)));
  }

  /** A command that nothing comes between is the whole command. */
  lemma OpenAndClose(s: State, c: Command)
    requires Can(s, Open(c)) && s.flight == map[] && Writes(s, c)
    ensures Can(Go(s, Open(c)), Close(c.key))
    ensures var t := Go(Go(s, Open(c)), Close(c.key));
            t.flight == map[] && Effective(t) == Apply(Effective(s), c)
  {
    hide Effective, Apply;
    OpenTakesEffect(s, c);
    CloseIsSilent(Go(s, Open(c)), c.key);
  }

  // ---------------------------------------------------------------- clean snapshots

  /** A snapshot taken while commands are in flight: none of them drops or changes a
      deadline in it, and one that sets a deadline outside it sets a later one. */
  ghost predicate CleanBegin(s: State, rest: seq<Item>) {
    forall k :: k in s.flight ==>
      if Named(rest, k) then s.flight[k].Put? && k in s.ekey && s.flight[k].ts == s.ekey[k]
      else s.flight[k].Put? ==> rest != [] && forall i :: 0 <= i < |rest| ==> rest[i].score <= s.flight[k].ts
  }

  /** A deletion while no popped key has a deadline in flight. */
  ghost predicate CleanErase(s: State) {
    s.phase.Deleting? ==> forall k :: k in s.phase.doomed && k in s.flight ==> !s.flight[k].Put?
  }

  ghost predicate CleanMove(s: State, move: Move) {
    match move
    case Open(c) => Clean(Effective(s), c)
    case Close(_) => true
    case Make(key) => Clean(Effective(s), Create(key))
    case Thread(step) =>
      match step
      case Begin(rest) => CleanBegin(s, rest)
      case Erase => CleanErase(s)
      case _ => true
  }

  lemma BatchItem(ekey: Deadlines, rest: seq<Item>, i: nat)
    requires IsBatch(ekey, rest) && i < |rest|
    ensures Distinct(rest) && rest[i].key in ekey && ekey[rest[i].key] == rest[i].score && Named(rest, rest[i].key)
  {}

  lemma BatchOutside(ekey: Deadlines, rest: seq<Item>, k: bytes, i: nat)
    requires IsBatch(ekey, rest) && k in ekey && !Named(rest, k) && i < |rest|
    ensures rest[i].score <= ekey[k]
  {
    assert Item(ekey[k], k) in rest ==> Named(rest, k);
  }

  lemma EmptyBatch(ekey: Deadlines)
    requires IsBatch(ekey, [])
    ensures ekey == map[]
  {
    assert forall k :: k !in ekey;
  }

  /** What the loaded cache will be. */
  lemma LoadedMeans(ekey: Deadlines, rest: seq<Item>)
    requires IsBatch(ekey, rest)
    ensures var o := Overlay(map[], rest);
            && (forall k :: k in o <==> Named(rest, k)) && (forall k :: k in o ==> k in ekey && o[k] == ekey[k])
            && (o == map[] <==> rest == [])
  {
    hide Overlay, IsBatch;
    if rest != [] { BatchItem(ekey, rest, 0); } else { assert Distinct(rest); }
    OverlayMeans(map[], rest);
    var o := Overlay(map[], rest);
    forall k | k in o ensures k in ekey && o[k] == ekey[k] {
      var i :| 0 <= i < |rest| && rest[i].key == k;
      BatchItem(ekey, rest, i);
    }
    if rest != [] { assert rest[0].key in o; }
    if rest == [] { assert forall k :: !Named(rest, k); }
  }

  lemma CleanAgrees(s: State, rest: seq<Item>)
    requires IsBatch(s.ekey, rest)
    ensures Agrees(Overlay(map[], rest), Ahead(s)) <==>
            forall k :: k in s.flight && Named(rest, k) ==> s.flight[k].Put? && k in s.ekey && s.flight[k].ts == s.ekey[k]
  {
    hide Overlay, IsBatch, Named;
    LoadedMeans(s.ekey, rest);
    var (o, e) := (Overlay(map[], rest), Ahead(s));
    forall k | k in o ensures (k in e && e[k] == o[k]) <==> (k in s.flight ==> s.flight[k].Put? && s.flight[k].ts == s.ekey[k]) {}
  }

  lemma CleanComplete(s: State, rest: seq<Item>)
    requires IsBatch(s.ekey, rest) && CleanBegin(s, rest)
    ensures var o := Overlay(map[], rest);
            && (forall k, j :: k in Ahead(s) && k !in o && j in o ==> o[j] <= Ahead(s)[k])
            && (o == map[] ==> Ahead(s) == map[])
  {
    hide Overlay, IsBatch;
    LoadedMeans(s.ekey, rest);
    var (o, e) := (Overlay(map[], rest), Ahead(s));
    forall k, j | k in e && k !in o && j in o ensures o[j] <= e[k] {
      var i :| 0 <= i < |rest| && rest[i].key == j;
      BatchItem(s.ekey, rest, i);
      if k !in s.flight { BatchOutside(s.ekey, rest, k, i); }
    }
    if o == map[] {
      EmptyBatch(s.ekey);
      assert forall k :: k !in e;
    }
  }

  lemma UncleanGap(s: State, rest: seq<Item>, k: bytes)
    requires IsBatch(s.ekey, rest) && k in s.flight && s.flight[k].Put? && !Named(rest, k)
    requires Cached(Overlay(map[], rest), Ahead(s), {}) && (Overlay(map[], rest) == map[] ==> Ahead(s) == map[])
    ensures rest != [] && forall i :: 0 <= i < |rest| ==> rest[i].score <= s.flight[k].ts
  {
    hide Overlay, IsBatch;
    LoadedMeans(s.ekey, rest);
    var (o, e) := (Overlay(map[], rest), Ahead(s));
    assert k in e && k !in o && e[k] == s.flight[k].ts;
    forall i | 0 <= i < |rest| ensures rest[i].score <= s.flight[k].ts {
      BatchItem(s.ekey, rest, i);
      assert o[rest[i].key] == rest[i].score;
    }
  }

  /** A snapshot of the committed deadlines keeps the invariant exactly if it is clean. */
  lemma BeginExact(s: State, rest: seq<Item>)
    requires Inv(Effective(s)) && Can(s, Thread(Begin(rest)))
    ensures Inv(Effective(Go(s, Thread(Begin(rest))))) <==> CleanBegin(s, rest)
  {
    hide Overlay, IsBatch, Ahead, Living;
    var (o, e) := (Overlay(map[], rest), Ahead(s));
    var t := Go(s, Thread(Begin(rest)));
    SameAhead(s, t);
    CleanAgrees(s, rest);
    if rest != [] { BatchItem(s.ekey, rest, 0); } else { assert Distinct(rest); }
    if CleanBegin(s, rest) { CleanComplete(s, rest); }
    if Cached(o, e, {}) && (o == map[] ==> e == map[]) {
      forall k | k in s.flight && !Named(rest, k) && s.flight[k].Put?
        ensures rest != [] && forall i :: 0 <= i < |rest| ==> rest[i].score <= s.flight[k].ts
      {
        UncleanGap(s, rest, k);
      }
    }
  }

  lemma SameAhead(s: State, t: State)
    requires s.ekey == t.ekey && s.live == t.live && s.flight == t.flight
    ensures Ahead(s) == Ahead(t) && Living(s) == Living(t)
  {}

  // ------------------------------------------------------------------- deletions

  lemma EraseTakesEffect(s: State)
    requires Inv(Effective(s)) && s.phase.Deleting? && CleanErase(s)
    ensures Effective(Erased(s)) == Take(Effective(s), Erase)
  {
    hide Wakes, Inv;
    InvErase(s);
    var (a, b) := (Effective(Erased(s)), Take(Effective(s), Erase));
    assert a.fast == b.fast;
    SameView(a, b);
  }

  /** What the invariant says of the popped keys and the cache. */
  lemma InvErase(s: State)
    requires Inv(Effective(s)) && s.phase.Deleting?
    ensures forall k :: k in s.phase.doomed && k in Living(s) ==> k in Ahead(s)
    ensures forall k :: k in s.fast ==> k in Ahead(s)
    ensures Ahead(s).Keys <= Living(s)
  {
    hide Ahead, Living;
  }

  lemma DirtyErase(s: State, k: bytes)
    requires s.phase.Deleting? && k in s.phase.doomed && k in s.flight && s.flight[k].Put?
    ensures !(Effective(Erased(s)).ekey.Keys <= Effective(Erased(s)).live)
  {
    var t := Erased(s);
    assert k in Ahead(t) && k !in Living(t);
  }

  // ------------------------------------------------------------------ whole runs

  lemma ThreadTakesEffect(s: State, step: Step)
    requires Can(s, Thread(step)) && !step.Begin? && !step.Erase?
    ensures Effective(Go(s, Thread(step))) == Take(Effective(s), step)
  {
    hide Pops, Ahead, Living;
    SameAhead(s, Go(s, Thread(step)));
  }

  /** A move keeps the invariant if and only if it is clean. */
  lemma MoveExact(s: State, move: Move)
    requires Inv(Effective(s)) && Can(s, move)
    ensures Inv(Effective(Go(s, move))) <==> CleanMove(s, move)
  {
    hide Inv, Effective, Clean, CleanBegin, CleanErase, Apply, Take, Enabled, IsBatch, Committed, Erased;
    match move
    case Open(c) =>
      OpenTakesEffect(s, c);
      CommandExact(Effective(s), c);
    case Close(key) => CloseIsSilent(s, key);
    case Make(key) =>
      MakeTakesEffect(s, key);
      CommandExact(Effective(s), Create(key));
    case Thread(step) => ThreadExact(s, step);
  }

  lemma ThreadExact(s: State, step: Step)
    requires Inv(Effective(s)) && Can(s, Thread(step))
    ensures Inv(Effective(Go(s, Thread(step)))) <==> CleanMove(s, Thread(step))
  {
    hide Inv, CleanBegin, IsBatch, Pops, Ahead, Living;
    if step.Begin? {
      BeginExact(s, step.rest);
    } else if step.Erase? {
      EraseExact(s);
    } else {
      ThreadTakesEffect(s, step);
      StepExact(Effective(s), step);
    }
  }

  lemma EraseExact(s: State)
    requires Inv(Effective(s)) && s.phase.Deleting?
    ensures Inv(Effective(Erased(s))) <==> CleanErase(s)
  {
    hide Ahead, Living, Cached, Wakes;
    if CleanErase(s) {
      EraseTakesEffect(s);
      EraseKeeps(Effective(s));
    } else {
      var k :| k in s.phase.doomed && k in s.flight && s.flight[k].Put?;
      DirtyErase(s, k);
    }
  }

  /** What every move leaves in place, clean or not; so the invariant asks for nothing
      beyond its purpose. */
  lemma MoveGood(s: State, move: Move)
    requires Inv(Effective(s)) && Can(s, move) && BelowMax(Ahead(Go(s, move)))
    ensures Good(Effective(Go(s, move))) <==> CleanMove(s, move)
  {
    hide Inv, Good, Clean, CleanBegin, CleanErase, Apply, Take, IsBatch, Committed, Erased, Ahead, Living;
    MoveExact(s, move);
    var t := Effective(Go(s, move));
    if CleanMove(s, move) {
      InvGood(t);
    } else if move == Thread(Erase) {
      DirtyGood(s);
    } else {
      MoveRemains(s, move);
      if Good(t) { GoodInv(t); }
    }
  }

  lemma MoveRemains(s: State, move: Move)
    requires Inv(Effective(s)) && Can(s, move) && !CleanMove(s, move) && move != Thread(Erase)
    ensures Remains(Effective(Go(s, move)))
  {
    hide Inv, Remains, Clean, CleanBegin, Apply, Enabled, IsBatch, Committed, Ahead, Living;
    match move
    case Open(c) =>
      OpenTakesEffect(s, c);
      CommandRemains(Effective(s), c);
    case Make(key) =>
      MakeTakesEffect(s, key);
      CommandRemains(Effective(s), Create(key));
    case Thread(step) =>
      BeginRemains(s, step.rest);
  }

  lemma DirtyGood(s: State)
    requires s.phase.Deleting? && !CleanErase(s)
    ensures !Good(Effective(Erased(s)))
  {
    hide Ahead, Living, Cached, Wakes;
    var k :| k in s.phase.doomed && k in s.flight && s.flight[k].Put?;
    DirtyErase(s, k);
  }

  lemma BeginRemains(s: State, rest: seq<Item>)
    requires Inv(Effective(s)) && Can(s, Thread(Begin(rest)))
    ensures Remains(Effective(Go(s, Thread(Begin(rest)))))
  {
    hide Ahead, Living, Cached, Overlay;
    SameAhead(s, Go(s, Thread(Begin(rest))));
  }

  ghost predicate IsRun(s: State, moves: seq<Move>)
    decreases |moves|
  {
    moves == [] || (Can(s, moves[0]) && IsRun(Go(s, moves[0]), moves[1..]))
  }

  ghost function After(s: State, moves: seq<Move>): State
    requires IsRun(s, moves)
    decreases |moves|
  {
    if moves == [] then s else After(Go(s, moves[0]), moves[1..])
  }

  ghost predicate AllClean(s: State, moves: seq<Move>)
    requires IsRun(s, moves)
    decreases |moves|
  {
    moves == [] || (CleanMove(s, moves[0]) && AllClean(Go(s, moves[0]), moves[1..]))
  }

  ghost predicate AllGood(s: State, moves: seq<Move>)
    requires IsRun(s, moves)
    decreases |moves|
  {
    Good(Effective(s)) && (moves == [] || AllGood(Go(s, moves[0]), moves[1..]))
  }

  ghost predicate Bounded(move: Move) { move.Open? && move.c.ExpireAt? ==> move.c.ts < INT64_MAX }

  lemma BoundedKeeps(s: State, move: Move)
    requires BelowMax(Ahead(s)) && Can(s, move) && Bounded(move)
    ensures BelowMax(Ahead(Go(s, move)))
  {
    hide Inserted, Pops, IsBatch, Apply, Living;
    match move
    case Open(c) =>
      OpenTakesEffect(s, c);
      ExpirySettle.BoundedKeeps(Effective(s), Cmd(c));
    case Close(key) => CloseIsSilent(s, key);
    case Make(_) =>
    case Thread(step) =>
      var t := Go(s, move);
      if step.Erase? {
        forall k | k in Ahead(t) ensures Ahead(t)[k] < INT64_MAX { assert k in Ahead(s) && Ahead(t)[k] == Ahead(s)[k]; }
      } else {
        SameAhead(s, t);
      }
  }

  /** In every order of cache sections, commits and thread steps: things are good all
      along if and only if every command was clean at its cache section, every load took
      its snapshot clear of the commits in flight, and every deletion came clear of
      deadlines in flight. */
  lemma {:induction false} RunGood(s: State, moves: seq<Move>)
    requires Inv(Effective(s)) && BelowMax(Ahead(s)) && IsRun(s, moves)
    requires forall i :: 0 <= i < |moves| ==> Bounded(moves[i])
    ensures AllGood(s, moves) <==> AllClean(s, moves)
    decreases |moves|
  {
    hide Inv, Good, Can, Go, Bounded, CleanMove, BelowMax, Effective, Ahead;
    InvGood(Effective(s));
    if moves != [] {
      var (t, move) := (Go(s, moves[0]), moves[0]);
      BoundedKeeps(s, move);
      MoveGood(s, move);
      if CleanMove(s, move) {
        MoveExact(s, move);
        RunGood(t, moves[1..]);
      } else {
        assert !AllGood(t, moves[1..]);
      }
    }
  }

  /** An EXPIRE whose cache section comes before a load and whose commit comes after its
      snapshot, each clean as a command, is never woken for. */
  lemma StraddledLoad(key: bytes, ts: int, now: int)
    requires ts <= now < INT64_MAX
    ensures var s := State(map[], 0, map[], {key}, Resting, map[]);
            var c := ExpireAt(key, ts, ts - 1);
            var moves := [Open(c), Thread(Begin([])), Close(key), Thread(Finish)];
            && Inv(Effective(s)) && Clean(Effective(s), c) && IsRun(s, moves)
            && var w := Effective(After(s, moves)); Due(w, key, now) && w.first > now && w.phase.Resting?
  {
    hide Latest, IsRun, After;
    var s := State(map[], 0, map[], {key}, Resting, map[]);
    var c := ExpireAt(key, ts, ts - 1);
    assert Ahead(s) == map[] && Living(s) == {key};
    assert Inserted(map[], key, ts) == map[];
    var s1 := s.(first := Min(ts, 0), flight := map[key := Put(ts)]);
    assert Go(s, Open(c)) == s1;
    var s2 := s1.(phase := Loading([]));
    assert Can(s1, Thread(Begin([]))) && Go(s1, Thread(Begin([]))) == s2;
    var s3 := s2.(ekey := map[key := ts], flight := map[]);
    assert Go(s2, Close(key)) == s3;
    var s4 := s3.(first := INT64_MAX, phase := Resting);
    assert Go(s3, Thread(Finish)) == s4;
    FourMoves(s, Open(c), Thread(Begin([])), Close(key), Thread(Finish));
    assert Ahead(s4)[key] == ts;
  }

  lemma FourMoves(s: State, a: Move, b: Move, c: Move, d: Move)
    requires Can(s, a) && Can(Go(s, a), b) && Can(Go(Go(s, a), b), c) && Can(Go(Go(Go(s, a), b), c), d)
    ensures IsRun(s, [a, b, c, d]) && After(s, [a, b, c, d]) == Go(Go(Go(Go(s, a), b), c), d)
  {
    hide Can, Go;
    var (s1, s2, s3) := (Go(s, a), Go(Go(s, a), b), Go(Go(Go(s, a), b), c));
    var s4 := Go(s3, d);
    assert [a, b, c, d][1..] == [b, c, d] && [b, c, d][1..] == [c, d] && [c, d][1..] == [d] && [d][1..] == [];
    assert IsRun(s4, []) && After(s4, []) == s4;
    assert IsRun(s3, [d]) && After(s3, [d]) == s4;
    assert IsRun(s2, [c, d]) && After(s2, [c, d]) == s4;
    assert IsRun(s1, [b, c, d]) && After(s1, [b, c, d]) == s4;
  }
}
