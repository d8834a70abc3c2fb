/** When reclaim harms what clients see, exactly: no assumption about version wraps. */
module ReclaimExact {
  import opened Bytes
  import opened Scan
  import opened KvCodec
  import opened Reclaim

  // ------------------------------------------------- what holds in every run at all

  ghost predicate Distinct(markers: set<Inc>, q: seq<Inc>) {
    (forall i :: 0 <= i < |q| ==> q[i] in markers) && (forall i, j :: 0 <= i < j < |q| ==> q[i] != q[j])
  }

  /** Keys and versions keep their widths, and the pending markers are distinct filed
      markers. Unlike Inv this survives a version wrap. */
  ghost predicate Basic(s: State) {
    && (forall k :: k in s.meta ==> |k| < U16 && s.meta[k].version < U16)
    && Small(s.markers) && Distinct(s.markers, Pending(s))
  }

  lemma FiledTail(markers: set<Inc>, q: seq<Inc>)
    requires q != [] && Distinct(markers, q)
    ensures Distinct(markers - {q[0]}, q[1..])
  {}

  lemma LoadFiled(markers: set<Inc>, q: seq<Inc>)
    requires IsLoad(markers, q)
    ensures Distinct(markers, q)
  {
    hide MarkerLess;
    forall i, j | 0 <= i < j < |q| ensures q[i] != q[j] { Irreflexive(q[i]); }
  }

  lemma StepBasic(s: State, step: Step)
    requires Basic(s) && Enabled(s, step)
    ensures Basic(Apply(s, step))
  {
    hide Distinct, IsLoad, Contents, Filed, DoCommit, DoDelete;
    var t := Apply(s, step);
    match step
    case Load(q) =>
      LoadFiled(s.markers, q);
      assert Pending(t) == q;
    case Commit =>
      CommitBasic(s);
    case Delete(key) =>
      DeleteBasic(s, key);
    case _ =>
      assert Pending(t) == Pending(s);
  }

  lemma CommitBasic(s: State)
    requires Basic(s) && s.flight.AllSeen?
    ensures Basic(DoCommit(s))
  {
    hide Distinct, Contents, Pending, Small;
    PendingCommit(s);
    FiledTail(s.markers, Pending(s));
    FewerSmall(s.markers, s.flight.inc);
  }

  lemma PendingCommit(s: State)
    requires s.flight.AllSeen?
    ensures Pending(s) != [] && Pending(s)[0] == s.flight.inc && Pending(s)[1..] == Pending(DoCommit(s))
  {
    hide Contents;
    assert Pending(s)[1..] == s.tasks == Pending(DoCommit(s));
  }

  lemma FewerSmall(markers: set<Inc>, m: Inc)
    requires Small(markers)
    ensures Small(markers - {m})
  {}

  lemma DeleteBasic(s: State, key: bytes)
    requires Basic(s)
    ensures Basic(DoDelete(s, key))
  {
    hide Distinct;
    var t := DoDelete(s, key);
    assert Pending(t) == Pending(s);
    MoreMarkers(s.markers, t.markers, Pending(s));
  }

  lemma MoreMarkers(a: set<Inc>, b: set<Inc>, q: seq<Inc>)
    requires a <= b && Distinct(a, q)
    ensures Distinct(b, q)
  {}

  // -------------------------------------------------------------------- exposure

  /** The records of content that the reclaim of inc, as far as it has come, will
      delete. */
  ghost function Struck(flight: Flight, inc: Inc, content: Content): set<Slot> {
    match flight
    case AllSeen(i, batch) => if i == inc then batch * content.Keys else content.Keys
    case ItemsSeen(i, batch) =>
      if i == inc then set x | x in content && (x in batch || x.kind == Scores) else content.Keys
    case _ => content.Keys
  }

  /** A live key whose incarnation has a marker that will cost it a record. */
  ghost predicate Exposed(s: State, key: bytes) {
    Live(s, key) &&
    var inc := Inc(key, s.meta[key].version);
    inc in s.markers && Struck(s.flight, inc, Contents(s, inc)) != {}
  }

  ghost predicate Doomed(s: State) { exists k :: Exposed(s, k) }

  ghost predicate Current(s: State, inc: Inc) { Live(s, inc.key) && s.meta[inc.key].version == inc.version }

  lemma CommitStrikes(s: State)
    requires s.flight.AllSeen?
    ensures var t := DoCommit(s);
            && (forall inc :: inc != s.flight.inc ==> Contents(t, inc) == Contents(s, inc))
            && Contents(t, s.flight.inc) == Contents(s, s.flight.inc) - s.flight.batch
            && (forall k :: Live(t, k) <==> Live(s, k)) && (forall k :: Live(s, k) ==> t.meta[k] == s.meta[k])
  {}

  /** A reclaim batch is visible exactly if it strikes a record of a live incarnation. */
  lemma CommitVisible(s: State)
    requires s.flight.AllSeen?
    ensures View(DoCommit(s)) != View(s) <==>
            Current(s, s.flight.inc) && s.flight.batch * Contents(s, s.flight.inc).Keys != {}
  {
    hide DoCommit;
    CommitStrikes(s);
    var (t, inc) := (DoCommit(s), s.flight.inc);
    var (was, hit) := (Contents(s, inc), s.flight.batch * Contents(s, inc).Keys);
    MinusMissed(was, s.flight.batch);
    if Current(s, inc) && hit != {} {
      var x :| x in hit;
      assert x !in View(t)[inc.key].content && x in View(s)[inc.key].content;
    } else {
      forall k | k in View(t) ensures k in View(s) && View(t)[k] == View(s)[k] {
        assert Live(t, k) && Live(s, k);
        assert Inc(k, s.meta[k].version) == inc ==> hit == {};
      }
      forall k | k in View(s) ensures k in View(t) { assert Live(s, k) && Live(t, k); }
    }
  }

  lemma MinusMissed(m: Content, b: set<Slot>)
    ensures b * m.Keys == {} ==> m - b == m
  {
    if b * m.Keys == {} {
      assert forall x :: x in b * m.Keys <==> x in b && x in m;
    }
  }

  lemma SeeSame(s: State, step: Step, inc: Inc)
    requires Enabled(s, step) && (step.SeeItems? || step.SeeScores? || step.Pop? || step.Load?)
    ensures var t := Apply(s, step); Struck(t.flight, inc, Contents(t, inc)) == Struck(s.flight, inc, Contents(s, inc))
  {
    hide IsLoad;
    var t := Apply(s, step);
    assert Contents(t, inc) == Contents(s, inc);
    forall x | x in Contents(s, inc) ensures x.kind == Kind.Items || x.kind == Scores {}
  }

  /** Background steps neither create nor remove an exposure, unless they strike. */
  lemma ExposureStays(s: State, step: Step, k: bytes)
    requires Basic(s) && Background(step) && Enabled(s, step)
    ensures Exposed(Apply(s, step), k) ==> Exposed(s, k)
    ensures Exposed(s, k) && View(Apply(s, step)) == View(s) ==> Exposed(Apply(s, step), k)
  {
    hide Distinct, Small, IsLoad, DoCommit, View, Contents, Struck, Filed;
    var t := Apply(s, step);
    if step.Commit? {
      CommitStrikes(s);
      CommitVisible(s);
      CommitMarkers(s);
      if Live(s, k) {
        var inc := Inc(k, s.meta[k].version);
        StruckOther(s.flight, inc, Contents(s, inc));
      }
    } else if Live(s, k) {
      SeeSame(s, step, Inc(k, s.meta[k].version));
    }
  }

  lemma CommitMarkers(s: State)
    requires s.flight.AllSeen?
    ensures DoCommit(s).markers == s.markers - {s.flight.inc} && DoCommit(s).flight == Idle
  {}

  lemma StruckOther(flight: Flight, inc: Inc, content: Content)
    requires flight.AllSeen?
    ensures Struck(Idle, inc, content) == content.Keys
    ensures Struck(flight, inc, content) == if flight.inc == inc then flight.batch * content.Keys else content.Keys
  {}

  lemma BackgroundKeeps(s: State, step: Step)
    requires Basic(s) && Background(step) && Enabled(s, step) && !Doomed(s)
    ensures View(Apply(s, step)) == View(s) && !Doomed(Apply(s, step))
  {
    hide Distinct, Small, IsLoad, View, Contents, Struck, Filed, Exposed;
    var t := Apply(s, step);
    forall k ensures !Exposed(t, k) { ExposureStays(s, step, k); }
    if step.Commit? {
      CommitVisible(s);
      CommitHidden(s);
    } else {
      SameView(s, t);
    }
  }

  lemma CommitHidden(s: State)
    requires Basic(s) && s.flight.AllSeen? && !Doomed(s)
    ensures !(Current(s, s.flight.inc) && s.flight.batch * Contents(s, s.flight.inc).Keys != {})
  {
    hide Small;
    var inc := s.flight.inc;
    assert Pending(s)[0] == inc;
    assert !Exposed(s, inc.key);
  }

  // --------------------------------------------- some background run against none

  ghost predicate AllBackground(steps: seq<Step>) { forall i :: 0 <= i < |steps| ==> Background(steps[i]) }

  lemma NextStep(s: State) returns (step: Step)
    requires Basic(s) && s.markers != {}
    ensures Background(step) && Enabled(s, step)
    ensures var t := Apply(s, step); |t.markers| < |s.markers| || (t.markers == s.markers && Phase(t) < Phase(s))
  {
    hide MarkerLess, Contents, Filed;
    match s.flight
    case Idle =>
      if s.tasks == [] {
        var q := FirstMarkers(s.markers, LOAD_LIMIT);
        step := Load(q);
      } else {
        step := Pop;
      }
    case Popped(_) => step := SeeItems;
    case ItemsSeen(_, _) => step := SeeScores;
    case AllSeen(_, _) =>
      step := Commit;
      assert Pending(s)[0] == s.flight.inc;
  }

  /** An exposed key does lose a record if the background thread goes on. */
  lemma {:induction false} Strikes(s: State, k: bytes) returns (steps: seq<Step>)
    requires Basic(s) && Exposed(s, k)
    ensures AllBackground(steps) && IsRun(s, steps) && View(After(s, steps)) != View(s)
    decreases |s.markers|, Phase(s)
  {
    hide Basic, Enabled, Apply, View, Phase, Exposed;
    assert s.markers != {} by { ExposedMarked(s, k); }
    var step := NextStep(s);
    var t := Apply(s, step);
    StepBasic(s, step);
    ExposureStays(s, step, k);
    var rest := [];
    if View(t) == View(s) {
      rest := Strikes(t, k);
    }
    steps := [step] + rest;
    assert steps[1..] == rest;
  }

  lemma ExposedMarked(s: State, k: bytes)
    requires Exposed(s, k)
    ensures s.markers != {}
  {}

  lemma {:induction false} Harmless(s: State, steps: seq<Step>)
    requires Basic(s) && !Doomed(s) && AllBackground(steps) && IsRun(s, steps)
    ensures View(After(s, steps)) == View(s)
    decreases |steps|
  {
    hide Basic, Enabled, Apply, View, Doomed;
    if steps != [] {
      StepBasic(s, steps[0]);
      BackgroundKeeps(s, steps[0]);
      Harmless(Apply(s, steps[0]), steps[1..]);
    }
  }

  /** Some background run changes what clients see if and only if the marker of a live
      incarnation is going to strike one of its records. */
  lemma BackgroundExact(s: State)
    requires Basic(s)
    ensures (exists steps :: AllBackground(steps) && IsRun(s, steps) && View(After(s, steps)) != View(s)) <==> Doomed(s)
  {
    hide Basic, Enabled, Apply, View, Exposed, IsRun, After;
    if Doomed(s) {
      var k :| Exposed(s, k);
      var steps := Strikes(s, k);
    }
    if steps :| AllBackground(steps) && IsRun(s, steps) && View(After(s, steps)) != View(s) {
      if !Doomed(s) { Harmless(s, steps); }
    }
  }

  // ------------------------------------------------------------------ client writes

  /** A write is clean if it meets no leftovers that it does not delete or overwrite,
      and no marker that will strike a record it leaves. */
  ghost predicate Clean(s: State, step: Step) {
    step.Write? ==>
      var inc := Inc(step.key, WriteVersion(s, step.key));
      && (Live(s, step.key) || Contents(s, inc).Keys <= step.dels + step.puts.Keys)
      && (inc !in s.markers || Struck(s.flight, inc, (Contents(s, inc) - step.dels) + step.puts) == {})
  }

  lemma WriteLeaves(s: State, step: Step)
    requires step.Write? && Enabled(s, step)
    ensures var t := Apply(s, step);
            var inc := Inc(step.key, WriteVersion(s, step.key));
            && Current(t, inc) && Contents(t, inc) == (Contents(s, inc) - step.dels) + step.puts
            && t.markers == s.markers && t.flight == s.flight
            && t.meta[step.key] == Meta(true, inc.version, step.info)
            && (forall k :: k != step.key ==> (k in t.meta <==> k in s.meta))
            && (forall k :: k != step.key && k in s.meta ==> t.meta[k] == s.meta[k])
            && (forall i :: i != inc ==> Contents(t, i) == Contents(s, i))
  {}

  lemma Leftovers(was: Content, dels: set<Slot>, puts: Content)
    ensures (was - dels) + puts == puts <==> was.Keys <= dels + puts.Keys
  {
    if was.Keys <= dels + puts.Keys {
      assert (was - dels) + puts == puts;
    } else {
      var x :| x in was && x !in dels + puts.Keys;
      assert x in (was - dels) + puts && x !in puts;
    }
  }

  lemma WriteShows(s: State, step: Step)
    requires step.Write? && Enabled(s, step)
    ensures View(Apply(s, step)) == Plain(View(s), step) <==>
            Live(s, step.key) || Contents(s, Inc(step.key, WriteVersion(s, step.key))).Keys <= step.dels + step.puts.Keys
  {
    hide Apply, Contents;
    WriteLeaves(s, step);
    var (t, key) := (Apply(s, step), step.key);
    var was := Contents(s, Inc(key, WriteVersion(s, key)));
    Leftovers(was, step.dels, step.puts);
    var (u, w) := (View(t), Plain(View(s), step));
    assert u.Keys == w.Keys;
    forall k | k in u && k != key ensures u[k] == w[k] {}
    assert u[key] == Value(step.info, (was - step.dels) + step.puts);
    assert (map[] - step.dels) + step.puts == step.puts;
  }

  lemma WriteExposes(s: State, step: Step, k: bytes)
    requires step.Write? && Enabled(s, step)
    ensures k != step.key ==> Exposed(Apply(s, step), k) == Exposed(s, k)
    ensures k == step.key ==>
              var inc := Inc(k, WriteVersion(s, k));
              Exposed(Apply(s, step), k)
              == (inc in s.markers && Struck(s.flight, inc, (Contents(s, inc) - step.dels) + step.puts) != {})
  {
    hide Apply, Contents, Struck;
    WriteLeaves(s, step);
  }

  lemma DeleteExposes(s: State, key: bytes, k: bytes)
    ensures Exposed(DoDelete(s, key), k) ==> Exposed(s, k)
  {
    var t := DoDelete(s, key);
    assert t.data == s.data;
    if Exposed(t, k) { assert k != key && t.meta[k] == s.meta[k]; }
  }

  /** A step shows what it does on a plain map, and leaves no live record exposed, if and
      only if it is clean. */
  lemma StepExact(s: State, step: Step)
    requires Basic(s) && !Doomed(s) && Enabled(s, step)
    ensures View(Apply(s, step)) == Plain(View(s), step) && !Doomed(Apply(s, step)) <==> Clean(s, step)
  {
    hide View, Exposed, Contents, Struck, Basic, IsLoad, DoWrite, DoCommit, DoDelete, Filed;
    match step
    case Write(key, _, _, _) =>
      WriteShows(s, step);
      forall k ensures k != key ==> !Exposed(Apply(s, step), k) { WriteExposes(s, step, k); }
      WriteExposes(s, step, key);
    case Delete(key) =>
      DeleteRefines(s, key);
      forall k ensures !Exposed(Apply(s, step), k) { DeleteExposes(s, key, k); }
    case _ =>
      BackgroundKeeps(s, step);
      PlainBackground(View(s), step);
  }

  ghost predicate AllClean(s: State, steps: seq<Step>)
    requires IsRun(s, steps)
    decreases |steps|
  {
    steps == [] || (Clean(s, steps[0]) && AllClean(Apply(s, steps[0]), steps[1..]))
  }

  /** All along the run clients see the plain map v, and no background run would change
      that. */
  ghost predicate Faithful(s: State, v: Visible, steps: seq<Step>)
    requires IsRun(s, steps)
    decreases |steps|
  {
    View(s) == v && !Doomed(s) && (steps == [] || Faithful(Apply(s, steps[0]), Plain(v, steps[0]), steps[1..]))
  }

  /** Over whole runs, wraps included: reclaim is invisible all along if and only if
      every write was clean. */
  lemma {:induction false} RunExact(s: State, steps: seq<Step>)
    requires Basic(s) && !Doomed(s) && IsRun(s, steps)
    ensures Faithful(s, View(s), steps) <==> AllClean(s, steps)
    decreases |steps|
  {
    hide Basic, Enabled, Apply, View, Doomed, Clean, Plain;
    if steps != [] {
      var t := Apply(s, steps[0]);
      StepBasic(s, steps[0]);
      StepExact(s, steps[0]);
      if Clean(s, steps[0]) {
        RunExact(t, steps[1..]);
      } else if Faithful(s, View(s), steps) {
        FaithfulHere(t, Plain(View(s), steps[0]), steps[1..]);
      }
    }
  }

  lemma FaithfulHere(s: State, v: Visible, steps: seq<Step>)
    requires IsRun(s, steps) && Faithful(s, v, steps)
    ensures View(s) == v && !Doomed(s)
  {}

  // --------------------------------------------------------------- version wraps

  lemma InvBasic(s: State)
    requires Inv(s)
    ensures Basic(s) && !Doomed(s)
  {
    forall m | m in s.markers ensures |m.key| < U16 && m.version < U16 { assert m.key in s.meta; }
  }

  /** Without a wrap every write is clean. */
  lemma NoWrapClean(s: State, step: Step)
    requires Inv(s) && Enabled(s, step) && !Wraps(s, step)
    ensures Clean(s, step)
  {
    if step.Write? { WriteVersionFresh(s, step.key); }
  }

  lemma {:induction false} NoWrapAllClean(s: State, steps: seq<Step>)
    requires Inv(s) && IsRun(s, steps) && NoWrap(s, steps)
    ensures AllClean(s, steps)
    decreases |steps|
  {
    hide Inv, Enabled, Apply, Wraps, Clean;
    if steps != [] {
      NoWrapClean(s, steps[0]);
      StepKeepsInv(s, steps[0]);
      NoWrapAllClean(Apply(s, steps[0]), steps[1..]);
    }
  }

  /** A wrap does no harm once version 0 has been reclaimed. */
  lemma ReclaimedWrapClean(s: State, step: Step)
    requires Wraps(s, step) && Inc(step.key, 0) !in s.markers && Contents(s, Inc(step.key, 0)) == map[]
    ensures Clean(s, step)
  {}

  /** From an empty store: reclaim is invisible all along if and only if every write was
      clean, which it is as long as no version wraps. */
  lemma FromEmpty(steps: seq<Step>)
    requires IsRun(Empty, steps)
    ensures Faithful(Empty, map[], steps) <==> AllClean(Empty, steps)
    ensures NoWrap(Empty, steps) ==> AllClean(Empty, steps) && View(After(Empty, steps)) == PlainAfter(map[], steps)
  {
    hide Inv, Basic, Doomed, IsRun, Faithful, AllClean, NoWrap, After, PlainAfter, View;
    EmptyInv();
    InvBasic(Empty);
    RunExact(Empty, steps);
    if NoWrap(Empty, steps) {
      NoWrapAllClean(Empty, steps);
      RunRefines(Empty, steps);
    }
  }
}
