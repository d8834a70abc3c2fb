/** Versioned keys and their background reclaim: ssdb_impl.cpp's delete tasks,
    t_kv.cpp's tombstones and the version rule of every Get*MetaVal, as a state
    machine whose client and background steps interleave freely. */
module Reclaim {
  import opened Bytes
  import opened Scan
  import opened KvCodec

  const LOAD_LIMIT: nat := 1000

  /** One incarnation of a key; also the delete marker filed for it. */
  datatype Inc = Inc(key: bytes, version: nat)

  /** A record inside an incarnation: an item or a score entry. */
  datatype Slot = Slot(kind: Kind, field: bytes)

  type Content = map<Slot, bytes>

  /** The meta record: type, length or inline value are its info. */
  datatype Meta = Meta(live: bool, version: nat, info: bytes)

  /** delete_key_loop: popped, items scanned, scores scanned as well. */
  datatype Flight =
    | Idle
    | Popped(inc: Inc)
    | ItemsSeen(inc: Inc, batch: set<Slot>)
    | AllSeen(inc: Inc, batch: set<Slot>)

  datatype State = State(
    meta: map<bytes, Meta>,
    data: map<Inc, Content>,
    markers: set<Inc>,
    tasks: seq<Inc>,
    flight: Flight)

  const Empty := State(map[], map[], {}, [], Idle)

  ghost function Contents(s: State, inc: Inc): Content {
    if inc in s.data then s.data[inc] else map[]
  }

  ghost function Filed(s: State, inc: Inc, kind: Kind): set<Slot> {
    set x | x in Contents(s, inc) && x.kind == kind
  }

  ghost predicate Live(s: State, key: bytes) { key in s.meta && s.meta[key].live }

  /** Get*MetaVal: the version a writer of the key uses. Versions are 16 bits. */
  ghost function WriteVersion(s: State, key: bytes): nat {
    if key !in s.meta then 0
    else if s.meta[key].live then s.meta[key].version
    else if s.meta[key].version == U16 - 1 then 0
    else s.meta[key].version + 1
  }

  // ---------------------------------------------------------------------- steps

  datatype Step =
    | Write(key: bytes, puts: Content, dels: set<Slot>, info: bytes)
    | Delete(key: bytes)
    | Load(queue: seq<Inc>)
    | Pop
    | SeeItems
    | SeeScores
    | Commit

  ghost predicate MarkerLess(a: Inc, b: Inc) { Less(EncodeDeleteKey(a.key, a.version), EncodeDeleteKey(b.key, b.version)) }

  /** queue is what load_delete_keys_from_db reads: the first markers in store order. */
  ghost predicate IsLoad(markers: set<Inc>, queue: seq<Inc>) {
    && |queue| <= LOAD_LIMIT
    && (forall i :: 0 <= i < |queue| ==> queue[i] in markers)
    && (forall i, j :: 0 <= i < j < |queue| ==> MarkerLess(queue[i], queue[j]))
    && (forall m, i :: m in markers && 0 <= i < |queue| && m !in queue ==> MarkerLess(queue[i], m))
    && (|queue| < LOAD_LIMIT ==> forall m :: m in markers ==> m in queue)
  }

  ghost predicate Enabled(s: State, step: Step) {
    match step
    case Write(key, _, _, _) => |key| < U16
    case Delete(_) => true
    case Load(queue) => s.flight.Idle? && s.tasks == [] && IsLoad(s.markers, queue)
    case Pop => s.flight.Idle? && s.tasks != []
    case SeeItems => s.flight.Popped?
    case SeeScores => s.flight.ItemsSeen?
    case Commit => s.flight.AllSeen?
  }

  /** A client's batch on the version it found, and a live meta record. */
  ghost function DoWrite(s: State, key: bytes, puts: Content, dels: set<Slot>, info: bytes): State {
    var inc := Inc(key, WriteVersion(s, key));
    s.(meta := s.meta[key := Meta(true, inc.version, info)],
       data := s.data[inc := (Contents(s, inc) - dels) + puts])
  }

  /** mark_key_deleted: a tombstone in the meta record and a marker beside it. */
  ghost function DoDelete(s: State, key: bytes): State {
    if !Live(s, key) then s else
    var m := s.meta[key];
    s.(meta := s.meta[key := m.(live := false)], markers := s.markers + {Inc(key, m.version)})
  }

  /** The reclaim batch; the meta record goes only if it is still that tombstone. */
  ghost function DoCommit(s: State): State
    requires s.flight.AllSeen?
  {
    var inc := s.flight.inc;
    var gone := inc.key in s.meta && !s.meta[inc.key].live && s.meta[inc.key].version == inc.version;
    s.(data := s.data[inc := Contents(s, inc) - s.flight.batch],
       markers := s.markers - {inc},
       meta := if gone then s.meta - {inc.key} else s.meta,
       flight := Idle)
  }

  ghost function Apply(s: State, step: Step): State
    requires Enabled(s, step)
  {
    match step
    case Write(key, puts, dels, info) => DoWrite(s, key, puts, dels, info)
    case Delete(key) => DoDelete(s, key)
    case Load(queue) => s.(tasks := queue)
    case Pop => s.(tasks := s.tasks[1..], flight := Popped(s.tasks[0]))
    case SeeItems => s.(flight := ItemsSeen(s.flight.inc, Filed(s, s.flight.inc, Kind.Items)))
    case SeeScores =>
      s.(flight := AllSeen(s.flight.inc, s.flight.batch + Filed(s, s.flight.inc, Scores)))
    case Commit => DoCommit(s)
  }

  // ------------------------------------------------------------------ invariant

  /** Every record belongs to a live version or to a pending marker. */
  ghost predicate Owned(s: State) {
    forall inc :: inc in s.data && s.data[inc] != map[] ==>
      inc in s.markers || (Live(s, inc.key) && s.meta[inc.key].version == inc.version)
  }

  /** Markers lie below the version in use, so no live version is pending; a key
      without a meta record has none. */
  ghost predicate MarkersBelow(s: State) {
    forall m :: m in s.markers ==>
      && m.key in s.meta && m.version <= s.meta[m.key].version
      && (s.meta[m.key].live ==> m.version < s.meta[m.key].version)
  }

  ghost predicate MetaOk(s: State) {
    forall k :: k in s.meta ==>
      && |k| < U16 && s.meta[k].version < U16
      && (!s.meta[k].live ==> Inc(k, s.meta[k].version) in s.markers)
  }

  /** The markers on their way to being reclaimed, the one in flight first. */
  ghost function Pending(s: State): seq<Inc> {
    (if s.flight.Idle? then [] else [s.flight.inc]) + s.tasks
  }

  /** Pending markers are filed, distinct, and come after every older marker of
      the same key. */
  ghost predicate Ordered(markers: set<Inc>, q: seq<Inc>) {
    && (forall i :: 0 <= i < |q| ==> q[i] in markers)
    && (forall i, j :: 0 <= i < j < |q| ==> q[i] != q[j])
    && (forall i, m :: 0 <= i < |q| && m in markers && m.key == q[i].key && m.version < q[i].version ==> m in q[..i])
  }

  ghost predicate QueueOk(s: State) { Ordered(s.markers, Pending(s)) }

  /** What has been scanned is still exactly what is there. */
  ghost predicate FlightOk(s: State) {
    match s.flight
    case Idle => true
    case Popped(_) => true
    case ItemsSeen(inc, batch) => batch == Filed(s, inc, Kind.Items)
    case AllSeen(inc, batch) => batch == Contents(s, inc).Keys
  }

  ghost predicate Inv(s: State) {
    Owned(s) && MarkersBelow(s) && MetaOk(s) && QueueOk(s) && FlightOk(s)
  }

  /** Does this write reuse version 0 after 65536 incarnations? */
  ghost predicate Wraps(s: State, step: Step) {
    step.Write? && step.key in s.meta && !s.meta[step.key].live && s.meta[step.key].version == U16 - 1
  }

  // ------------------------------------------------------- each step keeps it

  /** An incarnation a writer uses is not pending, and is empty if it is new. */
  lemma WriteVersionFresh(s: State, key: bytes)
    requires Inv(s) && !(key in s.meta && !s.meta[key].live && s.meta[key].version == U16 - 1)
    ensures Inc(key, WriteVersion(s, key)) !in s.markers
    ensures !Live(s, key) ==> Contents(s, Inc(key, WriteVersion(s, key))) == map[]
  {}

  /** A client step that leaves pending incarnations alone leaves the reclaim alone. */
  lemma SameQueue(s: State, t: State)
    requires QueueOk(s) && FlightOk(s) && t.flight == s.flight && t.tasks == s.tasks
    requires t.markers == s.markers && forall m :: m in s.markers ==> Contents(t, m) == Contents(s, m)
    ensures QueueOk(t) && FlightOk(t)
  {
    assert Pending(t) == Pending(s);
    if !s.flight.Idle? { assert Pending(s)[0] == s.flight.inc; }
  }

  lemma WriteKeepsInv(s: State, step: Step)
    requires Inv(s) && step.Write? && Enabled(s, step)
    ensures Inv(Apply(s, step)) <==> !Wraps(s, step)
  {
    hide QueueOk, FlightOk;
    var t := Apply(s, step);
    var key := step.key;
    if Wraps(s, step) {
      assert Inc(key, U16 - 1) in t.markers;
      assert !MarkersBelow(t);
    } else {
      WriteVersionFresh(s, key);
      assert forall m :: m in s.markers ==> Contents(t, m) == Contents(s, m);
      SameQueue(s, t);
    }
  }

  lemma DeleteKeepsInv(s: State, step: Step)
    requires Inv(s) && step.Delete? && Enabled(s, step)
    ensures Inv(Apply(s, step))
  {
    var t := Apply(s, step);
    assert Pending(t) == Pending(s);
    assert forall inc :: Contents(t, inc) == Contents(s, inc);
    assert FlightOk(t);
  }

  lemma LoadOrdered(markers: set<Inc>, q: seq<Inc>)
    requires IsLoad(markers, q) && forall m :: m in markers ==> m.version < U16
    ensures Ordered(markers, q)
  {
    hide Less, EncodeDeleteKey;
    forall i, j | 0 <= i < j < |q| ensures q[i] != q[j] {
      LessIrreflexive(EncodeDeleteKey(q[i].key, q[i].version));
    }
    forall i, m | 0 <= i < |q| && m in markers && m.key == q[i].key && m.version < q[i].version
      ensures m in q[..i]
    {
      OlderFirst(markers, q, i, m);
    }
  }

  lemma LoadKeepsInv(s: State, step: Step)
    requires Inv(s) && step.Load? && Enabled(s, step)
    ensures Inv(Apply(s, step))
  {
    hide IsLoad, Ordered;
    LoadOrdered(s.markers, step.queue);
    assert Pending(Apply(s, step)) == step.queue;
  }

  /** In store order an older marker of a key is read before a newer one. */
  lemma OlderFirst(markers: set<Inc>, q: seq<Inc>, i: nat, m: Inc)
    requires IsLoad(markers, q) && i < |q| && m in markers && m.key == q[i].key && m.version < q[i].version < U16
    ensures m in q[..i]
  {
    hide Less, EncodeDeleteKey;
    MarkerOrder(m.key, m.version, q[i].version);
    MarkerOrder(m.key, q[i].version, m.version);
    assert !MarkerLess(q[i], m);
    var j :| 0 <= j < |q| && q[j] == m;
    assert j <= i;
    assert q[..i][j] == m;
  }

  lemma PopKeepsInv(s: State, step: Step)
    requires Inv(s) && step.Pop? && Enabled(s, step)
    ensures Inv(Apply(s, step))
  {
    assert Pending(Apply(s, step)) == Pending(s);
  }

  lemma SeeKeepsInv(s: State, step: Step)
    requires Inv(s) && (step.SeeItems? || step.SeeScores?) && Enabled(s, step)
    ensures Inv(Apply(s, step))
  {
    var t := Apply(s, step);
    assert Pending(t) == Pending(s);
    assert forall inc :: Contents(t, inc) == Contents(s, inc);
    if step.SeeScores? {
      var inc := s.flight.inc;
      forall x | x in Contents(s, inc) ensures x in t.flight.batch { assert x.kind == Kind.Items || x.kind == Scores; }
    }
  }

  /** A marker is reclaimed only after every older one of its key. */
  lemma OldestFirst(s: State)
    requires QueueOk(s) && !s.flight.Idle?
    ensures s.flight.inc in s.markers
    ensures forall m :: m in s.markers && m.key == s.flight.inc.key ==> m.version >= s.flight.inc.version
  {
    var q := Pending(s);
    assert q[0] == s.flight.inc && q[..0] == [];
  }

  lemma OrderedTail(markers: set<Inc>, q: seq<Inc>)
    requires q != [] && Ordered(markers, q)
    ensures Ordered(markers - {q[0]}, q[1..])
  {
    var r := q[1..];
    forall i, m | 0 <= i < |r| && m in markers - {q[0]} && m.key == r[i].key && m.version < r[i].version
      ensures m in r[..i]
    {
      assert m in q[..i + 1];
      assert q[..i + 1] == [q[0]] + r[..i];
    }
  }

  lemma CommitOwned(s: State)
    requires Owned(s) && s.flight.AllSeen? && s.flight.batch == Contents(s, s.flight.inc).Keys
    requires forall m :: m in s.markers && m.key == s.flight.inc.key ==> m.version >= s.flight.inc.version
    ensures Owned(DoCommit(s))
  {
    assert DoCommit(s).data[s.flight.inc] == map[];
  }

  lemma CommitMeta(s: State)
    requires MarkersBelow(s) && MetaOk(s) && s.flight.AllSeen? && s.flight.inc in s.markers
    requires forall m :: m in s.markers && m.key == s.flight.inc.key ==> m.version >= s.flight.inc.version
    ensures MarkersBelow(DoCommit(s)) && MetaOk(DoCommit(s))
  {}

  lemma CommitKeepsInv(s: State, step: Step)
    requires Inv(s) && step.Commit? && Enabled(s, step)
    ensures Inv(Apply(s, step))
  {
    hide Ordered, IsLoad, DoWrite, DoDelete, Filed, Owned, MarkersBelow, MetaOk;
    OldestFirst(s);
    OrderedTail(s.markers, Pending(s));
    assert Pending(s)[1..] == s.tasks == Pending(Apply(s, step));
    CommitOwned(s);
    CommitMeta(s);
  }

  /** Every step but a version wrap keeps the invariant; a wrap never does. */
  lemma StepKeepsInv(s: State, step: Step)
    requires Inv(s) && Enabled(s, step)
    ensures Inv(Apply(s, step)) <==> !Wraps(s, step)
  {
    match step
    case Write(_, _, _, _) => WriteKeepsInv(s, step);
    case Delete(_) => DeleteKeepsInv(s, step);
    case Load(_) => LoadKeepsInv(s, step);
    case Pop => PopKeepsInv(s, step);
    case SeeItems => SeeKeepsInv(s, step);
    case SeeScores => SeeKeepsInv(s, step);
    case Commit => CommitKeepsInv(s, step);
  }

  // ----------------------------------------------------- refinement of a plain map

  /** What clients see of a key. */
  datatype Value = Value(info: bytes, content: Content)

  type Visible = map<bytes, Value>

  ghost function View(s: State): Visible {
    map k | k in s.meta && s.meta[k].live :: Value(s.meta[k].info, Contents(s, Inc(k, s.meta[k].version)))
  }

  /** The same step on a plain map of values: background steps do nothing. */
  ghost function Plain(v: Visible, step: Step): Visible {
    match step
    case Write(key, puts, dels, info) =>
      var was := if key in v then v[key].content else map[];
      v[key := Value(info, (was - dels) + puts)]
    case Delete(key) => v - {key}
    case _ => v
  }

  lemma WriteRefines(s: State, step: Step)
    requires Inv(s) && step.Write? && Enabled(s, step) && !Wraps(s, step)
    ensures View(Apply(s, step)) == Plain(View(s), step)
  {
    hide Inv, IsLoad;
    WriteVersionFresh(s, step.key);
    var t := Apply(s, step);
    var (u, w) := (View(t), Plain(View(s), step));
    forall k | k != step.key ensures k in u <==> k in w {}
    forall k | k in u ensures u[k] == w[k] {
      if k != step.key { assert Contents(t, Inc(k, s.meta[k].version)) == Contents(s, Inc(k, s.meta[k].version)); }
    }
  }

  lemma CommitRefines(s: State, step: Step)
    requires Inv(s) && step.Commit? && Enabled(s, step)
    ensures View(Apply(s, step)) == View(s)
  {
    hide Ordered;
    OldestFirst(s);
    var t := Apply(s, step);
    assert forall inc :: inc != s.flight.inc ==> Contents(t, inc) == Contents(s, inc);
  }

  lemma DeleteRefines(s: State, key: bytes)
    ensures View(DoDelete(s, key)) == View(s) - {key}
  {
    var t := DoDelete(s, key);
    assert t.data == s.data;
    assert forall k :: k in View(t) ==> k in View(s) && View(t)[k] == View(s)[k];
  }

  lemma SameView(s: State, t: State)
    requires t.meta == s.meta && t.data == s.data
    ensures View(t) == View(s)
  {}

  /** What a client sees of its own step: the records put, those it had and did not
      delete, and nothing else; no other key changes. */
  lemma ClientSees(s: State, step: Step, k: bytes, x: Slot)
    requires Inv(s) && (step.Write? || step.Delete?) && Enabled(s, step) && !Wraps(s, step)
    ensures var (was, now) := (View(s), View(Apply(s, step)));
            && (k != step.key ==> (k in now <==> k in was) && (k in was ==> now[k] == was[k]))
            && (step.Delete? ==> step.key !in now)
            && (step.Write? ==> step.key in now && now[step.key].info == step.info)
            && (step.Write? ==> (x in now[step.key].content <==>
                  x in step.puts || (step.key in was && x in was[step.key].content && x !in step.dels)))
            && (step.Write? && x in now[step.key].content ==>
                  now[step.key].content[x] == if x in step.puts then step.puts[x] else was[step.key].content[x])
  {
    hide Inv, View, Apply, IsLoad;
    StepRefines(s, step);
  }

  /** The version a write uses: the live one, the one after a tombstone's in 16 bits, or
      zero for a key without a meta record. */
  lemma VersionUsed(s: State, step: Step)
    requires Inv(s) && step.Write? && Enabled(s, step)
    ensures var t := Apply(s, step);
            && step.key in t.meta && t.meta[step.key].live
            && (step.key !in s.meta ==> t.meta[step.key].version == 0)
            && (step.key in s.meta && s.meta[step.key].live ==> t.meta[step.key].version == s.meta[step.key].version)
            && (step.key in s.meta && !s.meta[step.key].live ==>
                  t.meta[step.key].version == (s.meta[step.key].version + 1) % 0x1_0000)
  {
    hide Owned, MarkersBelow, QueueOk, FlightOk, IsLoad;
  }

  /** A new incarnation starts empty, reclaim steps change no visible value, and a
      client step changes its own key alone. */
  lemma StepRefines(s: State, step: Step)
    requires Inv(s) && Enabled(s, step) && !Wraps(s, step)
    ensures View(Apply(s, step)) == Plain(View(s), step)
  {
    hide Inv, View, DoCommit, DoWrite, DoDelete, Filed, IsLoad;
    match step
    case Write(_, _, _, _) => WriteRefines(s, step);
    case Delete(key) => DeleteRefines(s, key);
    case Commit => CommitRefines(s, step);
    case _ => SameView(s, Apply(s, step));
  }

  // ------------------------------------------------------------------ whole runs

  /** A run of enabled steps from s. */
  ghost predicate IsRun(s: State, steps: seq<Step>)
    decreases |steps|
  {
    steps == [] || (Enabled(s, steps[0]) && IsRun(Apply(s, steps[0]), steps[1..]))
  }

  ghost function After(s: State, steps: seq<Step>): State
    requires IsRun(s, steps)
    decreases |steps|
  {
    if steps == [] then s else After(Apply(s, steps[0]), steps[1..])
  }

  ghost predicate NoWrap(s: State, steps: seq<Step>)
    requires IsRun(s, steps)
    decreases |steps|
  {
    steps == [] || (!Wraps(s, steps[0]) && NoWrap(Apply(s, steps[0]), steps[1..]))
  }

  ghost function PlainAfter(v: Visible, steps: seq<Step>): Visible
    decreases |steps|
  {
    if steps == [] then v else PlainAfter(Plain(v, steps[0]), steps[1..])
  }

  /** Every interleaving of client and reclaim steps shows what the client steps
      alone make of a plain map. */
  lemma {:induction false} RunRefines(s: State, steps: seq<Step>)
    requires Inv(s) && IsRun(s, steps) && NoWrap(s, steps)
    ensures Inv(After(s, steps)) && View(After(s, steps)) == PlainAfter(View(s), steps)
    decreases |steps|
  {
    hide Inv, Enabled, Apply, View, Plain, Wraps;
    if steps != [] {
      StepKeepsInv(s, steps[0]);
      StepRefines(s, steps[0]);
      RunRefines(Apply(s, steps[0]), steps[1..]);
    }
  }

  lemma EmptyInv()
    ensures Inv(Empty) && View(Empty) == map[]
  {}

  /** Once no marker is left, no record of a dead incarnation is left either. */
  lemma NothingLeaks(s: State, inc: Inc)
    requires Inv(s) && s.markers == {}
    ensures Contents(s, inc) != map[] ==> inc.key in View(s) && s.meta[inc.key].version == inc.version
    ensures forall k :: k in s.meta ==> k in View(s)
  {}

  // ----------------------------------------------------- reclaim alone finishes

  ghost predicate Background(step: Step) { !step.Write? && !step.Delete? }

  ghost predicate Small(markers: set<Inc>) { forall m :: m in markers ==> |m.key| < U16 && m.version < U16 }

  lemma MarkerTotal(a: Inc, b: Inc)
    requires |a.key| < U16 && a.version < U16 && |b.key| < U16 && b.version < U16
    ensures a == b || MarkerLess(a, b) || MarkerLess(b, a)
  {
    hide Less, EncodeKey, ParseKey;
    LessTotal(EncodeDeleteKey(a.key, a.version), EncodeDeleteKey(b.key, b.version));
    KeyRoundTrip(DELETE, a.key, a.version, []);
    KeyRoundTrip(DELETE, b.key, b.version, []);
  }

  lemma MarkerTransitive(a: Inc, b: Inc, c: Inc)
    requires MarkerLess(a, b) && MarkerLess(b, c)
    ensures MarkerLess(a, c)
  {
    hide Less;
    LessTransitive(EncodeDeleteKey(a.key, a.version), EncodeDeleteKey(b.key, b.version), EncodeDeleteKey(c.key, c.version));
  }

  lemma {:induction false} LeastMarker(markers: set<Inc>) returns (m: Inc)
    requires markers != {} && Small(markers)
    ensures m in markers && forall x :: x in markers && x != m ==> MarkerLess(m, x)
  {
    hide MarkerLess;
    var x :| x in markers;
    var rest := markers - {x};
    assert forall z :: z in markers ==> z == x || z in rest;
    m := x;
    if rest != {} {
      var y := LeastMarker(rest);
      MarkerTotal(x, y);
      m := if MarkerLess(x, y) then x else y;
      forall z | z in markers && z != m ensures MarkerLess(m, z) {
        if m == x && z != y { MarkerTransitive(x, y, z); }
      }
    }
  }

  /** The first n markers in store order. */
  lemma {:induction false} FirstMarkers(markers: set<Inc>, n: nat) returns (q: seq<Inc>)
    requires Small(markers)
    ensures |q| <= n && (forall i :: 0 <= i < |q| ==> q[i] in markers)
    ensures forall i, j :: 0 <= i < j < |q| ==> MarkerLess(q[i], q[j])
    ensures forall m, i :: m in markers && 0 <= i < |q| && m !in q ==> MarkerLess(q[i], m)
    ensures |q| < n ==> forall m :: m in markers ==> m in q
  {
    hide MarkerLess;
    q := [];
    if n > 0 && markers != {} {
      var m := LeastMarker(markers);
      assert MarkerLess(m, m) ==> false by { Irreflexive(m); }
      var r := FirstMarkers(markers - {m}, n - 1);
      q := [m] + r;
      assert forall i :: 0 < i < |q| ==> q[i] == r[i - 1];
      assert forall x :: x in q <==> x == m || x in r;
    }
  }

  lemma Irreflexive(m: Inc)
    ensures !MarkerLess(m, m)
  {
    LessIrreflexive(EncodeDeleteKey(m.key, m.version));
  }

  ghost function Phase(s: State): nat {
    match s.flight
    case Idle => if s.tasks == [] then 5 else 4
    case Popped(_) => 3
    case ItemsSeen(_, _) => 2
    case AllSeen(_, _) => 1
  }

  lemma NextBackground(s: State) returns (step: Step)
    requires Inv(s) && s.markers != {}
    ensures Background(step) && Enabled(s, step)
    ensures var t := Apply(s, step); |t.markers| < |s.markers| || (t.markers == s.markers && Phase(t) < Phase(s))
  {
    hide MarkerLess, Owned, FlightOk, Ordered;
    match s.flight
    case Idle =>
      if s.tasks == [] {
        var q := FirstMarkers(s.markers, LOAD_LIMIT);
        step := Load(q);
      } else {
        step := Pop;
      }
    case Popped(_) => step := SeeItems;
    case ItemsSeen(_, _) => step := SeeScores;
    case AllSeen(_, _) => step := Commit; OldestFirst(s);
  }

  /** From any reachable state the background thread alone empties the markers,
      and nobody sees a difference. */
  lemma {:induction false} Drains(s: State) returns (steps: seq<Step>)
    requires Inv(s)
    ensures forall i :: 0 <= i < |steps| ==> Background(steps[i])
    ensures IsRun(s, steps) && Inv(After(s, steps)) && After(s, steps).markers == {}
    ensures View(After(s, steps)) == View(s)
    decreases |s.markers|, Phase(s)
  {
    hide Inv, Enabled, Apply, View, Phase, Plain;
    steps := [];
    if s.markers != {} {
      var step := NextBackground(s);
      StepKeepsInv(s, step);
      StepRefines(s, step);
      assert Plain(View(s), step) == View(s) by { PlainBackground(View(s), step); }
      var rest := Drains(Apply(s, step));
      steps := [step] + rest;
      assert steps[1..] == rest;
    }
  }

  lemma PlainBackground(v: Visible, step: Step)
    requires Background(step)
    ensures Plain(v, step) == v
  {}

  // ----------------------------------------------- what a version wrap would do

  /** The key has been deleted for the (v + 1)-th time and nothing was reclaimed. */
  ghost predicate Churned(s: State, key: bytes, v: nat) {
    && |key| < U16 && s.meta == map[key := Meta(false, v, [])] && s.tasks == [] && s.flight.Idle?
    && Contents(s, Inc(key, 0)) == map[] && forall m :: m in s.markers <==> m.key == key && m.version <= v
  }

  ghost function Once(s: State, key: bytes): State { DoDelete(DoWrite(s, key, map[], {}, []), key) }

  lemma ChurnOnce(s: State, key: bytes, v: nat)
    requires v + 1 < U16 && Churned(s, key, v)
    ensures Churned(Once(s, key), key, v + 1)
  {}

  lemma {:induction false} Churn(s: State, key: bytes, v: nat) returns (steps: seq<Step>)
    requires v < U16 && Churned(s, key, v)
    ensures IsRun(s, steps) && Churned(After(s, steps), key, U16 - 1)
    decreases U16 - v
  {
    hide Churned, DoWrite, DoDelete;
    steps := [];
    if v < U16 - 1 {
      ChurnOnce(s, key, v);
      var rest := Churn(Once(s, key), key, v + 1);
      TwoMore(s, key, rest);
      steps := [Write(key, map[], {}, []), Delete(key)] + rest;
    }
  }

  lemma TwoMore(s: State, key: bytes, rest: seq<Step>)
    requires IsRun(Once(s, key), rest) && |key| < U16
    ensures var steps := [Write(key, map[], {}, []), Delete(key)] + rest;
            IsRun(s, steps) && After(s, steps) == After(Once(s, key), rest)
  {
    hide DoWrite, DoDelete;
    var steps := [Write(key, map[], {}, []), Delete(key)] + rest;
    assert steps[1..] == [Delete(key)] + rest;
    assert ([Delete(key)] + rest)[1..] == rest;
  }

  /** One pass of the background thread. */
  ghost function Pass(q: seq<Inc>): seq<Step> {
    [Load(q)] + ([Pop] + ([SeeItems] + ([SeeScores] + ([Commit] + []))))
  }

  lemma Then(s: State, step: Step, rest: seq<Step>, v: Visible)
    requires Enabled(s, step) && IsRun(Apply(s, step), rest)
    ensures IsRun(s, [step] + rest) && After(s, [step] + rest) == After(Apply(s, step), rest)
    ensures PlainAfter(v, [step] + rest) == PlainAfter(Plain(v, step), rest)
  {
    hide Enabled, Apply, Plain;
    assert ([step] + rest)[1..] == rest;
  }

  lemma FirstThousand(s: State, key: bytes)
    requires Churned(s, key, U16 - 1)
    ensures IsLoad(s.markers, seq(LOAD_LIMIT, (i: nat) => Inc(key, i)))
  {
    hide Less, EncodeDeleteKey;
    var q := seq(LOAD_LIMIT, (i: nat) => Inc(key, i));
    forall i, j | 0 <= i < j < |q| ensures MarkerLess(q[i], q[j]) { MarkerOrder(key, i, j); }
    forall m, i | m in s.markers && 0 <= i < |q| && m !in q ensures MarkerLess(q[i], m) {
      assert forall j :: 0 <= j < |q| ==> q[j] == Inc(key, j) && q[j] != m;
      assert m.version >= LOAD_LIMIT;
      MarkerOrder(key, i, m.version);
    }
  }

  lemma PassRuns(s: State, q: seq<Inc>, v: Visible)
    requires s.flight.Idle? && s.tasks == [] && IsLoad(s.markers, q) && q != []
    ensures IsRun(s, Pass(q)) && PlainAfter(v, Pass(q)) == v
    ensures After(s, Pass(q))
            == DoCommit(s.(tasks := q[1..], flight := AllSeen(q[0], Filed(s, q[0], Kind.Items) + Filed(s, q[0], Scores))))
  {
    hide IsLoad, PlainAfter, IsRun, DoCommit, DoWrite, DoDelete, Filed;
    var s2 := Apply(s, Load(q));
    var s3 := Apply(s2, Pop);
    var s4 := Apply(s3, SeeItems);
    var s5 := Apply(s4, SeeScores);
    FiledSame(s, s3, q[0]);
    FiledSame(s, s4, q[0]);
    Nil(Apply(s5, Commit), v);
    Then(s5, Commit, [], v);
    Then(s4, SeeScores, [Commit] + [], v);
    Then(s3, SeeItems, [SeeScores] + ([Commit] + []), v);
    Then(s2, Pop, [SeeItems] + ([SeeScores] + ([Commit] + [])), v);
    Then(s, Load(q), [Pop] + ([SeeItems] + ([SeeScores] + ([Commit] + []))), v);
  }

  lemma FiledSame(s: State, t: State, inc: Inc)
    requires s.data == t.data
    ensures forall kind :: Filed(s, inc, kind) == Filed(t, inc, kind)
  {}

  lemma Nil(s: State, v: Visible)
    ensures IsRun(s, []) && After(s, []) == s && PlainAfter(v, []) == v
  {}

  /** After a wrap the live incarnation shares version 0 with a marker, and the
      next pass wipes what was just written. */
  lemma WrapLoses(s: State, key: bytes, puts: Content) returns (steps: seq<Step>)
    requires Churned(s, key, U16 - 1)
    ensures IsRun(s, steps) && View(After(s, steps)) == map[key := Value([], map[])]
    ensures PlainAfter(View(s), steps) == map[key := Value([], puts)]
  {
    hide Less, IsLoad, PlainAfter, IsRun, View, Pass, DoCommit, DoDelete, Filed;
    FirstThousand(s, key);
    var q := seq(LOAD_LIMIT, (i: nat) => Inc(key, i));
    var w := Write(key, puts, {}, []);
    steps := [w] + Pass(q);
    var s1 := Apply(s, w);
    NoneLive(s);
    assert Plain(View(s), w) == map[key := Value([], puts)] by { assert (map[] - {}) + puts == puts; }
    PassRuns(s1, q, map[key := Value([], puts)]);
    Then(s, w, Pass(q), View(s));
    Wiped(s1.(tasks := q[1..], flight := AllSeen(q[0], Filed(s1, q[0], Kind.Items) + Filed(s1, q[0], Scores))), s1, key);
  }

  lemma NoneLive(s: State)
    requires forall k :: k in s.meta ==> !s.meta[k].live
    ensures View(s) == map[]
  {}

  lemma Wiped(s: State, s1: State, key: bytes)
    requires s.meta == map[key := Meta(true, 0, [])] && s.data == s1.data
    requires s.flight == AllSeen(Inc(key, 0), Filed(s1, Inc(key, 0), Kind.Items) + Filed(s1, Inc(key, 0), Scores))
    ensures View(DoCommit(s)) == map[key := Value([], map[])]
  {
    var t, inc := DoCommit(s), Inc(key, 0);
    forall x | x in Contents(s, inc) ensures x in s.flight.batch { assert x.kind == Kind.Items || x.kind == Scores; }
    assert Contents(t, inc) == map[];
    assert t.meta == s.meta;
  }

  /** A key can be written, deleted and never reclaimed 65536 times. */
  lemma WrapReachable(key: bytes) returns (steps: seq<Step>)
    requires |key| < U16
    ensures IsRun(Empty, steps) && Churned(After(Empty, steps), key, U16 - 1)
  {
    hide Churned, DoWrite, DoDelete, IsRun;
    FirstChurn(key);
    var rest := Churn(Once(Empty, key), key, 0);
    TwoMore(Empty, key, rest);
    steps := [Write(key, map[], {}, []), Delete(key)] + rest;
  }

  lemma FirstChurn(key: bytes)
    requires |key| < U16
    ensures Churned(Once(Empty, key), key, 0)
  {}
}
