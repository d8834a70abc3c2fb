/** The byte keys of the store behind a reclaim state, kept by every batch that clients
    and the background thread commit. */
module ReclaimStore {
  import opened Bytes
  import opened KvCodec
  import opened Scan
  import opened Reclaim
  import opened ReclaimExact
  import opened ReclaimScan

  const META: byte := 0x4d   // 'M'

  function MetaKey(key: bytes): bytes { [META] + key }

  ghost predicate Narrow(inc: Inc) { |inc.key| < U16 && inc.version < U16 }

  /** A score record's field starts with the score. */
  ghost predicate ProperSlot(x: Slot) { x.kind.Scores? ==> |x.field| >= 8 }

  ghost predicate IsMarkerKey(b: bytes) { exists m :: Narrow(m) && b == MarkerKey(m) }

  ghost predicate IsSlotKey(b: bytes, kind: Kind) {
    exists inc, x: Slot :: Narrow(inc) && ProperSlot(x) && x.kind == kind && b == SlotKey(inc, x)
  }

  /** The store files exactly the state's markers, records and meta records; keys of other
      types are anyone's. */
  ghost predicate Stored(store: set<bytes>, s: State) {
    && (forall m :: Narrow(m) ==> (m in s.markers <==> MarkerKey(m) in store))
    && (forall inc, x: Slot :: Narrow(inc) ==> (x in Contents(s, inc) <==> SlotKey(inc, x) in store))
    && (forall k :: k in s.meta <==> MetaKey(k) in store)
    && OnlyKeys(store)
  }

  ghost predicate OnlyKeys(store: set<bytes>) {
    && (forall b :: b in store && b != [] && b[0] == DELETE ==> IsMarkerKey(b))
    && (forall b, kind :: b in store && b != [] && b[0] == TypeOf(kind) ==> IsSlotKey(b, kind))
  }

  ghost function SlotKeys(inc: Inc, xs: set<Slot>): set<bytes> { set x | x in xs :: SlotKey(inc, x) }

  /** What each step's batch makes of the keys. */
  ghost function Batch(store: set<bytes>, s: State, step: Step): set<bytes>
    requires Enabled(s, step)
  {
    match step
    case Write(key, puts, dels, _) =>
      var inc := Inc(key, WriteVersion(s, key));
      ((store - SlotKeys(inc, dels)) + SlotKeys(inc, puts.Keys)) + {MetaKey(key)}
    case Delete(key) =>
      if Live(s, key) then store + {MetaKey(key), MarkerKey(Inc(key, s.meta[key].version))} else store
    case Commit =>
      var inc := s.flight.inc;
      var rest := (store - SlotKeys(inc, s.flight.batch)) - {MarkerKey(inc)};
      if inc.key in s.meta && !s.meta[inc.key].live && s.meta[inc.key].version == inc.version then rest - {MetaKey(inc.key)}
      else rest
    case _ => store
  }

  // -------------------------------------------------------------- keys are distinct

  lemma SlotKeyStarts(inc: Inc, x: Slot)
    ensures SlotKey(inc, x) != [] && SlotKey(inc, x)[0] == TypeOf(x.kind)
  {}

  lemma MarkerKeyStarts(m: Inc)
    ensures MarkerKey(m) != [] && MarkerKey(m)[0] == DELETE
  {}

  lemma SlotInjective(a: Inc, x: Slot, b: Inc, y: Slot)
    requires Narrow(a) && Narrow(b) && SlotKey(a, x) == SlotKey(b, y)
    ensures a == b && x == y
  {
    hide EncodeKey, ParseKey;
    SlotKeyStarts(a, x);
    SlotKeyStarts(b, y);
    ParseExactly(TypeOf(x.kind), SlotKey(a, x), a.key, a.version, x.field);
    ParseExactly(TypeOf(y.kind), SlotKey(b, y), b.key, b.version, y.field);
  }

  lemma MarkerInjective(a: Inc, b: Inc)
    requires Narrow(a) && Narrow(b) && MarkerKey(a) == MarkerKey(b)
    ensures a == b
  {
    hide EncodeKey, ParseKey;
    ParseExactly(DELETE, MarkerKey(a), a.key, a.version, []);
    ParseExactly(DELETE, MarkerKey(b), b.key, b.version, []);
  }

  /** Which keys are among the records of xs. */
  lemma AmongSlots(inc: Inc, xs: set<Slot>)
    requires Narrow(inc)
    ensures forall a, x: Slot :: Narrow(a) ==> (SlotKey(a, x) in SlotKeys(inc, xs) <==> a == inc && x in xs)
    ensures forall m :: MarkerKey(m) !in SlotKeys(inc, xs)
    ensures forall k :: MetaKey(k) !in SlotKeys(inc, xs)
    ensures forall b :: b in SlotKeys(inc, xs) ==> b != [] && exists x :: x in xs && b == SlotKey(inc, x) && b[0] == TypeOf(x.kind)
  {
    hide SlotKey, MarkerKey;
    forall b | b in SlotKeys(inc, xs) ensures b != [] && exists x :: x in xs && b == SlotKey(inc, x) && b[0] == TypeOf(x.kind) {
      var x :| x in xs && b == SlotKey(inc, x);
      SlotKeyStarts(inc, x);
    }
    forall a, x: Slot | Narrow(a) ensures SlotKey(a, x) in SlotKeys(inc, xs) <==> a == inc && x in xs {
      if SlotKey(a, x) in SlotKeys(inc, xs) {
        var y :| y in xs && SlotKey(inc, y) == SlotKey(a, x);
        SlotInjective(a, x, inc, y);
      }
    }
    forall m ensures MarkerKey(m) !in SlotKeys(inc, xs) { MarkerKeyStarts(m); }
  }

  /** Markers and meta records are no records. */
  lemma Apart()
    ensures forall inc, x: Slot, m :: SlotKey(inc, x) != MarkerKey(m)
    ensures forall inc, x: Slot, k :: SlotKey(inc, x) != MetaKey(k)
    ensures forall m, k :: MarkerKey(m) != MetaKey(k)
    ensures forall j, k :: MetaKey(j) == MetaKey(k) ==> j == k
  {
    hide SlotKey, MarkerKey;
    forall inc, x: Slot, m ensures SlotKey(inc, x) != MarkerKey(m) {
      SlotKeyStarts(inc, x);
      MarkerKeyStarts(m);
    }
    forall inc, x: Slot, k ensures SlotKey(inc, x) != MetaKey(k) { SlotKeyStarts(inc, x); }
    forall m, k ensures MarkerKey(m) != MetaKey(k) { MarkerKeyStarts(m); }
    forall j, k | MetaKey(j) == MetaKey(k) ensures j == k { assert MetaKey(j)[1..] == j && MetaKey(k)[1..] == k; }
  }

  // ---------------------------------------------------------------------- the steps

  lemma WriteStores(store: set<bytes>, s: State, key: bytes, puts: Content, dels: set<Slot>, info: bytes)
    requires Stored(store, s) && |key| < U16 && WriteVersion(s, key) < U16 && forall x :: x in puts ==> ProperSlot(x)
    ensures Stored(Batch(store, s, Write(key, puts, dels, info)), DoWrite(s, key, puts, dels, info))
  {
    hide SlotKey, MarkerKey, MetaKey, SlotKeys, OnlyKeys, WriteVersion;
    var inc := Inc(key, WriteVersion(s, key));
    AmongSlots(inc, dels);
    AmongSlots(inc, puts.Keys);
    Apart();
    OnlyWrite(store, inc, puts.Keys, dels, key);
  }

  lemma OnlyWrite(store: set<bytes>, inc: Inc, puts: set<Slot>, dels: set<Slot>, key: bytes)
    requires OnlyKeys(store) && Narrow(inc) && forall x :: x in puts ==> ProperSlot(x)
    ensures OnlyKeys(((store - SlotKeys(inc, dels)) + SlotKeys(inc, puts)) + {MetaKey(key)})
  {
    hide SlotKey, SlotKeys, IsMarkerKey;
    AmongSlots(inc, puts);
  }

  lemma DeleteStores(store: set<bytes>, s: State, key: bytes)
    requires Stored(store, s) && (Live(s, key) ==> Narrow(Inc(key, s.meta[key].version)))
    ensures Stored(Batch(store, s, Delete(key)), DoDelete(s, key))
  {
    hide SlotKey, MarkerKey, MetaKey, OnlyKeys;
    Apart();
    if Live(s, key) {
      var m := Inc(key, s.meta[key].version);
      MarkerAlone(m);
      OnlyDelete(store, m, key);
    }
  }

  lemma MarkerAlone(m: Inc)
    requires Narrow(m)
    ensures forall a :: Narrow(a) && MarkerKey(a) == MarkerKey(m) ==> a == m
  {
    hide MarkerKey;
    forall a | Narrow(a) && MarkerKey(a) == MarkerKey(m) ensures a == m { MarkerInjective(a, m); }
  }

  lemma OnlyDelete(store: set<bytes>, m: Inc, key: bytes)
    requires OnlyKeys(store) && Narrow(m)
    ensures OnlyKeys(store + {MetaKey(key), MarkerKey(m)})
  {
    hide SlotKey, MarkerKey, IsSlotKey;
    MarkerKeyStarts(m);
  }

  lemma CommitStores(store: set<bytes>, s: State)
    requires Stored(store, s) && s.flight.AllSeen? && Narrow(s.flight.inc)
    ensures Stored(Batch(store, s, Commit), DoCommit(s))
  {
    hide SlotKey, MarkerKey, MetaKey, SlotKeys, OnlyKeys, DoCommit, Contents;
    var inc := s.flight.inc;
    CommitParts(s);
    AmongSlots(inc, s.flight.batch);
    Apart();
    MarkerAlone(inc);
    OnlyLess(store, Batch(store, s, Commit));
  }

  lemma CommitParts(s: State)
    requires s.flight.AllSeen?
    ensures var (t, inc) := (DoCommit(s), s.flight.inc);
            && t.markers == s.markers - {inc}
            && (forall a :: a != inc ==> Contents(t, a) == Contents(s, a))
            && Contents(t, inc) == Contents(s, inc) - s.flight.batch
            && t.meta == if inc.key in s.meta && !s.meta[inc.key].live && s.meta[inc.key].version == inc.version
                         then s.meta - {inc.key} else s.meta
  {}

  lemma OnlyLess(store: set<bytes>, less: set<bytes>)
    requires OnlyKeys(store) && less <= store
    ensures OnlyKeys(less)
  {
    hide IsMarkerKey, IsSlotKey;
  }

  ghost predicate ProperStep(step: Step) { step.Write? ==> forall x :: x in step.puts ==> ProperSlot(x) }

  /** Every step's batch keeps the keys in step with the state. */
  lemma StepStores(store: set<bytes>, s: State, step: Step)
    requires Stored(store, s) && Basic(s) && Enabled(s, step) && ProperStep(step)
    ensures Stored(Batch(store, s, step), Apply(s, step))
  {
    hide Stored, IsLoad, Contents, Filed, DoWrite, DoCommit, DoDelete, Distinct;
    match step
    case Write(key, puts, dels, info) => WriteStores(store, s, key, puts, dels, info);
    case Delete(key) => DeleteStores(store, s, key);
    case Commit =>
      assert Narrow(s.flight.inc) by { FlightNarrow(s); }
      CommitStores(store, s);
    case _ => SameStored(store, s, Apply(s, step));
  }

  lemma FlightNarrow(s: State)
    requires Basic(s) && !s.flight.Idle?
    ensures Narrow(s.flight.inc)
  {
    assert Pending(s)[0] == s.flight.inc;
  }

  lemma SameStored(store: set<bytes>, s: State, t: State)
    requires Stored(store, s) && t.meta == s.meta && t.data == s.data && t.markers == s.markers
    ensures Stored(store, t)
  {
    hide SlotKey, MarkerKey, MetaKey, OnlyKeys;
    assert forall inc :: Contents(t, inc) == Contents(s, inc);
  }

  ghost function BatchAll(store: set<bytes>, s: State, steps: seq<Step>): set<bytes>
    requires IsRun(s, steps)
    decreases |steps|
  {
    if steps == [] then store else BatchAll(Batch(store, s, steps[0]), Apply(s, steps[0]), steps[1..])
  }

  /** So after any run, wraps included. */
  lemma {:induction false} RunStores(store: set<bytes>, s: State, steps: seq<Step>)
    requires Stored(store, s) && Basic(s) && IsRun(s, steps) && forall i :: 0 <= i < |steps| ==> ProperStep(steps[i])
    ensures Stored(BatchAll(store, s, steps), After(s, steps)) && Basic(After(s, steps))
    decreases |steps|
  {
    hide Stored, Basic, Enabled, Apply, Batch, ProperStep;
    if steps != [] {
      StepStores(store, s, steps[0]);
      StepBasic(s, steps[0]);
      RunStores(Batch(store, s, steps[0]), Apply(s, steps[0]), steps[1..]);
    }
  }

  lemma EmptyStored()
    ensures Stored({}, Empty) && Basic(Empty)
  {
    assert Pending(Empty) == [];
  }

  /** In particular from an empty store. */
  lemma FromEmptyStore(steps: seq<Step>)
    requires IsRun(Empty, steps) && forall i :: 0 <= i < |steps| ==> ProperStep(steps[i])
    ensures Stored(BatchAll({}, Empty, steps), After(Empty, steps))
  {
    hide Stored, Basic, Enabled, Apply, Batch, ProperStep, IsRun, BatchAll, After;
    EmptyStored();
    RunStores({}, Empty, steps);
  }

  /** Keys of other types do not matter. */
  lemma OtherKeys(store: set<bytes>, other: set<bytes>, s: State)
    requires Stored(store, s)
    requires forall b :: b != [] && b[0] in {DELETE, ITEM, ZSCORE, META} ==> (b in store <==> b in other)
    ensures Stored(other, s)
  {
    hide SlotKey, MarkerKey, MetaKey, IsMarkerKey, IsSlotKey;
    forall m ensures MarkerKey(m) in store <==> MarkerKey(m) in other { MarkerKeyStarts(m); }
    forall inc, x: Slot ensures SlotKey(inc, x) in store <==> SlotKey(inc, x) in other { SlotKeyStarts(inc, x); }
    forall k ensures MetaKey(k) in store <==> MetaKey(k) in other { MetaKeyStarts(k); }
  }

  lemma MetaKeyStarts(k: bytes)
    ensures MetaKey(k) != [] && MetaKey(k)[0] == META
  {}

  // -------------------------------------------------- what the scans ask of the store

  /** The sorted keys of such a store are what both scans of the background thread ask
      for. */
  lemma StoredFiles(ks: seq<bytes>, store: set<bytes>, s: State)
    requires Stored(store, s) && Basic(s) && forall k :: k in ks <==> k in store
    ensures Files(ks, s.markers) && WellFormed(ks, Kind.Items) && WellFormed(ks, Scores)
    ensures forall inc :: Narrow(inc) ==> Holds(ks, s, inc)
  {
    hide SlotKey, MarkerKey, WellFormed;
    forall i | 0 <= i < |ks| && IsMarker(ks[i]) ensures exists m :: m in s.markers && ks[i] == MarkerKey(m) {
      assert ks[i] in store;
      var m :| Narrow(m) && ks[i] == MarkerKey(m);
    }
    StoredParses(ks, store, Kind.Items);
    StoredParses(ks, store, Scores);
  }

  lemma StoredParses(ks: seq<bytes>, store: set<bytes>, kind: Kind)
    requires OnlyKeys(store) && forall k :: k in ks <==> k in store
    ensures WellFormed(ks, kind)
  {
    hide SlotKey, IsMarkerKey, Decode, ParseKey;
    forall i | 0 <= i < |ks| && ParseKey(TypeOf(kind), ks[i]).Some? ensures Decode(kind, ks[i]).Some? {
      ParseType(TypeOf(kind), ks[i]);
      assert ks[i] in store;
      var inc, x: Slot :| Narrow(inc) && ProperSlot(x) && x.kind == kind && ks[i] == SlotKey(inc, x);
      SlotDecodes(inc, x);
    }
  }

  lemma ParseType(t: byte, b: bytes)
    requires ParseKey(t, b).Some?
    ensures b != [] && b[0] == t
  {}

  lemma SlotDecodes(inc: Inc, x: Slot)
    requires Narrow(inc) && ProperSlot(x)
    ensures Decode(x.kind, SlotKey(inc, x)).Some?
  {
    hide EncodeKey, ParseKey;
    ParseExactly(TypeOf(x.kind), SlotKey(inc, x), inc.key, inc.version, x.field);
  }
}
