/** The two scans of the background thread over the byte-ordered store: loading
    delete markers, and collecting the records of one incarnation. */
module ReclaimScan {
  import opened Bytes
  import opened KvCodec
  import opened Scan
  import opened Reclaim

  lemma {:induction false} AheadLimited(ks: seq<bytes>, p: nat, limit: nat)
    requires p <= |ks|
    ensures Ahead(ks, p, true, [], limit) == ks[p..if p + limit <= |ks| then p + limit else |ks|]
    decreases limit
  {
    if p < |ks| && limit > 0 {
      AheadLimited(ks, p + 1, limit - 1);
      var hi := if p + limit <= |ks| then p + limit else |ks|;
      assert ks[p..hi] == [ks[p]] + ks[p + 1..hi];
    }
  }

  ghost function MarkerKey(m: Inc): bytes { EncodeDeleteKey(m.key, m.version) }

  predicate IsMarker(k: bytes) { k != [] && k[0] == DELETE }

  /** The store's records of type 'D' are exactly the markers. */
  ghost predicate Files(ks: seq<bytes>, markers: set<Inc>) {
    && Small(markers)
    && (forall m :: m in markers ==> MarkerKey(m) in ks)
    && (forall i {:trigger ks[i]} :: 0 <= i < |ks| && IsMarker(ks[i]) ==> exists m :: m in markers && ks[i] == MarkerKey(m))
  }

  /** load_delete_keys_from_db: the raw keys of the first markers. */
  method LoadDeleteKeys(ks: seq<bytes>, num: nat, ghost markers: set<Inc>) returns (tasks: seq<bytes>, ghost queue: seq<Inc>)
    requires Ascending(ks) && Files(ks, markers) && num == LOAD_LIMIT
    ensures Front(ks, SeekPos(ks, [DELETE]), tasks) && forall i :: 0 <= i < |tasks| ==> IsMarker(tasks[i])
    ensures |tasks| == |queue| && IsLoad(markers, queue)
    ensures forall i :: 0 <= i < |queue| ==> tasks[i] == MarkerKey(queue[i])
    ensures |queue| <= 1000 && forall m :: m in markers && m !in queue ==> |queue| == 1000
  {
    hide Ahead, Less, IsLoad, Files, MarkerKey, Front, SeekPos, Ascending;
    var p := SeekPos(ks, [DELETE]);
    AheadLimited(ks, p, num);
    var it := new Iterator(ks, p, [], num, true);
    ghost var rest := it.Rest();
    ghost var n: nat := 0;
    assert rest[0..] == rest;
    tasks := [];
    while true
      invariant fresh(it) && it.Valid() && it.ks == ks
      invariant n <= |rest| && tasks == rest[..n] && it.Rest() == rest[n..]
      invariant forall i :: 0 <= i < |tasks| ==> IsMarker(tasks[i])
      decreases |rest| - n
    {
      var more := it.Next();
      if !more { break; }
      var k := it.ks[it.pos];
      assert k == rest[n];
      if k == [] || k[0] != DELETE { break; }
      tasks := tasks + [k];
      n := n + 1;
    }
    Fronts(ks, p, if p + num <= |ks| then p + num else |ks|, n);
    queue := Finish(ks, p, tasks, markers);
    LoadBounds(markers, queue);
  }

  lemma LoadBounds(markers: set<Inc>, queue: seq<Inc>)
    requires IsLoad(markers, queue)
    ensures |queue| <= 1000 && forall m :: m in markers && m !in queue ==> |queue| == 1000
  {
    hide MarkerLess;
  }

  lemma Fronts(ks: seq<bytes>, p: nat, hi: nat, n: nat)
    requires p <= hi <= |ks| && hi - p <= LOAD_LIMIT && (hi == |ks| || hi == p + LOAD_LIMIT) && n <= hi - p
    requires n < hi - p ==> !IsMarker(ks[p..hi][n])
    ensures Front(ks, p, ks[p..hi][..n])
  {
    hide IsMarker;
    Prefix(ks, p, hi, n);
  }

  lemma Prefix(ks: seq<bytes>, p: nat, hi: nat, n: nat)
    requires p <= hi <= |ks| && n <= hi - p
    ensures ks[p..hi][..n] == ks[p..p + n]
    ensures n < hi - p ==> ks[p..hi][n] == ks[p + n]
  {}

  lemma Finish(ks: seq<bytes>, p: nat, ts: seq<bytes>, markers: set<Inc>) returns (queue: seq<Inc>)
    requires Ascending(ks) && Files(ks, markers) && p == SeekPos(ks, [DELETE]) && Front(ks, p, ts)
    requires forall i :: 0 <= i < |ts| ==> IsMarker(ts[i])
    ensures |ts| == |queue| && IsLoad(markers, queue)
    ensures forall i :: 0 <= i < |queue| ==> ts[i] == MarkerKey(queue[i])
  {
    hide Less, IsLoad, Files, MarkerKey, SeekPos, IsMarker, Ascending;
    queue := Read(ks, ts, markers);
    IsFirst(ks, p, markers, ts, queue);
  }

  /** The markers behind a list of marker records. */
  lemma {:induction false} Read(ks: seq<bytes>, ts: seq<bytes>, markers: set<Inc>) returns (q: seq<Inc>)
    requires Files(ks, markers) && forall i :: 0 <= i < |ts| ==> ts[i] in ks && IsMarker(ts[i])
    ensures |q| == |ts| && forall i :: 0 <= i < |q| ==> q[i] in markers && ts[i] == MarkerKey(q[i])
  {
    hide MarkerKey, Small;
    q := [];
    if ts != [] {
      var n := |ts| - 1;
      q := Read(ks, ts[..n], markers);
      assert ts[n] in ks;
      var m :| m in markers && ts[n] == MarkerKey(m);
      q := q + [m];
    }
  }

  lemma FirstByteOrder(a: bytes, b: bytes)
    requires Less(a, b) && a != []
    ensures b != [] && a[0] <= b[0]
  {}

  /** Every marker is filed at or after the start of the type, and before any
      record of a later type. */
  lemma MarkerPlace(ks: seq<bytes>, markers: set<Inc>, m: Inc) returns (i: nat)
    requires Ascending(ks) && Files(ks, markers) && m in markers
    ensures SeekPos(ks, [DELETE]) <= i < |ks| && ks[i] == MarkerKey(m) && IsMarker(ks[i])
  {
    hide Less;
    i :| 0 <= i < |ks| && ks[i] == MarkerKey(m);
    var t := ks[i][1..];
    assert ks[i] == [DELETE] + t;
    PrefixNotLess([DELETE], t);
    SeekBelow(ks, [DELETE], i);
  }

  lemma SeekBelow(ks: seq<bytes>, start: bytes, i: nat)
    requires i < |ks| && !Less(ks[i], start)
    ensures SeekPos(ks, start) <= i
  {}

  /** ts is the store from position p on, as far as the limit or the type reaches. */
  ghost predicate Front(ks: seq<bytes>, p: nat, ts: seq<bytes>) {
    && |ts| <= LOAD_LIMIT && p + |ts| <= |ks| && ts == ks[p..p + |ts|]
    && (|ts| == LOAD_LIMIT || p + |ts| == |ks| || !IsMarker(ks[p + |ts|]))
  }

  /** A marker not read lies behind a full batch. */
  lemma LeftOver(ks: seq<bytes>, p: nat, markers: set<Inc>, ts: seq<bytes>, m: Inc)
    requires Ascending(ks) && Files(ks, markers) && p == SeekPos(ks, [DELETE]) && Front(ks, p, ts)
    requires m in markers && MarkerKey(m) !in ts
    ensures |ts| == LOAD_LIMIT && forall i :: 0 <= i < |ts| ==> Less(ts[i], MarkerKey(m))
  {
    hide Less, Files, SeekPos, IsMarker, MarkerKey;
    var e := p + |ts|;
    var k := MarkerPlace(ks, markers, m);
    assert forall i :: p <= i < e ==> ks[i] == ts[i - p] && ks[i] in ts;
    assert e <= k;
    if k != e { Between(ks, e, k); }
  }

  lemma IsFirst(ks: seq<bytes>, p: nat, markers: set<Inc>, ts: seq<bytes>, q: seq<Inc>)
    requires Ascending(ks) && Files(ks, markers) && p == SeekPos(ks, [DELETE]) && Front(ks, p, ts) && |q| == |ts|
    requires forall i :: 0 <= i < |q| ==> q[i] in markers && ts[i] == MarkerKey(q[i])
    ensures IsLoad(markers, q)
  {
    hide Less, Files, Front;
    forall m | m in markers && m !in q ensures |q| == LOAD_LIMIT && forall i :: 0 <= i < |q| ==> MarkerLess(q[i], m) {
      if MarkerKey(m) in ts {
        var j :| 0 <= j < |ts| && ts[j] == MarkerKey(m);
        Injective(ks, markers, m, q[j]);
      }
      LeftOver(ks, p, markers, ts, m);
      forall i | 0 <= i < |q| ensures MarkerLess(q[i], m) { assert Less(ts[i], MarkerKey(m)); }
    }
    FrontAscends(ks, p, ts);
    forall i, j | 0 <= i < j < |q| ensures MarkerLess(q[i], q[j]) { assert Less(ts[i], ts[j]); }
  }

  lemma FrontAscends(ks: seq<bytes>, p: nat, ts: seq<bytes>)
    requires Ascending(ks) && Front(ks, p, ts)
    ensures Ascending(ts) && |ts| <= LOAD_LIMIT
  {
    hide Less;
  }

  lemma Injective(ks: seq<bytes>, markers: set<Inc>, a: Inc, b: Inc)
    requires Files(ks, markers) && a in markers && b in markers && MarkerKey(a) == MarkerKey(b)
    ensures a == b
  {
    hide EncodeKey, ParseKey;
    KeyRoundTrip(DELETE, a.key, a.version, []);
    KeyRoundTrip(DELETE, b.key, b.version, []);
  }

  lemma Between(ks: seq<bytes>, e: nat, k: nat)
    requires SeekPos(ks, [DELETE]) <= e < k < |ks| && Ascending(ks) && IsMarker(ks[k])
    ensures IsMarker(ks[e])
  {
    hide Less;
    SeekAbove(ks, [DELETE], e);
    assert ks[e] != [] && DELETE <= ks[e][0] by { AtLeast(ks[e], DELETE); }
    FirstByteOrder(ks[e], ks[k]);
  }

  lemma AtLeast(x: bytes, b: byte)
    requires !Less(x, [b])
    ensures x != [] && b <= x[0]
  {}

  // --------------------------------------------------- the records to be deleted

  /** Every key of the type parses completely. */
  ghost predicate WellFormed(ks: seq<bytes>, kind: Kind) {
    forall i {:trigger ks[i]} :: 0 <= i < |ks| && ParseKey(TypeOf(kind), ks[i]).Some? ==> Decode(kind, ks[i]).Some?
  }

  /** One of delete_key_loop's scans: the record keys it puts in the batch are
      exactly those of the incarnation. */
  method CollectRecords(ks: seq<bytes>, kind: Kind, inc: Inc) returns (batch: seq<bytes>)
    requires Ascending(ks) && |ks| < U64 && |inc.key| < U16 && inc.version < U16 && WellFormed(ks, kind)
    ensures Ascending(batch) && forall s :: s in batch <==> s in ks && Mine(kind, inc.key, inc.version, s)
  {
    hide Ahead, Less, Decode, WellFormed, EncodeKey, SeekPos;
    var start := EncodeKey(TypeOf(kind), inc.key, [], inc.version);
    var p := SeekPos(ks, start);
    AheadForward(ks, p, U64 - 1);
    var it := new Iterator(ks, p, [], U64 - 1, true);
    batch := [];
    while true
      invariant fresh(it) && it.Valid() && it.ks == ks
      invariant p + |batch| <= |ks| && batch == ks[p..p + |batch|] && it.Rest() == ks[p + |batch|..]
      invariant forall i {:trigger batch[i]} :: 0 <= i < |batch| ==> Mine(kind, inc.key, inc.version, batch[i])
      decreases |ks| - |batch|
    {
      var more := it.Next();
      if !more { break; }
      var k := it.ks[it.pos];
      assert k == ks[p + |batch|];
      if k == [] || k[0] != TypeOf(kind) { assert Decode(kind, k).None? by { WrongType(kind, k); } break; }
      var r := DecodeRecord(kind, k);
      if r.None? { break; }
      if r.value.name == inc.key && r.value.version == inc.version {
        batch := batch + [k];
      } else {
        break;
      }
    }
    Complete(ks, kind, inc, p, batch);
  }

  lemma WrongType(kind: Kind, k: bytes)
    requires k == [] || k[0] != TypeOf(kind)
    ensures Decode(kind, k).None?
  {}

  lemma Complete(ks: seq<bytes>, kind: Kind, inc: Inc, p: nat, batch: seq<bytes>)
    requires Ascending(ks) && |inc.key| < U16 && inc.version < U16 && WellFormed(ks, kind)
    requires p == SeekPos(ks, EncodeKey(TypeOf(kind), inc.key, [], inc.version))
    requires p + |batch| <= |ks| && batch == ks[p..p + |batch|]
    requires forall i {:trigger batch[i]} :: 0 <= i < |batch| ==> Mine(kind, inc.key, inc.version, batch[i])
    requires p + |batch| < |ks| ==> !Mine(kind, inc.key, inc.version, ks[p + |batch|])
    ensures Ascending(batch) && forall s :: s in batch <==> s in ks && Mine(kind, inc.key, inc.version, s)
  {
    hide Less, WellFormed, EncodeKey, SeekPos, Mine;
    var e := p + |batch|;
    forall s | s in ks && Mine(kind, inc.key, inc.version, s) ensures s in batch {
      NotBelow(ks, kind, inc.key, inc.version, s);
      var j :| 0 <= j < |ks| - p && ks[p..][j] == s;
      if e <= p + j {
        assert e != p + j;
        SeekAbove(ks, EncodeKey(TypeOf(kind), inc.key, [], inc.version), e);
        NoGap(ks, kind, inc, e, s);
      }
      assert batch[j] == s;
    }
  }

  lemma NoGap(ks: seq<bytes>, kind: Kind, inc: Inc, e: nat, s: bytes)
    requires |inc.key| < U16 && inc.version < U16 && WellFormed(ks, kind) && e < |ks|
    requires Mine(kind, inc.key, inc.version, s) && Less(ks[e], s)
    requires !Less(ks[e], EncodeKey(TypeOf(kind), inc.key, [], inc.version))
    ensures Mine(kind, inc.key, inc.version, ks[e])
  {
    hide Less, EncodeKey, ParseKey;
    var x, t := ks[e], TypeOf(kind);
    var p := EncodeKey(t, inc.key, [], inc.version);
    FieldPrefix(kind, inc.key, inc.version, s);
    Sandwich(p, x, ParseKey(t, s).value.field);
    WithPrefix(t, inc.key, x[|p|..], inc.version);
    ParseExactly(t, x, inc.key, inc.version, x[|p|..]);
  }

  // ------------------------------------------------- the store behind a reclaim state

  ghost function SlotKey(inc: Inc, x: Slot): bytes { EncodeKey(TypeOf(x.kind), inc.key, x.field, inc.version) }

  /** The store holds exactly the records of an incarnation. */
  ghost predicate Holds(ks: seq<bytes>, s: State, inc: Inc) {
    forall x: Slot :: x in Contents(s, inc) <==> SlotKey(inc, x) in ks
  }

  /** What the scans collect is what the state machine says they see. */
  lemma CollectedIsFiled(ks: seq<bytes>, s: State, inc: Inc, kind: Kind, batch: seq<bytes>)
    requires |inc.key| < U16 && inc.version < U16 && WellFormed(ks, kind) && Holds(ks, s, inc)
    requires forall k :: k in batch <==> k in ks && Mine(kind, inc.key, inc.version, k)
    ensures forall x: Slot :: x in Filed(s, inc, kind) <==> x.kind == kind && SlotKey(inc, x) in batch
    ensures forall k :: k in batch ==> exists x :: x in Filed(s, inc, kind) && k == SlotKey(inc, x)
  {
    hide WellFormed, EncodeKey, Mine;
    forall x: Slot ensures x in Filed(s, inc, kind) <==> x.kind == kind && SlotKey(inc, x) in batch {
      if x.kind == kind && SlotKey(inc, x) in ks { SlotMine(ks, inc, x); }
    }
    forall k | k in batch ensures exists x :: x in Filed(s, inc, kind) && k == SlotKey(inc, x) {
      var x := MineSlot(kind, inc, k);
      assert SlotKey(inc, x) in batch;
    }
  }

  lemma SlotMine(ks: seq<bytes>, inc: Inc, x: Slot)
    requires |inc.key| < U16 && inc.version < U16 && WellFormed(ks, x.kind) && SlotKey(inc, x) in ks
    ensures Mine(x.kind, inc.key, inc.version, SlotKey(inc, x))
  {
    hide EncodeKey, ParseKey;
    var k := SlotKey(inc, x);
    ParseExactly(TypeOf(x.kind), k, inc.key, inc.version, x.field);
    var i :| 0 <= i < |ks| && ks[i] == k;
    assert Decode(x.kind, ks[i]).Some?;
  }

  lemma MineSlot(kind: Kind, inc: Inc, k: bytes) returns (x: Slot)
    requires |inc.key| < U16 && inc.version < U16 && Mine(kind, inc.key, inc.version, k)
    ensures x.kind == kind && k == SlotKey(inc, x)
  {
    hide EncodeKey, ParseKey;
    var f := ParseKey(TypeOf(kind), k).value.field;
    x := Slot(kind, f);
    ParseExactly(TypeOf(kind), k, inc.key, inc.version, f);
  }
}
