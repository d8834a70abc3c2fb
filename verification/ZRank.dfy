/** t_zset.cpp: ZRANK and ZREVRANK walk the score index from either end. */
module ZRank {
  import opened Bytes
  import opened KvCodec
  import opened Scan
  import opened Sequences

  const INT_MAX: nat := 0x7fff_ffff

  /** The bounds of a whole-zset scan: scores below and above every number. */
  function Low(name: bytes, version: nat): bytes { EncodeZScoreKey(name, [], NEG_NAN, version) }

  function High(name: bytes, version: nat): bytes { EncodeZScoreKey(name, [], NAN, version) }

  ghost function Prefix(name: bytes, version: nat): bytes { EncodeKey(ZSCORE, name, [], version) }

  ghost predicate HasPrefix(s: bytes, p: bytes) { |p| <= |s| && s[..|p|] == p }

  /** Every record filed under the incarnation's score prefix is a score record
      of a number. */
  ghost predicate Indexed(ks: seq<bytes>, name: bytes, version: nat) {
    forall i {:trigger ks[i]} :: 0 <= i < |ks| && HasPrefix(ks[i], Prefix(name, version)) ==>
      Mine(Scores, name, version, ks[i]) && !IsNaN(Decode(Scores, ks[i]).value.element.score)
  }

  // ------------------------------------------------------------ the zone of a zset

  /** ks[a..b] is the zset's part of the store, strictly inside the scan bounds. */
  ghost predicate Zone(ks: seq<bytes>, name: bytes, version: nat, a: nat, b: nat) {
    && a <= b <= |ks|
    && (forall i :: 0 <= i < a ==> Less(ks[i], Low(name, version)))
    && (forall i {:trigger ks[i]} :: a <= i < b ==>
          Mine(Scores, name, version, ks[i]) && Less(Low(name, version), ks[i]) && Less(ks[i], High(name, version)))
    && (forall i {:trigger ks[i]} :: b <= i < |ks| ==>
          Less(High(name, version), ks[i]) && !HasPrefix(ks[i], Prefix(name, version)))
  }

  lemma Bounds(name: bytes, version: nat, member: bytes, score: nat)
    requires score < U64 && !IsNaN(score)
    ensures var k := EncodeZScoreKey(name, member, score, version);
            Less(Low(name, version), k) && Less(k, High(name, version))
  {
    hide EncodeKey, BE, Less, EncodeScore;
    NaNBounds(score);
    Before(name, version, NEG_NAN, [], score, member);
    Before(name, version, score, member, NAN, []);
  }

  lemma Before(name: bytes, version: nat, s: nat, m: bytes, s': nat, m': bytes)
    requires s < U64 && s' < U64 && EncodeScore(s) < EncodeScore(s')
    ensures Less(EncodeZScoreKey(name, m, s, version), EncodeZScoreKey(name, m', s', version))
  {
    hide EncodeKey, BE, Less, EncodeScore;
    var (e, e') := (EncodeScore(s), EncodeScore(s'));
    FieldOrder(ZSCORE, name, version, BE(e, 8) + m, BE(e', 8) + m');
    Pow256Values();
    BEOrder(e, e', 8);
    LessIrreflexive(BE(e, 8));
    LessBeforeSuffix(BE(e, 8), BE(e', 8), m, m');
  }

  lemma Extends(p: bytes, f: bytes)
    ensures HasPrefix(p + f, p)
  {
    assert (p + f)[..|p|] == p;
  }

  lemma PrefixOfPrefix(x: bytes, p: bytes, f: bytes)
    requires HasPrefix(x, p + f)
    ensures HasPrefix(x, p)
  {
    assert x[..|p|] == x[..|p + f|][..|p|] == p;
  }

  /** A string below the prefix is below everything under it; one above it that
      does not start with it is above everything under it. */
  lemma Outside(p: bytes, f: bytes, x: bytes)
    requires !HasPrefix(x, p)
    ensures Less(x, p) ==> Less(x, p + f)
    ensures !Less(x, p) ==> Less(p + f, x)
  {
    hide Less, HasPrefix;
    PrefixNotLess(p, f);
    LessTotal(p + f, x);
    Extends(p, f);
    if Less(x, p) {
      if Less(p + f, x) { LessTransitive(p + f, x, p); }
    } else if Less(x, p + f) {
      Sandwich(p, x, f);
      Extends(p, x[|p|..]);
    }
  }

  lemma BoundsUnderPrefix(name: bytes, version: nat)
    ensures Low(name, version) == Prefix(name, version) + BE(EncodeScore(NEG_NAN), 8)
    ensures High(name, version) == Prefix(name, version) + BE(EncodeScore(NAN), 8)
  {
    hide EncodeKey, BE, EncodeScore;
    assert forall x: bytes :: x + [] == x;
    WithPrefix(ZSCORE, name, BE(EncodeScore(NEG_NAN), 8), version);
    WithPrefix(ZSCORE, name, BE(EncodeScore(NAN), 8), version);
  }

  lemma {:induction false} FirstOutside(ks: seq<bytes>, a: nat, p: bytes) returns (b: nat)
    requires a <= |ks|
    ensures a <= b <= |ks| && (forall i :: a <= i < b ==> HasPrefix(ks[i], p)) && (b < |ks| ==> !HasPrefix(ks[b], p))
    decreases |ks| - a
  {
    if a == |ks| || !HasPrefix(ks[a], p) {
      b := a;
    } else {
      b := FirstOutside(ks, a + 1, p);
    }
  }

  lemma {:induction false} FindZone(ks: seq<bytes>, name: bytes, version: nat) returns (a: nat, b: nat)
    requires Ascending(ks) && |name| < U16 && version < U16 && Indexed(ks, name, version)
    ensures Zone(ks, name, version, a, b) && a == SeekPos(ks, Prefix(name, version))
  {
    hide EncodeKey, BE, Less, EncodeScore, Low, High, Mine, Prefix, SeekPos;
    var p := Prefix(name, version);
    a := SeekPos(ks, p);
    b := FirstOutside(ks, a, p);
    forall i | 0 <= i < a ensures Less(ks[i], Low(name, version)) { BelowZone(ks[i], name, version); }
    forall i | a <= i < b
      ensures Mine(Scores, name, version, ks[i]) && Less(Low(name, version), ks[i]) && Less(ks[i], High(name, version))
    {
      InZone(ks[i], name, version);
    }
    forall i | b <= i < |ks| ensures Less(High(name, version), ks[i]) && !HasPrefix(ks[i], p) {
      SeekAbove(ks, p, b);
      AboveZone(ks[b], name, version);
      if b < i {
        assert Less(ks[b], ks[i]);
        LessTransitive(High(name, version), ks[b], ks[i]);
        SeekAbove(ks, p, i);
        if HasPrefix(ks[i], p) { PrefixSandwich(ks, p, b, i); }
        AboveZone(ks[i], name, version);
      }
    }
  }

  lemma PrefixSandwich(ks: seq<bytes>, p: bytes, b: nat, i: nat)
    requires b < i < |ks| && !Less(ks[b], p) && Less(ks[b], ks[i]) && HasPrefix(ks[i], p)
    ensures HasPrefix(ks[b], p)
  {
    hide Less;
    assert ks[i] == p + ks[i][|p|..];
    Sandwich(p, ks[b], ks[i][|p|..]);
    assert (p + ks[b][|p|..])[..|p|] == p;
  }

  lemma BelowZone(x: bytes, name: bytes, version: nat)
    requires Less(x, Prefix(name, version))
    ensures Less(x, Low(name, version))
  {
    hide Less, Prefix, Low, High, BE, EncodeScore;
    var p := Prefix(name, version);
    BoundsUnderPrefix(name, version);
    if HasPrefix(x, p) {
      assert x == p + x[|p|..];
      PrefixNotLess(p, x[|p|..]);
    }
    Outside(p, BE(EncodeScore(NEG_NAN), 8), x);
  }

  lemma AboveZone(x: bytes, name: bytes, version: nat)
    requires !Less(x, Prefix(name, version)) && !HasPrefix(x, Prefix(name, version))
    ensures Less(High(name, version), x)
  {
    hide Less, Prefix, Low, High, BE, EncodeScore;
    var p := Prefix(name, version);
    BoundsUnderPrefix(name, version);
    Outside(p, BE(EncodeScore(NAN), 8), x);
  }

  lemma InZone(s: bytes, name: bytes, version: nat)
    requires |name| < U16 && version < U16
    requires Mine(Scores, name, version, s) && !IsNaN(Decode(Scores, s).value.element.score)
    ensures Less(Low(name, version), s) && Less(s, High(name, version))
  {
    hide Less, Low, High, Decode, Code;
    var el := Decode(Scores, s).value.element;
    DecodeProper(Scores, s);
    DecodeExactly(Scores, name, version, el, s);
    Bounds(name, version, el.member, el.score);
    CodeIsScoreKey(name, version, el);
  }

  lemma CodeIsScoreKey(name: bytes, version: nat, el: Element)
    requires el.score < U64
    ensures Code(Scores, name, version, el) == EncodeZScoreKey(name, el.member, el.score, version)
  {}

  // ------------------------------------------------------------------ iteration

  lemma {:induction false} AheadUp(ks: seq<bytes>, name: bytes, version: nat, a: nat, b: nat, p: nat, limit: nat)
    requires Zone(ks, name, version, a, b) && a <= p <= b && b - p <= limit
    ensures Ahead(ks, p, true, High(name, version), limit) == ks[p..b]
    decreases limit
  {
    hide Low, High, Mine, Less, HasPrefix;
    if p < b {
      LessAsymmetric(ks[p], High(name, version));
      AheadUp(ks, name, version, a, b, p + 1, limit - 1);
    } else if p < |ks| {
      BoundsNonempty(name, version);
    }
  }

  lemma BoundsNonempty(name: bytes, version: nat)
    ensures High(name, version) != [] && Low(name, version) != []
  {}

  lemma {:induction false} AheadDown(ks: seq<bytes>, name: bytes, version: nat, a: nat, b: nat, p: nat, limit: nat)
    requires Zone(ks, name, version, a, b) && a <= p <= b && p - a <= limit
    ensures Ahead(ks, p - 1, false, Low(name, version), limit) == Reversed(ks[a..p])
    decreases limit
  {
    hide Low, High, Mine, Less, HasPrefix, Reversed;
    BoundsNonempty(name, version);
    if a < p {
      LessAsymmetric(Low(name, version), ks[p - 1]);
      AheadDown(ks, name, version, a, b, p - 1, limit - 1);
      SliceLast(ks, a, p);
      ReversedLast(ks[a..p - 1], ks[p - 1]);
    } else {
      ReversedNone(ks, a);
    }
  }

  lemma SliceLast(ks: seq<bytes>, a: nat, p: nat)
    requires a < p <= |ks|
    ensures ks[a..p] == ks[a..p - 1] + [ks[p - 1]]
  {}

  lemma ReversedNone(ks: seq<bytes>, a: nat)
    requires a <= |ks|
    ensures Reversed(ks[a..a]) == []
  {}

  ghost predicate AllMine(rs: seq<bytes>, name: bytes, version: nat) {
    forall i {:trigger rs[i]} :: 0 <= i < |rs| ==> Mine(Scores, name, version, rs[i])
  }

  lemma {:induction false} YieldMine(rs: seq<bytes>, name: bytes, version: nat)
    requires AllMine(rs, name, version)
    ensures var ys := Yield(rs, Scores, name, version);
            |ys| == |rs| && forall i :: 0 <= i < |rs| ==> ys[i] == Decode(Scores, rs[i]).value.element
  {
    hide Decode;
    if rs != [] { YieldMine(rs[1..], name, version); }
  }

  /** Undecodable and foreign records after the zone add nothing. */
  lemma {:induction false} YieldStops(rs: seq<bytes>, tail: seq<bytes>, name: bytes, version: nat)
    requires AllMine(rs, name, version)
    requires forall i {:trigger tail[i]} :: 0 <= i < |tail| ==> !Mine(Scores, name, version, tail[i])
    ensures Yield(rs + tail, Scores, name, version) == Yield(rs, Scores, name, version)
  {
    hide Decode;
    if rs != [] {
      assert (rs + tail)[1..] == rs[1..] + tail;
      YieldStops(rs[1..], tail, name, version);
    } else {
      assert rs + tail == tail;
      if tail != [] { YieldStops([], tail[1..], name, version); assert [] + tail[1..] == tail[1..]; }
    }
  }

  /** The members of the zset in (score, member) order. */
  ghost function Members(ks: seq<bytes>, name: bytes, version: nat): seq<Element> {
    Elements(ks, Scores, name, version)
  }

  lemma {:induction false} MembersOfZone(ks: seq<bytes>, name: bytes, version: nat, a: nat, b: nat)
    requires |name| < U16 && version < U16
    requires Zone(ks, name, version, a, b) && a == SeekPos(ks, Prefix(name, version))
    ensures AllMine(ks[a..b], name, version)
    ensures Members(ks, name, version) == Yield(ks[a..b], Scores, name, version)
  {
    hide Decode, Low, Yield, SeekPos, EncodeKey;
    assert ks[a..] == ks[a..b] + ks[b..];
    forall i | b <= i < |ks| ensures !Mine(Scores, name, version, ks[i]) {
      if Mine(Scores, name, version, ks[i]) { OwnPrefix(ks[i], name, version); }
    }
    YieldStops(ks[a..b], ks[b..], name, version);
  }

  lemma OwnPrefix(x: bytes, name: bytes, version: nat)
    requires |name| < U16 && version < U16 && Mine(Scores, name, version, x)
    ensures HasPrefix(x, Prefix(name, version))
  {
    hide Decode, EncodeKey, HasPrefix;
    FieldPrefix(Scores, name, version, x);
    Extends(Prefix(name, version), ParseKey(ZSCORE, x).value.field);
  }

  // ---------------------------------------------------------------------- ranks

  /** rev_iterator: the last record not above start. */
  function RevSeekPos(ks: seq<bytes>, start: bytes): (p: int)
    ensures -1 <= p < |ks| || p == SeekPos(ks, start)
  {
    var p := SeekPos(ks, start);
    if p == |ks| then |ks| - 1
    else if |start| <= |ks[p]| && ks[p][..|start|] == start then p
    else p - 1
  }

  /** No two elements of the index name the same member. */
  ghost predicate DistinctMembers(zs: seq<Element>) {
    forall i, j :: 0 <= i < j < |zs| ==> zs[i].member != zs[j].member
  }

  ghost function Walk(ks: seq<bytes>, name: bytes, version: nat, forward: bool): seq<Element> {
    var zs := Members(ks, name, version);
    if forward then zs else Reversed(zs)
  }

  /** A whole-zset scan, in either direction, starts and ends exactly at the
      zset's own records. */
  lemma {:induction false} WalkExact(ks: seq<bytes>, name: bytes, version: nat, forward: bool)
    requires Ascending(ks) && |name| < U16 && version < U16 && Indexed(ks, name, version)
    requires |Members(ks, name, version)| <= INT_MAX
    ensures var lo, hi := Low(name, version), High(name, version);
            var p, end := (if forward then SeekPos(ks, lo) else RevSeekPos(ks, hi)), if forward then hi else lo;
            Yield(Ahead(ks, p, forward, end, INT_MAX), Scores, name, version) == Walk(ks, name, version, forward)
  {
    hide Low, High, Yield, Decode, Less, Indexed, Ahead;
    var a, b := FindZone(ks, name, version);
    MembersOfZone(ks, name, version, a, b);
    YieldMine(ks[a..b], name, version);
    if forward {
      SeekLow(ks, name, version, a, b);
      AheadUp(ks, name, version, a, b, a, INT_MAX);
    } else {
      SeekHigh(ks, name, version, a, b);
      AheadDown(ks, name, version, a, b, b, INT_MAX);
      YieldMine(Reversed(ks[a..b]), name, version);
    }
  }

  lemma SeekLow(ks: seq<bytes>, name: bytes, version: nat, a: nat, b: nat)
    requires Ascending(ks) && Zone(ks, name, version, a, b)
    ensures SeekPos(ks, Low(name, version)) == a
  {
    hide Less, Low, High, HasPrefix, Mine;
    var lo, p := Low(name, version), SeekPos(ks, Low(name, version));
    if a < p {
      LessAsymmetric(ks[a], lo);
      if b <= a { BoundsOrdered(name, version); LessTransitive(lo, High(name, version), ks[a]); }
    }
  }

  lemma BoundsOrdered(name: bytes, version: nat)
    ensures Less(Low(name, version), High(name, version))
  {
    hide Less, EncodeKey, BE;
    Before(name, version, NEG_NAN, [], NAN, []);
  }

  lemma SeekHigh(ks: seq<bytes>, name: bytes, version: nat, a: nat, b: nat)
    requires Ascending(ks) && Zone(ks, name, version, a, b)
    ensures RevSeekPos(ks, High(name, version)) == b - 1
  {
    hide Less, Low, High, Mine, Prefix;
    var hi, p := High(name, version), SeekPos(ks, High(name, version));
    if b < p { LessAsymmetric(ks[b], hi); }
    if p < a {
      BoundsOrdered(name, version);
      LessTransitive(ks[p], Low(name, version), hi);
    }
    BoundsUnderPrefix(name, version);
    if p < |ks| && HasPrefix(ks[p], hi) {
      PrefixOfPrefix(ks[p], Prefix(name, version), BE(EncodeScore(NAN), 8));
    }
  }

  /** zscan_internal over the whole zset. */
  method WalkFrom(ks: seq<bytes>, name: bytes, version: nat, forward: bool) returns (it: TypedIterator)
    requires Ascending(ks) && |name| < U16 && version < U16 && Indexed(ks, name, version)
    requires |Members(ks, name, version)| <= INT_MAX
    ensures fresh(it) && fresh(it.it) && it.Valid() && it.Rest() == Walk(ks, name, version, forward)
  {
    hide Yield, Ahead, Low, High, Walk, Indexed, Less, Decode, Ascending, Members;
    var lo, hi := Low(name, version), High(name, version);
    var start: int, end := (if forward then SeekPos(ks, lo) else RevSeekPos(ks, hi)), if forward then hi else lo;
    WalkExact(ks, name, version, forward);
    var raw := new Iterator(ks, start, end, INT_MAX, forward);
    it := new TypedIterator(raw, Scores, name, version);
  }

  /** zrank (forward) and zrrank (backward): the position of key in the walk, or -1. */
  method Rank(ks: seq<bytes>, name: bytes, version: nat, key: bytes, forward: bool) returns (rank: int)
    requires Ascending(ks) && |name| < U16 && version < U16 && Indexed(ks, name, version)
    requires |Members(ks, name, version)| <= INT_MAX
    ensures var zs := Walk(ks, name, version, forward);
            Place(zs, key, rank) && forall i :: 0 <= i < rank ==> zs[i].member != key
  {
    hide Yield, Ahead, Walk, Indexed, Decode, Ascending, Members, Reversed, Less, Elements;
    var it := WalkFrom(ks, name, version, forward);
    ghost var zs := Walk(ks, name, version, forward);
    assert zs[0..] == zs;
    var found, ret: nat := false, 0;
    while true
      invariant fresh(it) && fresh(it.it) && it.Valid()
      invariant ret <= |zs| && it.Rest() == zs[ret..]
      invariant forall i :: 0 <= i < ret ==> zs[i].member != key
      decreases |zs| - ret
    {
      StepAlong(zs, ret);
      var more := it.Next();
      if !more { break; }
      if key == it.element.member {
        found := true;
        break;
      }
      ret := ret + 1;
    }
    rank := if found then ret else -1;
  }

  lemma StepAlong(zs: seq<Element>, n: nat)
    requires n <= |zs|
    ensures zs[n..] == [] <==> n == |zs|
    ensures n < |zs| ==> zs[n..][0] == zs[n] && zs[n..][1..] == zs[n + 1..]
  {}

  // --------------------------------------------------------- what the rank means

  /** The members that sort below el: a smaller score, or the same score and a
      smaller name. */
  ghost function Smaller(zs: seq<Element>, el: Element): set<Element>
    requires el.score < U64 && AllProper(Scores, zs)
  {
    set x | x in zs && Below(x, el)
  }

  ghost predicate Below(x: Element, y: Element) {
    x.score < U64 && y.score < U64 && ScoreLess(x.score, x.member, y.score, y.member)
  }

  ghost predicate Numbers(zs: seq<Element>) {
    forall i {:trigger zs[i]} :: 0 <= i < |zs| ==> zs[i].score < U64 && !IsNaN(zs[i].score)
  }

  lemma {:induction false} MembersSorted(ks: seq<bytes>, name: bytes, version: nat)
    requires Ascending(ks) && |name| < U16 && version < U16 && Indexed(ks, name, version)
    ensures var zs := Members(ks, name, version);
            AllProper(Scores, zs) && Numbers(zs)
            && forall i, j :: 0 <= i < |zs| && 0 <= j < |zs| ==> (Below(zs[i], zs[j]) <==> i < j)
  {
    hide Less, Code, Decode, Elements, Below, ScoreLess, Indexed;
    var zs := Members(ks, name, version);
    ScanExact(ks, Scores, name, version, Element([], 0));
    MembersAreNumbers(ks, name, version);
    var cs := Codes(zs, Scores, name, version);
    forall i, j | 0 <= i < |zs| && 0 <= j < |zs| ensures Below(zs[i], zs[j]) <==> i < j {
      CodesOrder(name, version, zs[i], zs[j]);
      LessIrreflexive(cs[i]);
      if j < i { LessAsymmetric(cs[j], cs[i]); }
    }
  }

  lemma CodesOrder(name: bytes, version: nat, x: Element, y: Element)
    requires x.score < U64 && !IsNaN(x.score) && y.score < U64 && !IsNaN(y.score)
    ensures Less(Code(Scores, name, version, x), Code(Scores, name, version, y)) == Below(x, y)
  {
    hide Less, Code, ScoreLess;
    CodeIsScoreKey(name, version, x);
    CodeIsScoreKey(name, version, y);
    ScoreKeyOrder(name, version, x.score, x.member, y.score, y.member);
  }

  lemma {:induction false} MembersAreNumbers(ks: seq<bytes>, name: bytes, version: nat)
    requires Ascending(ks) && |name| < U16 && version < U16 && Indexed(ks, name, version)
    ensures Numbers(Members(ks, name, version))
  {
    hide Less, Yield, Decode, Low, High;
    var a, b := FindZone(ks, name, version);
    MembersOfZone(ks, name, version, a, b);
    var rs := ks[a..b];
    YieldMine(rs, name, version);
    var zs := Members(ks, name, version);
    forall i | 0 <= i < |zs| ensures zs[i].score < U64 && !IsNaN(zs[i].score) {
      DecodeProper(Scores, rs[i]);
      OwnPrefix(ks[a + i], name, version);
      assert rs[i] == ks[a + i];
    }
  }

  lemma {:induction false} FirstN(zs: seq<Element>, r: nat)
    requires r <= |zs| && forall i, j :: 0 <= i < j < |zs| ==> zs[i] != zs[j]
    ensures |set x | x in zs[..r]| == r
  {
    if r > 0 {
      FirstN(zs, r - 1);
      var t := zs[..r - 1];
      var s := set x | x in t;
      assert zs[..r] == t + [zs[r - 1]];
      assert (set x | x in zs[..r]) == s + {zs[r - 1]};
      assert zs[r - 1] !in s;
    }
  }

  /** The element at position r has exactly r smaller ones. */
  lemma {:induction false} RankCountsSmaller(ks: seq<bytes>, name: bytes, version: nat, r: nat)
    requires Ascending(ks) && |name| < U16 && version < U16 && Indexed(ks, name, version)
    requires r < |Members(ks, name, version)|
    ensures var zs := Members(ks, name, version);
            AllProper(Scores, zs) && zs[r].score < U64 && |Smaller(zs, zs[r])| == r
  {
    hide Members, Below, Indexed, Less;
    var zs := Members(ks, name, version);
    MembersSorted(ks, name, version);
    assert forall i, j :: 0 <= i < j < |zs| ==> zs[i] != zs[j] by {
      forall i, j | 0 <= i < j < |zs| ensures zs[i] != zs[j] { assert Below(zs[i], zs[j]) && !Below(zs[j], zs[j]); }
    }
    FirstN(zs, r);
    forall x ensures x in Smaller(zs, zs[r]) <==> x in zs[..r] {
      if x in Smaller(zs, zs[r]) {
        var i :| 0 <= i < |zs| && zs[i] == x;
        assert i < r;
        assert zs[..r][i] == x;
      }
      if x in zs[..r] {
        var i :| 0 <= i < r && zs[..r][i] == x;
        assert zs[i] == x && Below(zs[i], zs[r]);
      }
    }
    assert Smaller(zs, zs[r]) == set x | x in zs[..r];
  }

  /** ZRANK and ZREVRANK of one member: the rank counts the smaller members, and
      the two ranks add up to the cardinality less one. */
  method BothRanks(ks: seq<bytes>, name: bytes, version: nat, key: bytes) returns (up: int, down: int)
    requires Ascending(ks) && |name| < U16 && version < U16 && Indexed(ks, name, version)
    requires |Members(ks, name, version)| <= INT_MAX && DistinctMembers(Members(ks, name, version))
    ensures var zs := Members(ks, name, version);
            AllProper(Scores, zs)
            && (if forall i :: 0 <= i < |zs| ==> zs[i].member != key then up == -1 && down == -1
                else 0 <= up < |zs| && zs[up].member == key && zs[up].score < U64
                     && |Smaller(zs, zs[up])| == up && up + down + 1 == |zs|)
  {
    hide Members, Indexed, Less, Ascending, Smaller;
    up := Rank(ks, name, version, key, true);
    down := Rank(ks, name, version, key, false);
    ghost var zs := Members(ks, name, version);
    MembersSorted(ks, name, version);
    PlacesAddUp(zs, key, up, down);
    if up >= 0 { RankCountsSmaller(ks, name, version, up); }
  }

  /** The place of key in the sequence, or -1. */
  ghost predicate Place(zs: seq<Element>, key: bytes, rank: int) {
    if rank == -1 then forall i :: 0 <= i < |zs| ==> zs[i].member != key
    else 0 <= rank < |zs| && zs[rank].member == key
  }

  lemma PlaceUnique(zs: seq<Element>, key: bytes, a: int, b: int)
    requires DistinctMembers(zs) && Place(zs, key, a) && Place(zs, key, b)
    ensures a == b
  {}

  lemma {:induction false} ReversedPlace(zs: seq<Element>, key: bytes, rank: int)
    requires Place(Reversed(zs), key, rank)
    ensures Place(zs, key, if rank == -1 then -1 else |zs| - 1 - rank)
  {
    hide Reversed;
    if rank == -1 {
      forall i | 0 <= i < |zs| ensures zs[i].member != key {
        ReversedAt(zs, |zs| - 1 - i);
      }
    } else {
      ReversedAt(zs, rank);
    }
  }

  lemma {:induction false} PlacesAddUp(zs: seq<Element>, key: bytes, up: int, down: int)
    requires DistinctMembers(zs) && Place(zs, key, up) && Place(Reversed(zs), key, down)
    ensures if forall i :: 0 <= i < |zs| ==> zs[i].member != key then up == -1 && down == -1
            else 0 <= up && up + down + 1 == |zs|
  {
    hide Reversed, DistinctMembers;
    ReversedPlace(zs, key, down);
    PlaceUnique(zs, key, up, if down == -1 then -1 else |zs| - 1 - down);
  }
}
