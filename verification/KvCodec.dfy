/** codec/kv and codec/util.h: the records of the ordered store, the keys they are
    filed under, and the order those keys sort in. */
module KvCodec {
  import opened Bytes
  import opened Options

  const ITEM: byte := 0x53     // 'S'
  const ZSCORE: byte := 0x7a   // 'z'
  const ESCORE: byte := 0x54   // 'T'
  const DELETE: byte := 0x44   // 'D'

  // ------------------------------------------------------------------- encoders

  /** encode_key_internal: the key length is cut to 16 bits. */
  function EncodeKey(t: byte, key: bytes, field: bytes, version: nat): bytes {
    [t] + (BE(|key| % U16, 2) + (key + (BE(version, 2) + field)))
  }

  function EncodeDeleteKey(key: bytes, version: nat): bytes { EncodeKey(DELETE, key, [], version) }

  function EncodeListKey(key: bytes, seqno: nat, version: nat): bytes {
    EncodeKey(ITEM, key, BE(seqno, 8), version)
  }

  function EncodeZScoreKey(key: bytes, member: bytes, score: nat, version: nat): bytes
    requires score < U64
  {
    EncodeKey(ZSCORE, key, BE(EncodeScore(score), 8) + member, version)
  }

  function EncodeEScoreKey(member: bytes, deadline: nat): bytes { [ESCORE] + (BE(deadline, 8) + member) }

  // -------------------------------------------------------------------- decoding

  /** The cursor over a byte string that every decoder advances. */
  class Decoder {
    var data: bytes

    constructor (s: bytes)
      ensures data == s
    {
      data := s;
    }

    method Skip(n: nat) returns (ok: bool)
      modifies this
      ensures ok == (n <= |old(data)|)
      ensures data == if ok then old(data)[n..] else old(data)
    {
      if |data| < n { return false; }
      data := data[n..];
      return true;
    }

    /** A big-endian field of n bytes. */
    method ReadUint(n: nat) returns (ok: bool, v: nat)
      modifies this
      ensures ok == (n <= |old(data)|)
      ensures if ok then v == FromBE(old(data)[..n]) && data == old(data)[n..] else data == old(data)
    {
      if |data| < n { return false, 0; }
      v := FromBE(data[..n]);
      data := data[n..];
      return true, v;
    }

    /** The rest of the string. */
    method ReadData() returns (r: bytes)
      modifies this
      ensures r == old(data) && data == []
    {
      r := data;
      data := [];
    }

    /** A string with a 16-bit length in front of it. */
    method Read16Data() returns (ok: bool, r: bytes)
      modifies this
      ensures ok == (2 <= |old(data)| && 2 + FromBE(old(data)[..2]) <= |old(data)|)
      ensures ok ==> var n := FromBE(old(data)[..2]); r == old(data)[2..2 + n] && data == old(data)[2 + n..]
    {
      if |data| < 2 { return false, []; }
      var n := FromBE(data[..2]);
      data := data[2..];
      if |data| < n { return false, []; }
      r := data[..n];
      data := data[n..];
      return true, r;
    }
  }

  datatype ItemKey = ItemKey(key: bytes, version: nat, field: bytes)

  /** What a record key of type t says, if it is one. */
  function ParseKey(t: byte, s: bytes): Option<ItemKey> {
    if |s| < 3 || s[0] != t then None else
    var n := FromBE(s[1..3]);
    if |s| < 5 + n then None
    else Some(ItemKey(s[3..3 + n], FromBE(s[3 + n..5 + n]), s[5 + n..]))
  }

  /** Fields of a parsed key stay in their ranges. */
  lemma ParseRange(t: byte, s: bytes)
    requires ParseKey(t, s).Some?
    ensures var x := ParseKey(t, s).value; |x.key| < U16 && x.version < U16
  {
    var n := FromBE(s[1..3]);
    FromBERoundTrip(s[1..3]);
    FromBERoundTrip(s[3 + n..5 + n]);
    Pow256Values();
  }

  /** A string parses to (key, version, field) exactly when it is their encoding. */
  lemma {:induction false} ParseExactly(t: byte, s: bytes, key: bytes, version: nat, field: bytes)
    requires |key| < U16 && version < U16
    ensures ParseKey(t, s) == Some(ItemKey(key, version, field)) <==> s == EncodeKey(t, key, field, version)
  {
    hide BE, FromBE;
    Pow256Values();
    var n := |key|;
    if s == EncodeKey(t, key, field, version) {
      BERoundTrip(n, 2);
      BERoundTrip(version, 2);
      EncodedParts(t, key, field, version);
    }
    if ParseKey(t, s) == Some(ItemKey(key, version, field)) {
      FromBERoundTrip(s[1..3]);
      FromBERoundTrip(s[3 + n..5 + n]);
      Cut(s, n);
    }
  }

  lemma EncodedParts(t: byte, key: bytes, field: bytes, version: nat)
    requires |key| < U16
    ensures var s := EncodeKey(t, key, field, version); var n := |key|;
            |s| == 5 + n + |field| && s[0] == t && s[1..3] == BE(n, 2) && s[3..3 + n] == key
            && s[3 + n..5 + n] == BE(version, 2) && s[5 + n..] == field
  {
    hide BE;
    var n := |key|;
    var (l, v) := (BE(n, 2), BE(version, 2));
    var r := key + (v + field);
    Pieces([t], l, r);
    Pieces(key, v, field);
    var s := [t] + (l + r);
    assert s[3..] == r;
    assert s[3..3 + n] == r[..n] && s[3 + n..5 + n] == r[n..n + 2] && s[5 + n..] == r[n + 2..];
  }

  lemma Pieces(a: bytes, b: bytes, c: bytes)
    ensures var s := a + (b + c);
            s[..|a|] == a && s[|a|..|a| + |b|] == b && s[|a| + |b|..] == c
  {}

  lemma Cut(s: bytes, n: nat)
    requires 5 + n <= |s|
    ensures s == [s[0]] + (s[1..3] + (s[3..3 + n] + (s[3 + n..5 + n] + s[5 + n..])))
  {
    assert s[3 + n..] == s[3 + n..5 + n] + s[5 + n..];
    assert s[3..] == s[3..3 + n] + s[3 + n..];
    assert s[1..] == s[1..3] + s[3..];
  }

  /** A key round-trips exactly when its length fits 16 bits. */
  lemma KeyRoundTrip(t: byte, key: bytes, version: nat, field: bytes)
    requires version < U16
    ensures ParseKey(t, EncodeKey(t, key, field, version)) == Some(ItemKey(key, version, field)) <==> |key| < U16
  {
    hide BE, FromBE, EncodeKey, ParseKey;
    var s := EncodeKey(t, key, field, version);
    if |key| < U16 {
      ParseExactly(t, s, key, version, field);
    } else if ParseKey(t, s).Some? {
      ParseRange(t, s);
    }
  }

  /** ItemKey::DecodeItemKey and DeleteKey::DecodeDeleteKey (where field is ignored). */
  method DecodeKey(t: byte, str: bytes) returns (ret: int, x: ItemKey)
    ensures ret == if ParseKey(t, str).Some? then 0 else -1
    ensures ret == 0 ==> x == ParseKey(t, str).value
  {
    hide FromBE, ParseKey;
    x := ItemKey([], 0, []);
    ParseAlong(t, str);
    var d := new Decoder(str);
    var ok := d.Skip(1);
    if !ok { return -1, x; }
    if str[0] != t { return -1, x; }
    var key, version;
    ok, key := d.Read16Data();
    if !ok { return -1, x; }
    ok, version := d.ReadUint(2);
    if !ok { return -1, x; }
    var field := d.ReadData();
    return 0, ItemKey(key, version, field);
  }

  /** The same key read off from the front, field by field. */
  lemma ParseAlong(t: byte, s: bytes)
    ensures ParseKey(t, s) ==
            if |s| < 1 || s[0] != t then None else
            var a := s[1..];
            if |a| < 2 || |a| < 2 + FromBE(a[..2]) then None else
            var n := FromBE(a[..2]);
            var b := a[2 + n..];
            if |b| < 2 then None else Some(ItemKey(a[2..2 + n], FromBE(b[..2]), b[2..]))
  {
    hide FromBE;
    if |s| >= 3 && s[0] == t {
      var (a, n) := (s[1..], FromBE(s[1..3]));
      assert a[..2] == s[1..3];
      if |s| >= 5 + n {
        var b := a[2 + n..];
        assert b == s[3 + n..] && b[..2] == s[3 + n..5 + n] && b[2..] == s[5 + n..] && a[2..2 + n] == s[3..3 + n];
      }
    }
  }

  datatype ScoreKey = ScoreKey(key: bytes, version: nat, score: nat, member: bytes)

  function ParseScore(s: bytes): Option<ScoreKey> {
    match ParseKey(ZSCORE, s)
    case None => None
    case Some(x) =>
      if |x.field| < 8 then None
      else Some(ScoreKey(x.key, x.version, DecodeScore(FromBE(x.field[..8])), x.field[8..]))
  }

  lemma {:induction false} ParseScoreExactly(s: bytes, key: bytes, version: nat, score: nat, member: bytes)
    requires |key| < U16 && version < U16 && score < U64
    ensures ParseScore(s) == Some(ScoreKey(key, version, score, member))
            <==> s == EncodeZScoreKey(key, member, score, version)
  {
    hide BE, FromBE, ParseKey, EncodeKey;
    Pow256Values();
    var field := BE(EncodeScore(score), 8) + member;
    ParseExactly(ZSCORE, s, key, version, field);
    ScoreRoundTrip(score);
    BERoundTrip(EncodeScore(score), 8);
    assert field[..8] == BE(EncodeScore(score), 8) && field[8..] == member;
    if ParseScore(s) == Some(ScoreKey(key, version, score, member)) {
      var x := ParseKey(ZSCORE, s).value;
      FromBERoundTrip(x.field[..8]);
      EncodeDecodeScore(FromBE(x.field[..8]));
      assert x.field == x.field[..8] + x.field[8..];
    }
  }

  // ---------------------------------------------------------------------- scores

  const SIGN: nat := 0x8000_0000_0000_0000
  const INFINITY: nat := 0x7ff0_0000_0000_0000
  const NAN: nat := 0x7ff8_0000_0000_0000           // quiet_NaN()
  const NEG_NAN: nat := 0xfff8_0000_0000_0000       // -quiet_NaN()

  /** encodeScore on the bit pattern of a double: complement a negative one, set
      the sign bit of any other. */
  function EncodeScore(b: nat): (r: nat)
    requires b < U64
    ensures r < U64
  {
    if b / SIGN == 1 then U64 - 1 - b else b + SIGN
  }

  function DecodeScore(c: nat): (r: nat)
    ensures c < U64 ==> r < U64
  {
    if c / SIGN == 1 then c - SIGN else if c < U64 then U64 - 1 - c else 0
  }

  lemma ScoreRoundTrip(b: nat)
    requires b < U64
    ensures DecodeScore(EncodeScore(b)) == b
  {}

  lemma EncodeDecodeScore(c: nat)
    requires c < U64
    ensures EncodeScore(DecodeScore(c)) == c
  {}

  function Pow2(n: nat): (r: nat)
    ensures r >= 1
  {
    if n == 0 then 1 else 2 * Pow2(n - 1)
  }

  const MANTISSA: nat := 0x10_0000_0000_0000        // 2^52

  predicate IsNaN(b: nat) { b % SIGN > INFINITY }

  /** The magnitude of the double with low 63 bits u, counted in units of the
      smallest subnormal, 2^-1074 (section 3.4 of IEEE 754-2019). Infinity comes
      out above every finite magnitude. */
  ghost function Magnitude(u: nat): nat {
    var (e, m) := (u / MANTISSA, u % MANTISSA);
    if e == 0 then m else (MANTISSA + m) * Pow2(e - 1)
  }

  ghost function Value(b: nat): int
    requires b < U64
  {
    if b / SIGN == 1 then 0 - Magnitude(b % SIGN) else Magnitude(b)
  }

  lemma MagnitudeStep(u: nat)
    ensures Magnitude(u) < Magnitude(u + 1)
  {
    var (e, m) := (u / MANTISSA, u % MANTISSA);
    if m + 1 < MANTISSA {
      assert (u + 1) / MANTISSA == e && (u + 1) % MANTISSA == m + 1;
      if e > 0 {
        assert (MANTISSA + m + 1) * Pow2(e - 1) == (MANTISSA + m) * Pow2(e - 1) + Pow2(e - 1);
      }
    } else {
      assert (u + 1) / MANTISSA == e + 1 && (u + 1) % MANTISSA == 0;
      if e > 0 {
        assert MANTISSA * Pow2(e) == (MANTISSA + MANTISSA) * Pow2(e - 1);
        assert (MANTISSA + MANTISSA) * Pow2(e - 1) == (MANTISSA + m) * Pow2(e - 1) + Pow2(e - 1);
      }
    }
  }

  lemma {:induction false} MagnitudeMonotone(u: nat, v: nat)
    requires u < v
    ensures Magnitude(u) < Magnitude(v)
    decreases v
  {
    hide Magnitude;
    MagnitudeStep(v - 1);
    if u < v - 1 { MagnitudeMonotone(u, v - 1); }
  }

  lemma MagnitudeZero(u: nat)
    ensures Magnitude(u) == 0 <==> u == 0
  {
    if u > 0 { MagnitudeMonotone(0, u); }
  }

  /** Minus zero, which compares equal to zero but sorts just below it. */
  predicate ZeroPair(a: nat, b: nat) { a == SIGN && b == 0 }

  /** encodeScore is strictly monotone: the unsigned order of the encodings is the
      numeric order of the doubles, with -0 put before +0. */
  lemma EncodeScoreMonotone(a: nat, b: nat)
    requires a < U64 && b < U64 && !IsNaN(a) && !IsNaN(b)
    ensures EncodeScore(a) < EncodeScore(b) <==> Value(a) < Value(b) || ZeroPair(a, b)
    ensures Value(a) == Value(b) <==> a == b || ZeroPair(a, b) || ZeroPair(b, a)
  {
    hide Magnitude;
    var (u, v) := (a % SIGN, b % SIGN);
    MagnitudeZero(u);
    MagnitudeZero(v);
    if u < v { MagnitudeMonotone(u, v); }
    if v < u { MagnitudeMonotone(v, u); }
  }

  /** The two NaN patterns bracket every number, which is how a whole zset is scanned. */
  lemma NaNBounds(b: nat)
    requires b < U64 && !IsNaN(b)
    ensures EncodeScore(NEG_NAN) < EncodeScore(b) < EncodeScore(NAN)
  {}

  // ----------------------------------------------------------------- key order

  /** Within one incarnation records sort by field. */
  lemma FieldOrder(t: byte, key: bytes, version: nat, f: bytes, g: bytes)
    ensures Less(EncodeKey(t, key, f, version), EncodeKey(t, key, g, version)) == Less(f, g)
  {
    hide BE, Less;
    WithPrefix(t, key, f, version);
    WithPrefix(t, key, g, version);
    LessCommonPrefix(EncodeKey(t, key, [], version), f, g);
  }

  lemma WithPrefix(t: byte, key: bytes, field: bytes, version: nat)
    ensures EncodeKey(t, key, field, version) == EncodeKey(t, key, [], version) + field
  {
    hide BE;
  }

  ghost predicate ScoreLess(score: nat, member: bytes, score': nat, member': bytes)
    requires score < U64 && score' < U64
  {
    Value(score) < Value(score') || ZeroPair(score, score') || (score == score' && Less(member, member'))
  }

  /** Score keys of one incarnation sort by score, then by member. */
  lemma {:induction false} ScoreKeyOrder(key: bytes, version: nat, s: nat, m: bytes, s': nat, m': bytes)
    requires s < U64 && s' < U64 && !IsNaN(s) && !IsNaN(s')
    ensures Less(EncodeZScoreKey(key, m, s, version), EncodeZScoreKey(key, m', s', version))
            == ScoreLess(s, m, s', m')
  {
    hide BE, Less, EncodeKey, Value, EncodeScore;
    var (e, e') := (EncodeScore(s), EncodeScore(s'));
    FieldOrder(ZSCORE, key, version, BE(e, 8) + m, BE(e', 8) + m');
    EncodeScoreMonotone(s, s');
    Pow256Values();
    BEOrder(e, e', 8);
    BERoundTrip(e, 8);
    BERoundTrip(e', 8);
    ScoreRoundTrip(s);
    ScoreRoundTrip(s');
    if s == s' {
      LessCommonPrefix(BE(e, 8), m, m');
    } else {
      LessBeforeSuffix(BE(e, 8), BE(e', 8), m, m');
    }
  }

  /** Delete markers of one key sort by version. */
  lemma MarkerOrder(key: bytes, v: nat, w: nat)
    requires v < U16 && w < U16
    ensures Less(EncodeDeleteKey(key, v), EncodeDeleteKey(key, w)) == (v < w)
  {
    hide BE, Less;
    Pow256Values();
    BEOrder(v, w, 2);
    var p := [DELETE] + (BE(|key| % U16, 2) + key);
    assert EncodeDeleteKey(key, v) == p + BE(v, 2);
    assert EncodeDeleteKey(key, w) == p + BE(w, 2);
    LessCommonPrefix(p, BE(v, 2), BE(w, 2));
  }

  /** Deadline records sort by deadline, then by key. */
  lemma DeadlineOrder(m: bytes, t: nat, m': bytes, t': nat)
    requires t < U64 && t' < U64
    ensures Less(EncodeEScoreKey(m, t), EncodeEScoreKey(m', t')) <==> t < t' || (t == t' && Less(m, m'))
  {
    hide BE, Less;
    Pow256Values();
    BEOrder(t, t', 8);
    BERoundTrip(t, 8);
    BERoundTrip(t', 8);
    LessCommonPrefix([ESCORE], BE(t, 8) + m, BE(t', 8) + m');
    if t == t' {
      LessCommonPrefix(BE(t, 8), m, m');
    } else {
      LessBeforeSuffix(BE(t, 8), BE(t', 8), m, m');
    }
  }

  /** update_list_key rewrites the sequence number at the end of a list item key. */
  function UpdateListKey(old_: bytes, seqno: nat): bytes
    requires |old_| >= 8
  {
    old_[..|old_| - 8] + BE(seqno, 8)
  }

  lemma UpdateListKeyRetargets(key: bytes, version: nat, was: nat, seqno: nat)
    ensures |EncodeListKey(key, was, version)| >= 8
    ensures UpdateListKey(EncodeListKey(key, was, version), seqno) == EncodeListKey(key, seqno, version)
  {
    hide BE;
    WithPrefix(ITEM, key, BE(was, 8), version);
    WithPrefix(ITEM, key, BE(seqno, 8), version);
    var p := EncodeKey(ITEM, key, [], version);
    assert (p + BE(was, 8))[..|p|] == p;
  }
}
