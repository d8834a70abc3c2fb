/** The fields of a DUMP payload: lengths of four widths, and strings stored
    verbatim, as integers or compressed. */
module RdbFormat {
  import opened Bytes
  import opened Sequences
  import opened Options
  import opened Decimal
  import LzfFormat

  const RDB_32BITLEN: byte := 0x80
  const RDB_64BITLEN: byte := 0x81
  const RDB_ENCVAL: nat := 3
  const RDB_ENC_LZF: nat := 3
  const RDB_LENERR: nat := U64 - 1

  // --------------------------------------------------------------------- lengths

  /** rdbSaveLen. */
  function SaveLen(n: nat): (r: bytes)
    requires n < U64
    ensures r != []
  {
    if n < 64 then [n]
    else if n < 16384 then [64 + n / 256, n % 256]
    else if n < U32 then [RDB_32BITLEN] + BE(n, 4)
    else [RDB_64BITLEN] + BE(n, 8)
  }

  datatype Len = Len(encoded: bool, n: nat, rest: bytes)

  /** rdbLoadLenByRef: the length and what follows it. */
  function LoadLen(b: bytes): Option<Len> {
    if |b| < 1 then None
    else if b[0] / 64 == RDB_ENCVAL then Some(Len(true, b[0] % 64, b[1..]))
    else if b[0] / 64 == 0 then Some(Len(false, b[0] % 64, b[1..]))
    else if b[0] / 64 == 1 then
      if |b| < 2 then None else
      var hi: nat := b[0] % 64;
      Some(Len(false, hi * 256 + b[1], b[2..]))
    else if b[0] == RDB_32BITLEN then
      if |b| < 5 then None else Some(Len(false, FromBE(b[1..5]), b[5..]))
    else if b[0] == RDB_64BITLEN then
      if |b| < 9 then None else Some(Len(false, FromBE(b[1..9]), b[9..]))
    else None
  }

  /** The decoder reads back the length and stops right behind it. */
  lemma LenRoundTrip(n: nat, rest: bytes)
    requires n < U64
    ensures LoadLen(SaveLen(n) + rest) == Some(Len(false, n, rest))
  {
    hide BE, FromBE;
    Pow256Values();
    var b := SaveLen(n) + rest;
    if n < 64 {
      assert b[1..] == rest;
    } else if n < 16384 {
      assert b[2..] == rest;
    } else if n < U32 {
      BERoundTrip(n, 4);
      assert b[1..5] == BE(n, 4) && b[5..] == rest;
    } else {
      BERoundTrip(n, 8);
      assert b[1..9] == BE(n, 8) && b[9..] == rest;
    }
  }

  // --------------------------------------------------------------------- strings

  /** What the decoder can say of the string it hands out: its length and its first
      bytes. What lies behind them is whatever the allocated buffer held. */
  datatype Part = Part(known: bytes, len: nat) {
    predicate Whole() { |known| == len }
    predicate Covers(s: bytes) { |s| == len && known <= s }
  }

  function Exactly(s: bytes): Part { Part(s, |s|) }

  lemma WholeCovers(p: Part, s: bytes)
    requires p.Whole() && p.Covers(s)
    ensures s == p.known && p == Exactly(s)
  {}

  datatype Taken = Taken(part: Part, rest: bytes)

  function Width(enctype: nat): (w: nat)
    ensures w in {1, 2, 4}
  {
    if enctype == 0 then 1 else if enctype == 1 then 2 else 4
  }

  /** rdbLoadIntegerObject, for the types INT8, INT16 and INT32. */
  function TakeInteger(enctype: nat, b: bytes): Option<Taken> {
    var w := Width(enctype);
    if |b| < w then None else Some(Taken(Exactly(Print(FromSignedLE(b[..w]))), b[w..]))
  }

  /** rdbLoadLzfStringObject: compressed length, length, compressed data. Both lengths
      reach lzf_decompress as 32-bit numbers, but the string has the announced length,
      however little was decompressed. */
  function TakeLzf(b: bytes): Option<Taken> {
    match LoadLen(b)
    case None => None
    case Some(c) =>
      match LoadLen(c.rest)
      case None => None
      case Some(l) =>
        if l.n == RDB_LENERR || |l.rest| < c.n || c.n % U32 == 0 then None else
        match LzfFormat.Decode(l.rest[..c.n % U32], [], l.n % U32)
        case Done(s) => Some(Taken(Part(s, l.n), l.rest[c.n..]))
        case _ => None
  }

  /** rdbGenericLoadStringObject. */
  function TakeString(b: bytes): Option<Taken> {
    match LoadLen(b)
    case None => None
    case Some(l) =>
      if l.encoded then
        if l.n <= 2 then TakeInteger(l.n, l.rest)
        else if l.n == RDB_ENC_LZF then TakeLzf(l.rest)
        else None
      else if l.n == RDB_LENERR || |l.rest| < l.n then None
      else Some(Taken(Exactly(l.rest[..l.n]), l.rest[l.n..]))
  }

  /** Whatever follows code, the decoder consumes exactly code and hands out such a
      string. */
  ghost predicate Yields(code: bytes, part: Part) {
    forall rest :: TakeString(code + rest) == Some(Taken(part, rest))
  }

  /** code stands for s. */
  ghost predicate Encodes(code: bytes, s: bytes) { Yields(code, Exactly(s)) }

  /** A string that is handed out in part is not encoded. */
  lemma YieldsOne(code: bytes, part: Part, s: bytes)
    requires Yields(code, part)
    ensures Encodes(code, s) <==> part == Exactly(s)
  {
    hide TakeString;
    assert TakeString(code + []) == Some(Taken(part, []));
  }

  function Verbatim(s: bytes): bytes
    requires |s| < U64
  {
    SaveLen(|s|) + s
  }

  lemma VerbatimEncodes(s: bytes)
    requires |s| < RDB_LENERR
    ensures Encodes(Verbatim(s), s)
  {
    hide SaveLen, LoadLen;
    forall rest ensures TakeString(Verbatim(s) + rest) == Some(Taken(Exactly(s), rest)) {
      Associative(SaveLen(|s|), s, rest);
      LenRoundTrip(|s|, s + rest);
      assert (s + rest)[..|s|] == s && (s + rest)[|s|..] == rest;
    }
  }

  /** The integer forms rdbEncodeInteger chooses from. */
  function EncType(v: int): nat { if Fits(v, 1) then 0 else if Fits(v, 2) then 1 else 2 }

  function EncodeInteger(v: int): (r: Option<bytes>)
  {
    if Fits(v, 4) then Some([RDB_ENCVAL * 64 + EncType(v)] + SignedLE(v, Width(EncType(v)))) else None
  }

  lemma EncodedHeader(t: nat, b: bytes)
    requires t < 64
    ensures LoadLen([RDB_ENCVAL * 64 + t] + b) == Some(Len(true, t, b))
  {
    assert ([RDB_ENCVAL * 64 + t] + b)[1..] == b;
  }

  /** A canonical decimal survives its integer form. */
  lemma IntegerEncodes(s: bytes, v: int)
    requires Parse(s) == Some(v) && Fits(v, 4)
    ensures Encodes(EncodeInteger(v).value, s)
  {
    hide LoadLen, SignedLE, FromSignedLE, Parse, Print;
    var t, w := EncType(v), Width(EncType(v));
    ParseThenPrint(s);
    SignedRoundTrip(v, w);
    var x := SignedLE(v, w);
    forall rest ensures TakeString(EncodeInteger(v).value + rest) == Some(Taken(Exactly(s), rest)) {
      Associative([RDB_ENCVAL * 64 + t], x, rest);
      EncodedHeader(t, x + rest);
      assert (x + rest)[..w] == x && (x + rest)[w..] == rest;
    }
  }

  /** rdbSaveLzfBlob. */
  function LzfBlob(c: bytes, n: nat): bytes
    requires |c| < U64 && n < U64
  {
    [RDB_ENCVAL * 64 + RDB_ENC_LZF] + (SaveLen(|c|) + (SaveLen(n) + c))
  }

  /** A blob hands out its decompressed data in a string of the announced length. */
  lemma LzfYields(c: bytes, n: nat, known: bytes)
    requires c != [] && |c| < U32 && n < RDB_LENERR && LzfFormat.Decode(c, [], n % U32) == LzfFormat.Done(known)
    ensures Yields(LzfBlob(c, n), Part(known, n))
  {
    hide TakeString, LzfFormat.Decode, LzfBlob;
    forall rest ensures TakeString(LzfBlob(c, n) + rest) == Some(Taken(Part(known, n), rest)) {
      LzfTaken(c, n, known, rest);
    }
  }

  /** So one of the right length, below 4 GiB, reads back. */
  lemma LzfEncodes(c: bytes, s: bytes)
    requires c != [] && |c| < U32 && |s| < U32 && LzfFormat.Decode(c, [], |s|) == LzfFormat.Done(s)
    ensures Encodes(LzfBlob(c, |s|), s)
  {
    hide TakeString, LzfFormat.Decode, LzfBlob, Yields, SaveLen, LoadLen;
    Below(|s|);
    LzfYields(c, |s|, s);
  }

  lemma Below(n: nat)
    requires n < U32
    ensures n % U32 == n
  {}

  lemma LzfBody(c: bytes, n: nat, rest: bytes)
    requires |c| < U64 && n < U64
    ensures LzfBlob(c, n) + rest
            == [RDB_ENCVAL * 64 + RDB_ENC_LZF] + (SaveLen(|c|) + (SaveLen(n) + (c + rest)))
  {
    hide SaveLen;
    Associative([RDB_ENCVAL * 64 + RDB_ENC_LZF], SaveLen(|c|) + (SaveLen(n) + c), rest);
    Associative(SaveLen(|c|), SaveLen(n) + c, rest);
    Associative(SaveLen(n), c, rest);
  }

  lemma LzfTaken(c: bytes, n: nat, known: bytes, rest: bytes)
    requires c != [] && |c| < U32 && n < RDB_LENERR && LzfFormat.Decode(c, [], n % U32) == LzfFormat.Done(known)
    ensures TakeString(LzfBlob(c, n) + rest) == Some(Taken(Part(known, n), rest))
  {
    hide LoadLen, SaveLen, LzfFormat.Decode, LzfBlob;
    LzfBody(c, n, rest);
    EncodedHeader(RDB_ENC_LZF, SaveLen(|c|) + (SaveLen(n) + (c + rest)));
    LenRoundTrip(|c|, SaveLen(n) + (c + rest));
    LenRoundTrip(n, c + rest);
    assert (c + rest)[..|c|] == c && (c + rest)[|c|..] == rest;
  }
}
