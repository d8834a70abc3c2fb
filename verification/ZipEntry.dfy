/** One ziplist entry: the back link in front, then the encoding byte(s) and the
    payload (src/redis/ziplist.c:28-71). */
module ZipEntry {
  import opened Bytes
  import opened Options
  import opened Decimal

  const ZIP_END: byte := 255
  const ZIP_BIGLEN: byte := 254

  const ZIP_INT_16B: byte := 0xc0
  const ZIP_INT_32B: byte := 0xd0
  const ZIP_INT_64B: byte := 0xe0
  const ZIP_INT_24B: byte := 0xf0
  const ZIP_INT_8B: byte := 0xfe
  const ZIP_INT_IMM_MIN: byte := 0xf1

  // ------------------------------------------------------------------ encodings

  function IntSize(enc: byte): nat {
    if enc == ZIP_INT_8B then 1
    else if enc == ZIP_INT_16B then 2
    else if enc == ZIP_INT_24B then 3
    else if enc == ZIP_INT_32B then 4
    else if enc == ZIP_INT_64B then 8
    else 0
  }

  /** zipTryEncoding: the narrowest encoding for an integer. */
  function IntEncoding(v: int): (enc: byte)
    ensures enc >= 0xc0 && enc != ZIP_END
  {
    if 0 <= v <= 12 then ZIP_INT_IMM_MIN + v
    else if -0x80 <= v <= 0x7f then ZIP_INT_8B
    else if -0x8000 <= v <= 0x7fff then ZIP_INT_16B
    else if -0x80_0000 <= v <= 0x7f_ffff then ZIP_INT_24B
    else if -0x8000_0000 <= v <= 0x7fff_ffff then ZIP_INT_32B
    else ZIP_INT_64B
  }

  /** zipSaveInteger, for the encoding zipTryEncoding chose. */
  function IntPayload(v: int): (r: bytes)
    requires Int64(v)
    ensures |r| == IntSize(IntEncoding(v))
  {
    var n := IntSize(IntEncoding(v));
    if n == 0 then [] else SignedLE(v, n)
  }

  /** zipLoadInteger. */
  function LoadInteger(payload: bytes, enc: byte): int
    requires |payload| == IntSize(enc)
  {
    if IntSize(enc) == 0 then enc % 16 - 1 else FromSignedLE(payload)
  }

  /** zipEncodeLength for strings. */
  function StrHeader(n: nat): bytes
    requires n < U32
  {
    if n <= 0x3f then [n]
    else if n <= 0x3fff then [0x40 + n / 256, n % 256]
    else [0x80] + BE(n, 4)
  }

  /** What zipTryEncoding sees in a string. */
  function AsInteger(s: bytes): (r: Option<int>)
    ensures r.Some? ==> Int64(r.value)
  {
    if |s| >= 32 || |s| == 0 then None else Parse(s)
  }

  /** Everything of a new entry but its back link. */
  function EncodeBody(s: bytes): (r: bytes)
    requires |s| < U32
    ensures r != []
  {
    match AsInteger(s)
    case Some(v) => [IntEncoding(v)] + IntPayload(v)
    case None => StrHeader(|s|) + s
  }

  // ------------------------------------------------------------------- decoding

  predicate IsStr(enc: byte) { enc < 0xc0 }

  /** ZIP_DECODE_LENGTH: how many bytes the encoding takes, given its first. */
  function LenSize(b0: byte): nat {
    if b0 < 0x40 then 1 else if b0 < 0x80 then 2 else if b0 < 0xc0 then 5 else 1
  }

  /** ZIP_DECODE_LENGTH: how many bytes the payload takes. */
  function PayloadLen(b: bytes): nat
    requires b != [] && |b| >= LenSize(b[0])
  {
    if b[0] < 0x40 then b[0]
    else if b[0] < 0x80 then b[0] % 64 * 256 + b[1]
    else if b[0] < 0xc0 then FromBE(b[1..5])
    else IntSize(b[0])
  }

  /** b starts with a complete encoding; its total length. */
  function BodyLen(b: bytes): nat
    requires b != [] && |b| >= LenSize(b[0])
  {
    LenSize(b[0]) + PayloadLen(b)
  }

  /** b is one complete encoded element. */
  predicate WellSized(b: bytes) {
    b != [] && |b| >= LenSize(b[0]) && BodyLen(b) == |b|
  }

  /** ziplistGet followed by printing: the string an encoded element stands for. */
  function Element(b: bytes): bytes
    requires WellSized(b)
  {
    if IsStr(b[0]) then b[LenSize(b[0])..] else Print(LoadInteger(b[1..], b[0]))
  }

  lemma StrHeaderDecodes(n: nat, rest: bytes)
    requires n < U32
    ensures var b := StrHeader(n) + rest;
            LenSize(b[0]) == |StrHeader(n)| && IsStr(b[0]) && PayloadLen(b) == n
  {
    var b := StrHeader(n) + rest;
    if n > 0x3fff {
      assert b[1..5] == BE(n, 4);
      Pow256Values();
      BERoundTrip(n, 4);
    }
  }

  lemma IntegerSaved(v: int)
    requires Int64(v)
    ensures LoadInteger(IntPayload(v), IntEncoding(v)) == v
  {
    var n := IntSize(IntEncoding(v));
    if n != 0 { SignedRoundTrip(v, n); }
  }

  /** Encoding an element loses nothing, although integers are stored in binary. */
  lemma ElementRoundTrip(s: bytes)
    requires |s| < U32
    ensures WellSized(EncodeBody(s)) && Element(EncodeBody(s)) == s
  {
    var b := EncodeBody(s);
    match AsInteger(s)
    case Some(v) =>
      ParseThenPrint(s);
      IntegerSaved(v);
      assert b[1..] == IntPayload(v);
    case None =>
      StrHeaderDecodes(|s|, s);
  }

  // --------------------------------------------------------------------- entries

  datatype Entry = Entry(wide: bool, prev: nat, body: bytes) {
    predicate Valid() {
      WellSized(body) && prev < U32 && (!wide ==> prev < ZIP_BIGLEN)
    }

    function PrevSize(): nat { if wide then 5 else 1 }

    function Size(): nat { PrevSize() + |body| }
  }

  /** zipPrevEncodeLength and its ForceLarge variant. */
  function PrevBytes(wide: bool, prev: nat): (r: bytes)
    requires prev < U32 && (!wide ==> prev < ZIP_BIGLEN)
    ensures |r| == (if wide then 5 else 1) && r[0] != ZIP_END
  {
    if wide then [ZIP_BIGLEN] + LE(prev, 4) else [prev]
  }

  function EntryBytes(e: Entry): (r: bytes)
    requires e.Valid()
    ensures |r| == e.Size() && r[0] != ZIP_END
  {
    PrevBytes(e.wide, e.prev) + e.body
  }

  datatype Header = Header(prevSize: nat, prevLen: nat, lenSize: nat, len: nat) {
    function Raw(): nat { prevSize + lenSize + len }
  }

  /** The fields zipEntry computes for an entry. */
  ghost function Fields(e: Entry): Header
    requires e.Valid()
  {
    Header(e.PrevSize(), e.prev, LenSize(e.body[0]), PayloadLen(e.body))
  }

  ghost predicate EntryAt(zl: bytes, p: nat, e: Entry)
  {
    e.Valid() && p + e.Size() <= |zl| && zl[p..p + e.Size()] == EntryBytes(e)
  }

  /** zipEntry reads back exactly the entry whose bytes start at p. */
  method ReadEntry(zl: bytes, p: nat, ghost e: Entry) returns (h: Header)
    requires EntryAt(zl, p, e)
    ensures h == Fields(e) && h.Raw() == e.Size()
  {
    EntryReads(zl, p, e);
    BodyReads(zl, p + e.PrevSize(), e.body);
    var prevSize, prevLen := 1, 0;
    if zl[p] < ZIP_BIGLEN {
      prevLen := zl[p];
    } else {
      prevSize, prevLen := 5, FromLE(zl[p + 1..p + 5]);
    }
    var q := p + prevSize;
    var lenSize := LenSize(zl[q]);
    var len := if zl[q] < 0x40 then zl[q]
               else if zl[q] < 0x80 then zl[q] % 64 * 256 + zl[q + 1]
               else if zl[q] < 0xc0 then FromBE(zl[q + 1..q + 5])
               else IntSize(zl[q]);
    return Header(prevSize, prevLen, lenSize, len);
  }

  lemma ElementParts(zl: bytes, p: nat, e: Entry)
    requires EntryAt(zl, p, e)
    ensures var (b, q, n) := (e.body, p + e.PrevSize(), LenSize(e.body[0]));
            && n + PayloadLen(b) == |b| && q < |zl| && q + |b| <= |zl|
            && zl[q] == b[0] && zl[q + n..q + |b|] == b[n..]
            && (if IsStr(b[0]) then Element(b) == b[n..]
                else IntSize(b[0]) == |b| - n && Element(b) == Print(LoadInteger(b[n..], b[0])))
  {
    hide Print, LoadInteger, LE, FromLE, FromBE, EntryBytes;
    EntryReads(zl, p, e);
    var q := p + e.PrevSize();
    BodyReads(zl, q, e.body);
    SubSlice(zl, q, e.body, LenSize(e.body[0]), |e.body|);
  }

  /** ziplistGet at an entry: its string, or the integer that prints as it. */
  method ReadElement(zl: bytes, p: nat, ghost e: Entry) returns (isStr: bool, s: bytes, v: int)
    requires EntryAt(zl, p, e)
    ensures Element(e.body) == if isStr then s else Print(v)
  {
    hide Print, LoadInteger, LE, FromLE, FromBE, EntryBytes, EntryAt, Element, WellSized, PayloadLen, LenSize, IntSize;
    ElementParts(zl, p, e);
    var h := ReadEntry(zl, p, e);
    var q := p + h.prevSize;
    if IsStr(zl[q]) {
      return true, zl[q + h.lenSize..q + h.lenSize + h.len], 0;
    } else {
      return false, [], LoadInteger(zl[q + h.lenSize..q + h.lenSize + h.len], zl[q]);
    }
  }

  lemma EntryReads(zl: bytes, p: nat, e: Entry)
    requires EntryAt(zl, p, e)
    ensures zl[p] != ZIP_END && (zl[p] < ZIP_BIGLEN <==> !e.wide)
    ensures if e.wide then FromLE(zl[p + 1..p + 5]) == e.prev else zl[p] == e.prev
    ensures var q := p + e.PrevSize();
            q + |e.body| <= |zl| && zl[q..q + |e.body|] == e.body
  {
    hide LE, FromLE;
    var eb := EntryBytes(e);
    var n := e.PrevSize();
    SubSlice(zl, p, eb, 0, 0);
    SubSlice(zl, p, eb, n, |eb|);
    assert eb[n..] == e.body;
    if e.wide {
      SubSlice(zl, p, eb, 1, 5);
      assert eb[1..5] == LE(e.prev, 4);
      Pow256Values();
      LERoundTrip(e.prev, 4);
    }
  }

  lemma BodyReads(zl: bytes, q: nat, b: bytes)
    requires b != [] && q + |b| <= |zl| && zl[q..q + |b|] == b
    ensures zl[q] == b[0]
    ensures |b| > 1 ==> zl[q + 1] == b[1]
    ensures |b| >= 5 ==> zl[q + 1..q + 5] == b[1..5]
  {
    SubSlice(zl, q, b, 0, 0);
    if |b| > 1 { SubSlice(zl, q, b, 1, 1); }
    if |b| >= 5 { SubSlice(zl, q, b, 1, 5); }
  }
}
