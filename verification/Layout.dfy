/** The stored formats byte by byte: what each encoder writes, in literal bytes. */
module Layout {
  import opened Bytes
  import opened Options
  import opened ZipSpec
  import opened RdbFormat
  import opened KvCodec
  import Decimal
  import ZipEntry
  import ZipBuffer
  import Ziplist
  import Intset
  import Rdb
  import ReclaimStore

  // --------------------------------------------------------------------- integers

  /** Two's complement, least significant byte first. */
  lemma SignedOne(v: int)
    requires -0x80 <= v < 0x80
    ensures SignedLE(v, 1) == [if v < 0 then v + 0x100 else v]
  {
    hide LE;
    LEBytes(if v < 0 then v + 0x100 else v);
  }

  lemma SignedTwo(v: int)
    requires -0x8000 <= v < 0x8000
    ensures var u := if v < 0 then v + 0x1_0000 else v; SignedLE(v, 2) == [u % 256, u / 256]
  {
    hide LE;
    LEBytes(if v < 0 then v + 0x1_0000 else v);
  }

  lemma SignedThree(v: int)
    requires -0x80_0000 <= v < 0x80_0000
    ensures var u := if v < 0 then v + 0x100_0000 else v; SignedLE(v, 3) == [u % 256, u / 256 % 256, u / 256 / 256]
  {
    hide LE;
    LEBytes(if v < 0 then v + 0x100_0000 else v);
  }

  lemma SignedFour(v: int)
    requires -0x8000_0000 <= v < 0x8000_0000
    ensures var u := if v < 0 then v + 0x1_0000_0000 else v;
            SignedLE(v, 4) == [u % 256, u / 256 % 256, u / 256 / 256 % 256, u / 256 / 256 / 256]
  {
    hide LE;
    LEBytes(if v < 0 then v + 0x1_0000_0000 else v);
  }

  lemma SignedEight(v: int)
    requires Fits(v, 8)
    ensures var u := if v < 0 then v + 0x1_0000_0000_0000_0000 else v;
            0 <= u < 0x1_0000_0000_0000_0000 && SignedLE(v, 8) == LE(u % U32, 4) + LE(u / U32, 4)
  {
    hide LE;
    var u := if v < 0 then v + 0x1_0000_0000_0000_0000 else v;
    EightBytes(u);
    LowBytes(u);
  }

  lemma LowBytes(u: nat)
    ensures LE(u, 4) == LE(u % U32, 4)
  {
    hide LE;
    LEBytes(u);
    LEBytes(u % U32);
    var w := u % U32;
    assert u == u / U32 * U32 + w;
    assert u / 256 == u / U32 * 0x100_0000 + w / 256;
    assert u / 256 / 256 == u / U32 * 0x1_0000 + w / 256 / 256;
    assert u / 256 / 256 / 256 == u / U32 * 256 + w / 256 / 256 / 256;
  }

  lemma FourBytes(n: nat)
    requires n < U32
    ensures BE(n, 4) == [n / 256 / 256 / 256, n / 256 / 256 % 256, n / 256 % 256, n % 256]
  {
    hide BE;
    BEBytes(n);
  }

  // --------------------------------------------------------------------- ziplists

  /** The length of a string element in front of its bytes. */
  lemma StringHeader(n: nat)
    requires n < U32
    ensures ZipEntry.StrHeader(n) ==
            if n < 64 then [n]
            else if n < 16384 then [64 + n / 256, n % 256]
            else [128, n / 256 / 256 / 256, n / 256 / 256 % 256, n / 256 % 256, n % 256]
  {
    hide BE;
    FourBytes(n);
  }

  /** An element that is the notation of a 64-bit integer, of at most 31 characters, is
      stored as that integer in the narrowest of six widths; any other as a string. */
  lemma ElementBytes(s: bytes)
    requires |s| < U32
    ensures if 0 < |s| < 32 && Decimal.Parse(s).Some? then
              var v := Decimal.Parse(s).value;
              ZipEntry.EncodeBody(s) ==
              if 0 <= v <= 12 then [0xf1 + v]
              else if -0x80 <= v < 0x80 then [0xfe] + SignedLE(v, 1)
              else if -0x8000 <= v < 0x8000 then [0xc0] + SignedLE(v, 2)
              else if -0x80_0000 <= v < 0x80_0000 then [0xf0] + SignedLE(v, 3)
              else if -0x8000_0000 <= v < 0x8000_0000 then [0xd0] + SignedLE(v, 4)
              else if Fits(v, 8) then [0xe0] + SignedLE(v, 8) else []
            else ZipEntry.EncodeBody(s) == ZipEntry.StrHeader(|s|) + s
  {
    hide SignedLE, Decimal.Parse, ZipEntry.StrHeader;
    if 0 < |s| < 32 && Decimal.Parse(s).Some? {
      var v := Decimal.Parse(s).value;
      if 0 <= v <= 12 { assert [0xf1 + v] + [] == [0xf1 + v]; }
    }
  }

  /** A back link of one byte below 254, or 254 and four bytes. */
  lemma LinkBytes(e: ZipEntry.Entry)
    requires e.Valid()
    ensures ZipEntry.EntryBytes(e) ==
            (if e.wide then [254, e.prev % 256, e.prev / 256 % 256, e.prev / 256 / 256 % 256, e.prev / 256 / 256 / 256]
             else [e.prev]) + e.body
    ensures !e.wide ==> e.prev < 254
  {
    hide LE, ZipEntry.WellSized;
    LEBytes(e.prev);
  }

  /** zlbytes, zltail, zllen, the entries one behind another, and 255. */
  lemma ListBytes(z: Zip)
    requires WellFormed(z)
    ensures var zl := ZipBuffer.Image(z);
            && |zl| == 11 + TotalSize(z.es) && zl[|zl| - 1] == 255
            && zl[0..4] == LE(|zl|, 4) && zl[8..10] == LE(z.count, 2)
            && zl[4..8] == LE(if z.es == [] then 10 else 10 + TotalSize(z.es[..|z.es| - 1]), 4)
    ensures forall i :: 0 <= i < |z.es| ==> EntryPlaced(z, i)
  {
    hide LE, ZipBuffer.Rest, ZipEntry.WellSized, TotalSize, EntryPlaced;
    var zl := ZipBuffer.Image(z);
    Ziplist.LastEntry(z.es);
    var (h, r) := (ZipBuffer.Head(|zl|, 10 + ZipBuffer.LastOffset(z.es), z.count), [] + ZipBuffer.Rest(z.es));
    assert zl == h + r;
    assert zl[|zl| - 1] == r[|r| - 1];
    HeadBytes(|zl|, 10 + ZipBuffer.LastOffset(z.es), z.count, r);
    forall i | 0 <= i < |z.es| ensures EntryPlaced(z, i) { Placed(z, i); }
  }

  lemma HeadBytes(size: nat, tail: nat, count: nat, d: bytes)
    ensures var zl := ZipBuffer.Head(size, tail, count) + d;
            zl[0..4] == LE(size, 4) && zl[4..8] == LE(tail, 4) && zl[8..10] == LE(count, 2)
  {
    hide LE;
  }

  /** Entry i stands behind the ten bytes of the header and the entries in front of it. */
  ghost predicate EntryPlaced(z: Zip, i: nat)
    requires WellFormed(z) && i < |z.es|
  {
    var (zl, p) := (ZipBuffer.Image(z), 10 + TotalSize(z.es[..i]));
    p + z.es[i].Size() <= |zl| && zl[p..p + z.es[i].Size()] == ZipEntry.EntryBytes(z.es[i])
  }

  lemma Placed(z: Zip, i: nat)
    requires WellFormed(z) && i < |z.es|
    ensures EntryPlaced(z, i)
  {
    hide ZipBuffer.Image, ZipEntry.EntryBytes, TotalSize;
    Ziplist.SeeAt(z, i);
  }

  /** Reading the length of a string element back, for every form of it: the payload is
      counted by six, fourteen or thirty-two bits. */
  lemma HeaderRead(b: bytes)
    requires b != [] && b[0] < 0xc0
    ensures ZipEntry.LenSize(b[0]) == if b[0] < 64 then 1 else if b[0] < 128 then 2 else 5
    ensures b[0] < 64 ==> ZipEntry.PayloadLen(b) == b[0]
    ensures 64 <= b[0] < 128 && |b| >= 2 ==> var (hi: nat, lo: nat) := (b[0] - 64, b[1]); ZipEntry.PayloadLen(b) == hi * 256 + lo
    ensures 128 <= b[0] && |b| >= 5 ==> ZipEntry.PayloadLen(b) == FourOf(b[1..5])
  {
    hide FromBE;
    if 128 <= b[0] && |b| >= 5 { ReadFour(b[1..5]); }
  }

  /** Four bytes, most significant first. */
  function FourOf(s: bytes): nat
    requires |s| == 4
  {
    var (a: nat, b: nat, c: nat, d: nat) := (s[0], s[1], s[2], s[3]);
    a * 0x100_0000 + b * 0x1_0000 + c * 0x100 + d
  }

  lemma ReadFour(s: bytes)
    requires |s| == 4
    ensures FromBE(s) == FourOf(s)
  {
    hide FromBE;
    assert s == ((([] + [s[0]]) + [s[1]]) + [s[2]]) + [s[3]];
    FromBENone();
    FromBESnoc([], s[0]);
    FromBESnoc([] + [s[0]], s[1]);
    FromBESnoc(([] + [s[0]]) + [s[1]], s[2]);
    FromBESnoc((([] + [s[0]]) + [s[1]]) + [s[2]], s[3]);
  }

  // ---------------------------------------------------------------------- intsets

  lemma AtTimes(n: nat, e: Intset.Encoding)
    ensures Intset.At(n, e) == n * e
  {}

  /** Element k of an intset stands at k times the width, in that many bytes. */
  lemma PackedAt(t: Intset.Intset, vs: seq<int>, k: nat)
    requires Intset.Holds(t, vs) && k < |vs|
    ensures var e := t.encoding;
            && e in {2, 4, 8} && Fits(vs[k], e) && |t.contents| == |vs| * e
            && t.contents[k * e..k * e + e] == SignedLE(vs[k], e)
  {
    hide SignedLE, Intset.Pack, FromSignedLE, Intset.At, Intset.Sorted, Fits;
    var (e, s) := (t.encoding, t.contents);
    var (a, v, b) := (vs[..k], vs[k], vs[k + 1..]);
    assert vs == (a + [v]) + b;
    AtTimes(|vs|, e);
    AtTimes(k, e);
    Intset.PackSplit(a + [v], b, e);
    Intset.PackSplit(a, [v], e);
    Intset.PackOne(v, e);
    assert s[..|s|] == s;
    Intset.Slot(s, Intset.Pack(a, e), SignedLE(v, e), Intset.Pack(b, e));
  }

  // -------------------------------------------------------------------- payloads

  /** A length in one, two, five or nine bytes, most significant first. */
  lemma LengthBytes(n: nat)
    requires n < U64
    ensures SaveLen(n) ==
            if n < 64 then [n]
            else if n < 16384 then [64 + n / 256, n % 256]
            else if n < U32 then [0x80, n / 256 / 256 / 256, n / 256 / 256 % 256, n / 256 % 256, n % 256]
            else [0x81] + (BE(n / U32, 4) + BE(n, 4))
  {
    hide BE;
    if n < U32 {
      FourBytes(n);
    } else {
      EightBytes(n);
    }
  }

  /** Reading a length back, for every first byte. */
  lemma LengthRead(b: bytes)
    ensures LoadLen(b) ==
            if b == [] then Option.None
            else if b[0] < 64 then Some(Len(false, b[0], b[1..]))
            else if b[0] < 128 then
              if |b| < 2 then Option.None else var (hi: nat, lo: nat) := (b[0] - 64, b[1]); Some(Len(false, hi * 256 + lo, b[2..]))
            else if b[0] == 128 then
              if |b| < 5 then Option.None else Some(Len(false, FourOf(b[1..5]), b[5..]))
            else if b[0] == 129 then
              if |b| < 9 then Option.None else Some(Len(false, FourOf(b[1..5]) * U32 + FourOf(b[5..9]), b[9..]))
            else if b[0] < 192 then Option.None
            else Some(Len(true, b[0] - 192, b[1..]))
  {
    hide FromBE;
    if |b| >= 5 && b[0] == 128 { ReadFour(b[1..5]); }
    if |b| >= 9 && b[0] == 129 { ReadEight(b[1..9]); }
  }

  lemma ReadEight(s: bytes)
    requires |s| == 8
    ensures FromBE(s) == FourOf(s[..4]) * U32 + FourOf(s[4..])
  {
    hide FromBE;
    var (h, t) := (s[..4], s[4..]);
    ReadFour(h);
    assert s == (((h + [s[4]]) + [s[5]]) + [s[6]]) + [s[7]];
    FromBESnoc(h, s[4]);
    FromBESnoc(h + [s[4]], s[5]);
    FromBESnoc((h + [s[4]]) + [s[5]], s[6]);
    FromBESnoc(((h + [s[4]]) + [s[5]]) + [s[6]], s[7]);
  }

  /** Reading a string back: verbatim, one of three integers, or compressed. */
  lemma StringRead(b: bytes)
    requires b != [] && b[0] >= 192
    ensures TakeString(b) ==
            if b[0] == 0xc0 && |b| >= 2 then Some(Taken(Exactly(Decimal.Print(FromSignedLE(b[1..2]))), b[2..]))
            else if b[0] == 0xc1 && |b| >= 3 then Some(Taken(Exactly(Decimal.Print(FromSignedLE(b[1..3]))), b[3..]))
            else if b[0] == 0xc2 && |b| >= 5 then Some(Taken(Exactly(Decimal.Print(FromSignedLE(b[1..5]))), b[5..]))
            else if b[0] == 0xc3 then TakeLzf(b[1..]) else Option.None
  {
    hide FromSignedLE, Decimal.Print, TakeLzf;
    var r := b[1..];
    assert LoadLen(b) == Some(Len(true, b[0] - 192, r));
    if b[0] == 0xc0 && |b| >= 2 { assert r[..1] == b[1..2] && r[1..] == b[2..]; }
    if b[0] == 0xc1 && |b| >= 3 { assert r[..2] == b[1..3] && r[2..] == b[3..]; }
    if b[0] == 0xc2 && |b| >= 5 { assert r[..4] == b[1..5] && r[4..] == b[5..]; }
  }

  /** An integer string: a byte for the width, then the value. */
  lemma IntegerBytes(v: int)
    ensures EncodeInteger(v) ==
            if -0x80 <= v < 0x80 then Some([0xc0] + SignedLE(v, 1))
            else if -0x8000 <= v < 0x8000 then Some([0xc1] + SignedLE(v, 2))
            else if -0x8000_0000 <= v < 0x8000_0000 then Some([0xc2] + SignedLE(v, 4))
            else Option.None
  {
    hide SignedLE;
  }

  /** A compressed string: 0xc3, both lengths, the data. */
  lemma BlobBytes(c: bytes, n: nat)
    requires |c| < U64 && n < U64
    ensures LzfBlob(c, n) == [0xc3] + (SaveLen(|c|) + (SaveLen(n) + c))
  {
    hide SaveLen;
  }

  /** The footer: a version of at most 8 and the checksum of all before it. */
  lemma FooterBytes(p: bytes, crc: bytes -> nat)
    ensures Rdb.Intact(p, crc) <==>
            |p| >= 10 && var n := |p| - 10;
            var lo: nat, hi: nat := p[n], p[n + 1];
            lo + 256 * hi <= 8 && p[n + 2..] == LE(crc(p[..n + 2]), 8)
  {
    hide LE, FromLE;
    if |p| >= 10 {
      var n := |p| - 10;
      TwoBytes(p[n], p[n + 1]);
      assert p[n..n + 2] == [p[n], p[n + 1]];
    }
  }

  lemma TwoBytes(lo: byte, hi: byte)
    ensures var (a: nat, b: nat) := (lo, hi); FromLE([lo, hi]) == a + 256 * b
  {
    assert [lo, hi][1..] == [hi] && [hi][1..] == [];
    assert FromLE([hi]) == hi + 256 * FromLE([]) && FromLE([lo, hi]) == lo + 256 * FromLE([hi]);
  }

  // ----------------------------------------------------------------- record keys

  /** Type, 16-bit key length, key, 16-bit version, field. */
  lemma RecordKey(t: byte, key: bytes, field: bytes, version: nat)
    requires |key| < U16 && version < U16
    ensures EncodeKey(t, key, field, version) ==
            [t, |key| / 256, |key| % 256] + (key + ([version / 256, version % 256] + field))
  {
    hide BE;
    BEBytes(|key|);
    BEBytes(version);
    assert [t] + ([|key| / 256, |key| % 256] + (key + (BE(version, 2) + field)))
        == [t, |key| / 256, |key| % 256] + (key + (BE(version, 2) + field));
  }

  /** The five types of record and what their fields hold. */
  lemma RecordFields(key: bytes, member: bytes, n: nat, version: nat)
    requires n < U64
    ensures EncodeListKey(key, n, version) == EncodeKey(0x53, key, BE(n / U32, 4) + BE(n, 4), version)
    ensures EncodeZScoreKey(key, member, n, version)
            == EncodeKey(0x7a, key, BE(EncodeScore(n), 8) + member, version)
    ensures EncodeDeleteKey(key, version) == EncodeKey(0x44, key, [], version)
    ensures EncodeEScoreKey(member, n) == [0x54] + ((BE(n / U32, 4) + BE(n, 4)) + member)
    ensures ReclaimStore.MetaKey(key) == [0x4d] + key
  {
    hide BE, EncodeKey;
    EightBytes(n);
  }

  /** The score of a key: a negative double with every bit inverted, another one with its
      sign bit set. */
  lemma ScoreBytes(b: nat)
    requires b < U64
    ensures var (was, now) := (BE(b, 8), BE(EncodeScore(b), 8));
            if was[0] >= 128 then forall i {:trigger now[i]} :: 0 <= i < 8 ==> now[i] == 255 - was[i]
            else now == [was[0] + 128] + was[1..]
  {
    hide BE;
    Pow256Values();
    FirstByte(b, 7);
    assert Pow256(7) * 256 == Pow256(8) && Pow256(7) * 128 == SIGN;
    if b >= SIGN {
      forall i | 0 <= i < 8 ensures BE(U64 - 1 - b, 8)[i] == 255 - BE(b, 8)[i] { Inverted(b, 8, i); }
    } else {
      FirstByte(b + SIGN, 7);
      SameLow(b, 128, 7);
    }
  }

  /** A byte string is its first byte and the rest. */
  lemma {:induction false} FirstByte(v: nat, n: nat)
    requires v < Pow256(n + 1)
    ensures v / Pow256(n) < 256 && BE(v, n + 1) == [v / Pow256(n)] + BE(v, n)
  {
    if n == 0 {
      NoBytes(v);
      NoBytes(v / 256);
      BEStep(v, 0);
      assert [] + [v % 256] == [v % 256];
    } else {
      BEStep(v, n);
      BEStep(v, n - 1);
      FirstByte(v / 256, n - 1);
      DivDiv(v, Pow256(n - 1));
    }
  }

  lemma DivDiv(v: nat, d: nat)
    requires d > 0
    ensures v / 256 / d == v / (256 * d)
  {
    var (q, r) := (v / 256 / d, v / 256 % d);
    assert v == (q * d + r) * 256 + v % 256;
    assert (q * d + r) * 256 == q * (256 * d) + r * 256;
    assert 0 <= r * 256 + v % 256 < 256 * d;
    Quotient(v, 256 * d, q, r * 256 + v % 256);
  }

  lemma Quotient(v: int, d: int, q: int, r: int)
    requires d > 0 && v == q * d + r && 0 <= r < d
    ensures v / d == q
  {
    var (q', r') := (v / d, v % d);
    assert (q' - q) * d == r - r' by { assert v == q' * d + r' && (q' - q) * d == q' * d - q * d; }
    if q' > q { AtLeast(q' - q, d); }
    if q' < q { AtLeast(q - q', d); }
  }

  lemma AtLeast(x: int, d: int)
    requires x >= 1 && d > 0
    ensures x * d >= d
  {}

  lemma {:induction false} Inverted(v: nat, n: nat, i: nat)
    requires v < Pow256(n) && i < n
    ensures BE(Pow256(n) - 1 - v, n)[i] == 255 - BE(v, n)[i]
  {
    hide BE;
    var w := Pow256(n) - 1 - v;
    BEStep(v, n - 1);
    BEStep(w, n - 1);
    var (q, r) := (v / 256, v % 256);
    assert w == (Pow256(n - 1) - 1 - q) * 256 + (255 - r);
    Quotient(w, 256, Pow256(n - 1) - 1 - q, 255 - r);
    if i < n - 1 { Inverted(q, n - 1, i); }
  }

  lemma {:induction false} SameLow(v: nat, m: nat, n: nat)
    ensures BE(v + m * Pow256(n), n) == BE(v, n)
  {
    if n == 0 {
      NoBytes(v);
    } else {
      var (q, s) := (v / 256, m * Pow256(n - 1));
      assert m * Pow256(n) == s * 256;
      Quotient(v + s * 256, 256, q + s, v % 256);
      BEStep(v, n - 1);
      BEStep(v + s * 256, n - 1);
      SameLow(q, m, n - 1);
    }
  }
}
