/** RdbEncoder, DumpEncoder and RdbDecoder. */
module Rdb {
  import opened Bytes
  import opened Sequences
  import opened Options
  import opened Decimal
  import opened RdbFormat
  import LzfFormat
  import Lzf

  const RDB_VERSION: nat := 8

  /** Appends the fields of a payload to w. */
  class DumpEncoder {
    var w: bytes
    const compression: bool

    constructor (compression: bool)
      ensures w == [] && this.compression == compression
    {
      w := [];
      this.compression := compression;
    }

    method WriteRaw(b: bytes)
      modifies this
      ensures w == old(w) + b
    {
      w := w + b;
    }

    method WriteLen(n: nat)
      requires n < U64
      modifies this
      ensures w == old(w) + SaveLen(n)
    {
      if n < 64 {
        WriteRaw([n]);
      } else if n < 16384 {
        WriteRaw([64 + n / 256, n % 256]);
      } else if n < U32 {
        WriteRaw([RDB_32BITLEN]);
        WriteRaw(BE(n, 4));
        Associative(old(w), [RDB_32BITLEN], BE(n, 4));
      } else {
        WriteRaw([RDB_64BITLEN]);
        WriteRaw(BE(n, 8));
        Associative(old(w), [RDB_64BITLEN], BE(n, 8));
      }
    }

    /** saveRawString: always verbatim. */
    method WriteVerbatim(s: bytes)
      requires |s| < U64
      modifies this
      ensures w == old(w) + Verbatim(s)
    {
      hide SaveLen;
      WriteLen(|s|);
      WriteRaw(s);
      Associative(old(w), SaveLen(|s|), s);
    }

    /** rdbSaveRawString: as an integer, compressed or verbatim. What is written reads
        back, but of a compressed string of 4 GiB or more only the first bytes do. */
    method WriteString(s: bytes) returns (ghost code: bytes)
      requires |s| < RDB_LENERR
      modifies this
      ensures w == old(w) + code
      ensures Encodes(code, s) <==> |s| < U32 || code == Verbatim(s)
      ensures !Encodes(code, s) ==> Yields(code, Part(s[..|s| % U32], |s|))
      ensures if |s| <= 11 && Parse(s).Some? && Fits(Parse(s).value, 4) then Some(code) == EncodeInteger(Parse(s).value)
              else code == Verbatim(s) || (compression && |s| > 20 && IsBlob(code, s))
    {
      hide Encodes, SaveLen, Yields, Parse, SignedLE, IsBlob;
      if |s| <= 11 {
        var enc := TryIntegerEncoding(s);
        if enc.Some? {
          WriteRaw(enc.value);
          return enc.value;
        }
      }
      if compression && |s| > 20 {
        var blob := CompressString(s);
        if blob.Some? {
          WriteRaw(blob.value);
          if blob.value == Verbatim(s) { VerbatimEncodes(s); }
          FrontOnly(blob.value, s);
          return blob.value;
        }
      }
      VerbatimEncodes(s);
      WriteVerbatim(s);
      return Verbatim(s);
    }

    /** rdbSaveBinaryDoubleValue: the bit pattern, least significant byte first. */
    method WriteDouble(bits: nat)
      modifies this
      ensures w == old(w) + LE(bits, 8)
    {
      WriteRaw(LE(bits, 8));
    }

    /** encodeFooter: the version and a checksum of everything before it. */
    method WriteFooter(crc: bytes -> nat)
      modifies this
      ensures w == Sealed(old(w), crc)
    {
      WriteRaw([RDB_VERSION % 256, RDB_VERSION / 256]);
      WriteRaw(LE(crc(w), 8));
    }
  }

  function Sealed(body: bytes, crc: bytes -> nat): bytes {
    var b := body + [8, 0];
    b + LE(crc(b), 8)
  }

  /** rdbTryIntegerEncoding: the string must be what its value prints as. */
  method TryIntegerEncoding(s: bytes) returns (enc: Option<bytes>)
    ensures enc.Some? ==> Encodes(enc.value, s)
    ensures enc.Some? <==> Parse(s).Some? && Fits(Parse(s).value, 4)
    ensures enc.Some? ==> enc == EncodeInteger(Parse(s).value)
  {
    hide Encodes, Parse, SignedLE, Strtoll, Print;
    ReprintsExactly(s);
    var scanned := Strtoll(s);
    if scanned.end != |s| { return None; }
    if Print(scanned.value) != s { return None; }
    enc := EncodeInteger(scanned.value);
    if enc.Some? { IntegerEncodes(s, scanned.value); }
  }

  lemma FrontOnly(code: bytes, s: bytes)
    requires Yields(code, Part(s[..|s| % U32], |s|))
    ensures Encodes(code, s) <==> |s| < U32
  {
    hide Yields, Encodes;
    var n := |s|;
    YieldsOne(code, Part(s[..n % U32], n), s);
    if n < U32 {
      Below(n);
      assert s[..n] == s;
    } else {
      assert |s[..n % U32]| < n;
    }
  }

  /** code is a blob that announces |s| bytes and saves at least four. */
  ghost predicate IsBlob(code: bytes, s: bytes) {
    exists c: bytes :: 0 < |c| < U32 && |c| + 4 <= |s| < U64 && code == LzfBlob(c, |s|)
  }

  /** rdbSaveLzfStringObject: worth it only if it saves four bytes. lzf_compress takes
      both lengths as 32-bit numbers, so from 4 GiB on it sees only the first bytes. */
  method CompressString(s: bytes) returns (blob: Option<bytes>)
    requires |s| < RDB_LENERR
    ensures blob.Some? ==> Yields(blob.value, Part(s[..|s| % U32], |s|)) && IsBlob(blob.value, s)
  {
    hide Yields, LzfFormat.Decode, SaveLen;
    if |s| <= 4 { return None; }
    var inLen := |s| % U32;
    var out := new byte[(|s| - 4) % U32];
    var htab := new nat[Lzf.HSIZE];
    var n := Lzf.Compress(s[..inLen], if inLen < |s| then s[inLen] else 0, out, htab);
    if n == 0 { return None; }
    LzfYields(out[..n], |s|, s[..inLen]);
    assert n <= |s| - 4 by { Cut32(|s| - 4); }
    return Some(LzfBlob(out[..n], |s|));
  }

  /** Reads fields from the front of p. */
  class RdbDecoder {
    var p: bytes

    constructor (data: bytes)
      ensures p == data
    {
      p := data;
    }

    /** rioRead. */
    method Read(n: nat) returns (ok: bool, b: bytes)
      modifies this
      ensures ok == (n <= |old(p)|)
      ensures if ok then b == old(p)[..n] && p == old(p)[n..] else p == old(p)
    {
      if n > |p| { return false, []; }
      b := p[..n];
      p := p[n..];
      return true, b;
    }

    /** rdbLoadLenByRef. */
    method ReadLen() returns (ok: bool, encoded: bool, n: nat)
      modifies this
      ensures ok == LoadLen(old(p)).Some?
      ensures ok ==> LoadLen(old(p)) == Some(Len(encoded, n, p))
    {
      hide FromBE;
      ghost var b := p;
      var h;
      ok, h := Read(1);
      if !ok { return false, false, 0; }
      var kind := h[0] / 64;
      assert p == b[1..];
      if kind == RDB_ENCVAL { return true, true, h[0] % 64; }
      if kind == 0 { return true, false, h[0] % 64; }
      var x;
      if kind == 1 {
        ok, x := Read(1);
        if !ok { return false, false, 0; }
        var hi: nat := h[0] % 64;
        assert p == b[2..];
        return true, false, hi * 256 + x[0];
      }
      if h[0] == RDB_32BITLEN {
        ok, x := Read(4);
        if !ok { return false, false, 0; }
        assert p == b[5..] && x == b[1..5];
        return true, false, FromBE(x);
      }
      if h[0] == RDB_64BITLEN {
        ok, x := Read(8);
        if !ok { return false, false, 0; }
        assert p == b[9..] && x == b[1..9];
        return true, false, FromBE(x);
      }
      return false, false, 0;
    }

    /** rdbLoadIntegerObject. */
    method ReadInteger(enctype: nat) returns (ok: bool, s: bytes)
      requires enctype <= 2
      modifies this
      ensures ok == TakeInteger(enctype, old(p)).Some?
      ensures ok ==> TakeInteger(enctype, old(p)) == Some(Taken(Exactly(s), p))
    {
      hide FromSignedLE, Print;
      var enc;
      if enctype == 0 {
        ok, enc := Read(1);
      } else if enctype == 1 {
        ok, enc := Read(2);
      } else {
        ok, enc := Read(4);
      }
      if !ok { return false, []; }
      return true, Print(FromSignedLE(enc));
    }

    /** rdbLoadLzfStringObject. lzf_decompress is given the lengths cut to 32 bits; with
        nothing to read it fails. The string is the whole allocated block, of which
        lzf_decompress wrote the front. */
    method ReadLzf() returns (ok: bool, s: bytes)
      modifies this
      ensures ok == TakeLzf(old(p)).Some?
      ensures ok ==> TakeLzf(old(p)).value.rest == p && TakeLzf(old(p)).value.part.Covers(s)
    {
      hide LoadLen, LzfFormat.Decode;
      var e, clen, len, c;
      ok, e, clen := ReadLen();
      if !ok { return false, []; }
      ok, e, len := ReadLen();
      if !ok || len == RDB_LENERR { return false, []; }
      ok, c := Read(clen);
      if !ok || clen % U32 == 0 { return false, []; }
      ghost var l := LoadLen(LoadLen(old(p)).value.rest).value;
      CutFront(l.rest, clen, clen % U32);
      var out, behind := new byte[len % U32], new byte[len - len % U32];
      var n, why := Lzf.Decompress(c[..clen % U32], out);
      if n == 0 { return false, []; }
      Fronts(out[..], n, behind[..]);
      return true, out[..] + behind[..];
    }

    /** rdbGenericLoadStringObject. */
    method ReadString() returns (ok: bool, s: bytes)
      modifies this
      ensures ok == TakeString(old(p)).Some?
      ensures ok ==> TakeString(old(p)).value.rest == p && TakeString(old(p)).value.part.Covers(s)
    {
      hide LoadLen, TakeLzf, TakeInteger;
      var encoded, len;
      LoadLenShrinks(p);
      ok, encoded, len := ReadLen();
      if !ok { return false, []; }
      if encoded {
        if len <= 2 {
          ok, s := ReadInteger(len);
          return;
        } else if len == RDB_ENC_LZF {
          ok, s := ReadLzf();
          return;
        } else {
          return false, [];
        }
      }
      if len == RDB_LENERR { return false, []; }
      ok, s := Read(len);
    }

    method ReadDouble() returns (ok: bool, bits: nat)
      modifies this
      ensures ok == (8 <= |old(p)|)
      ensures ok ==> bits == FromLE(old(p)[..8]) && p == old(p)[8..]
    {
      var b;
      ok, b := Read(8);
      if !ok { return false, 0; }
      return true, FromLE(b);
    }

    /** verifyDumpPayload: check the footer and cut it off. */
    method Verify(crc: bytes -> nat) returns (ok: bool)
      modifies this
      ensures ok == Intact(old(p), crc)
      ensures ok ==> p == old(p)[..|old(p)| - 10]
    {
      if |p| < 10 { return false; }
      var n := |p| - 10;
      var footer := p[n..];
      assert footer[2..] == p[n + 2..] && footer[..2] == p[n..n + 2];
      var rdbver := FromLE(footer[..2]);
      if rdbver > RDB_VERSION { return false; }
      var sum := crc(p[..n + 2]);
      ok := LE(sum, 8) == footer[2..];
      p := p[..n];
    }
  }

  lemma Cut32(n: nat)
    ensures n % U32 <= n
  {}

  predicate Intact(p: bytes, crc: bytes -> nat) {
    |p| >= 10 && var n := |p| - 10; FromLE(p[n..n + 2]) <= RDB_VERSION && LE(crc(p[..n + 2]), 8) == p[n + 2..]
  }

  lemma CutFront(b: bytes, n: nat, k: nat)
    requires k <= n <= |b|
    ensures b[..n][..k] == b[..k]
  {}

  lemma Fronts(out: bytes, n: nat, behind: bytes)
    requires n <= |out|
    ensures out[..n] <= out + behind
  {}

  lemma LoadLenShrinks(b: bytes)
    ensures LoadLen(b).Some? ==> |LoadLen(b).value.rest| < |b|
  {}

  /** A sealed payload verifies, whatever the checksum function. */
  lemma SealedIsIntact(body: bytes, crc: bytes -> nat)
    ensures Intact(Sealed(body, crc), crc)
    ensures Sealed(body, crc)[..|Sealed(body, crc)| - 10] == body
  {
    hide LE, FromLE;
    var b := body + [8, 0];
    var s := Sealed(body, crc);
    var n := |body|;
    assert |s| == n + 10 && s[..n + 2] == b && s[n + 2..] == LE(crc(b), 8);
    assert s[n..n + 2] == b[n..] == [8, 0];
    Version();
    assert s[..n] == body;
  }

  lemma Version()
    ensures FromLE([8, 0]) == 8
  {
    assert [8, 0][1..] == [0] && [0][1..] == [];
  }
}
