/** Byte strings: fixed-width integers in both byte orders, and the
    lexicographic order that the store sorts its keys by. */
module Bytes {

  type byte = b: int | 0 <= b < 256

  type bytes = seq<byte>

  const U16 := 0x1_0000
  const U32 := 0x1_0000_0000
  const U64 := 0x1_0000_0000_0000_0000

  ghost function Pow256(n: nat): (r: nat)
    ensures r >= 1
  {
    if n == 0 then 1 else 256 * Pow256(n - 1)
  }

  lemma Pow256Values()
    ensures Pow256(1) == 256 && Pow256(2) == U16 && Pow256(4) == U32 && Pow256(8) == U64
  {
    assert Pow256(3) == 256 * Pow256(2);
    assert Pow256(5) == 256 * Pow256(4);
    assert Pow256(6) == 256 * Pow256(5);
    assert Pow256(7) == 256 * Pow256(6);
  }

  /** The low n bytes of v, least significant first. */
  function LE(v: nat, n: nat): (r: bytes)
    ensures |r| == n
  {
    if n == 0 then [] else [v % 256] + LE(v / 256, n - 1)
  }

  function FromLE(s: bytes): nat {
    if s == [] then 0 else s[0] + 256 * FromLE(s[1..])
  }

  /** The low n bytes of v, most significant first. */
  function BE(v: nat, n: nat): (r: bytes)
    ensures |r| == n
  {
    if n == 0 then [] else BE(v / 256, n - 1) + [v % 256]
  }

  function FromBE(s: bytes): nat {
    if s == [] then 0 else 256 * FromBE(s[..|s| - 1]) + s[|s| - 1]
  }

  lemma {:induction false} LERoundTrip(v: nat, n: nat)
    requires v < Pow256(n)
    ensures FromLE(LE(v, n)) == v
  {
    if n != 0 {
      LERoundTrip(v / 256, n - 1);
      assert LE(v, n)[1..] == LE(v / 256, n - 1);
    }
  }

  lemma {:induction false} FromLERoundTrip(s: bytes)
    ensures FromLE(s) < Pow256(|s|)
    ensures LE(FromLE(s), |s|) == s
  {
    if s != [] {
      FromLERoundTrip(s[1..]);
      assert s == [s[0]] + s[1..];
    }
  }

  lemma {:induction false} BERoundTrip(v: nat, n: nat)
    requires v < Pow256(n)
    ensures FromBE(BE(v, n)) == v
  {
    hide FromBE;
    if n == 0 {
      FromBENone();
    } else {
      BERoundTrip(v / 256, n - 1);
      FromBESnoc(BE(v / 256, n - 1), v % 256);
    }
  }

  lemma FromBENone()
    ensures FromBE([]) == 0
  {}

  lemma FromBESnoc(s: bytes, b: byte)
    ensures FromBE(s + [b]) == 256 * FromBE(s) + b
  {
    assert (s + [b])[..|s|] == s;
  }

  lemma {:induction false} FromBERoundTrip(s: bytes)
    ensures FromBE(s) < Pow256(|s|)
    ensures BE(FromBE(s), |s|) == s
  {
    if s != [] {
      FromBERoundTrip(s[..|s| - 1]);
      assert s == s[..|s| - 1] + [s[|s| - 1]];
    }
  }

  lemma LEStep(v: nat, n: nat)
    ensures LE(v, n + 1) == [v % 256] + LE(v / 256, n)
  {}

  lemma BEStep(v: nat, n: nat)
    ensures BE(v, n + 1) == BE(v / 256, n) + [v % 256]
  {}

  lemma NoBytes(v: nat)
    ensures LE(v, 0) == [] && BE(v, 0) == []
  {}

  /** Fields of up to four bytes, byte by byte; what does not fit is cut off. */
  lemma LEBytes(v: nat)
    ensures LE(v, 1) == [v % 256] && LE(v, 2) == [v % 256, v / 256 % 256]
    ensures LE(v, 3) == [v % 256, v / 256 % 256, v / 256 / 256 % 256]
    ensures LE(v, 4) == [v % 256, v / 256 % 256, v / 256 / 256 % 256, v / 256 / 256 / 256 % 256]
  {
    hide LE;
    var (b, c, d) := (v / 256, v / 256 / 256, v / 256 / 256 / 256);
    NoBytes(b); NoBytes(c); NoBytes(d); NoBytes(d / 256);
    LEStep(v, 0); LEStep(v, 1); LEStep(v, 2); LEStep(v, 3);
    LEStep(b, 0); LEStep(b, 1); LEStep(b, 2);
    LEStep(c, 0); LEStep(c, 1);
    LEStep(d, 0);
  }

  lemma BEBytes(v: nat)
    ensures BE(v, 2) == [v / 256 % 256, v % 256]
    ensures BE(v, 4) == [v / 256 / 256 / 256 % 256, v / 256 / 256 % 256, v / 256 % 256, v % 256]
  {
    hide BE;
    var (b, c, d) := (v / 256, v / 256 / 256, v / 256 / 256 / 256);
    NoBytes(d / 256); NoBytes(c);
    BEStep(v, 1); BEStep(v, 3);
    BEStep(b, 0); BEStep(b, 2);
    BEStep(c, 1);
    BEStep(d, 0);
  }

  /** Eight bytes are two fields of four. */
  lemma EightBytes(v: nat)
    ensures LE(v, 8) == LE(v, 4) + LE(v / U32, 4)
    ensures BE(v, 8) == BE(v / U32, 4) + BE(v, 4)
  {
    hide LE, BE;
    var (b, c, d) := (v / 256, v / 256 / 256, v / 256 / 256 / 256);
    assert d / 256 == v / U32;
    LEStep(v, 7); LEStep(b, 6); LEStep(c, 5); LEStep(d, 4);
    BEStep(v, 7); BEStep(b, 6); BEStep(c, 5); BEStep(d, 4);
    LEBytes(v);
    BEBytes(v);
  }

  /** The number of values an n-byte field can hold. */
  function Span(n: nat): (r: nat)
    requires n in {1, 2, 3, 4, 8}
    ensures r > 0
  {
    if n == 1 then 0x100 else if n == 2 then U16 else if n == 3 then 0x100_0000 else if n == 4 then U32 else U64
  }

  lemma SpanIsPow256(n: nat)
    requires n in {1, 2, 3, 4, 8}
    ensures Span(n) == Pow256(n)
  {
    Pow256Values();
    assert Pow256(3) == 256 * Pow256(2);
  }

  predicate Fits(v: int, n: nat)
    requires n in {1, 2, 3, 4, 8}
  {
    -(Span(n) / 2) <= v < Span(n) / 2
  }

  /** Two's complement in n bytes, least significant first. */
  function SignedLE(v: int, n: nat): (r: bytes)
    requires n in {1, 2, 3, 4, 8} && Fits(v, n)
    ensures |r| == n
  {
    LE(if v < 0 then v + Span(n) else v, n)
  }

  function FromSignedLE(s: bytes): int
    requires |s| in {1, 2, 3, 4, 8}
  {
    var u: int := FromLE(s);
    if u >= Span(|s|) / 2 then u - Span(|s|) else u
  }

  lemma SignedRoundTrip(v: int, n: nat)
    requires n in {1, 2, 3, 4, 8} && Fits(v, n)
    ensures FromSignedLE(SignedLE(v, n)) == v
  {
    SpanIsPow256(n);
    LERoundTrip(if v < 0 then v + Span(n) else v, n);
  }

  /** A piece of a slice is a slice of the whole. */
  lemma SubSlice(s: bytes, p: nat, w: bytes, a: nat, b: nat)
    requires p + |w| <= |s| && s[p..p + |w|] == w && a <= b <= |w|
    ensures s[p + a..p + b] == w[a..b]
    ensures a < |w| ==> s[p + a] == w[a]
  {
    var t := s[p..p + |w|];
    assert forall i :: 0 <= i < |w| ==> t[i] == s[p + i];
    assert s[p + a..p + b] == t[a..b];
  }

  /** memcmp, then length: the strict order of the store. */
  predicate Less(a: bytes, b: bytes) {
    b != [] && (a == [] || a[0] < b[0] || (a[0] == b[0] && Less(a[1..], b[1..])))
  }

  /** b goes on where a ends, or the first byte that differs is greater. */
  lemma {:induction false} LessMeans(a: bytes, b: bytes)
    ensures Less(a, b) <==> exists k :: 0 <= k <= |a| && k < |b| && a[..k] == b[..k] && (k == |a| || a[k] < b[k])
  {
    if a != [] && b != [] && a[0] == b[0] {
      LessMeans(a[1..], b[1..]);
      if k :| 0 <= k <= |a| && k < |b| && a[..k] == b[..k] && (k == |a| || a[k] < b[k]) {
        if k > 0 {
          assert a[..k][1..] == a[1..][..k - 1] && b[..k][1..] == b[1..][..k - 1];
        }
      }
      if j :| 0 <= j <= |a| - 1 && j < |b| - 1 && a[1..][..j] == b[1..][..j] && (j == |a| - 1 || a[1..][j] < b[1..][j]) {
        assert a[..j + 1] == [a[0]] + a[1..][..j] && b[..j + 1] == [b[0]] + b[1..][..j];
      }
    } else if a != [] && b != [] {
      assert forall k :: 0 < k <= |a| && k < |b| ==> a[..k][0] == a[0] && b[..k][0] == b[0];
      if a[0] < b[0] { assert a[..0] == b[..0]; }
    } else if b != [] {
      assert a[..0] == b[..0];
    }
  }

  lemma {:induction false} LessIrreflexive(a: bytes)
    ensures !Less(a, a)
  {
    if a != [] { LessIrreflexive(a[1..]); }
  }

  lemma {:induction false} LessTransitive(a: bytes, b: bytes, c: bytes)
    requires Less(a, b) && Less(b, c)
    ensures Less(a, c)
  {
    if a != [] && a[0] == b[0] == c[0] { LessTransitive(a[1..], b[1..], c[1..]); }
  }

  lemma LessAsymmetric(a: bytes, b: bytes)
    requires Less(a, b)
    ensures !Less(b, a)
  {
    if Less(b, a) {
      LessTransitive(a, b, a);
      LessIrreflexive(a);
    }
  }

  lemma {:induction false} LessTotal(a: bytes, b: bytes)
    ensures Less(a, b) || a == b || Less(b, a)
  {
    if a != [] && b != [] && a[0] == b[0] {
      LessTotal(a[1..], b[1..]);
      assert a == [a[0]] + a[1..] && b == [b[0]] + b[1..];
    }
  }

  lemma {:induction false} LessCommonPrefix(p: bytes, a: bytes, b: bytes)
    ensures Less(p + a, p + b) == Less(a, b)
  {
    if p == [] {
      assert p + a == a && p + b == b;
    } else {
      assert (p + a)[1..] == p[1..] + a && (p + b)[1..] == p[1..] + b;
      LessCommonPrefix(p[1..], a, b);
    }
  }

  /** Between equally long strings the order is settled before any suffix. */
  lemma {:induction false} LessBeforeSuffix(a: bytes, b: bytes, x: bytes, y: bytes)
    requires |a| == |b| && a != b
    ensures Less(a + x, b + y) == Less(a, b)
  {
    assert (a + x)[1..] == a[1..] + x && (b + y)[1..] == b[1..] + y;
    if a[0] == b[0] {
      assert a == [a[0]] + a[1..] && b == [b[0]] + b[1..];
      LessBeforeSuffix(a[1..], b[1..], x, y);
    }
  }

  /** Fixed-width big-endian numbers sort as numbers. */
  lemma {:induction false} BEOrder(u: nat, v: nat, n: nat)
    requires u < Pow256(n) && v < Pow256(n)
    ensures Less(BE(u, n), BE(v, n)) == (u < v)
  {
    if n == 0 {
    } else if u / 256 == v / 256 {
      LessCommonPrefix(BE(u / 256, n - 1), [u % 256], [v % 256]);
    } else {
      BERoundTrip(u / 256, n - 1);
      BERoundTrip(v / 256, n - 1);
      LessBeforeSuffix(BE(u / 256, n - 1), BE(v / 256, n - 1), [u % 256], [v % 256]);
      BEOrder(u / 256, v / 256, n - 1);
    }
  }
}
