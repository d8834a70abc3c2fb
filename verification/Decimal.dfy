/** Decimal printing and parsing of 64-bit integers: ll2string, string2ll and
    str_to_int64, all proved against the plain decimal notation. */
module Decimal {
  import opened Bytes
  import opened Sequences
  import opened Options

  const LLONG_MAX: int := 0x7FFF_FFFF_FFFF_FFFF
  const LLONG_MIN: int := -0x8000_0000_0000_0000
  const ULLONG_MAX: int := U64 - 1

  const ZERO: byte := 48
  const NINE: byte := 57
  const MINUS: byte := 45

  predicate Int64(v: int) { LLONG_MIN <= v <= LLONG_MAX }

  // ------------------------------------------------------------------ notation

  function Digits(n: nat): (r: bytes)
    ensures r != []
  {
    if n < 10 then [ZERO + n] else Digits(n / 10) + [ZERO + n % 10]
  }

  /** The decimal notation of v. */
  function Print(v: int): (r: bytes)
    ensures r != []
  {
    if v < 0 then [MINUS] + Digits(-v) else Digits(v)
  }

  predicate AllDigits(s: bytes) {
    forall i :: 0 <= i < |s| ==> ZERO <= s[i] <= NINE
  }

  function FromDigits(s: bytes): nat
    requires AllDigits(s)
  {
    if s == [] then 0 else 10 * FromDigits(s[..|s| - 1]) + (s[|s| - 1] - ZERO)
  }

  function Unsigned(s: bytes): bytes {
    if s != [] && s[0] == MINUS then s[1..] else s
  }

  /** No sign but a leading minus, no leading zero, no minus zero, within range. */
  predicate Canonical(s: bytes) {
    var d := Unsigned(s);
    && d != [] && AllDigits(d)
    && (d[0] == ZERO ==> s == [ZERO])
    && FromDigits(d) <= (if s[0] == MINUS then -LLONG_MIN else LLONG_MAX)
  }

  function Parse(s: bytes): Option<int> {
    if !Canonical(s) then None else
      var n: int := FromDigits(Unsigned(s));
      Some(if s[0] == MINUS then -n else n)
  }

  lemma {:induction false} DigitsValue(n: nat)
    ensures AllDigits(Digits(n)) && FromDigits(Digits(n)) == n
    ensures Digits(n)[0] == ZERO ==> n == 0
  {
    if n >= 10 {
      DigitsValue(n / 10);
      assert Digits(n)[..|Digits(n)| - 1] == Digits(n / 10);
    }
  }

  lemma {:induction false} DigitsOfValue(s: bytes)
    requires s != [] && AllDigits(s) && (s[0] == ZERO ==> |s| == 1)
    ensures Digits(FromDigits(s)) == s
    ensures s[0] != ZERO ==> FromDigits(s) > 0
  {
    if |s| == 1 {
      assert s[..0] == [];
    } else {
      DigitsOfValue(s[..|s| - 1]);
      assert s == s[..|s| - 1] + [s[|s| - 1]];
    }
  }

  /** Every 64-bit integer parses back from what it prints as. */
  lemma PrintThenParse(v: int)
    requires Int64(v)
    ensures Parse(Print(v)) == Some(v)
  {
    DigitsValue(if v < 0 then -v else v);
    if v < 0 {
      assert Print(v)[1..] == Digits(-v);
    }
  }

  /** Every accepted string is exactly what its value prints as. */
  lemma ParseThenPrint(s: bytes)
    requires Parse(s).Some?
    ensures Int64(Parse(s).value) && Print(Parse(s).value) == s
  {
    DigitsOfValue(Unsigned(s));
  }

  // ------------------------------------------------------------------- parsing

  lemma {:induction false} ValuePrefix(s: bytes, k: nat)
    requires AllDigits(s) && k <= |s|
    ensures AllDigits(s[..k]) && FromDigits(s[..k]) <= FromDigits(s)
    decreases |s|
  {
    if k == |s| {
      assert s[..k] == s;
    } else {
      ValuePrefix(s[..|s| - 1], k);
      assert s[..|s| - 1][..k] == s[..k];
    }
  }

  lemma ValueSnoc(s: bytes, k: nat)
    requires k < |s| && AllDigits(s[..k]) && ZERO <= s[k] <= NINE
    ensures AllDigits(s[..k + 1])
    ensures FromDigits(s[..k + 1]) == 10 * FromDigits(s[..k]) + (s[k] - ZERO)
  {
    assert s[..k + 1][..k] == s[..k];
  }

  /** A number too large after k digits stays too large. */
  lemma Overflow(s: bytes, k: nat, bound: nat)
    requires k <= |s| && AllDigits(s[..k]) && bound < FromDigits(s[..k])
    ensures AllDigits(s) ==> bound < FromDigits(s)
  {
    if AllDigits(s) { ValuePrefix(s, k); }
  }

  /** Reads digits of s from position 1 on, as far as they go, into an unsigned
      64-bit accumulator. */
  method ReadDigits(s: bytes) returns (ok: bool, v: nat)
    requires s != [] && ZERO < s[0] <= NINE
    ensures ok ==> AllDigits(s) && v == FromDigits(s) <= ULLONG_MAX
    ensures !ok ==> AllDigits(s) ==> FromDigits(s) > ULLONG_MAX
  {
    var plen := 1;
    v := s[0] - ZERO;
    assert s[..1] == [s[0]] && s[..0] == [];
    while plen < |s| && ZERO <= s[plen] <= NINE
      invariant 1 <= plen <= |s| && AllDigits(s[..plen])
      invariant v == FromDigits(s[..plen]) <= ULLONG_MAX
    {
      ValueSnoc(s, plen);
      if v > ULLONG_MAX / 10 {
        Overflow(s, plen + 1, ULLONG_MAX);
        return false, v;
      }
      v := v * 10;
      if v > ULLONG_MAX - (s[plen] - ZERO) {
        Overflow(s, plen + 1, ULLONG_MAX);
        return false, v;
      }
      v := v + (s[plen] - ZERO);
      plen := plen + 1;
    }
    if plen < |s| { return false, v; }
    assert s[..plen] == s;
    return true, v;
  }

  /** string2ll: accepts exactly the canonical strings, with their value. */
  method StringToLL(s: bytes) returns (ok: bool, value: int)
    ensures Parse(s) == if ok then Some(value) else None
  {
    if |s| == 0 { return false, 0; }
    if |s| == 1 && s[0] == ZERO {
      assert FromDigits(s[..0]) == 0;
      return true, 0;
    }
    var negative := s[0] == MINUS;
    var p := if negative then s[1..] else s;
    if |p| == 0 { return false, 0; }
    if !(ZERO < p[0] <= NINE) { return false, 0; }
    var v;
    ok, v := ReadDigits(p);
    if !ok { return false, 0; }
    if negative {
      if v > -(LLONG_MIN + 1) + 1 { return false, 0; }
      return true, -v;
    } else {
      if v > LLONG_MAX { return false, 0; }
      return true, v;
    }
  }

  // ------------------------------------------------------------------- strtoll

  const PLUS: byte := 43

  predicate Blank(c: byte) { c == 32 || 9 <= c <= 13 }

  function Blanks(s: bytes): (k: nat)
    ensures k <= |s|
  {
    if s == [] || !Blank(s[0]) then 0 else 1 + Blanks(s[1..])
  }

  /** The number of leading digits. */
  function Run(s: bytes): (k: nat)
    ensures k <= |s| && AllDigits(s[..k])
  {
    if s == [] || !(ZERO <= s[0] <= NINE) then 0
    else
      var k := 1 + Run(s[1..]);
      assert s[..k] == [s[0]] + s[1..][..k - 1];
      k
  }

  function Clamp(v: int): (r: int)
    ensures Int64(r)
  {
    if v < LLONG_MIN then LLONG_MIN else if v > LLONG_MAX then LLONG_MAX else v
  }

  datatype Scanned = Scanned(value: int, end: nat)

  /** strtoll in base ten: blanks, one sign, digits; where it stopped, and the value
      brought into range. */
  function Strtoll(s: bytes): (r: Scanned)
    ensures Int64(r.value) && r.end <= |s|
  {
    var k := Blanks(s);
    var sign := k < |s| && (s[k] == MINUS || s[k] == PLUS);
    var from := if sign then k + 1 else k;
    var n := Run(s[from..]);
    if n == 0 then Scanned(0, 0) else
      var v: int := FromDigits(s[from..][..n]);
      Scanned(Clamp(if sign && s[k] == MINUS then -v else v), from + n)
  }

  lemma {:induction false} RunAll(s: bytes)
    requires AllDigits(s)
    ensures Run(s) == |s|
  {
    if s != [] { RunAll(s[1..]); }
  }

  /** str_to_int64 and the comparison with the reprinted value accept exactly the
      canonical notations. */
  lemma ReprintsExactly(s: bytes)
    ensures var r := Strtoll(s);
            (r.end == |s| && Print(r.value) == s) <==> Parse(s).Some?
    ensures Parse(s).Some? ==> Strtoll(s).value == Parse(s).value
  {
    hide FromDigits, Digits;
    var r := Strtoll(s);
    if Parse(s).Some? {
      ParseThenPrint(s);
      var d := Unsigned(s);
      RunAll(d);
      assert s[0..] == s && d[..|d|] == d;
    } else if Print(r.value) == s {
      PrintThenParse(r.value);
    }
  }

  // ------------------------------------------------------------------ printing

  ghost function Pow10(k: nat): (r: nat)
    ensures r >= 1
  {
    if k == 0 then 1 else 10 * Pow10(k - 1)
  }

  lemma {:induction false} DigitAt(n: nat, i: nat)
    requires i < |Digits(n)|
    ensures Digits(n)[|Digits(n)| - 1 - i] == 48 + n / Pow10(i) % 10
  {
    if i > 0 {
      DigitAt(n / 10, i - 1);
      DivTen(n, Pow10(i - 1));
    }
  }

  lemma DivTen(n: nat, d: nat)
    requires d > 0
    ensures n / 10 / d == n / (10 * d)
  {
    var (q, r) := (n / 10 / d, n / 10 % d);
    assert n == (q * d + r) * 10 + n % 10;
    assert (q * d + r) * 10 == q * (10 * d) + r * 10;
    var (q', r') := (n / (10 * d), n % (10 * d));
    assert n == q' * (10 * d) + r';
    assert (q' - q) * (10 * d) == r * 10 + n % 10 - r';
    if q' > q { TimesAtLeast(q' - q, 10 * d); }
    if q' < q { TimesAtLeast(q - q', 10 * d); }
  }

  lemma TimesAtLeast(x: int, d: int)
    requires x >= 1 && d > 0
    ensures x * d >= d
  {}

  /** The notation character by character: a minus for a negative number, and in each
      place, counted from the right, the digit of its power of ten. */
  lemma PrintedAt(v: int, i: nat)
    ensures var n := if v < 0 then -v else v;
            var d := if v < 0 then Print(v)[1..] else Print(v);
            && (v < 0 ==> Print(v)[0] == 45)
            && d != [] && (d[0] == 48 ==> n == 0 && |d| == 1)
            && (i < |d| ==> d[|d| - 1 - i] == 48 + n / Pow10(i) % 10)
            && (i >= |d| ==> n / Pow10(i) == 0)
  {
    hide Digits, Pow10, FromDigits, AllDigits;
    var n := if v < 0 then -v else v;
    var d := Digits(n);
    assert v < 0 ==> Print(v)[1..] == d;
    DigitsValue(n);
    if n == 0 { ZeroDigits(); }
    if i < |d| {
      DigitAt(n, i);
    } else {
      DigitsBelow(n);
      Pow10Grows(|d|, i);
      NoQuotient(n, Pow10(i));
    }
  }

  lemma NoQuotient(n: nat, p: nat)
    requires n < p
    ensures n / p == 0
  {}

  lemma ZeroDigits()
    ensures Digits(0) == [48]
  {}

  lemma {:induction false} DigitsBelow(n: nat)
    ensures n < Pow10(|Digits(n)|)
  {
    if n >= 10 { DigitsBelow(n / 10); }
  }

  lemma {:induction false} Pow10Grows(i: nat, j: nat)
    requires i <= j
    ensures Pow10(i) <= Pow10(j)
  {
    if i < j { Pow10Grows(i, j - 1); }
  }

  lemma {:induction false} DigitsCount(v: nat, k: nat)
    requires 0 < k && v < Pow10(k) && (k == 1 || Pow10(k - 1) <= v)
    ensures |Digits(v)| == k
  {
    if k > 1 { DigitsCount(v / 10, k - 1); }
  }

  lemma DropFour(v: nat)
    requires v >= 10000
    ensures |Digits(v)| == 4 + |Digits(v / 10000)|
  {
    assert v / 10 / 10 == v / 100 && v / 100 / 10 == v / 1000 && v / 1000 / 10 == v / 10000;
    assert |Digits(v)| == 1 + |Digits(v / 10)|;
    assert |Digits(v / 10)| == 1 + |Digits(v / 100)|;
    assert |Digits(v / 100)| == 1 + |Digits(v / 1000)|;
    assert |Digits(v / 1000)| == 1 + |Digits(v / 10000)|;
  }

  lemma DropTwelve(v: nat)
    requires v >= 1000000000000
    ensures |Digits(v)| == 12 + |Digits(v / 1000000000000)|
  {
    DropFour(v);
    DropFour(v / 10000);
    DropFour(v / 10000 / 10000);
    assert v / 10000 / 10000 / 10000 == v / 1000000000000;
  }

  lemma Pow10Values()
    ensures Pow10(1) == 10 && Pow10(2) == 100 && Pow10(3) == 1000 && Pow10(4) == 10000 && Pow10(5) == 100000
    ensures Pow10(6) == 1000000 && Pow10(7) == 10000000 && Pow10(8) == 100000000 && Pow10(9) == 1000000000
    ensures Pow10(10) == 10000000000 && Pow10(11) == 100000000000 && Pow10(12) == 1000000000000
  {
    assert Pow10(1) == 10 * Pow10(0);
    assert Pow10(3) == 10 * Pow10(2);
    assert Pow10(5) == 10 * Pow10(4);
    assert Pow10(7) == 10 * Pow10(6);
    assert Pow10(9) == 10 * Pow10(8);
    assert Pow10(11) == 10 * Pow10(10);
  }

  /** digits10: how many digits v takes, by a decision tree. */
  function Digits10(v: nat): nat {
    if v < 10 then 1
    else if v < 100 then 2
    else if v < 1000 then 3
    else if v < 1000000000000 then
      if v < 100000000 then
        if v < 1000000 then
          if v < 10000 then 4 else 5 + (if v >= 100000 then 1 else 0)
        else 7 + (if v >= 10000000 then 1 else 0)
      else if v < 10000000000 then 9 + (if v >= 1000000000 then 1 else 0)
      else 11 + (if v >= 100000000000 then 1 else 0)
    else 12 + Digits10(v / 1000000000000)
  }

  lemma {:induction false} Digits10Counts(v: nat)
    ensures Digits10(v) == |Digits(v)|
  {
    Pow10Values();
    if v < 1000000000000 {
      var k := Digits10(v);
      assert 1 <= k <= 12;
      DigitsCount(v, k);
    } else {
      Digits10Counts(v / 1000000000000);
      DropTwelve(v);
    }
  }

  /** The 200-character table of two-digit pairs. */
  function PairAt(i: nat): byte
    requires i < 200
  {
    if i % 2 == 0 then ZERO + i / 2 / 10 else ZERO + i / 2 % 10
  }

  /** ll2string: fills dst from the back, two digits at a time, and returns the
      length, or 0 when the text and its terminator do not fit. */
  method LLToString(dst: array<byte>, svalue: int) returns (length: nat)
    requires Int64(svalue)
    modifies dst
    ensures |Print(svalue)| < dst.Length ==>
              length == |Print(svalue)| && dst[..] == Print(svalue) + ([0] + old(dst[length + 1..]))
    ensures |Print(svalue)| >= dst.Length ==> length == 0 && dst[..] == old(dst[..])
  {
    hide Digits, Digits10;
    var negative := svalue < 0;
    var value: nat := if negative then if svalue != LLONG_MIN then -svalue else LLONG_MAX + 1 else svalue;
    var sign := if negative then 1 else 0;
    length := Digits10(value) + sign;
    Digits10Counts(value);
    if length >= dst.Length { return 0; }
    Terminate(dst, length);
    FillDigits(dst, value, sign, length);
    if negative {
      PutSign(dst);
      Associative([MINUS], Digits(value), [0] + old(dst[length + 1..]));
    } else {
      assert dst[..] == dst[0..];
    }
  }

  method Terminate(dst: array<byte>, length: nat)
    requires length < dst.Length
    modifies dst
    ensures dst[length..] == [0] + old(dst[length + 1..])
  {
    dst[length] := 0;
  }

  method PutSign(dst: array<byte>)
    requires dst.Length > 0
    modifies dst
    ensures dst[..] == [MINUS] + old(dst[1..])
  {
    dst[0] := MINUS;
  }

  method PutPair(dst: array<byte>, next: nat, i: nat)
    requires 1 <= next < dst.Length && i + 1 < 200
    modifies dst
    ensures dst[next - 1..] == [PairAt(i), PairAt(i + 1)] + old(dst[next + 1..])
    ensures dst[..next - 1] == old(dst[..next - 1])
  {
    dst[next] := PairAt(i + 1);
    dst[next - 1] := PairAt(i);
  }

  /** The digits of v, placed so that they end just before `length`. */
  method FillDigits(dst: array<byte>, v: nat, start: nat, length: nat)
    requires length == start + |Digits(v)| <= dst.Length
    modifies dst
    ensures dst[start..] == Digits(v) + old(dst[length..])
    ensures dst[..start] == old(dst[..start])
  {
    hide Digits, PairAt;
    var value, next := v, length - 1;
    while value >= 100
      invariant start <= next < length && next + 1 - start == |Digits(value)|
      invariant Digits(value) + dst[next + 1..] == Digits(v) + old(dst[length..])
      invariant dst[..start] == old(dst[..start])
      decreases value
    {
      PairEnds(value);
      ghost var i := value % 100 * 2;
      Associative(Digits(value / 100), [PairAt(i), PairAt(i + 1)], dst[next + 1..]);
      PutPair(dst, next, value % 100 * 2);
      value, next := value / 100, next - 2;
    }
    LastPair(value);
    if value < 10 {
      dst[next] := ZERO + value;
    } else {
      PutPair(dst, next, value * 2);
    }
  }

  lemma LastPair(value: nat)
    requires value < 100
    ensures Digits(value) == if value < 10 then [ZERO + value] else [PairAt(value * 2), PairAt(value * 2 + 1)]
  {
    if value >= 10 {
      assert Digits(value) == Digits(value / 10) + [ZERO + value % 10];
    }
  }

  lemma PairEnds(value: nat)
    requires value >= 100
    ensures var i := value % 100 * 2;
            Digits(value) == Digits(value / 100) + [PairAt(i), PairAt(i + 1)]
  {
    assert value / 10 / 10 == value / 100;
    assert Digits(value) == Digits(value / 10) + [ZERO + value % 10];
    assert Digits(value / 10) == Digits(value / 100) + [ZERO + value / 10 % 10];
  }

  /** Printing into a buffer and parsing the text back is the identity. */
  method PrintParseRoundTrip(dst: array<byte>, v: int) returns (ok: bool, w: int)
    requires Int64(v) && dst.Length >= 21
    modifies dst
    ensures ok && w == v
  {
    hide Digits, Digits10, Print, Parse;
    LongestPrint(v);
    var n := LLToString(dst, v);
    assert dst[..n] == Print(v);
    PrintThenParse(v);
    ok, w := StringToLL(dst[..n]);
  }

  lemma LongestPrint(v: int)
    requires Int64(v)
    ensures |Print(v)| <= 20
  {
    var n := if v < 0 then -v else v;
    Digits10Counts(n);
  }
}
