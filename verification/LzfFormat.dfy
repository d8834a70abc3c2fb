/** The compressed stream of the LZF codec (src/redis/lzf_c.c:89-96), given
    meaning one control token at a time.  Both directions of the codec are
    proved against `Decode`. */
module LzfFormat {
  import opened Bytes

  datatype Outcome = Done(data: bytes) | TooBig | Invalid

  datatype Token = Emit(used: nat, data: bytes) | Reject(why: Outcome)

  /** Copies n bytes starting at ref to the end, one at a time, so a copy may
      read bytes it has just produced. */
  function CopyBack(acc: bytes, ref: nat, n: nat): (r: bytes)
    requires ref < |acc|
    ensures |r| == |acc| + n && acc <= r
    decreases n
  {
    if n == 0 then acc else CopyBack(acc + [acc[ref]], ref + 1, n - 1)
  }

  /** What the first control byte of c does to the output produced so far. */
  function FirstToken(c: bytes, acc: bytes, cap: nat): (t: Token)
    requires c != []
    ensures t.Emit? ==> 0 < t.used <= |c| && |acc| < |t.data| <= cap && acc <= t.data
    ensures t.Reject? ==> !t.why.Done?
  {
    var ctrl := c[0];
    if ctrl < 32 then
      if |acc| + ctrl + 1 > cap then Reject(TooBig)
      else if 1 + ctrl + 1 > |c| then Reject(Invalid)
      else Emit(ctrl + 2, acc + c[1..ctrl + 2])
    else
      var long := ctrl / 32 == 7;
      if |c| <= 1 || (long && |c| <= 2) then Reject(Invalid)
      else
        var len := if long then 7 + c[1] else ctrl / 32;
        var used := if long then 3 else 2;
        var back := (ctrl % 32) * 256 + 1 + c[used - 1];
        if |acc| + len + 2 > cap then Reject(TooBig)
        else if back > |acc| then Reject(Invalid)
        else Emit(used, CopyBack(acc, |acc| - back, len + 2))
  }

  function Decode(c: bytes, acc: bytes, cap: nat): (r: Outcome)
    decreases |c|
  {
    if c == [] then Done(acc) else
      match FirstToken(c, acc, cap)
      case Emit(used, data) => Decode(c[used..], data, cap)
      case Reject(why) => why
  }

  /** Every byte past the start of a back copy repeats the byte one distance
      before it: the meaning of an overlapping reference. */
  lemma {:induction false} CopyBackRepeats(acc: bytes, ref: nat, n: nat)
    requires ref < |acc|
    ensures forall k :: |acc| <= k < |acc| + n ==>
                          CopyBack(acc, ref, n)[k] == CopyBack(acc, ref, n)[k - (|acc| - ref)]
    decreases n
  {
    if n != 0 {
      var acc' := acc + [acc[ref]];
      CopyBackRepeats(acc', ref + 1, n - 1);
      var r := CopyBack(acc', ref + 1, n - 1);
      assert r[..|acc'|] == acc';
      assert r[|acc|] == acc'[|acc|] && r[ref] == acc'[ref];
    }
  }

  /** A stretch of the input that repeats itself is rebuilt by a back copy. */
  lemma {:induction false} CopyBackRebuilds(input: bytes, p: nat, dist: nat, n: nat)
    requires 0 < dist <= p && p + n <= |input|
    requires input[p - dist..p - dist + n] == input[p..p + n]
    ensures CopyBack(input[..p], p - dist, n) == input[..p + n]
    decreases n
  {
    if n != 0 {
      var from, to := input[p - dist..p - dist + n], input[p..p + n];
      assert from[0] == to[0];
      assert input[..p] + [input[p - dist]] == input[..p + 1];
      assert from[1..] == input[p + 1 - dist..p + 1 - dist + (n - 1)] && to[1..] == input[p + 1..p + 1 + (n - 1)];
      CopyBackRebuilds(input, p + 1, dist, n - 1);
    }
  }

  lemma FirstTokenOfLonger(c: bytes, d: bytes, acc: bytes, cap: nat)
    requires c != [] && FirstToken(c, acc, cap).Emit?
    ensures FirstToken(c + d, acc, cap) == FirstToken(c, acc, cap)
  {
    var t := FirstToken(c, acc, cap);
    assert (c + d)[..t.used] == c[..t.used];
    if c[0] < 32 {
      assert (c + d)[1..c[0] + 2] == c[1..c[0] + 2];
    }
  }

  /** Decoding proceeds from left to right: a stream that decodes can be
      extended, and the extension starts from what was decoded. */
  lemma {:induction false} DecodeAppend(c: bytes, d: bytes, acc: bytes, cap: nat)
    requires Decode(c, acc, cap).Done?
    ensures Decode(c + d, acc, cap) == Decode(d, Decode(c, acc, cap).data, cap)
    decreases |c|
  {
    if c == [] {
      assert c + d == d;
    } else {
      var t := FirstToken(c, acc, cap);
      FirstTokenOfLonger(c, d, acc, cap);
      assert (c + d)[t.used..] == c[t.used..] + d;
      DecodeAppend(c[t.used..], d, t.data, cap);
    }
  }

  /** Decoded output never exceeds the capacity and is never empty, so a zero
      length can stand for failure. */
  lemma {:induction false} DecodeBounds(c: bytes, acc: bytes, cap: nat)
    requires Decode(c, acc, cap).Done? && |acc| <= cap
    ensures |acc| <= |Decode(c, acc, cap).data| <= cap
    ensures c != [] ==> |acc| < |Decode(c, acc, cap).data|
    decreases |c|
  {
    if c != [] {
      var t := FirstToken(c, acc, cap);
      DecodeBounds(c[t.used..], t.data, cap);
    }
  }

  /** A finished run of literals appends those literals. */
  lemma DecodeRun(c: bytes, run: bytes, acc: bytes, cap: nat)
    requires 0 < |run| <= 32 && |acc| + |run| <= cap
    requires Decode(c, [], cap) == Done(acc)
    ensures Decode(c + ([|run| - 1] + run), [], cap) == Done(acc + run)
  {
    hide Decode;
    DecodeAppend(c, [|run| - 1] + run, [], cap);
    RunToken(run, acc, cap);
  }

  lemma RunToken(run: bytes, acc: bytes, cap: nat)
    requires 0 < |run| <= 32 && |acc| + |run| <= cap
    ensures Decode([|run| - 1] + run, acc, cap) == Done(acc + run)
  {
    var d := [|run| - 1] + run;
    assert d[1..|run| + 1] == run;
    assert FirstToken(d, acc, cap) == Emit(|run| + 1, acc + run);
    assert d[|run| + 1..] == [];
  }

  /** The two or three bytes written for a match of len + 2 octets at distance
      off + 1. */
  function MatchBytes(off: nat, len: nat): (r: bytes)
    requires off < 8192 && 1 <= len <= 262
  {
    if len < 7 then [off / 256 + len * 32, off % 256]
    else [off / 256 + 7 * 32, len - 7, off % 256]
  }

  lemma MatchToken(acc: bytes, cap: nat, off: nat, len: nat)
    requires off < 8192 && 1 <= len <= 262
    requires off < |acc| && |acc| + len + 2 <= cap
    ensures Decode(MatchBytes(off, len), acc, cap) == Done(CopyBack(acc, |acc| - (off + 1), len + 2))
  {
    hide FirstToken, CopyBack, MatchBytes;
    var d := MatchBytes(off, len);
    MatchFirst(acc, cap, off, len);
    assert d[|d|..] == [];
  }

  lemma MatchFirst(acc: bytes, cap: nat, off: nat, len: nat)
    requires off < 8192 && 1 <= len <= 262
    requires off < |acc| && |acc| + len + 2 <= cap
    ensures var d := MatchBytes(off, len);
            d != [] && FirstToken(d, acc, cap) == Emit(|d|, CopyBack(acc, |acc| - (off + 1), len + 2))
  {
    hide CopyBack;
    var (hi, lo) := (off / 256, off % 256);
    if len < 7 {
      CodeByte(hi, len);
      assert MatchBytes(off, len) == [hi + len * 32, lo];
    } else {
      CodeByte(hi, 7);
      assert MatchBytes(off, len) == [hi + 7 * 32, len - 7, lo];
    }
  }

  lemma CodeByte(hi: nat, code: nat)
    requires hi < 32
    ensures (hi + code * 32) / 32 == code && (hi + code * 32) % 32 == hi
  {}

  /** A match of the input with an earlier part of itself, once it decodes to a
      back copy, appends exactly the matched octets. */
  lemma DecodeMatch(c: bytes, d: bytes, input: bytes, p: nat, dist: nat, n: nat)
    requires 0 < dist <= p && p + n <= |input|
    requires input[p - dist..p - dist + n] == input[p..p + n]
    requires Decode(c, [], |input|) == Done(input[..p])
    requires Decode(d, input[..p], |input|) == Done(CopyBack(input[..p], p - dist, n))
    ensures Decode(c + d, [], |input|) == Done(input[..p + n])
  {
    DecodeAppend(c, d, [], |input|);
    CopyBackRebuilds(input, p, dist, n);
  }
}
