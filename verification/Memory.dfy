/** Writes, moves and reallocations of a byte buffer. */
module Memory {
  import opened Bytes
  import opened Sequences

  function PutAt(s: bytes, p: nat, x: bytes): (r: bytes)
    requires p + |x| <= |s|
    ensures |r| == |s|
  {
    s[..p] + (x + s[p + |x|..])
  }

  /** memmove: source and destination may overlap. */
  function MemMove(s: bytes, dst: nat, src: nat, n: nat): (r: bytes)
    requires dst + n <= |s| && src + n <= |s|
    ensures |r| == |s|
  {
    PutAt(s, dst, s[src..src + n])
  }

  /** realloc: bytes gained hold anything. */
  method Realloc(s: bytes, n: nat) returns (r: bytes)
    ensures |r| == n
    ensures var k := if n < |s| then n else |s|; r[..k] == s[..k]
  {
    if n <= |s| { return s[..n]; }
    var fresh_ := new byte[n - |s|];
    r := s + fresh_[..];
  }

  lemma PutInside(h: bytes, d: bytes, k: nat, x: bytes)
    requires k + |x| <= |d|
    ensures PutAt(h + d, |h| + k, x) == h + PutAt(d, k, x)
  {
    assert (h + d)[..|h| + k] == h + d[..k];
    assert (h + d)[|h| + k + |x|..] == d[k + |x|..];
    Associative(h, d[..k], x + d[k + |x|..]);
  }

  lemma MoveInside(h: bytes, d: bytes, dst: nat, src: nat, n: nat)
    requires dst + n <= |d| && src + n <= |d|
    ensures MemMove(h + d, |h| + dst, |h| + src, n) == h + MemMove(d, dst, src, n)
  {
    assert (h + d)[|h| + src..|h| + src + n] == d[src..src + n];
    PutInside(h, d, dst, d[src..src + n]);
  }

  lemma PutOver(a: bytes, old_: bytes, b: bytes, x: bytes)
    requires |old_| == |x|
    ensures PutAt(a + (old_ + b), |a|, x) == a + (x + b)
  {
    var s := a + (old_ + b);
    assert s[..|a|] == a && s[|a| + |x|..] == b;
  }
}
