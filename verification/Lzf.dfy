/** lzf_compress and lzf_decompress over real buffers. */
module Lzf {
  import opened Bytes
  import opened LzfFormat
  import opened LzfTokens

  datatype Errno = None | E2BIG | EINVAL

  const MAX_LIT := 32
  const MAX_OFF := 8192
  const MAX_REF := 264
  const HSIZE := 65536

  // ---------------------------------------------------------------- decompression

  method CopyLiterals(input: bytes, ip: nat, out: array<byte>, op: nat, n: nat)
    requires ip + n <= |input| && op + n <= out.Length
    modifies out
    ensures out[..op + n] == old(out[..op]) + input[ip..ip + n]
    ensures out[op + n..] == old(out[op + n..])
  {
    for k := 0 to n
      invariant out[..op + k] == old(out[..op]) + input[ip..ip + k]
      invariant out[op + n..] == old(out[op + n..])
    {
      out[op + k] := input[ip + k];
      assert out[..op + k + 1] == out[..op + k] + [input[ip + k]];
      assert input[ip..ip + k + 1] == input[ip..ip + k] + [input[ip + k]];
    }
  }

  /** Short references and overlapping ones go octet by octet; long disjoint
      ones are moved as a block. */
  method CopyReference(out: array<byte>, op: nat, ref: nat, len: nat)
    requires ref < op && op + len + 2 <= out.Length
    modifies out
    ensures out[..op + len + 2] == CopyBack(old(out[..op]), ref, len + 2)
    ensures out[op + len + 2..] == old(out[op + len + 2..])
  {
    hide CopyBack;
    ghost var target := CopyBack(out[..op], ref, len + 2);
    CopyBackRepeats(out[..op], ref, len + 2);
    if len > 9 && op >= ref + len + 2 {
      forall k | 0 <= k < len + 2 {
        out[op + k] := out[ref + k];
      }
      forall k | 0 <= k < op + len + 2
        ensures out[k] == target[k]
      {
        if k >= op {
          assert out[op + (k - op)] == old(out[ref + (k - op)]);
        }
      }
    } else {
      for k := 0 to len + 2
        invariant out[..op + k] == target[..op + k]
        invariant out[op + len + 2..] == old(out[op + len + 2..])
      {
        assert out[..op + k][ref + k] == target[..op + k][ref + k];
        out[op + k] := out[ref + k];
        assert out[..op + k + 1] == out[..op + k] + [target[op + k]];
      }
    }
  }

  ghost predicate Reports(r: Outcome, n: nat, why: Errno, out: seq<byte>)
  {
    match r
    case Done(data) => why == None && n == |data| <= |out| && out[..n] == data
    case TooBig => why == E2BIG && n == 0
    case Invalid => why == EINVAL && n == 0
  }

  /** One turn of the loop does what the next control token says: the bytes it reads
      are those of a mark, and the output is extended by it. */
  method Turn(input: bytes, ip: nat, out: array<byte>, op: nat) returns (ip': nat, op': nat, why: Errno)
    requires ip < |input| && op <= out.Length
    modifies out
    ensures why == None ==> ip < ip' <= |input| && op' <= out.Length && IsMark(input[ip..ip'], old(out[..op]), out[..op'])
    ensures match FirstToken(input[ip..], old(out[..op]), out.Length)
            case Emit(used, data) => why == None && ip' == ip + used && op' == |data| && out[..op'] == data
                                     && out[op'..] == old(out[op'..])
            case Reject(r) => why == (if r == TooBig then E2BIG else EINVAL)
  {
    hide CopyBack, IsMark;
    ghost var c := input[ip..];
    FirstIsMark(c, out[..op], out.Length);
    assert forall k: nat :: k <= |c| ==> c[..k] == input[ip..ip + k];
    var ctrl: int := input[ip];
    assert ctrl == c[0];
    ip', op', why := ip + 1, op, None;
    if ctrl < 32 {
      ctrl := ctrl + 1;
      if op' + ctrl > out.Length { return ip', op', E2BIG; }
      if ip' + ctrl > |input| { return ip', op', EINVAL; }
      assert c[1..ctrl + 1] == input[ip'..ip' + ctrl];
      CopyLiterals(input, ip', out, op', ctrl);
      ip', op' := ip' + ctrl, op' + ctrl;
    } else {
      var len := ctrl / 32;
      var ref := op' - (ctrl % 32) * 256 - 1;
      if ip' >= |input| { return ip', op', EINVAL; }
      assert c[1] == input[ip'];
      if len == 7 {
        len := len + input[ip'];
        ip' := ip' + 1;
        if ip' >= |input| { return ip', op', EINVAL; }
        assert c[2] == input[ip'];
      }
      ref := ref - input[ip'];
      ip' := ip' + 1;
      if op' + len + 2 > out.Length { return ip', op', E2BIG; }
      if ref < 0 { return ip', op', EINVAL; }
      CopyReference(out, op', ref, len);
      op' := op' + len + 2;
    }
  }

  /** On any input of at least one byte: reads only the input, writes only the
      output buffer, ends, and reports exactly what the stream means. */
  method Decompress(input: bytes, out: array<byte>) returns (n: nat, why: Errno)
    requires |input| >= 1
    modifies out
    ensures Reports(Decode(input, [], out.Length), n, why, out[..])
    ensures why == None ==> n > 0 && out[n..] == old(out[n..]) && Means(input, [], out[..n])
    ensures why != None ==> forall data :: |data| <= out.Length ==> !Means(input, [], data)
  {
    hide FirstToken, Means;
    var ip, op := 0, 0;
    ghost var cap := out.Length;
    assert input[0..] == input && out[..0] == [];
    while ip < |input|
      invariant 0 <= ip <= |input| && 0 <= op <= cap
      invariant Decode(input, [], cap) == Decode(input[ip..], out[..op], cap)
      invariant ip > 0 ==> op > 0
      invariant out[op..] == old(out[op..])
      decreases |input| - ip
    {
      ghost var ip0 := ip;
      ip, op, why := Turn(input, ip, out, op);
      if why != None {
        forall data ensures |data| <= cap ==> !Means(input, [], data) { DecodeMeans(input, [], cap, data); }
        return 0, why;
      }
      assert input[ip0..][ip - ip0..] == input[ip..];
    }
    assert input[ip..] == [];
    DecodeMeans(input, [], cap, out[..op]);
    return op, None;
  }

  // ------------------------------------------------------------------ compression

  function First(a: byte, b: byte): nat { a * 256 + b }

  function Next(h: nat, b: byte): nat { (h * 256 + b) % U32 }

  function Slot(h: nat): (r: nat)
    ensures r < HSIZE
  {
    (h / 256 - h * 5) % HSIZE
  }

  /** The n octets at ref and at ip agree. */
  ghost predicate Same(input: bytes, ref: nat, ip: nat, n: nat)
    requires ref <= ip && ip + n <= |input|
  {
    input[ref..ref + n] == input[ip..ip + n]
  }

  lemma LongerMatch(input: bytes, ref: nat, ip: nat, n: nat)
    requires ref < ip && ip + n < |input|
    requires Same(input, ref, ip, n) && input[ref + n] == input[ip + n]
    ensures Same(input, ref, ip, n + 1)
  {
    assert input[ref..ref + n + 1] == input[ref..ref + n] + [input[ref + n]];
    assert input[ip..ip + n + 1] == input[ip..ip + n] + [input[ip + n]];
  }

  /** The longest match that fits a reference and leaves two octets of input. */
  ghost predicate Longest(input: bytes, ref: nat, ip: nat, n: nat)
    requires ref < ip
  {
    && 3 <= n <= 264 && ip + n <= |input| && Same(input, ref, ip, n)
    && (n < 264 && ip + n + 2 < |input| ==> input[ref + n] != input[ip + n])
  }

  /** How many octets at ip repeat those at ref, given that three do: the longest
      match that leaves two octets of input and fits a reference. */
  method MatchLength(input: bytes, ref: nat, ip: nat) returns (len: nat)
    requires ref < ip && ip + 2 < |input|
    requires Same(input, ref, ip, 3)
    ensures 3 <= len && ip + len <= |input| && Same(input, ref, ip, len) && Longest(input, ref, ip, len)
  {
    hide Same;
    len := 2;
    var maxlen := |input| - ip - len;
    maxlen := if maxlen > MAX_REF then MAX_REF else maxlen;
    var differ := false;
    if maxlen > 16 {
      while len < 18 && !differ
        invariant 2 <= len <= 18
        invariant if differ then len >= 3 && Same(input, ref, ip, len) && input[ref + len] != input[ip + len]
                  else Same(input, ref, ip, len + 1)
        decreases 18 - len, !differ
      {
        len := len + 1;
        differ := input[ref + len] != input[ip + len];
        if !differ { LongerMatch(input, ref, ip, len); }
      }
    }
    if !differ {
      len := len + 1;
      while len < maxlen && input[ref + len] == input[ip + len]
        invariant 3 <= len && (len <= maxlen || len <= 19)
        invariant ip + len <= |input|
        invariant Same(input, ref, ip, len)
      {
        LongerMatch(input, ref, ip, len);
        len := len + 1;
      }
    }
  }

  /** The part of the output before the open run decodes to the input before it,
      and the open run holds the lit input bytes just read.  The byte in front
      of the run is its header, still to be written; when the run is empty the
      header may lie one past the buffer. */
  ghost predicate Progress(input: bytes, ip: nat, out: bytes, op: nat, lit: nat)
  {
    && lit < MAX_LIT && lit <= ip <= |input|
    && lit + 1 <= op <= |out| + (if lit == 0 then 1 else 0)
    && Decode(out[..op - lit - 1], [], |input|) == Done(input[..ip - lit])
    && (lit > 0 ==> out[op - lit..op] == input[ip - lit..ip])
  }

  lemma ProgressBounds(input: bytes, ip: nat, out: bytes, op: nat, lit: nat)
    requires Progress(input, ip, out, op, lit)
    ensures lit < MAX_LIT && lit <= ip <= |input| && lit + 1 <= op <= |out| + 1
  {}

  lemma NoProgressYet(input: bytes, out: bytes)
    requires |out| > 0
    ensures Progress(input, 0, out, 1, 0)
  {}

  lemma CloseRun(input: bytes, ip: nat, before: bytes, lit: nat)
    requires 0 < lit <= MAX_LIT && lit <= ip <= |input|
    requires Decode(before, [], |input|) == Done(input[..ip - lit])
    ensures Decode(before + ([lit - 1] + input[ip - lit..ip]), [], |input|) == Done(input[..ip])
  {
    hide Decode;
    DecodeRun(before, input[ip - lit..ip], input[..ip - lit], |input|);
    assert input[..ip - lit] + input[ip - lit..ip] == input[..ip];
  }

  lemma SealedBytes(out: bytes, start: nat, lit: nat, h: byte)
    requires start + 1 + lit <= |out|
    ensures out[start := h][..start + 1 + lit] == out[..start] + ([h] + out[start + 1..start + 1 + lit])
  {}

  /** Writing the header of the run that starts at `start` makes it decode. */
  lemma SealRun(input: bytes, ip: nat, out: bytes, start: nat, lit: nat)
    requires 0 < lit <= MAX_LIT && lit <= ip <= |input| && start + 1 + lit <= |out|
    requires Decode(out[..start], [], |input|) == Done(input[..ip - lit])
    requires out[start + 1..start + 1 + lit] == input[ip - lit..ip]
    ensures Decode(out[start := lit - 1][..start + 1 + lit], [], |input|) == Done(input[..ip])
  {
    CloseRun(input, ip, out[..start], lit);
    SealedBytes(out, start, lit, lit - 1);
  }

  lemma LongerRun(input: bytes, ip: nat, out: bytes, op: nat, lit: nat)
    requires Progress(input, ip, out, op, lit)
    requires ip < |input| && op < |out|
    ensures var out' := out[op := input[ip]];
            && out'[..op - lit - 1] == out[..op - lit - 1]
            && out'[op - lit..op + 1] == input[ip - lit..ip + 1]
  {
    var out' := out[op := input[ip]];
    assert out'[op - lit..op + 1] == out[op - lit..op] + [input[ip]];
    assert input[ip - lit..ip + 1] == input[ip - lit..ip] + [input[ip]];
  }

  /** One more literal byte; a full run is closed and the next one opened. */
  method PutLiteral(input: bytes, ip: nat, out: array<byte>, op: nat, lit: nat) returns (op': nat, lit': nat)
    requires Progress(input, ip, out[..], op, lit)
    requires ip < |input| && op < out.Length
    modifies out
    ensures Progress(input, ip + 1, out[..], op', lit')
    ensures if lit + 1 < MAX_LIT then op' == op + 1 && lit' == lit + 1 else op' == op + 2 && lit' == 0
  {
    hide Decode;
    LongerRun(input, ip, out[..], op, lit);
    lit', op' := lit + 1, op + 1;
    out[op] := input[ip];
    assert out[..] == old(out[..])[op := input[ip]];
    if lit' == MAX_LIT {
      SealRun(input, ip + 1, out[..], op' - lit' - 1, lit');
      ghost var full: bytes := out[..];
      out[op' - lit' - 1] := lit' - 1;
      assert out[..] == full[op' - lit' - 1 := 31];
      lit', op' := 0, op' + 1;
    }
  }

  lemma EmptyRun(input: bytes, ip: nat, out: bytes, op: nat)
    requires Progress(input, ip, out, op, 0) && op - 1 < |out|
    ensures Decode(out[op - 1 := 255][..op - 1], [], |input|) == Done(input[..ip])
  {
    assert out[op - 1 := 255][..op - 1] == out[..op - 1];
  }

  /** Closes the open run, or takes an empty one back. */
  method StopRun(input: bytes, ip: nat, out: array<byte>, op: nat, lit: nat) returns (op': nat)
    requires Progress(input, ip, out[..], op, lit)
    requires op - lit - 1 < out.Length
    modifies out
    ensures op' == (if lit == 0 then op - 1 else op) <= out.Length
    ensures Decode(out[..op'], [], |input|) == Done(input[..ip])
  {
    hide Decode, Progress;
    ProgressBounds(input, ip, out[..], op, lit);
    var header: byte := if lit == 0 then 255 else lit - 1;  // lit - 1 in an unsigned char
    StoppedRun(input, ip, out[..], op, lit, header);
    ghost var was := out[..];
    out[op - lit - 1] := header;
    op' := if lit == 0 then op - 1 else op;
    assert out[..] == was[op - lit - 1 := header];
    assert out[..op'] == out[..][..op'];
  }

  lemma StoppedRun(input: bytes, ip: nat, out: bytes, op: nat, lit: nat, header: byte)
    requires Progress(input, ip, out, op, lit) && op - lit - 1 < |out|
    requires header == if lit == 0 then 255 else lit - 1
    ensures var end := if lit == 0 then op - 1 else op;
            lit < op && end <= |out| && Decode(out[op - lit - 1 := header][..end], [], |input|) == Done(input[..ip])
  {
    hide Decode;
    if lit == 0 {
      EmptyRun(input, ip, out, op);
    } else {
      SealRun(input, ip, out, op - lit - 1, lit);
    }
  }

  /** The bytes of a match, then room for the next run's header. */
  method PutMatch(out: array<byte>, op: nat, off: nat, len: nat) returns (op': nat)
    requires off < MAX_OFF && 1 <= len <= 262 && op + 3 <= out.Length
    modifies out
    ensures op' == op + |MatchBytes(off, len)| + 1
    ensures out[..op' - 1] == old(out[..op]) + MatchBytes(off, len)
    ensures out[op..op' - 1] == if len <= 6 then [32 * len + off / 256, off % 256]
                                else [224 + off / 256, len - 7, off % 256]
  {
    op' := op;
    if len < 7 {
      out[op'] := off / 256 + len * 32;
      op' := op' + 1;
    } else {
      out[op'] := off / 256 + 7 * 32;
      op' := op' + 1;
      out[op'] := len - 7;
      op' := op' + 1;
    }
    out[op'] := off % 256;
    op' := op' + 2;
  }

  lemma MatchAppended(c: bytes, input: bytes, ip: nat, off: nat, len: nat)
    requires off < MAX_OFF && off < ip && 3 <= len <= MAX_REF && ip + len <= |input|
    requires Same(input, ip - (off + 1), ip, len)
    requires Decode(c, [], |input|) == Done(input[..ip])
    ensures Decode(c + MatchBytes(off, len - 2), [], |input|) == Done(input[..ip + len])
  {
    hide Decode;
    MatchToken(input[..ip], |input|, off, len - 2);
    DecodeMatch(c, MatchBytes(off, len - 2), input, ip, off + 1, len);
  }

  /** The match branch: close the run, write the reference, open a new run. */
  method Match(input: bytes, ip: nat, ref: nat, out: array<byte>, op: nat, lit: nat) returns (op': nat, len: nat)
    requires Progress(input, ip, out[..], op, lit)
    requires ref < ip && ip - ref - 1 < MAX_OFF && ip + 2 < |input|
    requires Same(input, ref, ip, 3)
    requires op - (if lit == 0 then 1 else 0) + 4 < out.Length
    modifies out
    ensures 3 <= len && ip + len <= |input|
    ensures op < op' <= op + len && op' <= out.Length
    ensures Progress(input, ip + len, out[..], op', 0)
    ensures Longest(input, ref, ip, len)
  {
    hide Decode, Same;
    var off := ip - ref - 1;
    var o := StopRun(input, ip, out, op, lit);
    len := MatchLength(input, ref, ip);
    ghost var c := out[..o];
    op' := PutMatch(out, o, off, len - 2);
    MatchAppended(c, input, ip, off, len);
    assert out[..][..op' - 1] == out[..op' - 1];
  }

  /** The reference test: a real, near enough, earlier position whose three
      octets agree. */
  predicate Matches(input: bytes, ref: nat, ip: nat)
    requires ip + 2 < |input|
    ensures Matches(input, ref, ip) ==> ref < ip && Same(input, ref, ip, 3)
  {
    && 0 <= ip - ref - 1 < MAX_OFF
    && ref > 0
    && input[ref + 2] == input[ip + 2]
    && input[ref] == input[ip] && input[ref + 1] == input[ip + 1]
  }

  lemma MatchesMeans(input: bytes, ref: nat, ip: nat)
    requires ip + 2 < |input|
    ensures Matches(input, ref, ip) <==> 0 < ref < ip && ip - ref <= 8192 && input[ref..ref + 3] == input[ip..ip + 3]
  {
    if 0 < ref < ip {
      var (a, b) := (input[ref..ref + 3], input[ip..ip + 3]);
      assert forall i :: 0 <= i < 3 ==> a[i] == input[ref + i] && b[i] == input[ip + i];
    }
  }

  /** Enters the two positions just before ip into the hash table. */
  method Rehash(input: bytes, ip: nat, htab: array<nat>) returns (hval: nat)
    requires htab.Length == HSIZE && 2 <= ip && ip + 1 < |input|
    modifies htab
    ensures hval == Next(Next(First(input[ip - 2], input[ip - 1]), input[ip]), input[ip + 1])
  {
    hval := Next(First(input[ip - 2], input[ip - 1]), input[ip]);
    htab[Slot(hval)] := ip - 2;
    hval := Next(hval, input[ip + 1]);
    htab[Slot(hval)] := ip - 1;
  }

  /** The last bytes go out as literals; three bytes of room are enough, even
      when a full run opens a new one on the way. */
  method LastLiterals(input: bytes, ip: nat, out: array<byte>, op: nat, lit: nat) returns (o: nat, l: nat)
    requires Progress(input, ip, out[..], op, lit)
    requires ip <= |input| <= ip + 2 && op + 3 <= out.Length
    modifies out
    ensures Progress(input, |input|, out[..], o, l)
    ensures op + (|input| - ip) <= o <= out.Length
  {
    hide Progress;
    ProgressBounds(input, ip, out[..], op, lit);
    var i: nat := ip;
    o, l := op, lit;
    while i < |input|
      invariant ip <= i <= |input| && Progress(input, i, out[..], o, l)
      invariant l < MAX_LIT
      invariant o == op + (i - ip) || (o == op + (i - ip) + 1 && l <= i - ip)
      decreases |input| - i
    {
      o, l := PutLiteral(input, i, out, o, l);
      i := i + 1;
    }
  }

  /** One turn of the main loop: the longest reference if the hash table offers one, a
      literal otherwise.  The output grows by at most one byte per input byte,
      and one more per full run. */
  method Advance(input: bytes, ip: nat, out: array<byte>, op: nat, lit: nat, htab: array<nat>, hval: nat)
      returns (fits: bool, ip': nat, op': nat, lit': nat, hval': nat)
    requires htab.Length == HSIZE && ip + 2 < |input|
    requires Progress(input, ip, out[..], op, lit)
    modifies out, htab
    ensures fits ==> var ref := old(htab[Slot(Next(hval, input[ip + 2]))]);
                     if 0 < ref < ip && ip - ref <= 8192 && input[ref..ref + 3] == input[ip..ip + 3] then lit' == 0 && ip < ip' && Longest(input, ref, ip, ip' - ip)
                     else ip' == ip + 1
    ensures fits ==> ip < ip' <= |input| && op < op' && Progress(input, ip', out[..], op', lit')
    ensures fits ==> if lit' == 0 && lit == 31 then op' - op <= ip' - ip + 1 else op' - op <= ip' - ip
    ensures fits ==> lit' == 0 || (lit' == lit + 1 && ip' == ip + 1)
    ensures !fits ==> out.Length <= op + 4
  {
    hide Progress, Next, Slot, Matches;
    ProgressBounds(input, ip, out[..], op, lit);
    hval' := Next(hval, input[ip + 2]);
    var ref := htab[Slot(hval')];
    MatchesMeans(input, ref, ip);
    htab[Slot(hval')] := ip;
    if Matches(input, ref, ip) {
      if op + 3 + 1 >= out.Length {
        if op - (if lit == 0 then 1 else 0) + 3 + 1 >= out.Length { return false, ip, op, lit, hval'; }
      }
      var len;
      op', len := Match(input, ip, ref, out, op, lit);
      ip', lit' := ip + len, 0;
      if ip' + 2 < |input| {
        hval' := Rehash(input, ip', htab);
      }
    } else {
      if op >= out.Length { return false, ip, op, lit, hval'; }
      op', lit' := PutLiteral(input, ip, out, op, lit);
      ip' := ip + 1;
    }
    fits := true;
  }

  /** Compresses input into out; zero means it did not fit.  The hash table
      starts with arbitrary contents, and `beyond` is whatever byte lies past
      a one-byte input, which the first hash reads. */
  method Compress(input: bytes, beyond: byte, out: array<byte>, htab: array<nat>) returns (n: nat)
    requires htab.Length == HSIZE
    modifies out, htab
    ensures n <= out.Length
    ensures n > 0 ==> Decode(out[..n], [], |input|) == Done(input) && Means(out[..n], [], input)
    ensures n == 0 ==> input == [] || out.Length <= |input| + |input| / 32 + 3
  {
    hide Progress, First, Decode, Means;
    if |input| == 0 || out.Length == 0 { return 0; }
    var ip: nat, op: nat, lit: nat := 0, 1, 0;
    NoProgressYet(input, out[..]);
    var hval := First(input[0], if |input| > 1 then input[1] else beyond);
    while ip + 2 < |input|
      invariant Progress(input, ip, out[..], op, lit)
      invariant ip <= |input| && lit <= 31 && op >= 1
      invariant 32 * (op - 1 - ip) <= ip - lit && (ip > 0 ==> op >= 2)
      decreases |input| - ip
    {
      var fits;
      fits, ip, op, lit, hval := Advance(input, ip, out, op, lit, htab, hval);
      if !fits { return 0; }
      ProgressBounds(input, ip, out[..], op, lit);
    }
    if op + 3 > out.Length { return 0; }
    op, lit := LastLiterals(input, ip, out, op, lit);
    n := StopRun(input, |input|, out, op, lit);
    assert input[..|input|] == input;
    DecodeMeans(out[..n], [], |input|, input);
  }

  /** Whatever was compressed comes back, for every input and every initial
      hash table. */
  method RoundTrip(input: bytes, beyond: byte, packed: array<byte>, htab: array<nat>, unpacked: array<byte>)
      returns (n: nat, m: nat)
    requires htab.Length == HSIZE && packed != unpacked && unpacked.Length == |input|
    modifies packed, htab, unpacked
    ensures n > 0 ==> m == |input| && unpacked[..] == input
  {
    n := Compress(input, beyond, packed, htab);
    m := 0;
    if n > 0 {
      var why;
      m, why := Decompress(packed[..n], unpacked);
    }
  }
}
