/** The LZF stream written out byte by byte: a reference for `Decode` that shares none of
    its arithmetic. The bit fields are those of the drawing in src/redis/lzf_c.c:89-96;
    the counts are the code's, which differ from the drawing's. */
module LzfTokens {
  import opened Bytes
  import opened LzfFormat

  /** A run of literals, or len octets repeated from dist octets back. */
  datatype Mark = Run(data: bytes) | Back(dist: nat, len: nat) {
    predicate Proper() {
      match this
      case Run(data) => 1 <= |data| <= 32
      case Back(dist, len) => 1 <= dist <= 8192 && 3 <= len <= 264
    }

    /** 000LLLLL and L + 1 literals; LLLooooo oooooooo; 111ooooo LLLLLLLL oooooooo. */
    function Written(): bytes
      requires Proper()
    {
      match this
      case Run(data) => [|data| - 1] + data
      case Back(dist, len) =>
        var off := dist - 1;
        if len <= 8 then [32 * (len - 2) + off / 256, off % 256] else [224 + off / 256, len - 9, off % 256]
    }

    /** r is what the mark makes of acc. */
    ghost predicate Extends(acc: bytes, r: bytes) {
      match this
      case Run(data) => r == acc + data
      case Back(dist, len) =>
        && 0 < dist <= |acc| && |r| == |acc| + len && acc <= r
        && forall k :: |acc| <= k < |r| ==> r[k] == r[k - dist]
    }
  }

  ghost predicate AllProper(marks: seq<Mark>) { forall i :: 0 <= i < |marks| ==> marks[i].Proper() }

  ghost function Stream(marks: seq<Mark>): bytes
    requires AllProper(marks)
  {
    if marks == [] then [] else marks[0].Written() + Stream(marks[1..])
  }

  /** r is what the marks make of acc, one after another. */
  ghost predicate Builds(marks: seq<Mark>, acc: bytes, r: bytes)
    decreases |marks|
  {
    if marks == [] then r == acc else exists m :: marks[0].Extends(acc, m) && Builds(marks[1..], m, r)
  }

  /** The stream c stands for the data. */
  ghost predicate Means(c: bytes, acc: bytes, data: bytes) {
    exists marks :: AllProper(marks) && Stream(marks) == c && Builds(marks, acc, data)
  }

  // -------------------------------------------------------------- tokens by bytes

  /** What one mark makes of acc is fixed. */
  lemma {:induction false} ExtendsOne(mark: Mark, acc: bytes, r: bytes, s: bytes)
    requires mark.Extends(acc, r) && mark.Extends(acc, s)
    ensures r == s
  {
    if mark.Back? {
      forall k | 0 <= k < |r| ensures r[k] == s[k] { SameAt(mark, acc, r, s, k); }
    }
  }

  lemma {:induction false} SameAt(mark: Mark, acc: bytes, r: bytes, s: bytes, k: nat)
    requires mark.Back? && mark.Extends(acc, r) && mark.Extends(acc, s) && k < |r|
    ensures r[k] == s[k]
    decreases k
  {
    if k < |acc| {
      assert r[k] == acc[k] == s[k];
    } else {
      SameAt(mark, acc, r, s, k - mark.dist);
    }
  }

  lemma CopyExtends(acc: bytes, dist: nat, len: nat)
    requires 0 < dist <= |acc|
    ensures Back(dist, len).Extends(acc, CopyBack(acc, |acc| - dist, len))
  {
    hide CopyBack;
    CopyBackRepeats(acc, |acc| - dist, len);
    var r := CopyBack(acc, |acc| - dist, len);
    forall k | |acc| <= k < |r| ensures r[k] == r[k - dist] {
      assert r[k] == r[k - (|acc| - (|acc| - dist))];
    }
  }

  lemma RunTaken(data: bytes, rest: bytes, acc: bytes, cap: nat)
    requires 1 <= |data| <= 32 && |acc| + |data| <= cap
    ensures FirstToken(([|data| - 1] + data) + rest, acc, cap) == Emit(|data| + 1, acc + data)
  {
    var c := ([|data| - 1] + data) + rest;
    assert c[1..|data| + 1] == data;
  }

  lemma BackTaken(off: nat, len: nat, rest: bytes, acc: bytes, cap: nat)
    requires off < 8192 && 3 <= len <= 264 && off < |acc| && |acc| + len <= cap
    ensures var w := Back(off + 1, len).Written();
            FirstToken(w + rest, acc, cap) == Emit(|w|, CopyBack(acc, |acc| - off - 1, len))
  {
    hide CopyBack;
    var (hi, lo) := (off / 256, off % 256);
    assert hi * 256 + lo == off && hi < 32;
    if len <= 8 { CodeByte(hi, len - 2); } else { CodeByte(hi, 7); }
  }

  /** The first token of a stream that starts with a mark. */
  lemma MarkTaken(mark: Mark, rest: bytes, acc: bytes, cap: nat, r: bytes)
    requires mark.Proper() && mark.Extends(acc, r) && |r| <= cap
    ensures FirstToken(mark.Written() + rest, acc, cap) == Emit(|mark.Written()|, r)
  {
    hide CopyBack, FirstToken;
    match mark
    case Run(data) => RunTaken(data, rest, acc, cap);
    case Back(dist, len) =>
      CopyExtends(acc, dist, len);
      ExtendsOne(mark, acc, r, CopyBack(acc, |acc| - dist, len));
      BackTaken(dist - 1, len, rest, acc, cap);
  }

  /** Every token the decoder takes is a mark. */
  lemma TakenMark(c: bytes, acc: bytes, cap: nat) returns (mark: Mark)
    requires c != [] && FirstToken(c, acc, cap).Emit?
    ensures var t := FirstToken(c, acc, cap);
            mark.Proper() && mark.Extends(acc, t.data) && |mark.Written()| == t.used && c == mark.Written() + c[t.used..]
  {
    hide CopyBack;
    var ctrl: nat := c[0];
    if ctrl < 32 {
      mark := Run(c[1..ctrl + 2]);
      assert c == ([c[0]] + c[1..ctrl + 2]) + c[ctrl + 2..];
    } else {
      var long := ctrl / 32 == 7;
      var used := if long then 3 else 2;
      var low: nat, more: nat := c[used - 1], c[1];
      var dist: nat := ctrl % 32 * 256 + 1 + low;
      mark := Back(dist, if long then 9 + more else ctrl / 32 + 2);
      assert (dist - 1) / 256 == ctrl % 32 && (dist - 1) % 256 == low;
      assert mark.Written() == c[..used];
      CopyExtends(acc, dist, mark.len);
    }
  }

  /** One mark, written in these bytes, makes r of acc. */
  ghost predicate IsMark(c: bytes, acc: bytes, r: bytes) {
    exists mark: Mark :: mark.Proper() && c == mark.Written() && mark.Extends(acc, r)
  }

  lemma FirstIsMark(c: bytes, acc: bytes, cap: nat)
    requires c != []
    ensures var t := FirstToken(c, acc, cap); t.Emit? ==> IsMark(c[..t.used], acc, t.data)
  {
    hide FirstToken;
    if FirstToken(c, acc, cap).Emit? {
      var mark := TakenMark(c, acc, cap);
      assert c[..|mark.Written()|] == mark.Written();
    }
  }

  // ---------------------------------------------------------------- whole streams

  lemma {:induction false} BuildsGrows(marks: seq<Mark>, acc: bytes, r: bytes)
    requires Builds(marks, acc, r)
    ensures |acc| <= |r|
    decreases |marks|
  {
    if marks != [] {
      var m :| marks[0].Extends(acc, m) && Builds(marks[1..], m, r);
      BuildsGrows(marks[1..], m, r);
    }
  }

  lemma {:induction false} StreamDecodes(marks: seq<Mark>, acc: bytes, r: bytes, cap: nat)
    requires AllProper(marks) && Builds(marks, acc, r) && |r| <= cap
    ensures Decode(Stream(marks), acc, cap) == Done(r)
    decreases |marks|
  {
    hide FirstToken;
    if marks != [] {
      var m :| marks[0].Extends(acc, m) && Builds(marks[1..], m, r);
      BuildsGrows(marks[1..], m, r);
      var rest := Stream(marks[1..]);
      MarkTaken(marks[0], rest, acc, cap, m);
      assert Stream(marks)[|marks[0].Written()|..] == rest;
      StreamDecodes(marks[1..], m, r, cap);
    }
  }

  lemma {:induction false} DecodedStream(c: bytes, acc: bytes, cap: nat) returns (marks: seq<Mark>)
    requires Decode(c, acc, cap).Done?
    ensures AllProper(marks) && Stream(marks) == c && Builds(marks, acc, Decode(c, acc, cap).data)
    decreases |c|
  {
    hide FirstToken;
    marks := [];
    if c != [] {
      var t := FirstToken(c, acc, cap);
      var mark := TakenMark(c, acc, cap);
      var more := DecodedStream(c[t.used..], t.data, cap);
      marks := [mark] + more;
      assert marks[1..] == more;
    }
  }

  /** Decoding yields data exactly if the input is a stream of marks that build it
      within the capacity. */
  lemma DecodeMeans(c: bytes, acc: bytes, cap: nat, data: bytes)
    requires |acc| <= cap
    ensures Decode(c, acc, cap) == Done(data) <==> |data| <= cap && Means(c, acc, data)
  {
    hide Decode;
    if Decode(c, acc, cap) == Done(data) {
      DecodeBounds(c, acc, cap);
      var marks := DecodedStream(c, acc, cap);
    }
    if |data| <= cap && Means(c, acc, data) {
      var marks :| AllProper(marks) && Stream(marks) == c && Builds(marks, acc, data);
      StreamDecodes(marks, acc, data, cap);
    }
  }

  // ------------------------------------------------------ single tokens, and refusals

  lemma BuildsOne(marks: seq<Mark>, acc: bytes, r: bytes)
    requires |marks| == 1 && marks[0].Extends(acc, r)
    ensures Builds(marks, acc, r)
  {
    assert Builds(marks[1..], r, r);
  }

  lemma OneMark(c: bytes, mark: Mark, acc: bytes, cap: nat, r: bytes)
    requires Decode(c, [], cap) == Done(acc) && mark.Proper() && mark.Extends(acc, r) && |r| <= cap
    ensures Decode(c + mark.Written(), [], cap) == Done(r)
  {
    hide Decode, FirstToken;
    DecodeAppend(c, mark.Written(), [], cap);
    assert mark.Written() + [] == mark.Written();
    assert AllProper([mark]) && Stream([mark]) == mark.Written();
    BuildsOne([mark], acc, r);
    StreamDecodes([mark], acc, r, cap);
  }

  /** Three bytes that repeat n + 9 octets from off + 1 back. */
  lemma LongReference(c: bytes, acc: bytes, cap: nat, off: nat, n: byte)
    requires Decode(c, [], cap) == Done(acc) && off < 8192 && off < |acc| && |acc| + n + 9 <= cap
    ensures var d := Decode(c + [off / 256 + 224, n, off % 256], [], cap);
            && d.Done? && acc <= d.data && |d.data| == |acc| + n + 9
            && forall k :: |acc| <= k < |acc| + n + 9 ==> d.data[k] == d.data[k - off - 1]
  {
    hide Decode, CopyBack;
    CopyExtends(acc, off + 1, n + 9);
    OneMark(c, Back(off + 1, n + 9), acc, cap, CopyBack(acc, |acc| - off - 1, n + 9));
  }

  /** Two bytes that repeat k + 2 octets from off + 1 back. */
  lemma ShortReference(c: bytes, acc: bytes, cap: nat, off: nat, k: nat)
    requires Decode(c, [], cap) == Done(acc) && off < 8192 && off < |acc| && 1 <= k <= 6 && |acc| + k + 2 <= cap
    ensures var d := Decode(c + [off / 256 + 32 * k, off % 256], [], cap);
            && d.Done? && acc <= d.data && |d.data| == |acc| + k + 2
            && forall i :: |acc| <= i < |acc| + k + 2 ==> d.data[i] == d.data[i - off - 1]
  {
    hide Decode, CopyBack;
    CopyExtends(acc, off + 1, k + 2);
    OneMark(c, Back(off + 1, k + 2), acc, cap, CopyBack(acc, |acc| - off - 1, k + 2));
  }

  /** A count less one, then so many literals. */
  lemma LiteralRun(c: bytes, acc: bytes, cap: nat, run: bytes)
    requires Decode(c, [], cap) == Done(acc) && 1 <= |run| <= 32 && |acc| + |run| <= cap
    ensures Decode(c + ([|run| - 1] + run), [], cap) == Done(acc + run)
  {
    hide Decode;
    OneMark(c, Run(run), acc, cap, acc + run);
  }

  /** Which of its two errors the decoder reports for a first token it refuses, in the
      order in which it looks. */
  lemma Refusals(c: bytes, acc: bytes, cap: nat)
    requires c != []
    ensures var b: nat := c[0];
            var d := Decode(c, acc, cap);
            if b < 32 then
              if |acc| + b + 1 > cap then d == TooBig else |c| < b + 2 ==> d == Invalid
            else
              var n: nat := if b >= 224 then 3 else 2;
              if |c| < n then d == Invalid
              else
                var len: nat := if b >= 224 then c[1] + 9 else b / 32 + 2;
                var dist: nat := b % 32 * 256 + c[n - 1] + 1;
                if |acc| + len > cap then d == TooBig else dist > |acc| ==> d == Invalid
  {
    hide CopyBack;
  }
}
