/** t_list.cpp: a list stored as item records numbered by a 64-bit sequence that
    wraps around, between left_seq and right_seq. */
module ListWindow {
  import opened Bytes
  import opened Options
  import opened Errors
  import Sequences

  const UINT64_MAX: nat := U64 - 1
  const INT64_MAX: int := 0x7fff_ffff_ffff_ffff
  const INT64_MIN: int := -0x8000_0000_0000_0000

  predicate Uint64(q: int) { 0 <= q < U64 }

  /** The branches that step a sequence number. */
  function Up(q: nat): nat { if q < UINT64_MAX then q + 1 else 0 }

  function Down(q: nat): nat { if q > 0 then q - 1 else UINT64_MAX }

  /** Unsigned 64-bit arithmetic. */
  function Add64(a: nat, b: nat): nat { (a + b) % U64 }

  function Sub64(a: nat, b: nat): nat { (a - b) % U64 }

  /** How far q lies above left, going round. */
  function Offset(left: nat, q: nat): (r: int)
    requires Uint64(left) && Uint64(q)
    ensures Uint64(r)
  {
    if q >= left then q - left else q + U64 - left
  }

  /** The item records are exactly the elements of s, numbered from left. */
  ghost predicate Window(items: map<int, bytes>, left: nat, s: seq<bytes>) {
    && Uint64(left) && |s| <= UINT64_MAX
    && (forall q :: q in items ==> Uint64(q) && Offset(left, q) < |s| && items[q] == s[Offset(left, q)])
    && (forall q {:trigger Offset(left, q)} :: Uint64(q) && Offset(left, q) < |s| ==> q in items)
  }

  datatype ListMeta = ListMeta(left: nat, right: nat, length: nat)

  /** GetListMetaVal's reset state. */
  const Fresh := ListMeta(0, UINT64_MAX, 0)

  ghost predicate Consistent(lv: ListMeta, items: map<int, bytes>, s: seq<bytes>) {
    && Uint64(lv.left) && Uint64(lv.right) && lv.length == |s| <= INT64_MAX
    && Up(lv.right) == Add64(lv.left, |s|)
    && Window(items, lv.left, s)
  }

  // ----------------------------------------------------------------- arithmetic

  /** getSeqByIndex, with its unsigned arithmetic written out. */
  function SeqByIndex(index: int, lv: ListMeta): nat
    requires INT64_MIN < index <= INT64_MAX && Uint64(lv.left) && Uint64(lv.right)
  {
    if lv.left > lv.right then
      if index >= 0 then
        if UINT64_MAX - lv.left >= index then Add64(lv.left, index)
        else Sub64(Sub64(Add64(index, lv.left), UINT64_MAX), 1)
      else
        var u := -index - 1;
        if lv.right >= u then Sub64(lv.right, u)
        else Add64(Add64(Sub64(UINT64_MAX, u), lv.right), 1)
    else
      if index >= 0 then Add64(lv.left, index) else Sub64(lv.right, -index - 1)
  }

  lemma Wraps(x: int)
    ensures 0 <= x < U64 ==> x % U64 == x
    ensures U64 <= x < 2 * U64 ==> x % U64 == x - U64
    ensures -U64 <= x < 0 ==> x % U64 == x + U64
  {
    if U64 <= x < 2 * U64 {
      assert x == U64 * 1 + (x - U64);
    } else if -U64 <= x < 0 {
      assert x == U64 * (-1) + (x + U64);
    }
  }

  lemma SeqFromLeft(index: int, lv: ListMeta)
    requires 0 <= index <= INT64_MAX && Uint64(lv.left) && Uint64(lv.right)
    ensures var q := SeqByIndex(index, lv); Uint64(q) && Offset(lv.left, q) == index
  {
    Wraps(lv.left + index);
    Wraps(Add64(index, lv.left) - UINT64_MAX);
    Wraps(Sub64(Add64(index, lv.left), UINT64_MAX) - 1);
  }

  lemma SeqFromRight(u: int, lv: ListMeta)
    requires 0 <= u < INT64_MAX && Uint64(lv.left) && Uint64(lv.right)
    ensures var q := SeqByIndex(-u - 1, lv); Uint64(q) && Offset(q, lv.right) == u
  {
    Wraps(lv.right - u);
    Wraps(UINT64_MAX - u);
    Wraps(Sub64(UINT64_MAX, u) + lv.right);
    Wraps(Add64(Sub64(UINT64_MAX, u), lv.right) + 1);
  }

  /** Whatever the branch, index i is i places above left, and index -1 - i is i
      places below right. */
  lemma SeqByIndexMeans(index: int, lv: ListMeta)
    requires INT64_MIN < index <= INT64_MAX && Uint64(lv.left) && Uint64(lv.right)
    ensures var q := SeqByIndex(index, lv);
            Uint64(q) && if index >= 0 then Offset(lv.left, q) == index else Offset(q, lv.right) == -index - 1
  {
    hide SeqByIndex, Offset;
    if index >= 0 { SeqFromLeft(index, lv); } else { SeqFromRight(-index - 1, lv); }
  }

  /** The position a list index names, counting from the end when negative. */
  function Position(index: int, n: nat): int { if index >= 0 then index else n + index }

  lemma RightOffset(left: nat, right: nat, n: nat)
    requires Uint64(left) && Uint64(right) && n <= INT64_MAX && Up(right) == Add64(left, n)
    ensures n > 0 ==> Offset(left, right) == n - 1
    ensures n > 0 ==> Up(Down(right)) == Add64(left, n - 1)
    ensures forall q {:trigger Offset(left, q)} :: Uint64(q) && Offset(left, q) == n - 1 ==> q == right
  {
    Wraps(left + n);
    if n > 0 { Wraps(left + n - 1); }
  }

  lemma IndexOffset(index: int, lv: ListMeta, n: nat)
    requires INT64_MIN < index <= INT64_MAX && Uint64(lv.left) && Uint64(lv.right) && n <= INT64_MAX
    requires Up(lv.right) == Add64(lv.left, n)
    ensures var q, i := SeqByIndex(index, lv), Position(index, n);
            Uint64(q) && Offset(lv.left, q) == if i >= 0 then i else i + U64
  {
    hide SeqByIndex;
    SeqByIndexMeans(index, lv);
    Wraps(lv.left + n);
  }

  /** An index reaches its own element; one out of range reaches no record. */
  lemma IndexReaches(index: int, lv: ListMeta, items: map<int, bytes>, s: seq<bytes>)
    requires INT64_MIN < index <= INT64_MAX && Consistent(lv, items, s)
    ensures var q, i := SeqByIndex(index, lv), Position(index, |s|);
            Uint64(q) && if 0 <= i < |s| then Offset(lv.left, q) == i && q in items && items[q] == s[i] else q !in items
  {
    hide SeqByIndex, Offset, Add64;
    IndexOffset(index, lv, |s|);
  }

  // ------------------------------------------------------------- window updates

  lemma OffsetDown(left: nat)
    requires Uint64(left)
    ensures forall q {:trigger Offset(Down(left), q)} {:trigger Offset(left, q)} :: Uint64(q) ==>
              Offset(Down(left), q) == if q == Down(left) then 0 else Offset(left, q) + 1
    ensures Offset(left, Down(left)) == UINT64_MAX
  {}

  lemma OffsetUp(left: nat)
    requires Uint64(left)
    ensures forall q {:trigger Offset(Up(left), q)} {:trigger Offset(left, q)} :: Uint64(q) && q != left ==>
              Offset(left, q) == Offset(Up(left), q) + 1
    ensures Offset(left, left) == 0 && Offset(Up(left), left) == UINT64_MAX
  {}

  lemma PutFirst(items: map<int, bytes>, left: nat, s: seq<bytes>, v: bytes)
    requires Window(items, left, s) && |s| < UINT64_MAX
    ensures Window(items[Down(left) := v], Down(left), [v] + s)
  {
    hide Offset, Down;
    OffsetDown(left);
    DownRange(left);
  }

  lemma DownRange(left: nat)
    requires Uint64(left)
    ensures Uint64(Down(left)) && Uint64(Up(left))
  {}

  lemma OffsetLast(left: nat, n: nat)
    requires Uint64(left) && n < UINT64_MAX
    ensures Uint64(Add64(left, n)) && Offset(left, Add64(left, n)) == n
    ensures forall q {:trigger Offset(left, q)} :: Uint64(q) && Offset(left, q) == n ==> q == Add64(left, n)
  {
    Wraps(left + n);
  }

  lemma PutLast(items: map<int, bytes>, left: nat, s: seq<bytes>, v: bytes)
    requires Window(items, left, s) && |s| < UINT64_MAX
    ensures Window(items[Add64(left, |s|) := v], left, s + [v])
  {
    hide Offset, Add64;
    OffsetLast(left, |s|);
  }

  lemma DropFirst(items: map<int, bytes>, left: nat, s: seq<bytes>)
    requires Window(items, left, s) && s != []
    ensures left in items && items[left] == s[0] && Window(items - {left}, Up(left), s[1..])
  {
    hide Offset, Up;
    OffsetUp(left);
    DownRange(left);
  }

  lemma DropLast(items: map<int, bytes>, left: nat, right: nat, s: seq<bytes>)
    requires Window(items, left, s) && s != [] && |s| <= INT64_MAX && Uint64(right) && Up(right) == Add64(left, |s|)
    ensures right in items && items[right] == s[|s| - 1] && Window(items - {right}, left, s[..|s| - 1])
    ensures Up(Down(right)) == Add64(left, |s| - 1)
  {
    hide Offset, Add64, Up, Down;
    RightOffset(left, right, |s|);
  }

  lemma SetAt(items: map<int, bytes>, left: nat, s: seq<bytes>, q: nat, v: bytes)
    requires Window(items, left, s) && Uint64(q) && Offset(left, q) < |s|
    ensures Window(items[q := v], left, s[Offset(left, q) := v])
  {}

  // ----------------------------------------------------------------- plain lists

  /** LRANGE and LTRIM's bounds: inclusive, negative from the end, clipped. */
  ghost function Range(s: seq<bytes>, start: int, end: int): seq<bytes> {
    var a, b := Position(start, |s|), Position(end, |s|);
    var lo, hi := (if a < 0 then 0 else a), if b >= |s| then |s| - 1 else b;
    if lo > hi then [] else s[lo..hi + 1]
  }

  /** The same as half-open bounds. */
  lemma RangeMeans(s: seq<bytes>, start: int, end: int)
    ensures var n := |s|;
            var lo := if start >= 0 then start else if start < -n then 0 else n + start;
            var hi := if end >= n then n else if end >= 0 then end + 1 else n + end + 1;
            Range(s, start, end) == if lo < hi then s[lo..hi] else []
  {}

  lemma RangeClipped(s: seq<bytes>, start: int, end: int)
    ensures var (a, b) := (Position(start, |s|), Position(end, |s|));
            var from := if a < 0 then 0 else a;
            Range(s, start, end) == if from > b || from >= |s| then [] else s[from..if b >= |s| then |s| else b + 1]
  {}

  // ------------------------------------------------------ what the loops maintain

  /** The records hold s, between left and right. */
  ghost predicate Fitting(items: map<int, bytes>, left: nat, right: nat, s: seq<bytes>) {
    Uint64(right) && Window(items, left, s) && |s| <= INT64_MAX && Up(right) == Add64(left, |s|)
  }

  ghost predicate HeadPushed(batch: map<int, bytes>, lv: ListMeta, q: nat, was: seq<bytes>, vs: seq<bytes>) {
    && |was| + |vs| <= INT64_MAX
    && Fitting(batch, q, lv.right, Sequences.Reversed(vs) + was)
  }

  ghost predicate TailPushed(batch: map<int, bytes>, lv: ListMeta, q: nat, was: seq<bytes>, vs: seq<bytes>) {
    && |was| + |vs| <= INT64_MAX
    && Fitting(batch, lv.left, q, was + vs)
  }

  lemma PushStart(lv: ListMeta, items: map<int, bytes>, s: seq<bytes>)
    requires Consistent(lv, items, s)
    ensures HeadPushed(items, lv, lv.left, s, []) && TailPushed(items, lv, lv.right, s, [])
  {
    hide Window, Add64;
    assert Sequences.Reversed([]) + s == s && s + [] == s;
  }

  lemma HeadStep(batch: map<int, bytes>, lv: ListMeta, q: nat, was: seq<bytes>, vs: seq<bytes>, v: bytes)
    requires HeadPushed(batch, lv, q, was, vs) && |vs| + |was| < INT64_MAX
    ensures HeadPushed(batch[Down(q) := v], lv, Down(q), was, vs + [v])
  {
    hide Sequences.Reversed;
    Sequences.ReversedLast(vs, v);
    Sequences.Associative([v], Sequences.Reversed(vs), was);
    PutFirst(batch, q, Sequences.Reversed(vs) + was, v);
    Wraps(q + |vs| + |was|);
    Wraps(Down(q) + |vs| + 1 + |was|);
  }

  lemma TailStep(batch: map<int, bytes>, lv: ListMeta, q: nat, was: seq<bytes>, vs: seq<bytes>, v: bytes)
    requires TailPushed(batch, lv, q, was, vs) && |vs| + |was| < INT64_MAX
    ensures TailPushed(batch[Up(q) := v], lv, Up(q), was, vs + [v])
  {
    Sequences.Associative(was, vs, [v]);
    PutLast(batch, lv.left, was + vs, v);
    UpAdd(lv.left, |was| + |vs| + 1);
  }

  /** Stepping left up, or right up, keeps their distance. */
  lemma UpAdd(left: nat, n: nat)
    requires Uint64(left) && 0 < n <= INT64_MAX
    ensures Add64(Up(left), n - 1) == Add64(left, n)
    ensures Up(Add64(left, n - 1)) == Add64(left, n)
  {
    Wraps(left + n);
    Wraps(left + n - 1);
    Wraps(Up(left) + n - 1);
  }

  lemma FittingConsistent(items: map<int, bytes>, left: nat, right: nat, s: seq<bytes>)
    requires Fitting(items, left, right, s)
    ensures Consistent(ListMeta(left, right, |s|), items, s)
  {
    hide Add64, Offset;
  }

  lemma ConsistentFitting(lv: ListMeta, items: map<int, bytes>, s: seq<bytes>)
    requires Consistent(lv, items, s)
    ensures Fitting(items, lv.left, lv.right, s)
  {
    hide Add64, Offset;
  }

  /** The first loop of ltrim. */
  method DropLeft(items: map<int, bytes>, left: nat, ltrim: nat, ghost right: nat, ghost s: seq<bytes>)
    returns (batch: map<int, bytes>, left': nat)
    requires Fitting(items, left, right, s) && ltrim <= |s|
    ensures Fitting(batch, left', right, s[ltrim..])
  {
    hide Window, Add64, Offset;
    batch, left' := items, left;
    assert s[0..] == s;
    for i := 0 to ltrim
      invariant Fitting(batch, left', right, s[i..])
    {
      WindowLeft(batch, left', s[i..]);
      DropFirst(batch, left', s[i..]);
      UpAdd(left', |s| - i);
      DownRange(left');
      assert s[i..][1..] == s[i + 1..];
      batch := batch - {left'};
      left' := Up(left');
    }
  }

  lemma WindowLeft(items: map<int, bytes>, left: nat, s: seq<bytes>)
    requires Window(items, left, s)
    ensures Uint64(left) && |s| <= UINT64_MAX
  {}

  /** The second. */
  method DropRight(items: map<int, bytes>, right: nat, rtrim: nat, ghost left: nat, ghost s: seq<bytes>)
    returns (batch: map<int, bytes>, right': nat)
    requires Fitting(items, left, right, s) && rtrim <= |s|
    ensures Fitting(batch, left, right', s[..|s| - rtrim])
  {
    hide Window, Add64, Offset;
    batch, right' := items, right;
    assert s[..|s|] == s;
    for i := 0 to rtrim
      invariant Fitting(batch, left, right', s[..|s| - i])
    {
      DropLast(batch, left, right', s[..|s| - i]);
      DownRange(right');
      assert s[..|s| - i][..|s| - i - 1] == s[..|s| - i - 1];
      batch := batch - {right'};
      right' := Down(right');
    }
  }

  lemma ItemAt(items: map<int, bytes>, left: nat, s: seq<bytes>, q: nat)
    requires Window(items, left, s) && Uint64(q) && Offset(left, q) < |s|
    ensures q in items && items[q] == s[Offset(left, q)]
  {}

  lemma OffsetNext(left: nat, q: nat)
    requires Uint64(left) && Uint64(q) && Offset(left, q) < UINT64_MAX
    ensures Uint64(Up(q)) && Offset(left, Up(q)) == Offset(left, q) + 1
  {}

  lemma SliceNext(s: seq<bytes>, a: int, b: int)
    requires 0 <= a <= b < |s|
    ensures s[a..b] + [s[b]] == s[a..b + 1]
  {}

  /** The loop of lrange. */
  method CopyRange(items: map<int, bytes>, q: nat, n: nat, ghost left: nat, ghost s: seq<bytes>, ghost from: nat)
    returns (ret: int, list: seq<bytes>)
    requires Window(items, left, s) && Uint64(q) && Offset(left, q) == from && from + n <= |s|
    ensures ret == 1 && list == s[from..from + n]
  {
    hide Window, Offset, Up;
    var cur, rangelen := q, n;
    WindowLeft(items, left, s);
    list := [];
    assert s[from..from] == [];
    while rangelen > 0
      invariant 0 <= rangelen && |list| + rangelen == n && list == s[from..from + |list|]
      invariant Uint64(cur) && (rangelen > 0 ==> Offset(left, cur) == from + |list|)
      decreases rangelen
    {
      rangelen := rangelen - 1;
      ItemAt(items, left, s, cur);
      OffsetNext(left, cur);
      DownRange(cur);
      if cur !in items { return -1, []; }
      SliceNext(s, from, from + |list|);
      list := list + [items[cur]];
      cur := Up(cur);
    }
    return 1, list;
  }

  lemma EmptyRange(start: int, end: int)
    ensures Range([], start, end) == []
  {}

  /** Dropping l from the left and r from the right is the range asked for. */
  lemma TrimIsRange(s: seq<bytes>, start: int, end: int, l: int, r: int)
    requires var (a, b) := (Position(start, |s|), Position(end, |s|));
             var from := if a < 0 then 0 else a;
             if from > b || from >= |s| then l == |s| && r == 0
             else l == from && r == |s| - 1 - (if b >= |s| then |s| - 1 else b)
    ensures 0 <= l && 0 <= r && l + r <= |s| && s[l..][..|s| - l - r] == Range(s, start, end)
  {}

  lemma NoItems(items: map<int, bytes>, left: nat)
    requires Window(items, left, [])
    ensures items == map[]
  {
    assert forall q :: q !in items;
  }

  lemma FreshConsistent()
    ensures Consistent(Fresh, map[], [])
  {}

  /** LSet's range test. */
  predicate InSetRange(length: nat, index: int) {
    if length < UINT64_MAX / 2 then 0 - length <= index <= length - 1 else INT64_MIN <= index <= INT64_MAX
  }

  /** It accepts exactly the positions of the list, but for one length and index. */
  lemma SetGuard(length: nat, index: int)
    requires length <= INT64_MAX && INT64_MIN < index <= INT64_MAX
    ensures (InSetRange(length, index) <==> 0 <= Position(index, length) < length)
            <==> !(length == INT64_MAX && index == INT64_MAX)
  {}

  lemma TrimCounts(lv: ListMeta, items: map<int, bytes>, s: seq<bytes>, from: int, to: int)
    requires Consistent(lv, items, s) && 0 <= from <= to < |s|
    ensures Sub64(SeqByIndex(from, lv), lv.left) == from
    ensures Sub64(lv.right, SeqByIndex(to, lv)) == |s| - 1 - to
  {
    hide SeqByIndex, Window;
    SeqByIndexMeans(from, lv);
    SeqByIndexMeans(to, lv);
    var (b, e) := (SeqByIndex(from, lv), SeqByIndex(to, lv));
    Wraps(b - lv.left);
    Wraps(lv.right - e);
    Wraps(lv.left + |s|);
  }

  // ------------------------------------------------------------------- the store

  datatype End = Head | Tail

  /** One list key: its meta record and the item records of its incarnation. A key
      without elements is deleted, and the next incarnation starts without items. */
  class StoredList {
    var live: bool
    var lv: ListMeta
    var items: map<int, bytes>
    ghost var contents: seq<bytes>

    ghost predicate Valid()
      reads this
    {
      live == (contents != []) && (!live ==> lv == Fresh) && Consistent(lv, items, contents)
    }

    constructor ()
      ensures Valid() && contents == [] && lv == ListMeta(0, 0xffff_ffff_ffff_ffff, 0)
    {
      live, lv, items, contents := false, Fresh, map[], [];
    }

    /** doListPush. */
    method Push(end: End, val: seq<bytes>, offset: nat) returns (ret: int)
      requires Valid() && |contents| + |val| <= INT64_MAX
      modifies this
      ensures Valid()
      ensures if offset >= |val| then ret == -1 && contents == old(contents)
              else ret == 1 && contents == if end == Head then Sequences.Reversed(val[offset..]) + old(contents)
                                           else old(contents) + val[offset..]
    {
      hide Window, Sequences.Reversed, Add64;
      var num := |val| - offset;
      if num <= 0 { return -1; }
      if lv.length > UINT64_MAX - num { return -1; }
      var batch := items;
      var itemSeq: nat := if end == Head then lv.left else lv.right;
      ghost var was := contents;
      var i := offset;
      assert val[offset..offset] == [];
      PushStart(lv, items, contents);
      while i < |val|
        invariant offset <= i <= |val|
        invariant lv == old(lv) && contents == was == old(contents)
        invariant if end == Head then HeadPushed(batch, lv, itemSeq, was, val[offset..i])
                  else TailPushed(batch, lv, itemSeq, was, val[offset..i])
      {
        if end == Head {
          HeadStep(batch, lv, itemSeq, was, val[offset..i], val[i]);
          itemSeq := Down(itemSeq);
        } else {
          TailStep(batch, lv, itemSeq, was, val[offset..i], val[i]);
          itemSeq := Up(itemSeq);
        }
        assert val[offset..i] + [val[i]] == val[offset..i + 1];
        batch := batch[itemSeq := val[i]];
        i := i + 1;
      }
      assert val[offset..i] == val[offset..];
      var len := lv.length + num;
      if end == Head {
        FittingConsistent(batch, itemSeq, lv.right, Sequences.Reversed(val[offset..]) + was);
      } else {
        FittingConsistent(batch, lv.left, itemSeq, was + val[offset..]);
      }
      lv := if end == Head then ListMeta(itemSeq, lv.right, len) else ListMeta(lv.left, itemSeq, len);
      items := batch;
      live := true;
      contents := if end == Head then Sequences.Reversed(val[offset..]) + contents else contents + val[offset..];
      return 1;
    }

    /** doListPop, and the length test of LPop and RPop; the last pop deletes the key. */
    method Pop(end: End) returns (ret: int, val: Option<bytes>)
      requires Valid()
      modifies this
      ensures Valid()
      ensures if old(contents) == [] then ret == 0 && val == None && contents == []
              else ret == (if |old(contents)| == 1 then 0 else 1)
                   && val.Some? && old(contents) == if end == Head then [val.value] + contents else contents + [val.value]
    {
      hide Window, Add64;
      if !live { return 0, None; }
      var itemSeq := if end == Head then lv.left else lv.right;
      ghost var s := contents;
      if end == Head {
        DropFirst(items, lv.left, s);
        UpAdd(lv.left, |s|);
      } else {
        DropLast(items, lv.left, lv.right, s);
      }
      if itemSeq !in items { return 0, None; }
      val := Some(items[itemSeq]);
      var len := lv.length - 1;
      if end == Head {
        lv := lv.(left := Up(itemSeq));
        contents := s[1..];
      } else {
        lv := lv.(right := Down(itemSeq));
        contents := s[..|s| - 1];
      }
      items := items - {itemSeq};
      if len == 0 {
        assert items == map[] by { NoItems(items, lv.left); }
        FreshConsistent();
        lv, live := Fresh, false;
        return 0, val;
      }
      lv := lv.(length := len);
      return 1, val;
    }

    /** LIndex: 1 and the element, or 0. */
    method Index(index: int) returns (ret: int, val: Option<bytes>)
      requires Valid() && INT64_MIN < index <= INT64_MAX
      ensures var i := Position(index, |contents|);
              if 0 <= i < |contents| then ret == 1 && val == Some(contents[i]) else ret == 0 && val == None
      ensures if 0 <= index < |contents| then val == Some(contents[index])
              else if -|contents| <= index < 0 then val == Some(contents[|contents| + index]) else val == None
    {
      hide Window, Add64, Sub64;
      if !live { return 0, None; }
      IndexReaches(index, lv, items, contents);
      var q := SeqByIndex(index, lv);
      if q !in items { return 0, None; }
      return 1, Some(items[q]);
    }

    /** LSet. Its range test admits INT64_MAX for a list of that length. */
    method Set(index: int, val: bytes) returns (ret: int)
      requires Valid() && INT64_MIN < index <= INT64_MAX && (|contents| == INT64_MAX ==> index != INT64_MAX)
      modifies this
      ensures Valid()
      ensures var i := Position(index, |old(contents)|);
              if old(contents) == [] then ret == 0 && contents == []
              else if 0 <= i < |old(contents)| then ret == 1 && contents == old(contents)[i := val]
              else ret == INDEX_OUT_OF_RANGE && contents == old(contents)
      ensures contents == if 0 <= index < |old(contents)| then old(contents)[index := val]
                          else if -|old(contents)| <= index < 0 then old(contents)[|old(contents)| + index := val]
                          else old(contents)
    {
      hide Window, Add64, Sub64;
      if !live { return 0; }
      SetGuard(lv.length, index);
      if !InSetRange(lv.length, index) { return INDEX_OUT_OF_RANGE; }
      IndexReaches(index, lv, items, contents);
      var q := SeqByIndex(index, lv);
      SetAt(items, lv.left, contents, q, val);
      items := items[q := val];
      contents := contents[Position(index, |contents|) := val];
      return 1;
    }

    /** ltrim. */
    method Trim(start: int, end: int) returns (ret: int)
      requires Valid() && INT64_MIN < start <= INT64_MAX && INT64_MIN < end <= INT64_MAX
      modifies this
      ensures Valid() && contents == Range(old(contents), start, end)
      ensures ret == if contents == [] then 0 else 1
      ensures var n := |old(contents)|;
              var lo := if start >= 0 then start else if start < -n then 0 else n + start;
              var hi := if end >= n then n else if end >= 0 then end + 1 else n + end + 1;
              contents == if lo < hi then old(contents)[lo..hi] else []
    {
      hide Window, Add64, Sub64, SeqByIndex, Offset, Up, Down, Range, Fitting;
      RangeMeans(contents, start, end);
      if !live { assert contents == []; EmptyRange(start, end); return 0; }
      var llen: int := lv.length;
      var from := Position(start, llen);
      var to := Position(end, llen);
      if from < 0 { from := 0; }
      var ltrim: nat, rtrim: nat := llen, 0;
      if !(from > to || from >= llen) {
        if to >= llen { to := llen - 1; }
        var beginSeq := SeqByIndex(from, lv);
        var endSeq := SeqByIndex(to, lv);
        TrimCounts(lv, items, contents, from, to);
        ltrim := Sub64(beginSeq, lv.left);
        rtrim := Sub64(lv.right, endSeq);
      }
      ghost var s := contents;
      TrimIsRange(s, start, end, ltrim, rtrim);
      ConsistentFitting(lv, items, s);
      var (batch, left) := (items, lv.left);
      batch, left := DropLeft(batch, left, ltrim, lv.right, s);
      var right := lv.right;
      batch, right := DropRight(batch, right, rtrim, left, s[ltrim..]);
      var length := lv.length - (ltrim + rtrim);
      contents := s[ltrim..][..|s| - ltrim - rtrim];
      FittingConsistent(batch, left, right, contents);
      items := batch;
      lv := ListMeta(left, right, length);
      if length == 0 {
        assert items == map[] by { NoItems(items, lv.left); }
        FreshConsistent();
        lv, live := Fresh, false;
        return 0;
      }
      return 1;
    }

    /** lrange. */
    method RangeOf(start: int, end: int) returns (ret: int, list: seq<bytes>)
      requires Valid() && INT64_MIN < start <= INT64_MAX && INT64_MIN < end <= INT64_MAX
      ensures ret == (if contents == [] then 0 else 1) && list == Range(contents, start, end)
      ensures var n := |contents|;
              var lo := if start >= 0 then start else if start < -n then 0 else n + start;
              var hi := if end >= n then n else if end >= 0 then end + 1 else n + end + 1;
              list == if lo < hi then contents[lo..hi] else []
    {
      hide Add64, Sub64, SeqByIndex, Window, Offset, Up, Range;
      RangeMeans(contents, start, end);
      RangeClipped(contents, start, end);
      list := [];
      if !live { return 0, []; }
      var llen: int := lv.length;
      var from := Position(start, llen);
      var to := Position(end, llen);
      if from < 0 { from := 0; }
      if from > to || from >= llen { return 1, []; }
      if to >= llen { to := llen - 1; }
      IndexReaches(from, lv, items, contents);
      ret, list := CopyRange(items, SeqByIndex(from, lv), to - from + 1, lv.left, contents, from);
    }
  }
}
