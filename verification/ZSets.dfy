/** t_zset: a member-to-score record and a score-index record for every element,
    and a stored length. Scores are the bit patterns of doubles. */
module ZSets {
  import opened Bytes
  import opened Options
  import opened Errors
  import opened Maps
  import opened KvCodec
  import Collections

  datatype Entry = Entry(score: nat, member: bytes)

  /** The records of one incarnation: items by member, index by score. */
  datatype Records = Records(scores: map<bytes, nat>, index: set<Entry>)

  /** The two kinds of record are in bijection, and no score is a NaN. */
  ghost predicate Bijection(r: Records) {
    && (forall m :: m in r.scores ==> Entry(r.scores[m], m) in r.index)
    && (forall e :: e in r.index ==> e.member in r.scores && r.scores[e.member] == e.score)
    && (forall m :: m in r.scores ==> r.scores[m] < U64 && !IsNaN(r.scores[m]))
  }

  function ScoreOf(scores: map<bytes, nat>, m: bytes): Option<nat> {
    if m in scores then Some(scores[m]) else None
  }

  datatype Flags = Flags(incr: bool, nx: bool, xx: bool, ch: bool)

  datatype Outcome = Added | Updated | Nop | Same | Nan

  /** == on doubles that are not NaN. */
  predicate DoubleEq(a: nat, b: nat) { a == b || (a % SIGN == 0 && b % SIGN == 0) }

  lemma DoubleEqIsValueEq(a: nat, b: nat)
    requires a < U64 && b < U64 && !IsNaN(a) && !IsNaN(b)
    ensures DoubleEq(a, b) <==> Value(a) == Value(b)
  {
    hide Value;
    EncodeScoreMonotone(a, b);
  }

  /** What ZADD or ZINCRBY makes of one member's score, as the commands document it;
      None leaves the member out. */
  function NewScore(was: Option<nat>, score: nat, flags: Flags, plus: (nat, nat) -> nat): Option<nat> {
    match was
    case None => if flags.xx then None else Some(score)
    case Some(old_) =>
      if flags.nx then was else
      var s := if flags.incr then plus(score, old_) else score;
      if DoubleEq(old_, s) then was else Some(s)
  }

  /** A present member gets that score unless NX is given or it already has the value;
      an absent one gets the given score unless XX is. */
  lemma NewScoreMeans(was: Option<nat>, score: nat, flags: Flags, plus: (nat, nat) -> nat)
    requires score < U64 && (was.Some? ==> was.value < U64 && !IsNaN(was.value) && plus(score, was.value) < U64)
    requires !Fails(was, score, flags, plus)
    ensures var now := NewScore(was, score, flags, plus);
            match was
            case None => now == if flags.xx then Option.None else Some(score)
            case Some(o) =>
              now == if flags.nx || Value(if flags.incr then plus(score, o) else score) == Value(o) then was
                     else Some(if flags.incr then plus(score, o) else score)
  {
    if was.Some? && !flags.nx {
      DoubleEqIsValueEq(was.value, if flags.incr then plus(score, was.value) else score);
    }
  }

  /** Does the addition of an increment give a NaN? */
  predicate Fails(was: Option<nat>, score: nat, flags: Flags, plus: (nat, nat) -> nat) {
    IsNaN(score) || (was.Some? && !flags.nx && flags.incr && IsNaN(plus(score, was.value)))
  }

  ghost predicate Addition(plus: (nat, nat) -> nat) { forall a, b :: plus(a, b) < U64 }

  function Put(r: Records, m: bytes, score: nat): Records {
    Records(r.scores[m := score], r.index + {Entry(score, m)})
  }

  /** zset_one: reads the committed scores, writes to the batch. newScore is what it
      reports through its pointer, if anything. */
  method ZSetOne(committed: map<bytes, nat>, batch: Records, needCheck: bool, key: bytes, score: nat,
                 flags: Flags, plus: (nat, nat) -> nat)
    returns (ret: int, out: Outcome, batch': Records, newScore: Option<nat>)
    requires Bijection(batch) && score < U64 && Addition(plus)
    requires ScoreOf(batch.scores, key) == ScoreOf(committed, key) && (!needCheck ==> key !in committed)
    ensures Bijection(batch')
    ensures ret == if Fails(ScoreOf(committed, key), score, flags, plus) then NAN_SCORE else 1
    ensures ret < 0 ==> batch' == batch && out == Nan
    ensures ret == 1 ==> ScoreOf(batch'.scores, key) == NewScore(ScoreOf(committed, key), score, flags, plus)
    ensures forall m :: m != key ==> ScoreOf(batch'.scores, m) == ScoreOf(batch.scores, m)
    ensures |batch'.scores| == |batch.scores| + if out == Added then 1 else 0
    ensures ret == 1 ==> (out == Added || out == Updated <==>
              NewScore(ScoreOf(committed, key), score, flags, plus) != ScoreOf(committed, key))
    ensures ret == 1 ==> (out == Added <==> key !in committed && !flags.xx)
    ensures ret == 1 ==> newScore == if key in committed && !flags.nx && flags.incr then Some(plus(score, committed[key]))
                                     else if out == Added || out == Updated then Some(score) else Option.None
  {
    hide IsNaN;
    batch', newScore := batch, Option.None;
    if IsNaN(score) { return NAN_SCORE, Nan, batch, newScore; }
    if needCheck {
      if key !in committed {
        if !flags.xx {
          PutSize(batch.scores, key, score);
          return 1, Added, Put(batch, key, score), Some(score);
        }
        return 1, Nop, batch, newScore;
      }
      var oldScore := committed[key];
      if flags.nx { return 1, Nop, batch, newScore; }
      var s := score;
      if flags.incr {
        s := plus(score, oldScore);
        if IsNaN(s) { return NAN_SCORE, Nan, batch, newScore; }
        newScore := Some(s);
      }
      if DoubleEq(oldScore, s) { return 1, Same, batch, newScore; }
      newScore := Some(s);
      PutSize(batch.scores, key, s);
      batch' := Put(batch.(index := batch.index - {Entry(oldScore, key)}), key, s);
      return 1, Updated, batch', newScore;
    }
    if !flags.xx {
      PutSize(batch.scores, key, score);
      return 1, Added, Put(batch, key, score), Some(score);
    }
    return 1, Nop, batch, newScore;
  }

  /** zdel_one. */
  method ZDelOne(committed: map<bytes, nat>, batch: Records, key: bytes) returns (ret: nat, batch': Records)
    requires Bijection(batch) && ScoreOf(batch.scores, key) == ScoreOf(committed, key)
    ensures Bijection(batch') && batch'.scores == batch.scores - {key}
    ensures ret == (if key in committed then 1 else 0) && |batch'.scores| + ret == |batch.scores|
  {
    DropSize(batch.scores, key);
    if key !in committed { return 0, batch; }
    return 1, Records(batch.scores - {key}, batch.index - {Entry(committed[key], key)});
  }

  type Pairs = seq<(bytes, nat)>

  /** A std::map in iteration order. */
  ghost predicate DistinctKeys(kvs: Pairs) { forall i, j :: 0 <= i < j < |kvs| ==> kvs[i].0 != kvs[j].0 }

  ghost predicate Scores(kvs: Pairs) { forall i :: 0 <= i < |kvs| ==> kvs[i].1 < U64 }

  /** Every score is as it was, but for the first n pairs. */
  ghost predicate Applied(now: map<bytes, nat>, was: map<bytes, nat>, kvs: Pairs, n: nat, flags: Flags, plus: (nat, nat) -> nat)
    requires n <= |kvs|
  {
    && (forall i :: 0 <= i < n ==> ScoreOf(now, kvs[i].0) == NewScore(ScoreOf(was, kvs[i].0), kvs[i].1, flags, plus))
    && (forall m :: (forall i :: 0 <= i < n ==> kvs[i].0 != m) ==> ScoreOf(now, m) == ScoreOf(was, m))
  }

  ghost predicate AnyFails(was: map<bytes, nat>, kvs: Pairs, flags: Flags, plus: (nat, nat) -> nat) {
    exists i :: 0 <= i < |kvs| && Fails(ScoreOf(was, kvs[i].0), kvs[i].1, flags, plus)
  }

  lemma AppliedNone(was: map<bytes, nat>, kvs: Pairs, flags: Flags, plus: (nat, nat) -> nat)
    ensures Applied(was, was, kvs, 0, flags, plus)
  {}

  lemma Untouched(now: map<bytes, nat>, was: map<bytes, nat>, kvs: Pairs, i: nat, flags: Flags, plus: (nat, nat) -> nat)
    requires i < |kvs| && DistinctKeys(kvs) && Applied(now, was, kvs, i, flags, plus)
    ensures ScoreOf(now, kvs[i].0) == ScoreOf(was, kvs[i].0)
  {
    hide NewScore, ScoreOf;
  }

  lemma AppliedNext(now: map<bytes, nat>, next: map<bytes, nat>, was: map<bytes, nat>, kvs: Pairs, i: nat,
                    flags: Flags, plus: (nat, nat) -> nat)
    requires i < |kvs| && DistinctKeys(kvs) && Applied(now, was, kvs, i, flags, plus)
    requires ScoreOf(next, kvs[i].0) == NewScore(ScoreOf(was, kvs[i].0), kvs[i].1, flags, plus)
    requires forall m :: m != kvs[i].0 ==> ScoreOf(next, m) == ScoreOf(now, m)
    ensures Applied(next, was, kvs, i + 1, flags, plus)
  {
    hide NewScore, ScoreOf;
    forall m | forall j :: 0 <= j < i + 1 ==> kvs[j].0 != m ensures ScoreOf(next, m) == ScoreOf(was, m) {
      assert kvs[i].0 != m;
    }
  }

  /** How many of the first n pairs change their member's score. */
  ghost function Changes(was: map<bytes, nat>, kvs: Pairs, n: nat, flags: Flags, plus: (nat, nat) -> nat): nat
    requires n <= |kvs|
  {
    if n == 0 then 0 else
    var (key, score) := kvs[n - 1];
    var w := ScoreOf(was, key);
    Changes(was, kvs, n - 1, flags, plus) + if NewScore(w, score, flags, plus) != w then 1 else 0
  }

  /** The loop of zsetNoLock. */
  method ZSetAll(committed: Records, needCheck: bool, kvs: Pairs, flags: Flags, plus: (nat, nat) -> nat)
    returns (ret: int, batch: Records, added: nat, updated: nat)
    requires Bijection(committed) && DistinctKeys(kvs) && Scores(kvs) && Addition(plus)
    requires !needCheck ==> committed.scores == map[]
    ensures ret == if AnyFails(committed.scores, kvs, flags, plus) then NAN_SCORE else 1
    ensures ret == 1 ==> Bijection(batch) && Applied(batch.scores, committed.scores, kvs, |kvs|, flags, plus)
    ensures ret == 1 ==> |batch.scores| == |committed.scores| + added
    ensures ret == 1 ==> added + updated == Changes(committed.scores, kvs, |kvs|, flags, plus)
  {
    hide Bijection, NewScore, Fails, Applied, ScoreOf;
    batch, added, updated := committed, 0, 0;
    AppliedNone(committed.scores, kvs, flags, plus);
    for i := 0 to |kvs|
      invariant Bijection(batch) && Applied(batch.scores, committed.scores, kvs, i, flags, plus)
      invariant |batch.scores| == |committed.scores| + added
      invariant added + updated == Changes(committed.scores, kvs, i, flags, plus)
      invariant forall j :: 0 <= j < i ==> !Fails(ScoreOf(committed.scores, kvs[j].0), kvs[j].1, flags, plus)
    {
      var (key, score) := kvs[i];
      Untouched(batch.scores, committed.scores, kvs, i, flags, plus);
      var retval, out, newScore;
      ghost var now := batch.scores;
      retval, out, batch, newScore := ZSetOne(committed.scores, batch, needCheck, key, score, flags, plus);
      if retval < 0 {
        return retval, batch, added, updated;
      }
      AppliedNext(now, batch.scores, committed.scores, kvs, i, flags, plus);
      if out == Added { added := added + 1; }
      if out == Updated { updated := updated + 1; }
    }
    return 1, batch, added, updated;
  }

  /** The numeric value of a member's score. */
  ghost function Numeric(scores: map<bytes, nat>, m: bytes): Option<int> {
    if m in scores && scores[m] < U64 then Some(Value(scores[m])) else Option.None
  }

  /** The members that are new or have another numeric value. */
  ghost function Revalued(was: map<bytes, nat>, now: map<bytes, nat>): set<bytes> {
    set m | m in now && Numeric(now, m) != Numeric(was, m)
  }

  lemma FailsMeans(was: map<bytes, nat>, kvs: Pairs, flags: Flags, plus: (nat, nat) -> nat)
    ensures AnyFails(was, kvs, flags, plus) <==>
            exists i :: 0 <= i < |kvs| && (IsNaN(kvs[i].1) ||
                          (kvs[i].0 in was && flags.incr && !flags.nx && IsNaN(plus(kvs[i].1, was[kvs[i].0]))))
  {
    hide IsNaN;
    forall i | 0 <= i < |kvs|
      ensures Fails(ScoreOf(was, kvs[i].0), kvs[i].1, flags, plus) <==>
              IsNaN(kvs[i].1) || (kvs[i].0 in was && flags.incr && !flags.nx && IsNaN(plus(kvs[i].1, was[kvs[i].0])))
    {}
  }

  lemma PairMeans(now: map<bytes, nat>, was: Records, kvs: Pairs, i: nat, flags: Flags, plus: (nat, nat) -> nat)
    requires Bijection(was) && Scores(kvs) && Addition(plus) && i < |kvs|
    requires !AnyFails(was.scores, kvs, flags, plus) && Applied(now, was.scores, kvs, |kvs|, flags, plus)
    ensures var (m, score) := kvs[i];
            if m !in was.scores then ScoreOf(now, m) == if flags.xx then Option.None else Some(score)
            else
              var w := was.scores[m];
              var s := if flags.incr then plus(score, w) else score;
              w < U64 && s < U64 && ScoreOf(now, m) == Some(if flags.nx || Value(s) == Value(w) then w else s)
  {
    hide NewScore, Value;
    KeyScore(was, kvs[i].0);
    NewScoreMeans(ScoreOf(was.scores, kvs[i].0), kvs[i].1, flags, plus);
  }

  lemma AppliedMeans(now: map<bytes, nat>, was: Records, kvs: Pairs, flags: Flags, plus: (nat, nat) -> nat)
    requires Bijection(was) && Scores(kvs) && Addition(plus)
    requires !AnyFails(was.scores, kvs, flags, plus) && Applied(now, was.scores, kvs, |kvs|, flags, plus)
    ensures forall i :: 0 <= i < |kvs| && kvs[i].0 !in was.scores ==>
              ScoreOf(now, kvs[i].0) == if flags.xx then Option.None else Some(kvs[i].1)
    ensures forall i :: 0 <= i < |kvs| && kvs[i].0 in was.scores ==>
              var w := was.scores[kvs[i].0];
              var s := if flags.incr then plus(kvs[i].1, w) else kvs[i].1;
              && w < U64 && s < U64
              && ScoreOf(now, kvs[i].0) == Some(if flags.nx || Value(s) == Value(w) then w else s)
    ensures forall m :: (forall i :: 0 <= i < |kvs| ==> kvs[i].0 != m) ==> ScoreOf(now, m) == ScoreOf(was.scores, m)
  {
    hide NewScore, Bijection, Value, AnyFails, ScoreOf;
    forall i | 0 <= i < |kvs| && kvs[i].0 !in was.scores
      ensures ScoreOf(now, kvs[i].0) == if flags.xx then Option.None else Some(kvs[i].1)
    {
      PairMeans(now, was, kvs, i, flags, plus);
    }
    forall i | 0 <= i < |kvs| && kvs[i].0 in was.scores
      ensures var w := was.scores[kvs[i].0];
              var s := if flags.incr then plus(kvs[i].1, w) else kvs[i].1;
              && w < U64 && s < U64
              && ScoreOf(now, kvs[i].0) == Some(if flags.nx || Value(s) == Value(w) then w else s)
    {
      PairMeans(now, was, kvs, i, flags, plus);
    }
  }

  /** A member's record changes exactly if its numeric value does. */
  lemma MemberRevalued(now: map<bytes, nat>, was: Records, kvs: Pairs, m: bytes, flags: Flags, plus: (nat, nat) -> nat)
    requires Bijection(was) && Scores(kvs) && Addition(plus)
    requires !AnyFails(was.scores, kvs, flags, plus) && Applied(now, was.scores, kvs, |kvs|, flags, plus)
    ensures m in was.scores ==> m in now
    ensures m in Changed(now, was.scores, kvs, |kvs|) <==> m in Revalued(was.scores, now)
  {
    hide NewScore, Value, AnyFails;
    if i: nat :| i < |kvs| && kvs[i].0 == m {
      PairMeans(now, was, kvs, i, flags, plus);
    } else {
      assert ScoreOf(now, m) == ScoreOf(was.scores, m);
    }
  }

  lemma ChangesRevalued(now: map<bytes, nat>, was: Records, kvs: Pairs, flags: Flags, plus: (nat, nat) -> nat)
    requires Bijection(was) && Scores(kvs) && Addition(plus) && DistinctKeys(kvs)
    requires !AnyFails(was.scores, kvs, flags, plus) && Applied(now, was.scores, kvs, |kvs|, flags, plus)
    ensures was.scores.Keys <= now.Keys
    ensures Changes(was.scores, kvs, |kvs|, flags, plus) == |Revalued(was.scores, now)|
  {
    hide Bijection, AnyFails, Applied, Changes, Changed, Revalued;
    ChangesCount(now, was.scores, kvs, |kvs|, flags, plus);
    forall m ensures (m in was.scores ==> m in now)
                     && (m in Changed(now, was.scores, kvs, |kvs|) <==> m in Revalued(was.scores, now))
    {
      MemberRevalued(now, was, kvs, m, flags, plus);
    }
    assert Changed(now, was.scores, kvs, |kvs|) == Revalued(was.scores, now);
  }

  /** The members of the first n pairs whose score has changed. */
  ghost function Changed(now: map<bytes, nat>, was: map<bytes, nat>, kvs: Pairs, n: nat): set<bytes>
    requires n <= |kvs|
  {
    set i | 0 <= i < n && ScoreOf(now, kvs[i].0) != ScoreOf(was, kvs[i].0) :: kvs[i].0
  }

  lemma ChangedNext(now: map<bytes, nat>, was: map<bytes, nat>, kvs: Pairs, n: nat)
    requires DistinctKeys(kvs) && n < |kvs|
    ensures var (key, less) := (kvs[n].0, Changed(now, was, kvs, n));
            key !in less && Changed(now, was, kvs, n + 1) == if ScoreOf(now, key) != ScoreOf(was, key) then less + {key} else less
  {
    hide ScoreOf;
  }

  lemma {:induction false} ChangesCount(now: map<bytes, nat>, was: map<bytes, nat>, kvs: Pairs, n: nat,
                                        flags: Flags, plus: (nat, nat) -> nat)
    requires DistinctKeys(kvs) && Applied(now, was, kvs, |kvs|, flags, plus) && n <= |kvs|
    ensures Changes(was, kvs, n, flags, plus) == |Changed(now, was, kvs, n)|
  {
    hide NewScore, ScoreOf, DistinctKeys, Changed;
    if n > 0 {
      ChangesCount(now, was, kvs, n - 1, flags, plus);
      ChangedNext(now, was, kvs, n - 1);
    } else {
      NoneChanged(now, was, kvs);
    }
  }

  lemma NoneChanged(now: map<bytes, nat>, was: map<bytes, nat>, kvs: Pairs)
    ensures Changed(now, was, kvs, 0) == {}
  {}

  lemma NoneRevalued()
    ensures Revalued(map[], map[]) == {}
  {}

  lemma KeyScore(r: Records, key: bytes)
    requires Bijection(r)
    ensures key in r.scores ==> r.scores[key] < U64 && !IsNaN(r.scores[key])
  {}

  /** The live incarnation of one zset key. */
  class ZSet {
    var live: bool
    var length: nat
    var records: Records

    ghost predicate Valid()
      reads this
    {
      live == (length > 0) && length == |records.scores| && Bijection(records)
    }

    constructor ()
      ensures Valid() && records.scores == map[]
    {
      live, length, records := false, 0, Records(map[], {});
    }

    /** incr_zsize, and the commit of the batch. */
    method Commit(batch: Records, incr: int) returns (ret: int)
      requires Valid() && Bijection(batch) && |batch.scores| == |records.scores| + incr
      modifies this
      ensures Valid() && records.scores == batch.scores && ret == if live then 1 else 0
    {
      var len;
      ret, len := Collections.IncrSize(length, incr);
      length, live := len, len > 0;
      records := if live then batch else Records(map[], {});
      assert |batch.scores| == 0 ==> batch.scores == map[];
    }

    /** zsetNoLock: ZADD. An error leaves everything as it was. */
    method ZAdd(kvs: Pairs, flags: Flags, plus: (nat, nat) -> nat) returns (ret: int, num: nat)
      requires Valid() && DistinctKeys(kvs) && Scores(kvs) && Addition(plus)
      modifies this
      ensures Valid()
      ensures ret < 0 <==>
              || (flags.nx && flags.xx) || (flags.incr && |kvs| > 1)
              || (exists i :: 0 <= i < |kvs| && (IsNaN(kvs[i].1) ||
                    (kvs[i].0 in old(records).scores && flags.incr && !flags.nx
                     && IsNaN(plus(kvs[i].1, old(records).scores[kvs[i].0])))))
      ensures ret < 0 ==> records == old(records)
      ensures ret >= 0 ==> ret == if records.scores == map[] then 0 else 1
      ensures ret >= 0 ==> forall i :: 0 <= i < |kvs| && kvs[i].0 !in old(records).scores ==>
                ScoreOf(records.scores, kvs[i].0) == if flags.xx then Option.None else Some(kvs[i].1)
      ensures ret >= 0 ==> forall i :: 0 <= i < |kvs| && kvs[i].0 in old(records).scores ==>
                var was := old(records).scores[kvs[i].0];
                var s := if flags.incr then plus(kvs[i].1, was) else kvs[i].1;
                && was < U64 && s < U64
                && ScoreOf(records.scores, kvs[i].0) == Some(if flags.nx || Value(s) == Value(was) then was else s)
      ensures ret >= 0 ==> forall m :: (forall i :: 0 <= i < |kvs| ==> kvs[i].0 != m) ==>
                ScoreOf(records.scores, m) == ScoreOf(old(records).scores, m)
      ensures ret >= 0 ==> num == if flags.ch then |Revalued(old(records).scores, records.scores)|
                                  else |records.scores| - |old(records).scores|
    {
      hide Bijection, Applied, Fails, Changes, Value, Revalued;
      if flags.nx && flags.xx { return SYNTAX_ERR, 0; }
      if flags.incr && |kvs| > 1 { return SYNTAX_ERR, 0; }
      var found := if live then 1 else 0;
      assert !live ==> records.scores == map[];
      ghost var was := records;
      FailsMeans(was.scores, kvs, flags, plus);
      var retval, batch, added, updated := ZSetAll(records, live, kvs, flags, plus);
      if retval < 0 { return retval, 0; }
      AppliedMeans(batch.scores, was, kvs, flags, plus);
      ChangesRevalued(batch.scores, was, kvs, flags, plus);
      NoneRevalued();
      assert |batch.scores| == 0 ==> batch.scores == map[];
      var iret := Commit(batch, added);
      num := if flags.ch then added + updated else added;
      return if found + num > 0 then 1 else 0, num;
    }

    /** zincr: ZINCRBY, and ZADD with INCR. */
    method ZIncr(key: bytes, by_: nat, flags: Flags, plus: (nat, nat) -> nat) returns (ret: int, newVal: Option<nat>)
      requires Valid() && by_ < U64 && Addition(plus)
      modifies this
      ensures Valid()
      ensures ret < 0 <==> IsNaN(by_) || (key in old(records).scores && flags.incr && !flags.nx
                                          && IsNaN(plus(by_, old(records).scores[key])))
      ensures ret < 0 ==> records == old(records)
      ensures ret >= 0 ==> ret == if records.scores == map[] then 0 else 1
      ensures ret >= 0 && key !in old(records).scores ==>
                ScoreOf(records.scores, key) == newVal == if flags.xx then Option.None else Some(by_)
      ensures ret >= 0 && key in old(records).scores ==>
                var was := old(records).scores[key];
                var s := if flags.incr then plus(by_, was) else by_;
                && was < U64 && s < U64
                && ScoreOf(records.scores, key) == Some(if flags.nx || Value(s) == Value(was) then was else s)
                && (flags.incr && !flags.nx ==> newVal == Some(s))
      ensures forall m :: m != key ==> ScoreOf(records.scores, m) == ScoreOf(old(records).scores, m)
    {
      hide Bijection, NewScore, Value;
      ret := if live then 1 else 0;
      assert !live ==> records.scores == map[];
      KeyScore(records, key);
      var retval, out, batch;
      retval, out, batch, newVal := ZSetOne(records.scores, records, live, key, by_, flags, plus);
      if retval < 0 { return retval, newVal; }
      NewScoreMeans(ScoreOf(records.scores, key), by_, flags, plus);
      if out == Added {
        ret := Commit(batch, 1);
      } else {
        records := batch;
      }
    }

    /** quickZset, into a new incarnation: the records and the length are right
        exactly when no member comes twice and no score is a NaN. */
    method QuickZSet(kvs: Pairs) returns (ret: int)
      requires Valid() && !live && Scores(kvs)
      modifies this
      ensures live == (length > 0) && length == |kvs|
      ensures Valid() <==> DistinctKeys(kvs) && Numbers(kvs)
      ensures DistinctKeys(kvs) ==> Tabulates(kvs, records.scores)
    {
      hide Bijection, Tabulates, Numbers, DistinctKeys;
      var batch := BuildZSet(kvs);
      var len;
      ret, len := Collections.IncrSize(length, |kvs|);
      length, live := len, len > 0;
      records := if live then batch else Records(map[], {});
      if !live { NoPairs(kvs, batch); }
    }

    /** zdelNoLock: ZREM; keys is a std::set in iteration order. */
    method ZDel(keys: seq<bytes>) returns (ret: int, count: nat)
      requires Valid() && Collections.Distinct(keys)
      modifies this
      ensures Valid() && records.scores == old(records).scores - Collections.Listed(keys)
      ensures count == |old(records).scores| - |records.scores| && ret == if live then 1 else 0
    {
      hide Bijection;
      if !live {
        assert records.scores == map[];
        return 0, 0;
      }
      var batch;
      batch, count := ZDelAll(records, keys);
      ret := Commit(batch, 0 - count);
    }
  }

  ghost predicate Numbers(kvs: Pairs) {
    forall i {:trigger kvs[i]} :: 0 <= i < |kvs| ==> kvs[i].1 < U64 && !IsNaN(kvs[i].1)
  }

  /** kvs lists exactly the entries of m. */
  ghost predicate Tabulates(kvs: Pairs, m: map<bytes, nat>) {
    && (forall i {:trigger kvs[i]} :: 0 <= i < |kvs| ==> kvs[i].0 in m && m[kvs[i].0] == kvs[i].1)
    && (forall k :: k in m ==> exists i :: 0 <= i < |kvs| && kvs[i].0 == k)
  }

  /** A table determines its map. */
  lemma TabulatesOne(kvs: Pairs, m: map<bytes, nat>, m': map<bytes, nat>)
    requires Tabulates(kvs, m) && Tabulates(kvs, m')
    ensures m == m'
  {
    forall k | k in m ensures k in m' && m'[k] == m[k] {
      var i :| 0 <= i < |kvs| && kvs[i].0 == k;
      assert kvs[i].0 in m';
    }
    forall k | k in m' ensures k in m {
      var i :| 0 <= i < |kvs| && kvs[i].0 == k;
      assert kvs[i].0 in m;
    }
  }

  /** Every duplicate-free table has its map, one entry a pair. */
  lemma {:induction false} Tabulated(kvs: Pairs) returns (m: map<bytes, nat>)
    requires DistinctKeys(kvs)
    ensures Tabulates(kvs, m) && |m| == |kvs|
  {
    m := map[];
    if kvs != [] {
      var n := |kvs| - 1;
      m := Tabulated(kvs[..n]);
      TabulatesNext(kvs, n, m);
      PutSize(m, kvs[n].0, kvs[n].1);
      m := m[kvs[n].0 := kvs[n].1];
      assert kvs[..n + 1] == kvs;
    }
  }

  /** Both records of every pair, one pair after another. */
  method BuildZSet(kvs: Pairs) returns (batch: Records)
    requires Scores(kvs)
    ensures |batch.scores| == |kvs| <==> DistinctKeys(kvs)
    ensures DistinctKeys(kvs) ==> Tabulates(kvs, batch.scores)
    ensures DistinctKeys(kvs) ==> (Bijection(batch) <==> Numbers(kvs))
  {
    hide Bijection, Tabulates, Numbers, DistinctKeys;
    batch := Records(map[], {});
    assert kvs[..0] == [];
    BuiltNone(batch);
    for i := 0 to |kvs|
      invariant Built(kvs[..i], batch)
    {
      BuiltNext(kvs, i, batch);
      batch := Put(batch, kvs[i].0, kvs[i].1);
    }
    assert kvs[..|kvs|] == kvs;
    BuiltDone(kvs, batch);
  }

  /** What the batch holds after some pairs; later pairs hide earlier ones. */
  ghost predicate Built(kvs: Pairs, r: Records) {
    && |r.scores| <= |kvs| && (|r.scores| == |kvs| <==> DistinctKeys(kvs))
    && (forall m :: m in r.scores <==> Named(kvs, m))
    && (forall m :: m in r.scores ==> Entry(r.scores[m], m) in r.index)
    && (DistinctKeys(kvs) ==> Tabulates(kvs, r.scores))
    && (DistinctKeys(kvs) ==> forall e :: e in r.index ==> e.member in r.scores && r.scores[e.member] == e.score)
  }

  lemma BuiltNone(r: Records)
    requires r == Records(map[], {})
    ensures Built([], r)
  {}

  ghost predicate Named(kvs: Pairs, m: bytes) { exists i :: 0 <= i < |kvs| && kvs[i].0 == m }

  lemma NamedNext(kvs: Pairs, n: nat)
    requires n < |kvs|
    ensures forall m :: Named(kvs[..n + 1], m) <==> Named(kvs[..n], m) || m == kvs[n].0
    ensures DistinctKeys(kvs[..n + 1]) <==> DistinctKeys(kvs[..n]) && !Named(kvs[..n], kvs[n].0)
  {
    var (a, b) := (kvs[..n], kvs[..n + 1]);
    assert b == a + [kvs[n]];
    forall m ensures Named(b, m) <==> Named(a, m) || m == kvs[n].0 {
      if Named(a, m) {
        var i :| 0 <= i < n && a[i].0 == m;
        assert b[i].0 == m;
      }
      assert b[n].0 == kvs[n].0;
    }
    if DistinctKeys(b) { assert forall i, j :: 0 <= i < j < n ==> a[i] == b[i] && a[j] == b[j]; }
  }

  lemma BuiltNext(kvs: Pairs, n: nat, r: Records)
    requires n < |kvs| && Built(kvs[..n], r)
    ensures Built(kvs[..n + 1], Put(r, kvs[n].0, kvs[n].1))
  {
    hide Tabulates, Named, DistinctKeys;
    var b := kvs[..n + 1];
    PutSize(r.scores, kvs[n].0, kvs[n].1);
    NamedNext(kvs, n);
    assert b[..n] == kvs[..n] && b[..n + 1] == b;
    if DistinctKeys(b) { TabulatesNext(b, n, r.scores); }
  }

  lemma BuiltDone(kvs: Pairs, r: Records)
    requires Built(kvs, r) && Scores(kvs)
    ensures |r.scores| == |kvs| <==> DistinctKeys(kvs)
    ensures DistinctKeys(kvs) ==> Tabulates(kvs, r.scores)
    ensures DistinctKeys(kvs) ==> (Bijection(r) <==> Numbers(kvs))
  {
    hide DistinctKeys;
    if DistinctKeys(kvs) && Numbers(kvs) {
      forall m | m in r.scores ensures r.scores[m] < U64 && !IsNaN(r.scores[m]) {
        var i :| 0 <= i < |kvs| && kvs[i].0 == m;
        assert r.scores[kvs[i].0] == kvs[i].1;
      }
    }
    if DistinctKeys(kvs) && Bijection(r) {
      forall i | 0 <= i < |kvs| ensures kvs[i].1 < U64 && !IsNaN(kvs[i].1) { assert kvs[i].0 in r.scores; }
    }
  }

  lemma NoPairs(kvs: Pairs, r: Records)
    requires kvs == [] && (DistinctKeys(kvs) ==> Tabulates(kvs, r.scores))
    ensures DistinctKeys(kvs) && Numbers(kvs) && r.scores == map[] && Tabulates(kvs, map[])
    ensures Bijection(Records(map[], {}))
  {
    assert forall k :: k !in r.scores;
  }

  lemma TabulatesNext(kvs: Pairs, i: nat, m: map<bytes, nat>)
    requires i < |kvs| && DistinctKeys(kvs) && Tabulates(kvs[..i], m)
    ensures kvs[i].0 !in m && Tabulates(kvs[..i + 1], m[kvs[i].0 := kvs[i].1])
  {
    var (a, b) := (kvs[..i], kvs[..i + 1]);
    assert b == a + [kvs[i]];
    var m' := m[kvs[i].0 := kvs[i].1];
    forall k | k in m' ensures exists j :: 0 <= j < |b| && b[j].0 == k {
      if k == kvs[i].0 {
        assert b[i].0 == k;
      } else {
        var j :| 0 <= j < |a| && a[j].0 == k;
        assert b[j].0 == k;
      }
    }
  }

  method ZDelAll(committed: Records, keys: seq<bytes>) returns (batch: Records, count: nat)
    requires Bijection(committed) && Collections.Distinct(keys)
    ensures Bijection(batch) && batch.scores == committed.scores - Collections.Listed(keys)
    ensures |batch.scores| + count == |committed.scores|
  {
    hide Bijection, Collections.Listed, Collections.Distinct;
    batch, count := committed, 0;
    DropNone(committed.scores);
    assert keys[..0] == [];
    for i := 0 to |keys|
      invariant Bijection(batch) && batch.scores == committed.scores - Collections.Listed(keys[..i])
      invariant |batch.scores| + count == |committed.scores|
    {
      DropNext(committed.scores, keys, i);
      var n;
      n, batch := ZDelOne(committed.scores, batch, keys[i]);
      count := count + n;
    }
    assert keys[..|keys|] == keys;
  }

  lemma DropNone(m: map<bytes, nat>)
    ensures m - Collections.Listed([]) == m
  {}

  lemma DropNext(m: map<bytes, nat>, keys: seq<bytes>, i: nat)
    requires Collections.Distinct(keys) && i < |keys|
    ensures m - Collections.Listed(keys[..i + 1]) == (m - Collections.Listed(keys[..i])) - {keys[i]}
    ensures ScoreOf(m - Collections.Listed(keys[..i]), keys[i]) == ScoreOf(m, keys[i])
  {
    Collections.NextMember(keys, i);
  }
}
