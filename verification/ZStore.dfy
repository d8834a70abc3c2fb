/** A zset's records in the byte-ordered store: what its commands keep in bijection
    is what its rank commands walk. */
module ZStore {
  import opened Bytes
  import opened Options
  import opened KvCodec
  import opened Scan
  import ZRank
  import ZSets
  import Collections

  ghost function Key(name: bytes, version: nat, e: ZSets.Entry): bytes
    requires e.score < U64
  {
    EncodeZScoreKey(name, e.member, e.score, version)
  }

  /** The store's score records of the incarnation are exactly those of r. */
  ghost predicate Files(ks: seq<bytes>, name: bytes, version: nat, r: ZSets.Records) {
    && (forall e :: e in r.index ==> e.score < U64 && Key(name, version, e) in ks)
    && (forall i {:trigger ks[i]} :: 0 <= i < |ks| && ZRank.HasPrefix(ks[i], ZRank.Prefix(name, version)) ==>
          exists e :: e in r.index && e.score < U64 && ks[i] == Key(name, version, e))
  }

  lemma KeyDecodes(name: bytes, version: nat, e: ZSets.Entry)
    requires |name| < U16 && version < U16 && e.score < U64
    ensures Decode(Scores, Key(name, version, e)) == Some(Record(name, version, Element(e.member, e.score)))
  {
    hide Decode, Code;
    var el := Element(e.member, e.score);
    ZRank.CodeIsScoreKey(name, version, el);
    DecodeExactly(Scores, name, version, el, Key(name, version, e));
  }

  lemma FiledIndexed(ks: seq<bytes>, name: bytes, version: nat, r: ZSets.Records)
    requires |name| < U16 && version < U16 && ZSets.Bijection(r) && Files(ks, name, version, r)
    ensures ZRank.Indexed(ks, name, version)
  {
    hide Decode, Key, ZRank.HasPrefix;
    forall i | 0 <= i < |ks| && ZRank.HasPrefix(ks[i], ZRank.Prefix(name, version))
      ensures Mine(Scores, name, version, ks[i]) && !IsNaN(Decode(Scores, ks[i]).value.element.score)
    {
      var e :| e in r.index && e.score < U64 && ks[i] == Key(name, version, e);
      KeyDecodes(name, version, e);
    }
  }

  /** The walk visits exactly the elements of the index. */
  lemma FiledElement(ks: seq<bytes>, name: bytes, version: nat, r: ZSets.Records, el: Element)
    requires Ascending(ks) && |name| < U16 && version < U16 && Files(ks, name, version, r)
    ensures el in ZRank.Members(ks, name, version) <==> ZSets.Entry(el.score, el.member) in r.index
  {
    hide Decode, Key, Elements, Code, ZRank.HasPrefix, Ascending;
    var e := ZSets.Entry(el.score, el.member);
    ScanExact(ks, Scores, name, version, el);
    if el.score < U64 {
      KeyIsCode(name, version, el);
      KeyDecodes(name, version, e);
      var c := Key(name, version, e);
      if c in ks {
        var i :| 0 <= i < |ks| && ks[i] == c;
        ZRank.OwnPrefix(c, name, version);
        var e' :| e' in r.index && e'.score < U64 && ks[i] == Key(name, version, e');
        KeyDecodes(name, version, e');
      }
    }
  }

  lemma KeyIsCode(name: bytes, version: nat, el: Element)
    requires el.score < U64
    ensures Key(name, version, ZSets.Entry(el.score, el.member)) == Code(Scores, name, version, el)
  {
    ZRank.CodeIsScoreKey(name, version, el);
  }

  /** One walk element for every member: none twice, none missing. */
  lemma {:induction false} FiledMembers(ks: seq<bytes>, name: bytes, version: nat, r: ZSets.Records)
    requires Ascending(ks) && |name| < U16 && version < U16 && ZSets.Bijection(r) && Files(ks, name, version, r)
    ensures var zs := ZRank.Members(ks, name, version);
            ZRank.DistinctMembers(zs) && |zs| == |r.scores|
            && (forall i {:trigger zs[i]} :: 0 <= i < |zs| ==> zs[i].member in r.scores && r.scores[zs[i].member] == zs[i].score)
            && (forall m :: m in r.scores ==> Element(m, r.scores[m]) in zs)
  {
    hide ZRank.Members, Files, Ascending, ZRank.Below, ZRank.Indexed;
    var zs := ZRank.Members(ks, name, version);
    FiledIndexed(ks, name, version, r);
    ZRank.MembersSorted(ks, name, version);
    forall i | 0 <= i < |zs| ensures zs[i].member in r.scores && r.scores[zs[i].member] == zs[i].score {
      FiledElement(ks, name, version, r, zs[i]);
    }
    forall m | m in r.scores ensures Element(m, r.scores[m]) in zs {
      FiledElement(ks, name, version, r, Element(m, r.scores[m]));
    }
    forall i, j | 0 <= i < j < |zs| ensures zs[i].member != zs[j].member {
      assert ZRank.Below(zs[i], zs[j]) && !ZRank.Below(zs[j], zs[j]);
    }
    MembersCount(zs, r.scores);
  }

  lemma MembersCount(zs: seq<Element>, scores: map<bytes, nat>)
    requires ZRank.DistinctMembers(zs) && (forall i {:trigger zs[i]} :: 0 <= i < |zs| ==> zs[i].member in scores)
    requires forall m :: m in scores ==> Element(m, scores[m]) in zs
    ensures |zs| == |scores|
  {
    var ms := seq(|zs|, i requires 0 <= i < |zs| => zs[i].member);
    Collections.DistinctCounts(ms);
    forall m ensures m in Collections.Listed(ms) <==> m in scores {
      if m in scores {
        var i :| 0 <= i < |zs| && zs[i] == Element(m, scores[m]);
        assert ms[i] == m;
      }
    }
    assert Collections.Listed(ms) == scores.Keys;
    assert |scores| == |scores.Keys|;
  }

  /** The members below key: a smaller score, or the same score and a smaller name. */
  ghost function Lower(scores: map<bytes, nat>, key: bytes): set<bytes>
    requires key in scores
  {
    set m | m in scores && ZRank.Below(Element(m, scores[m]), Element(key, scores[key]))
  }

  ghost function AsElements(ms: set<bytes>, scores: map<bytes, nat>): set<Element> {
    set m | m in ms && m in scores :: Element(m, scores[m])
  }

  lemma {:induction false} AsElementsCount(ms: set<bytes>, scores: map<bytes, nat>)
    requires ms <= scores.Keys
    ensures |AsElements(ms, scores)| == |ms|
  {
    if ms != {} {
      var m :| m in ms;
      AsElementsCount(ms - {m}, scores);
      assert AsElements(ms, scores) == AsElements(ms - {m}, scores) + {Element(m, scores[m])};
      assert Element(m, scores[m]) !in AsElements(ms - {m}, scores);
    }
  }

  /** ZRANK and ZREVRANK over the records the commands keep: -1 exactly for absent
      members, and otherwise adding up to the stored length less one. */
  method StoredRanks(ks: seq<bytes>, name: bytes, version: nat, key: bytes, ghost r: ZSets.Records) returns (up: int, down: int)
    requires Ascending(ks) && |name| < U16 && version < U16 && ZSets.Bijection(r) && Files(ks, name, version, r)
    requires |r.scores| <= ZRank.INT_MAX
    ensures up == -1 <==> key !in r.scores
    ensures key !in r.scores ==> down == -1
    ensures key in r.scores ==> up == |Lower(r.scores, key)| && up + down + 1 == |r.scores|
  {
    hide ZRank.Members, Files, Ascending, ZSets.Bijection, ZRank.Smaller, ZRank.Indexed, Lower;
    FiledIndexed(ks, name, version, r);
    FiledMembers(ks, name, version, r);
    ghost var zs := ZRank.Members(ks, name, version);
    up, down := ZRank.BothRanks(ks, name, version, key);
    if key in r.scores {
      ghost var i :| 0 <= i < |zs| && zs[i] == Element(key, r.scores[key]);
      assert zs[i].member == key;
      LowerCount(zs, r.scores, key, zs[up]);
    }
  }

  lemma LowerCount(zs: seq<Element>, scores: map<bytes, nat>, key: bytes, el: Element)
    requires AllProper(Scores, zs) && el in zs && el.member == key && el.score < U64 && key in scores
    requires forall i {:trigger zs[i]} :: 0 <= i < |zs| ==> zs[i].member in scores && scores[zs[i].member] == zs[i].score
    requires forall m :: m in scores ==> Element(m, scores[m]) in zs
    ensures |ZRank.Smaller(zs, el)| == |Lower(scores, key)|
  {
    hide ZRank.Below;
    assert el == Element(key, scores[key]);
    var low := Lower(scores, key);
    AsElementsCount(low, scores);
    forall x ensures x in ZRank.Smaller(zs, el) <==> x in AsElements(low, scores) {
      if x in zs {
        var i :| 0 <= i < |zs| && zs[i] == x;
        assert x == Element(x.member, scores[x.member]);
      }
    }
    assert ZRank.Smaller(zs, el) == AsElements(low, scores);
  }

  // --------------------------------------------------- the writes of the commands

  /** The same on the set of all stored keys. */
  ghost predicate Stores(store: set<bytes>, name: bytes, version: nat, index: set<ZSets.Entry>) {
    && (forall e :: e in index ==> e.score < U64 && Key(name, version, e) in store)
    && (forall k :: k in store && ZRank.HasPrefix(k, ZRank.Prefix(name, version)) ==>
          exists e :: e in index && e.score < U64 && k == Key(name, version, e))
  }

  lemma StoresFiles(ks: seq<bytes>, store: set<bytes>, name: bytes, version: nat, r: ZSets.Records)
    requires (forall k :: k in ks <==> k in store) && Stores(store, name, version, r.index)
    ensures Files(ks, name, version, r)
  {
    hide Key, ZRank.HasPrefix;
    forall i | 0 <= i < |ks| && ZRank.HasPrefix(ks[i], ZRank.Prefix(name, version))
      ensures exists e :: e in r.index && e.score < U64 && ks[i] == Key(name, version, e)
    {
      assert ks[i] in store;
    }
  }

  /** Putting the record of an entry. */
  lemma PutStores(store: set<bytes>, name: bytes, version: nat, index: set<ZSets.Entry>, e: ZSets.Entry)
    requires Stores(store, name, version, index) && e.score < U64
    ensures Stores(store + {Key(name, version, e)}, name, version, index + {e})
  {
    hide Key, ZRank.HasPrefix;
    forall k | k in store + {Key(name, version, e)} && ZRank.HasPrefix(k, ZRank.Prefix(name, version))
      ensures exists x :: x in index + {e} && x.score < U64 && k == Key(name, version, x)
    {
      if k == Key(name, version, e) {
        assert e in index + {e};
      } else {
        var x :| x in index && x.score < U64 && k == Key(name, version, x);
        assert x in index + {e};
      }
    }
  }

  lemma KeyInjective(name: bytes, version: nat, a: ZSets.Entry, b: ZSets.Entry)
    requires |name| < U16 && version < U16 && a.score < U64 && b.score < U64
    requires Key(name, version, a) == Key(name, version, b)
    ensures a == b
  {
    hide Key, Decode;
    KeyDecodes(name, version, a);
    KeyDecodes(name, version, b);
  }

  /** Deleting it. */
  lemma DropStores(store: set<bytes>, name: bytes, version: nat, index: set<ZSets.Entry>, e: ZSets.Entry)
    requires Stores(store, name, version, index) && e.score < U64 && |name| < U16 && version < U16
    ensures Stores(store - {Key(name, version, e)}, name, version, index - {e})
  {
    hide Key, ZRank.HasPrefix;
    var (s', i') := (store - {Key(name, version, e)}, index - {e});
    forall x | x in i' ensures x.score < U64 && Key(name, version, x) in s' {
      if Key(name, version, x) == Key(name, version, e) { KeyInjective(name, version, x, e); }
    }
    forall k | k in s' && ZRank.HasPrefix(k, ZRank.Prefix(name, version))
      ensures exists x :: x in i' && x.score < U64 && k == Key(name, version, x)
    {
      var x :| x in index && x.score < U64 && k == Key(name, version, x);
      assert x in i';
    }
  }

  /** Records of other kinds, keys and versions do not matter. */
  lemma OtherStores(store: set<bytes>, other: set<bytes>, name: bytes, version: nat, index: set<ZSets.Entry>)
    requires Stores(store, name, version, index)
    requires forall k :: ZRank.HasPrefix(k, ZRank.Prefix(name, version)) ==> (k in store <==> k in other)
    requires |name| < U16 && version < U16
    ensures Stores(other, name, version, index)
  {
    hide Key, ZRank.HasPrefix, ZRank.Prefix;
    forall e | e in index ensures Key(name, version, e) in other { KeyHasPrefix(name, version, e); }
  }

  lemma KeyHasPrefix(name: bytes, version: nat, e: ZSets.Entry)
    requires |name| < U16 && version < U16 && e.score < U64
    ensures ZRank.HasPrefix(Key(name, version, e), ZRank.Prefix(name, version))
  {
    hide Key, Decode, ZRank.HasPrefix;
    KeyDecodes(name, version, e);
    ZRank.OwnPrefix(Key(name, version, e), name, version);
  }

  /** The score records that zset_one and zdel_one write: the old one goes, the new one
      comes. */
  ghost function Rewrite(store: set<bytes>, name: bytes, version: nat, key: bytes, was: Option<nat>, now: Option<nat>): set<bytes>
    requires (was.Some? ==> was.value < U64) && (now.Some? ==> now.value < U64)
  {
    var s := if was.Some? then store - {Key(name, version, ZSets.Entry(was.value, key))} else store;
    if now.Some? then s + {Key(name, version, ZSets.Entry(now.value, key))} else s
  }

  lemma {:induction false} BijectionIndex(r: ZSets.Records, t: ZSets.Records, key: bytes)
    requires ZSets.Bijection(r) && ZSets.Bijection(t)
    requires forall m :: m != key ==> ZSets.ScoreOf(t.scores, m) == ZSets.ScoreOf(r.scores, m)
    ensures var (was, now) := (ZSets.ScoreOf(r.scores, key), ZSets.ScoreOf(t.scores, key));
            var i := if was.Some? then r.index - {ZSets.Entry(was.value, key)} else r.index;
            t.index == if now.Some? then i + {ZSets.Entry(now.value, key)} else i
  {
    var (was, now) := (ZSets.ScoreOf(r.scores, key), ZSets.ScoreOf(t.scores, key));
    var i := if was.Some? then r.index - {ZSets.Entry(was.value, key)} else r.index;
    var j := if now.Some? then i + {ZSets.Entry(now.value, key)} else i;
    forall e ensures e in t.index <==> e in j {
      if e.member != key { assert ZSets.ScoreOf(t.scores, e.member) == ZSets.ScoreOf(r.scores, e.member); }
    }
  }

  /** Whatever one ZADD, ZINCRBY or ZREM does to a member, the store keeps filing exactly
      the score records of the zset. */
  lemma RewriteStores(store: set<bytes>, name: bytes, version: nat, r: ZSets.Records, t: ZSets.Records, key: bytes)
    requires |name| < U16 && version < U16 && ZSets.Bijection(r) && ZSets.Bijection(t)
    requires Stores(store, name, version, r.index)
    requires forall m :: m != key ==> ZSets.ScoreOf(t.scores, m) == ZSets.ScoreOf(r.scores, m)
    ensures Stores(Rewrite(store, name, version, key, ZSets.ScoreOf(r.scores, key), ZSets.ScoreOf(t.scores, key)),
                   name, version, t.index)
  {
    hide Stores, Key;
    var (was, now) := (ZSets.ScoreOf(r.scores, key), ZSets.ScoreOf(t.scores, key));
    BijectionIndex(r, t, key);
    var (s, i) := (store, r.index);
    if was.Some? {
      var e := ZSets.Entry(was.value, key);
      DropStores(s, name, version, i, e);
      s, i := s - {Key(name, version, e)}, i - {e};
    }
    if now.Some? { PutStores(s, name, version, i, ZSets.Entry(now.value, key)); }
  }
}
