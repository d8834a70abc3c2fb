/** t_keys.cpp: DUMP writes a whole object, RESTORE rebuilds it. */
module DumpRestore {
  import opened Bytes
  import opened Sequences
  import opened Options
  import opened Errors
  import opened RdbFormat
  import opened Rdb
  import LzfFormat

  const RDB_TYPE_STRING: byte := 0

  datatype Kind = List | Set | Hash | ZSet

  /** RDB_TYPE_LIST, RDB_TYPE_SET, RDB_TYPE_HASH and RDB_TYPE_ZSET_2. */
  function TypeByte(kind: Kind): byte {
    match kind
    case List => 1
    case Set => 2
    case Hash => 4
    case ZSet => 5
  }

  datatype Elem = One(s: bytes) | Pair(field: bytes, val: bytes) | Scored(member: bytes, bits: nat)

  /** An object as the iterators deliver it and the callbacks take it back. */
  datatype Object = Str(s: bytes) | Coll(kind: Kind, elems: seq<Elem>)

  /** Strings that may be compressed stay below 4 GiB. */
  ghost predicate ProperElem(kind: Kind, e: Elem) {
    match kind
    case List => e.One? && |e.s| < U32
    case Set => e.One? && |e.s| < RDB_LENERR
    case Hash => e.Pair? && |e.field| < RDB_LENERR && |e.val| < RDB_LENERR
    case ZSet => e.Scored? && |e.member| < RDB_LENERR && e.bits < U64
  }

  ghost predicate Proper(o: Object) {
    match o
    case Str(s) => |s| < U32
    case Coll(kind, elems) =>
      |elems| < RDB_LENERR && forall i {:trigger elems[i]} :: 0 <= i < |elems| ==> ProperElem(kind, elems[i])
  }

  // ------------------------------------------------------ what the payload says

  /** An element and an object as far as the decoder knows them. */
  datatype Outline = OneOf(s: Part) | PairOf(field: Part, val: Part) | ScoredOf(member: Part, bits: nat)
  {
    predicate Whole() {
      match this
      case OneOf(s) => s.Whole()
      case PairOf(field, val) => field.Whole() && val.Whole()
      case ScoredOf(member, _) => member.Whole()
    }
    predicate Covers(e: Elem) {
      match this
      case OneOf(s) => e.One? && s.Covers(e.s)
      case PairOf(field, val) => e.Pair? && field.Covers(e.field) && val.Covers(e.val)
      case ScoredOf(member, bits) => e.Scored? && member.Covers(e.member) && bits == e.bits
    }
    function Known(): Elem {
      match this
      case OneOf(s) => One(s.known)
      case PairOf(field, val) => Pair(field.known, val.known)
      case ScoredOf(member, bits) => Scored(member.known, bits)
    }
  }

  function Outlined(e: Elem): Outline {
    match e
    case One(s) => OneOf(Exactly(s))
    case Pair(field, val) => PairOf(Exactly(field), Exactly(val))
    case Scored(member, bits) => ScoredOf(Exactly(member), bits)
  }

  datatype Sketch = StrOf(s: Part) | CollOf(kind: Kind, outlines: seq<Outline>)
  {
    predicate Whole() {
      match this
      case StrOf(s) => s.Whole()
      case CollOf(_, outlines) => forall i :: 0 <= i < |outlines| ==> outlines[i].Whole()
    }
    predicate Covers(o: Object) {
      match this
      case StrOf(s) => o.Str? && s.Covers(o.s)
      case CollOf(kind, outlines) => o.Coll? && o.kind == kind && CoverAll(outlines, o.elems)
    }
    function Known(): Object {
      match this
      case StrOf(s) => Str(s.known)
      case CollOf(kind, outlines) => Coll(kind, seq(|outlines|, i requires 0 <= i < |outlines| => outlines[i].Known()))
    }
  }

  predicate CoverAll(outlines: seq<Outline>, elems: seq<Elem>) {
    |elems| == |outlines| && forall i :: 0 <= i < |elems| ==> outlines[i].Covers(elems[i])
  }

  function OutlineAll(elems: seq<Elem>): seq<Outline> {
    seq(|elems|, i requires 0 <= i < |elems| => Outlined(elems[i]))
  }

  datatype TakenElem = TakenElem(outline: Outline, rest: bytes)

  function TakeElem(kind: Kind, b: bytes): Option<TakenElem> {
    match TakeString(b)
    case None => None
    case Some(t) =>
      match kind
      case List => Some(TakenElem(OneOf(t.part), t.rest))
      case Set => Some(TakenElem(OneOf(t.part), t.rest))
      case Hash =>
        (match TakeString(t.rest)
         case None => None
         case Some(v) => Some(TakenElem(PairOf(t.part, v.part), v.rest)))
      case ZSet =>
        if |t.rest| < 8 then None
        else Some(TakenElem(ScoredOf(t.part, FromLE(t.rest[..8])), t.rest[8..]))
  }

  datatype TakenElems = TakenElems(outlines: seq<Outline>, rest: bytes)

  /** n elements, one after another. */
  function TakeElems(kind: Kind, b: bytes, n: nat): Option<TakenElems> {
    if n == 0 then Some(TakenElems([], b)) else
    match TakeElems(kind, b, n - 1)
    case None => None
    case Some(l) =>
      match TakeElem(kind, l.rest)
      case None => None
      case Some(x) => Some(TakenElems(l.outlines + [x.outline], x.rest))
  }

  function KindOf(t: byte): Option<Kind> {
    if t == 1 then Some(List) else if t == 2 then Some(Set) else if t == 4 then Some(Hash)
    else if t == 5 then Some(ZSet) else None
  }

  /** What the decoder makes of a payload body, if it accepts it. */
  function TakeObject(b: bytes): Option<Sketch> {
    if b == [] then None
    else if b[0] == RDB_TYPE_STRING then
      match TakeString(b[1..])
      case None => None
      case Some(t) => Some(StrOf(t.part))
    else
      match KindOf(b[0])
      case None => None
      case Some(kind) => TakeCollection(kind, b[1..])
  }

  function TakeCollection(kind: Kind, b: bytes): Option<Sketch> {
    match LoadLen(b)
    case None => None
    case Some(l) =>
      if l.n == RDB_LENERR then None else
      match TakeElems(kind, l.rest, l.n)
      case None => None
      case Some(x) => Some(CollOf(kind, x.outlines))
  }

  /** The object a payload body stands for: it must say every byte of it. */
  function LoadObject(b: bytes): Option<Object> {
    match TakeObject(b)
    case None => None
    case Some(sketch) => if sketch.Whole() then Some(sketch.Known()) else None
  }

  /** A sketch that says every byte covers one object. */
  lemma CoversKnown(sketch: Sketch, o: Object)
    requires sketch.Whole() && sketch.Covers(o)
    ensures o == sketch.Known()
  {
    match sketch
    case StrOf(s) => WholeCovers(s, o.s);
    case CollOf(_, outlines) =>
      forall i | 0 <= i < |outlines| ensures o.elems[i] == outlines[i].Known() {
        ElemKnown(outlines[i], o.elems[i]);
      }
  }

  lemma ElemKnown(outline: Outline, e: Elem)
    requires outline.Whole() && outline.Covers(e)
    ensures e == outline.Known()
  {
    match outline
    case OneOf(s) => WholeCovers(s, e.s);
    case PairOf(field, val) =>
      WholeCovers(field, e.field);
      WholeCovers(val, e.val);
    case ScoredOf(member, _) => WholeCovers(member, e.member);
  }

  ghost predicate EncodesElem(kind: Kind, code: bytes, e: Elem) {
    forall rest :: TakeElem(kind, code + rest) == Some(TakenElem(Outlined(e), rest))
  }

  ghost predicate EncodesElems(kind: Kind, code: bytes, elems: seq<Elem>) {
    forall rest :: TakeElems(kind, code + rest, |elems|) == Some(TakenElems(OutlineAll(elems), rest))
  }

  lemma EncodesNone(kind: Kind)
    ensures EncodesElems(kind, [], [])
  {
    hide TakeElem;
    assert OutlineAll([]) == [];
    forall rest: bytes ensures TakeElems(kind, [] + rest, 0) == Some(TakenElems(OutlineAll([]), rest)) {
      NoPrefix(rest);
    }
  }

  lemma NoPrefix(rest: bytes)
    ensures [] + rest == rest
  {}

  lemma OutlineMore(elems: seq<Elem>, e: Elem)
    ensures OutlineAll(elems + [e]) == OutlineAll(elems) + [Outlined(e)]
  {}

  lemma EncodesNext(kind: Kind, code: bytes, elems: seq<Elem>, c: bytes, e: Elem)
    requires EncodesElems(kind, code, elems) && EncodesElem(kind, c, e)
    ensures EncodesElems(kind, code + c, elems + [e])
  {
    hide TakeElem, OutlineAll;
    OutlineMore(elems, e);
    forall rest ensures TakeElems(kind, (code + c) + rest, |elems| + 1) == Some(TakenElems(OutlineAll(elems + [e]), rest)) {
      Associative(code, c, rest);
      assert TakeElems(kind, code + (c + rest), |elems|) == Some(TakenElems(OutlineAll(elems), c + rest));
      assert TakeElem(kind, c + rest) == Some(TakenElem(Outlined(e), rest));
    }
  }

  lemma OneEncodes(kind: Kind, code: bytes, s: bytes)
    requires Encodes(code, s) && (kind == List || kind == Set)
    ensures EncodesElem(kind, code, One(s))
  {
    hide TakeString;
  }

  lemma PairEncodes(a: bytes, field: bytes, b: bytes, val: bytes)
    requires Encodes(a, field) && Encodes(b, val)
    ensures EncodesElem(Hash, a + b, Pair(field, val))
  {
    hide TakeString;
    forall rest ensures TakeElem(Hash, (a + b) + rest) == Some(TakenElem(Outlined(Pair(field, val)), rest)) {
      Associative(a, b, rest);
      assert TakeString(a + (b + rest)) == Some(Taken(Exactly(field), b + rest));
      assert TakeString(b + rest) == Some(Taken(Exactly(val), rest));
    }
  }

  lemma ScoredEncodes(a: bytes, member: bytes, bits: nat)
    requires Encodes(a, member) && bits < U64
    ensures EncodesElem(ZSet, a + LE(bits, 8), Scored(member, bits))
  {
    hide TakeString, LE, FromLE;
    Pow256Values();
    LERoundTrip(bits, 8);
    var d := LE(bits, 8);
    forall rest ensures TakeElem(ZSet, (a + d) + rest) == Some(TakenElem(Outlined(Scored(member, bits)), rest)) {
      Associative(a, d, rest);
      assert TakeString(a + (d + rest)) == Some(Taken(Exactly(member), d + rest));
      assert (d + rest)[..8] == d && (d + rest)[8..] == rest;
    }
  }

  // --------------------------------------------------------- the payload by its bytes

  /** code spells e: a list element in any form of a string, the others verbatim, a hash
      as field and value, a zset as member and the eight bytes of its score. */
  ghost predicate SpeltElem(kind: Kind, e: Elem, code: bytes)
    requires ProperElem(kind, e)
  {
    match kind
    case List => Encodes(code, e.s)
    case Set => code == Verbatim(e.s)
    case Hash => code == Verbatim(e.field) + Verbatim(e.val)
    case ZSet => code == Verbatim(e.member) + LE(e.bits, 8)
  }

  ghost predicate ProperElems(kind: Kind, elems: seq<Elem>) {
    forall i {:trigger elems[i]} :: 0 <= i < |elems| ==> ProperElem(kind, elems[i])
  }

  /** The elements, one after another. */
  ghost predicate Spelt(kind: Kind, elems: seq<Elem>, code: bytes)
    requires ProperElems(kind, elems)
  {
    if elems == [] then code == [] else
    var n := |elems| - 1;
    exists a, b :: code == a + b && Spelt(kind, elems[..n], a) && SpeltElem(kind, elems[n], b)
  }

  lemma SpeltNext(kind: Kind, elems: seq<Elem>, e: Elem, a: bytes, b: bytes)
    requires ProperElems(kind, elems) && ProperElem(kind, e) && Spelt(kind, elems, a) && SpeltElem(kind, e, b)
    ensures ProperElems(kind, elems + [e]) && Spelt(kind, elems + [e], a + b)
  {
    hide ProperElem, SpeltElem;
    assert (elems + [e])[..|elems|] == elems;
  }

  /** What is spelt is read back. */
  lemma SpeltElemEncodes(kind: Kind, e: Elem, code: bytes)
    requires ProperElem(kind, e) && SpeltElem(kind, e, code)
    ensures EncodesElem(kind, code, e)
  {
    hide Encodes, EncodesElem, Verbatim;
    match kind
    case List => OneEncodes(kind, code, e.s);
    case Set =>
      VerbatimEncodes(e.s);
      OneEncodes(kind, code, e.s);
    case Hash =>
      VerbatimEncodes(e.field);
      VerbatimEncodes(e.val);
      PairEncodes(Verbatim(e.field), e.field, Verbatim(e.val), e.val);
    case ZSet =>
      VerbatimEncodes(e.member);
      ScoredEncodes(Verbatim(e.member), e.member, e.bits);
  }

  lemma {:induction false} SpeltEncodes(kind: Kind, elems: seq<Elem>, code: bytes)
    requires ProperElems(kind, elems) && Spelt(kind, elems, code)
    ensures EncodesElems(kind, code, elems)
    decreases |elems|
  {
    hide EncodesElem, EncodesElems, ProperElem, SpeltElem;
    if elems == [] {
      EncodesNone(kind);
    } else {
      var n := |elems| - 1;
      var a, b :| code == a + b && Spelt(kind, elems[..n], a) && SpeltElem(kind, elems[n], b);
      SpeltEncodes(kind, elems[..n], a);
      SpeltElemEncodes(kind, elems[n], b);
      EncodesNext(kind, a, elems[..n], b, elems[n]);
      assert elems[..n] + [elems[n]] == elems;
    }
  }

  /** The body of a payload: type byte, length, elements. */
  lemma BodyLoads(kind: Kind, elems: seq<Elem>, code: bytes)
    requires ProperElems(kind, elems) && |elems| < RDB_LENERR && Spelt(kind, elems, code)
    ensures var t: byte := match kind case List => 1 case Set => 2 case Hash => 4 case ZSet => 5;
            LoadObject([t] + (SaveLen(|elems|) + code)) == Some(Coll(kind, elems))
  {
    hide LoadObject, Spelt, ProperElems, EncodesElems, SaveLen;
    SpeltEncodes(kind, elems, code);
    CollectionBody(kind, code, elems);
  }

  // ------------------------------------------------------------------------ DUMP

  method WriteElem(encoder: DumpEncoder, kind: Kind, e: Elem) returns (ghost code: bytes)
    requires ProperElem(kind, e)
    modifies encoder
    ensures encoder.w == old(encoder.w) + code && EncodesElem(kind, code, e) && SpeltElem(kind, e, code)
  {
    hide Encodes, EncodesElem, Verbatim;
    match kind {
      case List =>
        code := encoder.WriteString(e.s);
      case Set =>
        encoder.WriteVerbatim(e.s);
        code := Verbatim(e.s);
      case Hash =>
        encoder.WriteVerbatim(e.field);
        encoder.WriteVerbatim(e.val);
        Associative(old(encoder.w), Verbatim(e.field), Verbatim(e.val));
        code := Verbatim(e.field) + Verbatim(e.val);
      case ZSet =>
        encoder.WriteVerbatim(e.member);
        encoder.WriteDouble(e.bits);
        Associative(old(encoder.w), Verbatim(e.member), LE(e.bits, 8));
        code := Verbatim(e.member) + LE(e.bits, 8);
    }
    SpeltElemEncodes(kind, e, code);
  }

  method WriteElems(encoder: DumpEncoder, kind: Kind, elems: seq<Elem>) returns (ghost code: bytes)
    requires ProperElems(kind, elems)
    modifies encoder
    ensures encoder.w == old(encoder.w) + code && Spelt(kind, elems, code)
  {
    hide EncodesElem, ProperElem, SpeltElem;
    code := [];
    assert elems[..0] == [];
    for i := 0 to |elems|
      invariant encoder.w == old(encoder.w) + code && Spelt(kind, elems[..i], code)
    {
      ghost var c := WriteElem(encoder, kind, elems[i]);
      SpeltNext(kind, elems[..i], elems[i], code, c);
      assert elems[..i] + [elems[i]] == elems[..i + 1];
      Associative(old(encoder.w), code, c);
      code := code + c;
    }
    assert elems[..|elems|] == elems;
  }

  lemma StringBody(code: bytes, s: bytes)
    requires Encodes(code, s)
    ensures LoadObject([RDB_TYPE_STRING] + code) == Some(Str(s))
  {
    hide TakeString;
    var b := [RDB_TYPE_STRING] + code;
    assert b[1..] == code && code + [] == code;
  }

  lemma CollectionBody(kind: Kind, code: bytes, elems: seq<Elem>)
    requires EncodesElems(kind, code, elems) && |elems| < RDB_LENERR
    ensures LoadObject([TypeByte(kind)] + (SaveLen(|elems|) + code)) == Some(Coll(kind, elems))
  {
    hide TakeElems, SaveLen, LoadLen, TakeString;
    var b := [TypeByte(kind)] + (SaveLen(|elems|) + code);
    assert b[1..] == SaveLen(|elems|) + code;
    LenRoundTrip(|elems|, code);
    assert code + [] == code;
    assert KindOf(b[0]) == Some(kind);
    assert TakeObject(b) == Some(CollOf(kind, OutlineAll(elems)));
    assert forall i :: 0 <= i < |elems| ==> Outlined(elems[i]).Known() == elems[i];
    assert CollOf(kind, OutlineAll(elems)).Known().elems == elems;
  }

  method WriteCollection(encoder: DumpEncoder, kind: Kind, elems: seq<Elem>, length: nat)
    returns (ret: int, ghost code: bytes)
    requires Proper(Coll(kind, elems)) && length < U64 && encoder.w == []
    modifies encoder
    ensures if |elems| != length then ret == MKEY_DECODEC_ERR
            else ret == 1 && encoder.w == [TypeByte(kind)] + (SaveLen(|elems|) + code) && Spelt(kind, elems, code)
  {
    hide SaveLen, ProperElem, Spelt;
    encoder.WriteRaw([TypeByte(kind)]);
    encoder.WriteLen(length);
    code := WriteElems(encoder, kind, elems);
    if |elems| != length { return MKEY_DECODEC_ERR, code; }
    Associative([TypeByte(kind)], SaveLen(length), code);
    return 1, code;
  }

  /** dump and rdbSaveObject. The stored length is written ahead of the elements
      and must turn out to count them. */
  method Dump(o: Object, length: nat, compression: bool, crc: bytes -> nat)
    returns (ret: int, data: bytes, ghost code: bytes)
    requires Proper(o) && length < U64
    ensures if o.Coll? && |o.elems| != length then ret == MKEY_DECODEC_ERR
            else ret == 1 && Intact(data, crc) && LoadObject(data[..|data| - 10]) == Some(o)
    ensures ret == 1 ==> |data| > 10 && data[|data| - 10..] == [8, 0] + LE(crc(data[..|data| - 8]), 8)
    ensures ret == 1 && o.Str? ==> data[..|data| - 10] == [0] + code && Encodes(code, o.s)
    ensures ret == 1 && o.Coll? ==>
              && data[0] == (match o.kind case List => 1 case Set => 2 case Hash => 4 case ZSet => 5)
              && data[1..|data| - 10] == SaveLen(|o.elems|) + code
              && ProperElems(o.kind, o.elems) && Spelt(o.kind, o.elems, code)
  {
    hide Encodes, LoadObject, ProperElem, Intact, Sealed, Spelt, SaveLen;
    var encoder := new DumpEncoder(compression);
    if o.Str? {
      encoder.WriteRaw([RDB_TYPE_STRING]);
      code := encoder.WriteString(o.s);
      StringBody(code, o.s);
      assert encoder.w == [RDB_TYPE_STRING] + code;
    } else {
      ret, code := WriteCollection(encoder, o.kind, o.elems, length);
      if ret < 0 { return ret, [], code; }
      BodyLoads(o.kind, o.elems, code);
    }
    ghost var body := encoder.w;
    SealedIsIntact(body, crc);
    SealedBytes(body, crc);
    encoder.WriteFooter(crc);
    IntactSize(encoder.w, crc);
    assert encoder.w[1..|encoder.w| - 10] == body[1..];
    return 1, encoder.w, code;
  }

  lemma SealedBytes(body: bytes, crc: bytes -> nat)
    requires body != []
    ensures var p := Sealed(body, crc);
            && |p| == |body| + 10 && p[..|body|] == body && p[0] == body[0] && p[1..|body|] == body[1..]
            && p[|body|..] == [8, 0] + LE(crc(p[..|body| + 2]), 8)
  {
    hide LE;
    var (p, b) := (Sealed(body, crc), body + [8, 0]);
    assert p[..|body| + 2] == b;
  }

  lemma IntactSize(p: bytes, crc: bytes -> nat)
    requires Intact(p, crc)
    ensures |p| >= 10
  {}

  // --------------------------------------------------------------------- RESTORE

  method ReadElem(decoder: RdbDecoder, kind: Kind) returns (ok: bool, e: Elem)
    modifies decoder
    ensures ok == TakeElem(kind, old(decoder.p)).Some?
    ensures ok ==> var t := TakeElem(kind, old(decoder.p)).value; t.rest == decoder.p && t.outline.Covers(e)
  {
    hide TakeString;
    var s, v, bits;
    e := One([]);
    ok, s := decoder.ReadString();
    if !ok { return false, e; }
    match kind
    case List => e := One(s);
    case Set => e := One(s);
    case Hash =>
      ok, v := decoder.ReadString();
      if !ok { return false, e; }
      e := Pair(s, v);
    case ZSet =>
      ok, bits := decoder.ReadDouble();
      if !ok { return false, e; }
      e := Scored(s, bits);
  }

  /** The callbacks of the LIST, SET, HASH and ZSET_2 branches, called until the
      length is used up. */
  method ReadElems(decoder: RdbDecoder, kind: Kind, len: nat) returns (ok: bool, elems: seq<Elem>)
    modifies decoder
    ensures ok == TakeElems(kind, old(decoder.p), len).Some?
    ensures ok ==> CoverAll(TakeElems(kind, old(decoder.p), len).value.outlines, elems)
  {
    hide TakeElem;
    elems := [];
    ghost var b := decoder.p;
    for i := 0 to len
      invariant TakeElems(kind, b, i).Some? && TakeElems(kind, b, i).value.rest == decoder.p
      invariant CoverAll(TakeElems(kind, b, i).value.outlines, elems)
    {
      var e;
      ok, e := ReadElem(decoder, kind);
      if !ok {
        TakeElemsPrefix(kind, b, i + 1, len);
        return false, [];
      }
      elems := elems + [e];
    }
    return true, elems;
  }

  lemma {:induction false} TakeElemsPrefix(kind: Kind, b: bytes, i: nat, n: nat)
    requires i <= n && TakeElems(kind, b, i).None?
    ensures TakeElems(kind, b, n).None?
    decreases n
  {
    hide TakeElem;
    if i < n { TakeElemsPrefix(kind, b, i, n - 1); }
  }

  /** What restore makes of a payload body: an object with the bytes the payload says,
      exactly if the decoder accepts it; and the object the payload stands for, unless
      the payload says less than the whole of it. */
  ghost predicate Rebuilds(b: bytes, o: Option<Object>) {
    && (o.Some? <==> TakeObject(b).Some?)
    && (o.Some? ==> TakeObject(b).value.Covers(o.value))
    && (o != LoadObject(b) <==> TakeObject(b).Some? && !TakeObject(b).value.Whole())
  }

  lemma RebuildsCovered(b: bytes, o: Option<Object>)
    requires o.Some? <==> TakeObject(b).Some?
    requires o.Some? ==> TakeObject(b).value.Covers(o.value)
    ensures Rebuilds(b, o)
  {
    hide TakeObject;
    if o.Some? && TakeObject(b).value.Whole() { CoversKnown(TakeObject(b).value, o.value); }
  }

  /** The switch of restore over a verified payload. */
  method ReadObject(decoder: RdbDecoder) returns (o: Option<Object>)
    modifies decoder
    ensures o.Some? <==> TakeObject(old(decoder.p)).Some?
    ensures o.Some? ==> TakeObject(old(decoder.p)).value.Covers(o.value)
    ensures o.Some? ==> old(decoder.p) != [] && match old(decoder.p)[0]
                                                case 0 => o.value.Str?
                                                case 1 => o.value.Coll? && o.value.kind == List
                                                case 2 => o.value.Coll? && o.value.kind == Set
                                                case 4 => o.value.Coll? && o.value.kind == Hash
                                                case 5 => o.value.Coll? && o.value.kind == ZSet
                                                case _ => false
  {
    hide TakeString, TakeElems, LoadLen;
    var ok, t := decoder.Read(1);
    if !ok { return None; }
    if t[0] == RDB_TYPE_STRING {
      var s;
      ok, s := decoder.ReadString();
      if !ok { return None; }
      return Some(Str(s));
    }
    var kind := KindOf(t[0]);
    if kind.None? { return None; }
    var encoded, len, elems;
    ok, encoded, len := decoder.ReadLen();
    if !ok || len == RDB_LENERR { return None; }
    ok, elems := ReadElems(decoder, kind.value, len);
    if !ok { return None; }
    return Some(Coll(kind.value, elems));
  }

  /** restore, up to the point where the elements are stored. */
  method Restore(data: bytes, crc: bytes -> nat) returns (o: Option<Object>)
    ensures !Intact(data, crc) ==> o == None
    ensures Intact(data, crc) && |data| >= 10 ==> Rebuilds(data[..|data| - 10], o)
    ensures o.Some? ==> |data| > 10 && match data[0]
                                       case 0 => o.value.Str?
                                       case 1 => o.value.Coll? && o.value.kind == List
                                       case 2 => o.value.Coll? && o.value.kind == Set
                                       case 4 => o.value.Coll? && o.value.kind == Hash
                                       case 5 => o.value.Coll? && o.value.kind == ZSet
                                       case _ => false
  {
    hide Intact, TakeObject, Rebuilds;
    var decoder := new RdbDecoder(data);
    var ok := decoder.Verify(crc);
    if !ok { return None; }
    ghost var b := decoder.p;
    IntactSize(data, crc);
    o := ReadObject(decoder);
    RebuildsCovered(b, o);
  }

  /** Would restore get an object out of the payload? */
  ghost predicate Accepted(data: bytes, crc: bytes -> nat) {
    Intact(data, crc) && |data| >= 10 && TakeObject(data[..|data| - 10]).Some?
  }

  /** An empty hash, set or zset is not stored; an empty list is. */
  predicate Keeps(o: Object) { o.Str? || o.kind == List || o.elems != [] }

  /** The command on a key: REPLACE commits the deletion of the old value before the
      payload is looked at. A failing RESTORE loses the old value if and only if it came
      to that. */
  method RestoreKey(was: Option<Object>, replace: bool, expire: int, data: bytes, crc: bytes -> nat)
    returns (ret: int, now: Option<Object>)
    ensures ret >= 0 <==> expire >= 0 && (was.None? || replace) && Accepted(data, crc)
    ensures ret < 0 && now != was <==> was.Some? && replace && expire >= 0 && !Accepted(data, crc)
    ensures ret < 0 && now != was ==> now == None
    ensures ret >= 0 ==> var sketch := TakeObject(data[..|data| - 10]).value;
                         exists o :: sketch.Covers(o) && now == if Keeps(o) then Some(o) else None
    ensures ret >= 0 ==> if now.Some? then ret == 1 && (now.value.Coll? && now.value.elems == [] ==> data[0] == 1)
                         else ret == 0 && |data| > 10 && (data[0] == 2 || data[0] == 4 || data[0] == 5)
  {
    hide Intact, TakeObject, LoadObject;
    if expire < 0 { return INVALID_EX_TIME, was; }
    now := was;
    if was.Some? {
      if !replace { return BUSY_KEY_EXISTS, was; }
      now := None;
    }
    var o := Restore(data, crc);
    if Intact(data, crc) { IntactSize(data, crc); }
    if o.None? { return if Intact(data, crc) then -1 else INVALID_DUMP_STR, now; }
    now := if Keeps(o.value) then o else None;
    return if Keeps(o.value) then 1 else 0, now;
  }

  /** A string announced with nine bytes whose compressed data give one: the payload
      stands for nothing. */
  lemma ShortBlobTaken()
    ensures TakeObject([0, 0xc3, 2, 9, 0, 97]) == Some(StrOf(Part([97], 9)))
    ensures LoadObject([0, 0xc3, 2, 9, 0, 97]) == None
  {
    hide LzfFormat.Decode, FromBE;
    var b: bytes := [0, 0xc3, 2, 9, 0, 97];
    var (b1, b2, b3, b4) := (b[1..], b[1..][1..], b[1..][1..][1..], b[1..][1..][1..][1..]);
    assert b4 == [0, 97];
    assert LoadLen(b1) == Some(Len(true, 3, b2)) && LoadLen(b2) == Some(Len(false, 2, b3)) && LoadLen(b3) == Some(Len(false, 9, b4));
    assert b4[..2] == b4;
    OneLiteral();
  }

  lemma OneLiteral()
    ensures LzfFormat.Decode([0, 97], [], 9) == LzfFormat.Done([97])
  {
    assert LzfFormat.FirstToken([0, 97], [], 9) == LzfFormat.Emit(2, [97]);
    assert [0, 97][2..] == [];
  }

  /** RESTORE takes it all the same, for a string of nine bytes of which one was said. */
  method ShortBlobRestored(crc: bytes -> nat) returns (o: Option<Object>)
    ensures o.Some? && o.value.Str? && |o.value.s| == 9 && o.value.s[0] == 97
    ensures LoadObject([0, 0xc3, 2, 9, 0, 97]) == None
  {
    hide Intact, Sealed, TakeObject, LoadObject;
    var body: bytes := [0, 0xc3, 2, 9, 0, 97];
    ShortBlobTaken();
    SealedIsIntact(body, crc);
    IntactSize(Sealed(body, crc), crc);
    o := Restore(Sealed(body, crc), crc);
    assert StrOf(Part([97], 9)).Covers(o.value);
  }

  /** Rebuilding any object from the bytes of its dump yields the same object:
      element order and score bits included. */
  method DumpThenRestore(o: Object, length: nat, compression: bool, crc: bytes -> nat) returns (back: Option<Object>)
    requires Proper(o) && length < U64 && (o.Coll? ==> length == |o.elems|)
    ensures back == Some(o)
  {
    hide TakeObject, Intact, ProperElem;
    var ret, data, code := Dump(o, length, compression, crc);
    IntactSize(data, crc);
    back := Restore(data, crc);
  }
}
