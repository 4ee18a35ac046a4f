/** Binary keys of src/keycodec.rs and the key ranges of src/index.rs: every key decodes
    to what it was made of, and every range holds exactly the keys it is meant for. */
module KeyCodec {
  import opened Seqs
  import opened Std
  import opened Bytes
  import opened OrderedValues

  const ENTITY_TAG: Byte := 0x45
  const INDEX_TAG: Byte := 0x49
  /** Field id reserved for composite keys; the schema never hands it out. */
  const COMPOSITE_FIELD_MARKER: U32 := 0xFFFF_FFFF

  /** What a stored key means. Codes are ordered encodings of values. */
  datatype Key =
    | Field(cid: U32, eid: ByteString, fid: U32)
    | Index(cid: U32, fid: U32, code: ByteString, eid: ByteString)
    | Composite(cid: U32, ix: U32, codes: seq<ByteString>, eid: ByteString)

  ghost predicate IsCode(code: ByteString) {
    exists v :: code == EncodeOrdered(v)
  }

  /** Entity ids are shorter than 2^32 bytes and index fields are real fields. */
  ghost predicate ValidKey(k: Key) {
    && |k.eid| < U32_LIMIT
    && (k.Index? ==> k.fid != COMPOSITE_FIELD_MARKER && IsCode(k.code))
    && (k.Composite? ==> forall c :: c in k.codes ==> IsCode(c))
  }

  // ---- encoders ----

  function Concat(codes: seq<ByteString>): ByteString {
    if codes == [] then [] else codes[0] + Concat(codes[1..])
  }

  function EntityTail(eid: ByteString): ByteString
    requires |eid| < U32_LIMIT
  {
    Le32(|eid|) + eid
  }

  function CollectionPrefix(cid: U32): ByteString {
    [ENTITY_TAG] + Le32(cid)
  }

  function EntityPrefix(cid: U32, eid: ByteString): ByteString
    requires |eid| < U32_LIMIT
  {
    CollectionPrefix(cid) + EntityTail(eid)
  }

  function IndexFieldPrefix(cid: U32, fid: U32): ByteString {
    [INDEX_TAG] + Le32(cid) + Le32(fid)
  }

  function CompositePrefix(cid: U32, ix: U32): ByteString {
    IndexFieldPrefix(cid, COMPOSITE_FIELD_MARKER) + Le32(ix)
  }

  function EncodeKey(k: Key): ByteString
    requires |k.eid| < U32_LIMIT
  {
    match k
    case Field(cid, eid, fid) => EntityPrefix(cid, eid) + Le32(fid)
    case Index(cid, fid, code, eid) => IndexFieldPrefix(cid, fid) + (code + EntityTail(eid))
    case Composite(cid, ix, codes, eid) => CompositePrefix(cid, ix) + (Concat(codes) + EntityTail(eid))
  }

  // ---- strings with heads of one length ----

  lemma SplitHeads(a: ByteString, s: ByteString, b: ByteString, t: ByteString)
    requires |a| == |b|
    ensures a + s == b + t <==> a == b && s == t
    ensures a + s <= b + t <==> a == b && s <= t
  {
    assert (a + s)[..|a|] == a && (b + t)[..|b|] == b;
    assert (a + s)[|a|..] == s && (b + t)[|b|..] == t;
    if a + s <= b + t {
      assert (b + t)[..|a + s|] == a + s;
      assert (a + s)[..|a|] == (b + t)[..|a|];
      assert s == t[..|s|];
    }
  }

  lemma PrefixOfHead(a: ByteString, b: ByteString, t: ByteString)
    requires |a| == |b|
    ensures a <= b + t <==> a == b
  {
    assert (b + t)[..|a|] == b;
  }

  lemma Le32Injective(a: U32, b: U32)
    ensures Le32(a) == Le32(b) <==> a == b
  {
    Le32RoundTrip(a);
    Le32RoundTrip(b);
  }

  // ---- entity keys ----

  lemma CollectionPrefixExact(cid: U32, c: U32, rest: ByteString)
    ensures CollectionPrefix(cid) <= CollectionPrefix(c) + rest <==> cid == c
  {
    SplitHeads([ENTITY_TAG], Le32(cid), [ENTITY_TAG], Le32(c));
    Le32Injective(cid, c);
    PrefixOfHead(CollectionPrefix(cid), CollectionPrefix(c), rest);
  }

  lemma OtherTag(p: ByteString, k: ByteString)
    requires p != [] && k != [] && p[0] != k[0]
    ensures !(p <= k)
  {
  }

  lemma KeyTag(k: Key)
    requires |k.eid| < U32_LIMIT
    ensures EncodeKey(k) != [] && EncodeKey(k)[0] == if k.Field? then ENTITY_TAG else INDEX_TAG
  {
  }

  /** The scan range of a collection holds exactly its field keys. */
  lemma CollectionRangeExact(cid: U32, k: Key)
    requires |k.eid| < U32_LIMIT
    ensures InRange(EncodeKey(k), Some(CollectionPrefix(cid)), Successor(CollectionPrefix(cid)))
      <==> k.Field? && k.cid == cid
  {
    var p := CollectionPrefix(cid);
    PrefixRangeExact(p, EncodeKey(k));
    if k.Field? {
      Assoc(CollectionPrefix(k.cid), EntityTail(k.eid), Le32(k.fid));
      CollectionPrefixExact(cid, k.cid, EntityTail(k.eid) + Le32(k.fid));
    } else {
      KeyTag(k);
      OtherTag(p, EncodeKey(k));
    }
  }

  lemma EntityTailPrefix(a: ByteString, b: ByteString, rest: ByteString)
    requires |a| < U32_LIMIT && |b| < U32_LIMIT
    ensures EntityTail(a) <= EntityTail(b) + rest <==> a == b
    ensures EntityTail(a) == EntityTail(b) <==> a == b
  {
    Assoc(Le32(|b|), b, rest);
    SplitHeads(Le32(|a|), a, Le32(|b|), b + rest);
    SplitHeads(Le32(|a|), a, Le32(|b|), b);
    Le32Injective(|a|, |b|);
    if |a| == |b| {
      PrefixOfHead(a, b, rest);
    }
  }

  /** The scan range of an entity holds exactly its field keys (src/keycodec.rs:181-185). */
  lemma EntityRangeExact(cid: U32, eid: ByteString, k: Key)
    requires |eid| < U32_LIMIT && |k.eid| < U32_LIMIT
    ensures InRange(EncodeKey(k), Some(EntityPrefix(cid, eid)), Successor(EntityPrefix(cid, eid)))
      <==> k.Field? && k.cid == cid && k.eid == eid
  {
    var p := EntityPrefix(cid, eid);
    PrefixRangeExact(p, EncodeKey(k));
    if k.Field? {
      Assoc(CollectionPrefix(k.cid), EntityTail(k.eid), Le32(k.fid));
      SplitHeads(CollectionPrefix(cid), EntityTail(eid), CollectionPrefix(k.cid), EntityTail(k.eid) + Le32(k.fid));
      SplitHeads([ENTITY_TAG], Le32(cid), [ENTITY_TAG], Le32(k.cid));
      Le32Injective(cid, k.cid);
      EntityTailPrefix(eid, k.eid, Le32(k.fid));
    } else {
      KeyTag(k);
      OtherTag(p, EncodeKey(k));
    }
  }

  // ---- index keys ----

  lemma FieldPrefixInjective(c: U32, f: U32, c': U32, f': U32)
    ensures IndexFieldPrefix(c, f) == IndexFieldPrefix(c', f') <==> c == c' && f == f'
  {
    SplitHeads([INDEX_TAG] + Le32(c), Le32(f), [INDEX_TAG] + Le32(c'), Le32(f'));
    SplitHeads([INDEX_TAG], Le32(c), [INDEX_TAG], Le32(c'));
    Le32Injective(c, c');
    Le32Injective(f, f');
  }

  /** What follows the field prefix in an index or composite key. */
  function BehindField(k: Key): ByteString
    requires !k.Field? && |k.eid| < U32_LIMIT
  {
    match k
    case Index(_, _, code, eid) => code + EntityTail(eid)
    case Composite(_, ix, codes, eid) => Le32(ix) + (Concat(codes) + EntityTail(eid))
  }

  function FieldSlot(k: Key): U32
    requires !k.Field?
  {
    if k.Index? then k.fid else COMPOSITE_FIELD_MARKER
  }

  lemma IndexKeyParts(k: Key)
    requires !k.Field? && |k.eid| < U32_LIMIT
    ensures EncodeKey(k) == IndexFieldPrefix(k.cid, FieldSlot(k)) + BehindField(k)
  {
    if k.Composite? {
      Assoc(IndexFieldPrefix(k.cid, COMPOSITE_FIELD_MARKER), Le32(k.ix), Concat(k.codes) + EntityTail(k.eid));
    }
  }

  /** A field prefix heads exactly the keys of that collection and field slot. */
  lemma FieldPrefixExact(cid: U32, fid: U32, k: Key)
    requires |k.eid| < U32_LIMIT
    ensures IndexFieldPrefix(cid, fid) <= EncodeKey(k) <==> !k.Field? && k.cid == cid && FieldSlot(k) == fid
  {
    if k.Field? {
      KeyTag(k);
      OtherTag(IndexFieldPrefix(cid, fid), EncodeKey(k));
    } else {
      IndexKeyParts(k);
      PrefixOfHead(IndexFieldPrefix(cid, fid), IndexFieldPrefix(k.cid, FieldSlot(k)), BehindField(k));
      FieldPrefixInjective(cid, fid, k.cid, FieldSlot(k));
    }
  }

  /** Composite keys of one index, and no single-field key, share its prefix. */
  lemma CompositePrefixExact(cid: U32, ix: U32, k: Key)
    requires ValidKey(k)
    ensures CompositePrefix(cid, ix) <= EncodeKey(k) <==> k.Composite? && k.cid == cid && k.ix == ix
  {
    FieldPrefixExact(cid, COMPOSITE_FIELD_MARKER, k);
    var f := IndexFieldPrefix(cid, COMPOSITE_FIELD_MARKER);
    if k.Composite? {
      IndexKeyParts(k);
      SplitHeads(f, Le32(ix), IndexFieldPrefix(k.cid, COMPOSITE_FIELD_MARKER), BehindField(k));
      FieldPrefixInjective(cid, COMPOSITE_FIELD_MARKER, k.cid, COMPOSITE_FIELD_MARKER);
      PrefixOfHead(Le32(ix), Le32(k.ix), Concat(k.codes) + EntityTail(k.eid));
      Le32Injective(ix, k.ix);
    } else {
      PrefixShorter(f, Le32(ix), EncodeKey(k));
    }
  }

  lemma PrefixShorter(a: ByteString, b: ByteString, k: ByteString)
    ensures a + b <= k ==> a <= k
  {
    if a + b <= k {
      assert k[..|a|] == (a + b)[..|a|] == a;
    }
  }

  // ---- bounds on values as ranges of codes ----

  /** `Bound` of src/index.rs:32-36. */
  datatype Bound = Unbounded | Inclusive(v: Value) | Exclusive(v: Value)

  /** `within` (src/index.rs:105-118). */
  predicate Within(x: Value, lower: Bound, upper: Bound) {
    && (match lower
        case Unbounded => true
        case Inclusive(v) => ValueCmp(x, v) != Lt
        case Exclusive(v) => ValueCmp(x, v) == Gt)
    && (match upper
        case Unbounded => true
        case Exclusive(v) => ValueCmp(x, v) == Lt
        case Inclusive(v) => ValueCmp(x, v) != Gt)
  }

  /** The first code of a range, relative to what precedes the codes. */
  function LowerCode(lower: Bound): ByteString {
    match lower
    case Unbounded => []
    case Inclusive(v) => EncodeOrdered(v)
    case Exclusive(v) => CodeSuccessor(v)
  }

  /** The end of a range of codes; `None` where only the prefix ends it. */
  function UpperCode(upper: Bound): Option<ByteString> {
    match upper
    case Unbounded => None
    case Exclusive(v) => Some(EncodeOrdered(v))
    case Inclusive(v) => Some(CodeSuccessor(v))
  }

  /** No code consists of 0xFF bytes alone, so every code has a successor. */
  function CodeSuccessor(v: Value): ByteString {
    var s := Successor(EncodeOrdered(v));
    if s.Some? then s.value else []
  }

  lemma {:induction false} SuccessorExists(p: ByteString)
    requires p != [] && p[0] != 0xFF
    ensures Successor(p).Some?
  {
    if p[|p| - 1] == 0xFF {
      SuccessorExists(p[..|p| - 1]);
    }
  }

  lemma {:induction false} SuccessorBehindPrefix(p: ByteString, c: ByteString)
    requires Successor(c).Some?
    ensures Successor(p + c) == Some(p + Successor(c).value)
  {
    var n := |c| - 1;
    assert (p + c)[|p + c| - 1] == c[n] && (p + c)[..|p + c| - 1] == p + c[..n];
    if c[n] != 0xFF {
      assert p + c[..n] + [c[n] + 1] == p + (c[..n] + [c[n] + 1]);
    } else {
      SuccessorBehindPrefix(p, c[..n]);
    }
  }

  /** Against one bound value: where the code of `x` with any tail lies. */
  lemma CodeAgainst(x: Value, v: Value, tail: ByteString)
    ensures AtMost(EncodeOrdered(v), EncodeOrdered(x) + tail) <==> ValueCmp(x, v) != Lt
    ensures Less(EncodeOrdered(x) + tail, CodeSuccessor(v)) <==> ValueCmp(x, v) != Gt
    ensures Successor(EncodeOrdered(v)) == Some(CodeSuccessor(v))
  {
    var c, k := EncodeOrdered(v), EncodeOrdered(x) + tail;
    SuccessorExists(c);
    PrefixRangeExact(c, k);
    PrefixRangeExact(c, c);
    OrderUnderSuffixes(x, v, tail, []);
    OrderUnderSuffixes(v, x, [], tail);
    CmpFlips(x, v);
    assert c + [] == c;
    LessTrichotomy(c, k);
    if ValueCmp(x, v) == Lt {
      LessTransitive(k, c, CodeSuccessor(v));
    } else if ValueCmp(x, v) == Eq {
      OrderEmbedding(x, v);
      assert c <= k;
    } else {
      OrderEmbedding(x, v);
      BelowIsNoPrefix(c, EncodeOrdered(x));
    }
  }

  /** A range of codes contains exactly the values within the bounds, whatever follows. */
  lemma CodeRangeExact(x: Value, lower: Bound, upper: Bound, tail: ByteString)
    ensures InRange(EncodeOrdered(x) + tail, Some(LowerCode(lower)), UpperCode(upper)) <==> Within(x, lower, upper)
  {
    if !lower.Unbounded? {
      CodeAgainst(x, lower.v, tail);
    }
    if !upper.Unbounded? {
      CodeAgainst(x, upper.v, tail);
    }
  }

  /** A range behind a prefix. */
  function RangeBehind(p: ByteString, lower: Bound, upper: Bound): (ByteString, Option<ByteString>) {
    (p + LowerCode(lower), if UpperCode(upper).Some? then Some(p + UpperCode(upper).value) else Successor(p))
  }

  /** Keys without the prefix are outside; behind it only the rest of the key decides. */
  lemma RangeBehindExact(p: ByteString, lower: Bound, upper: Bound, key: ByteString)
    requires p != [] && p[0] != 0xFF
    ensures var (start, end) := RangeBehind(p, lower, upper);
      InRange(key, Some(start), end) <==>
        p <= key && InRange(key[|p|..], Some(LowerCode(lower)), UpperCode(upper))
  {
    var (start, end) := RangeBehind(p, lower, upper);
    SuccessorExists(p);
    PrefixRangeExact(p, key);
    PrefixRangeExact(p, start);
    if UpperCode(upper).Some? {
      PrefixRangeExact(p, end.value);
    }
    if p <= key {
      PrefixSplit(p, key);
      LessBehindPrefix(p, key[|p|..], LowerCode(lower));
      if UpperCode(upper).Some? {
        LessBehindPrefix(p, key[|p|..], UpperCode(upper).value);
      }
    } else {
      LessTrichotomy(key, p);
      AtMostChain(p, start, key);
      if UpperCode(upper).Some? {
        LessChain(key, end.value, Successor(p).value);
      }
    }
  }

  lemma PrefixSplit(p: ByteString, k: ByteString)
    requires p <= k
    ensures k == p + k[|p|..]
  {
  }

  lemma AtMostChain(a: ByteString, b: ByteString, c: ByteString)
    requires AtMost(a, b)
    ensures AtMost(b, c) ==> AtMost(a, c)
  {
    LessTrichotomy(a, b);
    LessTrichotomy(b, c);
    LessTrichotomy(a, c);
    if AtMost(b, c) && Less(c, a) && Less(a, b) {
      LessTransitive(c, a, b);
    }
  }

  lemma LessChain(a: ByteString, b: ByteString, c: ByteString)
    requires Less(b, c)
    ensures Less(a, b) ==> Less(a, c)
  {
    if Less(a, b) {
      LessTransitive(a, b, c);
    }
  }

  // ---- index ranges ----

  /** `index_range` (src/index.rs:64-87). */
  function IndexRange(cid: U32, fid: U32, lower: Bound, upper: Bound): (ByteString, Option<ByteString>) {
    var prefix := IndexFieldPrefix(cid, fid);
    var start := match lower
      case Unbounded => prefix
      case Inclusive(v) => prefix + EncodeOrdered(v)
      case Exclusive(v) =>
        var s := Successor(prefix + EncodeOrdered(v));
        if s.Some? then s.value else prefix;
    var end := match upper
      case Unbounded => Successor(prefix)
      case Exclusive(v) => Some(prefix + EncodeOrdered(v))
      case Inclusive(v) => Successor(prefix + EncodeOrdered(v));
    (start, end)
  }

  lemma IndexRangeIsBehind(cid: U32, fid: U32, lower: Bound, upper: Bound)
    ensures IndexRange(cid, fid, lower, upper) == RangeBehind(IndexFieldPrefix(cid, fid), lower, upper)
  {
    var p := IndexFieldPrefix(cid, fid);
    assert p + [] == p;
    if lower.Exclusive? {
      CodeAgainst(lower.v, lower.v, []);
      SuccessorBehindPrefix(p, EncodeOrdered(lower.v));
    }
    if upper.Inclusive? {
      CodeAgainst(upper.v, upper.v, []);
      SuccessorBehindPrefix(p, EncodeOrdered(upper.v));
    }
  }

  /** An index range holds exactly the index keys of its field whose value is within the
      bounds: no field key, no composite key, no other collection or field. */
  lemma IndexRangeExact(cid: U32, fid: U32, lower: Bound, upper: Bound, k: Key)
    requires ValidKey(k) && fid != COMPOSITE_FIELD_MARKER
    ensures var (start, end) := IndexRange(cid, fid, lower, upper);
      InRange(EncodeKey(k), Some(start), end) <==>
        k.Index? && k.cid == cid && k.fid == fid && CodeWithin(k.code, lower, upper)
  {
    var p := IndexFieldPrefix(cid, fid);
    IndexRangeIsBehind(cid, fid, lower, upper);
    RangeBehindExact(p, lower, upper, EncodeKey(k));
    FieldPrefixExact(cid, fid, k);
    if k.Index? {
      var x :| k.code == EncodeOrdered(x);
      if p <= EncodeKey(k) {
        assert EncodeKey(k)[|p|..] == k.code + EntityTail(k.eid);
      }
      CodeRangeExact(x, lower, upper, EntityTail(k.eid));
      CodeWithinIs(x, lower, upper);
    }
  }

  /** The value that a code stands for is within the bounds. */
  ghost predicate CodeWithin(code: ByteString, lower: Bound, upper: Bound) {
    exists x :: code == EncodeOrdered(x) && Within(x, lower, upper)
  }

  /** All values of one code are within the same bounds. */
  lemma CodeWithinIs(x: Value, lower: Bound, upper: Bound)
    ensures CodeWithin(EncodeOrdered(x), lower, upper) <==> Within(x, lower, upper)
  {
    if CodeWithin(EncodeOrdered(x), lower, upper) {
      var y :| EncodeOrdered(x) == EncodeOrdered(y) && Within(y, lower, upper);
      CodeRangeExact(x, lower, upper, []);
      CodeRangeExact(y, lower, upper, []);
    }
  }

  // ---- composite ranges ----

  /** Bounds of one leading component of a composite index. */
  datatype Lead = Lead(pos: nat, lower: Bound, upper: Bound)

  /** Codes of components that are all bound by equality; `None` if one is not. */
  function EqualityCodes(leads: seq<Lead>): Option<ByteString> {
    if leads == [] then Some([])
    else
      var last := leads[|leads| - 1].lower;
      var before := EqualityCodes(leads[..|leads| - 1]);
      if before.None? || !last.Inclusive? then None else Some(before.value + EncodeOrdered(last.v))
  }

  /** `composite_index_range` (src/index.rs:193-241): equality on all leading components
      but the last, any bounds on the last. */
  method CompositeIndexRange(cid: U32, ix: U32, leads: seq<Lead>) returns (start: ByteString, end: Option<ByteString>)
    ensures var p := CompositePrefix(cid, ix);
      if leads == [] || EqualityCodes(leads[..|leads| - 1]).None? then (start, end) == (p, Successor(p))
      else (start, end) == RangeBehind(p + EqualityCodes(leads[..|leads| - 1]).value,
                                       leads[|leads| - 1].lower, leads[|leads| - 1].upper)
  {
    var prefix := CompositePrefix(cid, ix);
    SuccessorExists(prefix);
    var n := |leads|;
    if n == 0 {
      return prefix, Successor(prefix);
    }
    var eqPrefix := EqualityPrefix(prefix, leads[..n - 1]);
    if eqPrefix.None? {
      return prefix, Successor(prefix);
    }
    start, end := LastComponentRange(eqPrefix.value, leads[n - 1].lower, leads[n - 1].upper);
  }

  /** Appends the codes of the equality components; stops at one that is none. */
  method EqualityPrefix(prefix: ByteString, leads: seq<Lead>) returns (r: Option<ByteString>)
    ensures r.Some? <==> EqualityCodes(leads).Some?
    ensures r.Some? ==> r.value == prefix + EqualityCodes(leads).value
  {
    var out := prefix;
    var i := 0;
    assert prefix + [] == prefix && leads[..0] == [];
    while i < |leads|
      invariant 0 <= i <= |leads|
      invariant EqualityCodes(leads[..i]).Some? && out == prefix + EqualityCodes(leads[..i]).value
    {
      assert leads[..i + 1][..i] == leads[..i];
      if !leads[i].lower.Inclusive? {
        NotAllEqual(leads, i + 1, |leads|);
        assert leads[..|leads|] == leads;
        return None;
      }
      var code := EncodeOrdered(leads[i].lower.v);
      Assoc(prefix, EqualityCodes(leads[..i]).value, code);
      out := out + code;
      i := i + 1;
    }
    assert leads[..i] == leads;
    return Some(out);
  }

  lemma {:induction false} NotAllEqual(leads: seq<Lead>, i: nat, n: nat)
    requires 0 < i <= n <= |leads| && EqualityCodes(leads[..i]).None?
    ensures EqualityCodes(leads[..n]).None?
    decreases n
  {
    if i < n {
      NotAllEqual(leads, i, n - 1);
      assert leads[..n][..n - 1] == leads[..n - 1];
    }
  }

  /** The last component extends both ends of the range. */
  method LastComponentRange(eqPrefix: ByteString, lower: Bound, upper: Bound)
      returns (start: ByteString, end: Option<ByteString>)
    requires eqPrefix != [] && eqPrefix[0] != 0xFF
    ensures (start, end) == RangeBehind(eqPrefix, lower, upper)
  {
    start := eqPrefix;
    match lower {
      case Unbounded => assert eqPrefix + [] == eqPrefix;
      case Inclusive(v) => start := start + EncodeOrdered(v);
      case Exclusive(v) =>
        CodeAgainst(v, v, []);
        var s := Successor(EncodeOrdered(v));
        if s.Some? {
          start := start + s.value;
        }
    }
    match upper {
      case Unbounded =>
        SuccessorExists(eqPrefix);
        end := Successor(eqPrefix);
      case Inclusive(v) =>
        CodeAgainst(v, v, []);
        var s := Successor(EncodeOrdered(v));
        end := Some(eqPrefix + if s.Some? then s.value else []);
      case Exclusive(v) => end := Some(eqPrefix + EncodeOrdered(v));
    }
  }

  /** The leading components of `codes` satisfy the bounds. */
  ghost predicate LeadsMatch(codes: seq<ByteString>, leads: seq<Lead>) {
    |leads| <= |codes| && forall i :: 0 <= i < |leads| ==> CodeWithin(codes[i], leads[i].lower, leads[i].upper)
  }

  /** All components but the last are bound by equality, as the range assumes. */
  predicate EqualityLed(leads: seq<Lead>) {
    forall i :: 0 <= i < |leads| - 1 ==> leads[i].lower.Inclusive? && leads[i].upper == leads[i].lower
  }

  /** Whatever is within the bounds of a component before the last, and starts from an
      inclusive bound, is that bound. */
  ghost predicate Pinned(leads: seq<Lead>) {
    forall i :: 0 <= i < |leads| - 1 && leads[i].lower.Inclusive? ==> PinnedTo(leads[i].lower.v, leads[i].lower, leads[i].upper)
  }

  ghost predicate PinnedTo(v: Value, lower: Bound, upper: Bound) {
    forall x :: Within(x, lower, upper) ==> ValueCmp(x, v) == Eq
  }

  lemma EqualityIsPinned(leads: seq<Lead>)
    requires EqualityLed(leads)
    ensures Pinned(leads)
  {
  }

  lemma CodeEqualIsWithin(code: ByteString, v: Value)
    requires IsCode(code)
    ensures code == EncodeOrdered(v) <==> CodeWithin(code, Inclusive(v), Inclusive(v))
  {
    var x :| code == EncodeOrdered(x);
    OrderEmbedding(x, v);
    CodeWithinIs(x, Inclusive(v), Inclusive(v));
  }

  ghost predicate AllCodes(codes: seq<ByteString>) {
    forall i :: 0 <= i < |codes| ==> IsCode(codes[i])
  }

  lemma CodesSplit(a: ByteString, s: ByteString, b: ByteString, t: ByteString)
    requires IsCode(a) && IsCode(b)
    ensures a + s <= b + t <==> a == b && s <= t
    ensures a + s == b + t <==> a == b && s == t
    ensures a <= b + t <==> a == b
  {
    var x :| a == EncodeOrdered(x);
    var y :| b == EncodeOrdered(y);
    OrderUnderSuffixes(x, y, s, t);
    PrefixShorter(a, s, b + t);
    if a == b {
      SplitHeads(a, s, b, t);
      PrefixOfHead(a, b, t);
    }
  }

  lemma ConcatOne(code: ByteString)
    ensures Concat([code]) == code
  {
    assert Concat([code][1..]) == [];
  }

  lemma {:induction false} ConcatSplits(codes: seq<ByteString>, m: nat)
    requires m <= |codes|
    ensures Concat(codes) == Concat(codes[..m]) + Concat(codes[m..])
  {
    if m == 0 {
      assert codes[..0] == [] && codes[0..] == codes;
    } else {
      ConcatSplits(codes[1..], m - 1);
      assert codes[..m][1..] == codes[1..][..m - 1] && codes[m..] == codes[1..][m - 1..];
      Assoc(codes[0], Concat(codes[1..][..m - 1]), Concat(codes[m..]));
    }
  }

  /** Equal lists of codes are the only ones that head each other's concatenation. */
  lemma {:induction false} ConcatPrefixFree(a: seq<ByteString>, b: seq<ByteString>, t: ByteString)
    requires |a| == |b| && AllCodes(a) && AllCodes(b)
    ensures Concat(a) <= Concat(b) + t <==> a == b
  {
    if a != [] {
      Assoc(b[0], Concat(b[1..]), t);
      CodesSplit(a[0], Concat(a[1..]), b[0], Concat(b[1..]) + t);
      ConcatPrefixFree(a[1..], b[1..], t);
      assert a == [a[0]] + a[1..] && b == [b[0]] + b[1..];
    }
  }

  function EqualityList(leads: seq<Lead>): (codes: seq<ByteString>)
    requires forall i :: 0 <= i < |leads| ==> leads[i].lower.Inclusive?
    ensures |codes| == |leads| && forall i :: 0 <= i < |codes| ==> codes[i] == EncodeOrdered(leads[i].lower.v)
  {
    seq(|leads|, i requires 0 <= i < |leads| => EncodeOrdered(leads[i].lower.v))
  }

  lemma {:induction false} EqualityCodesAre(leads: seq<Lead>)
    requires forall i :: 0 <= i < |leads| ==> leads[i].lower.Inclusive?
    ensures EqualityCodes(leads) == Some(Concat(EqualityList(leads)))
  {
    if leads != [] {
      var n := |leads| - 1;
      var all := EqualityList(leads);
      EqualityCodesAre(leads[..n]);
      assert all[..n] == EqualityList(leads[..n]) && all[n..] == [all[n]];
      ConcatSplits(all, n);
      ConcatOne(all[n]);
    }
  }

  /** The composite range holds exactly the keys of the index whose leading components
      satisfy the bounds: equality on all but the last, any range on the last. */
  lemma CompositeRangeExact(cid: U32, ix: U32, leads: seq<Lead>, k: Key)
    requires ValidKey(k) && leads != [] && EqualityLed(leads)
    requires k.Composite? && k.cid == cid && k.ix == ix ==> |k.codes| >= |leads|
    ensures var n := |leads| - 1;
      && EqualityCodes(leads[..n]).Some?
      && var (start, end) := RangeBehind(CompositePrefix(cid, ix) + EqualityCodes(leads[..n]).value,
                                         leads[n].lower, leads[n].upper);
         InRange(EncodeKey(k), Some(start), end) <==>
           k.Composite? && k.cid == cid && k.ix == ix && LeadsMatch(k.codes, leads)
  {
    var n := |leads| - 1;
    var eqs := EqualityList(leads[..n]);
    var p := CompositePrefix(cid, ix);
    EqualityCodesAre(leads[..n]);
    RangeBehindExact(p + Concat(eqs), leads[n].lower, leads[n].upper, EncodeKey(k));
    CompositePrefixExact(cid, ix, k);
    if k.Composite? && k.cid == cid && k.ix == ix {
      BehindEqualities(p, eqs, k.codes, EntityTail(k.eid), leads[n].lower, leads[n].upper);
      LeadsSplit(k.codes, leads);
    } else {
      PrefixShorter(p, Concat(eqs), EncodeKey(k));
    }
  }

  /** Keys that satisfy pinned bounds are in the range. */
  lemma CompositeRangeCovers(cid: U32, ix: U32, leads: seq<Lead>, k: Key)
    requires ValidKey(k) && leads != [] && Pinned(leads)
    requires forall i :: 0 <= i < |leads| - 1 ==> leads[i].lower.Inclusive?
    requires k.Composite? && k.cid == cid && k.ix == ix && LeadsMatch(k.codes, leads)
    ensures var n := |leads| - 1;
      && EqualityCodes(leads[..n]).Some?
      && var (start, end) := RangeBehind(CompositePrefix(cid, ix) + EqualityCodes(leads[..n]).value,
                                         leads[n].lower, leads[n].upper);
         InRange(EncodeKey(k), Some(start), end)
  {
    var n := |leads| - 1;
    var eqs := EqualityList(leads[..n]);
    var p := CompositePrefix(cid, ix);
    EqualityCodesAre(leads[..n]);
    RangeBehindExact(p + Concat(eqs), leads[n].lower, leads[n].upper, EncodeKey(k));
    forall i | 0 <= i < n ensures k.codes[i] == eqs[i] {
      PinnedCode(k.codes[i], leads[i]);
    }
    assert k.codes[..n] == eqs;
    BehindEqualities(p, eqs, k.codes, EntityTail(k.eid), leads[n].lower, leads[n].upper);
  }

  lemma PinnedCode(code: ByteString, lead: Lead)
    requires lead.lower.Inclusive? && PinnedTo(lead.lower.v, lead.lower, lead.upper)
    requires CodeWithin(code, lead.lower, lead.upper)
    ensures code == EncodeOrdered(lead.lower.v)
  {
    var x :| code == EncodeOrdered(x) && Within(x, lead.lower, lead.upper);
    OrderEmbedding(x, lead.lower.v);
  }

  lemma {:induction false} AllInclusive(leads: seq<Lead>)
    ensures EqualityCodes(leads).Some? <==> forall i :: 0 <= i < |leads| ==> leads[i].lower.Inclusive?
  {
    if leads != [] {
      var n := |leads| - 1;
      AllInclusive(leads[..n]);
      assert forall i :: 0 <= i < n ==> leads[..n][i] == leads[i];
    }
  }

  lemma LeadsSplit(codes: seq<ByteString>, leads: seq<Lead>)
    requires leads != [] && EqualityLed(leads) && |leads| <= |codes| && forall c :: c in codes ==> IsCode(c)
    ensures var n := |leads| - 1;
      LeadsMatch(codes, leads) <==>
        codes[..n] == EqualityList(leads[..n]) && CodeWithin(codes[n], leads[n].lower, leads[n].upper)
  {
    var n := |leads| - 1;
    var eqs := EqualityList(leads[..n]);
    forall i | 0 <= i < n ensures codes[i] == eqs[i] <==> CodeWithin(codes[i], leads[i].lower, leads[i].upper) {
      assert codes[i] in codes;
      CodeEqualIsWithin(codes[i], leads[i].lower.v);
    }
    if LeadsMatch(codes, leads) {
      assert forall i :: 0 <= i < n ==> codes[..n][i] == eqs[i];
    } else if codes[..n] == eqs {
      assert forall i :: 0 <= i < n ==> codes[i] == codes[..n][i];
    }
  }

  lemma BehindEqualities(p: ByteString, eqs: seq<ByteString>, codes: seq<ByteString>, tail: ByteString,
                         lower: Bound, upper: Bound)
    requires |eqs| < |codes| && AllCodes(eqs) && forall c :: c in codes ==> IsCode(c)
    ensures var n, key := |eqs|, p + (Concat(codes) + tail);
      var q := p + Concat(eqs);
      && (q <= key <==> codes[..n] == eqs)
      && (q <= key ==> (InRange(key[|q|..], Some(LowerCode(lower)), UpperCode(upper)) <==>
                          CodeWithin(codes[n], lower, upper)))
  {
    var n := |eqs|;
    var rest := Concat(codes[n..]) + tail;
    forall i | 0 <= i < |codes| ensures IsCode(codes[i]) {
      assert codes[i] in codes;
    }
    ConcatSplits(codes, n);
    Assoc(Concat(codes[..n]), Concat(codes[n..]), tail);
    SplitHeads(p, Concat(eqs), p, Concat(codes) + tail);
    ConcatPrefixFree(eqs, codes[..n], rest);
    if eqs == codes[..n] {
      DropHeads(p, Concat(eqs), rest);
      Assoc(codes[n], Concat(codes[n + 1..]), tail);
      assert codes[n..][0] == codes[n] && codes[n..][1..] == codes[n + 1..];
      var x :| codes[n] == EncodeOrdered(x);
      CodeRangeExact(x, lower, upper, Concat(codes[n + 1..]) + tail);
      CodeWithinIs(x, lower, upper);
    }
  }

  lemma DropHeads(p: ByteString, a: ByteString, rest: ByteString)
    ensures (p + (a + rest))[|p + a|..] == rest
  {
  }

  // ---- decoders ----

  function U32At(b: ByteString, off: nat): U32
    requires off + 4 <= |b|
  {
    FromLittleEndianBound(b[off..off + 4]);
    Pow256Values();
    FromLittleEndian(b[off..off + 4])
  }

  /** `decode_entity_key` (src/keycodec.rs:135-151). */
  function DecodeEntityKey(key: ByteString): Option<(U32, ByteString, U32)> {
    if |key| < 13 || key[0] != ENTITY_TAG then None
    else
      var n := U32At(key, 5);
      if 9 + n + 4 > |key| then None else Some((U32At(key, 1), key[9..9 + n], U32At(key, 9 + n)))
  }

  /** `decode_index_key` (src/keycodec.rs:42-64): the code's own length leads to the id. */
  function DecodeIndexKey(key: ByteString): Option<(U32, U32, ByteString)> {
    if |key| < 13 || key[0] != INDEX_TAG then None
    else
      var len := CodeLen(key[9..]);
      if len.None? || 9 + len.value + 4 > |key| then None
      else
        var off := 9 + len.value + 4;
        var n := U32At(key, 9 + len.value);
        if off + n > |key| then None else Some((U32At(key, 1), U32At(key, 5), key[off..off + n]))
  }

  /** Splits off `n` codes; `None` where one of them is damaged. */
  function TakeCodes(b: ByteString, n: nat): Option<(seq<ByteString>, ByteString)> {
    if n == 0 then Some(([], b))
    else
      var len := CodeLen(b);
      if len.None? then None
      else
        var rest := TakeCodes(b[len.value..], n - 1);
        if rest.None? then None else Some(([b[..len.value]] + rest.value.0, rest.value.1))
  }

  /** The part of `decode_composite_key_value` before the codes are decoded
      (src/index.rs:244-280). */
  function DecodeCompositeKey(key: ByteString, n: nat): Option<(seq<ByteString>, ByteString)> {
    if |key| < 17 || key[0] != INDEX_TAG || U32At(key, 5) != COMPOSITE_FIELD_MARKER then None
    else
      var codes := TakeCodes(key[13..], n);
      if codes.None? then None else DecodeTail(codes.value.0, codes.value.1)
  }

  function DecodeTail(codes: seq<ByteString>, rest: ByteString): Option<(seq<ByteString>, ByteString)> {
    if |rest| < 4 then None
    else
      var len := U32At(rest, 0);
      if 4 + len > |rest| then None else Some((codes, rest[4..4 + len]))
  }

  lemma U32Reads(a: ByteString, u: U32, rest: ByteString)
    ensures U32At(a + (Le32(u) + rest), |a|) == u
    ensures (a + (Le32(u) + rest))[|a| + 4..] == rest
  {
    Le32RoundTrip(u);
    assert (a + (Le32(u) + rest))[|a|..|a| + 4] == Le32(u);
  }

  lemma EntityKeyDecodes(k: Key)
    requires k.Field? && |k.eid| < U32_LIMIT
    ensures DecodeEntityKey(EncodeKey(k)) == Some((k.cid, k.eid, k.fid))
  {
    var head := [ENTITY_TAG];
    var key := EncodeKey(k);
    var tail := Le32(k.fid);
    Assoc(CollectionPrefix(k.cid), EntityTail(k.eid), tail);
    Assoc(head, Le32(k.cid), EntityTail(k.eid) + tail);
    U32Reads(head, k.cid, EntityTail(k.eid) + tail);
    Assoc(Le32(|k.eid|), k.eid, tail);
    U32Reads(CollectionPrefix(k.cid), |k.eid|, k.eid + tail);
    assert key[9..9 + |k.eid|] == key[9..][..|k.eid|] == k.eid;
    assert tail + [] == tail;
    U32Reads(EntityPrefix(k.cid, k.eid), k.fid, []);
  }

  lemma IndexHeadDecodes(cid: U32, fid: U32, rest: ByteString)
    ensures var key := IndexFieldPrefix(cid, fid) + rest;
      U32At(key, 1) == cid && U32At(key, 5) == fid && key[9..] == rest && key[0] == INDEX_TAG
  {
    var head := [INDEX_TAG];
    Assoc(head + Le32(cid), Le32(fid), rest);
    U32Reads(head + Le32(cid), fid, rest);
    Assoc(head, Le32(cid), Le32(fid) + rest);
    U32Reads(head, cid, Le32(fid) + rest);
  }

  lemma TailDecodes(a: ByteString, eid: ByteString)
    requires |eid| < U32_LIMIT
    ensures var b := a + EntityTail(eid);
      U32At(b, |a|) == |eid| && b[|a| + 4..|a| + 4 + |eid|] == eid && |b| == |a| + 4 + |eid|
  {
    U32Reads(a, |eid|, eid);
    var b := a + EntityTail(eid);
    assert b[|a| + 4..|a| + 4 + |eid|] == b[|a| + 4..];
  }

  lemma IndexKeyDecodes(k: Key)
    requires k.Index? && ValidKey(k)
    ensures DecodeIndexKey(EncodeKey(k)) == Some((k.cid, k.fid, k.eid))
    ensures CodeLen(EncodeKey(k)[9..]) == Some(|k.code|)
    ensures EncodeKey(k)[9..9 + |k.code|] == k.code
  {
    var v :| k.code == EncodeOrdered(v);
    var p := IndexFieldPrefix(k.cid, k.fid);
    IndexHeadDecodes(k.cid, k.fid, k.code + EntityTail(k.eid));
    CodeLenExact(v, EntityTail(k.eid));
    Assoc(p, k.code, EntityTail(k.eid));
    TailDecodes(p + k.code, k.eid);
    assert EncodeKey(k)[9..9 + |k.code|] == EncodeKey(k)[9..][..|k.code|] == k.code;
  }

  lemma {:induction false} TakeCodesOfConcat(codes: seq<ByteString>, rest: ByteString)
    requires AllCodes(codes)
    ensures TakeCodes(Concat(codes) + rest, |codes|) == Some((codes, rest))
  {
    if codes == [] {
      assert [] + rest == rest;
    } else {
      var v :| codes[0] == EncodeOrdered(v);
      var more := Concat(codes[1..]) + rest;
      Assoc(codes[0], Concat(codes[1..]), rest);
      CodeLenExact(v, more);
      TakeCodesOfConcat(codes[1..], rest);
      assert (codes[0] + more)[|codes[0]|..] == more && (codes[0] + more)[..|codes[0]|] == codes[0];
      assert [codes[0]] + codes[1..] == codes;
    }
  }

  lemma CompositeKeyDecodes(k: Key)
    requires k.Composite? && ValidKey(k)
    ensures DecodeCompositeKey(EncodeKey(k), |k.codes|) == Some((k.codes, k.eid))
  {
    var rest := Concat(k.codes) + EntityTail(k.eid);
    IndexKeyParts(k);
    IndexHeadDecodes(k.cid, COMPOSITE_FIELD_MARKER, Le32(k.ix) + rest);
    U32Reads(IndexFieldPrefix(k.cid, COMPOSITE_FIELD_MARKER), k.ix, rest);
    forall i | 0 <= i < |k.codes| ensures IsCode(k.codes[i]) {
      assert k.codes[i] in k.codes;
    }
    TakeCodesOfConcat(k.codes, EntityTail(k.eid));
    TailDecodes([], k.eid);
    assert [] + EntityTail(k.eid) == EntityTail(k.eid);
  }

  /** Different keys have different bytes; composite keys of one index have one arity. */
  lemma EncodeKeyInjective(a: Key, b: Key)
    requires ValidKey(a) && ValidKey(b) && EncodeKey(a) == EncodeKey(b)
    requires a.Composite? && b.Composite? && a.cid == b.cid && a.ix == b.ix ==> |a.codes| == |b.codes|
    ensures a == b
  {
    KeyTag(a);
    KeyTag(b);
    if a.Field? {
      EntityKeyDecodes(a);
      EntityKeyDecodes(b);
    } else {
      IndexKeyParts(a);
      IndexKeyParts(b);
      SplitHeads(IndexFieldPrefix(a.cid, FieldSlot(a)), BehindField(a), IndexFieldPrefix(b.cid, FieldSlot(b)), BehindField(b));
      FieldPrefixInjective(a.cid, FieldSlot(a), b.cid, FieldSlot(b));
      if a.Index? {
        IndexKeyDecodes(a);
        IndexKeyDecodes(b);
      } else {
        SplitHeads(Le32(a.ix), Concat(a.codes) + EntityTail(a.eid), Le32(b.ix), Concat(b.codes) + EntityTail(b.eid));
        Le32Injective(a.ix, b.ix);
        CompositeKeyDecodes(a);
        CompositeKeyDecodes(b);
      }
    }
  }

  // ---- keys byte by byte, with small numbers and short ids ----

  lemma TailBytes(eid: ByteString)
    requires |eid| < 256
    ensures EntityTail(eid) == [|eid|, 0, 0, 0] + eid
  {
    SmallNumber(|eid|);
  }

  lemma FieldKeyBytes(cid: Byte, fid: Byte, eid: ByteString)
    requires |eid| < 256
    ensures EncodeKey(Field(cid, eid, fid)) == [0x45, cid, 0, 0, 0, |eid|, 0, 0, 0] + eid + [fid, 0, 0, 0]
  {
    SmallNumber(cid);
    SmallNumber(fid);
    TailBytes(eid);
    Assoc(CollectionPrefix(cid), [|eid|, 0, 0, 0], eid);
    assert CollectionPrefix(cid) + [|eid|, 0, 0, 0] == [0x45, cid, 0, 0, 0, |eid|, 0, 0, 0];
  }

  lemma IndexKeyBytes(cid: Byte, fid: Byte, code: ByteString, eid: ByteString)
    requires |eid| < 256
    ensures EncodeKey(Index(cid, fid, code, eid)) == [0x49, cid, 0, 0, 0, fid, 0, 0, 0] + code + [|eid|, 0, 0, 0] + eid
  {
    SmallNumber(cid);
    SmallNumber(fid);
    TailBytes(eid);
    Regroup(IndexFieldPrefix(cid, fid), code, [|eid|, 0, 0, 0], eid);
    assert IndexFieldPrefix(cid, fid) == [0x49, cid, 0, 0, 0, fid, 0, 0, 0];
  }

  lemma CompositeKeyBytes(cid: Byte, ix: Byte, codes: seq<ByteString>, eid: ByteString)
    requires |eid| < 256
    ensures EncodeKey(Composite(cid, ix, codes, eid)) ==
      [0x49, cid, 0, 0, 0, 0xFF, 0xFF, 0xFF, 0xFF, ix, 0, 0, 0] + Concat(codes) + [|eid|, 0, 0, 0] + eid
  {
    SmallNumber(cid);
    SmallNumber(ix);
    TailBytes(eid);
    LittleEndianFour(COMPOSITE_FIELD_MARKER);
    Regroup(CompositePrefix(cid, ix), Concat(codes), [|eid|, 0, 0, 0], eid);
    assert CompositePrefix(cid, ix) == [0x49, cid, 0, 0, 0, 0xFF, 0xFF, 0xFF, 0xFF, ix, 0, 0, 0];
  }
}
