/** Entities and the maintenance of their secondary indexes (src/entity.rs). */
module Entities {
  import opened Std
  import opened Bytes
  import opened OrderedValues
  import opened KeyCodec
  import opened Store

  /** Field values of one entity, by field id. */
  type Fields = map<U32, Value>

  /** A composite index of the collection: its id and its fields, two or more. */
  datatype CompDef = CompDef(ix: U32, fids: seq<U32>)

  /** The READY indexes of one collection (src/entity.rs:441-461). */
  datatype Defs = Defs(single: seq<U32>, comps: seq<CompDef>)

  predicate DistinctIx(comps: seq<CompDef>) {
    forall i, j :: 0 <= i < j < |comps| ==> comps[i].ix != comps[j].ix
  }

  /** Field ids are real ones, index ids are distinct, arities are those of the store. */
  ghost predicate DefsOk(defs: Defs, cid: U32, arity: Arity) {
    && (forall f :: f in defs.single ==> f != COMPOSITE_FIELD_MARKER)
    && DistinctIx(defs.comps)
    && (forall d :: d in defs.comps ==> |d.fids| >= 2 && |d.fids| == arity(cid, d.ix))
  }

  // ---- what the store says about an entity ----

  predicate IsFieldOf(k: Key, cid: U32, eid: ByteString) {
    k.Field? && k.cid == cid && k.eid == eid
  }

  function FieldsOf(s: Kv, cid: U32, eid: ByteString): (fs: Fields)
    ensures forall f :: f in fs <==> Field(cid, eid, f) in s && s[Field(cid, eid, f)].Val?
    ensures forall f :: f in fs ==> fs[f] == s[Field(cid, eid, f)].v
  {
    var fs := map k | k in s && IsFieldOf(k, cid, eid) && s[k].Val? :: k.fid := s[k].v;
    assert forall f :: Field(cid, eid, f) in s && s[Field(cid, eid, f)].Val? ==> Field(cid, eid, f).fid in fs;
    fs
  }

  function IndexKey(cid: U32, eid: ByteString, fid: U32, v: Value): Key {
    Index(cid, fid, EncodeOrdered(v), eid)
  }

  /** All components of the tuple are present. */
  predicate Complete(fs: Fields, fids: seq<U32>) {
    forall i :: 0 <= i < |fids| ==> fids[i] in fs
  }

  function Tuple(fs: Fields, fids: seq<U32>): (t: seq<Value>)
    requires Complete(fs, fids)
    ensures |t| == |fids| && forall i :: 0 <= i < |t| ==> t[i] == fs[fids[i]]
  {
    seq(|fids|, i requires 0 <= i < |fids| => fs[fids[i]])
  }

  function Codes(vs: seq<Value>): (cs: seq<ByteString>)
    ensures |cs| == |vs| && forall i :: 0 <= i < |cs| ==> cs[i] == EncodeOrdered(vs[i])
  {
    seq(|vs|, i requires 0 <= i < |vs| => EncodeOrdered(vs[i]))
  }

  function CompKey(cid: U32, eid: ByteString, d: CompDef, fs: Fields): Key
    requires Complete(fs, d.fids)
  {
    Composite(cid, d.ix, Codes(Tuple(fs, d.fids)), eid)
  }

  /** No live value of an indexed field is without its index entry. */
  ghost predicate Covers(s: Kv, single: seq<U32>, cid: U32) {
    forall k :: k in s && k.Field? && k.cid == cid && k.fid in single && s[k].Val?
      ==> IndexKey(cid, k.eid, k.fid, s[k].v) in s
  }

  /** The keys that an entity owns: its fields and its entries in every READY index. */
  predicate Owned(k: Key, defs: Defs, cid: U32, eid: ByteString) {
    && k.cid == cid && k.eid == eid
    && (k.Index? ==> k.fid in defs.single)
    && (k.Composite? ==> exists i :: 0 <= i < |defs.comps| && defs.comps[i].ix == k.ix)
  }

  /** Index entries an entity with fields `fs` is to have. */
  ghost predicate Wanted(k: Key, defs: Defs, fs: Fields) {
    match k
    case Field(_, _, f) => f in fs
    case Index(_, f, code, _) => f in fs && code == EncodeOrdered(fs[f])
    case Composite(_, ix, codes, _) =>
      exists i :: 0 <= i < |defs.comps| && HasTuple(defs.comps[i], ix, codes, fs)
  }

  predicate HasTuple(d: CompDef, ix: U32, codes: seq<ByteString>, fs: Fields) {
    d.ix == ix && Complete(fs, d.fids) && codes == Codes(Tuple(fs, d.fids))
  }

  /** Single-field and composite entries of an entity are exactly the wanted ones. */
  ghost predicate ExactFor(s: Kv, defs: Defs, cid: U32, eid: ByteString) {
    forall k :: Owned(k, defs, cid, eid) ==> (k in s <==> Wanted(k, defs, FieldsOf(s, cid, eid)))
  }

  // ---- the index diff of a put ----

  /** `old.get(fid) != Some(value)`, with the equality of the language. */
  predicate Changed(was: Fields, fid: U32, v: Value) {
    !(fid in was && RustEq(was[fid], v))
  }

  /** `nowtuple != old_tuple` over optional components. */
  predicate TupleChanged(was: Fields, now: Fields, fids: seq<U32>) {
    exists i :: 0 <= i < |fids| && !SameComponent(was, now, fids[i])
  }

  predicate SameComponent(was: Fields, now: Fields, fid: U32) {
    if fid in now then fid in was && RustEq(now[fid], was[fid]) else fid !in was
  }

  function NewIndexKeys(defs: Defs, cid: U32, eid: ByteString, was: Fields, now: Fields): (keys: set<Key>)
    ensures forall k :: k in keys ==> k.Index? && k.cid == cid && k.eid == eid
  {
    set f | f in now && f in defs.single && Changed(was, f, now[f]) :: IndexKey(cid, eid, f, now[f])
  }

  function NewCompKeys(comps: seq<CompDef>, cid: U32, eid: ByteString, was: Fields, now: Fields): (keys: set<Key>)
    ensures forall k :: k in keys ==> k.Composite? && k.cid == cid && k.eid == eid
  {
    set d | d in comps && TupleChanged(was, now, d.fids) && Complete(now, d.fids) :: CompKey(cid, eid, d, now)
  }

  function OldIndexKeys(defs: Defs, cid: U32, eid: ByteString, was: Fields, now: Fields): (keys: set<Key>)
    ensures forall k :: k in keys ==> k.Index? && k.cid == cid && k.eid == eid
  {
    set f | f in was && f in defs.single && !(f in now && RustEq(now[f], was[f])) :: IndexKey(cid, eid, f, was[f])
  }

  function OldCompKeys(comps: seq<CompDef>, cid: U32, eid: ByteString, was: Fields, now: Fields): (keys: set<Key>)
    ensures forall k :: k in keys ==> k.Composite? && k.cid == cid && k.eid == eid
  {
    set d | d in comps && TupleChanged(was, now, d.fids) && Complete(was, d.fids) :: CompKey(cid, eid, d, was)
  }

  function StaleKeys(cid: U32, eid: ByteString, was: Fields, now: Fields): (keys: set<Key>)
    ensures forall k :: k in keys <==> IsFieldOf(k, cid, eid) && k.fid in was && k.fid !in now
  {
    var keys := set f | f in was && f !in now :: Field(cid, eid, f);
    assert forall k :: IsFieldOf(k, cid, eid) && k.fid in was && k.fid !in now ==> Field(cid, eid, k.fid) in keys;
    keys
  }

  function Empties(keys: set<Key>): Kv {
    map k | k in keys :: Empty
  }

  function FieldMap(cid: U32, eid: ByteString, fs: Fields): (s: Kv)
    ensures forall k :: k in s <==> IsFieldOf(k, cid, eid) && k.fid in fs
    ensures forall k :: k in s ==> IsFieldOf(k, cid, eid) && k.fid in fs && s[k] == Val(fs[k.fid])
  {
    var keys := set f | f in fs :: Field(cid, eid, f);
    map k | k in keys :: Val(fs[k.fid])
  }

  /** After phase 1: the new index entries are there, the entity is still the old one. */
  function Indexed(s: Kv, defs: Defs, cid: U32, eid: ByteString, now: Fields): Kv {
    var was := FieldsOf(s, cid, eid);
    s + Empties(NewIndexKeys(defs, cid, eid, was, now)) + Empties(NewCompKeys(defs.comps, cid, eid, was, now))
  }

  /** After phase 2: the entity is the new one. */
  function Rewritten(s: Kv, defs: Defs, cid: U32, eid: ByteString, now: Fields): Kv {
    Indexed(s, defs, cid, eid, now) - StaleKeys(cid, eid, FieldsOf(s, cid, eid), now) + FieldMap(cid, eid, now)
  }

  /** After phase 3: the entries of old values are gone. */
  function Replaced(s: Kv, defs: Defs, cid: U32, eid: ByteString, now: Fields): Kv {
    var was := FieldsOf(s, cid, eid);
    Rewritten(s, defs, cid, eid, now)
      - OldIndexKeys(defs, cid, eid, was, now) - OldCompKeys(defs.comps, cid, eid, was, now)
  }

  // ---- what a put leaves behind ----

  lemma AtSteps(s: Kv, a: set<Key>, b: set<Key>, stale: set<Key>, fields: Kv, c: set<Key>, d: set<Key>, k: Key)
    ensures At(s + Empties(a) + Empties(b) - stale + fields - c - d, k) ==
      if k in c || k in d then None
      else if k in fields then Some(fields[k])
      else if k in stale then None
      else if k in a || k in b then Some(Empty)
      else At(s, k)
  {
  }

  /** Key by key, what the three phases amount to. */
  lemma ReplacedAt(s: Kv, defs: Defs, cid: U32, eid: ByteString, now: Fields, k: Key)
    ensures var was := FieldsOf(s, cid, eid);
      At(Replaced(s, defs, cid, eid, now), k) ==
        if IsFieldOf(k, cid, eid) then
          if k.fid in now then Some(Val(now[k.fid])) else if k.fid in was then None else At(s, k)
        else if k in OldIndexKeys(defs, cid, eid, was, now) || k in OldCompKeys(defs.comps, cid, eid, was, now) then None
        else if k in NewIndexKeys(defs, cid, eid, was, now) || k in NewCompKeys(defs.comps, cid, eid, was, now) then Some(Empty)
        else At(s, k)
  {
    var was := FieldsOf(s, cid, eid);
    AtSteps(s, NewIndexKeys(defs, cid, eid, was, now), NewCompKeys(defs.comps, cid, eid, was, now),
            StaleKeys(cid, eid, was, now), FieldMap(cid, eid, now),
            OldIndexKeys(defs, cid, eid, was, now), OldCompKeys(defs.comps, cid, eid, was, now), k);
  }

  /** The entity has exactly the written fields. */
  lemma FieldsReplaced(s: Kv, defs: Defs, cid: U32, eid: ByteString, now: Fields)
    requires forall f :: Field(cid, eid, f) in s ==> s[Field(cid, eid, f)].Val?
    ensures FieldsOf(Replaced(s, defs, cid, eid, now), cid, eid) == now
  {
    forall f ensures HasField(Replaced(s, defs, cid, eid, now), cid, eid, f, now) {
      ReplacedAt(s, defs, cid, eid, now, Field(cid, eid, f));
    }
    FieldsFrom(Replaced(s, defs, cid, eid, now), cid, eid, now);
  }

  ghost predicate HasField(r: Kv, cid: U32, eid: ByteString, f: U32, now: Fields) {
    At(r, Field(cid, eid, f)) == if f in now then Some(Val(now[f])) else None
  }

  lemma FieldsFrom(r: Kv, cid: U32, eid: ByteString, now: Fields)
    requires forall f :: HasField(r, cid, eid, f, now)
    ensures FieldsOf(r, cid, eid) == now
  {
    forall f ensures f in FieldsOf(r, cid, eid) <==> f in now
      ensures f in now ==> FieldsOf(r, cid, eid)[f] == now[f]
    {
      assert HasField(r, cid, eid, f, now);
    }
  }

  /** Keys of other entities and of other indexes are untouched. */
  lemma OthersUntouched(s: Kv, defs: Defs, cid: U32, eid: ByteString, now: Fields, k: Key)
    requires !Owned(k, defs, cid, eid)
    ensures At(Replaced(s, defs, cid, eid, now), k) == At(s, k)
  {
    var was := FieldsOf(s, cid, eid);
    ReplacedAt(s, defs, cid, eid, now, k);
    forall d | d in defs.comps ensures exists i :: 0 <= i < |defs.comps| && defs.comps[i].ix == d.ix {
      var i :| 0 <= i < |defs.comps| && defs.comps[i] == d;
    }
    assert k !in NewIndexKeys(defs, cid, eid, was, now) && k !in OldIndexKeys(defs, cid, eid, was, now);
    assert k !in NewCompKeys(defs.comps, cid, eid, was, now) && k !in OldCompKeys(defs.comps, cid, eid, was, now);
  }

  lemma IndexEntryAfter(s: Kv, defs: Defs, cid: U32, eid: ByteString, now: Fields, f: U32, code: ByteString)
    requires f in defs.single
    ensures var was, k := FieldsOf(s, cid, eid), Index(cid, f, code, eid);
      k in Replaced(s, defs, cid, eid, now) <==>
        && (k in s || (f in now && Changed(was, f, now[f]) && code == EncodeOrdered(now[f])))
        && !(f in was && !(f in now && RustEq(now[f], was[f])) && code == EncodeOrdered(was[f]))
  {
    var was, k := FieldsOf(s, cid, eid), Index(cid, f, code, eid);
    ReplacedAt(s, defs, cid, eid, now, k);
    IndexKeysAre(defs, cid, eid, was, now, f, code);
  }

  lemma IndexKeysAre(defs: Defs, cid: U32, eid: ByteString, was: Fields, now: Fields, f: U32, code: ByteString)
    requires f in defs.single
    ensures var k := Index(cid, f, code, eid);
      && (k in NewIndexKeys(defs, cid, eid, was, now) <==>
            f in now && Changed(was, f, now[f]) && code == EncodeOrdered(now[f]))
      && (k in OldIndexKeys(defs, cid, eid, was, now) <==>
            f in was && !(f in now && RustEq(now[f], was[f])) && code == EncodeOrdered(was[f]))
  {
    var k := Index(cid, f, code, eid);
    if f in now && Changed(was, f, now[f]) && code == EncodeOrdered(now[f]) {
      assert k == IndexKey(cid, eid, f, now[f]);
    }
    if f in was && !(f in now && RustEq(now[f], was[f])) && code == EncodeOrdered(was[f]) {
      assert k == IndexKey(cid, eid, f, was[f]);
    }
  }

  /** A field value whose old and new version the language and the codes compare differently. */
  predicate SingleTrap(was: Fields, now: Fields, f: U32) {
    f in was && f in now && FloatTrap(was[f], now[f])
  }

  /** The single-field entries of field `f` end up exact unless the value is a trap. */
  lemma IndexEntryExact(s: Kv, defs: Defs, cid: U32, eid: ByteString, now: Fields, f: U32, code: ByteString)
    requires f in defs.single && ExactFor(s, defs, cid, eid) && !SingleTrap(FieldsOf(s, cid, eid), now, f)
    ensures Index(cid, f, code, eid) in Replaced(s, defs, cid, eid, now) <==> f in now && code == EncodeOrdered(now[f])
  {
    var was, k := FieldsOf(s, cid, eid), Index(cid, f, code, eid);
    IndexEntryAfter(s, defs, cid, eid, now, f, code);
    assert Owned(k, defs, cid, eid);
    assert k in s <==> f in was && code == EncodeOrdered(was[f]);
    if f in was && f in now {
      EqualityAgrees(was[f], now[f]);
      EqualityAgrees(now[f], was[f]);
    }
  }

  /** A trapped value leaves its index wrong: the entry of the new value is missing. */
  lemma TrapLosesEntry(s: Kv, defs: Defs, cid: U32, eid: ByteString, now: Fields, f: U32)
    requires f in defs.single && ExactFor(s, defs, cid, eid) && SingleTrap(FieldsOf(s, cid, eid), now, f)
    ensures IndexKey(cid, eid, f, now[f]) !in Replaced(s, defs, cid, eid, now)
  {
    var was := FieldsOf(s, cid, eid);
    var k := IndexKey(cid, eid, f, now[f]);
    IndexEntryAfter(s, defs, cid, eid, now, f, EncodeOrdered(now[f]));
    assert Owned(k, defs, cid, eid);
    assert k in s <==> EncodeOrdered(now[f]) == EncodeOrdered(was[f]);
    EqualityAgrees(was[f], now[f]);
  }

  /** One entity with one indexed field, exact. */
  function OneValue(cid: U32, eid: ByteString, f: U32, v: Value): Kv {
    map[Field(cid, eid, f) := Val(v), IndexKey(cid, eid, f, v) := Empty]
  }

  lemma OneValueExact(cid: U32, eid: ByteString, f: U32, v: Value)
    ensures FieldsOf(OneValue(cid, eid, f, v), cid, eid) == map[f := v]
    ensures ExactFor(OneValue(cid, eid, f, v), Defs([f], []), cid, eid)
  {
  }

  lemma RewriteLosesEntry(cid: U32, eid: ByteString, f: U32, v: Value, w: Value)
    requires FloatTrap(v, w)
    ensures IndexKey(cid, eid, f, w) !in Replaced(OneValue(cid, eid, f, v), Defs([f], []), cid, eid, map[f := w])
  {
    OneValueExact(cid, eid, f, v);
    TrapLosesEntry(OneValue(cid, eid, f, v), Defs([f], []), cid, eid, map[f := w], f);
  }

  /** Writing NaN where NaN already was takes the value out of its index; writing -0.0 over
      0.0 does not bring the new value in. */
  lemma FloatRewrites(cid: U32, eid: ByteString, f: U32)
    ensures var nan := Float(QUIET_NAN);
      var s := OneValue(cid, eid, f, nan);
      IndexKey(cid, eid, f, nan) in s && IndexKey(cid, eid, f, nan) !in Replaced(s, Defs([f], []), cid, eid, map[f := nan])
    ensures var zero, minus := Float(0), Float(U63_LIMIT);
      IndexKey(cid, eid, f, minus) !in Replaced(OneValue(cid, eid, f, zero), Defs([f], []), cid, eid, map[f := minus])
  {
    RewriteLosesEntry(cid, eid, f, Float(QUIET_NAN), Float(QUIET_NAN));
    RewriteLosesEntry(cid, eid, f, Float(0), Float(U63_LIMIT));
  }

  // ---- composite entries ----

  lemma CompMember(comps: seq<CompDef>, j: nat, i: nat)
    requires DistinctIx(comps) && i < |comps| && j < |comps|
    ensures comps[i].ix == comps[j].ix ==> i == j
  {
  }

  lemma CompEntryAfter(s: Kv, defs: Defs, cid: U32, eid: ByteString, now: Fields, i: nat, codes: seq<ByteString>)
    requires i < |defs.comps| && DistinctIx(defs.comps)
    ensures var was, d := FieldsOf(s, cid, eid), defs.comps[i];
      var k := Composite(cid, d.ix, codes, eid);
      k in Replaced(s, defs, cid, eid, now) <==>
        && (k in s || (TupleChanged(was, now, d.fids) && HasTuple(d, d.ix, codes, now)))
        && !(TupleChanged(was, now, d.fids) && HasTuple(d, d.ix, codes, was))
  {
    var was, d := FieldsOf(s, cid, eid), defs.comps[i];
    var k := Composite(cid, d.ix, codes, eid);
    CompKeysAre(defs.comps, cid, eid, was, now, i, codes);
    ReplacedAt(s, defs, cid, eid, now, k);
  }

  lemma CompKeysAre(comps: seq<CompDef>, cid: U32, eid: ByteString, was: Fields, now: Fields, i: nat, codes: seq<ByteString>)
    requires i < |comps| && DistinctIx(comps)
    ensures var d := comps[i];
      var k := Composite(cid, d.ix, codes, eid);
      && (k in NewCompKeys(comps, cid, eid, was, now) <==> TupleChanged(was, now, d.fids) && HasTuple(d, d.ix, codes, now))
      && (k in OldCompKeys(comps, cid, eid, was, now) <==> TupleChanged(was, now, d.fids) && HasTuple(d, d.ix, codes, was))
  {
    var d := comps[i];
    var k := Composite(cid, d.ix, codes, eid);
    forall e | e in comps && e.ix == d.ix ensures e == d {
      var j :| 0 <= j < |comps| && comps[j] == e;
      CompMember(comps, i, j);
    }
    if TupleChanged(was, now, d.fids) && HasTuple(d, d.ix, codes, now) {
      assert k == CompKey(cid, eid, d, now);
    }
    if TupleChanged(was, now, d.fids) && HasTuple(d, d.ix, codes, was) {
      assert k == CompKey(cid, eid, d, was);
    }
  }

  /** Two complete tuples that agree up to NaN, with a NaN in both at some component. */
  predicate NanTuples(was: Fields, now: Fields, fids: seq<U32>)
    requires Complete(was, fids) && Complete(now, fids)
  {
    && (exists i :: 0 <= i < |fids| && NanPair(was[fids[i]], now[fids[i]]))
    && (forall i :: 0 <= i < |fids| ==> SameButNan(was[fids[i]], now[fids[i]]))
  }

  /** Two complete tuples that agree up to the sign of zeros, without NaN, but are not the same. */
  predicate ZeroTuples(was: Fields, now: Fields, fids: seq<U32>)
    requires Complete(was, fids) && Complete(now, fids)
  {
    && (exists i :: 0 <= i < |fids| && ZeroPair(was[fids[i]], now[fids[i]]))
    && (forall i :: 0 <= i < |fids| ==> SameButZero(was[fids[i]], now[fids[i]]))
  }

  /** Tuples that the language and the codes compare differently. */
  predicate TupleTrap(was: Fields, now: Fields, fids: seq<U32>) {
    Complete(was, fids) && Complete(now, fids) && (NanTuples(was, now, fids) || ZeroTuples(was, now, fids))
  }

  lemma SameComponentIs(was: Fields, now: Fields, fids: seq<U32>, i: nat)
    requires i < |fids| && Complete(was, fids) && Complete(now, fids)
    ensures SameComponent(was, now, fids[i]) <==> SameButZero(was[fids[i]], now[fids[i]])
    ensures Codes(Tuple(was, fids))[i] == Codes(Tuple(now, fids))[i] <==> SameButNan(was[fids[i]], now[fids[i]])
  {
    EqualityKinds(now[fids[i]], was[fids[i]]);
    EqualityKinds(was[fids[i]], now[fids[i]]);
  }

  /** The diff calls complete tuples changed although their codes agree, or unchanged
      although their codes differ, exactly for these. */
  lemma TupleTrapIs(was: Fields, now: Fields, fids: seq<U32>)
    requires Complete(was, fids) && Complete(now, fids)
    ensures TupleTrap(was, now, fids) <==>
      (TupleChanged(was, now, fids) <==> Codes(Tuple(was, fids)) == Codes(Tuple(now, fids)))
  {
    var a, b := Codes(Tuple(was, fids)), Codes(Tuple(now, fids));
    forall i | 0 <= i < |fids|
      ensures SameComponent(was, now, fids[i]) <==> SameButZero(was[fids[i]], now[fids[i]])
      ensures a[i] == b[i] <==> SameButNan(was[fids[i]], now[fids[i]])
    {
      SameComponentIs(was, now, fids, i);
    }
    assert a == b <==> forall i :: 0 <= i < |fids| ==> a[i] == b[i];
  }

  lemma UnchangedTuple(was: Fields, now: Fields, fids: seq<U32>)
    requires !TupleChanged(was, now, fids)
    ensures Complete(was, fids) <==> Complete(now, fids)
  {
    forall i | 0 <= i < |fids| ensures fids[i] in was <==> fids[i] in now {
      assert SameComponent(was, now, fids[i]);
    }
  }

  lemma CompEntryExact(s: Kv, defs: Defs, cid: U32, eid: ByteString, now: Fields, i: nat, codes: seq<ByteString>)
    requires i < |defs.comps| && DistinctIx(defs.comps)
    requires ExactFor(s, defs, cid, eid) && !TupleTrap(FieldsOf(s, cid, eid), now, defs.comps[i].fids)
    ensures var d := defs.comps[i];
      Composite(cid, d.ix, codes, eid) in Replaced(s, defs, cid, eid, now) <==> HasTuple(d, d.ix, codes, now)
  {
    var was, d := FieldsOf(s, cid, eid), defs.comps[i];
    CompEntryAfter(s, defs, cid, eid, now, i, codes);
    CompExactBefore(s, defs, cid, eid, i, codes);
    if !TupleChanged(was, now, d.fids) {
      UnchangedTuple(was, now, d.fids);
    }
    if Complete(was, d.fids) && Complete(now, d.fids) {
      TupleTrapIs(was, now, d.fids);
    }
  }

  lemma CompExactBefore(s: Kv, defs: Defs, cid: U32, eid: ByteString, i: nat, codes: seq<ByteString>)
    requires i < |defs.comps| && DistinctIx(defs.comps)
    requires ExactFor(s, defs, cid, eid)
    ensures var d := defs.comps[i];
      Composite(cid, d.ix, codes, eid) in s <==> HasTuple(d, d.ix, codes, FieldsOf(s, cid, eid))
  {
    var was, d := FieldsOf(s, cid, eid), defs.comps[i];
    var k := Composite(cid, d.ix, codes, eid);
    assert Owned(k, defs, cid, eid);
    WantedByOne(defs, was, cid, eid, i, codes);
  }

  /** No indexed value, and no indexed tuple, is compared differently by language and codes. */
  ghost predicate NoTraps(defs: Defs, was: Fields, now: Fields) {
    && (forall f :: f in defs.single ==> !SingleTrap(was, now, f))
    && (forall i :: 0 <= i < |defs.comps| ==> !TupleTrap(was, now, defs.comps[i].fids))
  }

  ghost predicate FieldsTyped(s: Kv, cid: U32, eid: ByteString) {
    forall f :: Field(cid, eid, f) in s ==> s[Field(cid, eid, f)].Val?
  }

  /** A put keeps an exact index exact precisely when it meets no trap. */
  lemma PutKeepsExact(s: Kv, defs: Defs, cid: U32, eid: ByteString, now: Fields)
    requires DistinctIx(defs.comps)
    requires ExactFor(s, defs, cid, eid) && FieldsTyped(s, cid, eid)
    ensures ExactFor(Replaced(s, defs, cid, eid, now), defs, cid, eid) <==> NoTraps(defs, FieldsOf(s, cid, eid), now)
  {
    if NoTraps(defs, FieldsOf(s, cid, eid), now) {
      PutExact(s, defs, cid, eid, now);
    }
    if ExactFor(Replaced(s, defs, cid, eid, now), defs, cid, eid) {
      TrapsShow(s, defs, cid, eid, now);
    }
  }

  lemma PutExact(s: Kv, defs: Defs, cid: U32, eid: ByteString, now: Fields)
    requires DistinctIx(defs.comps)
    requires ExactFor(s, defs, cid, eid) && FieldsTyped(s, cid, eid) && NoTraps(defs, FieldsOf(s, cid, eid), now)
    ensures ExactFor(Replaced(s, defs, cid, eid, now), defs, cid, eid)
  {
    FieldsReplaced(s, defs, cid, eid, now);
    forall k | Owned(k, defs, cid, eid) ensures k in Replaced(s, defs, cid, eid, now) <==> Wanted(k, defs, now) {
      OwnedExact(s, defs, cid, eid, now, k);
    }
  }

  lemma OwnedExact(s: Kv, defs: Defs, cid: U32, eid: ByteString, now: Fields, k: Key)
    requires DistinctIx(defs.comps)
    requires ExactFor(s, defs, cid, eid) && FieldsTyped(s, cid, eid) && NoTraps(defs, FieldsOf(s, cid, eid), now)
    requires Owned(k, defs, cid, eid)
    ensures k in Replaced(s, defs, cid, eid, now) <==> Wanted(k, defs, now)
  {
    match k
    case Field(_, _, f) => ReplacedAt(s, defs, cid, eid, now, k);
    case Index(_, f, code, _) => IndexEntryExact(s, defs, cid, eid, now, f, code);
    case Composite(_, ix, codes, _) => OwnedCompExact(s, defs, cid, eid, now, ix, codes);
  }

  lemma TrapsShow(s: Kv, defs: Defs, cid: U32, eid: ByteString, now: Fields)
    requires DistinctIx(defs.comps)
    requires ExactFor(s, defs, cid, eid) && FieldsTyped(s, cid, eid)
    requires ExactFor(Replaced(s, defs, cid, eid, now), defs, cid, eid)
    ensures NoTraps(defs, FieldsOf(s, cid, eid), now)
  {
    var was := FieldsOf(s, cid, eid);
    FieldsReplaced(s, defs, cid, eid, now);
    forall f | f in defs.single ensures !SingleTrap(was, now, f) {
      if SingleTrap(was, now, f) {
        TrapLosesEntry(s, defs, cid, eid, now, f);
        assert Owned(IndexKey(cid, eid, f, now[f]), defs, cid, eid);
      }
    }
    forall i | 0 <= i < |defs.comps| ensures !TupleTrap(was, now, defs.comps[i].fids) {
      TupleTrapShows(s, defs, cid, eid, now, i);
    }
  }

  /** An index id belongs to one definition, which alone decides about its entries. */
  lemma WantedByOne(defs: Defs, fs: Fields, cid: U32, eid: ByteString, i: nat, codes: seq<ByteString>)
    requires i < |defs.comps| && DistinctIx(defs.comps)
    ensures var d := defs.comps[i];
      Wanted(Composite(cid, d.ix, codes, eid), defs, fs) <==> HasTuple(d, d.ix, codes, fs)
  {
    var d := defs.comps[i];
    forall j | 0 <= j < |defs.comps| && HasTuple(defs.comps[j], d.ix, codes, fs) ensures j == i {
      CompMember(defs.comps, i, j);
    }
  }

  lemma OwnedCompExact(s: Kv, defs: Defs, cid: U32, eid: ByteString, now: Fields, ix: U32, codes: seq<ByteString>)
    requires DistinctIx(defs.comps)
    requires ExactFor(s, defs, cid, eid) && NoTraps(defs, FieldsOf(s, cid, eid), now)
    requires Owned(Composite(cid, ix, codes, eid), defs, cid, eid)
    ensures Composite(cid, ix, codes, eid) in Replaced(s, defs, cid, eid, now)
      <==> Wanted(Composite(cid, ix, codes, eid), defs, now)
  {
    var i :| 0 <= i < |defs.comps| && defs.comps[i].ix == ix;
    CompEntryExact(s, defs, cid, eid, now, i, codes);
    WantedByOne(defs, now, cid, eid, i, codes);
  }

  lemma TupleTrapShows(s: Kv, defs: Defs, cid: U32, eid: ByteString, now: Fields, i: nat)
    requires i < |defs.comps| && DistinctIx(defs.comps)
    requires ExactFor(s, defs, cid, eid) && FieldsTyped(s, cid, eid)
    requires ExactFor(Replaced(s, defs, cid, eid, now), defs, cid, eid)
    ensures !TupleTrap(FieldsOf(s, cid, eid), now, defs.comps[i].fids)
  {
    var was, d := FieldsOf(s, cid, eid), defs.comps[i];
    if TupleTrap(was, now, d.fids) {
      TupleTrapIs(was, now, d.fids);
      var codes := Codes(Tuple(now, d.fids));
      FieldsReplaced(s, defs, cid, eid, now);
      CompEntryAfter(s, defs, cid, eid, now, i, codes);
      CompExactBefore(s, defs, cid, eid, i, codes);
      CompExactBefore(Replaced(s, defs, cid, eid, now), defs, cid, eid, i, codes);
    }
  }

  /** The other entities keep exact indexes: a put touches only what its entity owns. */
  lemma PutKeepsOthers(s: Kv, defs: Defs, cid: U32, eid: ByteString, now: Fields, other: ByteString)
    requires other != eid
    ensures FieldsOf(Replaced(s, defs, cid, eid, now), cid, other) == FieldsOf(s, cid, other)
    ensures ExactFor(s, defs, cid, other) ==> ExactFor(Replaced(s, defs, cid, eid, now), defs, cid, other)
  {
    var r := Replaced(s, defs, cid, eid, now);
    forall k: Key | k.cid == cid && k.eid == other ensures At(r, k) == At(s, k) {
      OthersUntouched(s, defs, cid, eid, now, k);
    }
    SameFields(r, s, cid, other);
  }

  lemma SameFields(a: Kv, b: Kv, cid: U32, eid: ByteString)
    requires forall k: Key :: k.cid == cid && k.eid == eid ==> At(a, k) == At(b, k)
    ensures FieldsOf(a, cid, eid) == FieldsOf(b, cid, eid)
  {
    forall f ensures f in FieldsOf(a, cid, eid) <==> f in FieldsOf(b, cid, eid)
      ensures f in FieldsOf(a, cid, eid) ==> FieldsOf(a, cid, eid)[f] == FieldsOf(b, cid, eid)[f]
    {
      var k := Field(cid, eid, f);
      assert k.cid == cid && k.eid == eid;
    }
  }

  lemma FieldsFollow(a: Kv, b: Kv, cid: U32, eid: ByteString)
    requires forall f :: At(b, Field(cid, eid, f)) == At(a, Field(cid, eid, f))
    ensures FieldsOf(b, cid, eid) == FieldsOf(a, cid, eid)
  {
    forall f ensures f in FieldsOf(b, cid, eid) <==> f in FieldsOf(a, cid, eid)
      ensures f in FieldsOf(b, cid, eid) ==> FieldsOf(b, cid, eid)[f] == FieldsOf(a, cid, eid)[f]
    {
      assert At(b, Field(cid, eid, f)) == At(a, Field(cid, eid, f));
    }
  }

  // ---- no false negatives at any single write ----

  /** Index entries for the field values of `a` are in `b`. */
  ghost predicate CrossCovers(a: Kv, b: Kv, single: seq<U32>, cid: U32) {
    forall k :: k in a && k.Field? && k.cid == cid && k.fid in single && a[k].Val?
      ==> IndexKey(cid, k.eid, k.fid, a[k].v) in b
  }

  /** A state between two states that cover each other misses nothing either. */
  lemma MixedCovers(s: Kv, a: Kv, b: Kv, single: seq<U32>, cid: U32)
    requires Mixed(s, a, b)
    requires CrossCovers(a, a, single, cid) && CrossCovers(a, b, single, cid)
    requires CrossCovers(b, a, single, cid) && CrossCovers(b, b, single, cid)
    ensures Covers(s, single, cid)
  {
    forall k | k in s && k.Field? && k.cid == cid && k.fid in single && s[k].Val?
      ensures IndexKey(cid, k.eid, k.fid, s[k].v) in s
    {
      var ik := IndexKey(cid, k.eid, k.fid, s[k].v);
      assert At(s, k) == At(a, k) || At(s, k) == At(b, k);
      assert ik in a && ik in b;
      assert At(s, ik) == At(a, ik) || At(s, ik) == At(b, ik);
    }
  }

  lemma IndexedAt(s: Kv, defs: Defs, cid: U32, eid: ByteString, now: Fields, k: Key)
    ensures var was := FieldsOf(s, cid, eid);
      At(Indexed(s, defs, cid, eid, now), k) ==
        if k in NewIndexKeys(defs, cid, eid, was, now) || k in NewCompKeys(defs.comps, cid, eid, was, now) then Some(Empty)
        else At(s, k)
  {
  }

  lemma RewrittenAt(s: Kv, defs: Defs, cid: U32, eid: ByteString, now: Fields, k: Key)
    ensures At(Rewritten(s, defs, cid, eid, now), k) ==
      if IsFieldOf(k, cid, eid) then
        if k.fid in now then Some(Val(now[k.fid])) else if k.fid in FieldsOf(s, cid, eid) then None else At(s, k)
      else At(Indexed(s, defs, cid, eid, now), k)
  {
  }

  /** Where the index entry of a value of the entity is during the put. */
  lemma OwnEntries(s: Kv, defs: Defs, cid: U32, eid: ByteString, now: Fields, f: U32)
    requires f in defs.single && Covers(s, defs.single, cid) && !SingleTrap(FieldsOf(s, cid, eid), now, f)
    ensures var was := FieldsOf(s, cid, eid);
      && (f in was ==> var k := IndexKey(cid, eid, f, was[f]);
            k in s && k in Indexed(s, defs, cid, eid, now) && k in Rewritten(s, defs, cid, eid, now))
      && (f in now ==> var k := IndexKey(cid, eid, f, now[f]);
            k in Indexed(s, defs, cid, eid, now) && k in Rewritten(s, defs, cid, eid, now)
            && k in Replaced(s, defs, cid, eid, now))
  {
    var was := FieldsOf(s, cid, eid);
    if f in was {
      var k := IndexKey(cid, eid, f, was[f]);
      assert Field(cid, eid, f) in s;
      IndexedAt(s, defs, cid, eid, now, k);
      RewrittenAt(s, defs, cid, eid, now, k);
    }
    if f in now {
      var k := IndexKey(cid, eid, f, now[f]);
      NewEntryThere(s, defs, cid, eid, now, f);
      RewrittenAt(s, defs, cid, eid, now, k);
      IndexEntryAfter(s, defs, cid, eid, now, f, EncodeOrdered(now[f]));
      if f in was {
        EqualityAgrees(was[f], now[f]);
        EqualityAgrees(now[f], was[f]);
      }
    }
  }

  lemma NewEntryThere(s: Kv, defs: Defs, cid: U32, eid: ByteString, now: Fields, f: U32)
    requires f in defs.single && Covers(s, defs.single, cid) && !SingleTrap(FieldsOf(s, cid, eid), now, f) && f in now
    ensures IndexKey(cid, eid, f, now[f]) in Indexed(s, defs, cid, eid, now)
  {
    var was, k := FieldsOf(s, cid, eid), IndexKey(cid, eid, f, now[f]);
    IndexedAt(s, defs, cid, eid, now, k);
    if f in was && RustEq(was[f], now[f]) {
      EqualityAgrees(was[f], now[f]);
      assert Field(cid, eid, f) in s;
    } else {
      assert k in NewIndexKeys(defs, cid, eid, was, now);
    }
  }

  /** Entries of other entities are there all the time. */
  lemma OtherEntries(s: Kv, defs: Defs, cid: U32, eid: ByteString, now: Fields, k: Key)
    requires k.cid == cid && k.eid != eid
    ensures At(Indexed(s, defs, cid, eid, now), k) == At(s, k)
    ensures At(Rewritten(s, defs, cid, eid, now), k) == At(s, k)
    ensures At(Replaced(s, defs, cid, eid, now), k) == At(s, k)
  {
    IndexedAt(s, defs, cid, eid, now, k);
    RewrittenAt(s, defs, cid, eid, now, k);
    OthersUntouched(s, defs, cid, eid, now, k);
  }

  ghost predicate NoSingleTraps(defs: Defs, was: Fields, now: Fields) {
    forall f :: f in defs.single ==> !SingleTrap(was, now, f)
  }

  lemma PhaseOneCovers(s: Kv, defs: Defs, cid: U32, eid: ByteString, now: Fields)
    requires Covers(s, defs.single, cid) && NoSingleTraps(defs, FieldsOf(s, cid, eid), now)
    ensures var t := Indexed(s, defs, cid, eid, now);
      && CrossCovers(s, s, defs.single, cid) && CrossCovers(s, t, defs.single, cid)
      && CrossCovers(t, s, defs.single, cid) && CrossCovers(t, t, defs.single, cid)
  {
    var t := Indexed(s, defs, cid, eid, now);
    forall k: Key | k.Field? ensures At(t, k) == At(s, k) {
      IndexedAt(s, defs, cid, eid, now, k);
    }
    forall k | k in s ensures k in t {
      IndexedAt(s, defs, cid, eid, now, k);
    }
    forall k | k in t && k.Field? ensures k in s && t[k] == s[k] {
      assert At(t, k) == At(s, k);
    }
  }

  lemma PhaseTwoCovers(s: Kv, defs: Defs, cid: U32, eid: ByteString, now: Fields)
    requires Covers(s, defs.single, cid) && NoSingleTraps(defs, FieldsOf(s, cid, eid), now) && FieldsTyped(s, cid, eid)
    ensures var t, u := Indexed(s, defs, cid, eid, now), Rewritten(s, defs, cid, eid, now);
      && CrossCovers(t, t, defs.single, cid) && CrossCovers(t, u, defs.single, cid)
      && CrossCovers(u, t, defs.single, cid) && CrossCovers(u, u, defs.single, cid)
  {
    var t, u := Indexed(s, defs, cid, eid, now), Rewritten(s, defs, cid, eid, now);
    forall k: Key | k.Field? && k.cid == cid && k.fid in defs.single
      ensures k in t && t[k].Val? ==> IndexKey(cid, k.eid, k.fid, t[k].v) in t && IndexKey(cid, k.eid, k.fid, t[k].v) in u
      ensures k in u && u[k].Val? ==> IndexKey(cid, k.eid, k.fid, u[k].v) in t && IndexKey(cid, k.eid, k.fid, u[k].v) in u
    {
      EntryInBoth(s, defs, cid, eid, now, k);
    }
  }

  lemma EntryInBoth(s: Kv, defs: Defs, cid: U32, eid: ByteString, now: Fields, k: Key)
    requires Covers(s, defs.single, cid) && NoSingleTraps(defs, FieldsOf(s, cid, eid), now) && FieldsTyped(s, cid, eid)
    requires k.Field? && k.cid == cid && k.fid in defs.single
    ensures var t, u := Indexed(s, defs, cid, eid, now), Rewritten(s, defs, cid, eid, now);
      && (k in t && t[k].Val? ==> IndexKey(cid, k.eid, k.fid, t[k].v) in t && IndexKey(cid, k.eid, k.fid, t[k].v) in u)
      && (k in u && u[k].Val? ==> IndexKey(cid, k.eid, k.fid, u[k].v) in t && IndexKey(cid, k.eid, k.fid, u[k].v) in u)
  {
    var t, u := Indexed(s, defs, cid, eid, now), Rewritten(s, defs, cid, eid, now);
    IndexedAt(s, defs, cid, eid, now, k);
    RewrittenAt(s, defs, cid, eid, now, k);
    if k.eid == eid {
      OwnEntries(s, defs, cid, eid, now, k.fid);
      assert k == Field(cid, eid, k.fid);
    } else if k in s && s[k].Val? {
      OtherEntries(s, defs, cid, eid, now, IndexKey(cid, k.eid, k.fid, s[k].v));
    }
  }

  lemma PhaseThreeCovers(s: Kv, defs: Defs, cid: U32, eid: ByteString, now: Fields)
    requires Covers(s, defs.single, cid) && NoSingleTraps(defs, FieldsOf(s, cid, eid), now) && FieldsTyped(s, cid, eid)
    ensures var u, r := Rewritten(s, defs, cid, eid, now), Replaced(s, defs, cid, eid, now);
      && CrossCovers(u, u, defs.single, cid) && CrossCovers(u, r, defs.single, cid)
      && CrossCovers(r, u, defs.single, cid) && CrossCovers(r, r, defs.single, cid)
  {
    var u, r := Rewritten(s, defs, cid, eid, now), Replaced(s, defs, cid, eid, now);
    forall k: Key | k.Field? && k.cid == cid && k.fid in defs.single
      ensures At(u, k) == At(r, k)
      ensures k in r && r[k].Val? ==> IndexKey(cid, k.eid, k.fid, r[k].v) in u && IndexKey(cid, k.eid, k.fid, r[k].v) in r
    {
      EntryStays(s, defs, cid, eid, now, k);
    }
    forall k | k in u && k.Field? && k.cid == cid && k.fid in defs.single ensures k in r && u[k] == r[k] {
      assert At(u, k) == At(r, k);
    }
  }

  lemma EntryStays(s: Kv, defs: Defs, cid: U32, eid: ByteString, now: Fields, k: Key)
    requires Covers(s, defs.single, cid) && NoSingleTraps(defs, FieldsOf(s, cid, eid), now) && FieldsTyped(s, cid, eid)
    requires k.Field? && k.cid == cid && k.fid in defs.single
    ensures var u, r := Rewritten(s, defs, cid, eid, now), Replaced(s, defs, cid, eid, now);
      && At(u, k) == At(r, k)
      && (k in r && r[k].Val? ==> IndexKey(cid, k.eid, k.fid, r[k].v) in u && IndexKey(cid, k.eid, k.fid, r[k].v) in r)
  {
    IndexedAt(s, defs, cid, eid, now, k);
    RewrittenAt(s, defs, cid, eid, now, k);
    ReplacedAt(s, defs, cid, eid, now, k);
    if k.eid == eid {
      OwnEntries(s, defs, cid, eid, now, k.fid);
      assert k == Field(cid, eid, k.fid);
    } else if k in s && s[k].Val? {
      OtherEntries(s, defs, cid, eid, now, IndexKey(cid, k.eid, k.fid, s[k].v));
    }
  }
}
