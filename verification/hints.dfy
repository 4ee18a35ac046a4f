/** The entity store with its field hints (src/entity.rs:260-290, 1060-1107, 1465-1507).
    A hint is never the truth, but in every reachable store it tells the truth. */
module Hints {
  import opened Std
  import opened Bytes
  import opened KeyCodec
  import opened Store
  import opened Entities
  import opened EntityWrites
  import opened EntityOps
  import opened Indexes
  import opened IndexChanges

  type Hint = map<(U32, ByteString), set<U32>>

  /** Every hint is the exact set of live fields of its entity. */
  ghost predicate HintTrue(hint: Hint, s: Kv) {
    forall e :: e in hint ==> FieldsOf(s, e.0, e.1).Keys == hint[e]
  }

  lemma FieldsElsewhere(s: Kv, defs: Defs, cid: U32, eid: ByteString, now: Fields, c: U32, e: ByteString)
    requires (c, e) != (cid, eid)
    ensures FieldsOf(Replaced(s, defs, cid, eid, now), c, e) == FieldsOf(s, c, e)
  {
    forall k: Key | k.cid == c && k.eid == e ensures At(Replaced(s, defs, cid, eid, now), k) == At(s, k) {
      OthersUntouched(s, defs, cid, eid, now, k);
    }
    SameFields(Replaced(s, defs, cid, eid, now), s, c, e);
  }

  /** A put makes its own hint true and leaves the others true. */
  lemma HintAfterPut(hint: Hint, s: Kv, defs: Defs, cid: U32, eid: ByteString, now: Fields)
    requires HintTrue(hint, s) && FieldsTyped(s, cid, eid)
    ensures HintTrue(hint[(cid, eid) := now.Keys], Replaced(s, defs, cid, eid, now))
    ensures HintTrue(hint - {(cid, eid)}, Replaced(s, defs, cid, eid, now))
  {
    FieldsReplaced(s, defs, cid, eid, now);
    PutElsewhere(s, defs, cid, eid, now);
    HintMoves(hint, s, Replaced(s, defs, cid, eid, now), cid, eid);
  }

  ghost predicate SameElsewhere(a: Kv, b: Kv, cid: U32, eid: ByteString) {
    forall c: U32, e: ByteString :: (c, e) != (cid, eid) ==> FieldsOf(b, c, e) == FieldsOf(a, c, e)
  }

  lemma PutElsewhere(s: Kv, defs: Defs, cid: U32, eid: ByteString, now: Fields)
    ensures SameElsewhere(s, Replaced(s, defs, cid, eid, now), cid, eid)
  {
    forall c: U32, e: ByteString | (c, e) != (cid, eid)
      ensures FieldsOf(Replaced(s, defs, cid, eid, now), c, e) == FieldsOf(s, c, e)
    {
      FieldsElsewhere(s, defs, cid, eid, now, c, e);
    }
  }

  lemma HintMoves(hint: Hint, a: Kv, b: Kv, cid: U32, eid: ByteString)
    requires HintTrue(hint, a) && SameElsewhere(a, b, cid, eid)
    ensures HintTrue(hint[(cid, eid) := FieldsOf(b, cid, eid).Keys], b)
    ensures HintTrue(hint - {(cid, eid)}, b)
  {
    forall e | e in hint && e != (cid, eid) ensures FieldsOf(b, e.0, e.1).Keys == hint[e] {
      assert (e.0, e.1) != (cid, eid);
    }
  }

  /** Entities that a set of keys has fields of. */
  function EntitiesOf(keys: set<Key>): set<(U32, ByteString)> {
    set k | k in keys && k.Field? :: (k.cid, k.eid)
  }

  lemma EntityListed(keys: set<Key>, k: Key)
    ensures k.Field? && k in keys ==> (k.cid, k.eid) in EntitiesOf(keys)
  {
  }

  /** Entities without a pending field key keep their fields through a commit. */
  lemma HintAfterCommit(hint: Hint, a: Kv, b: Kv, keys: set<Key>)
    requires HintTrue(hint, a) && forall k :: k !in keys ==> At(b, k) == At(a, k)
    ensures HintTrue(hint - EntitiesOf(keys), b)
  {
    forall e | e in hint - EntitiesOf(keys) ensures FieldsOf(b, e.0, e.1).Keys == hint[e] {
      forall f ensures At(b, Field(e.0, e.1, f)) == At(a, Field(e.0, e.1, f)) {
        EntityListed(keys, Field(e.0, e.1, f));
      }
      FieldsFollow(a, b, e.0, e.1);
    }
  }

  /** A conflict exactly if the condition says so, otherwise the patched fields if the patch
      applies. */
  ghost predicate CasDecides(r: Result<Written>, fs: Fields, expected: Expected, patch: seq<Patch>, add: FloatAdd) {
    UniqueNames(expected) ==>
      && (r == Err(Conflict) <==> Conflicts(expected, fs))
      && (r.Ok? <==> !Conflicts(expected, fs) && Patched(fs, patch, add).Ok?)
      && (r.Ok? ==> DistinctFields(r.value) && IsWritten(r.value, Patched(fs, patch, add).value))
  }

  method CasKnown(m: Mutator, hint: Hint, d: Defs, cid: U32, eid: ByteString,
                  expected: Expected, patch: seq<Patch>, add: FloatAdd) returns (r: Result<Written>)
    requires m.Valid() && DefsOk(d, cid, m.arity) && HintTrue(hint, m.live) && |eid| < U32_LIMIT
    modifies m
    ensures m.Valid()
    ensures r.Err? ==> m.live == old(m.live)
    ensures r.Ok? ==> m.live == Replaced(old(m.live), d, cid, eid, NowOf(r.value))
    ensures r.Ok? ==> HintTrue(hint[(cid, eid) := NowOf(r.value).Keys], m.live)
    ensures CasDecides(r, FieldsOf(old(m.live), cid, eid), expected, patch, add)
  {
    ghost var s := m.live;
    var known := if (cid, eid) in hint then Some(hint[(cid, eid)]) else None;
    ghost var current;
    r, current := CasEntity(m, known, d, cid, eid, expected, patch, add);
    if r.Ok? {
      HintAfterPut(hint, s, d, cid, eid, NowOf(r.value));
    }
  }

  class EntityStore {
    const m: Mutator
    /** The READY indexes of each collection. */
    var defs: U32 -> Defs
    var hint: Hint

    ghost predicate Valid()
      reads this, m
    {
      m.Valid() && AllDefsOk(defs, m.arity) && HintTrue(hint, m.live)
    }

    /** Opening forgets all hints. */
    constructor (m: Mutator, defs: U32 -> Defs)
      requires m.Valid() && forall c: U32 :: DefsOk(defs(c), c, m.arity)
      ensures Valid() && this.m == m && this.defs == defs && hint == map[]
    {
      this.m, this.defs, this.hint := m, defs, map[];
    }

    /** A direct put, warm if the entity is hinted. */
    method Put(cid: U32, eid: ByteString, w: Written)
      requires Valid() && |eid| < U32_LIMIT && DistinctFields(w)
      modifies `hint, m
      ensures Valid() && m.live == Replaced(old(m.live), defs(cid), cid, eid, NowOf(w))
      ensures hint == old(hint)[(cid, eid) := NowOf(w).Keys]
    {
      HintAfterPut(hint, m.live, defs(cid), cid, eid, NowOf(w));
      var known := if (cid, eid) in hint then Some(hint[(cid, eid)]) else None;
      PutEntity(m, known, defs(cid), cid, eid, w);
      hint := hint[(cid, eid) := NowOf(w).Keys];
    }

    /** The net effect of a transaction that puts one entity and commits: the entity is
        read by scan, and its hint is dropped. */
    method PutInTransaction(cid: U32, eid: ByteString, w: Written)
      requires Valid() && |eid| < U32_LIMIT && DistinctFields(w)
      modifies `hint, m
      ensures Valid() && m.live == Replaced(old(m.live), defs(cid), cid, eid, NowOf(w))
      ensures hint == old(hint) - {(cid, eid)}
    {
      HintAfterPut(hint, m.live, defs(cid), cid, eid, NowOf(w));
      PutEntity(m, None, defs(cid), cid, eid, w);
      hint := hint - {(cid, eid)};
    }

    /** A delete forgets the hint (src/entity.rs:1094-1107). */
    method Delete(cid: U32, eid: ByteString)
      requires Valid() && |eid| < U32_LIMIT
      modifies `hint, m
      ensures Valid() && m.live == Deleted(old(m.live), defs(cid), cid, eid)
      ensures hint == old(hint) - {(cid, eid)}
    {
      HintAfterPut(hint, m.live, defs(cid), cid, eid, map[]);
      DeleteEntity(m, defs(cid), cid, eid);
      hint := hint - {(cid, eid)};
    }

    /** A conditional update goes through the same put. */
    method Cas(cid: U32, eid: ByteString, expected: Expected, patch: seq<Patch>, add: FloatAdd) returns (r: Result<Written>)
      requires Valid() && |eid| < U32_LIMIT
      modifies `hint, m
      ensures Valid()
      ensures r.Err? ==> m.live == old(m.live) && hint == old(hint)
      ensures r.Ok? ==> m.live == Replaced(old(m.live), defs(cid), cid, eid, NowOf(r.value))
      ensures r.Ok? ==> hint == old(hint)[(cid, eid) := NowOf(r.value).Keys]
      ensures CasDecides(r, FieldsOf(old(m.live), cid, eid), expected, patch, add)
    {
      r := CasKnown(m, hint, defs(cid), cid, eid, expected, patch, add);
      if r.Ok? {
        hint := hint[(cid, eid) := NowOf(r.value).Keys];
      }
    }

    /** The pending writes of a transaction reach the store past the hints, so the hints of
        the entities they touch are dropped (src/entity.rs:1485-1504). */
    method Commit(pending: map<Key, Option<Stored>>)
      requires Valid()
      requires forall k :: k in pending ==> Storable(k, m.arity)
      requires forall k :: k in pending && pending[k].Some? ==> (k.Field? <==> pending[k].value.Val?)
      modifies `hint, m
      ensures Valid() && hint == old(hint) - EntitiesOf(pending.Keys)
      ensures forall k :: At(m.live, k) == if k in pending then pending[k] else At(old(m.live), k)
    {
      ApplyPending(m, pending);
      HintAfterCommit(hint, old(m.live), m.live, pending.Keys);
      DropHints(pending.Keys);
    }

    /** `create_index` (src/entity.rs:1110-1117): the entries are rebuilt, then the index is
        READY. All other indexes stay as exact as they were. */
    method CreateIndex(cid: U32, fid: U32)
      requires Valid() && fid != COMPOSITE_FIELD_MARKER
      modifies `defs, m
      ensures Valid() && SameEntities(old(m.live), m.live)
      ensures OnlySingle(old(defs), defs, cid, fid, true) && EntriesCover(m.live, cid, fid)
      ensures AllExact(old(m.live), old(defs)(cid), cid) ==> AllExact(m.live, defs(cid), cid)
    {
      ghost var s := m.live;
      Rebuild(m, cid, fid);
      RebuiltEntities(s, cid, fid);
      RebuiltCovers(s, cid, fid);
      HintStays(hint, s, m.live);
      if AllExact(s, defs(cid), cid) {
        IndexCreated(s, defs(cid), cid, fid);
      }
      defs := Redefined(defs, cid, WithSingle(defs(cid), fid));
    }

    /** `drop_index` (src/entity.rs:1133-1140). */
    method DropIndex(cid: U32, fid: U32)
      requires Valid() && fid != COMPOSITE_FIELD_MARKER
      modifies `defs, m
      ensures Valid() && SameEntities(old(m.live), m.live)
      ensures OnlySingle(old(defs), defs, cid, fid, false)
      ensures AllExact(old(m.live), old(defs)(cid), cid) ==> AllExact(m.live, defs(cid), cid)
    {
      ghost var s := m.live;
      if fid in defs(cid).single {
        Clear(m, cid, fid);
        HintStays(hint, s, m.live);
        if AllExact(s, defs(cid), cid) {
          IndexDropped(s, defs(cid), cid, fid);
        }
        defs := Redefined(defs, cid, WithoutSingle(defs(cid), fid));
      }
    }

    /** `create_composite_index` (src/entity.rs:1122-1130). The id is that of the index on the
        same fields, or a fresh one (src/schema.rs:146-164). */
    method CreateComposite(cid: U32, d: CompDef)
      requires Valid() && |d.fids| >= 2 && |d.fids| == m.arity(cid, d.ix)
      requires d in defs(cid).comps || forall e :: e in defs(cid).comps ==> e.ix != d.ix
      modifies `defs, m
      ensures Valid() && SameEntities(old(m.live), m.live)
      ensures OnlyComp(old(defs), defs, cid, d, true) && TuplesCovered(m.live, cid, d)
      ensures AllExact(old(m.live), old(defs)(cid), cid) ==> AllExact(m.live, defs(cid), cid)
    {
      ghost var s := m.live;
      RebuildComposite(m, cid, d);
      ComposedEntities(s, m.live, cid, d);
      RebuiltTuplesCover(s, m.live, cid, d);
      HintStays(hint, s, m.live);
      if AllExact(s, defs(cid), cid) {
        TuplesCreated(s, m.live, defs(cid), cid, d);
      }
      defs := Redefined(defs, cid, WithComp(defs(cid), d));
    }

    /** `drop_composite_index` (src/entity.rs:1143-1150). */
    method DropComposite(cid: U32, d: CompDef)
      requires Valid()
      modifies `defs, m
      ensures Valid() && SameEntities(old(m.live), m.live)
      ensures OnlyComp(old(defs), defs, cid, d, false)
      ensures AllExact(old(m.live), old(defs)(cid), cid) ==> AllExact(m.live, defs(cid), cid)
    {
      ghost var s := m.live;
      if d in defs(cid).comps {
        ClearComposite(m, cid, d.ix);
        HintStays(hint, s, m.live);
        if AllExact(s, defs(cid), cid) {
          TuplesDropped(s, defs(cid), cid, d.ix);
        }
        defs := Redefined(defs, cid, WithoutComp(defs(cid), d.ix));
      }
    }

    method DropHints(keys: set<Key>)
      modifies `hint
      ensures hint == old(hint) - EntitiesOf(keys)
    {
      var todo := keys;
      ghost var done: set<Key> := {};
      assert EntitiesOf({}) == {} && hint - {} == hint;
      while todo != {}
        invariant done + todo == keys && hint == old(hint) - EntitiesOf(done)
        decreases |todo|
      {
        var k :| k in todo;
        EntitiesOfMore(done, k);
        if k.Field? {
          hint := hint - {(k.cid, k.eid)};
        }
        todo, done := todo - {k}, done + {k};
      }
      assert done == keys;
    }
  }

  lemma RebuiltCovers(s: Kv, cid: U32, fid: U32)
    ensures EntriesCover(s - EntriesOf(s, cid, fid) + Empties(WantedEntries(s, cid, fid)), cid, fid)
  {
    RebuiltIsExact(s, cid, fid, Index(cid, fid, [], []));
  }

  ghost predicate AllDefsOk(defs: U32 -> Defs, arity: Arity) {
    forall c: U32 :: DefsOk(defs(c), c, arity)
  }

  function Redefined(defs: U32 -> Defs, cid: U32, d: Defs): U32 -> Defs {
    (c: U32) => if c == cid then d else defs(c)
  }

  /** The definitions differ at most in whether field `fid` of one collection is indexed. */
  ghost predicate OnlySingle(before: U32 -> Defs, after: U32 -> Defs, cid: U32, fid: U32, indexed: bool) {
    && (forall c: U32 :: c != cid ==> after(c) == before(c))
    && after(cid).comps == before(cid).comps
    && (forall f :: f in after(cid).single <==> if f == fid then indexed else f in before(cid).single)
  }

  /** The same for a composite index. */
  ghost predicate OnlyComp(before: U32 -> Defs, after: U32 -> Defs, cid: U32, d: CompDef, indexed: bool) {
    && (forall c: U32 :: c != cid ==> after(c) == before(c))
    && after(cid).single == before(cid).single
    && (forall e :: e in after(cid).comps <==> if e == d then indexed else e in before(cid).comps)
  }

  /** Hints speak of entities only. */
  lemma HintStays(hint: Hint, a: Kv, b: Kv)
    requires HintTrue(hint, a) && SameEntities(a, b)
    ensures HintTrue(hint, b)
  {
    forall e | e in hint ensures FieldsOf(b, e.0, e.1).Keys == hint[e] {
      SameEntitiesFields(a, b, e.0, e.1);
    }
  }

  lemma EntitiesOfMore(done: set<Key>, k: Key)
    ensures EntitiesOf(done + {k}) == EntitiesOf(done) + if k.Field? then {(k.cid, k.eid)} else {}
  {
  }

  method ApplyPending(m: Mutator, pending: map<Key, Option<Stored>>)
    requires m.Valid()
    requires forall k :: k in pending ==> Storable(k, m.arity)
    requires forall k :: k in pending && pending[k].Some? ==> (k.Field? <==> pending[k].value.Val?)
    modifies m
    ensures m.Valid()
    ensures forall k :: At(m.live, k) == if k in pending then pending[k] else At(old(m.live), k)
  {
    var todo := pending.Keys;
    while todo != {}
      invariant m.Valid() && todo <= pending.Keys
      invariant forall k :: At(m.live, k) == if k in pending && k !in todo then pending[k] else At(old(m.live), k)
      decreases |todo|
    {
      var k :| k in todo;
      if pending[k].Some? {
        m.Put(k, pending[k].value);
      } else {
        m.Delete(k);
      }
      todo := todo - {k};
    }
  }
}
