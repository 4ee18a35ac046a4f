/** Runs over one collection: puts, deletes, transactional puts and changes of its indexes,
    after which every index lookup equals a full scan. */
module EntityRuns {
  import opened Std
  import opened Bytes
  import opened KeyCodec
  import opened Store
  import opened Entities
  import opened EntityWrites
  import opened Hints
  import opened Indexes
  import opened IndexChanges

  ghost predicate NoFloats(s: Kv, cid: U32) {
    forall k :: k in s && k.Field? && k.cid == cid && s[k].Val? ==> !s[k].v.Float?
  }

  ghost predicate NoFloatFields(fs: Fields) {
    forall f :: f in fs ==> !fs[f].Float?
  }

  /** Without floats the language and the codes compare alike. */
  lemma NoFloatsNoTraps(defs: Defs, was: Fields, now: Fields)
    requires NoFloatFields(was) && NoFloatFields(now)
    ensures NoTraps(defs, was, now)
  {
  }

  lemma PutKeepsAllExact(s: Kv, defs: Defs, cid: U32, eid: ByteString, now: Fields, arity: Arity)
    requires WellTyped(s, arity) && DistinctIx(defs.comps)
    requires AllExact(s, defs, cid) && NoFloats(s, cid) && NoFloatFields(now)
    ensures AllExact(Replaced(s, defs, cid, eid, now), defs, cid) && NoFloats(Replaced(s, defs, cid, eid, now), cid)
  {
    var r := Replaced(s, defs, cid, eid, now);
    forall e: ByteString ensures ExactFor(r, defs, cid, e) {
      assert ExactFor(s, defs, cid, e);
      if e == eid {
        assert NoFloatFields(FieldsOf(s, cid, eid)) by {
          forall f | f in FieldsOf(s, cid, eid) ensures !FieldsOf(s, cid, eid)[f].Float? {
            assert Field(cid, eid, f) in s;
          }
        }
        NoFloatsNoTraps(defs, FieldsOf(s, cid, eid), now);
        PutKeepsExact(s, defs, cid, eid, now);
      } else {
        PutKeepsOthers(s, defs, cid, eid, now, e);
      }
    }
    forall k | k in r && k.Field? && k.cid == cid && r[k].Val? ensures !r[k].v.Float? {
      ReplacedAt(s, defs, cid, eid, now, k);
    }
  }

  /** A step of a run over one collection. `TxPut` is a put inside a transaction that then
      commits: it has no hint and drops the entity's hint. */
  datatype EntityOp =
    | Put(eid: ByteString, w: Written)
    | Delete(eid: ByteString)
    | TxPut(eid: ByteString, w: Written)
    | CreateIndex(fid: U32)
    | DropIndex(fid: U32)
    | CreateComposite(d: CompDef)
    | DropComposite(d: CompDef)

  /** The fields of every composite index there ever is: ids are never used again. */
  type Catalog = U32 -> seq<U32>

  ghost predicate InCatalog(d: CompDef, cid: U32, catalog: Catalog, arity: Arity) {
    d.fids == catalog(d.ix) && |d.fids| >= 2 && |d.fids| == arity(cid, d.ix)
  }

  ghost predicate AllInCatalog(comps: seq<CompDef>, cid: U32, catalog: Catalog, arity: Arity) {
    forall d :: d in comps ==> InCatalog(d, cid, catalog, arity)
  }

  predicate WriteOk(eid: ByteString, w: Written) {
    |eid| < U32_LIMIT && DistinctFields(w) && forall i :: 0 <= i < |w| ==> !w[i].1.Float?
  }

  ghost predicate OpOk(op: EntityOp, cid: U32, catalog: Catalog, arity: Arity) {
    match op
    case Put(eid, w) => WriteOk(eid, w)
    case TxPut(eid, w) => WriteOk(eid, w)
    case Delete(eid) => |eid| < U32_LIMIT
    case CreateIndex(fid) => fid != COMPOSITE_FIELD_MARKER
    case DropIndex(fid) => fid != COMPOSITE_FIELD_MARKER
    case CreateComposite(d) => InCatalog(d, cid, catalog, arity)
    case DropComposite(d) => true
  }

  predicate Writes(op: EntityOp, eid: ByteString) {
    (op.Put? || op.Delete? || op.TxPut?) && op.eid == eid
  }

  function WrittenBy(op: EntityOp): Fields {
    if op.Put? || op.TxPut? then NowOf(op.w) else map[]
  }

  /** What an entity is to be after a run: what the last write of it says, or nothing. */
  function LastWritten(ops: seq<EntityOp>, eid: ByteString, before: Fields): Fields {
    if ops == [] then before
    else if Writes(ops[|ops| - 1], eid) then WrittenBy(ops[|ops| - 1])
    else LastWritten(ops[..|ops| - 1], eid, before)
  }

  lemma WriteHasNoFloats(eid: ByteString, w: Written)
    requires WriteOk(eid, w)
    ensures NoFloatFields(NowOf(w))
  {
    forall f | f in NowOf(w) ensures !NowOf(w)[f].Float? {
      var i :| 0 <= i < |w| && w[i] == (f, NowOf(w)[f]);
    }
  }

  /** What a run keeps: exact indexes, no floats, definitions from the catalog. */
  ghost predicate Sound(s: Kv, defs: Defs, cid: U32, catalog: Catalog, arity: Arity) {
    AllExact(s, defs, cid) && NoFloats(s, cid) && AllInCatalog(defs.comps, cid, catalog, arity)
  }

  /** One operation: it writes one entity, or none. */
  ghost predicate Stepped(before: Kv, after: Kv, cid: U32, op: EntityOp) {
    forall e: ByteString :: FieldsOf(after, cid, e) == if Writes(op, e) then WrittenBy(op) else FieldsOf(before, cid, e)
  }

  lemma WriteSteps(s: Kv, defs: Defs, cid: U32, op: EntityOp, catalog: Catalog, arity: Arity)
    requires WellTyped(s, arity) && DistinctIx(defs.comps) && Sound(s, defs, cid, catalog, arity)
    requires OpOk(op, cid, catalog, arity) && (op.Put? || op.TxPut? || op.Delete?)
    ensures var r := Replaced(s, defs, cid, op.eid, WrittenBy(op));
      Sound(r, defs, cid, catalog, arity) && Stepped(s, r, cid, op)
  {
    if !op.Delete? {
      WriteHasNoFloats(op.eid, op.w);
    }
    PutKeepsAllExact(s, defs, cid, op.eid, WrittenBy(op), arity);
    FieldsReplaced(s, defs, cid, op.eid, WrittenBy(op));
    forall e: ByteString | e != op.eid
      ensures FieldsOf(Replaced(s, defs, cid, op.eid, WrittenBy(op)), cid, e) == FieldsOf(s, cid, e)
    {
      FieldsElsewhere(s, defs, cid, op.eid, WrittenBy(op), cid, e);
    }
  }

  lemma IndexSteps(s: Kv, t: Kv, cid: U32, op: EntityOp)
    requires SameEntities(s, t) && !op.Put? && !op.TxPut? && !op.Delete?
    ensures NoFloats(s, cid) ==> NoFloats(t, cid)
    ensures Stepped(s, t, cid, op)
  {
    forall k | k in t && k.Field? ensures At(s, k) == Some(t[k]) {
      assert At(t, k) == At(s, k);
    }
    forall e: ByteString ensures FieldsOf(t, cid, e) == FieldsOf(s, cid, e) {
      SameEntitiesFields(s, t, cid, e);
    }
  }

  method StepWrite(st: EntityStore, cid: U32, op: EntityOp, ghost catalog: Catalog)
    requires st.Valid() && Sound(st.m.live, st.defs(cid), cid, catalog, st.m.arity)
    requires OpOk(op, cid, catalog, st.m.arity) && (op.Put? || op.TxPut? || op.Delete?)
    modifies st`hint, st.m
    ensures st.Valid() && Sound(st.m.live, st.defs(cid), cid, catalog, st.m.arity)
    ensures Stepped(old(st.m.live), st.m.live, cid, op)
  {
    WriteSteps(st.m.live, st.defs(cid), cid, op, catalog, st.m.arity);
    if op.Put? {
      st.Put(cid, op.eid, op.w);
    } else if op.TxPut? {
      st.PutInTransaction(cid, op.eid, op.w);
    } else {
      st.Delete(cid, op.eid);
    }
  }

  method StepIndex(st: EntityStore, cid: U32, op: EntityOp, ghost catalog: Catalog)
    requires st.Valid() && Sound(st.m.live, st.defs(cid), cid, catalog, st.m.arity)
    requires OpOk(op, cid, catalog, st.m.arity) && !op.Put? && !op.TxPut? && !op.Delete?
    modifies st`defs, st.m
    ensures st.Valid() && Sound(st.m.live, st.defs(cid), cid, catalog, st.m.arity)
    ensures Stepped(old(st.m.live), st.m.live, cid, op)
  {
    if op.CreateIndex? {
      st.CreateIndex(cid, op.fid);
    } else if op.DropIndex? {
      st.DropIndex(cid, op.fid);
    } else if op.CreateComposite? {
      st.CreateComposite(cid, op.d);
    } else {
      st.DropComposite(cid, op.d);
    }
    IndexSteps(old(st.m.live), st.m.live, cid, op);
  }

  /** Every entity is what the run last wrote of it. */
  ghost predicate IsResultOf(s: Kv, before: Kv, cid: U32, ops: seq<EntityOp>) {
    forall eid: ByteString :: FieldsOf(s, cid, eid) == LastWritten(ops, eid, FieldsOf(before, cid, eid))
  }

  lemma ResultOfStep(before: Kv, s: Kv, t: Kv, cid: U32, ops: seq<EntityOp>, i: nat)
    requires i < |ops| && IsResultOf(s, before, cid, ops[..i]) && Stepped(s, t, cid, ops[i])
    ensures IsResultOf(t, before, cid, ops[..i + 1])
  {
    assert ops[..i + 1][..i] == ops[..i];
  }

  /** A run without floats: every entity is what was last written, and all indexes there are
      at the end are exact. */
  method Run(st: EntityStore, cid: U32, ops: seq<EntityOp>, ghost catalog: Catalog)
    requires st.Valid() && Sound(st.m.live, st.defs(cid), cid, catalog, st.m.arity)
    requires forall i :: 0 <= i < |ops| ==> OpOk(ops[i], cid, catalog, st.m.arity)
    modifies st, st.m
    ensures st.Valid() && Sound(st.m.live, st.defs(cid), cid, catalog, st.m.arity)
    ensures IsResultOf(st.m.live, old(st.m.live), cid, ops)
  {
    var i := 0;
    ghost var before := st.m.live;
    assert ops[..0] == [];
    while i < |ops|
      invariant 0 <= i <= |ops| && st.Valid()
      invariant Sound(st.m.live, st.defs(cid), cid, catalog, st.m.arity)
      invariant IsResultOf(st.m.live, before, cid, ops[..i])
    {
      ghost var s := st.m.live;
      var op := ops[i];
      if op.Put? || op.TxPut? || op.Delete? {
        StepWrite(st, cid, op, catalog);
      } else {
        StepIndex(st, cid, op, catalog);
      }
      ResultOfStep(before, s, st.m.live, cid, ops, i);
      i := i + 1;
    }
    assert ops[..i] == ops;
  }

  /** After such a run every index lookup, with any bounds, equals a full scan. */
  method RunThenFind(st: EntityStore, cid: U32, ops: seq<EntityOp>, fid: U32, lower: Bound, upper: Bound,
                     ghost catalog: Catalog)
      returns (r: Result<seq<ByteString>>)
    requires st.Valid() && Sound(st.m.live, st.defs(cid), cid, catalog, st.m.arity)
    requires (forall i :: 0 <= i < |ops| ==> OpOk(ops[i], cid, catalog, st.m.arity)) && fid != COMPOSITE_FIELD_MARKER
    modifies st, st.m
    ensures st.Valid() && IsResultOf(st.m.live, old(st.m.live), cid, ops)
    ensures r.Ok? <==> fid in st.defs(cid).single
    ensures r.Ok? ==> DistinctIds(r.value) && forall eid :: eid in r.value <==> Hit(st.m.live, cid, eid, fid, lower, upper)
  {
    Run(st, cid, ops, catalog);
    if fid in st.defs(cid).single {
      ExactCovers(st.m.live, st.defs(cid), cid, fid);
    }
    r := Find(st.m, fid in st.defs(cid).single, cid, fid, lower, upper);
  }
}
