/** Creating and dropping indexes keeps all indexes of a collection exact. */
module IndexChanges {
  import opened Bytes
  import opened KeyCodec
  import opened Store
  import opened Entities
  import opened Indexes

  function WithSingle(defs: Defs, fid: U32): Defs {
    if fid in defs.single then defs else defs.(single := defs.single + [fid])
  }

  function WithoutSingle(defs: Defs, fid: U32): Defs {
    defs.(single := Without(defs.single, fid))
  }

  function Without(s: seq<U32>, f: U32): (r: seq<U32>)
    ensures forall x :: x in r <==> x in s && x != f
  {
    if s == [] then []
    else
      var rest := Without(s[1..], f);
      assert s == [s[0]] + s[1..];
      if s[0] == f then rest else [s[0]] + rest
  }

  /** A composite index with the same fields stays the one it is. */
  function WithComp(defs: Defs, d: CompDef): Defs {
    if d in defs.comps then defs else defs.(comps := defs.comps + [d])
  }

  function WithoutComp(defs: Defs, ix: U32): Defs {
    defs.(comps := CompsWithout(defs.comps, ix))
  }

  function CompsWithout(s: seq<CompDef>, ix: U32): (r: seq<CompDef>)
    ensures forall d :: d in r <==> d in s && d.ix != ix
    ensures DistinctIx(s) ==> DistinctIx(r)
  {
    if s == [] then []
    else
      var rest := CompsWithout(s[1..], ix);
      assert s == [s[0]] + s[1..];
      assert DistinctIx(s) ==> DistinctIx(s[1..]) && forall i :: 0 <= i < |rest| ==> rest[i] in s[1..];
      if s[0].ix == ix then rest else [s[0]] + rest
  }

  /** Both states have the same entities. */
  ghost predicate SameEntities(s: Kv, t: Kv) {
    forall k: Key :: k.Field? ==> At(t, k) == At(s, k)
  }

  lemma SameEntitiesFields(s: Kv, t: Kv, cid: U32, eid: ByteString)
    requires SameEntities(s, t)
    ensures FieldsOf(t, cid, eid) == FieldsOf(s, cid, eid)
  {
    forall f ensures At(t, Field(cid, eid, f)) == At(s, Field(cid, eid, f)) {
    }
    FieldsFollow(s, t, cid, eid);
  }

  /** An index key of the new definitions is as exact as before, or newly made so. */
  lemma StillExact(s: Kv, t: Kv, defs: Defs, more: Defs, cid: U32)
    requires AllExact(s, defs, cid) && SameEntities(s, t)
    requires forall k: Key :: k.cid == cid && Owned(k, more, cid, k.eid) && !k.Field? ==>
      (k in t <==> Wanted(k, more, FieldsOf(t, cid, k.eid)))
    ensures AllExact(t, more, cid)
  {
    forall eid: ByteString ensures ExactFor(t, more, cid, eid) {
      forall k | Owned(k, more, cid, eid) ensures k in t <==> Wanted(k, more, FieldsOf(t, cid, eid)) {
        if k.Field? {
          SameEntitiesFields(s, t, cid, eid);
          assert Owned(k, defs, cid, eid) && ExactFor(s, defs, cid, eid);
          assert At(t, k) == At(s, k);
        }
      }
    }
  }

  /** What holds of a key that no change concerns. */
  lemma KeptExact(s: Kv, t: Kv, defs: Defs, cid: U32, k: Key)
    requires AllExact(s, defs, cid) && SameEntities(s, t) && Owned(k, defs, cid, k.eid) && At(t, k) == At(s, k)
    ensures k in t <==> Wanted(k, defs, FieldsOf(t, cid, k.eid))
  {
    SameEntitiesFields(s, t, cid, k.eid);
    assert ExactFor(s, defs, cid, k.eid);
  }

  lemma IndexCreated(s: Kv, defs: Defs, cid: U32, fid: U32)
    requires AllExact(s, defs, cid)
    ensures var t := s - EntriesOf(s, cid, fid) + Empties(WantedEntries(s, cid, fid));
      AllExact(t, WithSingle(defs, fid), cid) && SameEntities(s, t)
  {
    var t, more := s - EntriesOf(s, cid, fid) + Empties(WantedEntries(s, cid, fid)), WithSingle(defs, fid);
    forall k: Key | k.cid == cid && Owned(k, more, cid, k.eid) && !k.Field?
      ensures k in t <==> Wanted(k, more, FieldsOf(t, cid, k.eid))
    {
      if IsEntryOf(k, cid, fid) {
        RebuiltIsExact(s, cid, fid, k);
        SameEntitiesFields(s, t, cid, k.eid);
      } else {
        KeptExact(s, t, defs, cid, k);
        assert Wanted(k, more, FieldsOf(t, cid, k.eid)) <==> Wanted(k, defs, FieldsOf(t, cid, k.eid));
      }
    }
    StillExact(s, t, defs, more, cid);
  }

  lemma IndexDropped(s: Kv, defs: Defs, cid: U32, fid: U32)
    requires AllExact(s, defs, cid)
    ensures var t := s - EntriesOf(s, cid, fid);
      AllExact(t, WithoutSingle(defs, fid), cid) && SameEntities(s, t)
  {
    var t, less := s - EntriesOf(s, cid, fid), WithoutSingle(defs, fid);
    forall k: Key | k.cid == cid && Owned(k, less, cid, k.eid) && !k.Field?
      ensures k in t <==> Wanted(k, less, FieldsOf(t, cid, k.eid))
    {
      KeptExact(s, t, defs, cid, k);
    }
    StillExact(s, t, defs, less, cid);
  }

  lemma TuplesCreated(s: Kv, t: Kv, defs: Defs, cid: U32, d: CompDef)
    requires AllExact(s, defs, cid) && DistinctIx(WithComp(defs, d).comps)
    requires forall k: Key :: At(t, k) == TupleRebuilt(s, cid, d, k)
    ensures AllExact(t, WithComp(defs, d), cid) && SameEntities(s, t)
  {
    var more := WithComp(defs, d);
    ComposedEntities(s, t, cid, d);
    forall k: Key | k.cid == cid && Owned(k, more, cid, k.eid) && !k.Field?
      ensures k in t <==> Wanted(k, more, FieldsOf(t, cid, k.eid))
    {
      assert At(t, k) == TupleRebuilt(s, cid, d, k);
      if k.Composite? && k.ix == d.ix {
        SameEntitiesFields(s, t, cid, k.eid);
        OnlyThisIndex(more, d, k, FieldsOf(s, cid, k.eid));
      } else {
        OtherIndex(defs, d, cid, k, FieldsOf(t, cid, k.eid));
        KeptExact(s, t, defs, cid, k);
      }
    }
    StillExact(s, t, defs, more, cid);
  }

  lemma OnlyThisIndex(defs: Defs, d: CompDef, k: Key, fs: Fields)
    requires d in defs.comps && DistinctIx(defs.comps) && k.Composite? && k.ix == d.ix
    ensures Wanted(k, defs, fs) <==> Complete(fs, d.fids) && k == CompKey(k.cid, k.eid, d, fs)
  {
    var j :| 0 <= j < |defs.comps| && defs.comps[j] == d;
    if Complete(fs, d.fids) && k == CompKey(k.cid, k.eid, d, fs) {
      assert HasTuple(defs.comps[j], k.ix, k.codes, fs);
    }
    if Wanted(k, defs, fs) {
      var i :| 0 <= i < |defs.comps| && HasTuple(defs.comps[i], k.ix, k.codes, fs);
      assert i == j;
    }
  }

  lemma OtherIndex(defs: Defs, d: CompDef, cid: U32, k: Key, fs: Fields)
    requires Owned(k, WithComp(defs, d), cid, k.eid) && !(k.Composite? && k.ix == d.ix)
    ensures Owned(k, defs, cid, k.eid) && (Wanted(k, WithComp(defs, d), fs) <==> Wanted(k, defs, fs))
  {
    var more := WithComp(defs, d);
    if k.Composite? {
      forall i | 0 <= i < |defs.comps| ensures more.comps[i] == defs.comps[i] {
      }
      if Wanted(k, more, fs) {
        var i :| 0 <= i < |more.comps| && HasTuple(more.comps[i], k.ix, k.codes, fs);
        assert HasTuple(defs.comps[i], k.ix, k.codes, fs);
      }
      if Wanted(k, defs, fs) {
        var i :| 0 <= i < |defs.comps| && HasTuple(defs.comps[i], k.ix, k.codes, fs);
        assert HasTuple(more.comps[i], k.ix, k.codes, fs);
      }
    }
  }

  lemma TuplesDropped(s: Kv, defs: Defs, cid: U32, ix: U32)
    requires AllExact(s, defs, cid)
    ensures var t := s - TuplesOf(s, cid, ix);
      AllExact(t, WithoutComp(defs, ix), cid) && SameEntities(s, t)
  {
    var t, less := s - TuplesOf(s, cid, ix), WithoutComp(defs, ix);
    forall k: Key | k.cid == cid && Owned(k, less, cid, k.eid) && !k.Field?
      ensures k in t <==> Wanted(k, less, FieldsOf(t, cid, k.eid))
    {
      RemainingIndex(defs, ix, cid, k, FieldsOf(t, cid, k.eid));
      KeptExact(s, t, defs, cid, k);
    }
    StillExact(s, t, defs, less, cid);
  }

  lemma RemainingIndex(defs: Defs, ix: U32, cid: U32, k: Key, fs: Fields)
    requires Owned(k, WithoutComp(defs, ix), cid, k.eid)
    ensures Owned(k, defs, cid, k.eid) && (k.Composite? ==> k.ix != ix)
    ensures Wanted(k, WithoutComp(defs, ix), fs) <==> Wanted(k, defs, fs)
  {
    var less := WithoutComp(defs, ix);
    if k.Composite? {
      var i :| 0 <= i < |less.comps| && less.comps[i].ix == k.ix;
      assert less.comps[i] in defs.comps;
      if Wanted(k, less, fs) {
        var j :| 0 <= j < |less.comps| && HasTuple(less.comps[j], k.ix, k.codes, fs);
        assert less.comps[j] in defs.comps;
      }
      if Wanted(k, defs, fs) {
        var j :| 0 <= j < |defs.comps| && HasTuple(defs.comps[j], k.ix, k.codes, fs);
        assert defs.comps[j] in less.comps;
      }
    }
  }

  lemma RebuiltEntities(s: Kv, cid: U32, fid: U32)
    ensures SameEntities(s, s - EntriesOf(s, cid, fid) + Empties(WantedEntries(s, cid, fid)))
  {
  }

  lemma ComposedEntities(s: Kv, t: Kv, cid: U32, d: CompDef)
    requires forall k: Key :: At(t, k) == TupleRebuilt(s, cid, d, k)
    ensures SameEntities(s, t)
  {
    forall k: Key | k.Field? ensures At(t, k) == At(s, k) {
      assert At(t, k) == TupleRebuilt(s, cid, d, k);
    }
  }
}
