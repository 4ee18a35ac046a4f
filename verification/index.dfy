/** Index lookup, clearing and rebuilding (src/index.rs). A lookup answers what a full scan
    of the entities would answer. */
module Indexes {
  import opened Std
  import opened Bytes
  import opened OrderedValues
  import opened KeyCodec
  import opened Store
  import opened Entities
  import opened EntityWrites

  predicate DistinctIds(ids: seq<ByteString>) {
    forall i, j :: 0 <= i < j < |ids| ==> ids[i] != ids[j]
  }

  // ---- single-field lookup ----

  /** The entity has the field, and its value is within the bounds. */
  predicate Hit(s: Kv, cid: U32, eid: ByteString, fid: U32, lower: Bound, upper: Bound) {
    var k := Field(cid, eid, fid);
    k in s && s[k].Val? && Within(s[k].v, lower, upper)
  }

  /** No entry of this one index is missing. */
  ghost predicate EntriesCover(s: Kv, cid: U32, fid: U32) {
    Covers(s, [fid], cid)
  }

  /** The rows of an index range are entries of the field, every wanted one among them. */
  lemma IndexRowsAre(rows: seq<Row>, s: Kv, arity: Arity, cid: U32, fid: U32, lower: Bound, upper: Bound)
    requires WellTyped(s, arity) && fid != COMPOSITE_FIELD_MARKER
    requires forall i :: 0 <= i < |rows| ==> Storable(rows[i].key, arity)
    requires var (start, end) := IndexRange(cid, fid, lower, upper); IsScan(rows, s, Some(start), end)
    ensures forall i :: 0 <= i < |rows| ==> IsEntryOf(rows[i].key, cid, fid)
    ensures EntriesCover(s, cid, fid) ==>
      forall eid :: Hit(s, cid, eid, fid, lower, upper) ==> EntryRow(rows, eid)
  {
    var (start, end) := IndexRange(cid, fid, lower, upper);
    forall i | 0 <= i < |rows| ensures IsEntryOf(rows[i].key, cid, fid) {
      IndexRangeExact(cid, fid, lower, upper, rows[i].key);
    }
    if EntriesCover(s, cid, fid) {
      forall eid | Hit(s, cid, eid, fid, lower, upper) ensures EntryRow(rows, eid) {
        HitHasRow(rows, s, arity, cid, eid, fid, lower, upper);
      }
    }
  }

  predicate IsEntryOf(k: Key, cid: U32, fid: U32) {
    k.Index? && k.cid == cid && k.fid == fid
  }

  ghost predicate EntryRow(rows: seq<Row>, eid: ByteString) {
    exists i :: 0 <= i < |rows| && rows[i].key.eid == eid
  }

  lemma HitHasRow(rows: seq<Row>, s: Kv, arity: Arity, cid: U32, eid: ByteString, fid: U32, lower: Bound, upper: Bound)
    requires WellTyped(s, arity) && fid != COMPOSITE_FIELD_MARKER && EntriesCover(s, cid, fid)
    requires var (start, end) := IndexRange(cid, fid, lower, upper); IsScan(rows, s, Some(start), end)
    requires Hit(s, cid, eid, fid, lower, upper)
    ensures EntryRow(rows, eid)
  {
    var f := Field(cid, eid, fid);
    var k := IndexKey(cid, eid, fid, s[f].v);
    assert f in s && f.fid in [fid];
    assert k in s && Storable(k, arity);
    IndexRangeExact(cid, fid, lower, upper, k);
    CodeWithinIs(s[f].v, lower, upper);
    assert HasRow(rows, k);
  }

  /** `find_m` (src/index.rs:138-170): candidates from the index, each verified against its
      entity, every id once. With no entry missing the answer is that of a full scan. */
  method Find(m: Mutator, hasIndex: bool, cid: U32, fid: U32, lower: Bound, upper: Bound) returns (r: Result<seq<ByteString>>)
    requires m.Valid() && fid != COMPOSITE_FIELD_MARKER
    ensures r.Err? <==> !hasIndex
    ensures r.Ok? ==> DistinctIds(r.value)
    ensures r.Ok? ==> forall eid :: eid in r.value ==> Hit(m.live, cid, eid, fid, lower, upper)
    ensures r.Ok? && EntriesCover(m.live, cid, fid) ==>
      forall eid :: eid in r.value <==> Hit(m.live, cid, eid, fid, lower, upper)
  {
    if !hasIndex {
      return Err(InvalidArgument);
    }
    var (start, end) := IndexRange(cid, fid, lower, upper);
    var rows := m.Scan(Some(start), end);
    IndexRowsAre(rows, m.live, m.arity, cid, fid, lower, upper);
    var ids := Verify(m, rows, cid, fid, lower, upper);
    return Ok(ids);
  }

  /** The candidates seen so far, and those of them that were hits. */
  ghost predicate Verified(ids: seq<ByteString>, seen: set<ByteString>, rows: seq<Row>, s: Kv, cid: U32, fid: U32,
                           lower: Bound, upper: Bound)
  {
    && DistinctIds(ids)
    && (forall eid :: eid in ids <==> eid in seen && Hit(s, cid, eid, fid, lower, upper))
    && (forall i :: 0 <= i < |rows| ==> rows[i].key.eid in seen)
  }

  lemma VerifiedSnoc(ids: seq<ByteString>, seen: set<ByteString>, rows: seq<Row>, i: nat, s: Kv, cid: U32, fid: U32,
                     lower: Bound, upper: Bound)
    requires i < |rows| && Verified(ids, seen, rows[..i], s, cid, fid, lower, upper)
    ensures var eid := rows[i].key.eid;
      Verified(if eid !in seen && Hit(s, cid, eid, fid, lower, upper) then ids + [eid] else ids,
               seen + {eid}, rows[..i + 1], s, cid, fid, lower, upper)
  {
    var eid := rows[i].key.eid;
    var longer := rows[..i + 1];
    forall j | 0 <= j < |longer| ensures longer[j].key.eid in seen + {eid} {
      assert j < i ==> longer[j] == rows[..i][j];
    }
  }

  /** `field_value_m`, then `within`. */
  method CheckHit(m: Mutator, cid: U32, eid: ByteString, fid: U32, lower: Bound, upper: Bound) returns (hit: bool)
    ensures hit <==> Hit(m.live, cid, eid, fid, lower, upper)
  {
    var actual := m.Get(Field(cid, eid, fid));
    hit := actual.Some? && actual.value.Val? && Within(actual.value.v, lower, upper);
  }

  method Verify(m: Mutator, rows: seq<Row>, cid: U32, fid: U32, lower: Bound, upper: Bound) returns (ids: seq<ByteString>)
    requires m.Valid() && forall i :: 0 <= i < |rows| ==> IsEntryOf(rows[i].key, cid, fid)
    ensures DistinctIds(ids)
    ensures forall eid :: eid in ids <==> EntryRow(rows, eid) && Hit(m.live, cid, eid, fid, lower, upper)
  {
    ids := [];
    var seen: set<ByteString> := {};
    var i := 0;
    while i < |rows|
      invariant 0 <= i <= |rows| && Verified(ids, seen, rows[..i], m.live, cid, fid, lower, upper)
      invariant forall eid :: eid in seen ==> EntryRow(rows, eid)
    {
      var eid := rows[i].key.eid;
      VerifiedSnoc(ids, seen, rows, i, m.live, cid, fid, lower, upper);
      if eid !in seen {
        var hit := CheckHit(m, cid, eid, fid, lower, upper);
        if hit {
          ids := ids + [eid];
        }
      }
      seen := seen + {eid};
      i := i + 1;
    }
    assert rows[..i] == rows;
  }

  // ---- composite lookup ----

  /** Every leading component is there and within its bounds. */
  predicate LeadsHit(fs: Fields, fids: seq<U32>, leads: seq<Lead>) {
    forall i :: 0 <= i < |leads| ==> LeadHit(fs, fids, leads[i])
  }

  predicate LeadHit(fs: Fields, fids: seq<U32>, lead: Lead) {
    lead.pos < |fids| && fids[lead.pos] in fs && Within(fs[fids[lead.pos]], lead.lower, lead.upper)
  }

  /** The bounds are those of the first components, in order. */
  predicate InOrder(leads: seq<Lead>) {
    forall i :: 0 <= i < |leads| ==> leads[i].pos == i
  }

  /** Every complete tuple has its entry in this composite index. */
  ghost predicate TuplesCovered(s: Kv, cid: U32, d: CompDef) {
    forall eid: ByteString :: Complete(FieldsOf(s, cid, eid), d.fids) ==> CompKey(cid, eid, d, FieldsOf(s, cid, eid)) in s
  }

  lemma LeadsOfTuple(fs: Fields, fids: seq<U32>, leads: seq<Lead>)
    requires Complete(fs, fids) && InOrder(leads) && |leads| <= |fids|
    ensures LeadsMatch(Codes(Tuple(fs, fids)), leads) <==> LeadsHit(fs, fids, leads)
  {
    var codes := Codes(Tuple(fs, fids));
    forall i | 0 <= i < |leads|
      ensures CodeWithin(codes[i], leads[i].lower, leads[i].upper) <==> LeadHit(fs, fids, leads[i])
    {
      CodeWithinIs(fs[fids[i]], leads[i].lower, leads[i].upper);
    }
  }

  /** What `composite_index_range` returns. */
  function CompositeRange(cid: U32, ix: U32, leads: seq<Lead>): (ByteString, Option<ByteString>) {
    var p := CompositePrefix(cid, ix);
    if leads == [] || EqualityCodes(leads[..|leads| - 1]).None? then (p, Successor(p))
    else RangeBehind(p + EqualityCodes(leads[..|leads| - 1]).value, leads[|leads| - 1].lower, leads[|leads| - 1].upper)
  }

  ghost predicate IsCompositeRange(cid: U32, ix: U32, leads: seq<Lead>, start: ByteString, end: Option<ByteString>) {
    (start, end) == CompositeRange(cid, ix, leads)
  }

  /** An entity whose complete tuple satisfies the bounds has a row in the range. */
  lemma TupleHasRow(rows: seq<Row>, s: Kv, arity: Arity, cid: U32, d: CompDef, leads: seq<Lead>, eid: ByteString,
                    start: ByteString, end: Option<ByteString>)
    requires WellTyped(s, arity) && IsScan(rows, s, Some(start), end)
    requires RangeServes(s, cid, d, leads) && IsCompositeRange(cid, d.ix, leads, start, end)
    requires CompleteHit(s, cid, eid, d, leads)
    ensures EntryRow(rows, eid)
  {
    var fs := FieldsOf(s, cid, eid);
    var k := CompKey(cid, eid, d, fs);
    assert k in s && Storable(k, arity);
    LeadsOfTuple(fs, d.fids, leads);
    TupleInRange(cid, d.ix, leads, k, start, end);
    assert HasRow(rows, k);
  }

  lemma TupleInRange(cid: U32, ix: U32, leads: seq<Lead>, k: Key, start: ByteString, end: Option<ByteString>)
    requires ValidKey(k) && Pinned(leads) && IsCompositeRange(cid, ix, leads, start, end)
    requires k.Composite? && k.cid == cid && k.ix == ix && LeadsMatch(k.codes, leads)
    ensures InRange(EncodeKey(k), Some(start), end)
  {
    if leads == [] || EqualityCodes(leads[..|leads| - 1]).None? {
      PrefixRangeExact(CompositePrefix(cid, ix), EncodeKey(k));
      CompositePrefixExact(cid, ix, k);
    } else {
      var head := leads[..|leads| - 1];
      AllInclusive(head);
      forall i | 0 <= i < |leads| - 1 ensures leads[i].lower.Inclusive? {
        assert head[i] == leads[i];
      }
      CompositeRangeCovers(cid, ix, leads, k);
    }
  }

  /** `find_composite_m` (src/index.rs:285-339): every answer satisfies the bounds. Of the
      entities that do, those with all fields of the index are found, and those for which
      the scan yields a deleted entry; if entries stand for complete tuples only, no others. */
  method FindComposite(m: Mutator, def: Option<CompDef>, cid: U32, leads: seq<Lead>) returns (r: Result<seq<ByteString>>)
    requires m.Valid()
    requires def.Some? ==> |def.value.fids| == m.arity(cid, def.value.ix)
    requires def.Some? ==> forall i :: 0 <= i < |leads| ==> leads[i].pos < |def.value.fids|
    ensures r.Err? <==> def.None?
    ensures r.Ok? ==> DistinctIds(r.value)
    ensures r.Ok? ==> forall eid :: eid in r.value ==> LeadsHit(FieldsOf(m.live, cid, eid), def.value.fids, leads)
    ensures r.Ok? && RangeServes(m.live, cid, def.value, leads) ==>
      forall eid :: Listed(m.live, m.dead, cid, eid, def.value, leads) ==> eid in r.value
    ensures r.Ok? && TuplesTrue(m.live, cid, def.value) ==>
      forall eid :: eid in r.value ==> Listed(m.live, m.dead, cid, eid, def.value, leads)
  {
    if def.None? {
      return Err(InvalidArgument);
    }
    var d := def.value;
    var start, end := CompositeIndexRange(cid, d.ix, leads);
    var rows := m.Scan(Some(start), end);
    if RangeServes(m.live, cid, d, leads) {
      forall eid | Listed(m.live, m.dead, cid, eid, d, leads) ensures EntryRow(rows, eid) {
        ListedHasRow(rows, m.live, m.dead, m.arity, cid, d, leads, eid, start, end);
      }
    }
    var ids := VerifyLeads(m, rows, cid, d.fids, leads);
    if TuplesTrue(m.live, cid, d) {
      forall eid | eid in ids ensures Listed(m.live, m.dead, cid, eid, d, leads) {
        FoundIsListed(rows, m.live, m.dead, m.arity, cid, d, leads, eid, start, end);
      }
    }
    return Ok(ids);
  }

  /** The range of a composite lookup is guaranteed to contain what it should. */
  ghost predicate RangeServes(s: Kv, cid: U32, d: CompDef, leads: seq<Lead>) {
    TuplesCovered(s, cid, d) && InOrder(leads) && Pinned(leads) && |leads| <= |d.fids|
  }

  /** Live entries stand for complete tuples. */
  ghost predicate TuplesTrue(s: Kv, cid: U32, d: CompDef) {
    forall k :: k in s && k.Composite? && k.cid == cid && k.ix == d.ix ==> Complete(FieldsOf(s, cid, k.eid), d.fids)
  }

  predicate CompleteHit(s: Kv, cid: U32, eid: ByteString, d: CompDef, leads: seq<Lead>) {
    Complete(FieldsOf(s, cid, eid), d.fids) && LeadsHit(FieldsOf(s, cid, eid), d.fids, leads)
  }

  /** The range of the lookup has a deleted entry of the entity. */
  ghost predicate OldTuple(dead: set<Key>, cid: U32, eid: ByteString, d: CompDef, leads: seq<Lead>) {
    exists k :: k in dead && IsOldTuple(k, cid, eid, d, leads)
  }

  predicate IsOldTuple(k: Key, cid: U32, eid: ByteString, d: CompDef, leads: seq<Lead>) {
    var (start, end) := CompositeRange(cid, d.ix, leads);
    k.eid == eid && KeyInRange(k, Some(start), end)
  }

  /** What a lookup finds: of the entities within the bounds the complete ones, and others
      only by a deleted entry. */
  ghost predicate Listed(s: Kv, dead: set<Key>, cid: U32, eid: ByteString, d: CompDef, leads: seq<Lead>) {
    && LeadsHit(FieldsOf(s, cid, eid), d.fids, leads)
    && (Complete(FieldsOf(s, cid, eid), d.fids) || OldTuple(dead, cid, eid, d, leads))
  }

  lemma ListedHasRow(rows: seq<Row>, s: Kv, dead: set<Key>, arity: Arity, cid: U32, d: CompDef, leads: seq<Lead>,
                     eid: ByteString, start: ByteString, end: Option<ByteString>)
    requires WellTyped(s, arity) && IsScan(rows, s, Some(start), end)
    requires forall k :: k in dead && KeyInRange(k, Some(start), end) ==> HasRow(rows, k)
    requires RangeServes(s, cid, d, leads) && IsCompositeRange(cid, d.ix, leads, start, end)
    requires Listed(s, dead, cid, eid, d, leads)
    ensures EntryRow(rows, eid)
  {
    if Complete(FieldsOf(s, cid, eid), d.fids) {
      TupleHasRow(rows, s, arity, cid, d, leads, eid, start, end);
    } else {
      var k :| k in dead && IsOldTuple(k, cid, eid, d, leads);
      assert HasRow(rows, k);
      var i :| 0 <= i < |rows| && rows[i].key == k;
      assert rows[i].key.eid == eid;
    }
  }

  lemma FoundIsListed(rows: seq<Row>, s: Kv, dead: set<Key>, arity: Arity, cid: U32, d: CompDef, leads: seq<Lead>,
                      eid: ByteString, start: ByteString, end: Option<ByteString>)
    requires TuplesTrue(s, cid, d) && IsScan(rows, s, Some(start), end) && IsCompositeRange(cid, d.ix, leads, start, end)
    requires forall i :: 0 <= i < |rows| ==> Storable(rows[i].key, arity) && (rows[i].key in s || rows[i].key in dead)
    requires EntryRow(rows, eid) && LeadsHit(FieldsOf(s, cid, eid), d.fids, leads)
    ensures Listed(s, dead, cid, eid, d, leads)
  {
    var i :| 0 <= i < |rows| && rows[i].key.eid == eid;
    var k := rows[i].key;
    if k in s {
      CompositeRangeIsOwn(cid, d.ix, leads, k);
    } else {
      assert IsOldTuple(k, cid, eid, d, leads);
    }
  }

  /** Only keys of the index are in the range of a lookup. */
  lemma CompositeRangeIsOwn(cid: U32, ix: U32, leads: seq<Lead>, k: Key)
    requires ValidKey(k)
    requires var (start, end) := CompositeRange(cid, ix, leads); KeyInRange(k, Some(start), end)
    ensures k.Composite? && k.cid == cid && k.ix == ix
  {
    var p := CompositePrefix(cid, ix);
    CompositePrefixExact(cid, ix, k);
    if leads == [] || EqualityCodes(leads[..|leads| - 1]).None? {
      PrefixRangeExact(p, EncodeKey(k));
    } else {
      var eqs := EqualityCodes(leads[..|leads| - 1]).value;
      RangeBehindExact(p + eqs, leads[|leads| - 1].lower, leads[|leads| - 1].upper, EncodeKey(k));
      PrefixOfPrefix(p, eqs, EncodeKey(k));
    }
  }

  lemma PrefixOfPrefix(p: ByteString, q: ByteString, k: ByteString)
    requires p + q <= k
    ensures p <= k
  {
    assert k[..|p|] == (p + q)[..|p|] == p;
  }

  /** With an exact index, a lookup finds all entities within the bounds if and only if each of
      them has all fields of the index or a deleted entry in the range. */
  lemma AllFoundIff(ids: seq<ByteString>, s: Kv, dead: set<Key>, cid: U32, d: CompDef, leads: seq<Lead>)
    requires forall eid :: eid in ids <==> Listed(s, dead, cid, eid, d, leads)
    ensures (forall eid :: LeadsHit(FieldsOf(s, cid, eid), d.fids, leads) ==> eid in ids) <==> AllListed(s, dead, cid, d, leads)
  {
  }

  ghost predicate AllListed(s: Kv, dead: set<Key>, cid: U32, d: CompDef, leads: seq<Lead>) {
    forall eid: ByteString :: LeadsHit(FieldsOf(s, cid, eid), d.fids, leads) ==>
      Complete(FieldsOf(s, cid, eid), d.fids) || OldTuple(dead, cid, eid, d, leads)
  }

  method VerifyLeads(m: Mutator, rows: seq<Row>, cid: U32, fids: seq<U32>, leads: seq<Lead>) returns (ids: seq<ByteString>)
    requires m.Valid() && forall i :: 0 <= i < |leads| ==> leads[i].pos < |fids|
    ensures DistinctIds(ids)
    ensures forall eid :: eid in ids ==> EntryRow(rows, eid) && LeadsHit(FieldsOf(m.live, cid, eid), fids, leads)
    ensures forall eid :: EntryRow(rows, eid) && LeadsHit(FieldsOf(m.live, cid, eid), fids, leads) ==> eid in ids
  {
    ids := [];
    var i := 0;
    while i < |rows|
      invariant 0 <= i <= |rows| && DistinctIds(ids)
      invariant forall eid :: eid in ids ==> EntryRow(rows, eid) && LeadsHit(FieldsOf(m.live, cid, eid), fids, leads)
      invariant forall j :: 0 <= j < i && LeadsHit(FieldsOf(m.live, cid, rows[j].key.eid), fids, leads) ==> rows[j].key.eid in ids
    {
      var eid := rows[i].key.eid;
      var ok := CheckLeads(m, cid, eid, fids, leads);
      if ok && eid !in ids {
        ids := ids + [eid];
      }
      i := i + 1;
    }
  }

  /** Verifies one component of a candidate against the real value. */
  method CheckLead(m: Mutator, cid: U32, eid: ByteString, fids: seq<U32>, lead: Lead) returns (ok: bool)
    requires lead.pos < |fids|
    ensures ok <==> LeadHit(FieldsOf(m.live, cid, eid), fids, lead)
  {
    var actual := m.Get(Field(cid, eid, fids[lead.pos]));
    ok := actual.Some? && actual.value.Val? && Within(actual.value.v, lead.lower, lead.upper);
  }

  /** Verifies a candidate against the real values of its entity. */
  method CheckLeads(m: Mutator, cid: U32, eid: ByteString, fids: seq<U32>, leads: seq<Lead>) returns (ok: bool)
    requires forall i :: 0 <= i < |leads| ==> leads[i].pos < |fids|
    ensures ok <==> LeadsHit(FieldsOf(m.live, cid, eid), fids, leads)
  {
    ghost var fs := FieldsOf(m.live, cid, eid);
    var i := 0;
    while i < |leads|
      invariant 0 <= i <= |leads| && forall j :: 0 <= j < i ==> LeadHit(fs, fids, leads[j])
    {
      ok := CheckLead(m, cid, eid, fids, leads[i]);
      if !ok {
        return;
      }
      i := i + 1;
    }
    return true;
  }

  /** All components bound: an entity that satisfies the bounds has all fields. */
  lemma FullyBoundIsComplete(fs: Fields, fids: seq<U32>, leads: seq<Lead>)
    requires InOrder(leads) && |leads| == |fids|
    ensures LeadsHit(fs, fids, leads) ==> Complete(fs, fids)
  {
    if LeadsHit(fs, fids, leads) {
      forall i | 0 <= i < |fids| ensures fids[i] in fs {
        assert LeadHit(fs, fids, leads[i]);
      }
    }
  }

  /** A fully bound composite lookup is exact. */
  method FindFullyBound(m: Mutator, d: CompDef, cid: U32, leads: seq<Lead>) returns (ids: seq<ByteString>)
    requires m.Valid() && |d.fids| == m.arity(cid, d.ix) && TuplesCovered(m.live, cid, d)
    requires InOrder(leads) && EqualityLed(leads) && |leads| == |d.fids|
    ensures DistinctIds(ids)
    ensures forall eid :: eid in ids <==> LeadsHit(FieldsOf(m.live, cid, eid), d.fids, leads)
  {
    EqualityIsPinned(leads);
    var r := FindComposite(m, Some(d), cid, leads);
    ids := r.value;
    forall eid | LeadsHit(FieldsOf(m.live, cid, eid), d.fids, leads) ensures eid in ids {
      FullyBoundIsComplete(FieldsOf(m.live, cid, eid), d.fids, leads);
      assert CompleteHit(m.live, cid, eid, d, leads);
    }
  }

  /** A partly bound lookup misses a match: the entity has no trailing field, hence no entry. */
  method PartlyBoundMisses(m: Mutator, cid: U32, eid: ByteString, d: CompDef, v: Value) returns (ids: seq<ByteString>)
    requires m.Valid() && |d.fids| == 2 == m.arity(cid, d.ix) && d.fids[0] != d.fids[1]
    requires m.live == map[Field(cid, eid, d.fids[0]) := Val(v)] && m.dead == {}
    ensures LeadsHit(FieldsOf(m.live, cid, eid), d.fids, [Lead(0, Inclusive(v), Inclusive(v))])
    ensures forall e :: e !in ids
  {
    var leads := [Lead(0, Inclusive(v), Inclusive(v))];
    forall e: ByteString ensures !Complete(FieldsOf(m.live, cid, e), d.fids) {
      assert d.fids[1] !in FieldsOf(m.live, cid, e);
    }
    assert forall e: ByteString :: !Listed(m.live, m.dead, cid, e, d, leads);
    CodeWithinIs(v, Inclusive(v), Inclusive(v));
    OrderEmbedding(v, v);
    assert LeadHit(FieldsOf(m.live, cid, eid), d.fids, leads[0]);
    var r := FindComposite(m, Some(d), cid, leads);
    ids := r.value;
  }

  // ---- clearing and rebuilding ----

  /** Keys of one single-field index. */
  function EntriesOf(s: Kv, cid: U32, fid: U32): set<Key> {
    set k | k in s && IsEntryOf(k, cid, fid)
  }

  /** Deletes the keys of live rows. */
  method DeleteRows(m: Mutator, rows: seq<Row>, ghost keys: set<Key>)
    requires m.Valid() && forall i :: 0 <= i < |rows| ==> Storable(rows[i].key, m.arity)
    requires forall i :: 0 <= i < |rows| && rows[i].stored.Some? ==> rows[i].key in keys
    requires forall k :: k in keys ==> exists i :: 0 <= i < |rows| && rows[i].stored.Some? && rows[i].key == k
    modifies m
    ensures m.Valid() && m.live == old(m.live) - keys
  {
    ghost var done: set<Key> := {};
    var i := 0;
    PlusNothing(m.live);
    while i < |rows|
      invariant 0 <= i <= |rows| && m.Valid() && m.live == old(m.live) - done && done <= keys
      invariant forall j :: 0 <= j < i && rows[j].stored.Some? ==> rows[j].key in done
    {
      if rows[i].stored.Some? {
        MinusMore(old(m.live), done, rows[i].key);
        m.Delete(rows[i].key);
        done := done + {rows[i].key};
      }
      i := i + 1;
    }
    assert done == keys;
  }

  /** `clear` (src/index.rs:408-420): every entry of the index, and nothing else. */
  method Clear(m: Mutator, cid: U32, fid: U32)
    requires m.Valid() && fid != COMPOSITE_FIELD_MARKER
    modifies m
    ensures m.Valid() && m.live == old(m.live) - EntriesOf(old(m.live), cid, fid)
  {
    var (start, end) := IndexRange(cid, fid, Unbounded, Unbounded);
    var rows := m.Scan(Some(start), end);
    ClearsExactly(rows, m.live, m.arity, cid, fid);
    DeleteRows(m, rows, EntriesOf(m.live, cid, fid));
  }

  lemma ClearsExactly(rows: seq<Row>, s: Kv, arity: Arity, cid: U32, fid: U32)
    requires WellTyped(s, arity) && fid != COMPOSITE_FIELD_MARKER
    requires forall i :: 0 <= i < |rows| ==> Storable(rows[i].key, arity)
    requires var (start, end) := IndexRange(cid, fid, Unbounded, Unbounded); IsScan(rows, s, Some(start), end)
    ensures forall i :: 0 <= i < |rows| && rows[i].stored.Some? ==> rows[i].key in EntriesOf(s, cid, fid)
    ensures forall k :: k in EntriesOf(s, cid, fid) ==> exists i :: 0 <= i < |rows| && rows[i].stored.Some? && rows[i].key == k
  {
    IndexRowsAre(rows, s, arity, cid, fid, Unbounded, Unbounded);
    forall k | k in EntriesOf(s, cid, fid)
      ensures exists i :: 0 <= i < |rows| && rows[i].stored.Some? && rows[i].key == k
    {
      var v :| k.code == EncodeOrdered(v);
      CodeWithinIs(v, Unbounded, Unbounded);
      IndexRangeExact(cid, fid, Unbounded, Unbounded, k);
      assert HasRow(rows, k);
    }
  }

  /** The entries that the live values of the field call for. */
  function WantedEntries(s: Kv, cid: U32, fid: U32): set<Key> {
    set f | f in s && f.Field? && f.cid == cid && f.fid == fid && s[f].Val? :: IndexKey(cid, f.eid, fid, s[f].v)
  }

  /** `rebuild` (src/index.rs:425-446): whatever stale entries there were, afterwards the
      index has exactly the entries of the live values. */
  method Rebuild(m: Mutator, cid: U32, fid: U32)
    requires m.Valid() && fid != COMPOSITE_FIELD_MARKER
    modifies m
    ensures m.Valid()
    ensures m.live == old(m.live) - EntriesOf(old(m.live), cid, fid) + Empties(WantedEntries(old(m.live), cid, fid))
  {
    Clear(m, cid, fid);
    ghost var cleared := m.live;
    var p := CollectionPrefix(cid);
    var rows := m.Scan(Some(p), Successor(p));
    WantedAfterClear(old(m.live), cid, fid);
    PutEntries(m, rows, cid, fid);
  }

  lemma WantedAfterClear(s: Kv, cid: U32, fid: U32)
    ensures WantedEntries(s - EntriesOf(s, cid, fid), cid, fid) == WantedEntries(s, cid, fid)
  {
    var t := s - EntriesOf(s, cid, fid);
    forall k | k in WantedEntries(s, cid, fid) ensures k in WantedEntries(t, cid, fid) {
      var f :| f in s && f.Field? && f.cid == cid && f.fid == fid && s[f].Val? && k == IndexKey(cid, f.eid, fid, s[f].v);
      assert f in t && t[f] == s[f];
    }
    forall k | k in WantedEntries(t, cid, fid) ensures k in WantedEntries(s, cid, fid) {
      var f :| f in t && f.Field? && f.cid == cid && f.fid == fid && t[f].Val? && k == IndexKey(cid, f.eid, fid, t[f].v);
      assert f in s && t[f] == s[f];
    }
  }

  method PutEntries(m: Mutator, rows: seq<Row>, cid: U32, fid: U32)
    requires m.Valid() && fid != COMPOSITE_FIELD_MARKER
    requires IsScan(rows, m.live, Some(CollectionPrefix(cid)), Successor(CollectionPrefix(cid)))
    requires forall i :: 0 <= i < |rows| ==> Storable(rows[i].key, m.arity)
    modifies m
    ensures m.Valid() && m.live == old(m.live) + Empties(WantedEntries(old(m.live), cid, fid))
  {
    ghost var s := m.live;
    ghost var all := WantedEntries(s, cid, fid);
    ghost var done: set<Key> := {};
    var i := 0;
    PlusNothing(s);
    while i < |rows|
      invariant 0 <= i <= |rows| && m.Valid() && m.live == s + Empties(done) && done <= all
      invariant forall j :: 0 <= j < i ==> RowEntryDone(rows[j], cid, fid, done)
    {
      var row := rows[i];
      if row.key.Field? && row.key.cid == cid && row.key.fid == fid && row.stored.Some? {
        var k := IndexKey(cid, row.key.eid, fid, row.stored.value.v);
        RowWanted(s, row, cid, fid, m.arity);
        PlusEmpty(s, done, k);
        m.Put(k, Empty);
        done := done + {k};
      }
      i := i + 1;
    }
    AllEntriesDone(rows, s, m.arity, cid, fid, done);
  }

  predicate RowEntryDone(row: Row, cid: U32, fid: U32, done: set<Key>) {
    row.key.Field? && row.key.cid == cid && row.key.fid == fid && row.stored.Some? && row.stored.value.Val? ==>
      IndexKey(cid, row.key.eid, fid, row.stored.value.v) in done
  }

  lemma RowWanted(s: Kv, row: Row, cid: U32, fid: U32, arity: Arity)
    requires WellTyped(s, arity) && row.stored == At(s, row.key) && row.stored.Some? && fid != COMPOSITE_FIELD_MARKER
    requires row.key.Field? && row.key.cid == cid && row.key.fid == fid
    ensures row.stored.value.Val?
    ensures IndexKey(cid, row.key.eid, fid, row.stored.value.v) in WantedEntries(s, cid, fid)
    ensures Storable(IndexKey(cid, row.key.eid, fid, row.stored.value.v), arity)
  {
    assert row.key in s;
    assert IsCode(EncodeOrdered(row.stored.value.v));
  }

  lemma AllEntriesDone(rows: seq<Row>, s: Kv, arity: Arity, cid: U32, fid: U32, done: set<Key>)
    requires WellTyped(s, arity) && done <= WantedEntries(s, cid, fid)
    requires IsScan(rows, s, Some(CollectionPrefix(cid)), Successor(CollectionPrefix(cid)))
    requires forall j :: 0 <= j < |rows| ==> RowEntryDone(rows[j], cid, fid, done)
    ensures done == WantedEntries(s, cid, fid)
  {
    forall k | k in WantedEntries(s, cid, fid) ensures k in done {
      var f :| f in s && f.Field? && f.cid == cid && f.fid == fid && s[f].Val? && k == IndexKey(cid, f.eid, fid, s[f].v);
      assert Storable(f, arity);
      CollectionRangeExact(cid, f);
      assert HasRow(rows, f);
      var j :| 0 <= j < |rows| && rows[j].key == f;
      assert RowEntryDone(rows[j], cid, fid, done);
    }
  }

  /** The rebuilt index is exact and covers every value. */
  lemma RebuiltIsExact(s: Kv, cid: U32, fid: U32, k: Key)
    requires IsEntryOf(k, cid, fid)
    ensures var t := s - EntriesOf(s, cid, fid) + Empties(WantedEntries(s, cid, fid));
      && (k in t <==> var f := Field(cid, k.eid, fid); f in s && s[f].Val? && k.code == EncodeOrdered(s[f].v))
      && EntriesCover(t, cid, fid)
  {
    var t := s - EntriesOf(s, cid, fid) + Empties(WantedEntries(s, cid, fid));
    var f := Field(cid, k.eid, fid);
    if f in s && s[f].Val? && k.code == EncodeOrdered(s[f].v) {
      assert k == IndexKey(cid, f.eid, fid, s[f].v);
    }
    forall x | x in t && x.Field? && x.cid == cid && x.fid in [fid] && t[x].Val?
      ensures IndexKey(cid, x.eid, x.fid, t[x].v) in t
    {
      assert x in s && s[x] == t[x];
      assert IndexKey(cid, x.eid, fid, s[x].v) in WantedEntries(s, cid, fid);
    }
  }

  // ---- rebuilding a composite index ----

  function TuplesOf(s: Kv, cid: U32, ix: U32): set<Key> {
    set k | k in s && k.Composite? && k.cid == cid && k.ix == ix
  }

  /** `clear_composite` (src/index.rs:342-351). */
  method ClearComposite(m: Mutator, cid: U32, ix: U32)
    requires m.Valid()
    modifies m
    ensures m.Valid() && m.live == old(m.live) - TuplesOf(old(m.live), cid, ix)
  {
    var p := CompositePrefix(cid, ix);
    var rows := m.Scan(Some(p), Successor(p));
    forall i | 0 <= i < |rows| && rows[i].stored.Some? ensures rows[i].key in TuplesOf(m.live, cid, ix) {
      PrefixRangeExact(p, EncodeKey(rows[i].key));
      CompositePrefixExact(cid, ix, rows[i].key);
    }
    forall k | k in TuplesOf(m.live, cid, ix)
      ensures exists i :: 0 <= i < |rows| && rows[i].stored.Some? && rows[i].key == k
    {
      PrefixRangeExact(p, EncodeKey(k));
      CompositePrefixExact(cid, ix, k);
      assert HasRow(rows, k);
    }
    DeleteRows(m, rows, TuplesOf(m.live, cid, ix));
  }

  type ByEntity = map<ByteString, Fields>

  /** The collected fields are true ones. */
  ghost predicate GroupsTrue(groups: ByEntity, s: Kv, cid: U32) {
    && (forall e :: e in groups ==> groups[e] != map[])
    && (forall e, f :: e in groups && f in groups[e] ==>
          f in FieldsOf(s, cid, e) && groups[e][f] == FieldsOf(s, cid, e)[f])
  }

  predicate InGroups(groups: ByEntity, row: Row) {
    row.stored.Some? && row.key.Field? ==> row.key.eid in groups && row.key.fid in groups[row.key.eid]
  }

  /** The live fields of the rows, grouped by entity. */
  ghost predicate Grouped(groups: ByEntity, rows: seq<Row>, s: Kv, cid: U32) {
    GroupsTrue(groups, s, cid) && forall i :: 0 <= i < |rows| ==> InGroups(groups, rows[i])
  }

  function AddField(groups: ByEntity, row: Row): ByEntity {
    if row.key.Field? && row.stored.Some? && row.stored.value.Val? then
      var before: Fields := if row.key.eid in groups then groups[row.key.eid] else map[];
      groups[row.key.eid := before[row.key.fid := row.stored.value.v]]
    else groups
  }

  ghost predicate CollectionRow(row: Row, s: Kv, cid: U32) {
    row.key.Field? && row.key.cid == cid && row.stored == At(s, row.key) && (row.stored.Some? ==> row.stored.value.Val?)
  }

  lemma AddFieldTrue(groups: ByEntity, row: Row, s: Kv, cid: U32)
    requires GroupsTrue(groups, s, cid) && CollectionRow(row, s, cid)
    ensures GroupsTrue(AddField(groups, row), s, cid)
  {
    var more := AddField(groups, row);
    forall e | e in more ensures more[e] != map[] {
      assert row.stored.Some? && e == row.key.eid ==> row.key.fid in more[e];
    }
    forall e, f | e in more && f in more[e] ensures f in FieldsOf(s, cid, e) && more[e][f] == FieldsOf(s, cid, e)[f] {
      AddedFieldTrue(groups, row, s, cid, e, f);
    }
  }

  lemma AddedFieldTrue(groups: ByEntity, row: Row, s: Kv, cid: U32, e: ByteString, f: U32)
    requires GroupsTrue(groups, s, cid) && CollectionRow(row, s, cid)
    requires e in AddField(groups, row) && f in AddField(groups, row)[e]
    ensures f in FieldsOf(s, cid, e) && AddField(groups, row)[e][f] == FieldsOf(s, cid, e)[f]
  {
    if row.stored.Some? && e == row.key.eid && f == row.key.fid {
      assert row.key == Field(cid, e, f);
    } else {
      assert e in groups && f in groups[e] && f in FieldsOf(s, cid, e);
    }
  }

  lemma AddFieldKeeps(groups: ByEntity, row: Row, other: Row)
    requires InGroups(groups, other) && (row.stored.Some? ==> row.stored.value.Val?)
    ensures InGroups(AddField(groups, row), other) && InGroups(AddField(groups, row), row)
  {
  }

  lemma GroupedSnoc(groups: ByEntity, rows: seq<Row>, i: nat, s: Kv, cid: U32)
    requires i < |rows| && Grouped(groups, rows[..i], s, cid) && CollectionRow(rows[i], s, cid)
    ensures Grouped(AddField(groups, rows[i]), rows[..i + 1], s, cid)
  {
    var head, longer := rows[..i], rows[..i + 1];
    AddFieldTrue(groups, rows[i], s, cid);
    forall j | 0 <= j < |longer| ensures InGroups(AddField(groups, rows[i]), longer[j]) {
      if j < i {
        AddFieldKeeps(groups, rows[i], head[j]);
      }
    }
  }

  method GroupFields(rows: seq<Row>, cid: U32, ghost s: Kv) returns (groups: ByEntity)
    requires forall i :: 0 <= i < |rows| ==> CollectionRow(rows[i], s, cid)
    ensures Grouped(groups, rows, s, cid)
  {
    groups := map[];
    var i := 0;
    while i < |rows|
      invariant 0 <= i <= |rows| && Grouped(groups, rows[..i], s, cid)
    {
      GroupedSnoc(groups, rows, i, s, cid);
      groups := AddField(groups, rows[i]);
      i := i + 1;
    }
    assert rows[..i] == rows;
  }

  lemma CollectionRowsAre(rows: seq<Row>, s: Kv, arity: Arity, cid: U32)
    requires WellTyped(s, arity)
    requires IsScan(rows, s, Some(CollectionPrefix(cid)), Successor(CollectionPrefix(cid)))
    ensures forall i :: 0 <= i < |rows| ==> CollectionRow(rows[i], s, cid)
    ensures forall e, f :: f in FieldsOf(s, cid, e) ==> HasRow(rows, Field(cid, e, f))
  {
    forall i | 0 <= i < |rows| ensures CollectionRow(rows[i], s, cid) {
      CollectionRangeExact(cid, rows[i].key);
    }
    forall e, f | f in FieldsOf(s, cid, e) ensures HasRow(rows, Field(cid, e, f)) {
      assert Storable(Field(cid, e, f), arity);
      CollectionRangeExact(cid, Field(cid, e, f));
    }
  }

  /** Grouping all rows of a collection gives every entity with all its fields. */
  lemma GroupedAll(groups: ByEntity, rows: seq<Row>, s: Kv, cid: U32)
    requires Grouped(groups, rows, s, cid) && forall i :: 0 <= i < |rows| ==> CollectionRow(rows[i], s, cid)
    requires forall e, f :: f in FieldsOf(s, cid, e) ==> HasRow(rows, Field(cid, e, f))
    ensures forall e :: e in groups ==> groups[e] == FieldsOf(s, cid, e)
    ensures forall e :: e in groups <==> FieldsOf(s, cid, e) != map[]
  {
    forall e: ByteString ensures e in groups <==> FieldsOf(s, cid, e) != map[]
      ensures e in groups ==> groups[e] == FieldsOf(s, cid, e)
    {
      GroupOf(groups, rows, s, cid, e);
    }
  }

  lemma GroupOf(groups: ByEntity, rows: seq<Row>, s: Kv, cid: U32, e: ByteString)
    requires Grouped(groups, rows, s, cid) && forall i :: 0 <= i < |rows| ==> CollectionRow(rows[i], s, cid)
    requires forall f :: f in FieldsOf(s, cid, e) ==> HasRow(rows, Field(cid, e, f))
    ensures e in groups <==> FieldsOf(s, cid, e) != map[]
    ensures e in groups ==> groups[e] == FieldsOf(s, cid, e)
  {
    forall f | f in FieldsOf(s, cid, e) ensures e in groups && f in groups[e] {
      assert HasRow(rows, Field(cid, e, f));
      var i :| 0 <= i < |rows| && rows[i].key == Field(cid, e, f);
      assert CollectionRow(rows[i], s, cid) && InGroups(groups, rows[i]);
    }
    if e in groups {
      SameMap(groups[e], FieldsOf(s, cid, e));
    } else {
      NoKeys(FieldsOf(s, cid, e));
    }
  }

  lemma SameMap(a: Fields, b: Fields)
    requires (forall f :: f in a ==> f in b && a[f] == b[f]) && forall f :: f in b ==> f in a
    ensures a == b
  {
  }

  lemma NoKeys(a: Fields)
    requires forall f :: f !in a
    ensures a == map[]
  {
  }

  /** The entries that the complete tuples call for. */
  ghost predicate IsWantedTuple(k: Key, s: Kv, cid: U32, d: CompDef) {
    k.Composite? && k.cid == cid && Complete(FieldsOf(s, cid, k.eid), d.fids)
      && k == CompKey(cid, k.eid, d, FieldsOf(s, cid, k.eid))
  }

  /** `rebuild_composite` (src/index.rs:357-405): afterwards the index has exactly the
      entries of the complete tuples, and no other key has changed. */
  method RebuildComposite(m: Mutator, cid: U32, d: CompDef)
    requires m.Valid() && d.fids != [] && |d.fids| == m.arity(cid, d.ix)
    modifies m
    ensures m.Valid()
    ensures forall k: Key :: At(m.live, k) == TupleRebuilt(old(m.live), cid, d, k)
  {
    ClearComposite(m, cid, d.ix);
    ghost var s := m.live;
    FillComposite(m, cid, d);
    RebuildComposes(old(m.live), s, m.live, cid, d);
  }

  /** The second half: scan, group, write. */
  method FillComposite(m: Mutator, cid: U32, d: CompDef)
    requires m.Valid() && d.fids != [] && |d.fids| == m.arity(cid, d.ix) && TuplesOf(m.live, cid, d.ix) == {}
    modifies m
    ensures m.Valid()
    ensures forall k: Key :: At(m.live, k) == TupleRebuilt(old(m.live), cid, d, k)
  {
    ghost var s := m.live;
    var p := CollectionPrefix(cid);
    var rows := m.Scan(Some(p), Successor(p));
    CollectionRowsAre(rows, s, m.arity, cid);
    var groups := GroupFields(rows, cid, s);
    GroupedAll(groups, rows, s, cid);
    GroupsShort(groups, s, m.arity, cid);
    PutTuples(m, groups, cid, d);
  }

  lemma GroupsShort(groups: ByEntity, s: Kv, arity: Arity, cid: U32)
    requires WellTyped(s, arity) && forall e :: e in groups ==> groups[e] == FieldsOf(s, cid, e) != map[]
    ensures forall e :: e in groups ==> |e| < U32_LIMIT
  {
    forall e | e in groups ensures |e| < U32_LIMIT {
      var f :| f in FieldsOf(s, cid, e);
      assert Field(cid, e, f) in s;
    }
  }

  lemma RebuildComposes(before: Kv, s: Kv, t: Kv, cid: U32, d: CompDef)
    requires s == before - TuplesOf(before, cid, d.ix)
    requires forall k: Key :: At(t, k) == TupleRebuilt(s, cid, d, k)
    ensures forall k: Key :: At(t, k) == TupleRebuilt(before, cid, d, k)
  {
    SameFieldsAfterClear(before, s, cid, d);
    forall k: Key ensures TupleRebuilt(s, cid, d, k) == TupleRebuilt(before, cid, d, k) {
    }
  }

  ghost function TupleRebuilt(s: Kv, cid: U32, d: CompDef, k: Key): Option<Stored> {
    if k.Composite? && k.cid == cid && k.ix == d.ix then
      if IsWantedTuple(k, s, cid, d) then Some(Empty) else None
    else At(s, k)
  }

  lemma SameFieldsAfterClear(s: Kv, t: Kv, cid: U32, d: CompDef)
    requires t == s - TuplesOf(s, cid, d.ix)
    ensures forall e: ByteString :: FieldsOf(t, cid, e) == FieldsOf(s, cid, e)
  {
    forall e: ByteString ensures FieldsOf(t, cid, e) == FieldsOf(s, cid, e) {
      forall f ensures f in FieldsOf(t, cid, e) <==> f in FieldsOf(s, cid, e)
        ensures f in FieldsOf(t, cid, e) ==> FieldsOf(t, cid, e)[f] == FieldsOf(s, cid, e)[f]
      {
        assert Field(cid, e, f) !in TuplesOf(s, cid, d.ix);
      }
    }
  }

  method PutTuples(m: Mutator, groups: ByEntity, cid: U32, d: CompDef)
    requires m.Valid() && d.fids != [] && |d.fids| == m.arity(cid, d.ix)
    requires TuplesOf(m.live, cid, d.ix) == {}
    requires forall e :: e in groups ==> groups[e] == FieldsOf(m.live, cid, e) && |e| < U32_LIMIT
    requires forall e :: e in groups <==> FieldsOf(m.live, cid, e) != map[]
    modifies m
    ensures m.Valid() && forall k: Key :: At(m.live, k) == TupleRebuilt(old(m.live), cid, d, k)
  {
    var todo := groups.Keys;
    NothingPut(m.live, cid, d, todo);
    while todo != {}
      invariant m.Valid() && todo <= groups.Keys
      invariant TuplesPut(m.live, old(m.live), cid, d, todo)
      decreases |todo|
    {
      var eid :| eid in todo;
      TuplesPutMore(m.live, old(m.live), cid, d, todo, eid);
      if Complete(groups[eid], d.fids) {
        var k := CompKey(cid, eid, d, groups[eid]);
        TupleStorable(cid, eid, d, groups[eid], m.arity);
        m.Put(k, Empty);
      }
      todo := todo - {eid};
    }
    AllTuplesPut(m.live, old(m.live), cid, d);
  }

  /** The wanted tuples of all entities but those in `todo` have been put. */
  ghost predicate TuplesPut(now: Kv, s: Kv, cid: U32, d: CompDef, todo: set<ByteString>) {
    forall k: Key :: At(now, k) == if IsWantedTuple(k, s, cid, d) && k.eid !in todo then Some(Empty) else At(s, k)
  }

  lemma NothingPut(s: Kv, cid: U32, d: CompDef, entities: set<ByteString>)
    requires d.fids != [] && forall e :: e in entities <==> FieldsOf(s, cid, e) != map[]
    ensures TuplesPut(s, s, cid, d, entities)
  {
    forall k | IsWantedTuple(k, s, cid, d) ensures k.eid in entities {
      assert d.fids[0] in FieldsOf(s, cid, k.eid);
    }
  }

  lemma TuplesPutMore(now: Kv, s: Kv, cid: U32, d: CompDef, todo: set<ByteString>, eid: ByteString)
    requires TuplesPut(now, s, cid, d, todo) && eid in todo
    ensures var fs := FieldsOf(s, cid, eid);
      TuplesPut(if Complete(fs, d.fids) then now[CompKey(cid, eid, d, fs) := Empty] else now, s, cid, d, todo - {eid})
  {
    var fs := FieldsOf(s, cid, eid);
    var next := if Complete(fs, d.fids) then now[CompKey(cid, eid, d, fs) := Empty] else now;
    forall k: Key
      ensures At(next, k) == if IsWantedTuple(k, s, cid, d) && k.eid !in todo - {eid} then Some(Empty) else At(s, k)
    {
      TuplePutAt(now, s, cid, d, todo, eid, k);
    }
  }

  lemma TuplePutAt(now: Kv, s: Kv, cid: U32, d: CompDef, todo: set<ByteString>, eid: ByteString, k: Key)
    requires At(now, k) == (if IsWantedTuple(k, s, cid, d) && k.eid !in todo then Some(Empty) else At(s, k)) && eid in todo
    ensures var fs := FieldsOf(s, cid, eid);
      At(if Complete(fs, d.fids) then now[CompKey(cid, eid, d, fs) := Empty] else now, k)
      == if IsWantedTuple(k, s, cid, d) && k.eid !in todo - {eid} then Some(Empty) else At(s, k)
  {
  }

  lemma AllTuplesPut(now: Kv, s: Kv, cid: U32, d: CompDef)
    requires TuplesPut(now, s, cid, d, {}) && TuplesOf(s, cid, d.ix) == {}
    ensures forall k: Key :: At(now, k) == TupleRebuilt(s, cid, d, k)
  {
    forall k: Key ensures At(now, k) == TupleRebuilt(s, cid, d, k) {
      assert k in s && k.Composite? && k.cid == cid && k.ix == d.ix ==> k in TuplesOf(s, cid, d.ix);
      assert At(now, k) == if IsWantedTuple(k, s, cid, d) then Some(Empty) else At(s, k);
    }
  }

  lemma TupleStorable(cid: U32, eid: ByteString, d: CompDef, fs: Fields, arity: Arity)
    requires Complete(fs, d.fids) && |d.fids| == arity(cid, d.ix) && |eid| < U32_LIMIT
    ensures Storable(CompKey(cid, eid, d, fs), arity)
  {
    var codes := Codes(Tuple(fs, d.fids));
    forall c | c in codes ensures IsCode(c) {
      var i :| 0 <= i < |codes| && codes[i] == c;
    }
  }

  /** The rebuilt composite index covers every complete tuple. */
  lemma RebuiltTuplesCover(s: Kv, t: Kv, cid: U32, d: CompDef)
    requires forall k: Key :: At(t, k) == TupleRebuilt(s, cid, d, k)
    ensures TuplesCovered(t, cid, d)
  {
    forall eid: ByteString | Complete(FieldsOf(t, cid, eid), d.fids)
      ensures CompKey(cid, eid, d, FieldsOf(t, cid, eid)) in t
    {
      forall f ensures At(t, Field(cid, eid, f)) == At(s, Field(cid, eid, f)) {
        assert At(t, Field(cid, eid, f)) == TupleRebuilt(s, cid, d, Field(cid, eid, f));
      }
      FieldsFollow(s, t, cid, eid);
      var k := CompKey(cid, eid, d, FieldsOf(t, cid, eid));
      assert At(t, k) == TupleRebuilt(s, cid, d, k);
    }
  }

  // ---- exact indexes answer exactly ----

  ghost predicate AllExact(s: Kv, defs: Defs, cid: U32) {
    forall eid: ByteString :: ExactFor(s, defs, cid, eid)
  }

  lemma ExactCovers(s: Kv, defs: Defs, cid: U32, fid: U32)
    requires AllExact(s, defs, cid) && fid in defs.single
    ensures EntriesCover(s, cid, fid)
  {
    forall k | k in s && k.Field? && k.cid == cid && k.fid in [fid] && s[k].Val?
      ensures IndexKey(cid, k.eid, k.fid, s[k].v) in s
    {
      var ik := IndexKey(cid, k.eid, k.fid, s[k].v);
      assert ExactFor(s, defs, cid, k.eid) && Owned(ik, defs, cid, k.eid);
      assert k == Field(cid, k.eid, k.fid);
    }
  }

  lemma ExactCoversTuples(s: Kv, defs: Defs, cid: U32, i: nat)
    requires AllExact(s, defs, cid) && i < |defs.comps| && DistinctIx(defs.comps)
    ensures TuplesCovered(s, cid, defs.comps[i])
  {
    var d := defs.comps[i];
    forall eid: ByteString | Complete(FieldsOf(s, cid, eid), d.fids)
      ensures CompKey(cid, eid, d, FieldsOf(s, cid, eid)) in s
    {
      assert ExactFor(s, defs, cid, eid);
      CompExactBefore(s, defs, cid, eid, i, Codes(Tuple(FieldsOf(s, cid, eid), d.fids)));
    }
  }
}
