/** `core_put_entity`, `core_delete_entity` and their callers in src/entity.rs, as writes
    through a `Mutator`. */
module EntityWrites {
  import opened Std
  import opened Bytes
  import opened OrderedValues
  import opened KeyCodec
  import opened Store
  import opened Entities

  /** The fields to write, in the order of the entity. Names are already field ids. */
  type Written = seq<(U32, Value)>

  predicate DistinctFields(w: Written) {
    forall i, j :: 0 <= i < j < |w| ==> w[i].0 != w[j].0
  }

  function NowOf(w: Written): (fs: Fields)
    ensures forall f :: f in fs ==> exists i :: 0 <= i < |w| && w[i] == (f, fs[f])
    ensures forall i :: 0 <= i < |w| ==> w[i].0 in fs
  {
    if w == [] then map[]
    else
      var n := |w| - 1;
      var before := NowOf(w[..n]);
      assert forall i :: 0 <= i < n ==> w[..n][i].0 in before;
      before[w[n].0 := w[n].1]
  }

  /** `now` is what the list writes. */
  ghost predicate IsWritten(w: Written, now: Fields) {
    && (forall i :: 0 <= i < |w| ==> w[i].0 in now && now[w[i].0] == w[i].1)
    && (forall f :: f in now ==> exists i :: 0 <= i < |w| && w[i] == (f, now[f]))
  }

  lemma NowIsWritten(w: Written)
    requires DistinctFields(w)
    ensures IsWritten(w, NowOf(w))
  {
    forall i | 0 <= i < |w| ensures w[i].0 in NowOf(w) && NowOf(w)[w[i].0] == w[i].1 {
      NowAt(w, i);
    }
  }

  lemma NowAt(w: Written, i: nat)
    requires DistinctFields(w) && i < |w|
    ensures w[i].0 in NowOf(w) && NowOf(w)[w[i].0] == w[i].1
  {
    var j :| 0 <= j < |w| && w[j] == (w[i].0, NowOf(w)[w[i].0]);
  }

  // ---- states on the way ----

  /** Every state since `base` is, key by key, that of `a` or of `b`. */
  ghost predicate Passing(trail: seq<Kv>, base: seq<Kv>, a: Kv, b: Kv) {
    base <= trail && forall i :: |base| <= i < |trail| ==> Mixed(trail[i], a, b)
  }

  lemma PassingStep(trail: seq<Kv>, base: seq<Kv>, s: Kv, a: Kv, b: Kv)
    requires Passing(trail, base, a, b) && Mixed(s, a, b)
    ensures Passing(trail + [s], base, a, b)
  {
  }

  lemma MixedPut(s: Kv, a: Kv, b: Kv, k: Key, v: Stored)
    requires Mixed(s, a, b) && At(b, k) == Some(v)
    ensures Mixed(s[k := v], a, b)
  {
    forall j ensures At(s[k := v], j) == At(a, j) || At(s[k := v], j) == At(b, j) {
      assert At(s, j) == At(a, j) || At(s, j) == At(b, j);
    }
  }

  lemma MixedDelete(s: Kv, a: Kv, b: Kv, k: Key)
    requires Mixed(s, a, b) && At(b, k) == None
    ensures Mixed(s - {k}, a, b)
  {
    forall j ensures At(s - {k}, j) == At(a, j) || At(s - {k}, j) == At(b, j) {
      assert At(s, j) == At(a, j) || At(s, j) == At(b, j);
    }
  }

  lemma PlusUpdate(s: Kv, more: Kv, k: Key, v: Stored)
    ensures s + more[k := v] == (s + more)[k := v]
  {
  }

  lemma PlusEmpty(s: Kv, done: set<Key>, k: Key)
    ensures s + Empties(done + {k}) == (s + Empties(done))[k := Empty]
  {
    assert Empties(done + {k}) == Empties(done)[k := Empty];
    PlusUpdate(s, Empties(done), k, Empty);
  }

  lemma MinusMore(s: Kv, done: set<Key>, k: Key)
    ensures s - (done + {k}) == s - done - {k}
  {
  }

  lemma PlusNothing(s: Kv)
    ensures s + Empties({}) == s && s - {} == s
  {
  }

  /** A write towards `b`. */
  method PutToward(m: Mutator, k: Key, v: Stored, ghost base: seq<Kv>, ghost a: Kv, ghost b: Kv)
    requires m.Valid() && Storable(k, m.arity) && (k.Field? <==> v.Val?)
    requires Passing(m.trail, base, a, b) && Mixed(m.live, a, b) && At(b, k) == Some(v)
    modifies m
    ensures m.Valid() && m.live == old(m.live)[k := v]
    ensures Passing(m.trail, base, a, b) && Mixed(m.live, a, b)
  {
    MixedPut(m.live, a, b, k, v);
    PassingStep(m.trail, base, m.live[k := v], a, b);
    m.Put(k, v);
  }

  method DeleteToward(m: Mutator, k: Key, ghost base: seq<Kv>, ghost a: Kv, ghost b: Kv)
    requires m.Valid() && Storable(k, m.arity)
    requires Passing(m.trail, base, a, b) && Mixed(m.live, a, b) && At(b, k) == None
    modifies m
    ensures m.Valid() && m.live == old(m.live) - {k}
    ensures Passing(m.trail, base, a, b) && Mixed(m.live, a, b)
  {
    MixedDelete(m.live, a, b, k);
    PassingStep(m.trail, base, m.live - {k}, a, b);
    m.Delete(k);
  }

  // ---- reading the previous state ----

  /** The two maps say the same about the fields in `need`. */
  ghost predicate AgreesOn(was: Fields, truth: Fields, need: set<U32>) {
    forall f :: f in need ==> (f in was <==> f in truth) && (f in was ==> was[f] == truth[f])
  }

  /** `stale` removes exactly the live fields that are not written any more. */
  ghost predicate StaleList(stale: seq<Key>, s: Kv, cid: U32, eid: ByteString, newIds: set<U32>) {
    && (forall i :: 0 <= i < |stale| ==> IsFieldOf(stale[i], cid, eid) && stale[i].fid !in newIds)
    && (forall f :: f in FieldsOf(s, cid, eid) && f !in newIds ==> Field(cid, eid, f) in stale)
  }

  /** Without a hint: a scan of the entity's range (src/entity.rs:618-641). */
  method ColdRead(m: Mutator, cid: U32, eid: ByteString, newIds: set<U32>) returns (was: Fields, stale: seq<Key>)
    requires m.Valid() && |eid| < U32_LIMIT
    ensures was == FieldsOf(m.live, cid, eid) && StaleList(stale, m.live, cid, eid, newIds)
  {
    var start, end := Some(EntityPrefix(cid, eid)), Successor(EntityPrefix(cid, eid));
    var rows := m.Scan(start, end);
    EntityRowsAre(rows, m.live, m.arity, cid, eid);
    was, stale := CollectFields(rows, cid, eid, newIds, FieldsOf(m.live, cid, eid));
    ColdComplete(rows, m.live, m.arity, cid, eid, was);
    forall f | f in FieldsOf(m.live, cid, eid) && f !in newIds ensures Field(cid, eid, f) in stale {
      var i :| 0 <= i < |rows| && rows[i].key == Field(cid, eid, f);
    }
  }

  /** Rows of one entity, live ones with true values. */
  ghost predicate RowsOfEntity(rows: seq<Row>, truth: Fields, cid: U32, eid: ByteString) {
    forall i :: 0 <= i < |rows| ==> RowOfEntity(rows[i], truth, cid, eid)
  }

  ghost predicate RowOfEntity(row: Row, truth: Fields, cid: U32, eid: ByteString) {
    && IsFieldOf(row.key, cid, eid)
    && (row.stored.Some? ==> row.key.fid in truth && row.stored.value == Val(truth[row.key.fid]))
  }

  method CollectFields(rows: seq<Row>, cid: U32, eid: ByteString, newIds: set<U32>, ghost truth: Fields)
      returns (was: Fields, stale: seq<Key>)
    requires RowsOfEntity(rows, truth, cid, eid)
    ensures ColdSeen(rows, was, stale, truth, cid, eid, newIds)
  {
    was, stale := map[], [];
    var i := 0;
    while i < |rows|
      invariant 0 <= i <= |rows| && ColdSeen(rows[..i], was, stale, truth, cid, eid, newIds)
    {
      var key := rows[i].key;
      assert RowOfEntity(rows[i], truth, cid, eid);
      ColdStep(rows, i, was, stale, truth, cid, eid, newIds);
      if key.fid !in newIds {
        stale := stale + [key];
      }
      if rows[i].stored.Some? {
        was := was[key.fid := rows[i].stored.value.v];
      }
      i := i + 1;
    }
    assert rows[..i] == rows;
  }

  /** What the scan loop has collected from the rows it has seen. */
  ghost predicate ColdSeen(rows: seq<Row>, was: Fields, stale: seq<Key>, truth: Fields, cid: U32, eid: ByteString,
                           newIds: set<U32>)
  {
    && (forall f :: f in was <==> FieldRowAmong(rows, f))
    && (forall f :: f in was ==> f in truth && was[f] == truth[f])
    && (forall j :: 0 <= j < |stale| ==> IsFieldOf(stale[j], cid, eid) && stale[j].fid !in newIds)
    && (forall j :: 0 <= j < |rows| && rows[j].key.Field? && rows[j].key.fid !in newIds ==> rows[j].key in stale)
  }

  lemma ColdStep(rows: seq<Row>, i: nat, was: Fields, stale: seq<Key>, truth: Fields, cid: U32, eid: ByteString,
                 newIds: set<U32>)
    requires i < |rows| && RowOfEntity(rows[i], truth, cid, eid)
    requires ColdSeen(rows[..i], was, stale, truth, cid, eid, newIds)
    ensures ColdSeen(rows[..i + 1],
                     if rows[i].stored.Some? then was[rows[i].key.fid := rows[i].stored.value.v] else was,
                     if rows[i].key.fid !in newIds then stale + [rows[i].key] else stale, truth, cid, eid, newIds)
  {
    RowsSnoc(rows, i);
    forall j | 0 <= j < i ensures rows[..i + 1][j] == rows[..i][j] {
    }
  }

  /** A live row of field `f`. */
  ghost predicate FieldRowAmong(rows: seq<Row>, f: U32) {
    exists i :: 0 <= i < |rows| && rows[i].stored.Some? && rows[i].key.Field? && rows[i].key.fid == f
  }

  lemma RowsSnoc(rows: seq<Row>, i: nat)
    requires i < |rows|
    ensures forall f :: FieldRowAmong(rows[..i + 1], f) <==>
      FieldRowAmong(rows[..i], f) || (rows[i].stored.Some? && rows[i].key.Field? && rows[i].key.fid == f)
  {
    forall f ensures FieldRowAmong(rows[..i + 1], f) <==>
      FieldRowAmong(rows[..i], f) || (rows[i].stored.Some? && rows[i].key.Field? && rows[i].key.fid == f)
    {
      if FieldRowAmong(rows[..i], f) {
        var j :| 0 <= j < i && rows[..i][j].stored.Some? && rows[..i][j].key.Field? && rows[..i][j].key.fid == f;
        assert rows[..i + 1][j] == rows[..i][j];
      }
      if rows[i].stored.Some? && rows[i].key.Field? && rows[i].key.fid == f {
        assert rows[..i + 1][i] == rows[i];
      }
      if FieldRowAmong(rows[..i + 1], f) {
        var j :| 0 <= j < i + 1 && rows[..i + 1][j].stored.Some? && rows[..i + 1][j].key.Field? && rows[..i + 1][j].key.fid == f;
        assert j < i ==> rows[..i][j] == rows[..i + 1][j];
      }
    }
  }

  /** Rows of an entity range are that entity's fields, with their values. */
  lemma EntityRowsAre(rows: seq<Row>, s: Kv, arity: Arity, cid: U32, eid: ByteString)
    requires WellTyped(s, arity) && |eid| < U32_LIMIT
    requires IsScan(rows, s, Some(EntityPrefix(cid, eid)), Successor(EntityPrefix(cid, eid)))
    ensures RowsOfEntity(rows, FieldsOf(s, cid, eid), cid, eid)
    ensures forall f :: f in FieldsOf(s, cid, eid) ==> HasRow(rows, Field(cid, eid, f))
  {
    forall i | 0 <= i < |rows| ensures RowOfEntity(rows[i], FieldsOf(s, cid, eid), cid, eid) {
      EntityRangeExact(cid, eid, rows[i].key);
      assert rows[i].key == Field(cid, eid, rows[i].key.fid);
    }
    forall f | f in FieldsOf(s, cid, eid) ensures HasRow(rows, Field(cid, eid, f)) {
      EntityRangeExact(cid, eid, Field(cid, eid, f));
    }
  }

  lemma FieldHasRow(rows: seq<Row>, s: Kv, arity: Arity, cid: U32, eid: ByteString, f: U32)
    requires WellTyped(s, arity) && |eid| < U32_LIMIT && f in FieldsOf(s, cid, eid)
    requires IsScan(rows, s, Some(EntityPrefix(cid, eid)), Successor(EntityPrefix(cid, eid)))
    ensures FieldRowAmong(rows, f)
    ensures exists i :: 0 <= i < |rows| && rows[i].key == Field(cid, eid, f)
  {
    EntityRowsAre(rows, s, arity, cid, eid);
    assert HasRow(rows, Field(cid, eid, f));
    var i :| 0 <= i < |rows| && rows[i].key == Field(cid, eid, f);
    assert rows[i].stored == At(s, rows[i].key);
  }

  lemma EqualFields(a: Fields, b: Fields)
    requires forall f :: f in a ==> f in b && a[f] == b[f]
    requires forall f :: f in b ==> f in a
    ensures a == b
  {
  }

  lemma ColdComplete(rows: seq<Row>, s: Kv, arity: Arity, cid: U32, eid: ByteString, was: Fields)
    requires WellTyped(s, arity) && |eid| < U32_LIMIT
    requires IsScan(rows, s, Some(EntityPrefix(cid, eid)), Successor(EntityPrefix(cid, eid)))
    requires forall f :: f in was <==> FieldRowAmong(rows, f)
    requires forall f :: f in was ==> f in FieldsOf(s, cid, eid) && was[f] == FieldsOf(s, cid, eid)[f]
    ensures was == FieldsOf(s, cid, eid)
    ensures forall f :: f in FieldsOf(s, cid, eid) ==> exists i :: 0 <= i < |rows| && rows[i].key == Field(cid, eid, f)
  {
    var all := FieldsOf(s, cid, eid);
    forall f | f in all ensures FieldRowAmong(rows, f) {
      FieldHasRow(rows, s, arity, cid, eid, f);
    }
    EqualFields(was, all);
    forall f | f in all ensures exists i :: 0 <= i < |rows| && rows[i].key == Field(cid, eid, f) {
      FieldHasRow(rows, s, arity, cid, eid, f);
    }
  }

  /** `was` holds true values of the entity, among them those of the fields in `seen` that
      are in `need`. */
  ghost predicate Known(was: Fields, truth: Fields, seen: set<U32>, need: set<U32>) {
    && (forall f :: f in was ==> f in truth && was[f] == truth[f])
    && (forall f :: f in seen && f in need && f in truth ==> f in was)
  }

  /** With a hint: point lookups of the hinted fields that are not written any more, and
      of the written fields whose old value matters (src/entity.rs:555-617). */
  method WarmRead(m: Mutator, cid: U32, eid: ByteString, hint: set<U32>, w: Written, newIds: set<U32>, need: set<U32>)
      returns (was: Fields, stale: seq<Key>)
    requires m.Valid() && FieldsOf(m.live, cid, eid).Keys <= hint
    requires newIds == set i | 0 <= i < |w| :: w[i].0
    ensures AgreesOn(was, FieldsOf(m.live, cid, eid), need) && StaleList(stale, m.live, cid, eid, newIds)
  {
    was, stale := LookUpStale(m, cid, eid, hint - newIds, newIds, need);
    was := LookUpWritten(m, cid, eid, w, need, was, hint - newIds);
    assert forall f :: f in newIds ==> exists i :: 0 <= i < |w| && w[i].0 == f;
  }

  method LookUpStale(m: Mutator, cid: U32, eid: ByteString, candidates: set<U32>, newIds: set<U32>, need: set<U32>)
      returns (was: Fields, stale: seq<Key>)
    requires m.Valid() && candidates !! newIds && FieldsOf(m.live, cid, eid).Keys <= candidates + newIds
    ensures Known(was, FieldsOf(m.live, cid, eid), candidates, need)
    ensures StaleList(stale, m.live, cid, eid, newIds)
  {
    ghost var truth := FieldsOf(m.live, cid, eid);
    was, stale := map[], [];
    var todo := candidates;
    while todo != {}
      invariant todo <= candidates && Known(was, truth, candidates - todo, need)
      invariant forall j :: 0 <= j < |stale| ==> IsFieldOf(stale[j], cid, eid) && stale[j].fid !in newIds
      invariant forall f :: f in candidates - todo && f in truth ==> Field(cid, eid, f) in stale
      decreases |todo|
    {
      var fid :| fid in todo;
      var k := Field(cid, eid, fid);
      var bytes := m.Get(k);
      if bytes.Some? {
        assert bytes.value == m.live[k];
        stale := stale + [k];
        if fid in need {
          was := was[fid := bytes.value.v];
        }
      }
      todo := todo - {fid};
    }
  }

  method LookUpWritten(m: Mutator, cid: U32, eid: ByteString, w: Written, need: set<U32>, found: Fields,
                       ghost seen: set<U32>) returns (was: Fields)
    requires m.Valid() && Known(found, FieldsOf(m.live, cid, eid), seen, need)
    ensures Known(was, FieldsOf(m.live, cid, eid), seen + (set i | 0 <= i < |w| :: w[i].0), need)
  {
    ghost var truth := FieldsOf(m.live, cid, eid);
    was := found;
    var i := 0;
    while i < |w|
      invariant 0 <= i <= |w|
      invariant Known(was, truth, seen + (set j | 0 <= j < i :: w[j].0), need)
    {
      var fid := w[i].0;
      if fid in need {
        var bytes := m.Get(Field(cid, eid, fid));
        if bytes.Some? {
          was := was[fid := bytes.value.v];
        }
      }
      i := i + 1;
    }
  }

  // ---- the phases of a put ----

  /** Everything a phase needs to know about its surroundings. */
  ghost predicate Ready(m: Mutator, defs: Defs, cid: U32, eid: ByteString, base: seq<Kv>, a: Kv, b: Kv)
    reads m
  {
    && m.Valid() && DefsOk(defs, cid, m.arity) && |eid| < U32_LIMIT
    && Passing(m.trail, base, a, b) && Mixed(m.live, a, b)
  }

  lemma IndexKeyStorable(defs: Defs, cid: U32, eid: ByteString, f: U32, v: Value, arity: Arity)
    requires DefsOk(defs, cid, arity) && |eid| < U32_LIMIT && f in defs.single
    ensures Storable(IndexKey(cid, eid, f, v), arity)
  {
    assert IsCode(EncodeOrdered(v));
  }

  lemma CompKeyStorable(defs: Defs, cid: U32, eid: ByteString, d: CompDef, fs: Fields, arity: Arity)
    requires DefsOk(defs, cid, arity) && |eid| < U32_LIMIT && d in defs.comps && Complete(fs, d.fids)
    ensures Storable(CompKey(cid, eid, d, fs), arity)
  {
    var codes := Codes(Tuple(fs, d.fids));
    forall c | c in codes ensures IsCode(c) {
      var i :| 0 <= i < |codes| && codes[i] == c;
    }
  }

  ghost predicate EmptyAt(b: Kv, keys: set<Key>) {
    forall k :: k in keys ==> At(b, k) == Some(Empty)
  }

  /** Phase 1: new index entries of changed fields (src/entity.rs:645-668). */
  method PutIndexEntries(m: Mutator, defs: Defs, cid: U32, eid: ByteString, was: Fields, w: Written, ghost now: Fields,
                         ghost base: seq<Kv>, ghost a: Kv, ghost b: Kv)
    requires Ready(m, defs, cid, eid, base, a, b) && IsWritten(w, now)
    requires EmptyAt(b, NewIndexKeys(defs, cid, eid, was, now))
    modifies m
    ensures Ready(m, defs, cid, eid, base, a, b)
    ensures m.live == old(m.live) + Empties(NewIndexKeys(defs, cid, eid, was, now))
  {
    NewIndexesOffered(defs, cid, eid, was, w, now);
    ghost var done := PutOffered(m, defs, cid, eid, was, w, NewIndexKeys(defs, cid, eid, was, now), base, a, b);
    NewIndexAllDone(defs, cid, eid, was, w, now, done);
  }

  method PutOffered(m: Mutator, defs: Defs, cid: U32, eid: ByteString, was: Fields, w: Written, ghost all: set<Key>,
                    ghost base: seq<Kv>, ghost a: Kv, ghost b: Kv) returns (ghost done: set<Key>)
    requires Ready(m, defs, cid, eid, base, a, b) && NewIndexesDone(defs, cid, eid, was, w, all) && EmptyAt(b, all)
    modifies m
    ensures Ready(m, defs, cid, eid, base, a, b) && m.live == old(m.live) + Empties(done)
    ensures done <= all && NewIndexesDone(defs, cid, eid, was, w, done)
  {
    done := {};
    var i := 0;
    PlusNothing(m.live);
    while i < |w|
      invariant 0 <= i <= |w| && Ready(m, defs, cid, eid, base, a, b)
      invariant m.live == old(m.live) + Empties(done) && done <= all
      invariant NewIndexesDone(defs, cid, eid, was, w[..i], done)
    {
      ghost var before := done;
      assert NewIndexDone(defs, cid, eid, was, w[i], all);
      done := PutIndexEntry(m, defs, cid, eid, was, w[i].0, w[i].1, all, old(m.live), done, base, a, b);
      NewIndexesSnoc(defs, cid, eid, was, w, i, before, done);
      i := i + 1;
    }
    assert w[..i] == w;
  }

  method PutIndexEntry(m: Mutator, defs: Defs, cid: U32, eid: ByteString, was: Fields, fid: U32, value: Value,
                       ghost all: set<Key>, ghost s: Kv, ghost done: set<Key>,
                       ghost base: seq<Kv>, ghost a: Kv, ghost b: Kv) returns (ghost done': set<Key>)
    requires Ready(m, defs, cid, eid, base, a, b) && m.live == s + Empties(done)
    requires NewIndexDone(defs, cid, eid, was, (fid, value), all) && EmptyAt(b, all)
    modifies m
    ensures Ready(m, defs, cid, eid, base, a, b) && m.live == s + Empties(done')
    ensures done <= done' <= done + all
    ensures NewIndexDone(defs, cid, eid, was, (fid, value), done')
  {
    done' := done;
    if fid in defs.single && Changed(was, fid, value) {
      var k := IndexKey(cid, eid, fid, value);
      IndexKeyStorable(defs, cid, eid, fid, value, m.arity);
      PlusEmpty(s, done, k);
      PutToward(m, k, Empty, base, a, b);
      done' := done + {k};
    }
  }

  lemma NewIndexesOffered(defs: Defs, cid: U32, eid: ByteString, was: Fields, w: Written, now: Fields)
    requires IsWritten(w, now)
    ensures NewIndexesDone(defs, cid, eid, was, w, NewIndexKeys(defs, cid, eid, was, now))
  {
    forall j | 0 <= j < |w| ensures NewIndexDone(defs, cid, eid, was, w[j], NewIndexKeys(defs, cid, eid, was, now)) {
      if w[j].0 in defs.single && Changed(was, w[j].0, w[j].1) {
        NewIndexMember(defs, cid, eid, was, w, now, j);
      }
    }
  }

  lemma NewIndexMember(defs: Defs, cid: U32, eid: ByteString, was: Fields, w: Written, now: Fields, i: nat)
    requires IsWritten(w, now) && i < |w| && w[i].0 in defs.single && Changed(was, w[i].0, w[i].1)
    ensures IndexKey(cid, eid, w[i].0, w[i].1) in NewIndexKeys(defs, cid, eid, was, now)
  {
  }

  lemma NewIndexAllDone(defs: Defs, cid: U32, eid: ByteString, was: Fields, w: Written, now: Fields, done: set<Key>)
    requires IsWritten(w, now)
    requires done <= NewIndexKeys(defs, cid, eid, was, now)
    requires NewIndexesDone(defs, cid, eid, was, w, done)
    ensures done == NewIndexKeys(defs, cid, eid, was, now)
  {
    forall k | k in NewIndexKeys(defs, cid, eid, was, now) ensures k in done {
      var f :| f in now && f in defs.single && Changed(was, f, now[f]) && k == IndexKey(cid, eid, f, now[f]);
      var j :| 0 <= j < |w| && w[j] == (f, now[f]);
      assert NewIndexDone(defs, cid, eid, was, w[j], done);
    }
  }

  ghost predicate NewIndexesDone(defs: Defs, cid: U32, eid: ByteString, was: Fields, w: Written, done: set<Key>) {
    forall j :: 0 <= j < |w| ==> NewIndexDone(defs, cid, eid, was, w[j], done)
  }

  lemma NewIndexesSnoc(defs: Defs, cid: U32, eid: ByteString, was: Fields, w: Written, i: nat,
                       done: set<Key>, done': set<Key>)
    requires i < |w| && NewIndexesDone(defs, cid, eid, was, w[..i], done) && done <= done'
    requires NewIndexDone(defs, cid, eid, was, w[i], done')
    ensures NewIndexesDone(defs, cid, eid, was, w[..i + 1], done')
  {
    var head, longer := w[..i], w[..i + 1];
    forall j | 0 <= j < |longer| ensures NewIndexDone(defs, cid, eid, was, longer[j], done') {
      if j < i {
        assert NewIndexDone(defs, cid, eid, was, head[j], done);
      }
    }
  }

  predicate NewIndexDone(defs: Defs, cid: U32, eid: ByteString, was: Fields, x: (U32, Value), done: set<Key>) {
    x.0 in defs.single && Changed(was, x.0, x.1) ==> IndexKey(cid, eid, x.0, x.1) in done
  }

  /** Phase 1b: new composite entries of changed tuples (src/entity.rs:670-688). */
  method PutCompositeEntries(m: Mutator, defs: Defs, cid: U32, eid: ByteString, was: Fields, now: Fields,
                             ghost base: seq<Kv>, ghost a: Kv, ghost b: Kv)
    requires Ready(m, defs, cid, eid, base, a, b)
    requires forall k :: k in NewCompKeys(defs.comps, cid, eid, was, now) ==> At(b, k) == Some(Empty)
    modifies m
    ensures Ready(m, defs, cid, eid, base, a, b)
    ensures m.live == old(m.live) + Empties(NewCompKeys(defs.comps, cid, eid, was, now))
  {
    ghost var all := NewCompKeys(defs.comps, cid, eid, was, now);
    ghost var done: set<Key> := {};
    var i := 0;
    PlusNothing(m.live);
    while i < |defs.comps|
      invariant 0 <= i <= |defs.comps| && Ready(m, defs, cid, eid, base, a, b)
      invariant m.live == old(m.live) + Empties(done) && done <= all
      invariant CompsDone(cid, eid, was, now, defs.comps[..i], now, done)
    {
      var d := defs.comps[i];
      ghost var before := done;
      if TupleChanged(was, now, d.fids) && Complete(now, d.fids) {
        var k := CompKey(cid, eid, d, now);
        assert d in defs.comps && k in all;
        CompKeyStorable(defs, cid, eid, d, now, m.arity);
        PlusEmpty(old(m.live), done, k);
        PutToward(m, k, Empty, base, a, b);
        done := done + {k};
      }
      CompsMore(cid, eid, was, now, defs.comps, i, now, before, done);
      i := i + 1;
    }
    assert defs.comps[..i] == defs.comps;
    CompsAllDone(cid, eid, was, now, defs.comps, now, done, all);
  }

  ghost predicate CompsDone(cid: U32, eid: ByteString, was: Fields, now: Fields, comps: seq<CompDef>, fs: Fields,
                            done: set<Key>)
  {
    forall j :: 0 <= j < |comps| ==> CompDone(cid, eid, was, now, comps[j], fs, done)
  }

  lemma CompsMore(cid: U32, eid: ByteString, was: Fields, now: Fields, comps: seq<CompDef>, i: nat, fs: Fields,
                  done: set<Key>, done': set<Key>)
    requires i < |comps| && CompsDone(cid, eid, was, now, comps[..i], fs, done) && done <= done'
    requires CompDone(cid, eid, was, now, comps[i], fs, done')
    ensures CompsDone(cid, eid, was, now, comps[..i + 1], fs, done')
  {
    var head, longer := comps[..i], comps[..i + 1];
    forall j | 0 <= j < |longer| ensures CompDone(cid, eid, was, now, longer[j], fs, done') {
      if j < i {
        assert CompDone(cid, eid, was, now, head[j], fs, done);
      }
    }
  }

  lemma CompsAllDone(cid: U32, eid: ByteString, was: Fields, now: Fields, comps: seq<CompDef>, fs: Fields,
                     done: set<Key>, all: set<Key>)
    requires CompsDone(cid, eid, was, now, comps, fs, done) && done <= all
    requires forall k :: k in all ==> exists d :: d in comps && TupleChanged(was, now, d.fids) && Complete(fs, d.fids) && k == CompKey(cid, eid, d, fs)
    ensures done == all
  {
    forall k | k in all ensures k in done {
      var d :| d in comps && TupleChanged(was, now, d.fids) && Complete(fs, d.fids) && k == CompKey(cid, eid, d, fs);
      var j :| 0 <= j < |comps| && comps[j] == d;
      assert CompDone(cid, eid, was, now, comps[j], fs, done);
    }
  }

  predicate CompDone(cid: U32, eid: ByteString, was: Fields, now: Fields, d: CompDef, fs: Fields, done: set<Key>) {
    TupleChanged(was, now, d.fids) && Complete(fs, d.fids) ==> CompKey(cid, eid, d, fs) in done
  }

  function KeysIn(s: seq<Key>): set<Key> {
    set k | k in s
  }

  lemma KeysInSnoc(s: seq<Key>, i: nat)
    requires i < |s|
    ensures KeysIn(s[..i + 1]) == KeysIn(s[..i]) + {s[i]}
  {
    assert s[..i + 1] == s[..i] + [s[i]];
  }

  /** Phase 2, first half: fields that are not written any more (src/entity.rs:691-693). */
  method DeleteStale(m: Mutator, defs: Defs, cid: U32, eid: ByteString, stale: seq<Key>,
                     ghost base: seq<Kv>, ghost a: Kv, ghost b: Kv)
    requires Ready(m, defs, cid, eid, base, a, b)
    requires forall i :: 0 <= i < |stale| ==> IsFieldOf(stale[i], cid, eid) && At(b, stale[i]) == None
    modifies m
    ensures Ready(m, defs, cid, eid, base, a, b)
    ensures m.live == old(m.live) - KeysIn(stale)
  {
    var i := 0;
    PlusNothing(m.live);
    assert KeysIn(stale[..0]) == {};
    while i < |stale|
      invariant 0 <= i <= |stale| && Ready(m, defs, cid, eid, base, a, b)
      invariant m.live == old(m.live) - KeysIn(stale[..i])
    {
      KeysInSnoc(stale, i);
      MinusMore(old(m.live), KeysIn(stale[..i]), stale[i]);
      DeleteToward(m, stale[i], base, a, b);
      i := i + 1;
    }
    assert stale[..i] == stale;
  }

  /** Phase 2, second half: the fields themselves (src/entity.rs:694-702). */
  method PutFields(m: Mutator, defs: Defs, cid: U32, eid: ByteString, w: Written,
                   ghost base: seq<Kv>, ghost a: Kv, ghost b: Kv)
    requires Ready(m, defs, cid, eid, base, a, b) && DistinctFields(w)
    requires forall i :: 0 <= i < |w| ==> At(b, Field(cid, eid, w[i].0)) == Some(Val(w[i].1))
    modifies m
    ensures Ready(m, defs, cid, eid, base, a, b)
    ensures m.live == old(m.live) + FieldMap(cid, eid, NowOf(w))
  {
    var i := 0;
    assert w[..0] == [] && m.live + FieldMap(cid, eid, map[]) == m.live;
    while i < |w|
      invariant 0 <= i <= |w| && Ready(m, defs, cid, eid, base, a, b)
      invariant m.live == old(m.live) + FieldMap(cid, eid, NowOf(w[..i]))
    {
      FieldMapSnoc(cid, eid, w, i);
      PlusUpdate(old(m.live), FieldMap(cid, eid, NowOf(w[..i])), Field(cid, eid, w[i].0), Val(w[i].1));
      PutToward(m, Field(cid, eid, w[i].0), Val(w[i].1), base, a, b);
      i := i + 1;
    }
    assert w[..i] == w;
  }

  lemma FieldMapSnoc(cid: U32, eid: ByteString, w: Written, i: nat)
    requires i < |w|
    ensures FieldMap(cid, eid, NowOf(w[..i + 1])) == FieldMap(cid, eid, NowOf(w[..i]))[Field(cid, eid, w[i].0) := Val(w[i].1)]
  {
    assert w[..i + 1][..i] == w[..i];
  }

  /** Phase 3: entries of values the entity does not have any more (src/entity.rs:706-724). */
  method DeleteIndexEntries(m: Mutator, defs: Defs, cid: U32, eid: ByteString, was: Fields, now: Fields,
                            ghost base: seq<Kv>, ghost a: Kv, ghost b: Kv)
    requires Ready(m, defs, cid, eid, base, a, b)
    requires forall k :: k in OldIndexKeys(defs, cid, eid, was, now) ==> At(b, k) == None
    modifies m
    ensures Ready(m, defs, cid, eid, base, a, b)
    ensures m.live == old(m.live) - OldIndexKeys(defs, cid, eid, was, now)
  {
    ghost var done: set<Key> := {};
    var todo, seen: set<U32> := was.Keys, {};
    PlusNothing(m.live);
    while todo != {}
      invariant seen + todo == was.Keys && Ready(m, defs, cid, eid, base, a, b)
      invariant m.live == old(m.live) - done && done <= OldIndexKeys(defs, cid, eid, was, now)
      invariant OldIndexesDone(defs, cid, eid, was, now, seen, done)
      decreases |todo|
    {
      var fid :| fid in todo;
      ghost var before := done;
      done := DeleteIndexEntry(m, defs, cid, eid, was, now, fid, old(m.live), done, base, a, b);
      OldIndexesMore(defs, cid, eid, was, now, seen, fid, before, done);
      todo, seen := todo - {fid}, seen + {fid};
    }
    assert seen == was.Keys;
    OldIndexesAllDone(defs, cid, eid, was, now, done);
  }

  method DeleteIndexEntry(m: Mutator, defs: Defs, cid: U32, eid: ByteString, was: Fields, now: Fields, fid: U32,
                          ghost s: Kv, ghost done: set<Key>, ghost base: seq<Kv>, ghost a: Kv, ghost b: Kv)
      returns (ghost done': set<Key>)
    requires Ready(m, defs, cid, eid, base, a, b) && fid in was && m.live == s - done
    requires forall k :: k in OldIndexKeys(defs, cid, eid, was, now) ==> At(b, k) == None
    modifies m
    ensures Ready(m, defs, cid, eid, base, a, b) && m.live == s - done'
    ensures done <= done' <= done + OldIndexKeys(defs, cid, eid, was, now)
    ensures OldIndexDone(defs, cid, eid, was, now, fid, done')
  {
    done' := done;
    if fid in defs.single && !(fid in now && RustEq(now[fid], was[fid])) {
      var k := IndexKey(cid, eid, fid, was[fid]);
      assert k in OldIndexKeys(defs, cid, eid, was, now);
      IndexKeyStorable(defs, cid, eid, fid, was[fid], m.arity);
      MinusMore(s, done, k);
      DeleteToward(m, k, base, a, b);
      done' := done + {k};
    }
  }

  predicate OldIndexDone(defs: Defs, cid: U32, eid: ByteString, was: Fields, now: Fields, f: U32, done: set<Key>) {
    f in was && f in defs.single && !(f in now && RustEq(now[f], was[f])) ==> IndexKey(cid, eid, f, was[f]) in done
  }

  ghost predicate OldIndexesDone(defs: Defs, cid: U32, eid: ByteString, was: Fields, now: Fields, seen: set<U32>,
                                 done: set<Key>)
  {
    forall f :: f in seen ==> OldIndexDone(defs, cid, eid, was, now, f, done)
  }

  lemma OldIndexesMore(defs: Defs, cid: U32, eid: ByteString, was: Fields, now: Fields, seen: set<U32>, fid: U32,
                       done: set<Key>, done': set<Key>)
    requires OldIndexesDone(defs, cid, eid, was, now, seen, done) && done <= done'
    requires OldIndexDone(defs, cid, eid, was, now, fid, done')
    ensures OldIndexesDone(defs, cid, eid, was, now, seen + {fid}, done')
  {
    forall f | f in seen + {fid} ensures OldIndexDone(defs, cid, eid, was, now, f, done') {
      if f != fid {
        assert OldIndexDone(defs, cid, eid, was, now, f, done);
      }
    }
  }

  lemma OldIndexesAllDone(defs: Defs, cid: U32, eid: ByteString, was: Fields, now: Fields, done: set<Key>)
    requires OldIndexesDone(defs, cid, eid, was, now, was.Keys, done) && done <= OldIndexKeys(defs, cid, eid, was, now)
    ensures done == OldIndexKeys(defs, cid, eid, was, now)
  {
    forall k | k in OldIndexKeys(defs, cid, eid, was, now) ensures k in done {
      var f :| f in was && f in defs.single && !(f in now && RustEq(now[f], was[f])) && k == IndexKey(cid, eid, f, was[f]);
      assert OldIndexDone(defs, cid, eid, was, now, f, done);
    }
  }

  /** Phase 3b: composite entries of tuples the entity does not have any more. */
  method DeleteCompositeEntries(m: Mutator, defs: Defs, cid: U32, eid: ByteString, was: Fields, now: Fields,
                                ghost base: seq<Kv>, ghost a: Kv, ghost b: Kv)
    requires Ready(m, defs, cid, eid, base, a, b)
    requires forall k :: k in OldCompKeys(defs.comps, cid, eid, was, now) ==> At(b, k) == None
    modifies m
    ensures Ready(m, defs, cid, eid, base, a, b)
    ensures m.live == old(m.live) - OldCompKeys(defs.comps, cid, eid, was, now)
  {
    ghost var all := OldCompKeys(defs.comps, cid, eid, was, now);
    ghost var done: set<Key> := {};
    var i := 0;
    PlusNothing(m.live);
    while i < |defs.comps|
      invariant 0 <= i <= |defs.comps| && Ready(m, defs, cid, eid, base, a, b)
      invariant m.live == old(m.live) - done && done <= all
      invariant CompsDone(cid, eid, was, now, defs.comps[..i], was, done)
    {
      var d := defs.comps[i];
      ghost var before := done;
      if TupleChanged(was, now, d.fids) && Complete(was, d.fids) {
        var k := CompKey(cid, eid, d, was);
        assert d in defs.comps && k in all;
        CompKeyStorable(defs, cid, eid, d, was, m.arity);
        MinusMore(old(m.live), done, k);
        DeleteToward(m, k, base, a, b);
        done := done + {k};
      }
      CompsMore(cid, eid, was, now, defs.comps, i, was, before, done);
      i := i + 1;
    }
    assert defs.comps[..i] == defs.comps;
    CompsAllDone(cid, eid, was, now, defs.comps, was, done, all);
  }

  // ---- the whole put ----

  /** The fields whose old values the diff looks at. */
  function NeedOld(defs: Defs): set<U32> {
    (set f | f in defs.single) + (set i, j | 0 <= i < |defs.comps| && 0 <= j < |defs.comps[i].fids| :: defs.comps[i].fids[j])
  }

  /** The diff does not depend on the old values of other fields. */
  lemma DiffLooksAtNeeded(defs: Defs, cid: U32, eid: ByteString, was: Fields, truth: Fields, now: Fields)
    requires AgreesOn(was, truth, NeedOld(defs))
    ensures NewIndexKeys(defs, cid, eid, was, now) == NewIndexKeys(defs, cid, eid, truth, now)
    ensures OldIndexKeys(defs, cid, eid, was, now) == OldIndexKeys(defs, cid, eid, truth, now)
    ensures NewCompKeys(defs.comps, cid, eid, was, now) == NewCompKeys(defs.comps, cid, eid, truth, now)
    ensures OldCompKeys(defs.comps, cid, eid, was, now) == OldCompKeys(defs.comps, cid, eid, truth, now)
  {
    forall f | f in defs.single
      ensures f in NeedOld(defs)
    {
    }
    forall d | d in defs.comps
      ensures TupleChanged(was, now, d.fids) <==> TupleChanged(truth, now, d.fids)
      ensures Complete(was, d.fids) <==> Complete(truth, d.fids)
      ensures Complete(was, d.fids) ==> CompKey(cid, eid, d, was) == CompKey(cid, eid, d, truth)
    {
      var i :| 0 <= i < |defs.comps| && defs.comps[i] == d;
      TupleLooksAtNeeded(defs, was, truth, now, i);
    }
  }

  lemma TupleLooksAtNeeded(defs: Defs, was: Fields, truth: Fields, now: Fields, i: nat)
    requires AgreesOn(was, truth, NeedOld(defs)) && i < |defs.comps|
    ensures var fids := defs.comps[i].fids;
      && (TupleChanged(was, now, fids) <==> TupleChanged(truth, now, fids))
      && (Complete(was, fids) <==> Complete(truth, fids))
      && (Complete(was, fids) ==> Codes(Tuple(was, fids)) == Codes(Tuple(truth, fids)))
  {
    var fids := defs.comps[i].fids;
    forall j | 0 <= j < |fids| ensures fids[j] in NeedOld(defs) {
      assert defs.comps[i].fids[j] == fids[j];
    }
    forall j | 0 <= j < |fids| ensures SameComponent(was, now, fids[j]) <==> SameComponent(truth, now, fids[j]) {
      assert fids[j] in NeedOld(defs);
    }
    if Complete(was, fids) {
      assert Tuple(was, fids) == Tuple(truth, fids);
    }
  }

  /** Every state of a put lies between two of its checkpoints. */
  ghost predicate OnTheWay(t: Kv, s: Kv, defs: Defs, cid: U32, eid: ByteString, now: Fields) {
    || Mixed(t, s, Indexed(s, defs, cid, eid, now))
    || Mixed(t, Indexed(s, defs, cid, eid, now), Rewritten(s, defs, cid, eid, now))
    || Mixed(t, Rewritten(s, defs, cid, eid, now), Replaced(s, defs, cid, eid, now))
  }

  lemma MixedStart(s: Kv, b: Kv)
    ensures Mixed(s, s, b)
  {
  }

  /** Phases 1 and 1b take the store from `s` to its indexed version. */
  method PhaseOne(m: Mutator, defs: Defs, cid: U32, eid: ByteString, was: Fields, w: Written)
    requires m.Valid() && DefsOk(defs, cid, m.arity) && |eid| < U32_LIMIT && DistinctFields(w)
    requires AgreesOn(was, FieldsOf(m.live, cid, eid), NeedOld(defs))
    modifies m
    ensures m.Valid() && m.live == Indexed(old(m.live), defs, cid, eid, NowOf(w))
    ensures Passing(m.trail, old(m.trail), old(m.live), m.live)
  {
    ghost var s, now := m.live, NowOf(w);
    ghost var t := Indexed(s, defs, cid, eid, now);
    NowIsWritten(w);
    DiffLooksAtNeeded(defs, cid, eid, was, FieldsOf(s, cid, eid), now);
    MixedStart(s, t);
    forall k | k in NewIndexKeys(defs, cid, eid, was, now) || k in NewCompKeys(defs.comps, cid, eid, was, now)
      ensures At(t, k) == Some(Empty)
    {
      IndexedAt(s, defs, cid, eid, now, k);
    }
    PutIndexEntries(m, defs, cid, eid, was, w, now, old(m.trail), s, t);
    PutCompositeEntries(m, defs, cid, eid, was, NowOf(w), old(m.trail), s, t);
  }

  /** Phase 2 replaces the entity's fields. */
  method PhaseTwo(m: Mutator, ghost s: Kv, defs: Defs, cid: U32, eid: ByteString, stale: seq<Key>, w: Written)
    requires m.Valid() && DefsOk(defs, cid, m.arity) && |eid| < U32_LIMIT && DistinctFields(w) && FieldsTyped(s, cid, eid)
    requires m.live == Indexed(s, defs, cid, eid, NowOf(w))
    requires StaleList(stale, s, cid, eid, NowOf(w).Keys)
    modifies m
    ensures m.Valid() && m.live == Rewritten(s, defs, cid, eid, NowOf(w))
    ensures Passing(m.trail, old(m.trail), old(m.live), m.live)
  {
    ghost var t := m.live;
    ghost var u := Rewritten(s, defs, cid, eid, NowOf(w));
    MixedStart(t, u);
    FieldsGoing(s, defs, cid, eid, stale, w);
    StaleListSuffices(s, defs, cid, eid, stale, NowOf(w));
    DeleteStale(m, defs, cid, eid, stale, old(m.trail), t, u);
    PutFields(m, defs, cid, eid, w, old(m.trail), t, u);
  }

  /** Phase 2 writes only towards the rewritten state. */
  lemma FieldsGoing(s: Kv, defs: Defs, cid: U32, eid: ByteString, stale: seq<Key>, w: Written)
    requires DistinctFields(w) && FieldsTyped(s, cid, eid) && StaleList(stale, s, cid, eid, NowOf(w).Keys)
    ensures forall i :: 0 <= i < |stale| ==> At(Rewritten(s, defs, cid, eid, NowOf(w)), stale[i]) == None
    ensures forall i :: 0 <= i < |w| ==>
      At(Rewritten(s, defs, cid, eid, NowOf(w)), Field(cid, eid, w[i].0)) == Some(Val(w[i].1))
  {
    forall i | 0 <= i < |stale| ensures At(Rewritten(s, defs, cid, eid, NowOf(w)), stale[i]) == None {
      StaleGone(s, defs, cid, eid, NowOf(w), stale[i]);
    }
    forall i | 0 <= i < |w|
      ensures At(Rewritten(s, defs, cid, eid, NowOf(w)), Field(cid, eid, w[i].0)) == Some(Val(w[i].1))
    {
      NowAt(w, i);
      RewrittenAt(s, defs, cid, eid, NowOf(w), Field(cid, eid, w[i].0));
    }
  }

  lemma StaleGone(s: Kv, defs: Defs, cid: U32, eid: ByteString, now: Fields, k: Key)
    requires FieldsTyped(s, cid, eid) && IsFieldOf(k, cid, eid) && k.fid !in now
    ensures At(Rewritten(s, defs, cid, eid, now), k) == None
  {
    RewrittenAt(s, defs, cid, eid, now, k);
    assert k == Field(cid, eid, k.fid);
  }

  /** Deleting a tombstone again changes nothing. */
  lemma ListedIsStale(s: Kv, defs: Defs, cid: U32, eid: ByteString, stale: seq<Key>, now: Fields, k: Key)
    requires StaleList(stale, s, cid, eid, now.Keys) && FieldsTyped(s, cid, eid) && k in Indexed(s, defs, cid, eid, now)
    ensures k in KeysIn(stale) <==> k in StaleKeys(cid, eid, FieldsOf(s, cid, eid), now)
  {
    if k in KeysIn(stale) {
      IndexedAt(s, defs, cid, eid, now, k);
      assert k == Field(cid, eid, k.fid);
    }
  }

  lemma StaleListSuffices(s: Kv, defs: Defs, cid: U32, eid: ByteString, stale: seq<Key>, now: Fields)
    requires StaleList(stale, s, cid, eid, now.Keys) && FieldsTyped(s, cid, eid)
    ensures Indexed(s, defs, cid, eid, now) - KeysIn(stale) + FieldMap(cid, eid, now) == Rewritten(s, defs, cid, eid, now)
  {
    var t, keys := Indexed(s, defs, cid, eid, now), StaleKeys(cid, eid, FieldsOf(s, cid, eid), now);
    forall k | k in t ensures k in KeysIn(stale) <==> k in keys {
      ListedIsStale(s, defs, cid, eid, stale, now, k);
    }
    SameRest(t, KeysIn(stale), keys);
  }

  lemma SameRest(t: Kv, a: set<Key>, b: set<Key>)
    requires forall k :: k in t ==> (k in a <==> k in b)
    ensures t - a == t - b
  {
  }

  /** Phases 3 and 3b remove what the old values left behind. */
  method PhaseThree(m: Mutator, ghost s: Kv, defs: Defs, cid: U32, eid: ByteString, was: Fields, now: Fields)
    requires m.Valid() && DefsOk(defs, cid, m.arity) && |eid| < U32_LIMIT
    requires m.live == Rewritten(s, defs, cid, eid, now)
    requires AgreesOn(was, FieldsOf(s, cid, eid), NeedOld(defs))
    modifies m
    ensures m.Valid() && m.live == Replaced(s, defs, cid, eid, now)
    ensures Passing(m.trail, old(m.trail), old(m.live), m.live)
  {
    ghost var u := m.live;
    ghost var r := Replaced(s, defs, cid, eid, now);
    DiffLooksAtNeeded(defs, cid, eid, was, FieldsOf(s, cid, eid), now);
    MixedStart(u, r);
    forall k | k in OldIndexKeys(defs, cid, eid, was, now) || k in OldCompKeys(defs.comps, cid, eid, was, now)
      ensures At(r, k) == None
    {
      ReplacedAt(s, defs, cid, eid, now, k);
    }
    DeleteIndexEntries(m, defs, cid, eid, was, now, old(m.trail), u, r);
    DeleteCompositeEntries(m, defs, cid, eid, was, now, old(m.trail), u, r);
  }

  /** The old values and the stale keys, by hint if there is one. */
  method ReadPrevious(m: Mutator, hint: Option<set<U32>>, defs: Defs, cid: U32, eid: ByteString, w: Written)
      returns (was: Fields, stale: seq<Key>)
    requires m.Valid() && |eid| < U32_LIMIT && DistinctFields(w)
    requires hint.Some? ==> FieldsOf(m.live, cid, eid).Keys <= hint.value
    ensures AgreesOn(was, FieldsOf(m.live, cid, eid), NeedOld(defs))
    ensures StaleList(stale, m.live, cid, eid, NowOf(w).Keys)
  {
    var newIds := set i | 0 <= i < |w| :: w[i].0;
    NowIsWritten(w);
    assert newIds == NowOf(w).Keys;
    if hint.Some? {
      was, stale := WarmRead(m, cid, eid, hint.value, w, newIds, NeedOld(defs));
    } else {
      was, stale := ColdRead(m, cid, eid, newIds);
    }
  }

  /** `core_put_entity` (src/entity.rs:504-762). What it leaves in the store does not
      depend on the hint, as long as the hint misses no live field. */
  method PutEntity(m: Mutator, hint: Option<set<U32>>, defs: Defs, cid: U32, eid: ByteString, w: Written)
    requires m.Valid() && DefsOk(defs, cid, m.arity) && |eid| < U32_LIMIT && DistinctFields(w)
    requires hint.Some? ==> FieldsOf(m.live, cid, eid).Keys <= hint.value
    modifies m
    ensures m.Valid() && m.live == Replaced(old(m.live), defs, cid, eid, NowOf(w))
    ensures old(m.trail) <= m.trail
    ensures forall i :: |old(m.trail)| <= i < |m.trail| ==> OnTheWay(m.trail[i], old(m.live), defs, cid, eid, NowOf(w))
  {
    ghost var s := m.live;
    var was, stale := ReadPrevious(m, hint, defs, cid, eid, w);
    PhaseOne(m, defs, cid, eid, was, w);
    ghost var one := m.trail;
    PhaseTwo(m, s, defs, cid, eid, stale, w);
    ghost var two := m.trail;
    PhaseThree(m, s, defs, cid, eid, was, NowOf(w));
    ThreePhases(old(m.trail), one, two, m.trail, s, defs, cid, eid, NowOf(w));
  }

  lemma ThreePhases(base: seq<Kv>, one: seq<Kv>, two: seq<Kv>, end: seq<Kv>, s: Kv, defs: Defs, cid: U32,
                    eid: ByteString, now: Fields)
    requires Passing(one, base, s, Indexed(s, defs, cid, eid, now))
    requires Passing(two, one, Indexed(s, defs, cid, eid, now), Rewritten(s, defs, cid, eid, now))
    requires Passing(end, two, Rewritten(s, defs, cid, eid, now), Replaced(s, defs, cid, eid, now))
    ensures base <= end && forall i :: |base| <= i < |end| ==> OnTheWay(end[i], s, defs, cid, eid, now)
  {
    forall i | |base| <= i < |end| ensures OnTheWay(end[i], s, defs, cid, eid, now) {
      if i < |one| {
        assert end[i] == one[i];
      } else if i < |two| {
        assert end[i] == two[i];
      }
    }
  }

  /** At every single write of a put, each live value of an indexed field has its index
      entry, provided no value changes between two that only the codes tell apart. */
  lemma PutNeverMisses(t: Kv, s: Kv, defs: Defs, cid: U32, eid: ByteString, now: Fields)
    requires OnTheWay(t, s, defs, cid, eid, now) && Covers(s, defs.single, cid) && FieldsTyped(s, cid, eid)
    requires NoSingleTraps(defs, FieldsOf(s, cid, eid), now)
    ensures Covers(t, defs.single, cid)
  {
    var a, b, c := Indexed(s, defs, cid, eid, now), Rewritten(s, defs, cid, eid, now), Replaced(s, defs, cid, eid, now);
    PhaseOneCovers(s, defs, cid, eid, now);
    PhaseTwoCovers(s, defs, cid, eid, now);
    PhaseThreeCovers(s, defs, cid, eid, now);
    if Mixed(t, s, a) {
      MixedCovers(t, s, a, defs.single, cid);
    } else if Mixed(t, a, b) {
      MixedCovers(t, a, b, defs.single, cid);
    } else {
      MixedCovers(t, b, c, defs.single, cid);
    }
  }

  // ---- reading and deleting an entity ----

  /** `core_get_entity` (src/entity.rs:834-866): the live fields, or `None` if there are none. */
  method GetEntity(m: Mutator, cid: U32, eid: ByteString) returns (r: Option<Written>)
    requires m.Valid() && |eid| < U32_LIMIT
    ensures r.None? <==> FieldsOf(m.live, cid, eid) == map[]
    ensures r.Some? ==> IsWritten(r.value, FieldsOf(m.live, cid, eid)) && DistinctFields(r.value)
  {
    var rows := m.Scan(Some(EntityPrefix(cid, eid)), Successor(EntityPrefix(cid, eid)));
    ghost var truth := FieldsOf(m.live, cid, eid);
    EntityRowsAre(rows, m.live, m.arity, cid, eid);
    var fields := ReadFields(rows, truth, cid, eid);
    AllRead(m.live, rows, fields, cid, eid);
    r := if fields == [] then None else Some(fields);
  }

  lemma AllRead(s: Kv, rows: seq<Row>, fields: Written, cid: U32, eid: ByteString)
    requires RowsOfEntity(rows, FieldsOf(s, cid, eid), cid, eid)
    requires forall f :: f in FieldsOf(s, cid, eid) ==> HasRow(rows, Field(cid, eid, f))
    requires forall i :: 0 <= i < |rows| ==> rows[i].stored == At(s, rows[i].key)
    requires forall j :: 0 <= j < |fields| ==> FieldRead(fields[j], rows, FieldsOf(s, cid, eid))
    requires forall j :: 0 <= j < |rows| && rows[j].stored.Some? ==> RowIsRead(rows[j], fields)
    ensures IsWritten(fields, FieldsOf(s, cid, eid)) && (fields == [] <==> FieldsOf(s, cid, eid) == map[])
  {
    var truth := FieldsOf(s, cid, eid);
    forall f | f in truth ensures exists i :: 0 <= i < |fields| && fields[i] == (f, truth[f]) {
      assert HasRow(rows, Field(cid, eid, f));
      var j :| 0 <= j < |rows| && rows[j].key == Field(cid, eid, f);
      assert RowOfEntity(rows[j], truth, cid, eid) && RowIsRead(rows[j], fields);
    }
    if fields != [] {
      assert FieldRead(fields[0], rows, truth);
    }
  }

  method ReadFields(rows: seq<Row>, ghost truth: Fields, cid: U32, eid: ByteString) returns (fields: Written)
    requires RowsOfEntity(rows, truth, cid, eid) && RowsAscend(rows)
    ensures DistinctFields(fields) && forall j :: 0 <= j < |fields| ==> FieldRead(fields[j], rows, truth)
    ensures forall j :: 0 <= j < |rows| && rows[j].stored.Some? ==> RowIsRead(rows[j], fields)
  {
    fields := [];
    var i := 0;
    while i < |rows|
      invariant 0 <= i <= |rows|
      invariant forall j :: 0 <= j < |fields| ==> FieldRead(fields[j], rows[..i], truth)
      invariant forall j :: 0 <= j < i && rows[j].stored.Some? ==> RowIsRead(rows[j], fields)
      invariant DistinctFields(fields)
    {
      assert RowOfEntity(rows[i], truth, cid, eid);
      if rows[i].stored.Some? {
        ReadOneMore(rows, i, fields, truth, cid, eid);
        fields := fields + [(rows[i].key.fid, rows[i].stored.value.v)];
      } else {
        RowsSnoc(rows, i);
      }
      i := i + 1;
    }
    assert rows[..i] == rows;
  }

  predicate RowIsRead(row: Row, fields: Written) {
    row.key.Field? && row.stored.Some? && row.stored.value.Val? && (row.key.fid, row.stored.value.v) in fields
  }

  /** A field of the result comes from one of the rows and is true. */
  ghost predicate FieldRead(x: (U32, Value), rows: seq<Row>, truth: Fields) {
    x.0 in truth && truth[x.0] == x.1 && FieldRowAmong(rows, x.0)
  }

  lemma ReadOneMore(rows: seq<Row>, i: nat, fields: Written, truth: Fields, cid: U32, eid: ByteString)
    requires i < |rows| && RowsOfEntity(rows, truth, cid, eid) && rows[i].stored.Some? && DistinctFields(fields)
    requires RowsAscend(rows)
    requires forall j :: 0 <= j < |fields| ==> FieldRead(fields[j], rows[..i], truth)
    ensures var more := fields + [(rows[i].key.fid, rows[i].stored.value.v)];
      DistinctFields(more) && forall j :: 0 <= j < |more| ==> FieldRead(more[j], rows[..i + 1], truth)
  {
    assert RowOfEntity(rows[i], truth, cid, eid);
    var f := rows[i].key.fid;
    RowsSnoc(rows, i);
    if FieldRowAmong(rows[..i], f) {
      var j :| 0 <= j < i && rows[..i][j].stored.Some? && rows[..i][j].key.Field? && rows[..i][j].key.fid == f;
      assert RowOfEntity(rows[j], truth, cid, eid) && rows[j] == rows[..i][j];
      assert rows[j].key == rows[i].key && KeyLess(rows[j].key, rows[i].key);
      LessIrreflexive(EncodeKey(rows[i].key));
    }
  }
}
