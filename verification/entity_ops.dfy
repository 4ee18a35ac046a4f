/** Deleting, patching and compare-and-set of entities, and the field hints that the store
    keeps about them (src/entity.rs). */
module EntityOps {
  import opened Std
  import opened Bytes
  import opened OrderedValues
  import opened KeyCodec
  import opened Store
  import opened Entities
  import opened EntityWrites

  // ---- delete ----

  /** A deletion leaves what a put of no fields would leave. */
  function Deleted(s: Kv, defs: Defs, cid: U32, eid: ByteString): Kv {
    Replaced(s, defs, cid, eid, map[])
  }

  lemma NothingComplete(fids: seq<U32>)
    requires fids != []
    ensures !Complete(map[], fids)
  {
    var none: Fields := map[];
    assert fids[0] !in none;
  }

  lemma NothingIndexed(s: Kv, defs: Defs, cid: U32, eid: ByteString, arity: Arity)
    requires DefsOk(defs, cid, arity)
    ensures Indexed(s, defs, cid, eid, map[]) == s
    ensures Rewritten(s, defs, cid, eid, map[]) == s - StaleKeys(cid, eid, FieldsOf(s, cid, eid), map[])
  {
    var was: Fields := FieldsOf(s, cid, eid);
    assert NewIndexKeys(defs, cid, eid, was, map[]) == {};
    forall d | d in defs.comps ensures !Complete(map[], d.fids) {
      assert |d.fids| >= 2;
      NothingComplete(d.fids);
    }
    assert NewCompKeys(defs.comps, cid, eid, was, map[]) == {};
    PlusNothing(s);
    var rest := s - StaleKeys(cid, eid, was, map[]);
    assert FieldMap(cid, eid, map[]) == map[];
    assert rest + map[] == rest;
  }

  /** Collects the values the indexes need and deletes every field key of the scan,
      tombstones included (src/entity.rs:786-800). */
  method DeleteFields(m: Mutator, rows: seq<Row>, defs: Defs, cid: U32, eid: ByteString,
                      ghost base: seq<Kv>, ghost s: Kv, ghost u: Kv) returns (vals: Fields)
    requires Ready(m, defs, cid, eid, base, s, u) && m.live == s
    requires RowsOfEntity(rows, FieldsOf(s, cid, eid), cid, eid)
    requires forall k :: IsFieldOf(k, cid, eid) ==> At(u, k) == None
    modifies m
    ensures Ready(m, defs, cid, eid, base, s, u) && m.live == s - KeysIn(Keys(rows))
    ensures Collected(vals, rows, FieldsOf(s, cid, eid), NeedOld(defs))
  {
    ghost var truth := FieldsOf(s, cid, eid);
    var need := NeedOld(defs);
    vals := map[];
    var i := 0;
    PlusNothing(s);
    assert KeysIn(Keys(rows[..0])) == {};
    while i < |rows|
      invariant 0 <= i <= |rows| && Ready(m, defs, cid, eid, base, s, u)
      invariant m.live == s - KeysIn(Keys(rows[..i]))
      invariant Collected(vals, rows[..i], truth, need)
    {
      assert RowOfEntity(rows[i], truth, cid, eid);
      CollectedSnoc(vals, rows, i, truth, need, cid, eid);
      vals := Collect(vals, rows[i], need);
      KeysSnoc(rows, i);
      MinusMore(s, KeysIn(Keys(rows[..i])), rows[i].key);
      DeleteToward(m, rows[i].key, base, s, u);
      i := i + 1;
    }
    assert rows[..i] == rows;
  }

  /** A row's value, if the indexes need it. */
  function Collect(vals: Fields, row: Row, need: set<U32>): Fields {
    if row.key.Field? && row.key.fid in need && row.stored.Some? && row.stored.value.Val?
    then vals[row.key.fid := row.stored.value.v] else vals
  }

  /** The needed values among the rows. */
  ghost predicate Collected(vals: Fields, rows: seq<Row>, truth: Fields, need: set<U32>) {
    && (forall f :: f in vals <==> f in need && FieldRowAmong(rows, f))
    && (forall f :: f in vals ==> f in truth && vals[f] == truth[f])
  }

  lemma CollectedSnoc(vals: Fields, rows: seq<Row>, i: nat, truth: Fields, need: set<U32>, cid: U32, eid: ByteString)
    requires i < |rows| && RowOfEntity(rows[i], truth, cid, eid) && Collected(vals, rows[..i], truth, need)
    ensures Collected(Collect(vals, rows[i], need), rows[..i + 1], truth, need)
  {
    RowsSnoc(rows, i);
  }

  function Keys(rows: seq<Row>): (ks: seq<Key>)
    ensures |ks| == |rows| && forall i :: 0 <= i < |ks| ==> ks[i] == rows[i].key
  {
    seq(|rows|, i requires 0 <= i < |rows| => rows[i].key)
  }

  lemma KeysSnoc(rows: seq<Row>, i: nat)
    requires i < |rows|
    ensures KeysIn(Keys(rows[..i + 1])) == KeysIn(Keys(rows[..i])) + {rows[i].key}
  {
    assert Keys(rows[..i + 1]) == Keys(rows[..i]) + [rows[i].key];
  }

  /** Composite entries of complete tuples (src/entity.rs:813-829). */
  method DeleteTuples(m: Mutator, defs: Defs, cid: U32, eid: ByteString, vals: Fields,
                      ghost base: seq<Kv>, ghost a: Kv, ghost b: Kv)
    requires Ready(m, defs, cid, eid, base, a, b)
    requires forall k :: k in OldCompKeys(defs.comps, cid, eid, vals, map[]) ==> At(b, k) == None
    modifies m
    ensures Ready(m, defs, cid, eid, base, a, b)
    ensures m.live == old(m.live) - OldCompKeys(defs.comps, cid, eid, vals, map[])
  {
    ghost var all := OldCompKeys(defs.comps, cid, eid, vals, map[]);
    ghost var done: set<Key> := {};
    var i := 0;
    PlusNothing(m.live);
    while i < |defs.comps|
      invariant 0 <= i <= |defs.comps| && Ready(m, defs, cid, eid, base, a, b)
      invariant m.live == old(m.live) - done && done <= all
      invariant CompsDone(cid, eid, vals, map[], defs.comps[..i], vals, done)
    {
      var d := defs.comps[i];
      ghost var before := done;
      if Complete(vals, d.fids) {
        var k := CompKey(cid, eid, d, vals);
        assert d in defs.comps && !SameComponent(vals, map[], d.fids[0]);
        assert k in all;
        CompKeyStorable(defs, cid, eid, d, vals, m.arity);
        MinusMore(old(m.live), done, k);
        DeleteToward(m, k, base, a, b);
        done := done + {k};
      }
      CompsMore(cid, eid, vals, map[], defs.comps, i, vals, before, done);
      i := i + 1;
    }
    assert defs.comps[..i] == defs.comps;
    CompsAllDone(cid, eid, vals, map[], defs.comps, vals, done, all);
  }

  /** `core_delete_entity` (src/entity.rs:765-831): first the fields, then the entries. */
  method DeleteEntity(m: Mutator, defs: Defs, cid: U32, eid: ByteString)
    requires m.Valid() && DefsOk(defs, cid, m.arity) && |eid| < U32_LIMIT
    modifies m
    ensures m.Valid() && m.live == Deleted(old(m.live), defs, cid, eid)
    ensures old(m.trail) <= m.trail
    ensures forall i :: |old(m.trail)| <= i < |m.trail| ==> OnTheWay(m.trail[i], old(m.live), defs, cid, eid, map[])
  {
    ghost var s, base := m.live, m.trail;
    var vals := DeleteAllFields(m, defs, cid, eid);
    ghost var two := m.trail;
    NothingIndexed(s, defs, cid, eid, m.arity);
    DiffLooksAtNeeded(defs, cid, eid, vals, FieldsOf(s, cid, eid), map[]);
    DeleteEntries(m, s, defs, cid, eid, vals);
    NothingPassed(base, s);
    ThreePhases(base, base, two, m.trail, s, defs, cid, eid, map[]);
  }

  lemma NothingPassed(base: seq<Kv>, s: Kv)
    ensures Passing(base, base, s, s)
  {
  }

  method DeleteAllFields(m: Mutator, defs: Defs, cid: U32, eid: ByteString) returns (vals: Fields)
    requires m.Valid() && DefsOk(defs, cid, m.arity) && |eid| < U32_LIMIT
    modifies m
    ensures m.Valid() && m.live == Rewritten(old(m.live), defs, cid, eid, map[])
    ensures Passing(m.trail, old(m.trail), old(m.live), m.live)
    ensures AgreesOn(vals, FieldsOf(old(m.live), cid, eid), NeedOld(defs))
  {
    ghost var s := m.live;
    var rows := m.Scan(Some(EntityPrefix(cid, eid)), Successor(EntityPrefix(cid, eid)));
    EntityRowsAre(rows, s, m.arity, cid, eid);
    ghost var u := Rewritten(s, defs, cid, eid, map[]);
    forall k | IsFieldOf(k, cid, eid) ensures At(u, k) == None {
      StaleGone(s, defs, cid, eid, map[], k);
    }
    MixedStart(s, u);
    vals := DeleteFields(m, rows, defs, cid, eid, m.trail, s, u);
    NothingIndexed(s, defs, cid, eid, m.arity);
    AllRowsDeleted(s, rows, cid, eid);
  }

  lemma AllRowsDeleted(s: Kv, rows: seq<Row>, cid: U32, eid: ByteString)
    requires RowsOfEntity(rows, FieldsOf(s, cid, eid), cid, eid) && FieldsTyped(s, cid, eid)
    requires forall f :: f in FieldsOf(s, cid, eid) ==> HasRow(rows, Field(cid, eid, f))
    requires forall i :: 0 <= i < |rows| ==> rows[i].stored == At(s, rows[i].key)
    ensures s - KeysIn(Keys(rows)) == s - StaleKeys(cid, eid, FieldsOf(s, cid, eid), map[])
    ensures forall f :: f in FieldsOf(s, cid, eid) ==> FieldRowAmong(rows, f)
  {
    var stale := StaleKeys(cid, eid, FieldsOf(s, cid, eid), map[]);
    forall k | k in s ensures k in KeysIn(Keys(rows)) <==> k in stale {
      if k in KeysIn(Keys(rows)) {
        var i :| 0 <= i < |rows| && Keys(rows)[i] == k;
        assert RowOfEntity(rows[i], FieldsOf(s, cid, eid), cid, eid);
        assert k == Field(cid, eid, k.fid);
      }
      if k in stale {
        assert HasRow(rows, Field(cid, eid, k.fid));
        var i :| 0 <= i < |rows| && rows[i].key == k;
        assert Keys(rows)[i] == k;
      }
    }
    SameRest(s, KeysIn(Keys(rows)), stale);
    forall f | f in FieldsOf(s, cid, eid) ensures FieldRowAmong(rows, f) {
      assert HasRow(rows, Field(cid, eid, f));
    }
  }

  method DeleteEntries(m: Mutator, ghost s: Kv, defs: Defs, cid: U32, eid: ByteString, vals: Fields)
    requires m.Valid() && DefsOk(defs, cid, m.arity) && |eid| < U32_LIMIT
    requires m.live == Rewritten(s, defs, cid, eid, map[])
    requires AgreesOn(vals, FieldsOf(s, cid, eid), NeedOld(defs))
    modifies m
    ensures m.Valid() && m.live == Replaced(s, defs, cid, eid, map[])
    ensures Passing(m.trail, old(m.trail), old(m.live), m.live)
  {
    ghost var u := m.live;
    ghost var r := Replaced(s, defs, cid, eid, map[]);
    DiffLooksAtNeeded(defs, cid, eid, vals, FieldsOf(s, cid, eid), map[]);
    MixedStart(u, r);
    forall k | k in OldIndexKeys(defs, cid, eid, vals, map[]) || k in OldCompKeys(defs.comps, cid, eid, vals, map[])
      ensures At(r, k) == None
    {
      ReplacedAt(s, defs, cid, eid, map[], k);
    }
    DeleteIndexEntries(m, defs, cid, eid, vals, map[], old(m.trail), u, r);
    DeleteTuples(m, defs, cid, eid, vals, old(m.trail), u, r);
  }

  /** After a deletion nothing the entity owned is left, if its indexes were exact. */
  lemma DeleteLeavesNothing(s: Kv, defs: Defs, cid: U32, eid: ByteString, k: Key, arity: Arity)
    requires DefsOk(defs, cid, arity) && ExactFor(s, defs, cid, eid) && FieldsTyped(s, cid, eid)
    requires Owned(k, defs, cid, eid)
    ensures k !in Deleted(s, defs, cid, eid)
  {
    forall i | 0 <= i < |defs.comps| ensures !Complete(map[], defs.comps[i].fids) {
      assert defs.comps[i] in defs.comps;
      NothingComplete(defs.comps[i].fids);
    }
    OwnedExact(s, defs, cid, eid, map[], k);
  }

  // ---- patches ----

  /** One field mutation of a partial update (src/entity.rs:85-92). */
  datatype Patch =
    | Set(fid: U32, value: Value)
    | Remove(fid: U32)
    | Increment(fid: U32, delta: Value)

  /** `i64::wrapping_add`. */
  function WrappingAdd(a: I64, b: I64): I64 {
    if a + b >= U63_LIMIT then a + b - U64_LIMIT
    else if a + b < -U63_LIMIT then a + b + U64_LIMIT
    else a + b
  }

  lemma WrappingAddIsModular(a: I64, b: I64)
    ensures (WrappingAdd(a, b) - (a + b)) % U64_LIMIT == 0
    ensures WrappingAdd(a, b) == a + b <==> -U63_LIMIT <= a + b < U63_LIMIT
  {
  }

  /** Float addition on bit patterns is left abstract. */
  type FloatAdd = (U64, U64) -> U64

  function Incremented(cur: Option<Value>, delta: Value, add: FloatAdd): Result<Value> {
    if cur.None? then Err(InvalidArgument)
    else if cur.value.Int? && delta.Int? then Ok(Int(WrappingAdd(cur.value.i, delta.i)))
    else if cur.value.Float? && delta.Float? then Ok(Float(add(cur.value.bits, delta.bits)))
    else Err(InvalidArgument)
  }

  /** The sum of integers modulo 2^64; only integers add to integers, floats to floats. */
  ghost predicate IsSum(r: Result<Value>, cur: Option<Value>, delta: Value, add: FloatAdd) {
    if cur.Some? && cur.value.Int? && delta.Int? then
      r.Ok? && r.value.Int? && (r.value.i - cur.value.i - delta.i) % U64_LIMIT == 0
    else if cur.Some? && cur.value.Float? && delta.Float? then
      r == Ok(Float(add(cur.value.bits, delta.bits)))
    else r == Err(InvalidArgument)
  }

  lemma IncrementMeans(fs: Fields, f: U32, delta: Value, add: FloatAdd)
    ensures var cur := if f in fs then Some(fs[f]) else None;
      IsSum(Incremented(cur, delta, add), cur, delta, add)
    ensures var r := PatchedBy(fs, Increment(f, delta), add);
      r.Ok? ==> f in fs && r.value.Keys == fs.Keys && forall g :: g in fs && g != f ==> r.value[g] == fs[g]
  {
  }

  /** What one mutation does to the fields. */
  function PatchedBy(fs: Fields, op: Patch, add: FloatAdd): Result<Fields> {
    match op
    case Set(f, v) => Ok(fs[f := v])
    case Remove(f) => Ok(fs - {f})
    case Increment(f, delta) =>
      match Incremented(if f in fs then Some(fs[f]) else None, delta, add)
      case Ok(v) => Ok(fs[f := v])
      case Err(e) => Err(e)
  }

  /** All mutations in order; the first that fails fails the whole. */
  function Patched(fs: Fields, patch: seq<Patch>, add: FloatAdd): Result<Fields> {
    if patch == [] then Ok(fs)
    else
      match Patched(fs, patch[..|patch| - 1], add)
      case Ok(before) => PatchedBy(before, patch[|patch| - 1], add)
      case Err(e) => Err(e)
  }

  lemma {:induction false} PatchFails(fs: Fields, patch: seq<Patch>, add: FloatAdd, i: nat, n: nat)
    requires i <= n <= |patch| && Patched(fs, patch[..i], add).Err?
    ensures Patched(fs, patch[..n], add) == Patched(fs, patch[..i], add)
    decreases n
  {
    if i < n {
      PatchFails(fs, patch, add, i, n - 1);
      assert patch[..n][..n - 1] == patch[..n - 1];
    }
  }

  /** Position of a field in the list, if it is there. */
  method FindField(w: Written, f: U32) returns (r: Option<nat>)
    ensures r.Some? ==> r.value < |w| && w[r.value].0 == f
    ensures r.None? ==> forall i :: 0 <= i < |w| ==> w[i].0 != f
  {
    var i := 0;
    while i < |w|
      invariant 0 <= i <= |w| && forall j :: 0 <= j < i ==> w[j].0 != f
    {
      if w[i].0 == f {
        return Some(i);
      }
      i := i + 1;
    }
    return None;
  }

  lemma SetKeeps(w: Written, fs: Fields, f: U32, v: Value, at: Option<nat>)
    requires DistinctFields(w) && IsWritten(w, fs)
    requires at.Some? ==> at.value < |w| && w[at.value].0 == f
    requires at.None? ==> forall i :: 0 <= i < |w| ==> w[i].0 != f
    ensures var w' := if at.Some? then w[at.value := (f, v)] else w + [(f, v)];
      DistinctFields(w') && IsWritten(w', fs[f := v])
  {
    if at.Some? {
      WrittenAt(w, w[at.value := (f, v)], fs, f, v, at.value);
    } else {
      WrittenAt(w, w + [(f, v)], fs, f, v, |w|);
    }
  }

  lemma WrittenAt(w: Written, w': Written, fs: Fields, f: U32, v: Value, n: nat)
    requires DistinctFields(w) && IsWritten(w, fs) && n < |w'| && |w| <= |w'| && w'[n] == (f, v)
    requires forall i :: 0 <= i < |w'| && i != n ==> i < |w| && w'[i] == w[i] && w[i].0 != f
    requires forall i :: 0 <= i < |w| && i != n ==> w'[i] == w[i]
    requires n < |w| ==> w[n].0 == f
    ensures DistinctFields(w') && IsWritten(w', fs[f := v])
  {
    var fs' := fs[f := v];
    forall g | g in fs' ensures exists i :: 0 <= i < |w'| && w'[i] == (g, fs'[g]) {
      if g == f {
        assert w'[n] == (g, fs'[g]);
      } else {
        var i :| 0 <= i < |w| && w[i] == (g, fs[g]);
        assert w'[i] == (g, fs'[g]);
      }
    }
  }

  /** `retain(|(n, _)| n != name)`. */
  function Without(w: Written, f: U32): Written {
    if w == [] then [] else (if w[0].0 != f then [w[0]] else []) + Without(w[1..], f)
  }

  lemma {:induction false} WithoutMembers(w: Written, f: U32)
    ensures forall x :: x in Without(w, f) <==> x in w && x.0 != f
    ensures DistinctFields(w) ==> DistinctFields(Without(w, f))
  {
    if w != [] {
      WithoutMembers(w[1..], f);
      var rest := Without(w[1..], f);
      assert w == [w[0]] + w[1..];
      if DistinctFields(w) {
        assert DistinctFields(w[1..]);
        forall i | 0 <= i < |rest| ensures rest[i].0 != w[0].0 {
          assert rest[i] in w[1..];
          var j :| 0 <= j < |w[1..]| && w[1..][j] == rest[i];
          assert w[j + 1] == rest[i];
        }
      }
    }
  }

  lemma RemoveKeeps(w: Written, fs: Fields, f: U32)
    requires DistinctFields(w) && IsWritten(w, fs)
    ensures DistinctFields(Without(w, f)) && IsWritten(Without(w, f), fs - {f})
  {
    var w' := Without(w, f);
    WithoutMembers(w, f);
    forall i | 0 <= i < |w'| ensures w'[i].0 in fs - {f} && (fs - {f})[w'[i].0] == w'[i].1 {
      assert w'[i] in w;
    }
    forall g | g in fs - {f} ensures exists i :: 0 <= i < |w'| && w'[i] == (g, (fs - {f})[g]) {
      var i :| 0 <= i < |w| && w[i] == (g, fs[g]);
      assert w[i] in w';
    }
  }

  /** `apply_patch` (src/entity.rs:115-170) on the field list of an entity. */
  method ApplyPatch(entity: Written, patch: seq<Patch>, add: FloatAdd, ghost fs: Fields) returns (r: Result<Written>)
    requires DistinctFields(entity) && IsWritten(entity, fs)
    ensures r.Ok? <==> Patched(fs, patch, add).Ok?
    ensures r.Ok? ==> DistinctFields(r.value) && IsWritten(r.value, Patched(fs, patch, add).value)
    ensures r.Err? ==> r.error == InvalidArgument
  {
    var w := entity;
    var i := 0;
    assert patch[..0] == [];
    while i < |patch|
      invariant 0 <= i <= |patch| && Patched(fs, patch[..i], add).Ok?
      invariant DistinctFields(w) && IsWritten(w, Patched(fs, patch[..i], add).value)
    {
      assert patch[..i + 1][..i] == patch[..i];
      var one := ApplyOne(w, patch[i], add, Patched(fs, patch[..i], add).value);
      if one.Err? {
        PatchFails(fs, patch, add, i + 1, |patch|);
        assert patch[..|patch|] == patch;
        return one;
      }
      w := one.value;
      i := i + 1;
    }
    assert patch[..i] == patch;
    return Ok(w);
  }

  method ApplyOne(w: Written, op: Patch, add: FloatAdd, ghost fs: Fields) returns (r: Result<Written>)
    requires DistinctFields(w) && IsWritten(w, fs)
    ensures r.Ok? <==> PatchedBy(fs, op, add).Ok?
    ensures r.Ok? ==> DistinctFields(r.value) && IsWritten(r.value, PatchedBy(fs, op, add).value)
    ensures r.Err? ==> r.error == InvalidArgument
  {
    match op
    case Set(f, v) =>
      var at := FindField(w, f);
      SetKeeps(w, fs, f, v, at);
      r := Ok(if at.Some? then w[at.value := (f, v)] else w + [(f, v)]);
    case Remove(f) =>
      RemoveKeeps(w, fs, f);
      r := Ok(Without(w, f));
    case Increment(f, delta) =>
      var at := FindField(w, f);
      var cur := if at.Some? then Some(w[at.value].1) else None;
      assert cur == if f in fs then Some(fs[f]) else None;
      var sum := AddTo(cur, delta, add);
      if sum.Err? {
        return Err(InvalidArgument);
      }
      SetKeeps(w, fs, f, sum.value, at);
      r := Ok(w[at.value := (f, sum.value)]);
  }

  method AddTo(cur: Option<Value>, delta: Value, add: FloatAdd) returns (r: Result<Value>)
    ensures IsSum(r, cur, delta, add) && r == Incremented(cur, delta, add)
  {
    match cur
    case None => r := Err(InvalidArgument);
    case Some(Int(c)) =>
      r := if delta.Int? then Ok(Int(WrappingAdd(c, delta.i))) else Err(InvalidArgument);
    case Some(Float(c)) =>
      r := if delta.Float? then Ok(Float(add(c, delta.bits))) else Err(InvalidArgument);
    case _ => r := Err(InvalidArgument);
  }

  // ---- compare and set ----

  /** What a conditional update compares against (src/entity.rs:68-79). */
  datatype Expected = Any | Absent | Entity(fields: Written) | FieldIs(fid: U32, value: Value)

  /** `entity_eq` (src/entity.rs:101-112); `field` finds the first of a name. */
  predicate EntityEq(a: Written, b: Written) {
    |a| == |b| && forall i :: 0 <= i < |a| ==> FieldEq(b, a[i].0, a[i].1)
  }

  predicate FieldEq(w: Written, f: U32, v: Value) {
    exists i :: 0 <= i < |w| && FirstOf(w, i) && w[i].0 == f && RustEq(w[i].1, v)
  }

  predicate FirstOf(w: Written, i: nat)
    requires i < |w|
  {
    forall j :: 0 <= j < i ==> w[j].0 != w[i].0
  }

  lemma {:induction false} CountFields(w: Written, fs: Fields)
    requires DistinctFields(w) && IsWritten(w, fs)
    ensures |fs| == |w|
  {
    if w == [] {
      assert fs == map[];
    } else {
      var n := |w| - 1;
      InitWritten(w, fs);
      CountFields(w[..n], fs - {w[n].0});
      OneFewer(fs, w[n].0);
    }
  }

  lemma InitWritten(w: Written, fs: Fields)
    requires w != [] && DistinctFields(w) && IsWritten(w, fs)
    ensures var n := |w| - 1;
      DistinctFields(w[..n]) && IsWritten(w[..n], fs - {w[n].0})
  {
    var n := |w| - 1;
    var init, rest := w[..n], fs - {w[n].0};
    forall i | 0 <= i < |init| ensures init[i].0 in rest && rest[init[i].0] == init[i].1 {
      assert init[i] == w[i];
    }
    forall f | f in rest ensures exists i :: 0 <= i < |init| && init[i] == (f, rest[f]) {
      var i :| 0 <= i < |w| && w[i] == (f, fs[f]);
      assert init[i] == w[i];
    }
  }

  lemma OneFewer(fs: Fields, f: U32)
    requires f in fs
    ensures |fs| == |fs - {f}| + 1
  {
    var rest := fs - {f};
    assert fs.Keys == rest.Keys + {f};
    assert |fs| == |fs.Keys| && |rest| == |rest.Keys|;
  }

  /** Same names and pairwise equal values, in whatever order. */
  lemma EntityEqMeans(a: Written, b: Written, x: Fields, y: Fields)
    requires DistinctFields(a) && IsWritten(a, x) && DistinctFields(b) && IsWritten(b, y)
    ensures EntityEq(a, b) <==> x.Keys == y.Keys && forall f :: f in x && f in y ==> RustEq(y[f], x[f])
  {
    CountFields(a, x);
    CountFields(b, y);
    if EntityEq(a, b) {
      forall f | f in x ensures f in y && RustEq(y[f], x[f]) {
        var i :| 0 <= i < |a| && a[i] == (f, x[f]);
        assert FieldEq(b, a[i].0, a[i].1);
      }
      SameSize(x.Keys, y.Keys);
    }
    if x.Keys == y.Keys && forall f :: f in x && f in y ==> RustEq(y[f], x[f]) {
      assert |x| == |x.Keys| && |y| == |y.Keys|;
      forall i | 0 <= i < |a| ensures FieldEq(b, a[i].0, a[i].1) {
        var j :| 0 <= j < |b| && b[j] == (a[i].0, y[a[i].0]);
        assert FirstOf(b, j);
      }
    }
  }

  lemma SameSize(a: set<U32>, b: set<U32>)
    requires a <= b && |a| == |b|
    ensures a == b
  {
    assert b == a + (b - a);
    assert |b - a| == 0;
  }

  predicate SameValues(x: Fields, y: Fields) {
    x.Keys == y.Keys && forall f :: f in x && f in y ==> RustEq(y[f], x[f])
  }

  /** On which fields a conditional update is a conflict. An absent entity has none. */
  ghost predicate Conflicts(expected: Expected, fs: Fields) {
    match expected
    case Any => false
    case Absent => fs != map[]
    case Entity(fields) => fs == map[] || !SameValues(fs, NowOf(fields))
    case FieldIs(f, v) => !(f in fs && RustEq(fs[f], v))
  }

  predicate UniqueNames(expected: Expected) {
    expected.Entity? ==> DistinctFields(expected.fields)
  }

  lemma FieldEqMeans(w: Written, fs: Fields, f: U32, v: Value)
    requires DistinctFields(w) && IsWritten(w, fs)
    ensures FieldEq(w, f, v) <==> f in fs && RustEq(fs[f], v)
  {
    if f in fs {
      var i :| 0 <= i < |w| && w[i] == (f, fs[f]);
      assert FirstOf(w, i);
    }
  }

  lemma MatchesMeans(expected: Expected, current: Option<Written>, fs: Fields)
    requires UniqueNames(expected) && (current.None? <==> fs == map[])
    requires current.Some? ==> DistinctFields(current.value) && IsWritten(current.value, fs)
    ensures Matches(expected, current) <==> !Conflicts(expected, fs)
  {
    if current.Some? && expected.Entity? {
      NowIsWritten(expected.fields);
      EntityEqMeans(current.value, expected.fields, fs, NowOf(expected.fields));
    }
    if current.Some? && expected.FieldIs? {
      FieldEqMeans(current.value, fs, expected.fid, expected.value);
    }
  }

  predicate Matches(expected: Expected, current: Option<Written>) {
    match expected
    case Any => true
    case Absent => current.None?
    case Entity(fields) => current.Some? && EntityEq(current.value, fields)
    case FieldIs(f, v) => current.Some? && FieldEq(current.value, f, v)
  }

  /** `core_cas_entity` (src/entity.rs:177-257): on a mismatch or a failing patch nothing
      is written, otherwise the patched entity replaces the current one. */
  method CasEntity(m: Mutator, hint: Option<set<U32>>, defs: Defs, cid: U32, eid: ByteString,
                   expected: Expected, patch: seq<Patch>, add: FloatAdd)
      returns (r: Result<Written>, ghost current: Option<Written>)
    requires m.Valid() && DefsOk(defs, cid, m.arity) && |eid| < U32_LIMIT
    requires hint.Some? ==> FieldsOf(m.live, cid, eid).Keys <= hint.value
    modifies m
    ensures m.Valid()
    ensures current.None? <==> FieldsOf(old(m.live), cid, eid) == map[]
    ensures current.Some? ==> IsWritten(current.value, FieldsOf(old(m.live), cid, eid)) && DistinctFields(current.value)
    ensures r == Err(Conflict) <==> !Matches(expected, current)
    ensures UniqueNames(expected) ==> (r == Err(Conflict) <==> Conflicts(expected, FieldsOf(old(m.live), cid, eid)))
    ensures r.Ok? <==> Matches(expected, current) && Patched(FieldsOf(old(m.live), cid, eid), patch, add).Ok?
    ensures r.Err? ==> m.live == old(m.live) && m.trail == old(m.trail)
    ensures r.Ok? ==> DistinctFields(r.value)
    ensures r.Ok? ==> IsWritten(r.value, Patched(FieldsOf(old(m.live), cid, eid), patch, add).value)
    ensures r.Ok? ==> m.live == Replaced(old(m.live), defs, cid, eid, NowOf(r.value))
  {
    var found := GetEntity(m, cid, eid);
    current := found;
    if UniqueNames(expected) {
      MatchesMeans(expected, found, FieldsOf(m.live, cid, eid));
    }
    if !Matches(expected, found) {
      return Err(Conflict), current;
    }
    var fields: Written := if found.Some? then found.value else [];
    r := ApplyPatch(fields, patch, add, FieldsOf(m.live, cid, eid));
    if r.Ok? {
      PutEntity(m, hint, defs, cid, eid, r.value);
    }
  }
}
