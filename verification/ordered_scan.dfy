/** Rows in the order of an index (src/query/executor.rs:322-414). */
module OrderedScan {
  import opened Std
  import opened Bytes
  import opened OrderedValues
  import opened KeyCodec
  import opened Store
  import opened Entities
  import opened EntityWrites
  import opened Indexes
  import opened Ranking
  import opened Assembling

  // ---- reading entities ----

  lemma WrittenIsUnique(w: Written, now: Fields)
    requires IsWritten(w, now) && DistinctFields(w)
    ensures NowOf(w) == now
  {
    NowIsWritten(w);
    SameMap(NowOf(w), now);
  }

  /** The entity as a row, if it has any field. */
  method ReadRow(m: Mutator, cid: U32, eid: ByteString) returns (r: Option<Found>)
    requires m.Valid() && |eid| < U32_LIMIT
    ensures r == RowFor(m.live, cid, eid)
  {
    var w := GetEntity(m, cid, eid);
    if w.Some? {
      WrittenIsUnique(w.value, FieldsOf(m.live, cid, eid));
      r := Some(Found(eid, NowOf(w.value)));
    } else {
      r := None;
    }
  }

  function RowFor(s: Kv, cid: U32, eid: ByteString): Option<Found> {
    if FieldsOf(s, cid, eid) == map[] then None else Some(Found(eid, FieldsOf(s, cid, eid)))
  }

  // ---- candidates in index order ----

  /** A candidate of the index as a row that has only the indexed field. */
  function Candidate(fid: U32, k: Key): Found
    requires k.Index? && DecodeOrdered(k.code).Ok?
  {
    Found(k.eid, map[fid := DecodeOrdered(k.code).value])
  }

  ghost predicate DecodableEntry(row: Row, cid: U32, fid: U32) {
    IsEntryOf(row.key, cid, fid) && |row.key.eid| < U32_LIMIT && DecodeOrdered(row.key.code).Ok?
  }

  ghost predicate IsCandidate(c: Found, row: Row, cid: U32, fid: U32) {
    DecodableEntry(row, cid, fid) && c == Candidate(fid, row.key)
  }

  ghost predicate AreCandidates(cands: seq<Found>, rows: seq<Row>, cid: U32, fid: U32) {
    |cands| == |rows| && forall i :: 0 <= i < |rows| ==> IsCandidate(cands[i], rows[i], cid, fid)
  }

  method Decode(rows: seq<Row>, cid: U32, fid: U32) returns (cands: seq<Found>)
    requires forall i :: 0 <= i < |rows| ==> DecodableEntry(rows[i], cid, fid)
    ensures AreCandidates(cands, rows, cid, fid)
  {
    cands := [];
    while |cands| < |rows|
      invariant |cands| <= |rows| && forall i :: 0 <= i < |cands| ==> IsCandidate(cands[i], rows[i], cid, fid)
    {
      var row := rows[|cands|];
      assert DecodableEntry(row, cid, fid);
      cands := cands + [Candidate(fid, row.key)];
    }
  }

  /** The candidates whose entity has the field within the bounds, as full rows. A candidate
      is not compared with the value it was found under. */
  function Confirmed(s: Kv, cid: U32, fid: U32, lower: Bound, upper: Bound, cands: seq<Found>): seq<Found> {
    if cands == [] then []
    else
      var n := |cands| - 1;
      var eid := cands[n].eid;
      Confirmed(s, cid, fid, lower, upper, cands[..n])
      + if Hit(s, cid, eid, fid, lower, upper) then Pending(RowFor(s, cid, eid)) else []
  }

  method Confirm(m: Mutator, cid: U32, fid: U32, lower: Bound, upper: Bound, cands: seq<Found>) returns (found: seq<Found>)
    requires m.Valid() && forall i :: 0 <= i < |cands| ==> |cands[i].eid| < U32_LIMIT
    ensures found == Confirmed(m.live, cid, fid, lower, upper, cands)
  {
    found := [];
    var i := 0;
    while i < |cands|
      invariant 0 <= i <= |cands| && found == Confirmed(m.live, cid, fid, lower, upper, cands[..i])
    {
      assert cands[..i + 1][..i] == cands[..i];
      var hit := CheckHit(m, cid, cands[i].eid, fid, lower, upper);
      if hit {
        var row := ReadRow(m, cid, cands[i].eid);
        found := found + Pending(row);
      }
      i := i + 1;
    }
    assert cands[..i] == cands;
  }

  /** `index_order_stream`, drained. */
  method OrderStream(m: Mutator, cid: U32, fid: U32, lower: Bound, upper: Bound, asc: bool) returns (found: seq<Found>)
    requires m.Valid() && fid != COMPOSITE_FIELD_MARKER
    ensures forall j :: 0 <= j < |found| ==> TrueHit(found[j], m.live, cid, fid, lower, upper)
    ensures EntriesCover(m.live, cid, fid) && EntriesTrue(m.live, cid, fid) ==>
      (InIndexOrder(found, m.live, cid, fid, lower, upper, asc) <==> NoOldHits(m.live, m.dead, cid, fid, lower, upper))
  {
    var (start, end) := IndexRange(cid, fid, lower, upper);
    var rows := m.Scan(Some(start), end);
    RowsDecode(rows, m.live, m.arity, cid, fid, lower, upper);
    var cands := Decode(rows, cid, fid);
    var sorted := SortRows(cands, fid, asc);
    SortedCandidates(rows, cands, sorted, cid, fid);
    found := Confirm(m, cid, fid, lower, upper, sorted);
    ConfirmedTrue(m.live, cid, fid, lower, upper, sorted);
    if EntriesCover(m.live, cid, fid) && EntriesTrue(m.live, cid, fid) {
      OrderExactIff(rows, cands, sorted, m.live, m.arity, cid, fid, lower, upper, asc);
      OldHitRows(rows, m.live, m.dead, m.arity, cid, fid, lower, upper);
    }
  }

  /** A row of an entity that has the field within the bounds. */
  ghost predicate TrueHit(r: Found, s: Kv, cid: U32, fid: U32, lower: Bound, upper: Bound) {
    r.fs == FieldsOf(s, cid, r.eid) && Hit(s, cid, r.eid, fid, lower, upper)
  }

  /** The exact answer in order: every hit once, sorted. */
  ghost predicate InIndexOrder(found: seq<Found>, s: Kv, cid: U32, fid: U32, lower: Bound, upper: Bound, asc: bool) {
    && TrueRows(found, s, cid) && SortedBy(found, fid, asc)
    && forall e :: HasFound(found, e) <==> Hit(s, cid, e, fid, lower, upper)
  }

  // ---- when the order is right ----

  /** Every live entry of the index is that of a live value. */
  ghost predicate EntriesTrue(s: Kv, cid: U32, fid: U32) {
    forall k :: k in s && IsEntryOf(k, cid, fid) ==> EntryTrue(s, k)
  }

  ghost predicate EntryTrue(s: Kv, k: Key)
    requires k.Index?
  {
    var f := Field(k.cid, k.eid, k.fid);
    f in s && s[f].Val? && k.code == EncodeOrdered(s[f].v)
  }

  /** No deleted entry in the range belongs to an entity that is still a hit. */
  ghost predicate NoOldHits(s: Kv, dead: set<Key>, cid: U32, fid: U32, lower: Bound, upper: Bound) {
    forall k :: k in dead && IsEntryOf(k, cid, fid) && CodeWithin(k.code, lower, upper) ==>
      !Hit(s, cid, k.eid, fid, lower, upper)
  }

  /** The index is exact, and no hit has a deleted entry in the range. */
  ghost predicate OrderServed(s: Kv, dead: set<Key>, cid: U32, fid: U32, lower: Bound, upper: Bound) {
    EntriesCover(s, cid, fid) && EntriesTrue(s, cid, fid) && NoOldHits(s, dead, cid, fid, lower, upper)
  }

  lemma RowsDecode(rows: seq<Row>, s: Kv, arity: Arity, cid: U32, fid: U32, lower: Bound, upper: Bound)
    requires WellTyped(s, arity) && fid != COMPOSITE_FIELD_MARKER
    requires forall i :: 0 <= i < |rows| ==> Storable(rows[i].key, arity)
    requires var (start, end) := IndexRange(cid, fid, lower, upper); IsScan(rows, s, Some(start), end)
    ensures forall i :: 0 <= i < |rows| ==> DecodableEntry(rows[i], cid, fid)
  {
    IndexRowsAre(rows, s, arity, cid, fid, lower, upper);
    forall i | 0 <= i < |rows| ensures DecodableEntry(rows[i], cid, fid) {
      var k := rows[i].key;
      assert IsEntryOf(k, cid, fid) && IsCode(k.code);
      var v :| k.code == EncodeOrdered(v);
      DecodeEncode(v);
    }
  }

  /** Sorting keeps the candidates: each stands for a row. */
  lemma SortedCandidates(rows: seq<Row>, cands: seq<Found>, sorted: seq<Found>, cid: U32, fid: U32)
    requires AreCandidates(cands, rows, cid, fid) && multiset(sorted) == multiset(cands)
    ensures forall i :: 0 <= i < |sorted| ==> FromRow(sorted[i], rows, cid, fid)
    ensures forall i :: 0 <= i < |sorted| ==> |sorted[i].eid| < U32_LIMIT
    ensures forall i :: 0 <= i < |rows| ==> HasFound(sorted, rows[i].key.eid)
  {
    forall i | 0 <= i < |sorted| ensures FromRow(sorted[i], rows, cid, fid) && |sorted[i].eid| < U32_LIMIT {
      assert sorted[i] in multiset(cands);
      var j :| 0 <= j < |cands| && cands[j] == sorted[i];
      assert IsCandidate(cands[j], rows[j], cid, fid);
    }
    forall i | 0 <= i < |rows| ensures HasFound(sorted, rows[i].key.eid) {
      assert IsCandidate(cands[i], rows[i], cid, fid);
      assert cands[i] in multiset(sorted);
      var j :| 0 <= j < |sorted| && sorted[j] == cands[i];
    }
  }

  ghost predicate FromRow(c: Found, rows: seq<Row>, cid: U32, fid: U32) {
    exists j :: 0 <= j < |rows| && IsCandidate(c, rows[j], cid, fid)
  }

  lemma {:induction false} ConfirmedTrue(s: Kv, cid: U32, fid: U32, lower: Bound, upper: Bound, cands: seq<Found>)
    ensures forall r :: r in Confirmed(s, cid, fid, lower, upper, cands) ==> TrueHit(r, s, cid, fid, lower, upper)
  {
    if cands != [] {
      ConfirmedTrue(s, cid, fid, lower, upper, cands[..|cands| - 1]);
    }
  }

  /** A row of an exact index: a live entry, which is that of a hit, or a deleted one. */
  ghost predicate ServedRow(row: Row, s: Kv, cid: U32, fid: U32, lower: Bound, upper: Bound) {
    && DecodableEntry(row, cid, fid)
    && (row.stored.Some? ==> EntryTrue(s, row.key) && Hit(s, cid, row.key.eid, fid, lower, upper))
  }

  ghost predicate ServedRows(rows: seq<Row>, s: Kv, cid: U32, fid: U32, lower: Bound, upper: Bound) {
    forall i :: 0 <= i < |rows| ==> ServedRow(rows[i], s, cid, fid, lower, upper)
  }

  /** Every hit has a live row, and one only. */
  ghost predicate OneLiveRow(rows: seq<Row>, s: Kv, cid: U32, fid: U32, lower: Bound, upper: Bound) {
    && (forall e :: Hit(s, cid, e, fid, lower, upper) ==> LiveRow(rows, e))
    && (forall i, j :: 0 <= i < j < |rows| && rows[i].stored.Some? && rows[j].stored.Some? ==> rows[i].key.eid != rows[j].key.eid)
  }

  ghost predicate LiveRow(rows: seq<Row>, e: ByteString) {
    exists i :: 0 <= i < |rows| && rows[i].stored.Some? && rows[i].key.eid == e
  }

  lemma ServedCandidates(rows: seq<Row>, s: Kv, arity: Arity, cid: U32, fid: U32, lower: Bound, upper: Bound)
    requires WellTyped(s, arity) && fid != COMPOSITE_FIELD_MARKER && EntriesCover(s, cid, fid) && EntriesTrue(s, cid, fid)
    requires forall i :: 0 <= i < |rows| ==> Storable(rows[i].key, arity)
    requires var (start, end) := IndexRange(cid, fid, lower, upper); IsScan(rows, s, Some(start), end)
    ensures ServedRows(rows, s, cid, fid, lower, upper) && OneLiveRow(rows, s, cid, fid, lower, upper)
  {
    var (start, end) := IndexRange(cid, fid, lower, upper);
    IndexRowsAre(rows, s, arity, cid, fid, lower, upper);
    RowsDecode(rows, s, arity, cid, fid, lower, upper);
    forall i | 0 <= i < |rows| ensures ServedRow(rows[i], s, cid, fid, lower, upper) {
      var k := rows[i].key;
      assert DecodableEntry(rows[i], cid, fid);
      if rows[i].stored.Some? {
        assert IsEntryOf(k, cid, fid) && k in s;
        IndexRangeExact(cid, fid, lower, upper, k);
        CodeWithinIs(s[Field(cid, k.eid, fid)].v, lower, upper);
      }
    }
    forall i, j | 0 <= i < j < |rows| && rows[i].stored.Some? && rows[j].stored.Some?
      ensures rows[i].key.eid != rows[j].key.eid
    {
      if rows[i].key.eid == rows[j].key.eid {
        assert ServedRow(rows[i], s, cid, fid, lower, upper) && ServedRow(rows[j], s, cid, fid, lower, upper);
        LessIrreflexive(EncodeKey(rows[i].key));
      }
    }
    forall e | Hit(s, cid, e, fid, lower, upper) ensures LiveRow(rows, e) {
      HitHasLiveRow(rows, s, arity, cid, e, fid, lower, upper);
    }
  }

  lemma HitHasLiveRow(rows: seq<Row>, s: Kv, arity: Arity, cid: U32, eid: ByteString, fid: U32, lower: Bound, upper: Bound)
    requires WellTyped(s, arity) && fid != COMPOSITE_FIELD_MARKER && EntriesCover(s, cid, fid)
    requires var (start, end) := IndexRange(cid, fid, lower, upper); IsScan(rows, s, Some(start), end)
    requires Hit(s, cid, eid, fid, lower, upper)
    ensures LiveRow(rows, eid)
  {
    var f := Field(cid, eid, fid);
    var k := IndexKey(cid, eid, fid, s[f].v);
    assert f in s && f.fid in [fid];
    assert k in s && Storable(k, arity);
    IndexRangeExact(cid, fid, lower, upper, k);
    CodeWithinIs(s[f].v, lower, upper);
    assert HasRow(rows, k);
    var i :| 0 <= i < |rows| && rows[i].key == k;
    assert rows[i].stored == At(s, k);
  }

  // ---- candidates that are no hits drop out ----

  function HitsOf(s: Kv, cid: U32, fid: U32, lower: Bound, upper: Bound, cands: seq<Found>): seq<Found> {
    if cands == [] then []
    else
      var n := |cands| - 1;
      HitsOf(s, cid, fid, lower, upper, cands[..n]) + if Hit(s, cid, cands[n].eid, fid, lower, upper) then [cands[n]] else []
  }

  lemma AppendNothing(a: seq<Found>)
    ensures a + [] == a
  {
  }

  lemma HitsSnoc(s: Kv, cid: U32, fid: U32, lower: Bound, upper: Bound, cands: seq<Found>)
    requires cands != []
    ensures var n := |cands| - 1; var before := HitsOf(s, cid, fid, lower, upper, cands[..n]);
      HitsOf(s, cid, fid, lower, upper, cands) == if Hit(s, cid, cands[n].eid, fid, lower, upper) then before + [cands[n]] else before
  {
    AppendNothing(HitsOf(s, cid, fid, lower, upper, cands[..|cands| - 1]));
  }

  lemma {:induction false} ConfirmedSkips(s: Kv, cid: U32, fid: U32, lower: Bound, upper: Bound, cands: seq<Found>)
    ensures var hits := HitsOf(s, cid, fid, lower, upper, cands);
      Confirmed(s, cid, fid, lower, upper, hits) == Confirmed(s, cid, fid, lower, upper, cands)
  {
    if cands != [] {
      var n := |cands| - 1;
      ConfirmedSkips(s, cid, fid, lower, upper, cands[..n]);
      HitsSnoc(s, cid, fid, lower, upper, cands);
      var before := HitsOf(s, cid, fid, lower, upper, cands[..n]);
      assert (before + [cands[n]])[..|before|] == before;
      AppendNothing(Confirmed(s, cid, fid, lower, upper, cands[..n]));
    }
  }

  lemma CountSnoc(a: seq<Found>, x: Found, c: Found)
    ensures multiset(a + [x])[c] == multiset(a)[c] + if x == c then 1 else 0
  {
  }

  lemma {:induction false} HitsAre(s: Kv, cid: U32, fid: U32, lower: Bound, upper: Bound, cands: seq<Found>, c: Found)
    ensures var n := multiset(cands)[c];
      multiset(HitsOf(s, cid, fid, lower, upper, cands))[c] == if Hit(s, cid, c.eid, fid, lower, upper) then n else 0
  {
    if cands != [] {
      var n := |cands| - 1;
      HitsAre(s, cid, fid, lower, upper, cands[..n], c);
      HitsSnoc(s, cid, fid, lower, upper, cands);
      assert cands == cands[..n] + [cands[n]];
      CountSnoc(cands[..n], cands[n], c);
      CountSnoc(HitsOf(s, cid, fid, lower, upper, cands[..n]), cands[n], c);
    }
  }

  lemma {:induction false} HitsSorted(s: Kv, cid: U32, fid: U32, lower: Bound, upper: Bound, cands: seq<Found>, asc: bool)
    requires SortedBy(cands, fid, asc)
    ensures SortedBy(HitsOf(s, cid, fid, lower, upper, cands), fid, asc)
  {
    if cands != [] {
      var n := |cands| - 1;
      HitsSorted(s, cid, fid, lower, upper, cands[..n], asc);
      var front := HitsOf(s, cid, fid, lower, upper, cands[..n]);
      forall i | 0 <= i < |front| ensures RowCmp(front[i], cands[n], fid, asc) != Gt {
        HitsAre(s, cid, fid, lower, upper, cands[..n], front[i]);
        assert front[i] in multiset(cands[..n]);
      }
      SortedSnoc(front, cands[n], fid, asc);
    }
  }

  lemma HitsPermute(s: Kv, cid: U32, fid: U32, lower: Bound, upper: Bound, a: seq<Found>, b: seq<Found>)
    requires multiset(a) == multiset(b)
    ensures multiset(HitsOf(s, cid, fid, lower, upper, a)) == multiset(HitsOf(s, cid, fid, lower, upper, b))
  {
    forall c: Found
      ensures multiset(HitsOf(s, cid, fid, lower, upper, a))[c] == multiset(HitsOf(s, cid, fid, lower, upper, b))[c]
    {
      HitsAre(s, cid, fid, lower, upper, a, c);
      HitsAre(s, cid, fid, lower, upper, b, c);
    }
  }

  lemma {:induction false} HitIsKept(s: Kv, cid: U32, fid: U32, lower: Bound, upper: Bound, cands: seq<Found>, e: ByteString)
    ensures HasFound(HitsOf(s, cid, fid, lower, upper, cands), e) <==> HasFound(cands, e) && Hit(s, cid, e, fid, lower, upper)
  {
    if cands != [] {
      var n := |cands| - 1;
      HitIsKept(s, cid, fid, lower, upper, cands[..n], e);
      assert cands == cands[..n] + [cands[n]];
      HitsSnoc(s, cid, fid, lower, upper, cands);
      FoundSnoc(cands[..n], cands[n], e);
      FoundSnoc(HitsOf(s, cid, fid, lower, upper, cands[..n]), cands[n], e);
    }
  }

  /** If every candidate is a hit, all are confirmed, in their order. */
  lemma {:induction false} AllConfirmed(s: Kv, cid: U32, fid: U32, lower: Bound, upper: Bound, cands: seq<Found>)
    requires forall i :: 0 <= i < |cands| ==> Hit(s, cid, cands[i].eid, fid, lower, upper)
    ensures var found := Confirmed(s, cid, fid, lower, upper, cands);
      |found| == |cands| && forall i :: 0 <= i < |cands| ==> found[i] == Found(cands[i].eid, FieldsOf(s, cid, cands[i].eid))
  {
    if cands != [] {
      var n := |cands| - 1;
      AllConfirmed(s, cid, fid, lower, upper, cands[..n]);
      assert fid in FieldsOf(s, cid, cands[n].eid);
    }
  }

  /** The candidate sorts where its entity does. */
  ghost predicate StandsFor(c: Found, s: Kv, cid: U32, fid: U32) {
    fid in c.fs && fid in FieldsOf(s, cid, c.eid) && ValueCmp(c.fs[fid], FieldsOf(s, cid, c.eid)[fid]) == Eq
  }

  lemma CandidateStandsFor(row: Row, s: Kv, cid: U32, fid: U32, lower: Bound, upper: Bound)
    requires ServedRow(row, s, cid, fid, lower, upper) && row.stored.Some?
    ensures StandsFor(Candidate(fid, row.key), s, cid, fid)
  {
    var v := s[Field(cid, row.key.eid, fid)].v;
    DecodeEncode(v);
    CmpFlips(v, Canonical(v));
  }

  lemma SameOrder(a: Found, b: Found, s: Kv, cid: U32, fid: U32, asc: bool)
    requires StandsFor(a, s, cid, fid) && StandsFor(b, s, cid, fid)
    ensures RowCmp(Found(a.eid, FieldsOf(s, cid, a.eid)), Found(b.eid, FieldsOf(s, cid, b.eid)), fid, asc) == RowCmp(a, b, fid, asc)
  {
    var x, y := FieldsOf(s, cid, a.eid)[fid], FieldsOf(s, cid, b.eid)[fid];
    SameValueOrder(a.fs[fid], x, b.fs[fid], y);
  }

  lemma SameValueOrder(v: Value, x: Value, w: Value, y: Value)
    requires ValueCmp(v, x) == Eq && ValueCmp(w, y) == Eq
    ensures ValueCmp(v, w) == ValueCmp(x, y)
  {
    OrderEmbedding(v, x);
    OrderEmbedding(w, y);
    OrderEmbedding(v, w);
    OrderEmbedding(x, y);
  }

  /** Candidates of a served range are hits, and sort where their entities do. */
  ghost predicate Genuine(c: Found, s: Kv, cid: U32, fid: U32, lower: Bound, upper: Bound) {
    Hit(s, cid, c.eid, fid, lower, upper) && StandsFor(c, s, cid, fid)
  }

  /** Genuine candidates in order are confirmed as sorted rows. */
  lemma ConfirmedInOrder(sorted: seq<Found>, s: Kv, cid: U32, fid: U32, lower: Bound, upper: Bound, asc: bool)
    requires forall i :: 0 <= i < |sorted| ==> Genuine(sorted[i], s, cid, fid, lower, upper)
    requires SortedBy(sorted, fid, asc) && DistinctRows(sorted)
    ensures var found := Confirmed(s, cid, fid, lower, upper, sorted);
      SortedBy(found, fid, asc) && TrueRows(found, s, cid) && forall e :: HasFound(found, e) <==> HasFound(sorted, e)
  {
    var found := Confirmed(s, cid, fid, lower, upper, sorted);
    AllConfirmed(s, cid, fid, lower, upper, sorted);
    forall i, j | 0 <= i < j < |found| ensures RowCmp(found[i], found[j], fid, asc) != Gt {
      assert Genuine(sorted[i], s, cid, fid, lower, upper) && Genuine(sorted[j], s, cid, fid, lower, upper);
      SameOrder(sorted[i], sorted[j], s, cid, fid, asc);
    }
    forall i | 0 <= i < |found| ensures found[i].fs == FieldsOf(s, cid, found[i].eid) != map[] {
      assert Genuine(sorted[i], s, cid, fid, lower, upper);
    }
    SameFound(found, sorted);
  }

  lemma SameFound(a: seq<Found>, b: seq<Found>)
    requires |a| == |b| && forall i :: 0 <= i < |a| ==> a[i].eid == b[i].eid
    ensures forall e :: HasFound(a, e) <==> HasFound(b, e)
  {
    forall e | HasFound(a, e) ensures HasFound(b, e) {
      var i :| 0 <= i < |a| && a[i].eid == e;
      assert b[i].eid == e;
    }
    forall e | HasFound(b, e) ensures HasFound(a, e) {
      var i :| 0 <= i < |b| && b[i].eid == e;
      assert a[i].eid == e;
    }
  }

  /** A scanned deleted entry of an entity that is still a hit. */
  ghost predicate OldHit(row: Row, s: Kv, cid: U32, fid: U32, lower: Bound, upper: Bound) {
    row.stored.None? && Hit(s, cid, row.key.eid, fid, lower, upper)
  }

  ghost predicate HasOldHit(rows: seq<Row>, s: Kv, cid: U32, fid: U32, lower: Bound, upper: Bound) {
    exists i :: 0 <= i < |rows| && OldHit(rows[i], s, cid, fid, lower, upper)
  }

  /** For an exact index the rows come out in order, every hit once, if and only if the scan
      yields no deleted entry of an entity that is still a hit. */
  lemma OrderExactIff(rows: seq<Row>, cands: seq<Found>, sorted: seq<Found>, s: Kv, arity: Arity, cid: U32, fid: U32,
                      lower: Bound, upper: Bound, asc: bool)
    requires WellTyped(s, arity) && fid != COMPOSITE_FIELD_MARKER && EntriesCover(s, cid, fid) && EntriesTrue(s, cid, fid)
    requires forall i :: 0 <= i < |rows| ==> Storable(rows[i].key, arity)
    requires var (start, end) := IndexRange(cid, fid, lower, upper); IsScan(rows, s, Some(start), end)
    requires AreCandidates(cands, rows, cid, fid)
    requires SortedBy(sorted, fid, asc) && multiset(sorted) == multiset(cands)
    ensures InIndexOrder(Confirmed(s, cid, fid, lower, upper, sorted), s, cid, fid, lower, upper, asc)
      <==> !HasOldHit(rows, s, cid, fid, lower, upper)
  {
    ServedCandidates(rows, s, arity, cid, fid, lower, upper);
    if HasOldHit(rows, s, cid, fid, lower, upper) {
      OldHitRepeats(rows, cands, sorted, s, cid, fid, lower, upper);
    } else {
      ServedOrder(rows, cands, sorted, s, cid, fid, lower, upper, asc);
    }
  }

  lemma ServedOrder(rows: seq<Row>, cands: seq<Found>, sorted: seq<Found>, s: Kv, cid: U32, fid: U32,
                    lower: Bound, upper: Bound, asc: bool)
    requires ServedRows(rows, s, cid, fid, lower, upper) && OneLiveRow(rows, s, cid, fid, lower, upper)
    requires !HasOldHit(rows, s, cid, fid, lower, upper) && AreCandidates(cands, rows, cid, fid)
    requires SortedBy(sorted, fid, asc) && multiset(sorted) == multiset(cands)
    ensures InIndexOrder(Confirmed(s, cid, fid, lower, upper, sorted), s, cid, fid, lower, upper, asc)
  {
    var hits := HitsOf(s, cid, fid, lower, upper, sorted);
    SortedCandidates(rows, cands, sorted, cid, fid);
    HitsGenuine(rows, sorted, s, cid, fid, lower, upper);
    HitsDistinct(rows, cands, s, cid, fid, lower, upper);
    HitsPermute(s, cid, fid, lower, upper, cands, sorted);
    DistinctPermuted(HitsOf(s, cid, fid, lower, upper, cands), hits);
    HitsSorted(s, cid, fid, lower, upper, sorted, asc);
    ConfirmedInOrder(hits, s, cid, fid, lower, upper, asc);
    ConfirmedSkips(s, cid, fid, lower, upper, sorted);
    forall e: ByteString ensures HasFound(hits, e) <==> Hit(s, cid, e, fid, lower, upper) {
      HitIsKept(s, cid, fid, lower, upper, sorted, e);
      if Hit(s, cid, e, fid, lower, upper) {
        assert LiveRow(rows, e);
      }
    }
  }

  lemma HitsGenuine(rows: seq<Row>, sorted: seq<Found>, s: Kv, cid: U32, fid: U32, lower: Bound, upper: Bound)
    requires ServedRows(rows, s, cid, fid, lower, upper) && !HasOldHit(rows, s, cid, fid, lower, upper)
    requires forall i :: 0 <= i < |sorted| ==> FromRow(sorted[i], rows, cid, fid)
    ensures var hits := HitsOf(s, cid, fid, lower, upper, sorted);
      forall i :: 0 <= i < |hits| ==> Genuine(hits[i], s, cid, fid, lower, upper)
  {
    var hits := HitsOf(s, cid, fid, lower, upper, sorted);
    forall i | 0 <= i < |hits| ensures Genuine(hits[i], s, cid, fid, lower, upper) {
      HitsAre(s, cid, fid, lower, upper, sorted, hits[i]);
      assert hits[i] in multiset(hits);
      assert hits[i] in multiset(sorted);
      assert FromRow(hits[i], rows, cid, fid);
      var j :| 0 <= j < |rows| && IsCandidate(hits[i], rows[j], cid, fid);
      assert ServedRow(rows[j], s, cid, fid, lower, upper) && !OldHit(rows[j], s, cid, fid, lower, upper);
      CandidateStandsFor(rows[j], s, cid, fid, lower, upper);
    }
  }

  /** Without old hits, all hits come from live rows, of which each entity has one. */
  lemma {:induction false} HitsDistinct(rows: seq<Row>, cands: seq<Found>, s: Kv, cid: U32, fid: U32, lower: Bound, upper: Bound)
    requires AreCandidates(cands, rows, cid, fid) && !HasOldHit(rows, s, cid, fid, lower, upper)
    requires forall i, j :: 0 <= i < j < |rows| && rows[i].stored.Some? && rows[j].stored.Some? ==> rows[i].key.eid != rows[j].key.eid
    ensures DistinctRows(HitsOf(s, cid, fid, lower, upper, cands))
  {
    if cands != [] {
      var n := |cands| - 1;
      var fewer := rows[..n];
      forall i | 0 <= i < n ensures IsCandidate(cands[..n][i], fewer[i], cid, fid) && !OldHit(fewer[i], s, cid, fid, lower, upper) {
        assert IsCandidate(cands[i], rows[i], cid, fid) && !OldHit(rows[i], s, cid, fid, lower, upper);
      }
      HitsDistinct(fewer, cands[..n], s, cid, fid, lower, upper);
      var front := HitsOf(s, cid, fid, lower, upper, cands[..n]);
      if Hit(s, cid, cands[n].eid, fid, lower, upper) {
        assert IsCandidate(cands[n], rows[n], cid, fid) && !OldHit(rows[n], s, cid, fid, lower, upper);
        forall i | 0 <= i < |front| ensures front[i].eid != cands[n].eid {
          EarlierHit(rows, cands, s, cid, fid, lower, upper, front[i]);
        }
      }
    }
  }

  lemma EarlierHit(rows: seq<Row>, cands: seq<Found>, s: Kv, cid: U32, fid: U32, lower: Bound, upper: Bound, c: Found)
    requires cands != [] && AreCandidates(cands, rows, cid, fid) && !HasOldHit(rows, s, cid, fid, lower, upper)
    requires forall i, j :: 0 <= i < j < |rows| && rows[i].stored.Some? && rows[j].stored.Some? ==> rows[i].key.eid != rows[j].key.eid
    requires c in HitsOf(s, cid, fid, lower, upper, cands[..|cands| - 1]) && rows[|cands| - 1].stored.Some?
    ensures c.eid != rows[|cands| - 1].key.eid
  {
    var n := |cands| - 1;
    HitsAre(s, cid, fid, lower, upper, cands[..n], c);
    assert c in multiset(HitsOf(s, cid, fid, lower, upper, cands[..n]));
    assert c in multiset(cands[..n]);
    var k :| 0 <= k < n && cands[..n][k] == c;
    assert IsCandidate(cands[k], rows[k], cid, fid) && !OldHit(rows[k], s, cid, fid, lower, upper);
  }

  // ---- an old hit comes twice ----

  lemma {:induction false} RepeatedConfirmed(s: Kv, cid: U32, fid: U32, lower: Bound, upper: Bound, cands: seq<Found>)
    requires !DistinctRows(HitsOf(s, cid, fid, lower, upper, cands))
    ensures !DistinctRows(Confirmed(s, cid, fid, lower, upper, cands))
  {
    var hits := HitsOf(s, cid, fid, lower, upper, cands);
    ConfirmedSkips(s, cid, fid, lower, upper, cands);
    forall i | 0 <= i < |hits| ensures Hit(s, cid, hits[i].eid, fid, lower, upper) {
      HitsAre(s, cid, fid, lower, upper, cands, hits[i]);
      assert hits[i] in multiset(hits);
    }
    AllConfirmed(s, cid, fid, lower, upper, hits);
    var found := Confirmed(s, cid, fid, lower, upper, hits);
    var i, j :| 0 <= i < j < |hits| && hits[i].eid == hits[j].eid;
    assert found[i].eid == found[j].eid;
  }

  /** Two candidates of a hit are both kept. */
  lemma {:induction false} BothKept(s: Kv, cid: U32, fid: U32, lower: Bound, upper: Bound, cands: seq<Found>, i: nat, j: nat)
    requires i < j < |cands| && cands[i].eid == cands[j].eid && Hit(s, cid, cands[i].eid, fid, lower, upper)
    ensures !DistinctRows(HitsOf(s, cid, fid, lower, upper, cands))
  {
    var n := |cands| - 1;
    var front := HitsOf(s, cid, fid, lower, upper, cands[..n]);
    var hits := HitsOf(s, cid, fid, lower, upper, cands);
    if j < n {
      BothKept(s, cid, fid, lower, upper, cands[..n], i, j);
      var a, b :| 0 <= a < b < |front| && front[a].eid == front[b].eid;
      assert hits[a].eid == hits[b].eid;
    } else {
      assert cands[..n][i] == cands[i];
      HitIsKept(s, cid, fid, lower, upper, cands[..n], cands[i].eid);
      var a :| 0 <= a < |front| && front[a].eid == cands[i].eid;
      assert hits[a].eid == hits[|front|].eid;
    }
  }

  lemma OldHitRepeats(rows: seq<Row>, cands: seq<Found>, sorted: seq<Found>, s: Kv, cid: U32, fid: U32,
                      lower: Bound, upper: Bound)
    requires OneLiveRow(rows, s, cid, fid, lower, upper) && HasOldHit(rows, s, cid, fid, lower, upper)
    requires AreCandidates(cands, rows, cid, fid) && multiset(sorted) == multiset(cands)
    ensures !DistinctRows(Confirmed(s, cid, fid, lower, upper, sorted))
  {
    var i :| 0 <= i < |rows| && OldHit(rows[i], s, cid, fid, lower, upper);
    assert LiveRow(rows, rows[i].key.eid);
    var j :| 0 <= j < |rows| && rows[j].stored.Some? && rows[j].key.eid == rows[i].key.eid;
    assert IsCandidate(cands[i], rows[i], cid, fid) && IsCandidate(cands[j], rows[j], cid, fid);
    BothKept(s, cid, fid, lower, upper, cands, if i < j then i else j, if i < j then j else i);
    HitsPermute(s, cid, fid, lower, upper, sorted, cands);
    if DistinctRows(HitsOf(s, cid, fid, lower, upper, sorted)) {
      DistinctPermuted(HitsOf(s, cid, fid, lower, upper, sorted), HitsOf(s, cid, fid, lower, upper, cands));
    }
    RepeatedConfirmed(s, cid, fid, lower, upper, sorted);
  }

  /** The scan yields exactly the deleted entries in the range. */
  lemma OldHitRows(rows: seq<Row>, s: Kv, dead: set<Key>, arity: Arity, cid: U32, fid: U32, lower: Bound, upper: Bound)
    requires fid != COMPOSITE_FIELD_MARKER && forall k :: k in dead ==> Storable(k, arity) && k !in s
    requires forall i :: 0 <= i < |rows| ==> Storable(rows[i].key, arity) && (rows[i].key in s || rows[i].key in dead)
    requires var (start, end) := IndexRange(cid, fid, lower, upper);
      IsScan(rows, s, Some(start), end) && forall k :: k in dead && KeyInRange(k, Some(start), end) ==> HasRow(rows, k)
    ensures HasOldHit(rows, s, cid, fid, lower, upper) <==> !NoOldHits(s, dead, cid, fid, lower, upper)
  {
    if HasOldHit(rows, s, cid, fid, lower, upper) {
      var i :| 0 <= i < |rows| && OldHit(rows[i], s, cid, fid, lower, upper);
      IndexRangeExact(cid, fid, lower, upper, rows[i].key);
      assert rows[i].key in dead;
    }
    if !NoOldHits(s, dead, cid, fid, lower, upper) {
      var k :| k in dead && IsEntryOf(k, cid, fid) && CodeWithin(k.code, lower, upper) && Hit(s, cid, k.eid, fid, lower, upper);
      IndexRangeExact(cid, fid, lower, upper, k);
      assert HasRow(rows, k);
      var i :| 0 <= i < |rows| && rows[i].key == k;
      assert OldHit(rows[i], s, cid, fid, lower, upper);
    }
  }

  // ---- a concrete store ----

  /** An entity whose indexed field was `was` and is `now`. */
  function Updated(cid: U32, fid: U32, eid: ByteString, now: Value): Kv {
    map[Field(cid, eid, fid) := Val(now), IndexKey(cid, eid, fid, now) := Empty]
  }

  /** With the old entry still in the raw scan, the entity is answered twice. */
  method UpdatedTwice(m: Mutator, cid: U32, fid: U32, eid: ByteString, was: Value, now: Value, asc: bool)
      returns (found: seq<Found>)
    requires m.Valid() && fid != COMPOSITE_FIELD_MARKER && ValueCmp(was, now) != Eq
    requires m.live == Updated(cid, fid, eid, now) && m.dead == {IndexKey(cid, eid, fid, was)}
    ensures found == [Found(eid, map[fid := now]), Found(eid, map[fid := now])]
  {
    UpdatedIsExact(cid, fid, eid, now);
    var (start, end) := IndexRange(cid, fid, Unbounded, Unbounded);
    var rows := m.Scan(Some(start), end);
    TwoRows(rows, m.live, m.dead, m.arity, cid, fid, eid, was, now);
    RowsDecode(rows, m.live, m.arity, cid, fid, Unbounded, Unbounded);
    var cands := Decode(rows, cid, fid);
    var sorted := SortRows(cands, fid, asc);
    SortedCandidates(rows, cands, sorted, cid, fid);
    found := Confirm(m, cid, fid, Unbounded, Unbounded, sorted);
    TwiceConfirmed(rows, cands, sorted, m.live, cid, fid, eid);
  }

  lemma TwiceConfirmed(rows: seq<Row>, cands: seq<Found>, sorted: seq<Found>, s: Kv, cid: U32, fid: U32, eid: ByteString)
    requires |rows| == 2 && rows[0].key.eid == eid && rows[1].key.eid == eid
    requires AreCandidates(cands, rows, cid, fid) && multiset(sorted) == multiset(cands)
    requires Hit(s, cid, eid, fid, Unbounded, Unbounded)
    ensures var r := Found(eid, FieldsOf(s, cid, eid)); Confirmed(s, cid, fid, Unbounded, Unbounded, sorted) == [r, r]
  {
    SameLength(sorted, cands);
    SortedCandidates(rows, cands, sorted, cid, fid);
    forall i | 0 <= i < |sorted| ensures sorted[i].eid == eid {
      assert FromRow(sorted[i], rows, cid, fid);
    }
    AllConfirmed(s, cid, fid, Unbounded, Unbounded, sorted);
  }

  lemma UpdatedIsExact(cid: U32, fid: U32, eid: ByteString, now: Value)
    ensures var s := Updated(cid, fid, eid, now);
      FieldsOf(s, cid, eid) == map[fid := now] && Hit(s, cid, eid, fid, Unbounded, Unbounded)
  {
    var s := Updated(cid, fid, eid, now);
    assert Field(cid, eid, fid) in s;
    CodeWithinIs(now, Unbounded, Unbounded);
    SameMap(FieldsOf(s, cid, eid), map[fid := now]);
  }

  lemma EntryInRange(cid: U32, fid: U32, eid: ByteString, v: Value)
    requires fid != COMPOSITE_FIELD_MARKER && |eid| < U32_LIMIT
    ensures var (start, end) := IndexRange(cid, fid, Unbounded, Unbounded);
      KeyInRange(IndexKey(cid, eid, fid, v), Some(start), end)
  {
    CodeWithinIs(v, Unbounded, Unbounded);
    IndexRangeExact(cid, fid, Unbounded, Unbounded, IndexKey(cid, eid, fid, v));
  }

  lemma TwoRows(rows: seq<Row>, s: Kv, dead: set<Key>, arity: Arity, cid: U32, fid: U32, eid: ByteString, was: Value, now: Value)
    requires fid != COMPOSITE_FIELD_MARKER && |eid| < U32_LIMIT && ValueCmp(was, now) != Eq
    requires s == Updated(cid, fid, eid, now) && dead == {IndexKey(cid, eid, fid, was)} && WellTyped(s, arity)
    requires forall i :: 0 <= i < |rows| ==> Storable(rows[i].key, arity) && (rows[i].key in s || rows[i].key in dead)
    requires var (start, end) := IndexRange(cid, fid, Unbounded, Unbounded);
      IsScan(rows, s, Some(start), end) && forall k :: k in dead && KeyInRange(k, Some(start), end) ==> HasRow(rows, k)
    ensures |rows| == 2 && rows[0].key.eid == eid && rows[1].key.eid == eid
  {
    var a, b := IndexKey(cid, eid, fid, was), IndexKey(cid, eid, fid, now);
    OrderEmbedding(was, now);
    IndexRowsAre(rows, s, arity, cid, fid, Unbounded, Unbounded);
    EntryInRange(cid, fid, eid, was);
    EntryInRange(cid, fid, eid, now);
    assert HasRow(rows, a) && HasRow(rows, b);
    forall i | 0 <= i < |rows| ensures rows[i].key == a || rows[i].key == b {
      assert IsEntryOf(rows[i].key, cid, fid);
    }
    TwoKeys(rows, a, b);
  }

  lemma KeysDiffer(rows: seq<Row>, i: nat, j: nat)
    requires i < j < |rows| && RowsAscend(rows)
    ensures rows[i].key != rows[j].key
  {
    LessIrreflexive(EncodeKey(rows[i].key));
  }

  lemma TwoKeys(rows: seq<Row>, a: Key, b: Key)
    requires a != b && RowsAscend(rows) && HasRow(rows, a) && HasRow(rows, b)
    requires forall i :: 0 <= i < |rows| ==> rows[i].key == a || rows[i].key == b
    ensures |rows| == 2
  {
    if |rows| > 2 {
      KeysDiffer(rows, 0, 1);
      KeysDiffer(rows, 1, 2);
      KeysDiffer(rows, 0, 2);
    }
  }
}
