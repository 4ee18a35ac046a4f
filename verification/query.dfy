/** Whole queries: what the answer means, and that indexes do not show in it. */
module Queries {
  import opened Bytes
  import opened KeyCodec
  import opened Store
  import opened Entities
  import opened Predicates
  import opened IndexChoice
  import opened Indexes
  import opened Planner
  import opened PlanMeaning
  import opened Ranking
  import opened Assembling
  import opened OrderedScan
  import opened Executor
  import opened Hints
  import opened EntityRuns

  // ---- what a query asks for ----

  /** Each entity that satisfies the filters once, and no other. */
  ghost predicate Matches(all: seq<Found>, s: Kv, cid: U32, preds: seq<Pred>) {
    && DistinctRows(all) && AreRows(all, s, cid)
    && forall e: ByteString :: HasFound(all, e) <==> FieldsOf(s, cid, e) != map[] && AllHold(FieldsOf(s, cid, e), preds)
  }

  predicate InQueryOrder(all: seq<Found>, q: Query) {
    q.sort.Some? ==> InRowOrder(all, q.sort.value.0, q.sort.value.1)
  }

  function Limited(all: seq<Found>, q: Query): seq<Found> {
    if q.limit.Some? && q.limit.value < |all| then all[..q.limit.value] else all
  }

  /** The first rows, in the order asked for, of all that satisfy the filters. */
  ghost predicate Correct(found: seq<Found>, s: Kv, cid: U32, q: Query) {
    exists all :: Matches(all, s, cid, q.preds) && InQueryOrder(all, q) && found == Limited(all, q)
  }

  // ---- the answer is unique ----

  lemma SameRows(a: seq<Found>, b: seq<Found>, s: Kv, cid: U32, preds: seq<Pred>, r: Found)
    requires Matches(a, s, cid, preds) && Matches(b, s, cid, preds) && r in a
    ensures r in b
  {
    var i :| 0 <= i < |a| && a[i] == r;
    assert IsRow(a[i], s, cid) && HasFound(a, r.eid);
    assert HasFound(b, r.eid);
    var j :| 0 <= j < |b| && b[j].eid == r.eid;
    assert IsRow(b[j], s, cid);
  }

  lemma SameMultiset(a: seq<Found>, b: seq<Found>, s: Kv, cid: U32, preds: seq<Pred>)
    requires Matches(a, s, cid, preds) && Matches(b, s, cid, preds)
    ensures multiset(a) == multiset(b)
  {
    forall r: Found ensures multiset(a)[r] == multiset(b)[r] {
      if r in a {
        SameRows(a, b, s, cid, preds, r);
        Once(a, r);
        Once(b, r);
      } else if r in b {
        SameRows(b, a, s, cid, preds, r);
      }
    }
  }

  lemma Once(a: seq<Found>, r: Found)
    requires DistinctRows(a) && r in a
    ensures multiset(a)[r] == 1
  {
    var i :| 0 <= i < |a| && a[i] == r;
    OnceIn(a, i);
  }

  /** A sorted query has one correct answer, whatever indexes there are to find it by. */
  lemma CorrectIsUnique(a: seq<Found>, b: seq<Found>, s: Kv, cid: U32, q: Query)
    requires q.sort.Some? && Correct(a, s, cid, q) && Correct(b, s, cid, q)
    ensures a == b
  {
    var x :| Matches(x, s, cid, q.preds) && InQueryOrder(x, q) && a == Limited(x, q);
    var y :| Matches(y, s, cid, q.preds) && InQueryOrder(y, q) && b == Limited(y, q);
    SameMultiset(x, y, s, cid, q.preds);
    SortedIsInOrder(x, q.sort.value.0, q.sort.value.1);
    SortedIsInOrder(y, q.sort.value.0, q.sort.value.1);
    SortIsUnique(x, y, q.sort.value.0, q.sort.value.1);
  }

  // ---- plans give correct answers ----

  /** The planner is right about every entity of the collection. */
  ghost predicate WellJudged(s: Kv, defs: Defs, cid: U32, q: Query, rows: Plan) {
    forall e: ByteString :: JudgedRight(FieldsOf(s, cid, e), defs, q, rows)
  }

  ghost predicate JudgedRight(fs: Fields, defs: Defs, q: Query, rows: Plan) {
    !(AllHold(fs, q.preds) && Lost(fs, defs, q)) && !(Selects(fs, rows) && Misjudged(fs, q.preds, rows))
  }

  lemma SourceShape(defs: Defs, lits: Clause, src: Plan)
    requires SourceFor(defs, lits, src)
    ensures LimitFree(src) && OrderOf(src).None? && Runnable(defs, src) && LeadsFit(src)
  {
    if src.Fetch? && src.input.IndexScan? {
      var i :| 0 <= i < |lits| && HasIndex(lits[i], defs.single) && lits[i].fid == src.input.fid;
    } else if src.Fetch? {
      LeadingIs(lits, src.input.d.fids, 0);
      forall i | 0 <= i < |src.input.leads| ensures src.input.leads[i].pos < |src.input.d.fids| {
        assert LeadFor(lits, src.input.d.fids, src.input.leads[i]);
      }
    }
  }

  /** The plan of the rows runs, without a limit in it. */
  lemma RowsShape(defs: Defs, preds: seq<Pred>, rows: Plan)
    requires RowsFor(defs, preds, rows)
    ensures LimitFree(rows) && OrderOf(rows).None? && Runnable(defs, rows) && LeadsFit(rows)
  {
    var cs := ClausesOf(preds);
    if |cs| == 1 {
      SourceShape(defs, cs[0], SourceOf(rows));
    } else {
      forall i | 0 <= i < |cs|
        ensures var b := rows.input.branches[i]; LimitFree(b) && Runnable(defs, b) && LeadsFit(b)
      {
        SourceShape(defs, cs[i], rows.input.branches[i]);
      }
    }
  }

  lemma OrderedShape(defs: Defs, q: Query)
    requires Ordered(defs, q)
    ensures var rows := OrderedRows(q);
      LimitFree(rows) && OrderOf(rows) == q.sort && Runnable(defs, rows) && LeadsFit(rows)
  {
  }

  /** Rows that are exactly what the row plan selects are what the filters ask for. */
  lemma ExactlyMatches(all: seq<Found>, s: Kv, defs: Defs, cid: U32, q: Query, plan: Plan, rows: Plan)
    requires PlanOf(defs, q, plan, rows) && WellJudged(s, defs, cid, q, rows)
    requires AreRows(all, s, cid) && AllSelected(all, rows) && DistinctRows(all) && FindsAll(all, s, cid, rows)
    ensures Matches(all, s, cid, q.preds)
  {
    forall e: ByteString
      ensures HasFound(all, e) <==> FieldsOf(s, cid, e) != map[] && AllHold(FieldsOf(s, cid, e), q.preds)
    {
      var fs := FieldsOf(s, cid, e);
      PlanMeans(fs, defs, q, plan, rows);
      assert JudgedRight(fs, defs, q, rows);
      if HasFound(all, e) {
        var j :| 0 <= j < |all| && all[j].eid == e;
        assert IsRow(all[j], s, cid) && Selects(all[j].fs, rows);
      }
    }
  }

  lemma OrderedCorrect(found: seq<Found>, s: Kv, dead: set<Key>, defs: Defs, cid: U32, q: Query, plan: Plan, rows: Plan)
    requires Ordered(defs, q) && PlanOf(defs, q, plan, rows)
    requires Answer(found, s, dead, cid, plan) && ScansServed(s, dead, cid, rows) && WellJudged(s, defs, cid, q, rows)
    ensures Correct(found, s, cid, q)
  {
    var all :| Answer(all, s, dead, cid, rows) && found == Take(all, q.limit.value);
    OrderedShape(defs, q);
    SortedIsInOrder(all, q.sort.value.0, q.sort.value.1);
    ExactlyMatches(all, s, defs, cid, q, plan, rows);
  }

  lemma SortedSelects(all: seq<Found>, s: Kv, dead: set<Key>, cid: U32, q: Query, rows: Plan)
    requires var sorted := if q.sort.Some? then Sort(rows, q.sort.value.0, q.sort.value.1) else rows;
      LimitFree(rows) && Answer(all, s, dead, cid, sorted) && ScansServed(s, dead, cid, rows)
    ensures AreRows(all, s, cid) && AllSelected(all, rows) && DistinctRows(all) && FindsAll(all, s, cid, rows)
  {
    if q.sort.Some? {
      var sorted := Sort(rows, q.sort.value.0, q.sort.value.1);
      assert Exactly(all, s, cid, sorted);
      forall e: ByteString | FieldsOf(s, cid, e) != map[] && Selects(FieldsOf(s, cid, e), rows) ensures HasFound(all, e) {
        assert Selects(FieldsOf(s, cid, e), sorted);
      }
    } else {
      assert Exactly(all, s, cid, rows);
    }
  }

  lemma ServedSort(all: seq<Found>, s: Kv, dead: set<Key>, cid: U32, rows: Plan, f: U32, asc: bool)
    requires Answer(all, s, dead, cid, Sort(rows, f, asc)) && ScansServed(s, dead, cid, rows)
    ensures Exactly(all, s, cid, Sort(rows, f, asc))
  {
  }

  lemma ExactSort(all: seq<Found>, s: Kv, cid: U32, rows: Plan, f: U32, asc: bool)
    requires Exactly(all, s, cid, Sort(rows, f, asc))
    ensures InRowOrder(all, f, asc)
  {
    SortedIsInOrder(all, f, asc);
  }

  lemma SortedInOrder(all: seq<Found>, s: Kv, dead: set<Key>, cid: U32, q: Query, rows: Plan)
    requires q.sort.Some? ==> Answer(all, s, dead, cid, Sort(rows, q.sort.value.0, q.sort.value.1))
    requires ScansServed(s, dead, cid, rows)
    ensures InQueryOrder(all, q)
  {
    if q.sort.Some? {
      var (f, asc) := q.sort.value;
      ServedSort(all, s, dead, cid, rows, f, asc);
      ExactSort(all, s, cid, rows, f, asc);
    }
  }

  lemma DecoratedCorrect(found: seq<Found>, s: Kv, dead: set<Key>, defs: Defs, cid: U32, q: Query, plan: Plan, rows: Plan)
    requires !Ordered(defs, q) && PlanOf(defs, q, plan, rows)
    requires Answer(found, s, dead, cid, plan) && ScansServed(s, dead, cid, rows) && WellJudged(s, defs, cid, q, rows)
    ensures Correct(found, s, cid, q)
  {
    var sorted := if q.sort.Some? then Sort(rows, q.sort.value.0, q.sort.value.1) else rows;
    RowsShape(defs, q.preds, rows);
    var all := found;
    if q.limit.Some? {
      all :| Answer(all, s, dead, cid, sorted) && found == Take(all, q.limit.value);
    }
    SortedSelects(all, s, dead, cid, q, rows);
    SortedInOrder(all, s, dead, cid, q, rows);
    ExactlyMatches(all, s, defs, cid, q, plan, rows);
  }

  /** Plan and run (src/query/planner.rs:551-696, src/query/executor.rs:40-58). A query
      never fails. Every row is a true one, and the answer is correct if the indexes used
      serve and the planner judges right. */
  method RunQuery(m: Mutator, defs: Defs, cid: U32, q: Query) returns (found: seq<Found>)
    requires m.Valid() && DefsOk(defs, cid, m.arity)
    ensures AreRows(found, m.live, cid)
    ensures exists plan, rows :: Answers(found, m.live, m.dead, defs, cid, q, plan, rows)
  {
    var plan := MakePlan(defs, q);
    ghost var rows :| PlanOf(defs, q, plan, rows);
    PlanShape(defs, q, plan, rows);
    var r := Exec(m, defs, cid, plan);
    found := r.value;
    if ScansServed(m.live, m.dead, cid, rows) && WellJudged(m.live, defs, cid, q, rows) {
      if Ordered(defs, q) {
        OrderedCorrect(found, m.live, m.dead, defs, cid, q, plan, rows);
      } else {
        DecoratedCorrect(found, m.live, m.dead, defs, cid, q, plan, rows);
      }
    }
    assert Answers(found, m.live, m.dead, defs, cid, q, plan, rows);
  }

  /** The rows are correct if the plan's indexes serve and the planner judges right. */
  ghost predicate Answers(found: seq<Found>, s: Kv, dead: set<Key>, defs: Defs, cid: U32, q: Query, plan: Plan, rows: Plan) {
    && PlanOf(defs, q, plan, rows)
    && (ScansServed(s, dead, cid, rows) && WellJudged(s, defs, cid, q, rows) ==> Correct(found, s, cid, q))
  }

  lemma PlanShape(defs: Defs, q: Query, plan: Plan, rows: Plan)
    requires PlanOf(defs, q, plan, rows)
    ensures Runnable(defs, plan) && LeadsFit(plan)
  {
    if Ordered(defs, q) {
      OrderedShape(defs, q);
    } else {
      RowsShape(defs, q.preds, rows);
    }
  }

  // ---- when indexes serve, and planning judges right ----

  /** No entity has the first field of the index without the others. */
  ghost predicate Whole(s: Kv, cid: U32, d: CompDef) {
    forall e: ByteString :: d.fids != [] && d.fids[0] in FieldsOf(s, cid, e) ==> Complete(FieldsOf(s, cid, e), d.fids)
  }

  /** The clause binds all fields of the index, or none, or the index misses no entity. */
  ghost predicate CompositeSafe(s: Kv, cid: U32, lits: Clause, d: CompDef) {
    var n := |Leading(lits, d.fids, 0)|;
    n == 0 || n == |d.fids| || Whole(s, cid, d)
  }

  ghost predicate CompositesSafe(s: Kv, cid: U32, defs: Defs, cs: seq<Clause>) {
    forall c, d :: c in cs && d in defs.comps ==> CompositeSafe(s, cid, c, d)
  }

  /** In the range the query reads, no entity that is a hit has a deleted entry. */
  ghost predicate NoOldEntries(s: Kv, dead: set<Key>, cid: U32, q: Query)
    requires q.sort.Some?
  {
    var (lower, upper) := UnionOf(ClausesOf(q.preds), q.sort.value.0);
    NoOldHits(s, dead, cid, q.sort.value.0, lower, upper)
  }

  lemma CompositeServes(s: Kv, dead: set<Key>, defs: Defs, cid: U32, lits: Clause, d: CompDef)
    requires AllExact(s, defs, cid) && DistinctIx(defs.comps) && d in defs.comps
    requires CompositeSafe(s, cid, lits, d) && Leading(lits, d.fids, 0) != []
    ensures RangeServes(s, cid, d, Leading(lits, d.fids, 0)) && AllListed(s, dead, cid, d, Leading(lits, d.fids, 0))
  {
    var leads := Leading(lits, d.fids, 0);
    var i :| 0 <= i < |defs.comps| && defs.comps[i] == d;
    ExactCoversTuples(s, defs, cid, i);
    LeadingIs(lits, d.fids, 0);
    LeadingPinned(lits, d.fids, 0);
    forall e: ByteString | LeadsHit(FieldsOf(s, cid, e), d.fids, leads) ensures Complete(FieldsOf(s, cid, e), d.fids) {
      if |leads| == |d.fids| {
        FullyBoundIsComplete(FieldsOf(s, cid, e), d.fids, leads);
      } else {
        assert LeadHit(FieldsOf(s, cid, e), d.fids, leads[0]);
      }
    }
  }

  lemma SourceServes(s: Kv, dead: set<Key>, defs: Defs, cid: U32, lits: Clause, src: Plan)
    requires SourceFor(defs, lits, src) && AllExact(s, defs, cid) && DistinctIx(defs.comps)
    requires forall d :: d in defs.comps ==> CompositeSafe(s, cid, lits, d)
    ensures ScansServed(s, dead, cid, src)
  {
    SourceShape(defs, lits, src);
    if src.Fetch? && src.input.IndexScan? {
      ExactCovers(s, defs, cid, src.input.fid);
    } else if src.Fetch? {
      CompositeServes(s, dead, defs, cid, lits, src.input.d);
    }
  }

  lemma ExactEntriesTrue(s: Kv, defs: Defs, cid: U32, fid: U32)
    requires AllExact(s, defs, cid) && fid in defs.single
    ensures EntriesTrue(s, cid, fid)
  {
    forall k | k in s && IsEntryOf(k, cid, fid) ensures EntryTrue(s, k) {
      assert ExactFor(s, defs, cid, k.eid) && Owned(k, defs, cid, k.eid);
      assert Wanted(k, defs, FieldsOf(s, cid, k.eid));
    }
  }

  /** Exact indexes serve every plan, if composite ones are safe and the ordering one, where
      there is one, yields no deleted entry. */
  lemma ExactIndexesServe(s: Kv, dead: set<Key>, defs: Defs, cid: U32, q: Query, plan: Plan, rows: Plan)
    requires PlanOf(defs, q, plan, rows) && AllExact(s, defs, cid) && DistinctIx(defs.comps)
    requires CompositesSafe(s, cid, defs, ClausesOf(q.preds))
    requires Ordered(defs, q) ==> NoOldEntries(s, dead, cid, q)
    ensures ScansServed(s, dead, cid, rows)
  {
    var cs := ClausesOf(q.preds);
    if Ordered(defs, q) {
      ExactCovers(s, defs, cid, q.sort.value.0);
      ExactEntriesTrue(s, defs, cid, q.sort.value.0);
    } else if |cs| == 1 {
      assert cs[0] in cs;
      SourceServes(s, dead, defs, cid, cs[0], SourceOf(rows));
    } else {
      forall i | 0 <= i < |cs| ensures ScansServed(s, dead, cid, rows.input.branches[i]) {
        assert cs[i] in cs;
        SourceServes(s, dead, defs, cid, cs[i], rows.input.branches[i]);
      }
    }
  }

  /** Filters without a trap, and in index order without a tie of clauses: the planner is
      right about every entity. */
  lemma PlainIsWellJudged(s: Kv, defs: Defs, cid: U32, q: Query, plan: Plan, rows: Plan)
    requires PlanOf(defs, q, plan, rows) && NoTrap(q.preds)
    requires Ordered(defs, q) ==> !LowerTie(ClausesOf(q.preds), q.sort.value.0)
    ensures WellJudged(s, defs, cid, q, rows)
  {
    forall e: ByteString ensures JudgedRight(FieldsOf(s, cid, e), defs, q, rows) {
      if Selects(FieldsOf(s, cid, e), rows) {
        NoTrapMeans(FieldsOf(s, cid, e), defs, q, plan, rows);
      }
      if AllHold(FieldsOf(s, cid, e), q.preds) {
        NoTieNotLost(FieldsOf(s, cid, e), defs, q);
      }
    }
  }

  /** Conditions on store, indexes and query that do not mention the plan. */
  ghost predicate QuerySafe(s: Kv, dead: set<Key>, defs: Defs, cid: U32, q: Query) {
    && NoTrap(q.preds) && CompositesSafe(s, cid, defs, ClausesOf(q.preds))
    && (Ordered(defs, q) ==> !LowerTie(ClausesOf(q.preds), q.sort.value.0) && NoOldEntries(s, dead, cid, q))
  }

  /** A query over exact indexes. */
  method QueryExactIndexes(m: Mutator, defs: Defs, cid: U32, q: Query) returns (found: seq<Found>)
    requires m.Valid() && DefsOk(defs, cid, m.arity) && AllExact(m.live, defs, cid)
    ensures AreRows(found, m.live, cid)
    ensures QuerySafe(m.live, m.dead, defs, cid, q) ==> Correct(found, m.live, cid, q)
  {
    found := RunQuery(m, defs, cid, q);
    if QuerySafe(m.live, m.dead, defs, cid, q) {
      ghost var plan, rows :| Answers(found, m.live, m.dead, defs, cid, q, plan, rows);
      ExactIndexesServe(m.live, m.dead, defs, cid, q, plan, rows);
      PlainIsWellJudged(m.live, defs, cid, q, plan, rows);
    }
  }

  /** A run of writes and index changes, then a query: what it finds is what was last
      written of the entities that satisfy the filters. */
  method RunThenQuery(st: EntityStore, cid: U32, ops: seq<EntityOp>, q: Query, ghost catalog: Catalog)
    returns (found: seq<Found>)
    requires st.Valid() && Sound(st.m.live, st.defs(cid), cid, catalog, st.m.arity)
    requires forall i :: 0 <= i < |ops| ==> OpOk(ops[i], cid, catalog, st.m.arity)
    modifies st, st.m
    ensures st.Valid() && IsResultOf(st.m.live, old(st.m.live), cid, ops)
    ensures AreRows(found, st.m.live, cid)
    ensures QuerySafe(st.m.live, st.m.dead, st.defs(cid), cid, q) ==> Correct(found, st.m.live, cid, q)
  {
    Run(st, cid, ops, catalog);
    found := QueryExactIndexes(st.m, st.defs(cid), cid, q);
  }
}
