/** Running a plan over the entities and indexes (src/query/executor.rs). The iterators
    read an unchanging store, so every operator is modelled by the rows it yields. */
module Executor {
  import opened Seqs
  import opened Std
  import opened Bytes
  import opened OrderedValues
  import opened KeyCodec
  import opened Store
  import opened Entities
  import opened Predicates
  import opened Indexes
  import opened Planner
  import opened PlanMeaning
  import opened Ranking
  import opened Assembling
  import opened OrderedScan

  // ---- what rows a plan yields ----

  /** Rows of entities of the store, not necessarily distinct. */
  ghost predicate AreRows(found: seq<Found>, s: Kv, cid: U32) {
    forall j :: 0 <= j < |found| ==> IsRow(found[j], s, cid)
  }

  ghost predicate IsRow(r: Found, s: Kv, cid: U32) {
    r.fs == FieldsOf(s, cid, r.eid) != map[]
  }

  ghost predicate AllSelected(found: seq<Found>, plan: Plan) {
    forall j :: 0 <= j < |found| ==> Selects(found[j].fs, plan)
  }

  /** The indexes that the plan uses cannot make it miss or repeat an entity: entries cover
      the values, a composite scan lists all that it selects, and an index that orders is
      exact and yields no deleted entry of a hit. */
  ghost predicate ScansServed(s: Kv, dead: set<Key>, cid: U32, plan: Plan) {
    match plan
    case FullScan => true
    case IndexScan(f, _, _) => EntriesCover(s, cid, f)
    case CompositeScan(d, leads) => RangeServes(s, cid, d, leads) && AllListed(s, dead, cid, d, leads)
    case IndexOrderScan(f, lower, upper, _) => OrderServed(s, dead, cid, f, lower, upper)
    case Fetch(input) => ScansServed(s, dead, cid, input)
    case UnionIds(branches) => forall i :: 0 <= i < |branches| ==> ScansServed(s, dead, cid, branches[i])
    case Filter(input, _) => ScansServed(s, dead, cid, input)
    case Sort(input, _, _) => ScansServed(s, dead, cid, input)
    case Limit(input, _) => ScansServed(s, dead, cid, input)
  }

  predicate LimitFree(plan: Plan) {
    match plan
    case Fetch(input) => LimitFree(input)
    case UnionIds(branches) => forall i :: 0 <= i < |branches| ==> LimitFree(branches[i])
    case Filter(input, _) => LimitFree(input)
    case Sort(input, _, _) => LimitFree(input)
    case Limit(_, _) => false
    case _ => true
  }

  /** The order in which the rows come. */
  function OrderOf(plan: Plan): Option<(U32, bool)> {
    match plan
    case IndexOrderScan(f, _, _, asc) => Some((f, asc))
    case Filter(input, _) => OrderOf(input)
    case Sort(_, f, asc) => Some((f, asc))
    case Limit(input, _) => OrderOf(input)
    case _ => None
  }

  function Take(found: seq<Found>, n: nat): seq<Found> {
    if n < |found| then found[..n] else found
  }

  /** Rows of selected entities. Served by its indexes, the plan yields exactly what it
      should; a limited one yields the first rows of its input. */
  ghost predicate Answer(found: seq<Found>, s: Kv, dead: set<Key>, cid: U32, plan: Plan)
    decreases plan
  {
    && AreRows(found, s, cid) && AllSelected(found, plan)
    && (ScansServed(s, dead, cid, plan) ==> Exactly(found, s, cid, plan))
    && (plan.Limit? ==> exists all :: Answer(all, s, dead, cid, plan.input) && found == Take(all, plan.n))
  }

  /** No entity twice, the order of the plan and, limits aside, all entities. */
  ghost predicate Exactly(found: seq<Found>, s: Kv, cid: U32, plan: Plan) {
    && DistinctRows(found)
    && InOrderOf(found, plan)
    && (LimitFree(plan) ==> FindsAll(found, s, cid, plan))
  }

  predicate InOrderOf(found: seq<Found>, plan: Plan) {
    match OrderOf(plan)
    case Some((f, asc)) => SortedBy(found, f, asc)
    case None => true
  }

  ghost predicate FindsAll(found: seq<Found>, s: Kv, cid: U32, plan: Plan) {
    forall e: ByteString :: FieldsOf(s, cid, e) != map[] && Selects(FieldsOf(s, cid, e), plan) ==> HasFound(found, e)
  }

  // ---- which plans run ----

  /** Plans that yield ids. */
  predicate IdSource(plan: Plan) {
    plan.IndexScan? || plan.CompositeScan?
    || (plan.UnionIds? && forall i :: 0 <= i < |plan.branches| ==> IdSource(plan.branches[i]))
  }

  /** The indexes of the plan exist, and `Fetch` stands on ids. */
  predicate Runnable(defs: Defs, plan: Plan) {
    match plan
    case FullScan => true
    case IndexScan(f, _, _) => f in defs.single
    case CompositeScan(d, _) => d in defs.comps
    case IndexOrderScan(f, _, _, _) => f in defs.single
    case Fetch(input) => IdSource(input) && Runnable(defs, input)
    case UnionIds(branches) => forall i :: 0 <= i < |branches| ==> Runnable(defs, branches[i])
    case Filter(input, _) => Runnable(defs, input)
    case Sort(input, _, _) => Runnable(defs, input)
    case Limit(input, _) => Runnable(defs, input)
  }

  /** Composite scans bind components that their index has. */
  predicate LeadsFit(plan: Plan) {
    match plan
    case CompositeScan(d, leads) => leads != [] && forall i :: 0 <= i < |leads| ==> leads[i].pos < |d.fids|
    case Fetch(input) => LeadsFit(input)
    case UnionIds(branches) => forall i :: 0 <= i < |branches| ==> LeadsFit(branches[i])
    case Filter(input, _) => LeadsFit(input)
    case Sort(input, _, _) => LeadsFit(input)
    case Limit(input, _) => LeadsFit(input)
    case _ => true
  }

  // ---- candidate ids ----

  /** Distinct ids of selected entities, all of them if the plan is served. */
  ghost predicate IdsAnswer(ids: seq<ByteString>, s: Kv, dead: set<Key>, cid: U32, plan: Plan) {
    && DistinctIds(ids)
    && (forall i :: 0 <= i < |ids| ==> Selects(FieldsOf(s, cid, ids[i]), plan))
    && (ScansServed(s, dead, cid, plan) ==> forall e: ByteString :: Selects(FieldsOf(s, cid, e), plan) ==> e in ids)
  }

  /** What id sources select has fields. */
  lemma {:induction false} IdsHaveFields(fs: Fields, plan: Plan)
    requires IdSource(plan) && LeadsFit(plan) && Selects(fs, plan)
    ensures fs != map[]
  {
    match plan
    case IndexScan(_, _, _) =>
    case CompositeScan(d, leads) => assert LeadHit(fs, d.fids, leads[0]);
    case UnionIds(branches) =>
      var i :| 0 <= i < |branches| && Selects(fs, branches[i]);
      IdsHaveFields(fs, branches[i]);
  }

  lemma FieldsShort(s: Kv, arity: Arity, cid: U32, eid: ByteString)
    requires WellTyped(s, arity) && FieldsOf(s, cid, eid) != map[]
    ensures |eid| < U32_LIMIT
  {
    var f :| f in FieldsOf(s, cid, eid);
    assert Field(cid, eid, f) in s;
  }

  /** `candidate_ids` (src/query/executor.rs:128-163). */
  method CandidateIds(m: Mutator, defs: Defs, cid: U32, plan: Plan) returns (r: Result<seq<ByteString>>)
    requires m.Valid() && DefsOk(defs, cid, m.arity) && LeadsFit(plan)
    ensures r.Ok? <==> IdSource(plan) && Runnable(defs, plan)
    ensures r.Ok? ==> IdsAnswer(r.value, m.live, m.dead, cid, plan)
    decreases plan
  {
    match plan {
      case IndexScan(f, lower, upper) =>
        if f !in defs.single {
          return Err(InvalidArgument);
        }
        r := Find(m, true, cid, f, lower, upper);
        IndexAnswers(r.value, m.live, m.dead, cid, f, lower, upper);
      case CompositeScan(d, leads) =>
        r := FindComposite(m, if d in defs.comps then Some(d) else None, cid, leads);
        if r.Ok? {
          CompositeAnswers(r.value, m.live, m.dead, cid, d, leads);
        }
      case UnionIds(branches) => r := UnionOfIds(m, defs, cid, branches);
      case _ => r := Err(InvalidFormat);
    }
  }

  lemma IndexAnswers(ids: seq<ByteString>, s: Kv, dead: set<Key>, cid: U32, f: U32, lower: Bound, upper: Bound)
    requires DistinctIds(ids) && forall e :: e in ids ==> Hit(s, cid, e, f, lower, upper)
    requires EntriesCover(s, cid, f) ==> forall e :: Hit(s, cid, e, f, lower, upper) ==> e in ids
    ensures IdsAnswer(ids, s, dead, cid, IndexScan(f, lower, upper))
  {
    forall e: ByteString ensures Hit(s, cid, e, f, lower, upper) <==> Selects(FieldsOf(s, cid, e), IndexScan(f, lower, upper)) {
    }
  }

  lemma CompositeAnswers(ids: seq<ByteString>, s: Kv, dead: set<Key>, cid: U32, d: CompDef, leads: seq<Lead>)
    requires DistinctIds(ids) && forall eid :: eid in ids ==> LeadsHit(FieldsOf(s, cid, eid), d.fids, leads)
    requires RangeServes(s, cid, d, leads) ==> forall eid :: Listed(s, dead, cid, eid, d, leads) ==> eid in ids
    ensures IdsAnswer(ids, s, dead, cid, CompositeScan(d, leads))
  {
    if ScansServed(s, dead, cid, CompositeScan(d, leads)) {
      forall e: ByteString | Selects(FieldsOf(s, cid, e), CompositeScan(d, leads)) ensures e in ids {
        assert Listed(s, dead, cid, e, d, leads);
      }
    }
  }

  /** The ids of a prefix of the branches. */
  ghost predicate IdsOfBranches(out: seq<ByteString>, s: Kv, dead: set<Key>, cid: U32, branches: seq<Plan>) {
    && DistinctIds(out)
    && (forall k :: 0 <= k < |out| ==> Selects(FieldsOf(s, cid, out[k]), UnionIds(branches)))
    && (forall i :: 0 <= i < |branches| && ScansServed(s, dead, cid, branches[i]) ==> BranchCovered(out, s, cid, branches[i]))
  }

  ghost predicate BranchCovered(out: seq<ByteString>, s: Kv, cid: U32, branch: Plan) {
    forall e: ByteString :: Selects(FieldsOf(s, cid, e), branch) ==> e in out
  }

  /** Ids not seen yet, appended in order. */
  function Unseen(out: seq<ByteString>, ids: seq<ByteString>): seq<ByteString> {
    if ids == [] then out
    else
      var before := Unseen(out, ids[..|ids| - 1]);
      if ids[|ids| - 1] in before then before else before + [ids[|ids| - 1]]
  }

  lemma {:induction false} UnseenIs(out: seq<ByteString>, ids: seq<ByteString>)
    requires DistinctIds(out)
    ensures DistinctIds(Unseen(out, ids)) && forall e :: e in Unseen(out, ids) <==> e in out || e in ids
  {
    if ids != [] {
      var n := |ids| - 1;
      UnseenIs(out, ids[..n]);
      assert ids == ids[..n] + [ids[n]];
    }
  }

  /** The inner loop of the union: `seen.insert(id)`. */
  method AppendUnseen(out: seq<ByteString>, seen: set<ByteString>, ids: seq<ByteString>)
    returns (more: seq<ByteString>, seenMore: set<ByteString>)
    requires forall e :: e in seen <==> e in out
    ensures more == Unseen(out, ids) && forall e :: e in seenMore <==> e in more
  {
    more, seenMore := out, seen;
    var i := 0;
    while i < |ids|
      invariant 0 <= i <= |ids| && more == Unseen(out, ids[..i])
      invariant forall e :: e in seenMore <==> e in more
    {
      assert ids[..i + 1][..i] == ids[..i];
      if ids[i] !in seenMore {
        more, seenMore := more + [ids[i]], seenMore + {ids[i]};
      }
      i := i + 1;
    }
    assert ids[..i] == ids;
  }

  lemma BranchAppended(out: seq<ByteString>, ids: seq<ByteString>, s: Kv, dead: set<Key>, cid: U32,
                       branches: seq<Plan>, b: Plan)
    requires IdsOfBranches(out, s, dead, cid, branches) && IdsAnswer(ids, s, dead, cid, b)
    ensures IdsOfBranches(Unseen(out, ids), s, dead, cid, branches + [b])
  {
    var more, all := Unseen(out, ids), branches + [b];
    UnseenIs(out, ids);
    forall k | 0 <= k < |more| ensures Selects(FieldsOf(s, cid, more[k]), UnionIds(all)) {
      assert more[k] in more;
      UnionGrows(FieldsOf(s, cid, more[k]), branches, b);
    }
    forall i | 0 <= i < |all| && ScansServed(s, dead, cid, all[i]) ensures BranchCovered(more, s, cid, all[i]) {
      assert i < |branches| ==> all[i] == branches[i] && BranchCovered(out, s, cid, branches[i]);
    }
  }

  lemma UnionGrows(fs: Fields, branches: seq<Plan>, b: Plan)
    ensures Selects(fs, UnionIds(branches + [b])) <==> Selects(fs, UnionIds(branches)) || Selects(fs, b)
  {
    var all := branches + [b];
    if i :| 0 <= i < |branches| && Selects(fs, branches[i]) {
      assert all[i] == branches[i];
    }
    if Selects(fs, b) {
      assert all[|branches|] == b;
    }
  }

  predicate SourcesRun(defs: Defs, branches: seq<Plan>) {
    forall j :: 0 <= j < |branches| ==> IdSource(branches[j]) && Runnable(defs, branches[j])
  }

  lemma SourcesRunMore(defs: Defs, branches: seq<Plan>, b: Plan)
    requires SourcesRun(defs, branches) && IdSource(b) && Runnable(defs, b)
    ensures SourcesRun(defs, branches + [b])
  {
  }

  method UnionOfIds(m: Mutator, defs: Defs, cid: U32, branches: seq<Plan>) returns (r: Result<seq<ByteString>>)
    requires m.Valid() && DefsOk(defs, cid, m.arity) && LeadsFit(UnionIds(branches))
    ensures r.Ok? <==> IdSource(UnionIds(branches)) && Runnable(defs, UnionIds(branches))
    ensures r.Ok? ==> IdsAnswer(r.value, m.live, m.dead, cid, UnionIds(branches))
    decreases branches
  {
    var out: seq<ByteString> := [];
    var seen: set<ByteString> := {};
    var i := 0;
    while i < |branches|
      invariant 0 <= i <= |branches| && (forall e :: e in seen <==> e in out)
      invariant IdsOfBranches(out, m.live, m.dead, cid, branches[..i])
      invariant SourcesRun(defs, branches[..i])
    {
      var ids := CandidateIds(m, defs, cid, branches[i]);
      if ids.Err? {
        return Err(ids.error);
      }
      BranchAppended(out, ids.value, m.live, m.dead, cid, branches[..i], branches[i]);
      SourcesRunMore(defs, branches[..i], branches[i]);
      assert branches[..i + 1] == branches[..i] + [branches[i]];
      out, seen := AppendUnseen(out, seen, ids.value);
      i := i + 1;
    }
    assert branches[..i] == branches;
    BranchesAnswer(out, m.live, m.dead, cid, branches);
    return Ok(out);
  }

  lemma BranchesAnswer(out: seq<ByteString>, s: Kv, dead: set<Key>, cid: U32, branches: seq<Plan>)
    requires IdsOfBranches(out, s, dead, cid, branches)
    ensures IdsAnswer(out, s, dead, cid, UnionIds(branches))
  {
    if ScansServed(s, dead, cid, UnionIds(branches)) {
      forall e: ByteString | Selects(FieldsOf(s, cid, e), UnionIds(branches)) ensures e in out {
        var i :| 0 <= i < |branches| && Selects(FieldsOf(s, cid, e), branches[i]);
        assert ScansServed(s, dead, cid, branches[i]) && BranchCovered(out, s, cid, branches[i]);
      }
    }
  }

  // ---- fetching ----

  function Fetched(s: Kv, cid: U32, ids: seq<ByteString>): seq<Found> {
    if ids == [] then [] else Fetched(s, cid, ids[..|ids| - 1]) + Pending(RowFor(s, cid, ids[|ids| - 1]))
  }

  /** `fetch_stream`, drained: ids without a live field are passed over. */
  method FetchAll(m: Mutator, cid: U32, ids: seq<ByteString>) returns (found: seq<Found>)
    requires m.Valid() && forall i :: 0 <= i < |ids| ==> |ids[i]| < U32_LIMIT
    ensures found == Fetched(m.live, cid, ids)
  {
    found := [];
    var i := 0;
    while i < |ids|
      invariant 0 <= i <= |ids| && found == Fetched(m.live, cid, ids[..i])
    {
      assert ids[..i + 1][..i] == ids[..i];
      var row := ReadRow(m, cid, ids[i]);
      found := found + Pending(row);
      i := i + 1;
    }
    assert ids[..i] == ids;
  }

  ghost predicate RowsOfIds(found: seq<Found>, s: Kv, cid: U32, ids: seq<ByteString>) {
    |found| == |ids| && forall i :: 0 <= i < |ids| ==> RowOfId(found[i], s, cid, ids[i])
  }

  ghost predicate RowOfId(r: Found, s: Kv, cid: U32, id: ByteString) {
    r.eid == id && IsRow(r, s, cid)
  }

  lemma {:induction false} FetchedIs(s: Kv, cid: U32, ids: seq<ByteString>)
    requires forall i :: 0 <= i < |ids| ==> FieldsOf(s, cid, ids[i]) != map[]
    ensures RowsOfIds(Fetched(s, cid, ids), s, cid, ids)
  {
    if ids != [] {
      var n := |ids| - 1;
      var front := ids[..n];
      assert forall i :: 0 <= i < n ==> front[i] == ids[i];
      FetchedIs(s, cid, front);
      RowsOfIdsSnoc(Fetched(s, cid, front), s, cid, ids);
    }
  }

  lemma RowsOfIdsSnoc(before: seq<Found>, s: Kv, cid: U32, ids: seq<ByteString>)
    requires ids != [] && RowsOfIds(before, s, cid, ids[..|ids| - 1]) && FieldsOf(s, cid, ids[|ids| - 1]) != map[]
    ensures RowsOfIds(before + Pending(RowFor(s, cid, ids[|ids| - 1])), s, cid, ids)
  {
    var n := |ids| - 1;
    var found := before + [Found(ids[n], FieldsOf(s, cid, ids[n]))];
    forall i | 0 <= i < |ids| ensures RowOfId(found[i], s, cid, ids[i]) {
      assert i < n ==> RowOfId(before[i], s, cid, ids[..n][i]);
    }
  }

  lemma FetchAnswers(ids: seq<ByteString>, s: Kv, dead: set<Key>, cid: U32, input: Plan, plan: Plan)
    requires IdSource(input) && LeadsFit(input) && IdsAnswer(ids, s, dead, cid, input)
    requires plan == Fetch(input) || (plan == input && !plan.UnionIds?)
    ensures Answer(Fetched(s, cid, ids), s, dead, cid, plan)
  {
    var found := Fetched(s, cid, ids);
    forall i | 0 <= i < |ids| ensures FieldsOf(s, cid, ids[i]) != map[] {
      IdsHaveFields(FieldsOf(s, cid, ids[i]), input);
    }
    FetchedIs(s, cid, ids);
    forall j | 0 <= j < |found| ensures IsRow(found[j], s, cid) && Selects(found[j].fs, plan) {
      assert RowOfId(found[j], s, cid, ids[j]);
    }
    if ScansServed(s, dead, cid, plan) {
      FetchExactly(found, ids, s, cid, plan);
    }
  }

  lemma FetchExactly(found: seq<Found>, ids: seq<ByteString>, s: Kv, cid: U32, plan: Plan)
    requires RowsOfIds(found, s, cid, ids) && DistinctIds(ids) && OrderOf(plan).None?
    requires forall e: ByteString :: FieldsOf(s, cid, e) != map[] && Selects(FieldsOf(s, cid, e), plan) ==> e in ids
    ensures Exactly(found, s, cid, plan)
  {
    forall i, j | 0 <= i < j < |found| ensures found[i].eid != found[j].eid {
      assert RowOfId(found[i], s, cid, ids[i]) && RowOfId(found[j], s, cid, ids[j]);
    }
    forall e: ByteString | FieldsOf(s, cid, e) != map[] && Selects(FieldsOf(s, cid, e), plan) ensures HasFound(found, e) {
      var i :| 0 <= i < |ids| && ids[i] == e;
      assert RowOfId(found[i], s, cid, ids[i]);
    }
  }

  method ExecFetch(m: Mutator, defs: Defs, cid: U32, input: Plan, ghost plan: Plan) returns (r: Result<seq<Found>>)
    requires m.Valid() && DefsOk(defs, cid, m.arity) && LeadsFit(input)
    requires plan == Fetch(input) || (plan == input && (plan.IndexScan? || plan.CompositeScan?))
    ensures r.Ok? <==> Runnable(defs, plan)
    ensures r.Ok? ==> Answer(r.value, m.live, m.dead, cid, plan)
  {
    var ids := CandidateIds(m, defs, cid, input);
    if ids.Err? {
      return Err(ids.error);
    }
    forall i | 0 <= i < |ids.value| ensures |ids.value[i]| < U32_LIMIT {
      IdsHaveFields(FieldsOf(m.live, cid, ids.value[i]), input);
      FieldsShort(m.live, m.arity, cid, ids.value[i]);
    }
    var found := FetchAll(m, cid, ids.value);
    FetchAnswers(ids.value, m.live, m.dead, cid, input, plan);
    return Ok(found);
  }

  // ---- union ----

  /** Rows not seen yet, appended in order. */
  function UnseenRows(out: seq<Found>, rows: seq<Found>): seq<Found> {
    if rows == [] then out
    else
      var before := UnseenRows(out, rows[..|rows| - 1]);
      if HasFound(before, rows[|rows| - 1].eid) then before else before + [rows[|rows| - 1]]
  }

  lemma {:induction false} UnseenRowsAre(out: seq<Found>, rows: seq<Found>)
    requires DistinctRows(out)
    ensures DistinctRows(UnseenRows(out, rows))
    ensures forall e :: HasFound(UnseenRows(out, rows), e) <==> HasFound(out, e) || HasFound(rows, e)
    ensures forall r :: r in UnseenRows(out, rows) ==> r in out || r in rows
  {
    if rows != [] {
      var n := |rows| - 1;
      UnseenRowsAre(out, rows[..n]);
      assert rows == rows[..n] + [rows[n]];
      var before := UnseenRows(out, rows[..n]);
      forall e ensures HasFound(rows, e) <==> HasFound(rows[..n], e) || e == rows[n].eid {
        FoundSnoc(rows[..n], rows[n], e);
      }
      forall e ensures HasFound(before + [rows[n]], e) <==> HasFound(before, e) || e == rows[n].eid {
        FoundSnoc(before, rows[n], e);
      }
    }
  }

  method AppendRows(out: seq<Found>, seen: set<ByteString>, rows: seq<Found>)
    returns (more: seq<Found>, seenMore: set<ByteString>)
    requires forall e :: e in seen <==> HasFound(out, e)
    ensures more == UnseenRows(out, rows) && forall e :: e in seenMore <==> HasFound(more, e)
  {
    more, seenMore := out, seen;
    var i := 0;
    while i < |rows|
      invariant 0 <= i <= |rows| && more == UnseenRows(out, rows[..i])
      invariant forall e :: e in seenMore <==> HasFound(more, e)
    {
      assert rows[..i + 1][..i] == rows[..i];
      if rows[i].eid !in seenMore {
        forall e ensures HasFound(more + [rows[i]], e) <==> HasFound(more, e) || e == rows[i].eid {
          FoundSnoc(more, rows[i], e);
        }
        more, seenMore := more + [rows[i]], seenMore + {rows[i].eid};
      }
      i := i + 1;
    }
    assert rows[..i] == rows;
  }

  ghost predicate RowsOfBranches(out: seq<Found>, s: Kv, dead: set<Key>, cid: U32, branches: seq<Plan>) {
    && DistinctRows(out) && AreRows(out, s, cid) && AllSelected(out, UnionIds(branches))
    && (forall i :: 0 <= i < |branches| && ScansServed(s, dead, cid, branches[i]) && LimitFree(branches[i]) ==>
          FindsAll(out, s, cid, branches[i]))
  }

  lemma RowsAppended(out: seq<Found>, rows: seq<Found>, s: Kv, dead: set<Key>, cid: U32, branches: seq<Plan>, b: Plan)
    requires RowsOfBranches(out, s, dead, cid, branches) && Answer(rows, s, dead, cid, b)
    ensures RowsOfBranches(UnseenRows(out, rows), s, dead, cid, branches + [b])
  {
    var more, all := UnseenRows(out, rows), branches + [b];
    UnseenRowsAre(out, rows);
    forall j | 0 <= j < |more| ensures IsRow(more[j], s, cid) && Selects(more[j].fs, UnionIds(all)) {
      assert more[j] in more;
      UnionGrows(more[j].fs, branches, b);
    }
    forall i | 0 <= i < |all| && ScansServed(s, dead, cid, all[i]) && LimitFree(all[i]) ensures FindsAll(more, s, cid, all[i]) {
      assert i < |branches| ==> all[i] == branches[i] && FindsAll(out, s, cid, branches[i]);
      FindsAllMore(out, rows, s, cid, all[i]);
    }
  }

  lemma FindsAllMore(out: seq<Found>, rows: seq<Found>, s: Kv, cid: U32, b: Plan)
    requires DistinctRows(out) && (FindsAll(out, s, cid, b) || FindsAll(rows, s, cid, b))
    ensures FindsAll(UnseenRows(out, rows), s, cid, b)
  {
    UnseenRowsAre(out, rows);
    forall e: ByteString | FieldsOf(s, cid, e) != map[] && Selects(FieldsOf(s, cid, e), b)
      ensures HasFound(UnseenRows(out, rows), e)
    {
      assert HasFound(out, e) || HasFound(rows, e);
    }
  }

  lemma UnionAnswers(out: seq<Found>, s: Kv, dead: set<Key>, cid: U32, branches: seq<Plan>)
    requires RowsOfBranches(out, s, dead, cid, branches)
    ensures Answer(out, s, dead, cid, UnionIds(branches))
  {
    if ScansServed(s, dead, cid, UnionIds(branches)) && LimitFree(UnionIds(branches)) {
      forall e: ByteString | FieldsOf(s, cid, e) != map[] && Selects(FieldsOf(s, cid, e), UnionIds(branches))
        ensures HasFound(out, e)
      {
        var i :| 0 <= i < |branches| && Selects(FieldsOf(s, cid, e), branches[i]);
        assert ScansServed(s, dead, cid, branches[i]) && LimitFree(branches[i]);
        assert FindsAll(out, s, cid, branches[i]);
      }
    }
  }

  method ExecUnion(m: Mutator, defs: Defs, cid: U32, branches: seq<Plan>) returns (r: Result<seq<Found>>)
    requires m.Valid() && DefsOk(defs, cid, m.arity) && LeadsFit(UnionIds(branches))
    ensures r.Ok? <==> Runnable(defs, UnionIds(branches))
    ensures r.Ok? ==> Answer(r.value, m.live, m.dead, cid, UnionIds(branches))
    decreases branches
  {
    var out: seq<Found> := [];
    var seen: set<ByteString> := {};
    var i := 0;
    while i < |branches|
      invariant 0 <= i <= |branches| && (forall e :: e in seen <==> HasFound(out, e))
      invariant RowsOfBranches(out, m.live, m.dead, cid, branches[..i])
      invariant forall j :: 0 <= j < i ==> Runnable(defs, branches[j])
    {
      var rows := Exec(m, defs, cid, branches[i]);
      if rows.Err? {
        return Err(rows.error);
      }
      RowsAppended(out, rows.value, m.live, m.dead, cid, branches[..i], branches[i]);
      assert branches[..i + 1] == branches[..i] + [branches[i]];
      out, seen := AppendRows(out, seen, rows.value);
      i := i + 1;
    }
    assert branches[..i] == branches;
    UnionAnswers(out, m.live, m.dead, cid, branches);
    return Ok(out);
  }

  // ---- filter, sort, limit ----

  function Filtered(found: seq<Found>, p: Pred): seq<Found> {
    if found == [] then []
    else
      var n := |found| - 1;
      Filtered(found[..n], p) + if Eval(found[n].fs, p) then [found[n]] else []
  }

  method FilterRows(found: seq<Found>, p: Pred) returns (kept: seq<Found>)
    ensures kept == Filtered(found, p)
  {
    kept := [];
    var i := 0;
    while i < |found|
      invariant 0 <= i <= |found| && kept == Filtered(found[..i], p)
    {
      assert found[..i + 1][..i] == found[..i];
      if Eval(found[i].fs, p) {
        kept := kept + [found[i]];
      }
      i := i + 1;
    }
    assert found[..i] == found;
  }

  lemma {:induction false} FilteredHas(found: seq<Found>, p: Pred, r: Found)
    ensures r in Filtered(found, p) <==> r in found && Eval(r.fs, p)
  {
    if found != [] {
      var n := |found| - 1;
      FilteredHas(found[..n], p, r);
      assert found == found[..n] + [found[n]];
      InSnoc(found[..n], found[n], r);
      InSnoc(Filtered(found[..n], p), found[n], r);
    }
  }

  lemma {:induction false} FilteredDistinct(found: seq<Found>, p: Pred)
    requires DistinctRows(found)
    ensures DistinctRows(Filtered(found, p))
  {
    if found != [] {
      var n := |found| - 1;
      FilteredDistinct(found[..n], p);
      var front := Filtered(found[..n], p);
      forall i | 0 <= i < |front| ensures front[i].eid != found[n].eid {
        FilteredHas(found[..n], p, front[i]);
        assert front[i] in found[..n];
      }
    }
  }

  lemma {:induction false} FilteredInOrder(found: seq<Found>, p: Pred, f: U32, asc: bool)
    requires SortedBy(found, f, asc)
    ensures SortedBy(Filtered(found, p), f, asc)
  {
    if found != [] {
      var n := |found| - 1;
      FilteredInOrder(found[..n], p, f, asc);
      var front := Filtered(found[..n], p);
      forall i | 0 <= i < |front| ensures RowCmp(front[i], found[n], f, asc) != Gt {
        FilteredHas(found[..n], p, front[i]);
        assert front[i] in found[..n];
      }
      SortedSnoc(front, found[n], f, asc);
    }
  }

  lemma FilterAnswers(found: seq<Found>, s: Kv, dead: set<Key>, cid: U32, input: Plan, p: Pred)
    requires Answer(found, s, dead, cid, input)
    ensures Answer(Filtered(found, p), s, dead, cid, Filter(input, p))
  {
    var kept, plan := Filtered(found, p), Filter(input, p);
    forall j | 0 <= j < |kept| ensures IsRow(kept[j], s, cid) && Selects(kept[j].fs, plan) {
      assert kept[j] in kept;
      FilteredHas(found, p, kept[j]);
    }
    if ScansServed(s, dead, cid, plan) {
      FilterExactly(found, s, cid, input, p);
    }
  }

  lemma FilterExactly(found: seq<Found>, s: Kv, cid: U32, input: Plan, p: Pred)
    requires AreRows(found, s, cid) && Exactly(found, s, cid, input)
    ensures Exactly(Filtered(found, p), s, cid, Filter(input, p))
  {
    FilteredDistinct(found, p);
    FilterInOrder(found, input, p);
    if LimitFree(input) {
      FilterFindsAll(found, s, cid, input, p);
    }
  }

  lemma FilterInOrder(found: seq<Found>, input: Plan, p: Pred)
    requires InOrderOf(found, input)
    ensures InOrderOf(Filtered(found, p), Filter(input, p))
  {
    if OrderOf(input).Some? {
      FilteredInOrder(found, p, OrderOf(input).value.0, OrderOf(input).value.1);
    }
  }

  lemma FilterFindsAll(found: seq<Found>, s: Kv, cid: U32, input: Plan, p: Pred)
    requires AreRows(found, s, cid) && FindsAll(found, s, cid, input)
    ensures FindsAll(Filtered(found, p), s, cid, Filter(input, p))
  {
    var kept := Filtered(found, p);
    forall e: ByteString | FieldsOf(s, cid, e) != map[] && Selects(FieldsOf(s, cid, e), Filter(input, p))
      ensures HasFound(kept, e)
    {
      assert HasFound(found, e);
      FilterFinds(found, s, cid, p, e);
    }
  }

  lemma FilterFinds(found: seq<Found>, s: Kv, cid: U32, p: Pred, e: ByteString)
    requires AreRows(found, s, cid) && HasFound(found, e) && Eval(FieldsOf(s, cid, e), p)
    ensures HasFound(Filtered(found, p), e)
  {
    var j :| 0 <= j < |found| && found[j].eid == e;
    assert IsRow(found[j], s, cid);
    FilteredHas(found, p, found[j]);
    var i :| 0 <= i < |Filtered(found, p)| && Filtered(found, p)[i] == found[j];
  }

  lemma SortAnswers(found: seq<Found>, sorted: seq<Found>, s: Kv, dead: set<Key>, cid: U32, input: Plan, f: U32, asc: bool)
    requires Answer(found, s, dead, cid, input) && multiset(sorted) == multiset(found) && SortedBy(sorted, f, asc)
    ensures Answer(sorted, s, dead, cid, Sort(input, f, asc))
  {
    var plan := Sort(input, f, asc);
    forall j | 0 <= j < |sorted| ensures IsRow(sorted[j], s, cid) && Selects(sorted[j].fs, plan) {
      assert sorted[j] in multiset(found);
    }
    if ScansServed(s, dead, cid, plan) {
      SortExactly(found, sorted, s, cid, input, f, asc);
    }
  }

  lemma SortExactly(found: seq<Found>, sorted: seq<Found>, s: Kv, cid: U32, input: Plan, f: U32, asc: bool)
    requires Exactly(found, s, cid, input) && multiset(sorted) == multiset(found) && SortedBy(sorted, f, asc)
    ensures Exactly(sorted, s, cid, Sort(input, f, asc))
  {
    DistinctPermuted(found, sorted);
    if LimitFree(input) {
      SortFindsAll(found, sorted, s, cid, input, f, asc);
    }
  }

  lemma SortFindsAll(found: seq<Found>, sorted: seq<Found>, s: Kv, cid: U32, input: Plan, f: U32, asc: bool)
    requires FindsAll(found, s, cid, input) && multiset(sorted) == multiset(found)
    ensures FindsAll(sorted, s, cid, Sort(input, f, asc))
  {
    forall e: ByteString | FieldsOf(s, cid, e) != map[] && Selects(FieldsOf(s, cid, e), Sort(input, f, asc))
      ensures HasFound(sorted, e)
    {
      assert HasFound(found, e);
      FoundPermuted(found, sorted, e);
    }
  }

  lemma FoundPermuted(a: seq<Found>, b: seq<Found>, e: ByteString)
    requires multiset(a) == multiset(b) && HasFound(a, e)
    ensures HasFound(b, e)
  {
    var j :| 0 <= j < |a| && a[j].eid == e;
    assert a[j] in multiset(b);
  }

  lemma LimitAnswers(found: seq<Found>, s: Kv, dead: set<Key>, cid: U32, input: Plan, n: nat)
    requires Answer(found, s, dead, cid, input)
    ensures Answer(Take(found, n), s, dead, cid, Limit(input, n))
  {
    TakeSound(found, s, cid, input, n);
    if ScansServed(s, dead, cid, Limit(input, n)) {
      TakeInOrder(found, input, n);
      assert Exactly(Take(found, n), s, cid, Limit(input, n));
    }
  }

  lemma TakeSound(found: seq<Found>, s: Kv, cid: U32, input: Plan, n: nat)
    requires AreRows(found, s, cid) && AllSelected(found, input)
    ensures AreRows(Take(found, n), s, cid) && AllSelected(Take(found, n), Limit(input, n))
  {
    var few := Take(found, n);
    forall j | 0 <= j < |few| ensures IsRow(few[j], s, cid) && Selects(few[j].fs, Limit(input, n)) {
      assert few[j] == found[j];
    }
  }

  lemma TakeInOrder(found: seq<Found>, input: Plan, n: nat)
    requires DistinctRows(found) && InOrderOf(found, input)
    ensures DistinctRows(Take(found, n)) && InOrderOf(Take(found, n), Limit(input, n))
  {
  }

  // ---- the executor ----

  lemma ScanAnswers(found: seq<Found>, s: Kv, dead: set<Key>, cid: U32)
    requires TrueRows(found, s, cid) && forall e :: HasFound(found, e) <==> FieldsOf(s, cid, e) != map[]
    ensures Answer(found, s, dead, cid, FullScan)
  {
  }

  lemma OrderAnswers(found: seq<Found>, s: Kv, dead: set<Key>, cid: U32, f: U32, lower: Bound, upper: Bound, asc: bool)
    requires forall j :: 0 <= j < |found| ==> TrueHit(found[j], s, cid, f, lower, upper)
    requires OrderServed(s, dead, cid, f, lower, upper) ==> InIndexOrder(found, s, cid, f, lower, upper, asc)
    ensures Answer(found, s, dead, cid, IndexOrderScan(f, lower, upper, asc))
  {
    var plan := IndexOrderScan(f, lower, upper, asc);
    forall j | 0 <= j < |found| ensures IsRow(found[j], s, cid) && Selects(found[j].fs, plan) {
      assert TrueHit(found[j], s, cid, f, lower, upper);
    }
  }

  /** `exec_rows`, drained (src/query/executor.rs:61-123). */
  method Exec(m: Mutator, defs: Defs, cid: U32, plan: Plan) returns (r: Result<seq<Found>>)
    requires m.Valid() && DefsOk(defs, cid, m.arity) && LeadsFit(plan)
    ensures r.Ok? <==> Runnable(defs, plan)
    ensures r.Ok? ==> Answer(r.value, m.live, m.dead, cid, plan)
    decreases plan
  {
    match plan {
      case FullScan =>
        var p := CollectionPrefix(cid);
        var rows := m.Scan(Some(p), Successor(p));
        var found := Assemble(rows);
        GatheredIsExact(rows, m.live, m.arity, cid);
        ScanAnswers(found, m.live, m.dead, cid);
        r := Ok(found);
      case IndexOrderScan(f, lower, upper, asc) =>
        if f !in defs.single {
          return Err(InvalidArgument);
        }
        var found := OrderStream(m, cid, f, lower, upper, asc);
        OrderAnswers(found, m.live, m.dead, cid, f, lower, upper, asc);
        r := Ok(found);
      case IndexScan(_, _, _) => r := ExecFetch(m, defs, cid, plan, plan);
      case CompositeScan(_, _) => r := ExecFetch(m, defs, cid, plan, plan);
      case Fetch(input) => r := ExecFetch(m, defs, cid, input, plan);
      case UnionIds(branches) => r := ExecUnion(m, defs, cid, branches);
      case Filter(input, p) =>
        r := Exec(m, defs, cid, input);
        if r.Ok? {
          FilterAnswers(r.value, m.live, m.dead, cid, input, p);
          var kept := FilterRows(r.value, p);
          r := Ok(kept);
        }
      case Sort(input, f, asc) =>
        r := Exec(m, defs, cid, input);
        if r.Ok? {
          var sorted := SortRows(r.value, f, asc);
          SortAnswers(r.value, sorted, m.live, m.dead, cid, input, f, asc);
          r := Ok(sorted);
        }
      case Limit(input, n) =>
        r := Exec(m, defs, cid, input);
        if r.Ok? {
          LimitAnswers(r.value, m.live, m.dead, cid, input, n);
          r := Ok(Take(r.value, n));
        }
    }
  }
}
