/** The rule-based planner (src/query/planner.rs). Field ids stand for field names, and
    the order of ids for the order of names. */
module Planner {
  import opened Std
  import opened Bytes
  import opened KeyCodec
  import opened Entities
  import opened Predicates
  import opened BoundMerging
  import opened IndexChoice

  datatype Plan =
    | FullScan
    | IndexScan(fid: U32, lower: Bound, upper: Bound)
    | CompositeScan(d: CompDef, leads: seq<Lead>)
    | IndexOrderScan(fid: U32, lower: Bound, upper: Bound, asc: bool)
    | Fetch(input: Plan)
    | UnionIds(branches: seq<Plan>)
    | Filter(input: Plan, pred: Pred)
    | Sort(input: Plan, fid: U32, asc: bool)
    | Limit(input: Plan, n: nat)

  // ---- planning one clause ----

  /** The literals that the chosen index does not cover. */
  function Residual(lits: Clause, covered: set<U32>): Clause {
    if lits == [] then []
    else (if Indexable(lits[0]) && lits[0].fid in covered then [] else [lits[0]]) + Residual(lits[1..], covered)
  }

  function LeadFields(d: CompDef, leads: seq<Lead>): set<U32> {
    set i | 0 <= i < |leads| && leads[i].pos < |d.fids| :: d.fids[leads[i].pos]
  }

  /** The fields whose literals the source answers. */
  function CoveredBy(src: Plan): set<U32> {
    if src.Fetch? && src.input.IndexScan? then {src.input.fid}
    else if src.Fetch? && src.input.CompositeScan? then LeadFields(src.input.d, src.input.leads)
    else if src.IndexOrderScan? then {src.fid}
    else {}
  }

  /** The index behind a row source has the field among those it bounds. */
  ghost predicate Answers(src: Plan, f: U32) {
    match src
    case Fetch(IndexScan(g, _, _)) => f == g
    case Fetch(CompositeScan(d, leads)) =>
      exists i :: 0 <= i < |leads| && leads[i].pos < |d.fids| && d.fids[leads[i].pos] == f
    case IndexOrderScan(g, _, _, _) => f == g
    case _ => false
  }

  lemma CoveredMeans(src: Plan)
    ensures forall f :: f in CoveredBy(src) <==> Answers(src, f)
  {
  }

  lemma {:induction false} ResidualMeans(lits: Clause, covered: set<U32>)
    ensures forall l :: l in Residual(lits, covered) <==> l in lits && !(Indexable(l) && l.fid in covered)
  {
    if lits != [] {
      ResidualMeans(lits[1..], covered);
      assert lits == [lits[0]] + lits[1..];
    }
  }

  /** What a row source may be, and how it comes from the clause. */
  ghost predicate SourceFor(defs: Defs, lits: Clause, src: Plan) {
    || src == FullScan
    || (src.Fetch? && src.input.IndexScan? && IsCandidate(lits, defs.single, src.input.fid)
        && (src.input.lower, src.input.upper) == Merged(lits, src.input.fid))
    || (src.Fetch? && src.input.CompositeScan? && src.input.d in defs.comps && src.input.leads != []
        && src.input.leads == Leading(lits, src.input.d.fids, 0))
  }

  /** A composite index that binds two components or more comes first, then a single-field
      index, then a composite index that binds one. */
  function SourceOfChoice(lits: Clause, single: Option<U32>, composite: Option<Usable>): Plan {
    if composite.Some? && (|composite.value.1| >= 2 || single.None?) then
      Fetch(CompositeScan(composite.value.0, composite.value.1))
    else if single.Some? then
      var (lower, upper) := Merged(lits, single.value);
      Fetch(IndexScan(single.value, lower, upper))
    else FullScan
  }

  /** The source follows from the best index of either kind. */
  ghost predicate BestSource(defs: Defs, lits: Clause, src: Plan) {
    exists single, composite :: IsChoice(defs, lits, src, single, composite)
  }

  ghost predicate IsChoice(defs: Defs, lits: Clause, src: Plan, single: Option<U32>, composite: Option<Usable>) {
    && BestField(lits, defs.single, single) && BestOf(lits, defs.comps, composite)
    && src == SourceOfChoice(lits, single, composite)
  }

  /** The one row source that the planner takes for a clause. */
  ghost predicate ChosenFor(defs: Defs, lits: Clause, src: Plan) {
    SourceFor(defs, lits, src) && BestSource(defs, lits, src)
  }

  /** Two bound components or more beat a single field, a single field beats one, and a full
      scan is taken only if no index bounds anything. */
  ghost predicate KindFits(defs: Defs, lits: Clause, src: Plan) {
    match src
    case Fetch(CompositeScan(_, leads)) => |leads| >= 2 || forall f :: !IsCandidate(lits, defs.single, f)
    case Fetch(IndexScan(_, _, _)) => forall d :: d in defs.comps ==> |Leading(lits, d.fids, 0)| < 2
    case _ =>
      (forall f :: !IsCandidate(lits, defs.single, f)) && (forall d :: d in defs.comps ==> Leading(lits, d.fids, 0) == [])
  }

  lemma ChosenKindFits(defs: Defs, lits: Clause, src: Plan)
    requires ChosenFor(defs, lits, src)
    ensures KindFits(defs, lits, src)
  {
    var single, composite :| IsChoice(defs, lits, src, single, composite);
    if composite.Some? {
      forall d | d in defs.comps ensures |Leading(lits, d.fids, 0)| <= |composite.value.1| {
        if d.fids != composite.value.0.fids && Leading(lits, d.fids, 0) != [] {
          assert BindsMore(composite.value, UsableOf(lits, d));
        }
      }
    }
  }

  /** `plan_clause` (src/query/planner.rs:420-489). */
  method PlanClause(defs: Defs, lits: Clause) returns (src: Plan, residual: Clause)
    ensures ChosenFor(defs, lits, src) && residual == Residual(lits, CoveredBy(src))
    ensures forall l :: l in residual <==> l in lits && !(Indexable(l) && Answers(src, l.fid))
    ensures KindFits(defs, lits, src)
  {
    var single := PickIndexField(lits, defs.single);
    var composite := PickComposite(lits, defs.comps);
    if composite.Some? && (|composite.value.1| >= 2 || single.None?) {
      src := Fetch(CompositeScan(composite.value.0, composite.value.1));
      residual := Residual(lits, LeadFields(composite.value.0, composite.value.1));
    } else if single.Some? {
      var lower, upper := MergeBounds(lits, single.value);
      src := Fetch(IndexScan(single.value, lower, upper));
      residual := Residual(lits, {single.value});
    } else {
      src := FullScan;
      residual := lits;
      NothingCovered(lits);
    }
    assert IsChoice(defs, lits, src, single, composite);
    ResidualMeans(lits, CoveredBy(src));
    CoveredMeans(src);
    ChosenKindFits(defs, lits, src);
  }

  lemma {:induction false} NothingCovered(lits: Clause)
    ensures Residual(lits, {}) == lits
  {
    if lits != [] {
      NothingCovered(lits[1..]);
      assert lits == [lits[0]] + lits[1..];
    }
  }

  // ---- the whole plan ----

  /** `clause_residual`. */
  function LitPred(l: Lit): Pred {
    var p := Test(l.fid, l.cmp, l.v);
    if l.negated then Not(p) else p
  }

  function ClausePred(lits: Clause): Pred
    requires lits != []
  {
    var n := |lits| - 1;
    if n == 0 then LitPred(lits[0]) else And(ClausePred(lits[..n]), LitPred(lits[n]))
  }

  lemma LitPredMeans(fs: Fields, l: Lit)
    ensures Eval(fs, LitPred(l)) <==> LitHolds(fs, l)
  {
    assert Eval(fs, Test(l.fid, l.cmp, l.v)) <==> TestHolds(fs, l.fid, l.cmp, l.v);
  }

  lemma ClauseSnoc(fs: Fields, c: Clause, l: Lit)
    ensures ClauseHolds(fs, c + [l]) <==> ClauseHolds(fs, c) && LitHolds(fs, l)
  {
    ClauseConcat(fs, c, [l]);
    assert ClauseHolds(fs, [l]) <==> LitHolds(fs, l) by {
      assert [l][0] == l;
    }
  }

  lemma {:induction false} ClausePredMeans(fs: Fields, lits: Clause)
    requires lits != []
    ensures Eval(fs, ClausePred(lits)) <==> ClauseHolds(fs, lits)
  {
    var n := |lits| - 1;
    LitPredMeans(fs, lits[n]);
    ClauseSnoc(fs, lits[..n], lits[n]);
    assert lits == lits[..n] + [lits[n]];
    if n > 0 {
      ClausePredMeans(fs, lits[..n]);
      assert ClausePred(lits) == And(ClausePred(lits[..n]), LitPred(lits[n]));
    } else {
      assert ClausePred(lits) == LitPred(lits[0]);
    }
  }

  /** `reduce(Predicate::and)`; `None` if there is no filter. */
  function Combined(preds: seq<Pred>): Option<Pred> {
    if preds == [] then None
    else
      var n := |preds| - 1;
      var before := Combined(preds[..n]);
      if before.None? then Some(preds[n]) else Some(And(before.value, preds[n]))
  }

  predicate AllHold(fs: Fields, preds: seq<Pred>) {
    forall i :: 0 <= i < |preds| ==> Eval(fs, preds[i])
  }

  lemma {:induction false} CombinedMeans(fs: Fields, preds: seq<Pred>)
    ensures AllHold(fs, preds) <==> Combined(preds).None? || Eval(fs, Combined(preds).value)
  {
    if preds != [] {
      var n := |preds| - 1;
      CombinedMeans(fs, preds[..n]);
      assert AllHold(fs, preds) <==> AllHold(fs, preds[..n]) && Eval(fs, preds[n]) by {
        assert forall i :: 0 <= i < n ==> preds[..n][i] == preds[i];
      }
      assert Combined(preds[..n]).None? ==> preds[..n] == [];
    }
  }

  function ClausesOf(preds: seq<Pred>): (cs: seq<Clause>)
    ensures cs != []
  {
    var p := Combined(preds);
    if p.None? then [[]] else (DnfNonempty(p.value); Dnf(p.value))
  }

  /** The clauses together mean the filters. */
  lemma ClausesMean(fs: Fields, preds: seq<Pred>)
    ensures AnyHolds(fs, ClausesOf(preds)) <==> AllHold(fs, preds)
  {
    CombinedMeans(fs, preds);
    var p := Combined(preds);
    if p.Some? {
      DnfEquivalent(fs, p.value);
    } else {
      assert ClauseHolds(fs, ClausesOf(preds)[0]);
    }
  }

  datatype Query = Query(preds: seq<Pred>, sort: Option<(U32, bool)>, limit: Option<nat>)

  function Decorated(rows: Plan, q: Query): Plan {
    var sorted := if q.sort.Some? then Sort(rows, q.sort.value.0, q.sort.value.1) else rows;
    if q.limit.Some? then Limit(sorted, q.limit.value) else sorted
  }

  /** The plan of the rows, before sorting and limiting. */
  ghost predicate RowsFor(defs: Defs, preds: seq<Pred>, rows: Plan) {
    var cs := ClausesOf(preds);
    if |cs| == 1 then OneClausePlan(defs, cs[0], rows)
    else
      && rows.Filter? && Combined(preds) == Some(rows.pred)
      && rows.input.UnionIds? && BranchesFor(defs, cs, rows.input.branches)
  }

  ghost predicate OneClausePlan(defs: Defs, lits: Clause, rows: Plan) {
    var src := if rows.Filter? then rows.input else rows;
    var residual := Residual(lits, CoveredBy(src));
    ChosenFor(defs, lits, src) &&
    if residual == [] then rows == src else rows == Filter(src, ClausePred(residual))
  }

  ghost predicate BranchesFor(defs: Defs, cs: seq<Clause>, branches: seq<Plan>) {
    |branches| == |cs| && forall i :: 0 <= i < |cs| ==> ChosenFor(defs, cs[i], branches[i])
  }

  // ---- a sorted query from an index ----

  function WidenLower(cur: Bound, next: Bound): Bound {
    if LowerStronger(next, cur) then cur else next
  }

  function WidenUpper(cur: Bound, next: Bound): Bound {
    if UpperStronger(next, cur) then cur else next
  }

  /** The bounds of a field over all clauses, from the first clause on. */
  function UnionOf(cs: seq<Clause>, f: U32): (Bound, Bound)
    requires cs != []
  {
    var n := |cs| - 1;
    var (l, u) := Merged(cs[n], f);
    if n == 0 then (l, u)
    else
      var (lower, upper) := UnionOf(cs[..n], f);
      (WidenLower(lower, l), WidenUpper(upper, u))
  }

  /** `union_bounds` (src/query/planner.rs:493-521). */
  method UnionBounds(cs: seq<Clause>, f: U32) returns (lower: Bound, upper: Bound)
    requires cs != []
    ensures (lower, upper) == UnionOf(cs, f)
  {
    lower, upper := MergeBounds(cs[0], f);
    var i := 1;
    assert cs[..1] == [cs[0]];
    while i < |cs|
      invariant 1 <= i <= |cs| && (lower, upper) == UnionOf(cs[..i], f)
    {
      var l, u := MergeBounds(cs[i], f);
      assert cs[..i + 1][..i] == cs[..i];
      lower, upper := WidenLower(lower, l), WidenUpper(upper, u);
      i := i + 1;
    }
    assert cs[..i] == cs;
  }

  /** `index_order_enabled` (src/query/planner.rs:528-548). */
  predicate OrderEnabled(defs: Defs, f: U32, cs: seq<Clause>) {
    f in defs.single && forall c :: c in cs ==> exists i :: 0 <= i < |c| && On(c[i], f)
  }

  /** Sorting and limiting are left to an index. */
  predicate Ordered(defs: Defs, q: Query) {
    q.sort.Some? && q.limit.Some? && OrderEnabled(defs, q.sort.value.0, ClausesOf(q.preds))
  }

  /** The plan of the rows in index order. */
  function OrderedRows(q: Query): Plan
    requires q.sort.Some?
  {
    var (f, asc) := q.sort.value;
    var cs := ClausesOf(q.preds);
    var (lower, upper) := UnionOf(cs, f);
    var src := IndexOrderScan(f, lower, upper, asc);
    if |cs| == 1 then
      var residual := Residual(cs[0], {f});
      if residual == [] then src else Filter(src, ClausePred(residual))
    else
      var p := Combined(q.preds);
      if p.None? then src else Filter(src, p.value)
  }

  /** The plan of a query, with the plan of its rows before sorting and limiting. */
  ghost predicate PlanOf(defs: Defs, q: Query, plan: Plan, rows: Plan) {
    if Ordered(defs, q) then rows == OrderedRows(q) && plan == Limit(rows, q.limit.value)
    else RowsFor(defs, q.preds, rows) && plan == Decorated(rows, q)
  }

  method PlanRows(defs: Defs, preds: seq<Pred>, clauses: seq<Clause>) returns (rows: Plan)
    requires clauses == ClausesOf(preds)
    ensures RowsFor(defs, preds, rows)
  {
    if |clauses| == 1 {
      var src, residual := PlanClause(defs, clauses[0]);
      rows := if residual != [] then Filter(src, ClausePred(residual)) else src;
    } else {
      var branches: seq<Plan> := [];
      while |branches| < |clauses|
        invariant |branches| <= |clauses|
        invariant forall i :: 0 <= i < |branches| ==> ChosenFor(defs, clauses[i], branches[i])
      {
        var src, residual := PlanClause(defs, clauses[|branches|]);
        branches := branches + [src];
      }
      rows := Filter(UnionIds(branches), Combined(preds).value);
    }
  }

  /** Every clause has a literal that an index on the field can serve. */
  predicate BoundInEach(cs: seq<Clause>, f: U32) {
    forall k :: 0 <= k < |cs| ==> BoundIn(cs[k], f)
  }

  predicate BoundIn(c: Clause, f: U32) {
    exists i :: 0 <= i < |c| && On(c[i], f)
  }

  lemma EnabledMeans(defs: Defs, f: U32, cs: seq<Clause>)
    ensures OrderEnabled(defs, f, cs) <==> f in defs.single && BoundInEach(cs, f)
  {
    forall c | c in cs ensures BoundIn(c, f) <==> exists i :: 0 <= i < |c| && On(c[i], f) {
    }
    if BoundInEach(cs, f) {
      forall c | c in cs ensures BoundIn(c, f) {
        var k :| 0 <= k < |cs| && cs[k] == c;
      }
    }
  }

  /** The rows come from a limited scan in index order. */
  predicate InOrderOfIndex(plan: Plan) {
    plan.Limit? && (if plan.input.Filter? then plan.input.input else plan.input).IndexOrderScan?
  }

  /** `plan` (src/query/planner.rs:551-696) for Limit?(Sort?(Filter*(Collection))). */
  method MakePlan(defs: Defs, q: Query) returns (plan: Plan)
    ensures exists rows :: PlanOf(defs, q, plan, rows)
    ensures InOrderOfIndex(plan) ==> q.sort.Some? && q.limit.Some?
    ensures q.sort.Some? && q.limit.Some? ==>
      (InOrderOfIndex(plan) <==> q.sort.value.0 in defs.single && BoundInEach(ClausesOf(q.preds), q.sort.value.0))
  {
    var clauses := ClausesOf(q.preds);
    plan := PlanRows(defs, q.preds, clauses);
    ghost var rows := plan;
    if q.sort.Some? {
      var (f, asc) := q.sort.value;
      EnabledMeans(defs, f, clauses);
      if q.limit.Some? && OrderEnabled(defs, f, clauses) {
        var lower, upper := UnionBounds(clauses, f);
        var inner := IndexOrderScan(f, lower, upper, asc);
        if |clauses| == 1 {
          var residual := Residual(clauses[0], {f});
          if residual != [] {
            inner := Filter(inner, ClausePred(residual));
          }
        } else if Combined(q.preds).Some? {
          inner := Filter(inner, Combined(q.preds).value);
        }
        plan := Limit(inner, q.limit.value);
        assert PlanOf(defs, q, plan, inner);
        return;
      }
      plan := Sort(plan, f, asc);
    }
    if q.limit.Some? {
      plan := Limit(plan, q.limit.value);
    }
    assert PlanOf(defs, q, plan, rows);
  }
}
