/** What plans mean, and when planning keeps the meaning of the filters. */
module PlanMeaning {
  import opened Std
  import opened Bytes
  import opened OrderedValues
  import opened KeyCodec
  import opened Entities
  import opened Predicates
  import opened BoundMerging
  import opened IndexChoice
  import opened Indexes
  import opened Planner

  /** Whether the rows of a plan contain an entity with these fields, limits aside. */
  ghost predicate Selects(fs: Fields, plan: Plan) {
    match plan
    case FullScan => fs != map[]
    case IndexScan(f, lower, upper) => f in fs && Within(fs[f], lower, upper)
    case CompositeScan(d, leads) => LeadsHit(fs, d.fids, leads)
    case IndexOrderScan(f, lower, upper, _) => f in fs && Within(fs[f], lower, upper)
    case Fetch(input) => Selects(fs, input) && fs != map[]
    case UnionIds(branches) => exists i :: 0 <= i < |branches| && Selects(fs, branches[i])
    case Filter(input, p) => Selects(fs, input) && Eval(fs, p)
    case Sort(input, _, _) => Selects(fs, input)
    case Limit(input, _) => Selects(fs, input)
  }

  // ---- the bounds of a composite plan ----

  /** A leading component answers for the merged literals of its field, of which there is
      at least one. */
  ghost predicate LeadFor(lits: Clause, fids: seq<U32>, lead: Lead) {
    && lead.pos < |fids| && lead == LeadAt(lits, fids, lead.pos)
    && exists i :: 0 <= i < |lits| && On(lits[i], fids[lead.pos])
  }

  ghost predicate LeadsFor(lits: Clause, fids: seq<U32>, pos: nat, leads: seq<Lead>) {
    forall i :: 0 <= i < |leads| ==> leads[i].pos == pos + i && LeadFor(lits, fids, leads[i])
  }

  lemma LeadsForCons(lits: Clause, fids: seq<U32>, pos: nat, rest: seq<Lead>)
    requires pos < |fids| && LeadFor(lits, fids, LeadAt(lits, fids, pos)) && LeadsFor(lits, fids, pos + 1, rest)
    ensures LeadsFor(lits, fids, pos, [LeadAt(lits, fids, pos)] + rest)
  {
    var leads := [LeadAt(lits, fids, pos)] + rest;
    forall i | 0 <= i < |leads| ensures leads[i].pos == pos + i && LeadFor(lits, fids, leads[i]) {
      assert i > 0 ==> leads[i] == rest[i - 1];
    }
  }

  lemma {:induction false} LeadingIs(lits: Clause, fids: seq<U32>, pos: nat)
    requires pos <= |fids|
    ensures LeadsFor(lits, fids, pos, Leading(lits, fids, pos))
    decreases |fids| - pos
  {
    if pos < |fids| {
      var l := FirstOn(lits, fids[pos]);
      if l.Some? {
        var j :| 0 <= j < |lits| && lits[j] == l.value;
        if l.value.cmp == CmpEq {
          LeadingIs(lits, fids, pos + 1);
          LeadsForCons(lits, fids, pos, Leading(lits, fids, pos + 1));
        } else {
          LeadsForCons(lits, fids, pos, []);
        }
      }
    }
  }

  /** Every component before the last is pinned by an equality literal. */
  lemma {:induction false} LeadingPinned(lits: Clause, fids: seq<U32>, pos: nat)
    requires pos <= |fids|
    ensures Pinned(Leading(lits, fids, pos))
    decreases |fids| - pos
  {
    var leads := Leading(lits, fids, pos);
    if pos < |fids| && FirstOn(lits, fids[pos]).Some? && FirstOn(lits, fids[pos]).value.cmp == CmpEq {
      var rest := Leading(lits, fids, pos + 1);
      LeadingPinned(lits, fids, pos + 1);
      assert leads == [LeadAt(lits, fids, pos)] + rest;
      forall i | 0 <= i < |leads| - 1 && leads[i].lower.Inclusive?
        ensures PinnedTo(leads[i].lower.v, leads[i].lower, leads[i].upper)
      {
        if i == 0 {
          EqualityPins(lits, fids[pos]);
        } else {
          assert leads[i] == rest[i - 1];
        }
      }
    }
  }

  /** Merged bounds that include an equality let only its value through. */
  lemma EqualityPins(lits: Clause, f: U32)
    requires FirstOn(lits, f).Some? && FirstOn(lits, f).value.cmp == CmpEq
    requires Merged(lits, f).0.Inclusive?
    ensures var (lower, upper) := Merged(lits, f); PinnedTo(lower.v, lower, upper)
  {
    var (lower, upper) := Merged(lits, f);
    var l := FirstOn(lits, f).value;
    var i :| 0 <= i < |lits| && lits[i] == l;
    MergedDominates(lits, f, i);
    forall x | Within(x, lower, upper) ensures ValueCmp(x, lower.v) == Eq {
      LowerDominatesMeans(x, lower, Inclusive(l.v));
      UpperDominatesMeans(x, upper, Inclusive(l.v));
      CmpFlips(x, l.v);
      CmpFlips(x, lower.v);
      CmpFlips(lower.v, l.v);
      ValueCmpTransitiveIf(l.v, lower.v, x);
    }
  }

  // ---- sources lose nothing ----

  lemma ClauseLits(fs: Fields, lits: Clause, f: U32)
    requires ClauseHolds(fs, lits) && exists i :: 0 <= i < |lits| && On(lits[i], f)
    ensures f in fs && LitsHold(lits, f, fs[f]) && Within(fs[f], Merged(lits, f).0, Merged(lits, f).1)
  {
    var i :| 0 <= i < |lits| && On(lits[i], f);
    assert LitHolds(fs, lits[i]);
    forall j | 0 <= j < |lits| && On(lits[j], f) ensures Compares(fs[f], lits[j].cmp, lits[j].v) {
      assert LitHolds(fs, lits[j]);
    }
    MergedIsImplied(lits, f, fs[f]);
  }

  /** The source of a clause selects every entity for which the clause holds. */
  lemma SourceIsSuperset(fs: Fields, defs: Defs, lits: Clause, src: Plan)
    requires SourceFor(defs, lits, src) && ClauseHolds(fs, lits) && fs != map[]
    ensures Selects(fs, src)
  {
    if src.Fetch? && src.input.IndexScan? {
      ClauseLits(fs, lits, src.input.fid);
    } else if src.Fetch? {
      LeadsSelect(fs, lits, src.input.d.fids);
    }
  }

  lemma LeadsSelect(fs: Fields, lits: Clause, fids: seq<U32>)
    requires ClauseHolds(fs, lits)
    ensures LeadsHit(fs, fids, Leading(lits, fids, 0))
  {
    var leads := Leading(lits, fids, 0);
    LeadingIs(lits, fids, 0);
    forall i | 0 <= i < |leads| ensures LeadHit(fs, fids, leads[i]) {
      assert LeadFor(lits, fids, leads[i]);
      ClauseLits(fs, lits, fids[leads[i].pos]);
    }
  }

  // ---- sources let nothing through but open ends ----

  /** The source of a single clause, possibly in the order of an index. */
  ghost predicate Serves(defs: Defs, lits: Clause, src: Plan) {
    || SourceFor(defs, lits, src)
    || (src.IndexOrderScan? && (src.lower, src.upper) == Merged(lits, src.fid)
        && exists i :: 0 <= i < |lits| && On(lits[i], src.fid))
  }

  /** The entity sits exactly at the value of a `>` literal on a covered field. */
  predicate AtOpenEnd(fs: Fields, lits: Clause, covered: set<U32>) {
    exists i :: 0 <= i < |lits| && LitAtOpenEnd(fs, lits[i], covered)
  }

  predicate LitAtOpenEnd(fs: Fields, l: Lit, covered: set<U32>) {
    Indexable(l) && l.cmp == CmpGt && l.fid in covered && l.fid in fs && ValueCmp(fs[l.fid], l.v) == Eq
  }

  /** A selected entity is within the merged bounds of every covered field. */
  lemma SourceWithin(fs: Fields, defs: Defs, lits: Clause, src: Plan, f: U32)
    requires Serves(defs, lits, src) && Selects(fs, src) && f in CoveredBy(src)
    ensures f in fs && Within(fs[f], Merged(lits, f).0, Merged(lits, f).1)
  {
    if src.Fetch? && src.input.CompositeScan? {
      LeadsWithin(fs, lits, src.input.d, f);
    }
  }

  lemma LeadsWithin(fs: Fields, lits: Clause, d: CompDef, f: U32)
    requires LeadsHit(fs, d.fids, Leading(lits, d.fids, 0)) && f in LeadFields(d, Leading(lits, d.fids, 0))
    ensures f in fs && Within(fs[f], Merged(lits, f).0, Merged(lits, f).1)
  {
    var leads := Leading(lits, d.fids, 0);
    var i :| 0 <= i < |leads| && leads[i].pos < |d.fids| && d.fids[leads[i].pos] == f;
    LeadingIs(lits, d.fids, 0);
    assert LeadFor(lits, d.fids, leads[i]) && LeadHit(fs, d.fids, leads[i]);
  }

  /** Within merged bounds every literal holds, but for a `>` literal at its own value. */
  lemma WithinMeans(x: Value, lits: Clause, f: U32, i: nat)
    requires i < |lits| && On(lits[i], f) && Within(x, Merged(lits, f).0, Merged(lits, f).1)
    ensures Compares(x, lits[i].cmp, lits[i].v) <==> !(lits[i].cmp == CmpGt && ValueCmp(x, lits[i].v) == Eq)
  {
    MergedDominates(lits, f, i);
    LowerDominatesMeans(x, Merged(lits, f).0, LowerOf(lits[i]));
    UpperDominatesMeans(x, Merged(lits, f).1, UpperOf(lits[i]));
    LitIsBounds(lits[i], f, x);
  }

  /** The literals a source covers hold for what it selects, open ends aside. */
  lemma CoveredLit(fs: Fields, defs: Defs, lits: Clause, src: Plan, i: nat)
    requires Serves(defs, lits, src) && Selects(fs, src)
    requires i < |lits| && Indexable(lits[i]) && lits[i].fid in CoveredBy(src)
    ensures LitHolds(fs, lits[i]) <==> !LitAtOpenEnd(fs, lits[i], CoveredBy(src))
  {
    var f := lits[i].fid;
    SourceWithin(fs, defs, lits, src, f);
    WithinMeans(fs[f], lits, f, i);
  }

  lemma {:induction false} ResidualHolds(fs: Fields, lits: Clause, covered: set<U32>)
    ensures ClauseHolds(fs, Residual(lits, covered)) <==>
      forall i :: 0 <= i < |lits| && !(Indexable(lits[i]) && lits[i].fid in covered) ==> LitHolds(fs, lits[i])
  {
    if lits != [] {
      ResidualHolds(fs, lits[1..], covered);
      var first := if Indexable(lits[0]) && lits[0].fid in covered then [] else [lits[0]];
      ClauseConcat(fs, first, Residual(lits[1..], covered));
      assert lits == [lits[0]] + lits[1..];
      assert first != [] ==> first[0] == lits[0];
      assert forall i :: 0 < i < |lits| ==> lits[i] == lits[1..][i - 1];
    }
  }

  /** A row that passes source and residual satisfies the clause if and only if no `>`
      literal on a covered field has the row's own value. */
  lemma SourceExact(fs: Fields, defs: Defs, lits: Clause, src: Plan)
    requires Serves(defs, lits, src) && Selects(fs, src) && ClauseHolds(fs, Residual(lits, CoveredBy(src)))
    ensures ClauseHolds(fs, lits) <==> !AtOpenEnd(fs, lits, CoveredBy(src))
  {
    ResidualHolds(fs, lits, CoveredBy(src));
    forall i | 0 <= i < |lits|
      ensures LitHolds(fs, lits[i]) <==> !LitAtOpenEnd(fs, lits[i], CoveredBy(src))
    {
      if Indexable(lits[i]) && lits[i].fid in CoveredBy(src) {
        CoveredLit(fs, defs, lits, src, i);
      }
    }
  }

  lemma ResidualIsWeaker(fs: Fields, lits: Clause, covered: set<U32>)
    requires ClauseHolds(fs, lits)
    ensures ClauseHolds(fs, Residual(lits, covered))
  {
    ResidualHolds(fs, lits, covered);
  }

  // ---- whole plans ----

  /** Where the plan of a single clause may be wrong about an entity. */
  ghost predicate Misjudged(fs: Fields, preds: seq<Pred>, rows: Plan) {
    var cs := ClausesOf(preds);
    |cs| == 1 && AtOpenEnd(fs, cs[0], CoveredBy(SourceOf(rows)))
  }

  function SourceOf(rows: Plan): Plan {
    if rows.Filter? then rows.input else rows
  }

  /** The rows of a single clause: its source, then its residual. */
  ghost predicate ClausePlan(defs: Defs, lits: Clause, rows: Plan) {
    var src := SourceOf(rows);
    var residual := Residual(lits, CoveredBy(src));
    Serves(defs, lits, src) && if residual == [] then rows == src else rows == Filter(src, ClausePred(residual))
  }

  lemma OneClauseSelects(fs: Fields, defs: Defs, lits: Clause, rows: Plan)
    requires ClausePlan(defs, lits, rows)
    ensures var src := SourceOf(rows);
      Selects(fs, rows) <==> Selects(fs, src) && ClauseHolds(fs, Residual(lits, CoveredBy(src)))
  {
    var src := SourceOf(rows);
    var residual := Residual(lits, CoveredBy(src));
    if residual != [] {
      ClausePredMeans(fs, residual);
    }
  }

  lemma SelectsNonempty(fs: Fields, defs: Defs, lits: Clause, src: Plan)
    requires Serves(defs, lits, src) && Selects(fs, src)
    ensures fs != map[]
  {
  }

  lemma ServesIsSuperset(fs: Fields, defs: Defs, lits: Clause, src: Plan)
    requires Serves(defs, lits, src) && ClauseHolds(fs, lits) && fs != map[]
    ensures Selects(fs, src)
  {
    if src.IndexOrderScan? {
      ClauseLits(fs, lits, src.fid);
    } else {
      SourceIsSuperset(fs, defs, lits, src);
    }
  }

  lemma OneClauseMeans(fs: Fields, defs: Defs, lits: Clause, rows: Plan)
    requires ClausePlan(defs, lits, rows)
    ensures fs != map[] && ClauseHolds(fs, lits) ==> Selects(fs, rows)
    ensures Selects(fs, rows) ==> fs != map[]
    ensures Selects(fs, rows) ==> (ClauseHolds(fs, lits) <==> !AtOpenEnd(fs, lits, CoveredBy(SourceOf(rows))))
  {
    var src := SourceOf(rows);
    OneClauseSelects(fs, defs, lits, rows);
    if fs != map[] && ClauseHolds(fs, lits) {
      ServesIsSuperset(fs, defs, lits, src);
      ResidualIsWeaker(fs, lits, CoveredBy(src));
    }
    if Selects(fs, rows) {
      SelectsNonempty(fs, defs, lits, src);
      SourceExact(fs, defs, lits, src);
    }
  }

  lemma BranchesSelect(fs: Fields, defs: Defs, cs: seq<Clause>, branches: seq<Plan>)
    requires BranchesFor(defs, cs, branches)
    ensures fs != map[] && AnyHolds(fs, cs) ==> Selects(fs, UnionIds(branches))
    ensures Selects(fs, UnionIds(branches)) ==> fs != map[]
  {
    if fs != map[] && AnyHolds(fs, cs) {
      var i :| 0 <= i < |cs| && ClauseHolds(fs, cs[i]);
      SourceIsSuperset(fs, defs, cs[i], branches[i]);
    }
    if Selects(fs, UnionIds(branches)) {
      var i :| 0 <= i < |branches| && Selects(fs, branches[i]);
      SelectsNonempty(fs, defs, cs[i], branches[i]);
    }
  }

  lemma RowsMean(fs: Fields, defs: Defs, preds: seq<Pred>, rows: Plan)
    requires RowsFor(defs, preds, rows)
    ensures fs != map[] && AllHold(fs, preds) ==> Selects(fs, rows)
    ensures Selects(fs, rows) ==> fs != map[] && (AllHold(fs, preds) <==> !Misjudged(fs, preds, rows))
  {
    var cs := ClausesOf(preds);
    ClausesMean(fs, preds);
    if |cs| == 1 {
      assert ClausePlan(defs, cs[0], rows);
      OneClauseMeans(fs, defs, cs[0], rows);
      assert cs == [cs[0]];
    } else {
      BranchesSelect(fs, defs, cs, rows.input.branches);
      CombinedMeans(fs, preds);
    }
  }

  // ---- rows in index order ----

  lemma WidenLowerMeans(cur: Bound, next: Bound, b: Bound)
    ensures LowerDominates(next, WidenLower(cur, next))
    ensures LowerDominates(b, cur) ==> LowerDominates(b, WidenLower(cur, next))
  {
    if !next.Unbounded? && !cur.Unbounded? {
      CmpReflexive(next.v);
      CmpFlips(next.v, cur.v);
      if !b.Unbounded? {
        CmpFlips(b.v, cur.v);
        CmpFlips(b.v, next.v);
        ValueCmpTransitiveIf(next.v, cur.v, b.v);
      }
    } else if !next.Unbounded? {
      CmpReflexive(next.v);
    }
  }

  lemma WidenUpperMeans(cur: Bound, next: Bound, b: Bound)
    ensures UpperDominates(next, WidenUpper(cur, next))
    ensures UpperDominates(b, cur) ==> UpperDominates(b, WidenUpper(cur, next))
  {
    if !next.Unbounded? && !cur.Unbounded? {
      CmpReflexive(next.v);
      CmpFlips(next.v, cur.v);
      if !b.Unbounded? {
        CmpFlips(b.v, cur.v);
        CmpFlips(b.v, next.v);
        ValueCmpTransitiveIf(b.v, cur.v, next.v);
      }
    } else if !next.Unbounded? {
      CmpReflexive(next.v);
    }
  }

  lemma {:induction false} UnionIsWider(cs: seq<Clause>, f: U32, i: nat)
    requires i < |cs|
    ensures LowerDominates(Merged(cs[i], f).0, UnionOf(cs, f).0)
    ensures UpperDominates(Merged(cs[i], f).1, UnionOf(cs, f).1)
  {
    var n := |cs| - 1;
    var (l, u) := Merged(cs[n], f);
    if n == 0 {
      DominatesSelf(l, u);
    } else {
      var (lower, upper) := UnionOf(cs[..n], f);
      WidenLowerMeans(lower, l, Merged(cs[i], f).0);
      WidenUpperMeans(upper, u, Merged(cs[i], f).1);
      if i < n {
        UnionIsWider(cs[..n], f, i);
      }
    }
  }

  lemma DominatesSelf(l: Bound, u: Bound)
    ensures LowerDominates(l, l) && UpperDominates(u, u)
  {
    if !l.Unbounded? {
      CmpReflexive(l.v);
    }
    if !u.Unbounded? {
      CmpReflexive(u.v);
    }
  }

  // ---- the exact condition of a loss ----

  /** The clause lets no value below `x` through: some literal starts at `x` or above. */
  predicate StartsFrom(c: Clause, f: U32, x: Value) {
    exists i :: 0 <= i < |c| && On(c[i], f) && LitFrom(c[i], x)
  }

  predicate LitFrom(l: Lit, x: Value) {
    !LowerOf(l).Unbounded? && ValueCmp(l.v, x) != Lt
  }

  /** The clause starts right above `x`: a `>` literal at `x`, none that starts higher, and
      no `>=` or `=` literal at `x`. */
  predicate OpensAt(c: Clause, f: U32, x: Value) {
    && (exists i :: 0 <= i < |c| && On(c[i], f) && c[i].cmp == CmpGt && ValueCmp(c[i].v, x) == Eq)
    && (forall i :: 0 <= i < |c| && On(c[i], f) ==> !LitBeyond(c[i], x))
  }

  predicate LitBeyond(l: Lit, x: Value) {
    && !LowerOf(l).Unbounded?
    && (ValueCmp(l.v, x) == Gt || (ValueCmp(l.v, x) == Eq && LowerOf(l).Inclusive?))
  }

  /** No clause reaches below `x`, and one of them starts right above it. */
  predicate LostAt(cs: seq<Clause>, f: U32, x: Value) {
    && (forall c :: c in cs ==> StartsFrom(c, f, x))
    && exists i :: 0 <= i < |cs| && OpensAt(cs[i], f, x)
  }

  lemma StartsFromIs(c: Clause, f: U32, x: Value)
    ensures var lower := Merged(c, f).0;
      StartsFrom(c, f, x) <==> !lower.Unbounded? && ValueCmp(lower.v, x) != Lt
  {
    var lower := Merged(c, f).0;
    MergedAttained(c, f);
    if StartsFrom(c, f, x) {
      var i :| 0 <= i < |c| && On(c[i], f) && LitFrom(c[i], x);
      MergedDominates(c, f, i);
      CmpFlips(lower.v, c[i].v);
      CmpFlips(c[i].v, x);
      CmpFlips(lower.v, x);
      ValueCmpTransitiveIf(x, c[i].v, lower.v);
    }
    if !lower.Unbounded? && ValueCmp(lower.v, x) != Lt {
      var j :| 0 <= j < |c| && On(c[j], f) && LowerOf(c[j]) == lower;
      assert LitFrom(c[j], x);
    }
  }

  lemma OpensAtIs(c: Clause, f: U32, x: Value)
    ensures var lower := Merged(c, f).0;
      OpensAt(c, f, x) <==> lower.Exclusive? && ValueCmp(lower.v, x) == Eq
  {
    var lower := Merged(c, f).0;
    MergedAttained(c, f);
    if OpensAt(c, f, x) {
      var i :| 0 <= i < |c| && On(c[i], f) && c[i].cmp == CmpGt && ValueCmp(c[i].v, x) == Eq;
      MergedDominates(c, f, i);
      var j :| 0 <= j < |c| && On(c[j], f) && LowerOf(c[j]) == lower;
      assert !LitBeyond(c[j], x);
      SameValue(lower.v, c[i].v, x);
    }
    if lower.Exclusive? && ValueCmp(lower.v, x) == Eq {
      var j :| 0 <= j < |c| && On(c[j], f) && LowerOf(c[j]) == lower;
      forall i | 0 <= i < |c| && On(c[i], f) ensures !LitBeyond(c[i], x) {
        MergedDominates(c, f, i);
        if !LowerOf(c[i]).Unbounded? {
          SameValue(lower.v, c[i].v, x);
        }
      }
    }
  }

  /** Comparison with a value is comparison with an equal one. */
  lemma SameValue(a: Value, b: Value, x: Value)
    ensures ValueCmp(a, x) == Eq ==> ValueCmp(a, b) == ValueCmp(x, b) && ValueCmp(b, a) == ValueCmp(b, x)
    ensures ValueCmp(b, x) == Eq ==> ValueCmp(a, b) == ValueCmp(a, x) && ValueCmp(b, a) == ValueCmp(x, a)
    ensures ValueCmp(b, a) == Flip(ValueCmp(a, b)) && ValueCmp(x, a) == Flip(ValueCmp(a, x)) && ValueCmp(x, b) == Flip(ValueCmp(b, x))
  {
    OrderEmbedding(a, b);
    OrderEmbedding(a, x);
    OrderEmbedding(b, x);
    OrderEmbedding(x, b);
    CmpFlips(a, b);
    CmpFlips(a, x);
    CmpFlips(b, x);
  }

  lemma {:induction false} UnionAttained(cs: seq<Clause>, f: U32)
    requires cs != []
    ensures exists i :: 0 <= i < |cs| && Merged(cs[i], f).0 == UnionOf(cs, f).0
  {
    var n := |cs| - 1;
    if n == 0 {
      assert Merged(cs[0], f).0 == UnionOf(cs, f).0;
    } else {
      UnionAttained(cs[..n], f);
      var i :| 0 <= i < n && Merged(cs[..n][i], f).0 == UnionOf(cs[..n], f).0;
      assert cs[i] == cs[..n][i];
      assert Merged(cs[n], f).0 == UnionOf(cs, f).0 || Merged(cs[i], f).0 == UnionOf(cs, f).0;
    }
  }

  /** A value is lost exactly at an exclusive lower end of the united bounds. */
  lemma LostAtIs(cs: seq<Clause>, f: U32, x: Value)
    requires cs != []
    ensures var lower := UnionOf(cs, f).0;
      LostAt(cs, f, x) <==> lower.Exclusive? && ValueCmp(lower.v, x) == Eq
  {
    var lower := UnionOf(cs, f).0;
    if LostAt(cs, f, x) {
      LostIsEnd(cs, f, x);
    }
    if lower.Exclusive? && ValueCmp(lower.v, x) == Eq {
      EndIsLost(cs, f, x);
    }
  }

  lemma LostIsEnd(cs: seq<Clause>, f: U32, x: Value)
    requires cs != [] && LostAt(cs, f, x)
    ensures UnionOf(cs, f).0.Exclusive? && ValueCmp(UnionOf(cs, f).0.v, x) == Eq
  {
    var lower := UnionOf(cs, f).0;
    UnionAttained(cs, f);
    var j :| 0 <= j < |cs| && Merged(cs[j], f).0 == lower;
    StartsFromIs(cs[j], f, x);
    var i :| 0 <= i < |cs| && OpensAt(cs[i], f, x);
    OpensAtIs(cs[i], f, x);
    UnionIsWider(cs, f, i);
    SameValue(lower.v, Merged(cs[i], f).0.v, x);
  }

  lemma EndIsLost(cs: seq<Clause>, f: U32, x: Value)
    requires cs != [] && UnionOf(cs, f).0.Exclusive? && ValueCmp(UnionOf(cs, f).0.v, x) == Eq
    ensures LostAt(cs, f, x)
  {
    var lower := UnionOf(cs, f).0;
    UnionAttained(cs, f);
    var j :| 0 <= j < |cs| && Merged(cs[j], f).0 == lower;
    OpensAtIs(cs[j], f, x);
    forall c | c in cs ensures StartsFrom(c, f, x) {
      var i :| 0 <= i < |cs| && cs[i] == c;
      UnionIsWider(cs, f, i);
      StartsFromIs(c, f, x);
      SameValue(lower.v, Merged(c, f).0.v, x);
    }
  }

  // ---- rows of united bounds ----

  /** A value that satisfies the literals of some clause is within the united bounds unless
      it is lost. */
  lemma UnionKeeps(cs: seq<Clause>, f: U32, i: nat, x: Value)
    requires i < |cs| && LitsHold(cs[i], f, x)
    ensures Within(x, UnionOf(cs, f).0, UnionOf(cs, f).1) <==> !LostAt(cs, f, x)
  {
    var (lower, upper) := UnionOf(cs, f);
    MergedIsImplied(cs[i], f, x);
    UnionIsWider(cs, f, i);
    LowerDominatesMeans(x, Merged(cs[i], f).0, lower);
    UpperDominatesMeans(x, Merged(cs[i], f).1, upper);
    LostAtIs(cs, f, x);
    if !lower.Unbounded? {
      CmpFlips(lower.v, x);
    }
  }

  /** A clause starts right above a value at which another one holds, and none reaches below. */
  predicate LowerTie(cs: seq<Clause>, f: U32) {
    exists i, j, d :: 0 <= i < |cs| && 0 <= j < |cs[i]| && 0 <= d < |cs| && IsLowerTie(cs, f, i, j, d)
  }

  predicate IsLowerTie(cs: seq<Clause>, f: U32, i: nat, j: nat, d: nat)
    requires i < |cs| && j < |cs[i]| && d < |cs|
  {
    On(cs[i][j], f) && cs[i][j].cmp == CmpGt && LostAt(cs, f, cs[i][j].v) && LitsHold(cs[d], f, cs[i][j].v)
  }

  lemma LostIsTie(cs: seq<Clause>, f: U32, d: nat, x: Value)
    requires d < |cs| && LitsHold(cs[d], f, x) && LostAt(cs, f, x)
    ensures LowerTie(cs, f)
  {
    var i :| 0 <= i < |cs| && OpensAt(cs[i], f, x);
    var j :| 0 <= j < |cs[i]| && On(cs[i][j], f) && cs[i][j].cmp == CmpGt && ValueCmp(cs[i][j].v, x) == Eq;
    var v := cs[i][j].v;
    LostAtIs(cs, f, x);
    LostAtIs(cs, f, v);
    SameValue(UnionOf(cs, f).0.v, v, x);
    forall k | 0 <= k < |cs[d]| && On(cs[d][k], f) ensures Compares(v, cs[d][k].cmp, cs[d][k].v) {
      SameValue(v, cs[d][k].v, x);
    }
    assert IsLowerTie(cs, f, i, j, d);
  }

  /** The united bounds let through every value that satisfies the literals of some clause
      if and only if there is no tie. */
  lemma UnionExactIff(cs: seq<Clause>, f: U32)
    requires cs != []
    ensures (forall d, x :: 0 <= d < |cs| && LitsHold(cs[d], f, x) ==> Within(x, UnionOf(cs, f).0, UnionOf(cs, f).1))
      <==> !LowerTie(cs, f)
  {
    if LowerTie(cs, f) {
      var i, j, d :| 0 <= i < |cs| && 0 <= j < |cs[i]| && 0 <= d < |cs| && IsLowerTie(cs, f, i, j, d);
      UnionKeeps(cs, f, d, cs[i][j].v);
    } else {
      forall d, x | 0 <= d < |cs| && LitsHold(cs[d], f, x) ensures Within(x, UnionOf(cs, f).0, UnionOf(cs, f).1) {
        UnionKeeps(cs, f, d, x);
        if LostAt(cs, f, x) {
          LostIsTie(cs, f, d, x);
        }
      }
    }
  }

  predicate AtLostEnd(fs: Fields, cs: seq<Clause>, f: U32) {
    f in fs && LostAt(cs, f, fs[f])
  }

  /** A matching entity is within the united bounds, or lost. */
  lemma UnionSelects(fs: Fields, cs: seq<Clause>, f: U32, i: nat)
    requires i < |cs| && ClauseHolds(fs, cs[i]) && exists j :: 0 <= j < |cs[i]| && On(cs[i][j], f)
    ensures f in fs && (Within(fs[f], UnionOf(cs, f).0, UnionOf(cs, f).1) <==> !AtLostEnd(fs, cs, f))
  {
    ClauseLits(fs, cs[i], f);
    UnionKeeps(cs, f, i, fs[f]);
  }

  /** Where a plan in index order loses an entity: only with several clauses. */
  ghost predicate Lost(fs: Fields, defs: Defs, q: Query) {
    var cs := ClausesOf(q.preds);
    Ordered(defs, q) && |cs| > 1 && AtLostEnd(fs, cs, q.sort.value.0)
  }

  lemma OrderedMeans(fs: Fields, defs: Defs, q: Query)
    requires Ordered(defs, q)
    ensures var rows := OrderedRows(q);
      && (AllHold(fs, q.preds) ==> (Selects(fs, rows) <==> !Lost(fs, defs, q)))
      && (Selects(fs, rows) ==> fs != map[] && (AllHold(fs, q.preds) <==> !Misjudged(fs, q.preds, rows)))
  {
    var rows, cs, f := OrderedRows(q), ClausesOf(q.preds), q.sort.value.0;
    ClausesMean(fs, q.preds);
    CombinedMeans(fs, q.preds);
    if |cs| == 1 {
      assert cs == [cs[0]];
      assert ClausePlan(defs, cs[0], rows);
      OneClauseMeans(fs, defs, cs[0], rows);
      if AllHold(fs, q.preds) {
        ClauseLits(fs, cs[0], f);
      }
    } else if AllHold(fs, q.preds) {
      var i :| 0 <= i < |cs| && ClauseHolds(fs, cs[i]);
      assert cs[i] in cs;
      UnionSelects(fs, cs, f, i);
    }
  }

  /** Planning preserves meaning. The plan selects an entity for which all filters hold
      unless it is lost, which happens only in index order with several clauses, at a value
      right above which a clause starts while none reaches below it. What it selects satisfies the filters unless it is
      misjudged, which happens only with a single clause, at the value of one of its `>`
      literals. */
  lemma PlanMeans(fs: Fields, defs: Defs, q: Query, plan: Plan, rows: Plan)
    requires PlanOf(defs, q, plan, rows)
    ensures fs != map[] && AllHold(fs, q.preds) ==> (Selects(fs, rows) <==> !Lost(fs, defs, q))
    ensures Selects(fs, rows) ==> fs != map[] && (AllHold(fs, q.preds) <==> !Misjudged(fs, q.preds, rows))
  {
    if Ordered(defs, q) {
      OrderedMeans(fs, defs, q);
    } else {
      RowsMean(fs, defs, q.preds, rows);
    }
  }

  /** A condition on the filters alone under which no entity can be misjudged: with a
      single clause, no field has a `>` literal in a trap. */
  predicate NoTrap(preds: seq<Pred>) {
    var cs := ClausesOf(preds);
    |cs| == 1 ==> forall i :: 0 <= i < |cs[0]| && Indexable(cs[0][i]) ==> !GtTrap(cs[0], cs[0][i].fid)
  }

  lemma NoTrapMeans(fs: Fields, defs: Defs, q: Query, plan: Plan, rows: Plan)
    requires PlanOf(defs, q, plan, rows) && NoTrap(q.preds) && Selects(fs, rows)
    ensures !Misjudged(fs, q.preds, rows)
  {
    var cs := ClausesOf(q.preds);
    if |cs| == 1 {
      assert cs == [cs[0]];
      assert ClausePlan(defs, cs[0], rows);
      var src := SourceOf(rows);
      OneClauseSelects(fs, defs, cs[0], rows);
      forall i | 0 <= i < |cs[0]| ensures !LitAtOpenEnd(fs, cs[0][i], CoveredBy(src)) {
        var l := cs[0][i];
        if Indexable(l) && l.fid in CoveredBy(src) {
          SourceWithin(fs, defs, cs[0], src, l.fid);
          NoTrapAt(cs[0], l.fid, i, fs[l.fid]);
        }
      }
    }
  }

  /** In particular, a single clause in which no `>` literal has a `>=` or `=` literal on its
      field at an equal value is judged right. */
  lemma NoPairsNoTrap(preds: seq<Pred>)
    requires |ClausesOf(preds)| == 1 ==> NoPairs(ClausesOf(preds)[0])
    ensures NoTrap(preds)
  {
    var lits := ClausesOf(preds)[0];
    if |ClausesOf(preds)| == 1 {
      forall i | 0 <= i < |lits| && Indexable(lits[i]) ensures !GtTrap(lits, lits[i].fid) {
        NoPairNoTrap(lits, lits[i].fid);
      }
    }
  }

  predicate NoPairs(lits: Clause) {
    forall i :: 0 <= i < |lits| && Indexable(lits[i]) ==> !HasRivals(lits, lits[i].fid)
  }

  /** An entity that matches is lost only where clauses tie. */
  lemma NoTieNotLost(fs: Fields, defs: Defs, q: Query)
    requires Ordered(defs, q) ==> !LowerTie(ClausesOf(q.preds), q.sort.value.0)
    requires AllHold(fs, q.preds)
    ensures !Lost(fs, defs, q)
  {
    var cs := ClausesOf(q.preds);
    if Lost(fs, defs, q) {
      var f := q.sort.value.0;
      ClausesMean(fs, q.preds);
      var i :| 0 <= i < |cs| && ClauseHolds(fs, cs[i]);
      assert cs[i] in cs;
      ClauseLits(fs, cs[i], f);
      LostIsTie(cs, f, i, fs[f]);
    }
  }

  lemma OnlyIndex(defs: Defs, lits: Clause, f: U32, src: Plan)
    requires defs.single == [f] && defs.comps == [] && IsCandidate(lits, defs.single, f)
    requires src == Fetch(IndexScan(f, Merged(lits, f).0, Merged(lits, f).1))
    ensures ChosenFor(defs, lits, src)
  {
    forall g | IsCandidate(lits, defs.single, g) ensures g == f {
      var i :| 0 <= i < |lits| && HasIndex(lits[i], defs.single) && lits[i].fid == g;
    }
    assert BestField(lits, defs.single, Some(f)) && BestOf(lits, defs.comps, None);
    assert IsChoice(defs, lits, src, Some(f), None);
  }

  /** `x > 5 AND x >= 5` with an index on x: the plan selects an entity with x = 5. */
  lemma TrapSelectsTooMuch(f: U32, defs: Defs, rows: Plan)
    requires defs.single == [f] && defs.comps == []
    requires rows == Fetch(IndexScan(f, Inclusive(Int(5)), Unbounded))
    ensures var preds := [Test(f, CmpGt, Int(5)), Test(f, CmpGte, Int(5))];
      RowsFor(defs, preds, rows) && Selects(map[f := Int(5)], rows) && !AllHold(map[f := Int(5)], preds)
  {
    var p, q := Test(f, CmpGt, Int(5)), Test(f, CmpGte, Int(5));
    var preds := [p, q];
    var a, b := Lit(f, CmpGt, Int(5), false), Lit(f, CmpGte, Int(5), false);
    var lits := [a, b];
    assert preds[..1] == [p] && [p][..0] == [];
    assert Combined([p]) == Some(p);
    assert Combined(preds) == Some(And(p, q));
    assert Dnf(p) == [[a]] && Dnf(q) == [[b]];
    assert Cross([[a]][1..], [[b]]) == [];
    assert [a] + [b] == lits && Extend([a], [[b]])[0] == [a] + [[b]][0];
    assert Extend([a], [[b]]) == [lits];
    assert ClausesOf(preds) == [lits];
    GtTrapExample(f);
    assert IsCandidate(lits, defs.single, f) by {
      assert HasIndex(lits[0], defs.single);
    }
    assert Residual(lits, {f}) == [] by {
      assert lits[1..] == [b] && [b][1..] == [];
      assert Residual([], {f}) == [];
      assert Residual([b], {f}) == [];
    }
    OnlyIndex(defs, lits, f, rows);
    assert !Eval(map[f := Int(5)], preds[0]);
  }

  /** `x > 5 OR x >= 5` sorted by x with a limit: the entity with x = 5 is lost. */
  lemma LostExample(f: U32, defs: Defs, n: nat)
    requires f in defs.single
    ensures var q := Query([Or(Test(f, CmpGt, Int(5)), Test(f, CmpGte, Int(5)))], Some((f, true)), Some(n));
      Ordered(defs, q) && Lost(map[f := Int(5)], defs, q) && AllHold(map[f := Int(5)], q.preds)
  {
    var p := Or(Test(f, CmpGt, Int(5)), Test(f, CmpGte, Int(5)));
    var a, b := [Lit(f, CmpGt, Int(5), false)], [Lit(f, CmpGte, Int(5), false)];
    assert [p][..0] == [] && Combined([p]) == Some(p);
    var cs := ClausesOf([p]);
    assert Dnf(p.a) == [a] && Dnf(p.b) == [b];
    assert cs == [a] + [b];
    assert [a] + [b] == [a, b] && [a, b][..1] == [a];
    assert On(a[0], f) && On(b[0], f);
    assert a[..0] == [] && b[..0] == [];
    assert Merged([], f) == (Unbounded, Unbounded);
    assert Merged(a, f).0 == Exclusive(Int(5));
    assert Merged(b, f).0 == Inclusive(Int(5));
    assert UnionOf([a], f).0 == Exclusive(Int(5));
    assert UnionOf(cs, f).0 == Exclusive(Int(5));
    LostAtIs(cs, f, Int(5));
    assert Eval(map[f := Int(5)], p);
  }
}
