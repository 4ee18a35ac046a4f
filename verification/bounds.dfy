/** Merging the literals on one field into the bounds of an index range
    (src/query/planner.rs:256-332). */
module BoundMerging {
  import opened Bytes
  import opened OrderedValues
  import opened KeyCodec
  import opened Predicates

  /** A literal that an index can serve: positive and not `Ne`. */
  predicate Indexable(l: Lit) {
    !l.negated && l.cmp != CmpNe
  }

  predicate On(l: Lit, f: U32) {
    Indexable(l) && l.fid == f
  }

  /** `lower_stronger`: at equal values `Inclusive` counts as the tighter one. */
  predicate LowerStronger(a: Bound, b: Bound) {
    if a.Unbounded? then false
    else if b.Unbounded? then true
    else ValueCmp(a.v, b.v) == Gt || (ValueCmp(a.v, b.v) == Eq && a.Inclusive? && b.Exclusive?)
  }

  /** `upper_stronger`: at equal values `Exclusive` is the tighter one. */
  predicate UpperStronger(a: Bound, b: Bound) {
    if a.Unbounded? then false
    else if b.Unbounded? then true
    else ValueCmp(a.v, b.v) == Lt || (ValueCmp(a.v, b.v) == Eq && a.Exclusive? && b.Inclusive?)
  }

  function TightenLower(cur: Bound, next: Bound): Bound {
    if LowerStronger(next, cur) then next else cur
  }

  function TightenUpper(cur: Bound, next: Bound): Bound {
    if UpperStronger(next, cur) then next else cur
  }

  function LowerOf(l: Lit): Bound {
    match l.cmp
    case CmpEq => Inclusive(l.v)
    case CmpGt => Exclusive(l.v)
    case CmpGte => Inclusive(l.v)
    case _ => Unbounded
  }

  function UpperOf(l: Lit): Bound {
    match l.cmp
    case CmpEq => Inclusive(l.v)
    case CmpLt => Exclusive(l.v)
    case CmpLte => Inclusive(l.v)
    case _ => Unbounded
  }

  /** The bounds after the literals of the list, in order. */
  function Merged(lits: Clause, f: U32): (Bound, Bound) {
    if lits == [] then (Unbounded, Unbounded)
    else
      var n := |lits| - 1;
      var (lower, upper) := Merged(lits[..n], f);
      if On(lits[n], f) then (TightenLower(lower, LowerOf(lits[n])), TightenUpper(upper, UpperOf(lits[n])))
      else (lower, upper)
  }

  /** The loop of `merge_bounds`. */
  method MergeBounds(lits: Clause, f: U32) returns (lower: Bound, upper: Bound)
    ensures (lower, upper) == Merged(lits, f)
  {
    lower, upper := Unbounded, Unbounded;
    var i := 0;
    assert lits[..0] == [];
    while i < |lits|
      invariant 0 <= i <= |lits| && (lower, upper) == Merged(lits[..i], f)
    {
      var l := lits[i];
      assert lits[..i + 1][..i] == lits[..i];
      if On(l, f) {
        match l.cmp {
          case CmpEq =>
            lower := TightenLower(lower, Inclusive(l.v));
            upper := TightenUpper(upper, Inclusive(l.v));
          case CmpGt => lower := TightenLower(lower, Exclusive(l.v));
          case CmpGte => lower := TightenLower(lower, Inclusive(l.v));
          case CmpLt => upper := TightenUpper(upper, Exclusive(l.v));
          case CmpLte => upper := TightenUpper(upper, Inclusive(l.v));
          case CmpNe =>
        }
      }
      i := i + 1;
    }
    assert lits[..i] == lits;
  }

  // ---- what merged bounds mean ----

  predicate AboveLower(x: Value, b: Bound) {
    match b
    case Unbounded => true
    case Inclusive(v) => ValueCmp(x, v) != Lt
    case Exclusive(v) => ValueCmp(x, v) == Gt
  }

  predicate BelowUpper(x: Value, b: Bound) {
    match b
    case Unbounded => true
    case Inclusive(v) => ValueCmp(x, v) != Gt
    case Exclusive(v) => ValueCmp(x, v) == Lt
  }

  /** All index-servable literals on the field hold for the value. */
  predicate LitsHold(lits: Clause, f: U32, x: Value) {
    forall i :: 0 <= i < |lits| && On(lits[i], f) ==> Compares(x, lits[i].cmp, lits[i].v)
  }

  lemma LitIsBounds(l: Lit, f: U32, x: Value)
    requires On(l, f)
    ensures Compares(x, l.cmp, l.v) <==> AboveLower(x, LowerOf(l)) && BelowUpper(x, UpperOf(l))
  {
  }

  /** The merged bounds are bounds of literals, so whatever satisfies all literals
      satisfies them: candidates are never lost. */
  lemma {:induction false} MergedIsImplied(lits: Clause, f: U32, x: Value)
    requires LitsHold(lits, f, x)
    ensures Within(x, Merged(lits, f).0, Merged(lits, f).1)
  {
    if lits != [] {
      var n := |lits| - 1;
      forall i | 0 <= i < n && On(lits[..n][i], f) ensures Compares(x, lits[..n][i].cmp, lits[..n][i].v) {
        assert lits[..n][i] == lits[i];
      }
      MergedIsImplied(lits[..n], f, x);
      if On(lits[n], f) {
        LitIsBounds(lits[n], f, x);
      }
    }
  }

  /** How much a lower bound excludes: `b` excludes nothing that `a` keeps, except possibly
      the bound value itself where `a` includes it and `b` does not. */
  ghost predicate LowerDominates(a: Bound, b: Bound) {
    b.Unbounded? || (!a.Unbounded? &&
      (ValueCmp(a.v, b.v) == Gt || (ValueCmp(a.v, b.v) == Eq && (a.Inclusive? || b.Exclusive?))))
  }

  ghost predicate UpperDominates(a: Bound, b: Bound) {
    b.Unbounded? || (!a.Unbounded? &&
      (ValueCmp(a.v, b.v) == Lt || (ValueCmp(a.v, b.v) == Eq && (a.Exclusive? || b.Inclusive?))))
  }

  lemma CmpReflexive(v: Value)
    ensures ValueCmp(v, v) == Eq
  {
    OrderEmbedding(v, v);
  }

  lemma TightenLowerDominates(cur: Bound, next: Bound, b: Bound)
    ensures LowerDominates(TightenLower(cur, next), next)
    ensures LowerDominates(cur, b) ==> LowerDominates(TightenLower(cur, next), b)
  {
    if !next.Unbounded? {
      CmpReflexive(next.v);
      if !cur.Unbounded? {
        CmpFlips(next.v, cur.v);
        if !b.Unbounded? {
          CmpFlips(cur.v, b.v);
          CmpFlips(next.v, b.v);
          if ValueCmp(b.v, cur.v) != Gt && ValueCmp(cur.v, next.v) != Gt {
            ValueCmpTransitive(b.v, cur.v, next.v);
          }
        }
      }
    }
  }

  lemma TightenUpperDominates(cur: Bound, next: Bound, b: Bound)
    ensures UpperDominates(TightenUpper(cur, next), next)
    ensures UpperDominates(cur, b) ==> UpperDominates(TightenUpper(cur, next), b)
  {
    if !next.Unbounded? {
      CmpReflexive(next.v);
      if !cur.Unbounded? {
        CmpFlips(next.v, cur.v);
        if !b.Unbounded? {
          CmpFlips(cur.v, b.v);
          CmpFlips(next.v, b.v);
          if ValueCmp(next.v, cur.v) != Gt && ValueCmp(cur.v, b.v) != Gt {
            ValueCmpTransitive(next.v, cur.v, b.v);
          }
        }
      }
    }
  }

  lemma {:induction false} MergedDominates(lits: Clause, f: U32, i: nat)
    requires i < |lits| && On(lits[i], f)
    ensures LowerDominates(Merged(lits, f).0, LowerOf(lits[i]))
    ensures UpperDominates(Merged(lits, f).1, UpperOf(lits[i]))
  {
    var n := |lits| - 1;
    var (lower, upper) := Merged(lits[..n], f);
    if i < n {
      MergedDominates(lits[..n], f, i);
    }
    if On(lits[n], f) {
      TightenLowerDominates(lower, LowerOf(lits[n]), LowerOf(lits[i]));
      TightenUpperDominates(upper, UpperOf(lits[n]), UpperOf(lits[i]));
    }
  }

  lemma UpperDominatesMeans(x: Value, a: Bound, b: Bound)
    requires UpperDominates(a, b) && BelowUpper(x, a)
    ensures BelowUpper(x, b)
  {
    if !b.Unbounded? {
      ValueCmpTransitiveIf(x, a.v, b.v);
    }
  }

  /** Below the dominating bound nothing is let through but, possibly, the value of an
      exclusive bound itself. */
  lemma LowerDominatesMeans(x: Value, a: Bound, b: Bound)
    requires LowerDominates(a, b) && AboveLower(x, a)
    ensures AboveLower(x, b) || (b.Exclusive? && ValueCmp(x, b.v) == Eq)
  {
    if !b.Unbounded? {
      CmpFlips(a.v, b.v);
      CmpFlips(x, a.v);
      CmpFlips(x, b.v);
      ValueCmpTransitiveIf(b.v, a.v, x);
    }
  }

  // ---- the exact condition ----

  /** Reading `>` as `>=`, all index-servable literals on the field hold for the value. */
  predicate HoldLoosely(lits: Clause, f: U32, x: Value) {
    forall i :: 0 <= i < |lits| && On(lits[i], f) ==> HoldsLoosely(lits[i], x)
  }

  predicate HoldsLoosely(l: Lit, x: Value) {
    if l.cmp == CmpGt then ValueCmp(x, l.v) != Lt else Compares(x, l.cmp, l.v)
  }

  /** A `>=` or `=` literal on the field at an equal value. */
  predicate Rivals(l: Lit, f: U32, v: Value) {
    On(l, f) && (l.cmp == CmpGte || l.cmp == CmpEq) && ValueCmp(v, l.v) == Eq
  }

  /** A `>` literal with a rival at its value, where all other literals on the field hold. */
  predicate IsGtTrap(lits: Clause, f: U32, i: nat)
    requires i < |lits|
  {
    && On(lits[i], f) && lits[i].cmp == CmpGt && HoldLoosely(lits, f, lits[i].v)
    && exists j :: 0 <= j < |lits| && Rivals(lits[j], f, lits[i].v)
  }

  predicate GtTrap(lits: Clause, f: U32) {
    exists i :: 0 <= i < |lits| && IsGtTrap(lits, f, i)
  }

  /** Merged bounds are those of literals. */
  lemma {:induction false} MergedAttained(lits: Clause, f: U32)
    ensures Merged(lits, f).0.Unbounded? || exists j :: 0 <= j < |lits| && On(lits[j], f) && LowerOf(lits[j]) == Merged(lits, f).0
    ensures Merged(lits, f).1.Unbounded? || exists j :: 0 <= j < |lits| && On(lits[j], f) && UpperOf(lits[j]) == Merged(lits, f).1
  {
    if lits != [] {
      var n := |lits| - 1;
      var front := lits[..n];
      MergedAttained(front, f);
      var (lower, upper) := Merged(front, f);
      if !lower.Unbounded? {
        var j :| 0 <= j < |front| && On(front[j], f) && LowerOf(front[j]) == lower;
        assert lits[j] == front[j];
      }
      if !upper.Unbounded? {
        var j :| 0 <= j < |front| && On(front[j], f) && UpperOf(front[j]) == upper;
        assert lits[j] == front[j];
      }
    }
  }

  lemma LiteralAtBounds(l: Lit, f: U32, x: Value)
    requires On(l, f)
    ensures HoldsLoosely(l, x) <==> AboveLoosely(x, LowerOf(l)) && BelowUpper(x, UpperOf(l))
    ensures HoldsLoosely(l, x) && l.cmp != CmpGt ==> AboveLower(x, LowerOf(l))
  {
  }

  predicate AboveLoosely(x: Value, b: Bound) {
    AboveLower(x, b) || (b.Exclusive? && ValueCmp(x, b.v) == Eq)
  }

  /** Within the merged bounds all literals hold loosely. */
  lemma WithinIsLoose(lits: Clause, f: U32, x: Value)
    requires Within(x, Merged(lits, f).0, Merged(lits, f).1)
    ensures HoldLoosely(lits, f, x)
  {
    var (lower, upper) := Merged(lits, f);
    forall i | 0 <= i < |lits| && On(lits[i], f) ensures HoldsLoosely(lits[i], x) {
      MergedDominates(lits, f, i);
      LowerDominatesMeans(x, lower, LowerOf(lits[i]));
      UpperDominatesMeans(x, upper, UpperOf(lits[i]));
      LiteralAtBounds(lits[i], f, x);
    }
  }

  /** The bound at a `>` literal's value that lets the value through is a rival's. */
  lemma RivalAtWithin(lits: Clause, f: U32, i: nat)
    requires i < |lits| && On(lits[i], f) && lits[i].cmp == CmpGt
    requires Within(lits[i].v, Merged(lits, f).0, Merged(lits, f).1)
    ensures exists j :: 0 <= j < |lits| && Rivals(lits[j], f, lits[i].v)
  {
    var v, lower := lits[i].v, Merged(lits, f).0;
    MergedDominates(lits, f, i);
    CmpFlips(lower.v, v);
    MergedAttained(lits, f);
    var j :| 0 <= j < |lits| && On(lits[j], f) && LowerOf(lits[j]) == lower;
    assert Rivals(lits[j], f, v);
  }

  /** Where a rival stands and all literals hold loosely, the merged bounds let the value through. */
  lemma TrapIsWithin(lits: Clause, f: U32, i: nat)
    requires i < |lits| && IsGtTrap(lits, f, i)
    ensures Within(lits[i].v, Merged(lits, f).0, Merged(lits, f).1)
  {
    var v := lits[i].v;
    var (lower, upper) := Merged(lits, f);
    MergedAttained(lits, f);
    var j :| 0 <= j < |lits| && Rivals(lits[j], f, v);
    MergedDominates(lits, f, j);
    if !lower.Unbounded? {
      var k :| 0 <= k < |lits| && On(lits[k], f) && LowerOf(lits[k]) == lower;
      LiteralAtBounds(lits[k], f, v);
      if ValueCmp(v, lower.v) == Eq {
        CmpFlips(v, lower.v);
        ValueCmpTransitiveIf(lower.v, v, lits[j].v);
      }
    }
    if !upper.Unbounded? {
      var k :| 0 <= k < |lits| && On(lits[k], f) && UpperOf(lits[k]) == upper;
      LiteralAtBounds(lits[k], f, v);
    }
  }

  lemma GtTrapIsWithin(lits: Clause, f: U32, i: nat)
    requires i < |lits| && On(lits[i], f) && lits[i].cmp == CmpGt
    ensures IsGtTrap(lits, f, i) <==> Within(lits[i].v, Merged(lits, f).0, Merged(lits, f).1)
  {
    if IsGtTrap(lits, f, i) {
      TrapIsWithin(lits, f, i);
    }
    if Within(lits[i].v, Merged(lits, f).0, Merged(lits, f).1) {
      WithinIsLoose(lits, f, lits[i].v);
      RivalAtWithin(lits, f, i);
    }
  }

  /** Without a `>` literal beside a `>=` or `=` literal at an equal value there is no trap. */
  lemma NoPairNoTrap(lits: Clause, f: U32)
    requires !HasRivals(lits, f)
    ensures !GtTrap(lits, f)
  {
  }

  predicate HasRivals(lits: Clause, f: U32) {
    exists i, j :: 0 <= i < |lits| && 0 <= j < |lits| && On(lits[i], f) && lits[i].cmp == CmpGt && Rivals(lits[j], f, lits[i].v)
  }

  lemma WithinSameCode(x: Value, y: Value, lower: Bound, upper: Bound)
    requires ValueCmp(x, y) == Eq
    ensures Within(x, lower, upper) <==> Within(y, lower, upper)
  {
    OrderEmbedding(x, y);
    CodeWithinIs(x, lower, upper);
    CodeWithinIs(y, lower, upper);
  }

  /** The merged bounds mean exactly the literals if and only if no `>` literal has a `>=` or
      `=` literal at an equal value where all other literals on the field hold. */
  lemma MergedExactIff(lits: Clause, f: U32)
    ensures (forall x :: Within(x, Merged(lits, f).0, Merged(lits, f).1) <==> LitsHold(lits, f, x)) <==> !GtTrap(lits, f)
  {
    var (lower, upper) := Merged(lits, f);
    if !GtTrap(lits, f) {
      forall x ensures Within(x, lower, upper) <==> LitsHold(lits, f, x) {
        if LitsHold(lits, f, x) {
          MergedIsImplied(lits, f, x);
        }
        if Within(x, lower, upper) {
          WithinIsEnough(lits, f, x);
        }
      }
    } else {
      var i :| 0 <= i < |lits| && IsGtTrap(lits, f, i);
      var v := lits[i].v;
      CmpReflexive(v);
      GtTrapIsWithin(lits, f, i);
      assert Within(v, lower, upper) && !LitsHold(lits, f, v);
    }
  }

  lemma WithinIsEnough(lits: Clause, f: U32, x: Value)
    requires !GtTrap(lits, f) && Within(x, Merged(lits, f).0, Merged(lits, f).1)
    ensures LitsHold(lits, f, x)
  {
    var (lower, upper) := Merged(lits, f);
    forall i | 0 <= i < |lits| && On(lits[i], f) ensures Compares(x, lits[i].cmp, lits[i].v) {
      MergedDominates(lits, f, i);
      LowerDominatesMeans(x, lower, LowerOf(lits[i]));
      UpperDominatesMeans(x, upper, UpperOf(lits[i]));
      LitIsBounds(lits[i], f, x);
      NoTrapAt(lits, f, i, x);
    }
  }

  lemma NoTrapAt(lits: Clause, f: U32, i: nat, x: Value)
    requires !GtTrap(lits, f) && i < |lits| && On(lits[i], f) && Within(x, Merged(lits, f).0, Merged(lits, f).1)
    ensures lits[i].cmp == CmpGt ==> ValueCmp(x, lits[i].v) != Eq
  {
    assert !IsGtTrap(lits, f, i);
    if lits[i].cmp == CmpGt && ValueCmp(x, lits[i].v) == Eq {
      GtTrapIsWithin(lits, f, i);
      WithinSameCode(x, lits[i].v, Merged(lits, f).0, Merged(lits, f).1);
    }
  }

  /** `x > 5 AND x >= 5` merges to `[5, ..)`, which lets 5 through. */
  lemma GtTrapExample(f: U32)
    ensures var lits := [Lit(f, CmpGt, Int(5), false), Lit(f, CmpGte, Int(5), false)];
      Merged(lits, f) == (Inclusive(Int(5)), Unbounded) && GtTrap(lits, f) && !LitsHold(lits, f, Int(5))
  {
    var a, b := Lit(f, CmpGt, Int(5), false), Lit(f, CmpGte, Int(5), false);
    var lits := [a, b];
    assert lits[..1] == [a] && [a][..0] == [];
    assert Merged([], f) == (Unbounded, Unbounded);
    assert Merged([a], f) == (Exclusive(Int(5)), Unbounded);
    assert Rivals(lits[1], f, lits[0].v);
    assert IsGtTrap(lits, f, 0);
    assert On(lits[0], f) && !Compares(Int(5), lits[0].cmp, lits[0].v);
  }
}
