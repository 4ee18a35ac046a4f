/** Predicates over entities and their disjunctive normal form (src/query/expression.rs,
    src/query/planner.rs:38-123). Field ids stand for field names. */
module Predicates {
  import opened Bytes
  import opened OrderedValues
  import opened Entities

  datatype Cmp = CmpEq | CmpNe | CmpLt | CmpLte | CmpGt | CmpGte

  datatype Pred =
    | And(a: Pred, b: Pred)
    | Or(a: Pred, b: Pred)
    | Not(p: Pred)
    | Test(fid: U32, cmp: Cmp, v: Value)

  /** `compare` (src/query/expression.rs:58-69). */
  predicate Compares(actual: Value, cmp: Cmp, lit: Value) {
    var ord := ValueCmp(actual, lit);
    match cmp
    case CmpEq => ord == Eq
    case CmpNe => ord != Eq
    case CmpLt => ord == Lt
    case CmpLte => ord != Gt
    case CmpGt => ord == Gt
    case CmpGte => ord != Lt
  }

  /** A comparison with a missing field is false, except for `Ne`. */
  predicate TestHolds(fs: Fields, fid: U32, cmp: Cmp, lit: Value) {
    if fid in fs then Compares(fs[fid], cmp, lit) else cmp == CmpNe
  }

  /** `eval` (src/query/expression.rs:38-50). */
  predicate Eval(fs: Fields, p: Pred) {
    match p
    case And(a, b) => Eval(fs, a) && Eval(fs, b)
    case Or(a, b) => Eval(fs, a) || Eval(fs, b)
    case Not(q) => !Eval(fs, q)
    case Test(f, cmp, v) => TestHolds(fs, f, cmp, v)
  }

  /** The six comparisons in terms of the order of values. */
  predicate Compared(x: Value, cmp: Cmp, lit: Value) {
    match cmp
    case CmpEq => !ValueLess(x, lit) && !ValueLess(lit, x)
    case CmpNe => ValueLess(x, lit) || ValueLess(lit, x)
    case CmpLt => ValueLess(x, lit)
    case CmpLte => !ValueLess(lit, x)
    case CmpGt => ValueLess(lit, x)
    case CmpGte => !ValueLess(x, lit)
  }

  lemma TestMeans(fs: Fields, f: U32, cmp: Cmp, lit: Value)
    ensures Eval(fs, Test(f, cmp, lit)) <==> if f in fs then Compared(fs[f], cmp, lit) else cmp == CmpNe
  {
    if f in fs {
      ValueCmpMeans(fs[f], lit);
    }
  }

  /** A literal of a conjunction; the negation stays a flag. */
  datatype Lit = Lit(fid: U32, cmp: Cmp, v: Value, negated: bool)

  type Clause = seq<Lit>

  predicate LitHolds(fs: Fields, l: Lit) {
    TestHolds(fs, l.fid, l.cmp, l.v) != l.negated
  }

  predicate ClauseHolds(fs: Fields, c: Clause) {
    forall i :: 0 <= i < |c| ==> LitHolds(fs, c[i])
  }

  predicate AnyHolds(fs: Fields, cs: seq<Clause>) {
    exists i :: 0 <= i < |cs| && ClauseHolds(fs, cs[i])
  }

  /** One clause with each of the others. */
  function Extend(c: Clause, ds: seq<Clause>): (r: seq<Clause>)
    ensures |r| == |ds| && forall i :: 0 <= i < |r| ==> r[i] == c + ds[i]
  {
    seq(|ds|, i requires 0 <= i < |ds| => c + ds[i])
  }

  /** All pairs, in the order of the two nested loops. */
  function Cross(cs: seq<Clause>, ds: seq<Clause>): seq<Clause> {
    if cs == [] then [] else Extend(cs[0], ds) + Cross(cs[1..], ds)
  }

  /** `dnf` (src/query/planner.rs:62-90). */
  function Dnf(p: Pred): seq<Clause> {
    match p
    case Test(f, cmp, v) => [[Lit(f, cmp, v, false)]]
    case And(a, b) => Cross(Dnf(a), Dnf(b))
    case Or(a, b) => Dnf(a) + Dnf(b)
    case Not(q) => DnfNot(q)
  }

  /** `dnf_not` (src/query/planner.rs:93-123): De Morgan, never an inverted comparison. */
  function DnfNot(p: Pred): seq<Clause> {
    match p
    case Test(f, cmp, v) => [[Lit(f, cmp, v, true)]]
    case Not(q) => Dnf(q)
    case And(a, b) => DnfNot(a) + DnfNot(b)
    case Or(a, b) => Cross(DnfNot(a), DnfNot(b))
  }

  lemma ClauseConcat(fs: Fields, c: Clause, d: Clause)
    ensures ClauseHolds(fs, c + d) <==> ClauseHolds(fs, c) && ClauseHolds(fs, d)
  {
    if ClauseHolds(fs, c + d) {
      forall i | 0 <= i < |c| ensures LitHolds(fs, c[i]) {
        assert (c + d)[i] == c[i];
      }
      forall i | 0 <= i < |d| ensures LitHolds(fs, d[i]) {
        assert (c + d)[|c| + i] == d[i];
      }
    }
  }

  lemma AnyConcat(fs: Fields, cs: seq<Clause>, ds: seq<Clause>)
    ensures AnyHolds(fs, cs + ds) <==> AnyHolds(fs, cs) || AnyHolds(fs, ds)
  {
    if i :| 0 <= i < |cs| && ClauseHolds(fs, cs[i]) {
      assert (cs + ds)[i] == cs[i];
    }
    if i :| 0 <= i < |ds| && ClauseHolds(fs, ds[i]) {
      assert (cs + ds)[|cs| + i] == ds[i];
    }
  }

  lemma AnyExtend(fs: Fields, c: Clause, ds: seq<Clause>)
    ensures AnyHolds(fs, Extend(c, ds)) <==> ClauseHolds(fs, c) && AnyHolds(fs, ds)
  {
    forall i | 0 <= i < |ds| ensures ClauseHolds(fs, Extend(c, ds)[i]) <==> ClauseHolds(fs, c) && ClauseHolds(fs, ds[i]) {
      ClauseConcat(fs, c, ds[i]);
    }
  }

  lemma {:induction false} AnyCross(fs: Fields, cs: seq<Clause>, ds: seq<Clause>)
    ensures AnyHolds(fs, Cross(cs, ds)) <==> AnyHolds(fs, cs) && AnyHolds(fs, ds)
  {
    if cs != [] {
      AnyExtend(fs, cs[0], ds);
      AnyCross(fs, cs[1..], ds);
      AnyConcat(fs, Extend(cs[0], ds), Cross(cs[1..], ds));
      AnyConcat(fs, [cs[0]], cs[1..]);
      assert cs == [cs[0]] + cs[1..];
      assert AnyHolds(fs, [cs[0]]) <==> ClauseHolds(fs, cs[0]) by {
        assert [cs[0]][0] == cs[0];
      }
    }
  }

  lemma OneLit(fs: Fields, l: Lit)
    ensures AnyHolds(fs, [[l]]) <==> LitHolds(fs, l)
  {
    if LitHolds(fs, l) {
      assert ClauseHolds(fs, [[l]][0]);
    }
    if AnyHolds(fs, [[l]]) {
      assert LitHolds(fs, [[l]][0][0]);
    }
  }

  /** The normal form means the predicate on every entity, absent fields included. */
  lemma {:induction false} DnfEquivalent(fs: Fields, p: Pred)
    ensures AnyHolds(fs, Dnf(p)) <==> Eval(fs, p)
    ensures AnyHolds(fs, DnfNot(p)) <==> !Eval(fs, p)
  {
    match p
    case Test(f, cmp, v) =>
      OneLit(fs, Lit(f, cmp, v, false));
      OneLit(fs, Lit(f, cmp, v, true));
    case And(a, b) =>
      DnfEquivalent(fs, a);
      DnfEquivalent(fs, b);
      AnyCross(fs, Dnf(a), Dnf(b));
      AnyConcat(fs, DnfNot(a), DnfNot(b));
    case Or(a, b) =>
      DnfEquivalent(fs, a);
      DnfEquivalent(fs, b);
      AnyConcat(fs, Dnf(a), Dnf(b));
      AnyCross(fs, DnfNot(a), DnfNot(b));
    case Not(q) =>
      DnfEquivalent(fs, q);
  }

  /** `Ne` and the negation of `Eq` agree on every entity, also where the field is absent. */
  lemma NeIsNotEq(fs: Fields, f: U32, v: Value)
    ensures Eval(fs, Test(f, CmpNe, v)) <==> Eval(fs, Not(Test(f, CmpEq, v)))
  {
  }

  /** A negated comparison is not the inverted one: they differ on an absent field. */
  lemma InvertedDiffers(f: U32, v: Value)
    ensures Eval(map[], Not(Test(f, CmpGt, v))) && !Eval(map[], Test(f, CmpLte, v))
  {
  }

  predicate ClausesNonempty(cs: seq<Clause>) {
    forall i :: 0 <= i < |cs| ==> cs[i] != []
  }

  lemma {:induction false} CrossNonempty(cs: seq<Clause>, ds: seq<Clause>)
    requires ClausesNonempty(cs) && ClausesNonempty(ds)
    ensures ClausesNonempty(Cross(cs, ds)) && |Cross(cs, ds)| == |cs| * |ds|
  {
    if cs != [] {
      CrossNonempty(cs[1..], ds);
      assert |cs| * |ds| == |ds| + (|cs| - 1) * |ds|;
    }
  }

  /** There is always a clause, and no clause is empty. */
  lemma {:induction false} DnfNonempty(p: Pred)
    ensures ClausesNonempty(Dnf(p)) && Dnf(p) != []
    ensures ClausesNonempty(DnfNot(p)) && DnfNot(p) != []
  {
    match p
    case Test(f, cmp, v) =>
    case And(a, b) =>
      DnfNonempty(a);
      DnfNonempty(b);
      CrossNonempty(Dnf(a), Dnf(b));
    case Or(a, b) =>
      DnfNonempty(a);
      DnfNonempty(b);
      CrossNonempty(DnfNot(a), DnfNot(b));
    case Not(q) =>
      DnfNonempty(q);
  }
}
