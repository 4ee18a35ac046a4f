/** Choosing the index of a clause (src/query/planner.rs:125-247, 345-410). */
module IndexChoice {
  import opened Seqs
  import opened Std
  import opened Bytes
  import opened OrderedValues
  import opened KeyCodec
  import opened Entities
  import opened Predicates
  import opened BoundMerging

  // ---- choosing a single-field index ----

  datatype Shape = ShapeEq | ShapeBetween | ShapeOneSided

  /** Selectivity as a rank: smaller is cheaper. */
  function Rank(s: Shape): nat {
    match s case ShapeEq => 0 case ShapeBetween => 1 case ShapeOneSided => 2
  }

  function FieldShape(lits: Clause, f: U32, lower: Bound, upper: Bound): Shape {
    if exists i :: 0 <= i < |lits| && On(lits[i], f) && lits[i].cmp == CmpEq then ShapeEq
    else if lower.Unbounded? || upper.Unbounded? then ShapeOneSided
    else ShapeBetween
  }

  datatype Candidate = Candidate(fid: U32, shape: Shape, lower: Bound, upper: Bound)

  predicate Tighter(a: Candidate, b: Candidate) {
    LowerStronger(a.lower, b.lower) || (!LowerStronger(b.lower, a.lower) && UpperStronger(a.upper, b.upper))
  }

  predicate Cheaper(a: Candidate, b: Candidate) {
    Rank(a.shape) < Rank(b.shape) ||
    (Rank(a.shape) == Rank(b.shape) && (Tighter(a, b) || (!Tighter(b, a) && a.fid < b.fid)))
  }

  // ---- the cost order ----

  /** The first comparison that decides. */
  function Both(a: Ordering, b: Ordering): Ordering {
    if a != Eq then a else b
  }

  /** Transitivity at three points, ties included. */
  predicate Chain(ab: Ordering, bc: Ordering, ac: Ordering) {
    ab != Gt && bc != Gt ==> ac != Gt && (ac == Eq <==> ab == Eq && bc == Eq)
  }

  lemma BothChain(ab: Ordering, bc: Ordering, ac: Ordering, xy: Ordering, yz: Ordering, xz: Ordering)
    requires Chain(ab, bc, ac) && Chain(xy, yz, xz)
    ensures Chain(Both(ab, xy), Both(bc, yz), Both(ac, xz))
  {
  }

  /** `Gt` for the tighter lower bound. */
  function LowerCmp(a: Bound, b: Bound): Ordering {
    if a.Unbounded? then if b.Unbounded? then Eq else Lt
    else if b.Unbounded? then Gt
    else Both(ValueCmp(a.v, b.v), CmpInt(if a.Inclusive? then 1 else 0, if b.Inclusive? then 1 else 0))
  }

  function UpperCmp(a: Bound, b: Bound): Ordering {
    if a.Unbounded? then if b.Unbounded? then Eq else Lt
    else if b.Unbounded? then Gt
    else Both(ValueCmp(b.v, a.v), CmpInt(if a.Exclusive? then 1 else 0, if b.Exclusive? then 1 else 0))
  }

  lemma ValueChain(a: Value, b: Value, c: Value)
    ensures Chain(ValueCmp(a, b), ValueCmp(b, c), ValueCmp(a, c))
  {
    ValueCmpTransitiveIf(a, b, c);
  }

  /** The comparison of bounds is an order, the one that `lower_stronger` asks about. */
  lemma LowerCmpIsOrder(a: Bound, b: Bound, c: Bound)
    ensures LowerStronger(a, b) <==> LowerCmp(a, b) == Gt
    ensures LowerCmp(b, a) == Flip(LowerCmp(a, b))
    ensures Chain(LowerCmp(a, b), LowerCmp(b, c), LowerCmp(a, c))
  {
    if !a.Unbounded? && !b.Unbounded? {
      CmpFlips(a.v, b.v);
      if !c.Unbounded? {
        ValueChain(a.v, b.v, c.v);
      }
    }
  }

  lemma UpperCmpIsOrder(a: Bound, b: Bound, c: Bound)
    ensures UpperStronger(a, b) <==> UpperCmp(a, b) == Gt
    ensures UpperCmp(b, a) == Flip(UpperCmp(a, b))
    ensures Chain(UpperCmp(a, b), UpperCmp(b, c), UpperCmp(a, c))
  {
    if !a.Unbounded? && !b.Unbounded? {
      CmpFlips(a.v, b.v);
      if !c.Unbounded? {
        CmpFlips(a.v, c.v);
        CmpFlips(b.v, c.v);
        ValueChain(c.v, b.v, a.v);
      }
    }
  }

  /** The cost as one comparison; `Lt` for the cheaper candidate. */
  function CostCmp(a: Candidate, b: Candidate): Ordering {
    Both(CmpInt(Rank(a.shape), Rank(b.shape)),
         Both(LowerCmp(b.lower, a.lower), Both(UpperCmp(b.upper, a.upper), CmpInt(a.fid, b.fid))))
  }

  lemma CheaperIsCost(a: Candidate, b: Candidate)
    ensures Cheaper(a, b) <==> CostCmp(a, b) == Lt
  {
    LowerCmpIsOrder(a.lower, b.lower, a.lower);
    LowerCmpIsOrder(b.lower, a.lower, b.lower);
    UpperCmpIsOrder(a.upper, b.upper, a.upper);
    UpperCmpIsOrder(b.upper, a.upper, b.upper);
  }

  /** `cheaper` is a strict order ... */
  lemma CheaperTransitive(a: Candidate, b: Candidate, c: Candidate)
    requires Cheaper(a, b) && Cheaper(b, c)
    ensures Cheaper(a, c)
  {
    CheaperIsCost(a, b);
    CheaperIsCost(b, c);
    CheaperIsCost(a, c);
    LowerFlipped(a.lower, b.lower, c.lower);
    UpperFlipped(a.upper, b.upper, c.upper);
    BothChain(UpperCmp(b.upper, a.upper), UpperCmp(c.upper, b.upper), UpperCmp(c.upper, a.upper),
              CmpInt(a.fid, b.fid), CmpInt(b.fid, c.fid), CmpInt(a.fid, c.fid));
  }

  lemma LowerFlipped(a: Bound, b: Bound, c: Bound)
    ensures Chain(LowerCmp(b, a), LowerCmp(c, b), LowerCmp(c, a))
  {
    LowerCmpIsOrder(c, b, a);
  }

  lemma UpperFlipped(a: Bound, b: Bound, c: Bound)
    ensures Chain(UpperCmp(b, a), UpperCmp(c, b), UpperCmp(c, a))
  {
    UpperCmpIsOrder(c, b, a);
  }

  /** ... and total on different fields, so the choice depends on nothing else. */
  lemma CheaperIsTotal(a: Candidate, b: Candidate)
    ensures a.fid != b.fid ==> Cheaper(a, b) || Cheaper(b, a)
    ensures !(Cheaper(a, b) && Cheaper(b, a))
  {
    CheaperIsCost(a, b);
    CheaperIsCost(b, a);
    LowerCmpIsOrder(a.lower, b.lower, a.lower);
    UpperCmpIsOrder(a.upper, b.upper, a.upper);
  }

  /** The literal's field has a READY single-field index. */
  predicate HasIndex(l: Lit, single: seq<U32>) {
    Indexable(l) && l.fid in single
  }

  ghost predicate IsCandidate(lits: Clause, single: seq<U32>, f: U32) {
    exists i :: 0 <= i < |lits| && HasIndex(lits[i], single) && lits[i].fid == f
  }

  function InsertField(s: seq<U32>, f: U32): seq<U32> {
    if s == [] || f < s[0] then [f] + s
    else if f == s[0] then s
    else [s[0]] + InsertField(s[1..], f)
  }

  lemma {:induction false} InsertFieldMembers(s: seq<U32>, f: U32)
    ensures forall x :: x in InsertField(s, f) <==> x in s || x == f
  {
    if s != [] && f > s[0] {
      InsertFieldMembers(s[1..], f);
      assert s == [s[0]] + s[1..];
    }
  }

  /** Indexed fields of the clause, sorted and without repetition. */
  method CandidateFields(lits: Clause, single: seq<U32>) returns (fields: seq<U32>)
    ensures forall f :: f in fields <==> IsCandidate(lits, single, f)
  {
    fields := [];
    var i := 0;
    while i < |lits|
      invariant 0 <= i <= |lits|
      invariant forall f :: f in fields <==> exists j :: 0 <= j < i && HasIndex(lits[j], single) && lits[j].fid == f
    {
      if HasIndex(lits[i], single) {
        InsertFieldMembers(fields, lits[i].fid);
        fields := InsertField(fields, lits[i].fid);
      }
      i := i + 1;
    }
  }

  ghost function CandidateOf(lits: Clause, f: U32): Candidate {
    var (lower, upper) := Merged(lits, f);
    Candidate(f, FieldShape(lits, f, lower, upper), lower, upper)
  }

  /** `best` is cheaper than the candidates of all other fields. */
  ghost predicate Cheapest(best: Candidate, lits: Clause, fields: seq<U32>) {
    forall f :: f in fields && f != best.fid ==> Cheaper(best, CandidateOf(lits, f))
  }

  lemma CheapestMore(best: Candidate, lits: Clause, fields: seq<U32>, f: U32)
    requires Cheapest(best, lits, fields) && best == CandidateOf(lits, best.fid)
    ensures var cand := CandidateOf(lits, f);
      Cheapest(if Cheaper(cand, best) then cand else best, lits, fields + [f])
  {
    var cand := CandidateOf(lits, f);
    var next := if Cheaper(cand, best) then cand else best;
    forall g | g in fields + [f] && g != next.fid ensures Cheaper(next, CandidateOf(lits, g)) {
      InSnoc(fields, f, g);
      if g == f || g == best.fid {
        CheaperIsTotal(best, cand);
      } else if Cheaper(cand, best) {
        assert g in fields && g != best.fid;
        CheaperTransitive(cand, best, CandidateOf(lits, g));
      }
    }
  }

  /** No indexed field, or the one that is cheaper than all others. */
  ghost predicate BestField(lits: Clause, single: seq<U32>, r: Option<U32>) {
    match r
    case None => forall f :: !IsCandidate(lits, single, f)
    case Some(best) => IsCandidate(lits, single, best) && CheapestOf(lits, single, best)
  }

  ghost predicate CheapestOf(lits: Clause, single: seq<U32>, best: U32) {
    forall f :: IsCandidate(lits, single, f) && f != best ==> Cheaper(CandidateOf(lits, best), CandidateOf(lits, f))
  }

  // ---- the preference, literal by literal ----

  predicate HasEquality(lits: Clause, f: U32) {
    exists i :: 0 <= i < |lits| && On(lits[i], f) && lits[i].cmp == CmpEq
  }

  predicate BoundedBelow(lits: Clause, f: U32) {
    exists i :: 0 <= i < |lits| && On(lits[i], f) && !LowerOf(lits[i]).Unbounded?
  }

  predicate BoundedAbove(lits: Clause, f: U32) {
    exists i :: 0 <= i < |lits| && On(lits[i], f) && !UpperOf(lits[i]).Unbounded?
  }

  predicate BoundedBoth(lits: Clause, f: U32) {
    BoundedBelow(lits, f) && BoundedAbove(lits, f)
  }

  /** An equality comes before a range, a range with both ends before one with one; then the
      higher lower bound, the lower upper bound, and the smaller field id. */
  predicate Preferred(lits: Clause, a: U32, b: U32) {
    if HasEquality(lits, a) != HasEquality(lits, b) then HasEquality(lits, a)
    else if !HasEquality(lits, a) && BoundedBoth(lits, a) != BoundedBoth(lits, b) then BoundedBoth(lits, a)
    else if Higher(Merged(lits, a).0, Merged(lits, b).0) then true
    else if Higher(Merged(lits, b).0, Merged(lits, a).0) then false
    else if Lower(Merged(lits, a).1, Merged(lits, b).1) then true
    else if Lower(Merged(lits, b).1, Merged(lits, a).1) then false
    else a < b
  }

  predicate Higher(a: Bound, b: Bound) {
    !a.Unbounded? && (b.Unbounded? || ValueCmp(a.v, b.v) == Gt
      || (ValueCmp(a.v, b.v) == Eq && a.Inclusive? && b.Exclusive?))
  }

  predicate Lower(a: Bound, b: Bound) {
    !a.Unbounded? && (b.Unbounded? || ValueCmp(a.v, b.v) == Lt
      || (ValueCmp(a.v, b.v) == Eq && a.Exclusive? && b.Inclusive?))
  }

  lemma MergedEnds(lits: Clause, f: U32)
    ensures !Merged(lits, f).0.Unbounded? <==> BoundedBelow(lits, f)
    ensures !Merged(lits, f).1.Unbounded? <==> BoundedAbove(lits, f)
  {
    MergedAttained(lits, f);
    if BoundedBelow(lits, f) {
      var i :| 0 <= i < |lits| && On(lits[i], f) && !LowerOf(lits[i]).Unbounded?;
      MergedDominates(lits, f, i);
    }
    if BoundedAbove(lits, f) {
      var i :| 0 <= i < |lits| && On(lits[i], f) && !UpperOf(lits[i]).Unbounded?;
      MergedDominates(lits, f, i);
    }
  }

  lemma BoundsAsymmetric(a: Bound, b: Bound)
    ensures !(Higher(a, b) && Higher(b, a)) && !(Lower(a, b) && Lower(b, a))
  {
    if !a.Unbounded? && !b.Unbounded? {
      CmpFlips(a.v, b.v);
    }
  }

  /** The cost comparison is that preference. */
  lemma CheaperMeans(lits: Clause, a: U32, b: U32)
    ensures Cheaper(CandidateOf(lits, a), CandidateOf(lits, b)) <==> Preferred(lits, a, b)
  {
    MergedEnds(lits, a);
    MergedEnds(lits, b);
    BoundsAsymmetric(Merged(lits, a).0, Merged(lits, b).0);
    BoundsAsymmetric(Merged(lits, a).1, Merged(lits, b).1);
  }

  /** `pick_index_field_cost` (src/query/planner.rs:184-225): an indexed field whenever there
      is one, the one that is cheaper than all others. */
  method PickIndexField(lits: Clause, single: seq<U32>) returns (r: Option<U32>)
    ensures BestField(lits, single, r)
    ensures r.Some? ==> forall f :: IsCandidate(lits, single, f) && f != r.value ==> Preferred(lits, r.value, f)
  {
    var fields := CandidateFields(lits, single);
    var best: Option<Candidate> := None;
    var i := 0;
    while i < |fields|
      invariant 0 <= i <= |fields| && (best.None? <==> i == 0)
      invariant best.Some? ==> best.value.fid in fields && best.value == CandidateOf(lits, best.value.fid)
      invariant best.Some? ==> Cheapest(best.value, lits, fields[..i])
    {
      var lower, upper := MergeBounds(lits, fields[i]);
      var cand := Candidate(fields[i], FieldShape(lits, fields[i], lower, upper), lower, upper);
      TakeNext(fields, i);
      if best.Some? {
        CheapestMore(best.value, lits, fields[..i], fields[i]);
      }
      if best.None? || Cheaper(cand, best.value) {
        best := Some(cand);
      }
      i := i + 1;
    }
    if best.None? {
      assert forall f :: f !in fields;
      return None;
    }
    TakeNext(fields, i);
    forall f | IsCandidate(lits, single, f) && f != best.value.fid ensures Preferred(lits, best.value.fid, f) {
      CheaperMeans(lits, best.value.fid, f);
    }
    return Some(best.value.fid);
  }

  // ---- choosing a composite index ----

  /** The first index-servable literal on the field. */
  function FirstOn(lits: Clause, f: U32): (r: Option<Lit>)
    ensures r.Some? ==> On(r.value, f) && r.value in lits
    ensures r.Some? ==> exists i :: IsFirstOn(lits, f, i) && lits[i] == r.value
    ensures r.None? ==> forall i :: 0 <= i < |lits| ==> !On(lits[i], f)
  {
    if lits == [] then None
    else if On(lits[0], f) then
      assert IsFirstOn(lits, f, 0);
      Some(lits[0])
    else
      var r := FirstOn(lits[1..], f);
      assert r.None? ==> forall i :: 0 < i < |lits| ==> lits[i] == lits[1..][i - 1];
      assert forall i :: IsFirstOn(lits[1..], f, i) ==> IsFirstOn(lits, f, i + 1) && lits[i + 1] == lits[1..][i];
      r
  }

  predicate IsFirstOn(lits: Clause, f: U32, i: int) {
    0 <= i < |lits| && On(lits[i], f) && forall j :: 0 <= j < i ==> !On(lits[j], f)
  }

  /** The bound leading components from position `pos` on. A component without a literal
      ends them, one with a range is the last. */
  function Leading(lits: Clause, fids: seq<U32>, pos: nat): (leads: seq<Lead>)
    requires pos <= |fids|
    ensures |leads| <= |fids| - pos
    decreases |fids| - pos
  {
    if pos == |fids| then []
    else
      var l := FirstOn(lits, fids[pos]);
      if l.None? then []
      else
        [LeadAt(lits, fids, pos)] + if l.value.cmp != CmpEq then [] else Leading(lits, fids, pos + 1)
  }

  /** The component at a position, from the merged bounds of its field. */
  function LeadAt(lits: Clause, fids: seq<U32>, pos: nat): Lead
    requires pos < |fids|
  {
    Lead(pos, Merged(lits, fids[pos]).0, Merged(lits, fids[pos]).1)
  }

  /** Some literal on the field can be served by an index. */
  predicate Bounded(lits: Clause, f: U32) {
    exists i :: 0 <= i < |lits| && On(lits[i], f)
  }

  /** The first literal on the field is an equality. */
  ghost predicate FixedFirst(lits: Clause, f: U32) {
    exists i :: IsFirstOn(lits, f, i) && lits[i].cmp == CmpEq
  }

  lemma FirstOnMeans(lits: Clause, f: U32)
    ensures FirstOn(lits, f).Some? <==> Bounded(lits, f)
    ensures FirstOn(lits, f).Some? ==> (FirstOn(lits, f).value.cmp == CmpEq <==> FixedFirst(lits, f))
  {
    var r := FirstOn(lits, f);
    if r.Some? {
      var i :| IsFirstOn(lits, f, i) && lits[i] == r.value;
      forall j | IsFirstOn(lits, f, j) ensures j == i {
      }
    }
  }

  /** From `pos` to `n` all fields are bounded, all but the last fixed, and the list ends
      there or cannot go on. */
  ghost predicate Longest(lits: Clause, fids: seq<U32>, pos: nat, n: nat) {
    && pos <= n <= |fids|
    && (forall i :: pos <= i < n ==> Bounded(lits, fids[i]))
    && (forall i :: pos <= i < n - 1 ==> FixedFirst(lits, fids[i]))
    && (n == |fids| || !Bounded(lits, fids[n]) || (n > pos && !FixedFirst(lits, fids[n - 1])))
  }

  lemma LongestCons(lits: Clause, fids: seq<U32>, pos: nat, n: nat)
    requires pos < |fids| && Bounded(lits, fids[pos]) && FixedFirst(lits, fids[pos]) && Longest(lits, fids, pos + 1, n)
    ensures Longest(lits, fids, pos, n)
  {
  }

  lemma LongestNone(lits: Clause, fids: seq<U32>, pos: nat, n: nat)
    requires n == pos <= |fids| && (pos == |fids| || !Bounded(lits, fids[pos]))
    ensures Longest(lits, fids, pos, n)
  {
  }

  lemma LongestOne(lits: Clause, fids: seq<U32>, pos: nat, n: nat)
    requires n == pos + 1 <= |fids| && Bounded(lits, fids[pos]) && !FixedFirst(lits, fids[pos])
    ensures Longest(lits, fids, pos, n)
  {
  }

  /** How many components are bound, one position further. */
  lemma LeadingCount(lits: Clause, fids: seq<U32>, pos: nat)
    requires pos < |fids|
    ensures |Leading(lits, fids, pos)| ==
      if !Bounded(lits, fids[pos]) then 0
      else if !FixedFirst(lits, fids[pos]) then 1 else 1 + |Leading(lits, fids, pos + 1)|
  {
    FirstOnMeans(lits, fids[pos]);
  }

  /** The bound components are the longest beginning of the field list in which all fields
      are bounded and all but the last fixed by an equality. */
  lemma {:induction false} LeadingMeans(lits: Clause, fids: seq<U32>, pos: nat, n: nat)
    requires pos <= |fids| && n == pos + |Leading(lits, fids, pos)|
    ensures Longest(lits, fids, pos, n)
    decreases |fids| - pos
  {
    if pos == |fids| {
      LongestNone(lits, fids, pos, n);
    } else {
      LeadingCount(lits, fids, pos);
      if !Bounded(lits, fids[pos]) {
        LongestNone(lits, fids, pos, n);
      } else if !FixedFirst(lits, fids[pos]) {
        LongestOne(lits, fids, pos, n);
      } else {
        LeadingMeans(lits, fids, pos + 1, n);
        LongestCons(lits, fids, pos, n);
      }
    }
  }

  method LeadingOf(lits: Clause, fids: seq<U32>) returns (leads: seq<Lead>)
    ensures leads == Leading(lits, fids, 0)
  {
    leads := [];
    var pos := 0;
    ghost var all := Leading(lits, fids, 0);
    while pos < |fids|
      invariant 0 <= pos <= |fids| && all == leads + Leading(lits, fids, pos)
    {
      var l := FirstOn(lits, fids[pos]);
      if l.None? {
        return;
      }
      var lower, upper := MergeBounds(lits, fids[pos]);
      var lead := Lead(pos, lower, upper);
      Assoc(leads, [lead], if l.value.cmp != CmpEq then [] else Leading(lits, fids, pos + 1));
      leads := leads + [lead];
      if l.value.cmp != CmpEq {
        return;
      }
      pos := pos + 1;
    }
  }

  /** Lexicographic order of the field lists, as the tie-break. */
  predicate FieldsLess(a: seq<U32>, b: seq<U32>) {
    b != [] && (a == [] || a[0] < b[0] || (a[0] == b[0] && FieldsLess(a[1..], b[1..])))
  }

  lemma {:induction false} FieldsLessTransitive(a: seq<U32>, b: seq<U32>, c: seq<U32>)
    requires FieldsLess(a, b) && FieldsLess(b, c)
    ensures FieldsLess(a, c)
  {
    if a != [] && a[0] == b[0] == c[0] {
      FieldsLessTransitive(a[1..], b[1..], c[1..]);
    }
  }

  lemma {:induction false} FieldsLessTotal(a: seq<U32>, b: seq<U32>)
    ensures FieldsLess(a, b) || a == b || FieldsLess(b, a)
  {
    if a != [] && b != [] && a[0] == b[0] {
      FieldsLessTotal(a[1..], b[1..]);
      assert a == [a[0]] + a[1..] && b == [b[0]] + b[1..];
    }
  }

  type Usable = (CompDef, seq<Lead>)

  /** More bound components, then the smaller field list. */
  predicate BindsMore(a: Usable, b: Usable) {
    |a.1| > |b.1| || (|a.1| == |b.1| && FieldsLess(a.0.fids, b.0.fids))
  }

  lemma BindsMoreTransitive(a: Usable, b: Usable, c: Usable)
    requires BindsMore(a, b) && BindsMore(b, c)
    ensures BindsMore(a, c)
  {
    if FieldsLess(a.0.fids, b.0.fids) && FieldsLess(b.0.fids, c.0.fids) {
      FieldsLessTransitive(a.0.fids, b.0.fids, c.0.fids);
    }
  }

  ghost function UsableOf(lits: Clause, d: CompDef): Usable {
    (d, Leading(lits, d.fids, 0))
  }

  /** No usable index, or one that binds more than all with other fields. */
  ghost predicate BestOf(lits: Clause, comps: seq<CompDef>, r: Option<Usable>) {
    match r
    case None => forall d :: d in comps ==> Leading(lits, d.fids, 0) == []
    case Some(best) => best.0 in comps && best == UsableOf(lits, best.0) && best.1 != [] && BeatsAll(lits, comps, best)
  }

  ghost predicate BeatsAll(lits: Clause, comps: seq<CompDef>, best: Usable) {
    forall d :: d in comps && d.fids != best.0.fids && Leading(lits, d.fids, 0) != [] ==> BindsMore(best, UsableOf(lits, d))
  }

  lemma BestOfMore(lits: Clause, comps: seq<CompDef>, r: Option<Usable>, d: CompDef)
    requires BestOf(lits, comps, r)
    ensures var u := UsableOf(lits, d);
      BestOf(lits, comps + [d], if u.1 != [] && (r.None? || BindsMore(u, r.value)) then Some(u) else r)
  {
    var u := UsableOf(lits, d);
    var next := if u.1 != [] && (r.None? || BindsMore(u, r.value)) then Some(u) else r;
    forall e ensures e in comps + [d] <==> e in comps || e == d {
      InSnoc(comps, d, e);
    }
    if next.Some? {
      forall e | e in comps + [d] && e.fids != next.value.0.fids && Leading(lits, e.fids, 0) != []
        ensures BindsMore(next.value, UsableOf(lits, e))
      {
        if r.Some? {
          BetterStays(lits, r.value, u, e);
        }
      }
    }
  }

  /** The better of the best and a new index still beats whatever the best beats. */
  lemma BetterStays(lits: Clause, best: Usable, u: Usable, e: CompDef)
    requires best == UsableOf(lits, best.0) && u == UsableOf(lits, u.0)
    requires e == u.0 || (e.fids != best.0.fids ==> BindsMore(best, UsableOf(lits, e)))
    ensures BindsMore(u, best) && e.fids != u.0.fids ==> BindsMore(u, UsableOf(lits, e))
    ensures !BindsMore(u, best) && e.fids != best.0.fids ==> BindsMore(best, UsableOf(lits, e))
  {
    FieldsLessTotal(u.0.fids, best.0.fids);
    if BindsMore(u, best) && e != u.0 && e.fids != best.0.fids {
      BindsMoreTransitive(u, best, UsableOf(lits, e));
    }
  }

  /** The first position at which the lists differ decides, or the shorter one comes first. */
  predicate ListedBefore(a: seq<U32>, b: seq<U32>) {
    exists k :: 0 <= k <= |a| && k < |b| && Agree(a, b, k) && (k == |a| || a[k] < b[k])
  }

  predicate Agree(a: seq<U32>, b: seq<U32>, k: nat)
    requires k <= |a| && k <= |b|
  {
    forall i :: 0 <= i < k ==> a[i] == b[i]
  }

  lemma {:induction false} LessIsListed(a: seq<U32>, b: seq<U32>)
    requires FieldsLess(a, b)
    ensures ListedBefore(a, b)
  {
    if a == [] || a[0] != b[0] {
      assert Agree(a, b, 0);
    } else {
      LessIsListed(a[1..], b[1..]);
      var k :| 0 <= k <= |a[1..]| && k < |b[1..]| && Agree(a[1..], b[1..], k) && (k == |a[1..]| || a[1..][k] < b[1..][k]);
      forall i | 0 <= i < k + 1 ensures a[i] == b[i] {
        assert i > 0 ==> a[1..][i - 1] == b[1..][i - 1];
      }
      assert Agree(a, b, k + 1);
    }
  }

  lemma {:induction false} ListedIsLess(a: seq<U32>, b: seq<U32>)
    requires ListedBefore(a, b)
    ensures FieldsLess(a, b)
  {
    var k :| 0 <= k <= |a| && k < |b| && Agree(a, b, k) && (k == |a| || a[k] < b[k]);
    if k > 0 {
      assert a[0] == b[0];
      assert Agree(a[1..], b[1..], k - 1);
      ListedIsLess(a[1..], b[1..]);
    }
  }

  /** It binds more components than the other index, or as many with the smaller field list. */
  predicate BindsFirst(best: Usable, fids: seq<U32>, bound: nat) {
    |best.1| > bound || (|best.1| == bound && ListedBefore(best.0.fids, fids))
  }

  /** `pick_composite_index` (src/query/planner.rs:354-410): an index with a bound leading
      component whenever there is one, the one that binds most, field lists breaking ties. */
  method PickComposite(lits: Clause, comps: seq<CompDef>) returns (r: Option<Usable>)
    ensures BestOf(lits, comps, r)
    ensures r.Some? ==> forall d :: d in comps && d.fids != r.value.0.fids && Leading(lits, d.fids, 0) != [] ==>
      BindsFirst(r.value, d.fids, |Leading(lits, d.fids, 0)|)
  {
    r := None;
    var i := 0;
    while i < |comps|
      invariant 0 <= i <= |comps| && BestOf(lits, comps[..i], r)
    {
      var d := comps[i];
      var leads := LeadingOf(lits, d.fids);
      BestOfMore(lits, comps[..i], r, d);
      TakeNext(comps, i);
      if leads != [] && (r.None? || BindsMore((d, leads), r.value)) {
        r := Some((d, leads));
      }
      i := i + 1;
    }
    TakeNext(comps, i);
    if r.Some? {
      forall d | d in comps && d.fids != r.value.0.fids && Leading(lits, d.fids, 0) != []
        ensures BindsFirst(r.value, d.fids, |Leading(lits, d.fids, 0)|)
      {
        if FieldsLess(r.value.0.fids, d.fids) {
          LessIsListed(r.value.0.fids, d.fids);
        }
      }
    }
  }
}
