/** The manifest of src/manifest.rs: which tables are live, and the key ranges of the
    level-1 segments. */
module ManifestModel {
  import opened Std
  import opened Bytes

  /** Key range of one level-1 table, both ends inclusive. */
  datatype SegmentMeta = SegmentMeta(fileId: nat, minKey: ByteString, maxKey: ByteString, records: nat)

  datatype Manifest = Manifest(l0: seq<nat>, segments: seq<SegmentMeta>, nextId: nat)

  function SegmentIds(segs: seq<SegmentMeta>): (ids: seq<nat>)
    ensures |ids| == |segs| && forall i :: 0 <= i < |ids| ==> ids[i] == segs[i].fileId
  {
    seq(|segs|, i requires 0 <= i < |segs| => segs[i].fileId)
  }

  function AllIds(m: Manifest): seq<nat> {
    m.l0 + SegmentIds(m.segments)
  }

  predicate Distinct<T(==)>(s: seq<T>) {
    forall i, j :: 0 <= i < j < |s| ==> s[i] != s[j]
  }

  /** Strictly sorted and pairwise disjoint, every range nonempty. */
  predicate SegmentsOk(segs: seq<SegmentMeta>) {
    && (forall i :: 0 <= i < |segs| ==> AtMost(segs[i].minKey, segs[i].maxKey))
    && (forall i, j :: 0 <= i < j < |segs| ==> Less(segs[i].maxKey, segs[j].minKey))
  }

  // ---- validation ----

  /** What the sliding window of `validate` looks at. */
  predicate WindowOk(a: SegmentMeta, b: SegmentMeta) {
    Less(a.minKey, b.minKey) && Less(a.maxKey, b.minKey)
  }

  lemma AtMostThenLess(a: ByteString, b: ByteString, c: ByteString)
    ensures AtMost(a, b) && Less(b, c) ==> Less(a, c)
    ensures Less(a, b) && AtMost(b, c) ==> Less(a, c)
    ensures AtMost(a, b) && AtMost(b, c) ==> AtMost(a, c)
  {
    LessTotal(a, b);
    LessTotal(b, c);
    if Less(a, b) && Less(b, c) {
      LessTransitive(a, b, c);
    }
    if AtMost(a, b) && AtMost(b, c) && Less(c, a) {
      if Less(a, b) {
        LessTransitive(c, a, b);
      }
    }
  }

  /** Neighbours in order make the whole list disjoint. */
  lemma {:induction false} WindowsSuffice(segs: seq<SegmentMeta>, i: nat, j: nat)
    requires i < j < |segs|
    requires forall k :: 0 <= k < |segs| ==> AtMost(segs[k].minKey, segs[k].maxKey)
    requires forall k :: 0 <= k < |segs| - 1 ==> WindowOk(segs[k], segs[k + 1])
    ensures Less(segs[i].maxKey, segs[j].minKey)
    decreases j - i
  {
    assert WindowOk(segs[j - 1], segs[j]);
    if i + 1 < j {
      WindowsSuffice(segs, i, j - 1);
      LessTransitive(segs[i].maxKey, segs[j - 1].minKey, segs[j].minKey);
    }
  }

  function InsertId(s: seq<nat>, x: nat): seq<nat> {
    if s == [] || x <= s[0] then [x] + s else [s[0]] + InsertId(s[1..], x)
  }

  function SortIds(s: seq<nat>): seq<nat> {
    if s == [] then [] else InsertId(SortIds(s[1..]), s[0])
  }

  ghost predicate Ascending(s: seq<nat>) {
    forall i, j :: 0 <= i < j < |s| ==> s[i] <= s[j]
  }

  lemma {:induction false} InsertIdKeeps(s: seq<nat>, x: nat)
    ensures multiset(InsertId(s, x)) == multiset(s) + multiset{x}
    ensures forall y :: y in InsertId(s, x) ==> y == x || y in s
  {
    if s != [] && x > s[0] {
      InsertIdKeeps(s[1..], x);
      assert s == [s[0]] + s[1..];
    }
  }

  lemma {:induction false} InsertIdAscends(s: seq<nat>, x: nat)
    requires Ascending(s)
    ensures Ascending(InsertId(s, x))
  {
    if s != [] && x > s[0] {
      InsertIdAscends(s[1..], x);
      InsertIdKeeps(s[1..], x);
      var t := InsertId(s[1..], x);
      forall i | 0 <= i < |t| ensures s[0] <= t[i] {
        assert t[i] in t;
      }
    }
  }

  lemma {:induction false} SortIdsOk(s: seq<nat>)
    ensures Ascending(SortIds(s)) && multiset(SortIds(s)) == multiset(s)
  {
    if s != [] {
      SortIdsOk(s[1..]);
      InsertIdKeeps(SortIds(s[1..]), s[0]);
      InsertIdAscends(SortIds(s[1..]), s[0]);
      assert s == [s[0]] + s[1..];
    }
  }

  /** Distinctness is a property of the multiset, so sorting keeps it. */
  lemma {:induction false} DistinctIsMultiset(s: seq<nat>)
    ensures Distinct(s) <==> forall x :: multiset(s)[x] <= 1
  {
    if s != [] {
      var rest := s[1..];
      assert s == [s[0]] + rest;
      DistinctIsMultiset(rest);
      if Distinct(s) {
        assert Distinct(rest);
        assert s[0] !in rest;
        forall x ensures multiset(s)[x] <= 1 {
          assert multiset(rest)[x] <= 1;
        }
      } else {
        var i, j :| 0 <= i < j < |s| && s[i] == s[j];
        if i == 0 {
          assert s[j] == rest[j - 1];
          assert s[0] in multiset(rest);
          assert multiset(s)[s[0]] > 1;
        } else {
          assert rest[i - 1] == rest[j - 1];
          assert !Distinct(rest);
          var x :| multiset(rest)[x] > 1;
          assert multiset(s)[x] > 1;
        }
      }
    }
  }

  lemma SortedDuplicates(s: seq<nat>, t: seq<nat>)
    requires Ascending(t) && multiset(t) == multiset(s)
    ensures Distinct(s) <==> forall i :: 0 <= i < |t| - 1 ==> t[i] != t[i + 1]
  {
    DistinctIsMultiset(s);
    DistinctIsMultiset(t);
    if forall i :: 0 <= i < |t| - 1 ==> t[i] != t[i + 1] {
      forall i, j | 0 <= i < j < |t| ensures t[i] != t[j] {
        assert t[i] != t[i + 1];
      }
    }
  }

  /** Accepts a manifest exactly when its segments are strictly sorted, disjoint and
      nonempty ranges and no table id occurs twice (src/manifest.rs:69-96). */
  method Validate(m: Manifest) returns (r: Result<()>)
    ensures r.Ok? <==> SegmentsOk(m.segments) && Distinct(AllIds(m))
    ensures r.Err? ==> r.error == InvalidFormat
  {
    var segs := m.segments;
    var i := 0;
    while i + 1 < |segs|
      invariant 0 <= i && (i == 0 || i < |segs|)
      invariant forall k :: 0 <= k < i ==> WindowOk(segs[k], segs[k + 1])
    {
      if AtMost(segs[i + 1].minKey, segs[i].minKey) || AtMost(segs[i + 1].minKey, segs[i].maxKey) {
        if SegmentsOk(segs) {
          AtMostThenLess(segs[i].minKey, segs[i].maxKey, segs[i + 1].minKey);
          assert false;
        }
        return Err(InvalidFormat);
      }
      i := i + 1;
    }
    var j := 0;
    while j < |segs|
      invariant 0 <= j <= |segs|
      invariant forall k :: 0 <= k < j ==> AtMost(segs[k].minKey, segs[k].maxKey)
    {
      if Less(segs[j].maxKey, segs[j].minKey) {
        return Err(InvalidFormat);
      }
      j := j + 1;
    }
    forall a, b | 0 <= a < b < |segs| ensures Less(segs[a].maxKey, segs[b].minKey) {
      WindowsSuffice(segs, a, b);
    }
    var seen := SortIds(AllIds(m));
    SortIdsOk(AllIds(m));
    SortedDuplicates(AllIds(m), seen);
    var k := 0;
    while k + 1 < |seen|
      invariant 0 <= k && (k == 0 || k < |seen|)
      invariant forall x :: 0 <= x < k ==> seen[x] != seen[x + 1]
    {
      if seen[k] == seen[k + 1] {
        return Err(InvalidFormat);
      }
      k := k + 1;
    }
    return Ok(());
  }

  // ---- sorting segments ----

  predicate Apart(a: SegmentMeta, b: SegmentMeta) {
    Less(a.maxKey, b.minKey) || Less(b.maxKey, a.minKey)
  }

  /** Disjoint ranges in any order. */
  predicate PairwiseApart(segs: seq<SegmentMeta>) {
    && (forall i :: 0 <= i < |segs| ==> AtMost(segs[i].minKey, segs[i].maxKey))
    && (forall i, j :: 0 <= i < j < |segs| ==> Apart(segs[i], segs[j]))
  }

  function InsertSegment(segs: seq<SegmentMeta>, s: SegmentMeta): seq<SegmentMeta> {
    if segs == [] || Less(s.minKey, segs[0].minKey) then [s] + segs
    else [segs[0]] + InsertSegment(segs[1..], s)
  }

  /** `sort_unstable_by` on the minimum key. */
  function SortSegments(segs: seq<SegmentMeta>): seq<SegmentMeta> {
    if segs == [] then [] else InsertSegment(SortSegments(segs[1..]), segs[0])
  }

  /** A range that starts before an ordered list and misses it lies before all of it. */
  lemma InFront(segs: seq<SegmentMeta>, s: SegmentMeta)
    requires SegmentsOk(segs) && AtMost(s.minKey, s.maxKey) && segs != []
    requires Apart(s, segs[0]) && Less(s.minKey, segs[0].minKey)
    ensures SegmentsOk([s] + segs)
  {
    AtMostThenLess(segs[0].minKey, segs[0].maxKey, s.minKey);
    if Less(segs[0].minKey, s.minKey) {
      LessTransitive(s.minKey, segs[0].minKey, s.minKey);
      LessIrreflexive(s.minKey);
    }
    forall j | 0 <= j < |segs| ensures Less(s.maxKey, segs[j].minKey) {
      if j > 0 {
        AtMostThenLess(segs[0].minKey, segs[0].maxKey, segs[j].minKey);
        LessTransitive(s.maxKey, segs[0].minKey, segs[j].minKey);
      }
    }
  }

  lemma SegmentsCons(s: SegmentMeta, segs: seq<SegmentMeta>)
    requires SegmentsOk(segs) && AtMost(s.minKey, s.maxKey)
    requires forall x :: x in segs ==> Less(s.maxKey, x.minKey)
    ensures SegmentsOk([s] + segs)
  {
  }

  lemma {:induction false} InsertSegmentMembers(segs: seq<SegmentMeta>, s: SegmentMeta)
    ensures multiset(InsertSegment(segs, s)) == multiset(segs) + multiset{s}
    ensures forall x :: x in InsertSegment(segs, s) ==> x == s || x in segs
  {
    if segs != [] && !Less(s.minKey, segs[0].minKey) {
      assert segs == [segs[0]] + segs[1..];
      InsertSegmentMembers(segs[1..], s);
    }
  }

  lemma {:induction false} InsertSegmentOk(segs: seq<SegmentMeta>, s: SegmentMeta)
    requires SegmentsOk(segs) && AtMost(s.minKey, s.maxKey)
    requires forall x :: x in segs ==> Apart(s, x)
    ensures SegmentsOk(InsertSegment(segs, s))
  {
    if segs == [] {
    } else if Less(s.minKey, segs[0].minKey) {
      InFront(segs, s);
    } else {
      var rest := segs[1..];
      AtMostThenLess(s.minKey, s.maxKey, segs[0].minKey);
      InsertSegmentOk(rest, s);
      InsertSegmentMembers(rest, s);
      SegmentsCons(segs[0], InsertSegment(rest, s));
    }
  }

  lemma FirstApart(segs: seq<SegmentMeta>, x: SegmentMeta)
    requires PairwiseApart(segs) && segs != [] && x in segs[1..]
    ensures Apart(segs[0], x)
  {
    var i :| 0 <= i < |segs[1..]| && segs[1..][i] == x;
    assert segs[i + 1] == x;
  }

  lemma {:induction false} SortSegmentsOk(segs: seq<SegmentMeta>)
    requires PairwiseApart(segs)
    ensures SegmentsOk(SortSegments(segs)) && multiset(SortSegments(segs)) == multiset(segs)
  {
    if segs != [] {
      var rest := segs[1..];
      assert segs == [segs[0]] + rest;
      SortSegmentsOk(rest);
      forall x | x in SortSegments(rest) ensures Apart(segs[0], x) {
        assert x in multiset(rest);
        FirstApart(segs, x);
      }
      InsertSegmentOk(SortSegments(rest), segs[0]);
      InsertSegmentMembers(SortSegments(rest), segs[0]);
    }
  }
}
