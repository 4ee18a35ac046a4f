/** Tables and manifest together denote one map: level-0 tables newest first, over the
    disjoint segments of level 1. This module states what flush and compaction do to it. */
module Layers {
  import opened Bytes
  import opened Records
  import opened ManifestModel

  /** The table files on disk, by id. */
  type Tables = map<nat, seq<Record>>

  function TableMap(tables: Tables, id: nat): EntryMap {
    if id in tables then AsMap(tables[id]) else map[]
  }

  function MapsOf(tables: Tables, ids: seq<nat>): (ms: seq<EntryMap>)
    ensures |ms| == |ids| && forall i :: 0 <= i < |ms| ==> ms[i] == TableMap(tables, ids[i])
  {
    seq(|ids|, i requires 0 <= i < |ids| => TableMap(tables, ids[i]))
  }

  function Reverse<T>(s: seq<T>): (r: seq<T>)
    ensures |r| == |s| && forall i :: 0 <= i < |r| ==> r[i] == s[|s| - 1 - i]
  {
    seq(|s|, i requires 0 <= i < |s| => s[|s| - 1 - i])
  }

  /** All live tables, newest first; the order of the segments is immaterial. */
  function NewestFirst(m: Manifest): seq<nat> {
    Reverse(m.l0) + SegmentIds(m.segments)
  }

  /** The entries the tables hold, tombstones included. */
  function Base(tables: Tables, m: Manifest): EntryMap {
    Overlay(MapsOf(tables, NewestFirst(m)))
  }

  /** What a list of segments holds. */
  function Level(tables: Tables, segs: seq<SegmentMeta>): EntryMap {
    Overlay(MapsOf(tables, SegmentIds(segs)))
  }

  /** What the level-0 tables hold, the last of the list being the newest. */
  function Batch(tables: Tables, l0: seq<nat>): EntryMap {
    Overlay(MapsOf(tables, Reverse(l0)))
  }

  lemma LevelConcat(tables: Tables, a: seq<SegmentMeta>, b: seq<SegmentMeta>)
    ensures Level(tables, a + b) == Level(tables, b) + Level(tables, a)
  {
    assert SegmentIds(a + b) == SegmentIds(a) + SegmentIds(b);
    MapsOfConcat(tables, SegmentIds(a), SegmentIds(b));
    OverlayConcat(MapsOf(tables, SegmentIds(a)), MapsOf(tables, SegmentIds(b)));
  }

  lemma LevelOne(tables: Tables, s: SegmentMeta)
    ensures Level(tables, [s]) == TableMap(tables, s.fileId)
  {
    assert MapsOf(tables, SegmentIds([s])) == [TableMap(tables, s.fileId)];
    assert [TableMap(tables, s.fileId)][1..] == [];
    assert Overlay([]) + TableMap(tables, s.fileId) == TableMap(tables, s.fileId);
  }

  predicate TableOk(tables: Tables, id: nat) {
    id in tables && tables[id] != [] && Sorted(tables[id])
  }

  predicate SegmentStored(tables: Tables, s: SegmentMeta) {
    && TableOk(tables, s.fileId)
    && s.minKey == tables[s.fileId][0].key
    && s.maxKey == tables[s.fileId][|tables[s.fileId]| - 1].key
    && s.records == |tables[s.fileId]|
  }

  predicate AllStored(tables: Tables, segs: seq<SegmentMeta>) {
    forall s :: s in segs ==> SegmentStored(tables, s)
  }

  /** Every reference of the manifest is to an existing, well-formed table, segments are
      sorted, disjoint and bounded by their tables, and no id is used twice. */
  predicate ManifestOk(tables: Tables, m: Manifest) {
    && (forall id :: id in m.l0 ==> TableOk(tables, id))
    && AllStored(tables, m.segments)
    && SegmentsOk(m.segments)
    && Distinct(AllIds(m))
    && (forall id :: id in AllIds(m) ==> id < m.nextId)
  }

  /** The tables that `m` refers to are the same in both. */
  predicate SameFor(m: Manifest, a: Tables, b: Tables) {
    forall id :: id in AllIds(m) ==> id in a && id in b && a[id] == b[id]
  }

  /** No reference of the manifest points to a missing file. */
  lemma ReferencedExist(tables: Tables, m: Manifest)
    requires ManifestOk(tables, m)
    ensures forall id :: id in AllIds(m) ==> TableOk(tables, id)
  {
    forall id | id in AllIds(m) ensures TableOk(tables, id) {
      if id !in m.l0 {
        var i :| 0 <= i < |AllIds(m)| && AllIds(m)[i] == id;
        assert m.segments[i - |m.l0|] in m.segments;
      }
    }
  }

  lemma FrameBase(m: Manifest, a: Tables, b: Tables)
    requires SameFor(m, a, b)
    ensures Base(a, m) == Base(b, m)
  {
    var ids := NewestFirst(m);
    forall i | 0 <= i < |ids| ensures ids[i] in AllIds(m) {
    }
    assert MapsOf(a, ids) == MapsOf(b, ids);
  }

  lemma FrameOk(m: Manifest, a: Tables, b: Tables)
    requires SameFor(m, a, b) && ManifestOk(a, m)
    ensures ManifestOk(b, m)
  {
    forall id | id in m.l0 ensures TableOk(b, id) {
      assert id in AllIds(m);
    }
    forall s | s in m.segments ensures SegmentStored(b, s) {
      SegmentListed(m, s);
    }
  }

  lemma SegmentListed(m: Manifest, s: SegmentMeta)
    requires s in m.segments
    ensures s.fileId in AllIds(m)
  {
    var i :| 0 <= i < |m.segments| && m.segments[i] == s;
    assert SegmentIds(m.segments)[i] == s.fileId;
    assert AllIds(m)[|m.l0| + i] == s.fileId;
  }

  lemma ReverseSnoc<T>(s: seq<T>, x: T)
    ensures Reverse(s + [x]) == [x] + Reverse(s)
  {
  }

  lemma MapsOfConcat(tables: Tables, a: seq<nat>, b: seq<nat>)
    ensures MapsOf(tables, a + b) == MapsOf(tables, a) + MapsOf(tables, b)
  {
  }

  lemma BaseSplit(tables: Tables, m: Manifest)
    ensures Base(tables, m) ==
      Level(tables, m.segments) + Batch(tables, m.l0)
  {
    MapsOfConcat(tables, Reverse(m.l0), SegmentIds(m.segments));
    OverlayConcat(MapsOf(tables, Reverse(m.l0)), MapsOf(tables, SegmentIds(m.segments)));
  }

  // ---- flush ----

  /** A fresh id keeps all ids distinct and below the next one. */
  lemma FreshId(m: Manifest, id: nat)
    requires Distinct(AllIds(m)) && (forall x :: x in AllIds(m) ==> x < m.nextId) && id == m.nextId
    ensures var m' := Manifest(m.l0 + [id], m.segments, id + 1);
      Distinct(AllIds(m')) && forall x :: x in AllIds(m') ==> x < id + 1
  {
    var m' := Manifest(m.l0 + [id], m.segments, id + 1);
    var ids := SegmentIds(m'.segments);
    assert ids == SegmentIds(m.segments);
    IdInserted(m.l0, SegmentIds(m.segments), id);
    assert AllIds(m') == m.l0 + [id] + SegmentIds(m.segments);
  }

  lemma IdInserted(a: seq<nat>, b: seq<nat>, id: nat)
    requires Distinct(a + b) && forall x :: x in a + b ==> x < id
    ensures Distinct(a + [id] + b) && forall x :: x in a + [id] + b ==> x < id + 1
  {
    var s, t := a + b, a + [id] + b;
    forall i | 0 <= i < |t|
      ensures t[i] == (if i < |a| then s[i] else if i == |a| then id else s[i - 1]) && t[i] < id + 1
      ensures i != |a| ==> t[i] < id
    {
      assert i < |a| ==> s[i] in s;
      assert i > |a| ==> s[i - 1] in s;
    }
    forall i, j | 0 <= i < j < |t| ensures t[i] != t[j] {
      if i != |a| && j != |a| {
        assert s[if i < |a| then i else i - 1] != s[if j < |a| then j else j - 1];
      }
    }
  }

  /** A new newest table overlays everything below it. */
  lemma FlushExtendsBase(tables: Tables, m: Manifest, id: nat, recs: seq<Record>)
    requires ManifestOk(tables, m) && id == m.nextId && recs != [] && Sorted(recs)
    ensures var m' := Manifest(m.l0 + [id], m.segments, id + 1);
      ManifestOk(tables[id := recs], m') && Base(tables[id := recs], m') == Base(tables, m) + AsMap(recs)
  {
    var t' := tables[id := recs];
    ReferencedExist(tables, m);
    FrameBase(m, tables, t');
    FrameOk(m, tables, t');
    FreshId(m, id);
    ReverseSnoc(m.l0, id);
    OverlayNewest(t', id, NewestFirst(m));
    assert Reverse(m.l0 + [id]) + SegmentIds(m.segments) == [id] + NewestFirst(m);
  }

  lemma OverlayNewest(tables: Tables, id: nat, ids: seq<nat>)
    ensures Overlay(MapsOf(tables, [id] + ids)) == Overlay(MapsOf(tables, ids)) + TableMap(tables, id)
  {
    assert MapsOf(tables, [id] + ids)[1..] == MapsOf(tables, ids);
  }

  // ---- segments ----

  /** All keys of a stored table lie in its segment's range. */
  lemma SegmentBounds(tables: Tables, s: SegmentMeta, k: ByteString)
    requires SegmentStored(tables, s) && k in TableMap(tables, s.fileId)
    ensures AtMost(s.minKey, k) && AtMost(k, s.maxKey)
  {
    var t := tables[s.fileId];
    AsMapKeys(t, k);
    var i :| 0 <= i < |t| && t[i].key == k;
    SortedEnds(t, i);
  }

  lemma SortedEnds(t: seq<Record>, i: nat)
    requires Sorted(t) && i < |t|
    ensures AtMost(t[0].key, t[i].key) && AtMost(t[i].key, t[|t| - 1].key)
  {
    LessIrreflexive(t[i].key);
    if i > 0 && Less(t[i].key, t[0].key) {
      LessTransitive(t[0].key, t[i].key, t[0].key);
      LessIrreflexive(t[0].key);
    }
    if i < |t| - 1 && Less(t[|t| - 1].key, t[i].key) {
      LessTransitive(t[i].key, t[|t| - 1].key, t[i].key);
    }
  }

  /** Disjoint segments share no key. */
  lemma ApartShareNothing(tables: Tables, a: SegmentMeta, b: SegmentMeta, k: ByteString)
    requires SegmentStored(tables, a) && SegmentStored(tables, b) && Apart(a, b)
    ensures !(k in TableMap(tables, a.fileId) && k in TableMap(tables, b.fileId))
  {
    if k in TableMap(tables, a.fileId) && k in TableMap(tables, b.fileId) {
      SegmentBounds(tables, a, k);
      SegmentBounds(tables, b, k);
      AtMostThenLess(k, a.maxKey, b.minKey);
      AtMostThenLess(k, b.maxKey, a.minKey);
    }
  }

  /** In a list of disjoint segments the one that has a key decides it. */
  lemma SegmentDecides(tables: Tables, segs: seq<SegmentMeta>, i: nat, k: ByteString)
    requires PairwiseApart(segs) && AllStored(tables, segs)
    requires i < |segs| && k in TableMap(tables, segs[i].fileId)
    ensures k in Level(tables, segs)
    ensures Level(tables, segs)[k] == TableMap(tables, segs[i].fileId)[k]
  {
    forall j | 0 <= j < i ensures k !in MapsOf(tables, SegmentIds(segs))[j] {
      ApartShareNothing(tables, segs[j], segs[i], k);
    }
    OverlayFirstWins(MapsOf(tables, SegmentIds(segs)), i, k);
  }

  lemma SegmentsHave(tables: Tables, segs: seq<SegmentMeta>, k: ByteString) returns (i: nat)
    requires k in Level(tables, segs)
    ensures i < |segs| && k in TableMap(tables, segs[i].fileId)
  {
    OverlayKeys(MapsOf(tables, SegmentIds(segs)), k);
    i :| 0 <= i < |segs| && k in MapsOf(tables, SegmentIds(segs))[i];
  }

  /** Two lists of the same disjoint segments denote the same map, in whatever order. */
  lemma SegmentOrderImmaterial(tables: Tables, a: seq<SegmentMeta>, b: seq<SegmentMeta>)
    requires PairwiseApart(a) && PairwiseApart(b) && AllStored(tables, a)
    requires multiset(a) == multiset(b)
    ensures AllStored(tables, b)
    ensures Level(tables, a) == Level(tables, b)
  {
    SameMembers(a, b);
    SegmentsAgree(tables, a, b);
    SegmentsAgree(tables, b, a);
  }

  lemma SameMembers<T>(a: seq<T>, b: seq<T>)
    requires multiset(a) == multiset(b)
    ensures forall x :: x in a <==> x in b
  {
    forall x ensures x in a <==> x in b {
      assert x in a <==> x in multiset(a);
      assert x in b <==> x in multiset(b);
    }
  }

  lemma SegmentsAgree(tables: Tables, a: seq<SegmentMeta>, b: seq<SegmentMeta>)
    requires PairwiseApart(a) && PairwiseApart(b) && AllStored(tables, a) && AllStored(tables, b)
    requires forall x :: x in a ==> x in b
    ensures forall k :: k in Level(tables, a) ==>
      k in Level(tables, b)
      && Level(tables, a)[k] == Level(tables, b)[k]
  {
    forall k | k in Level(tables, a)
      ensures k in Level(tables, b)
        && Level(tables, a)[k] == Level(tables, b)[k]
    {
      var i := SegmentsHave(tables, a, k);
      assert a[i] in b;
      var j :| 0 <= j < |b| && b[j] == a[i];
      SegmentDecides(tables, a, i, k);
      SegmentDecides(tables, b, j, k);
    }
  }

  lemma OkIsApart(segs: seq<SegmentMeta>)
    requires SegmentsOk(segs)
    ensures PairwiseApart(segs)
  {
  }

  // ---- compaction ----

  /** The overlap test of `compact` against the span of the level-0 batch. */
  predicate Overlaps(s: SegmentMeta, lo: ByteString, hi: ByteString) {
    AtMost(s.minKey, hi) && AtMost(lo, s.maxKey)
  }

  /** The segments that do (or do not) overlap, in order. */
  function Choose(segs: seq<SegmentMeta>, lo: ByteString, hi: ByteString, overlapping: bool): seq<SegmentMeta> {
    if segs == [] then []
    else (if Overlaps(segs[0], lo, hi) == overlapping then [segs[0]] else [])
         + Choose(segs[1..], lo, hi, overlapping)
  }

  lemma {:induction false} ChooseMembers(segs: seq<SegmentMeta>, lo: ByteString, hi: ByteString, overlapping: bool)
    ensures forall s :: s in Choose(segs, lo, hi, overlapping) <==> s in segs && Overlaps(s, lo, hi) == overlapping
  {
    if segs != [] {
      ChooseMembers(segs[1..], lo, hi, overlapping);
      assert segs == [segs[0]] + segs[1..];
    }
  }

  lemma {:induction false} ChooseOk(segs: seq<SegmentMeta>, lo: ByteString, hi: ByteString, overlapping: bool)
    requires SegmentsOk(segs)
    ensures SegmentsOk(Choose(segs, lo, hi, overlapping))
  {
    if segs != [] {
      ChooseOk(segs[1..], lo, hi, overlapping);
      ChooseMembers(segs[1..], lo, hi, overlapping);
      var c := Choose(segs[1..], lo, hi, overlapping);
      forall j | 0 <= j < |c| ensures Less(segs[0].maxKey, c[j].minKey) {
        assert c[j] in segs[1..];
      }
    }
  }

  lemma PartitionCovers(tables: Tables, segs: seq<SegmentMeta>, lo: ByteString, hi: ByteString, k: ByteString)
    requires SegmentsOk(segs) && AllStored(tables, segs) && k in Level(tables, segs)
    ensures k in Level(tables, Choose(segs, lo, hi, false)) || k in Level(tables, Choose(segs, lo, hi, true))
  {
    var i := SegmentsHave(tables, segs, k);
    var part := Choose(segs, lo, hi, Overlaps(segs[i], lo, hi));
    ChooseMembers(segs, lo, hi, Overlaps(segs[i], lo, hi));
    ChooseOk(segs, lo, hi, Overlaps(segs[i], lo, hi));
    assert segs[i] in part;
    var j :| 0 <= j < |part| && part[j] == segs[i];
    SegmentDecides(tables, part, j, k);
  }

  /** The segment level is the overlapping part over the retained part: they share no key. */
  lemma PartitionLevel(tables: Tables, segs: seq<SegmentMeta>, lo: ByteString, hi: ByteString)
    requires SegmentsOk(segs) && AllStored(tables, segs)
    ensures Level(tables, segs) ==
      Level(tables, Choose(segs, lo, hi, false)) + Level(tables, Choose(segs, lo, hi, true))
  {
    var keep, over := Choose(segs, lo, hi, false), Choose(segs, lo, hi, true);
    ChooseOk(segs, lo, hi, false);
    ChooseOk(segs, lo, hi, true);
    ChooseMembers(segs, lo, hi, false);
    ChooseMembers(segs, lo, hi, true);
    SegmentsAgree(tables, keep, segs);
    SegmentsAgree(tables, over, segs);
    forall k | k in Level(tables, segs) ensures k in Level(tables, keep) || k in Level(tables, over) {
      PartitionCovers(tables, segs, lo, hi, k);
    }
  }

  /** All keys of `m` lie on one side of `s`. */
  predicate Misses(s: SegmentMeta, m: EntryMap) {
    (forall k :: k in m ==> Less(s.maxKey, k)) || (forall k :: k in m ==> Less(k, s.minKey))
  }

  /** Every key of the batch lies in [lo, hi]. */
  predicate InSpan(m: EntryMap, lo: ByteString, hi: ByteString) {
    forall k :: k in m ==> AtMost(lo, k) && AtMost(k, hi)
  }

  /** A retained segment misses not only the batch but everything that is merged: an
      overlapping segment cannot reach past it, because both reach the batch span. */
  lemma RetainedMissesMerge(tables: Tables, segs: seq<SegmentMeta>, batch: EntryMap,
                            lo: ByteString, hi: ByteString, s: SegmentMeta)
    requires SegmentsOk(segs) && AllStored(tables, segs) && InSpan(batch, lo, hi)
    requires s in Choose(segs, lo, hi, false)
    ensures Misses(s, Level(tables, Choose(segs, lo, hi, true)) + batch)
  {
    var over := Choose(segs, lo, hi, true);
    var merged := Level(tables, over) + batch;
    ChooseMembers(segs, lo, hi, false);
    if Less(hi, s.minKey) {
      forall k | k in merged ensures Less(k, s.minKey) {
        if k in batch {
          AtMostThenLess(k, hi, s.minKey);
        } else {
          MergedBelow(tables, segs, lo, hi, s, k);
        }
      }
    } else {
      assert Less(s.maxKey, lo);
      forall k | k in merged ensures Less(s.maxKey, k) {
        if k in batch {
          AtMostThenLess(s.maxKey, lo, k);
        } else {
          MergedAbove(tables, segs, lo, hi, s, k);
        }
      }
    }
  }

  lemma MergedBelow(tables: Tables, segs: seq<SegmentMeta>, lo: ByteString, hi: ByteString, s: SegmentMeta, k: ByteString)
    requires SegmentsOk(segs) && AllStored(tables, segs) && s in segs && Less(hi, s.minKey)
    requires k in Level(tables, Choose(segs, lo, hi, true))
    ensures Less(k, s.minKey)
  {
    var over := Choose(segs, lo, hi, true);
    ChooseMembers(segs, lo, hi, true);
    var i :| 0 <= i < |segs| && segs[i] == s;
    var o := SegmentsHave(tables, over, k);
    assert over[o] in segs;
    var j :| 0 <= j < |segs| && segs[j] == over[o];
    SegmentBounds(tables, over[o], k);
    if i < j {
      AtMostThenLess(s.minKey, s.maxKey, segs[j].minKey);
      LessTransitive(hi, s.minKey, segs[j].minKey);
    }
    AtMostThenLess(k, over[o].maxKey, s.minKey);
  }

  lemma MergedAbove(tables: Tables, segs: seq<SegmentMeta>, lo: ByteString, hi: ByteString, s: SegmentMeta, k: ByteString)
    requires SegmentsOk(segs) && AllStored(tables, segs) && s in segs && Less(s.maxKey, lo)
    requires k in Level(tables, Choose(segs, lo, hi, true))
    ensures Less(s.maxKey, k)
  {
    var over := Choose(segs, lo, hi, true);
    ChooseMembers(segs, lo, hi, true);
    var i :| 0 <= i < |segs| && segs[i] == s;
    var o := SegmentsHave(tables, over, k);
    assert over[o] in segs;
    var j :| 0 <= j < |segs| && segs[j] == over[o];
    SegmentBounds(tables, over[o], k);
    if j < i {
      AtMostThenLess(segs[j].maxKey, s.minKey, s.maxKey);
      LessTransitive(segs[j].maxKey, s.maxKey, lo);
    }
    AtMostThenLess(s.maxKey, over[o].minKey, k);
  }

  /** Replacing the overlapping segments and the batch by their merge without tombstones
      leaves what is visible unchanged: nothing below the merge could shine through. */
  lemma DroppingTombstonesIsSafe(keep: EntryMap, over: EntryMap, batch: EntryMap, merged: EntryMap)
    requires merged == Values(over + batch)
    requires forall k :: k in keep ==> k !in over && k !in batch
    ensures Live(keep + merged) == Live(keep + over + batch)
  {
  }

  /** The segments written so far are the chunks of the first records of the merge. */
  predicate ChunksOf(tables: Tables, segs: seq<SegmentMeta>, recs: seq<Record>, firstId: nat, nextId: nat) {
    && AllStored(tables, segs) && SegmentsOk(segs)
    && (recs == [] <==> segs == [])
    && (recs != [] ==> segs[|segs| - 1].maxKey == recs[|recs| - 1].key)
    && firstId + |segs| == nextId
    && (forall i :: 0 <= i < |segs| ==> segs[i].fileId == firstId + i)
    && Level(tables, segs) == AsMap(recs)
  }

  function SegmentFor(id: nat, chunk: seq<Record>): SegmentMeta
    requires chunk != []
  {
    SegmentMeta(id, chunk[0].key, chunk[|chunk| - 1].key, |chunk|)
  }

  lemma ChunkSorted(recs: seq<Record>, chunk: seq<Record>)
    requires Sorted(recs + chunk)
    ensures Sorted(chunk) && (recs != [] && chunk != [] ==> Less(recs[|recs| - 1].key, chunk[0].key))
  {
    forall i, j | 0 <= i < j < |chunk| ensures Less(chunk[i].key, chunk[j].key) {
      assert (recs + chunk)[|recs| + i] == chunk[i] && (recs + chunk)[|recs| + j] == chunk[j];
    }
    if recs != [] && chunk != [] {
      assert (recs + chunk)[|recs| - 1] == recs[|recs| - 1] && (recs + chunk)[|recs|] == chunk[0];
    }
  }

  lemma SegmentsSnoc(segs: seq<SegmentMeta>, s: SegmentMeta)
    requires SegmentsOk(segs) && AtMost(s.minKey, s.maxKey)
    requires segs != [] ==> Less(segs[|segs| - 1].maxKey, s.minKey)
    ensures SegmentsOk(segs + [s])
  {
    forall i | 0 <= i < |segs| ensures Less(segs[i].maxKey, s.minKey) {
      var last := |segs| - 1;
      if i < last {
        AtMostThenLess(segs[last].minKey, segs[last].maxKey, s.minKey);
        LessTransitive(segs[i].maxKey, segs[last].minKey, s.minKey);
      }
    }
  }

  /** Writing a table under an unused id leaves the stored segments as they are. */
  lemma FreshTable(tables: Tables, segs: seq<SegmentMeta>, id: nat, chunk: seq<Record>)
    requires AllStored(tables, segs) && forall i :: 0 <= i < |segs| ==> segs[i].fileId != id
    ensures AllStored(tables[id := chunk], segs)
    ensures Level(tables[id := chunk], segs) == Level(tables, segs)
  {
    forall x | x in segs ensures SegmentStored(tables[id := chunk], x) {
      var i :| 0 <= i < |segs| && segs[i] == x;
    }
    assert MapsOf(tables[id := chunk], SegmentIds(segs)) == MapsOf(tables, SegmentIds(segs));
  }

  lemma ChunkLevel(tables: Tables, segs: seq<SegmentMeta>, recs: seq<Record>, chunk: seq<Record>, id: nat)
    requires AllStored(tables, segs) && (forall i :: 0 <= i < |segs| ==> segs[i].fileId != id)
    requires chunk != [] && Sorted(recs + chunk) && Level(tables, segs) == AsMap(recs)
    ensures Level(tables[id := chunk], segs + [SegmentFor(id, chunk)]) == AsMap(recs + chunk)
  {
    var t', s := tables[id := chunk], SegmentFor(id, chunk);
    FreshTable(tables, segs, id, chunk);
    LevelConcat(t', segs, [s]);
    LevelOne(t', s);
    AsMapConcat(recs, chunk);
  }

  /** One more chunk, written under a fresh id, continues the segments. */
  lemma ChunkAppended(tables: Tables, segs: seq<SegmentMeta>, recs: seq<Record>, chunk: seq<Record>,
                      firstId: nat, id: nat)
    requires ChunksOf(tables, segs, recs, firstId, id) && chunk != [] && Sorted(recs + chunk)
    ensures ChunksOf(tables[id := chunk], segs + [SegmentFor(id, chunk)], recs + chunk, firstId, id + 1)
  {
    ChunkSorted(recs, chunk);
    SortedEnds(chunk, |chunk| - 1);
    SegmentsSnoc(segs, SegmentFor(id, chunk));
    FreshTable(tables, segs, id, chunk);
    ChunkLevel(tables, segs, recs, chunk, id);
  }

  /** What compaction replaces: the level-0 batch and the segments `over`; `keep` stays. */
  ghost predicate Splits(tables: Tables, m: Manifest, keep: seq<SegmentMeta>, over: seq<SegmentMeta>) {
    && SegmentsOk(keep)
    && (forall s :: s in keep ==> s in m.segments)
    && Level(tables, m.segments) ==
       Level(tables, keep) + Level(tables, over)
    && (forall s :: s in keep ==> Misses(s, Replaced(tables, m, over)))
  }

  /** The entries of everything that is merged. */
  ghost function Replaced(tables: Tables, m: Manifest, over: seq<SegmentMeta>): EntryMap {
    Level(tables, over) + Batch(tables, m.l0)
  }

  /** A merge introduces no key. */
  lemma NoNewKeys(tables: Tables, m: Manifest, keep: seq<SegmentMeta>, over: seq<SegmentMeta>)
    requires Splits(tables, m, keep, over)
    ensures (Level(tables, keep) + Values(Replaced(tables, m, over))).Keys <= Base(tables, m).Keys
  {
    BaseSplit(tables, m);
    KeysOfSum(Level(tables, keep), Level(tables, over), Batch(tables, m.l0));
  }

  lemma KeysOfSum(a: EntryMap, b: EntryMap, c: EntryMap)
    ensures (a + Values(b + c)).Keys <= (a + b + c).Keys
  {
  }

  function Compacted(keep: seq<SegmentMeta>, fresh_: seq<SegmentMeta>, nextId: nat): Manifest {
    Manifest([], SortSegments(keep + fresh_), nextId)
  }

  lemma ChunkKeysAreMerged(tables: Tables, segs: seq<SegmentMeta>, recs: seq<Record>, firstId: nat, nextId: nat, i: nat)
    requires ChunksOf(tables, segs, recs, firstId, nextId) && i < |segs|
    ensures segs[i].minKey in AsMap(recs) && segs[i].maxKey in AsMap(recs)
  {
    assert segs[i] in segs;
    var t := tables[segs[i].fileId];
    AsMapAt(t, 0);
    AsMapAt(t, |t| - 1);
    OkIsApart(segs);
    SegmentDecides(tables, segs, i, segs[i].minKey);
    SegmentDecides(tables, segs, i, segs[i].maxKey);
  }

  /** New chunks never straddle a retained segment. */
  lemma KeptAndNewApart(tables: Tables, keep: seq<SegmentMeta>, segs: seq<SegmentMeta>, recs: seq<Record>,
                        firstId: nat, nextId: nat, all: EntryMap)
    requires ChunksOf(tables, segs, recs, firstId, nextId) && SegmentsOk(keep)
    requires forall s :: s in keep ==> Misses(s, all)
    requires forall k :: k in AsMap(recs) ==> k in all
    ensures PairwiseApart(keep + segs)
  {
    OkIsApart(keep);
    OkIsApart(segs);
    forall i, j | 0 <= i < |keep| && 0 <= j < |segs| ensures Apart(keep[i], segs[j]) {
      ChunkKeysAreMerged(tables, segs, recs, firstId, nextId, j);
      assert keep[i] in keep;
    }
  }

  lemma IdsDistinct(tables: Tables, m: Manifest, keep: seq<SegmentMeta>, segs: seq<SegmentMeta>,
                    sorted: seq<SegmentMeta>, nextId: nat)
    requires ManifestOk(tables, m) && (forall s :: s in keep ==> s in m.segments)
    requires forall i :: 0 <= i < |segs| ==> segs[i].fileId == m.nextId + i
    requires nextId == m.nextId + |segs|
    requires multiset(sorted) == multiset(keep + segs) && SegmentsOk(sorted)
    ensures Distinct(SegmentIds(sorted)) && forall id :: id in SegmentIds(sorted) ==> id < nextId
  {
    SameMembers(sorted, keep + segs);
    forall i | 0 <= i < |sorted|
      ensures sorted[i] in m.segments || exists n :: 0 <= n < |segs| && sorted[i] == segs[n]
      ensures sorted[i].fileId < nextId
    {
      assert sorted[i] in keep + segs;
      if sorted[i] in m.segments {
        IdOfMember(m, sorted[i]);
      }
    }
    forall i, j | 0 <= i < j < |sorted| ensures sorted[i].fileId != sorted[j].fileId {
      assert sorted[i] != sorted[j];
      if sorted[i] in m.segments && sorted[j] in m.segments && sorted[i].fileId == sorted[j].fileId {
        SameIdSameSegment(m, sorted[i], sorted[j]);
      }
      if sorted[i] in m.segments {
        IdOfMember(m, sorted[i]);
      }
      if sorted[j] in m.segments {
        IdOfMember(m, sorted[j]);
      }
    }
  }

  lemma IdOfMember(m: Manifest, s: SegmentMeta)
    requires s in m.segments && forall id :: id in AllIds(m) ==> id < m.nextId
    ensures s.fileId in AllIds(m) && s.fileId < m.nextId
  {
    var i :| 0 <= i < |m.segments| && m.segments[i] == s;
    assert AllIds(m)[|m.l0| + i] == s.fileId;
  }

  lemma SameIdSameSegment(m: Manifest, a: SegmentMeta, b: SegmentMeta)
    requires Distinct(AllIds(m)) && a in m.segments && b in m.segments && a.fileId == b.fileId
    ensures a == b
  {
    var i :| 0 <= i < |m.segments| && m.segments[i] == a;
    var j :| 0 <= j < |m.segments| && m.segments[j] == b;
    assert AllIds(m)[|m.l0| + i] == AllIds(m)[|m.l0| + j];
  }

  /** The new segment level is the merge over the retained part. */
  lemma CompactedLevel(tables: Tables, t': Tables, m: Manifest, keep: seq<SegmentMeta>, over: seq<SegmentMeta>,
                       merged: seq<Record>, segs: seq<SegmentMeta>, nextId: nat)
    requires ManifestOk(tables, m) && Splits(tables, m, keep, over) && SameFor(m, tables, t')
    requires AsMap(merged) == Values(Replaced(tables, m, over))
    requires ChunksOf(t', segs, merged, m.nextId, nextId)
    ensures PairwiseApart(keep + segs) && AllStored(t', keep + segs)
    ensures Level(t', keep + segs) ==
            Level(tables, keep) + AsMap(merged)
  {
    var all := Replaced(tables, m, over);
    KeptStored(tables, t', m, keep);
    KeptAndNewApart(t', keep, segs, merged, m.nextId, nextId, all);
    LevelConcat(t', keep, segs);
    KeptShareNothing(tables, keep, all);
    DisjointUnionCommutes(Level(tables, keep), AsMap(merged));
  }

  lemma DisjointUnionCommutes(a: EntryMap, b: EntryMap)
    requires forall k :: k in a ==> k !in b
    ensures a + b == b + a
  {
  }

  /** The manifest stays in order, and the new base is the retained part under the merge. */
  lemma CompactedBase(tables: Tables, t': Tables, m: Manifest, keep: seq<SegmentMeta>, over: seq<SegmentMeta>,
                      merged: seq<Record>, segs: seq<SegmentMeta>, nextId: nat)
    requires ManifestOk(tables, m) && Splits(tables, m, keep, over) && SameFor(m, tables, t')
    requires AsMap(merged) == Values(Replaced(tables, m, over))
    requires ChunksOf(t', segs, merged, m.nextId, nextId)
    ensures ManifestOk(t', Compacted(keep, segs, nextId))
    ensures Base(t', Compacted(keep, segs, nextId)) == Level(tables, keep) + AsMap(merged)
  {
    var m' := Compacted(keep, segs, nextId);
    CompactedLevel(tables, t', m, keep, over, merged, segs, nextId);
    SortSegmentsOk(keep + segs);
    OkIsApart(m'.segments);
    SegmentOrderImmaterial(t', keep + segs, m'.segments);
    IdsDistinct(tables, m, keep, segs, m'.segments, nextId);
    assert AllIds(m') == SegmentIds(m'.segments) && NewestFirst(m') == SegmentIds(m'.segments);
  }

  /** Compaction changes no visible value. */
  lemma CompactionPreserves(tables: Tables, t': Tables, m: Manifest, keep: seq<SegmentMeta>, over: seq<SegmentMeta>,
                            merged: seq<Record>, segs: seq<SegmentMeta>, nextId: nat)
    requires ManifestOk(tables, m) && Splits(tables, m, keep, over) && SameFor(m, tables, t')
    requires AsMap(merged) == Values(Replaced(tables, m, over))
    requires ChunksOf(t', segs, merged, m.nextId, nextId)
    ensures ManifestOk(t', Compacted(keep, segs, nextId))
    ensures Base(t', Compacted(keep, segs, nextId)) == Level(tables, keep) + Values(Replaced(tables, m, over))
    ensures Live(Base(t', Compacted(keep, segs, nextId))) == Live(Base(tables, m))
  {
    CompactedBase(tables, t', m, keep, over, merged, segs, nextId);
    KeptStored(tables, t', m, keep);
    KeptShareNothing(tables, keep, Replaced(tables, m, over));
    BaseSplit(tables, m);
    DroppingTombstonesIsSafe(Level(tables, keep), Level(tables, over),
                             Batch(tables, m.l0), AsMap(merged));
  }

  lemma KeptStored(tables: Tables, t': Tables, m: Manifest, keep: seq<SegmentMeta>)
    requires ManifestOk(tables, m) && SameFor(m, tables, t') && forall s :: s in keep ==> s in m.segments
    ensures AllStored(t', keep) && AllStored(tables, keep)
    ensures Level(t', keep) == Level(tables, keep)
  {
    forall s | s in keep ensures SegmentStored(t', s) && TableMap(t', s.fileId) == TableMap(tables, s.fileId) {
      IdOfMember(m, s);
    }
    forall i | 0 <= i < |keep| ensures TableMap(t', keep[i].fileId) == TableMap(tables, keep[i].fileId) {
      assert keep[i] in keep;
    }
    assert MapsOf(t', SegmentIds(keep)) == MapsOf(tables, SegmentIds(keep));
  }

  lemma KeptShareNothing(tables: Tables, keep: seq<SegmentMeta>, all: EntryMap)
    requires AllStored(tables, keep) && forall s :: s in keep ==> Misses(s, all)
    ensures forall k :: k in Level(tables, keep) ==> k !in all
  {
    forall k | k in Level(tables, keep) ensures k !in all {
      var i := SegmentsHave(tables, keep, k);
      assert keep[i] in keep;
      SegmentBounds(tables, keep[i], k);
    }
  }

  /** Everything that was merged is unreferenced afterwards. */
  lemma MergedUnreferenced(m: Manifest, keep: seq<SegmentMeta>, over: seq<SegmentMeta>, segs: seq<SegmentMeta>, nextId: nat)
    requires Distinct(AllIds(m)) && (forall id :: id in AllIds(m) ==> id < m.nextId)
    requires forall s :: s in keep ==> s in m.segments
    requires forall s :: s in over ==> s in m.segments && s !in keep
    requires forall i :: 0 <= i < |segs| ==> segs[i].fileId == m.nextId + i
    requires multiset(SortSegments(keep + segs)) == multiset(keep + segs)
    ensures forall id :: id in m.l0 + SegmentIds(over) ==> id !in AllIds(Compacted(keep, segs, nextId))
  {
    var m' := Compacted(keep, segs, nextId);
    SameMembers(m'.segments, keep + segs);
    forall id | id in m.l0 + SegmentIds(over) ensures id !in AllIds(m') {
      if id in AllIds(m') {
        var j :| 0 <= j < |m'.segments| && m'.segments[j].fileId == id;
        assert m'.segments[j] in keep + segs;
        MergedIdBelow(m, over, id);
        KeptIsNotMerged(m, keep, over, m'.segments[j]);
      }
    }
  }

  lemma KeptIsNotMerged(m: Manifest, keep: seq<SegmentMeta>, over: seq<SegmentMeta>, s: SegmentMeta)
    requires Distinct(AllIds(m)) && s in keep && s in m.segments
    requires forall o :: o in over ==> o in m.segments && o !in keep
    ensures s.fileId !in m.l0 + SegmentIds(over)
  {
    var k :| 0 <= k < |m.segments| && m.segments[k] == s;
    LevelsShareNoId(m, k);
    forall i | 0 <= i < |over| ensures over[i].fileId != s.fileId {
      assert over[i] in over;
      if over[i].fileId == s.fileId {
        SameIdSameSegment(m, over[i], s);
      }
    }
  }

  lemma LevelsShareNoId(m: Manifest, k: nat)
    requires Distinct(AllIds(m)) && k < |m.segments|
    ensures m.segments[k].fileId !in m.l0
  {
    assert AllIds(m)[|m.l0| + k] == m.segments[k].fileId;
    assert forall i :: 0 <= i < |m.l0| ==> AllIds(m)[i] == m.l0[i];
  }

  lemma MergedIdBelow(m: Manifest, over: seq<SegmentMeta>, id: nat)
    requires (forall x :: x in AllIds(m) ==> x < m.nextId) && forall s :: s in over ==> s in m.segments
    requires id in m.l0 + SegmentIds(over)
    ensures id < m.nextId
  {
    if id in m.l0 {
      assert id in AllIds(m);
    } else {
      var i :| 0 <= i < |over| && over[i].fileId == id;
      assert over[i] in over;
      IdOfMember(m, over[i]);
    }
  }
}
