/** The key-value engine of src/lib.rs: memtable, level-0 tables and level-1 segments
    under one object, with its log and its disk. Whatever the engine does internally,
    it is one map from keys to values. */
module DatabaseModel {
  import opened Std
  import opened Bytes
  import opened Records
  import opened Merge
  import opened ManifestModel
  import opened Layers
  import opened Recovery
  import Memtable
  import Wal

  datatype Options = Options(memtableLimit: nat, l0Threshold: nat, segmentMax: nat)

  // ---- parts of flush and compaction that touch no engine state ----

  lemma OverNothing(m: EntryMap)
    ensures m + map[] == m
  {
  }

  /** From `start` on and before `end`; a missing end is open. */
  predicate Between(k: ByteString, start: Option<ByteString>, end: Option<ByteString>) {
    !(start.Some? && Less(k, start.value)) && !(end.Some? && !Less(k, end.value))
  }

  /** Span of the keys of a nonempty batch, both ends attained. */
  predicate IsSpan(m: EntryMap, lo: ByteString, hi: ByteString) {
    lo in m && hi in m && InSpan(m, lo, hi)
  }

  lemma {:induction false} BatchSnoc(tables: Tables, ids: seq<nat>, id: nat)
    ensures Batch(tables, ids + [id]) == Batch(tables, ids) + TableMap(tables, id)
  {
    ReverseSnoc(ids, id);
    assert MapsOf(tables, [id] + Reverse(ids))[1..] == MapsOf(tables, Reverse(ids));
  }

  lemma TableSpan(table: seq<Record>)
    requires Sorted(table) && table != []
    ensures IsSpan(AsMap(table), table[0].key, table[|table| - 1].key)
  {
    AsMapAt(table, 0);
    AsMapAt(table, |table| - 1);
    forall k | k in AsMap(table) ensures AtMost(table[0].key, k) && AtMost(k, table[|table| - 1].key) {
      AsMapKeys(table, k);
      var i :| 0 <= i < |table| && table[i].key == k;
      SortedEnds(table, i);
    }
  }

  /** The span of a union reaches from the lower low end to the upper high end. */
  lemma WidenSpan(a: EntryMap, alo: ByteString, ahi: ByteString, b: EntryMap, blo: ByteString, bhi: ByteString)
    requires IsSpan(a, alo, ahi) && IsSpan(b, blo, bhi)
    ensures IsSpan(a + b, if Less(blo, alo) then blo else alo, if Less(ahi, bhi) then bhi else ahi)
  {
    var lo := if Less(blo, alo) then blo else alo;
    var hi := if Less(ahi, bhi) then bhi else ahi;
    LessTotal(blo, alo);
    LessTotal(ahi, bhi);
    forall k | k in a + b ensures AtMost(lo, k) && AtMost(k, hi) {
      if k in a {
        AtMostThenLess(alo, k, k);
        AtMostOfLess(blo, alo, k);
        AtMostOfLess(k, ahi, bhi);
      } else {
        AtMostThenLess(alo, blo, k);
        AtMostThenLess(k, bhi, ahi);
      }
    }
  }

  lemma AtMostOfLess(a: ByteString, b: ByteString, c: ByteString)
    ensures Less(a, b) && AtMost(b, c) ==> AtMost(a, c)
    ensures AtMost(a, b) && Less(b, c) ==> AtMost(a, c)
  {
    AtMostThenLess(a, b, c);
    if Less(a, c) && Less(c, a) {
      LessTransitive(a, c, a);
      LessIrreflexive(a);
    }
  }

  /** Span over several tables, from their first and last keys (src/lib.rs:744-768). */
  method TableBounds(tables: Tables, ids: seq<nat>) returns (r: Option<(ByteString, ByteString)>)
    requires forall id :: id in ids ==> TableOk(tables, id)
    ensures r.None? <==> ids == []
    ensures r.Some? ==> IsSpan(Batch(tables, ids), r.value.0, r.value.1)
  {
    r := None;
    var i := 0;
    while i < |ids|
      invariant 0 <= i <= |ids|
      invariant r.None? ==> i == 0
      invariant r.Some? ==> i > 0 && IsSpan(Batch(tables, ids[..i]), r.value.0, r.value.1)
    {
      assert TableOk(tables, ids[i]);
      var table := tables[ids[i]];
      var first, last := table[0].key, table[|table| - 1].key;
      assert ids[..i + 1] == ids[..i] + [ids[i]];
      BatchSnoc(tables, ids[..i], ids[i]);
      TableSpan(table);
      if r.None? {
        assert ids[..0] == [] && Batch(tables, []) == map[] && map[] + AsMap(table) == AsMap(table);
        r := Some((first, last));
      } else {
        WidenSpan(Batch(tables, ids[..i]), r.value.0, r.value.1, AsMap(table), first, last);
        r := Some((if Less(first, r.value.0) then first else r.value.0,
                   if Less(r.value.1, last) then last else r.value.1));
      }
      i := i + 1;
    }
    assert ids[..i] == ids;
  }

  /** Merges tables given newest first and drops what ends as a tombstone (src/lib.rs:725-741). */
  method MergeIds(tables: Tables, ids: seq<nat>) returns (merged: seq<Record>)
    requires forall id :: id in ids ==> TableOk(tables, id)
    ensures Sorted(merged) && AsMap(merged) == Values(Overlay(MapsOf(tables, ids)))
    ensures forall i :: 0 <= i < |merged| ==> merged[i].entry.Some?
  {
    var lists: seq<seq<Record>> := [];
    while |lists| < |ids|
      invariant |lists| <= |ids| && AllSorted(lists)
      invariant forall j :: 0 <= j < |lists| ==> AsMap(lists[j]) == TableMap(tables, ids[j])
    {
      assert TableOk(tables, ids[|lists|]);
      lists := lists + [tables[ids[|lists|]]];
    }
    assert Maps(lists) == MapsOf(tables, ids);
    var all := MergeVecs(lists);
    DropTombstonesSorted(all);
    DropTombstonesIsValues(all);
    merged := DropTombstones(all);
  }

  function KeysOf(muts: seq<Record>): set<ByteString> {
    set r | r in muts :: r.key
  }

  lemma {:induction false} AppliedKnows(m: EntryMap, muts: seq<Record>)
    ensures Memtable.Applied(m, muts).Keys <= m.Keys + KeysOf(muts)
  {
    if muts != [] {
      AppliedKnows(m, muts[..|muts| - 1]);
    }
  }

  /** Puts mutations into a memtable in order: the replayed ones at start, those of a
      transaction after its commit. */
  method ApplyTo(memtable: Memtable.MemTable, records: seq<Record>)
    requires memtable.Valid()
    modifies memtable
    ensures memtable.Valid() && AsMap(memtable.entries) == Memtable.Applied(AsMap(old(memtable.entries)), records)
    ensures memtable.sizeBytes == Memtable.GrownAll(old(memtable.sizeBytes), AsMap(old(memtable.entries)), records)
  {
    ghost var before, size := AsMap(memtable.entries), memtable.sizeBytes;
    var i := 0;
    while i < |records|
      invariant 0 <= i <= |records| && memtable.Valid()
      invariant AsMap(memtable.entries) == Memtable.Applied(before, records[..i])
      invariant memtable.sizeBytes == Memtable.GrownAll(size, before, records[..i])
    {
      Memtable.GrownSnoc(size, before, records[..i], records[i]);
      Memtable.AppliedSnoc(before, records[..i], records[i]);
      assert records[..i + 1] == records[..i] + [records[i]];
      memtable.Put(records[i].key, records[i].entry);
      i := i + 1;
    }
    assert records[..i] == records;
  }

  /** Records of all live tables in the order of `scan_stream`, cut to the range. */
  method TableSources(tables: Tables, m: Manifest, start: Option<ByteString>, end: Option<ByteString>)
      returns (lists: seq<seq<Record>>)
    requires ManifestOk(tables, m)
    ensures AllSorted(lists)
    ensures Overlay(Maps(lists)) == Restrict(Base(tables, m), start, end)
  {
    var ids := NewestFirst(m);
    lists := [];
    ReferencedExist(tables, m);
    while |lists| < |ids|
      invariant |lists| <= |ids| && AllSorted(lists)
      invariant forall j :: 0 <= j < |lists| ==> AsMap(lists[j]) == Restrict(TableMap(tables, ids[j]), start, end)
    {
      var id := ids[|lists|];
      assert id in AllIds(m);
      RangeOfSorted(tables[id], start, end);
      RangeOfIsRestriction(tables[id], start, end);
      lists := lists + [RangeOf(tables[id], start, end)];
    }
    OverlayRestrict(MapsOf(tables, ids), Maps(lists), start, end);
  }

  /** The memtable's list in front of the tables' lists overlays them. */
  lemma OverlayCons(first: seq<Record>, lists: seq<seq<Record>>)
    ensures Overlay(Maps([first] + lists)) == Overlay(Maps(lists)) + AsMap(first)
  {
    assert Maps([first] + lists)[1..] == Maps(lists);
  }

  lemma RestrictUnion(a: EntryMap, b: EntryMap, start: Option<ByteString>, end: Option<ByteString>)
    ensures Restrict(a, start, end) + Restrict(b, start, end) == Restrict(a + b, start, end)
  {
  }

  lemma TakeMore(s: seq<Record>, i: nat, n: nat)
    requires i <= n <= |s| && Sorted(s)
    ensures s[..n] == s[..i] + s[i..n] && Sorted(s[..n])
  {
  }

  function Front(segs: seq<SegmentMeta>): seq<SegmentMeta> {
    if segs == [] then [] else segs[..|segs| - 1]
  }

  predicate Full(segs: seq<SegmentMeta>, max: nat) {
    forall s :: s in segs ==> s.records == max
  }

  lemma FullSnoc(segs: seq<SegmentMeta>, s: SegmentMeta, max: nat)
    ensures Front(segs + [s]) == segs
    ensures Full(segs, max) && s.records == max ==> Full(segs + [s], max)
  {
  }

  class Database {
    const opts: Options
    var memtable: Memtable.MemTable
    var manifest: Manifest
    var disk: Disk
    var buffer: seq<Wal.LogRec>
    var nextTx: nat
    /** The operations whose records make up the current log. */
    ghost var ops: seq<Wal.Op>
    /** History: every durable state the disk has gone through. */
    var trail: seq<Disk>

    /** Newest entry of every key, tombstones included. */
    ghost function RawView(): EntryMap
      reads this, memtable
    {
      Base(disk.tables, manifest) + AsMap(memtable.entries)
    }

    /** The map a reader sees. */
    ghost function View(): map<ByteString, ByteString>
      reads this, memtable
    {
      Live(RawView())
    }

    /** The part of the invariant that a crash relies on: disk and log, not memory. */
    ghost predicate Logged()
      reads this
    {
      && opts.segmentMax >= 1
      && manifest == disk.manifest && ManifestOk(disk.tables, manifest)
      && LogState(disk.log + buffer, ops, nextTx)
    }

    ghost predicate Valid()
      reads this, memtable
    {
      && Logged() && memtable.Valid()
      && AsMap(memtable.entries) == Memtable.Applied(map[], Wal.Mutations(ops))
    }

    // ---- opening ----

    /** Opens a disk: replays the log into a fresh memtable and resumes the transaction
        ids above every id the log mentions (src/lib.rs:206-236). */
    constructor FromDisk(d: Disk, opts: Options, ghost ops: seq<Wal.Op>)
      requires opts.segmentMax >= 1 && ManifestOk(d.tables, d.manifest)
      requires d.log == Wal.LogOf(ops) && Wal.DistinctIds(ops)
      ensures Valid() && View() == Recovered(d) && fresh(memtable)
      ensures disk == d && buffer == [] && this.opts == opts && this.ops == ops && trail == []
      ensures nextTx == Wal.MaxTx(d.log) + 1
    {
      this.opts, manifest, disk, buffer := opts, d.manifest, d, [];
      this.ops := ops;
      trail := [];
      nextTx := Wal.MaxTx(d.log) + 1;
      memtable := new Memtable.MemTable();
      new;
      Wal.ResolveOps(ops);
      AppliedToBase(Base(d.tables, d.manifest), Wal.Resolve(d.log));
      ApplyTo(memtable, Wal.Resolve(d.log));
      LogBoundsIds(ops);
    }

    // ---- durable steps ----

    method CreateTable(id: nat, recs: seq<Record>)
      modifies `disk, `trail
      ensures disk == old(disk).(tables := old(disk).tables[id := recs])
      ensures trail == old(trail) + [disk]
    {
      disk := disk.(tables := disk.tables[id := recs]);
      trail := trail + [disk];
    }

    method SaveManifest()
      modifies `disk, `trail
      ensures disk == old(disk).(manifest := manifest)
      ensures trail == old(trail) + [disk]
    {
      disk := disk.(manifest := manifest);
      trail := trail + [disk];
    }

    /** Writes the buffer out, then cuts the file to length 0 (src/wal.rs:130-136). */
    method TruncateLog()
      modifies `disk, `buffer, `trail
      ensures buffer == [] && disk == old(disk).(log := [])
      ensures trail == old(trail) + [old(disk).(log := old(disk).log + old(buffer)), disk]
    {
      SyncLog();
      disk := disk.(log := []);
      trail := trail + [disk];
    }

    method SyncLog()
      modifies `disk, `buffer, `trail
      ensures buffer == [] && disk == old(disk).(log := old(disk).log + old(buffer))
      ensures trail == old(trail) + [disk]
    {
      disk := disk.(log := disk.log + buffer);
      buffer := [];
      trail := trail + [disk];
    }

    /** Deletes files; a deletion may fail silently. */
    method RemoveTables(ids: seq<nat>, ghost view: map<ByteString, ByteString>)
      requires Shows(disk, view) && forall id :: id in ids ==> id !in AllIds(disk.manifest)
      modifies `disk, `trail
      ensures disk.manifest == old(disk).manifest && disk.log == old(disk).log
      ensures Base(disk.tables, disk.manifest) == Base(old(disk).tables, disk.manifest)
      ensures Shows(disk, view) && TrailShows(old(trail), trail, view, disk.log)
    {
      var i := 0;
      ReferencedExist(disk.tables, disk.manifest);
      while i < |ids|
        invariant 0 <= i <= |ids|
        invariant disk.manifest == old(disk).manifest && disk.log == old(disk).log
        invariant SameFor(disk.manifest, old(disk).tables, disk.tables)
        invariant Base(disk.tables, disk.manifest) == Base(old(disk).tables, disk.manifest)
        invariant Shows(disk, view)
        invariant TrailShows(old(trail), trail, view, disk.log)
      {
        if * {
          ghost var was := disk.tables;
          disk := disk.(tables := disk.tables - {ids[i]});
          FrameBase(disk.manifest, was, disk.tables);
          FrameOk(disk.manifest, was, disk.tables);
          TrailGrows(old(trail), trail, disk, view, disk.log);
          trail := trail + [disk];
        }
        i := i + 1;
      }
    }

    // ---- reads ----

    /** The one segment whose range contains `key`, by binary search (src/lib.rs:447-472). */
    method FindSegment(key: ByteString) returns (r: Option<nat>)
      requires SegmentsOk(manifest.segments)
      ensures r.Some? ==> r.value < |manifest.segments| && Covers(manifest.segments[r.value], key)
      ensures r.None? ==> forall s :: s in manifest.segments ==> !Covers(s, key)
    {
      var segs := manifest.segments;
      var lo, hi := 0, |segs|;
      while lo < hi
        invariant 0 <= lo <= hi <= |segs|
        invariant forall i :: 0 <= i < lo ==> AtMost(segs[i].minKey, key)
        invariant forall i :: hi <= i < |segs| ==> Less(key, segs[i].minKey)
      {
        var mid := (lo + hi) / 2;
        if AtMost(segs[mid].minKey, key) {
          forall i | 0 <= i < mid ensures AtMost(segs[i].minKey, key) {
            MinKeysAscend(segs, i, mid);
            if Less(key, segs[i].minKey) {
              LessTransitive(key, segs[i].minKey, segs[mid].minKey);
            }
          }
          lo := mid + 1;
        } else {
          forall i | mid < i < |segs| ensures Less(key, segs[i].minKey) {
            MinKeysAscend(segs, mid, i);
            LessTransitive(key, segs[mid].minKey, segs[i].minKey);
          }
          hi := mid;
        }
      }
      if lo > 0 && AtMost(key, segs[lo - 1].maxKey) {
        return Some(lo - 1);
      }
      forall s | s in segs ensures !Covers(s, key) {
        var i :| 0 <= i < |segs| && segs[i] == s;
        if i < lo - 1 {
          AtMostThenLess(segs[i].maxKey, segs[lo - 1].minKey, key);
        }
      }
      return None;
    }

    /** Point lookup: memtable, level 0 newest first, then the one segment (src/lib.rs:401-443).
        A tombstone hides everything older. */
    method Get(key: ByteString) returns (r: Option<ByteString>)
      requires Valid()
      ensures r == if key in View() then Some(View()[key]) else None
    {
      var hit := memtable.Get(key);
      if hit.Some? {
        return hit.value;
      }
      BaseSplit(disk.tables, manifest);
      var ids := Reverse(manifest.l0);
      var i := 0;
      while i < |ids|
        invariant 0 <= i <= |ids|
        invariant forall j :: 0 <= j < i ==> key !in MapsOf(disk.tables, ids)[j]
      {
        assert ids[i] in manifest.l0;
        var table := AsMap(disk.tables[ids[i]]);
        if key in table {
          OverlayFirstWins(MapsOf(disk.tables, ids), i, key);
          return table[key];
        }
        i := i + 1;
      }
      OverlayKeys(MapsOf(disk.tables, ids), key);
      var seg := FindSegment(key);
      OkIsApart(manifest.segments);
      if seg.Some? {
        assert manifest.segments[seg.value] in manifest.segments;
        var table := AsMap(disk.tables[manifest.segments[seg.value].fileId]);
        if key in table {
          SegmentDecides(disk.tables, manifest.segments, seg.value, key);
          return table[key];
        }
      }
      SegmentMissing(disk.tables, manifest.segments, seg, key);
      return None;
    }

    /** Raw range scan (src/lib.rs:477-517): every key of the range once, in order, with
        its newest entry; tombstones are still there. */
    method ScanStream(start: Option<ByteString>, end: Option<ByteString>) returns (rows: seq<Record>)
      requires Valid()
      ensures Sorted(rows) && AsMap(rows) == Restrict(RawView(), start, end)
      ensures forall k :: k in AsMap(rows) <==> k in RawView() && Between(k, start, end)
    {
      var mem := memtable.Source(start, end);
      RangeOfSorted(memtable.entries, start, end);
      RangeOfIsRestriction(memtable.entries, start, end);
      var lists := TableSources(disk.tables, manifest, start, end);
      OverlayCons(mem, lists);
      RestrictUnion(Base(disk.tables, manifest), AsMap(memtable.entries), start, end);
      rows := MergeVecs([mem] + lists);
    }

    /** Range scan without tombstones (src/lib.rs:527-538). */
    method Scan(start: Option<ByteString>, end: Option<ByteString>) returns (rows: seq<Record>)
      requires Valid()
      ensures Sorted(rows) && forall i :: 0 <= i < |rows| ==> rows[i].entry.Some?
      ensures Live(AsMap(rows)) == (map k | k in View() && Between(k, start, end) :: View()[k])
    {
      var raw := ScanStream(start, end);
      DropTombstonesSorted(raw);
      DropTombstonesIsValues(raw);
      rows := DropTombstones(raw);
      ScanIsLive(RawView(), AsMap(rows), start, end);
    }

    // ---- compaction ----

    /** Writes one chunk as a new table (src/lib.rs:772-778). */
    method WriteChunk(chunk: seq<Record>, ghost done: seq<Record>, ghost now: seq<Record>, segs: seq<SegmentMeta>,
                      ghost firstId: nat, ghost view: map<ByteString, ByteString>) returns (segs': seq<SegmentMeta>)
      requires chunk != [] && now == done + chunk && Sorted(now) && Shows(disk, view)
      requires forall id :: id in AllIds(disk.manifest) ==> id < manifest.nextId
      requires ChunksOf(disk.tables, segs, done, firstId, manifest.nextId)
      modifies `manifest, `disk, `trail
      ensures manifest == old(manifest).(nextId := old(manifest).nextId + 1)
      ensures disk.manifest == old(disk).manifest && disk.log == old(disk).log
      ensures SameFor(disk.manifest, old(disk).tables, disk.tables) && Shows(disk, view)
      ensures ChunksOf(disk.tables, segs', now, firstId, manifest.nextId)
      ensures segs' == segs + [SegmentFor(old(manifest).nextId, chunk)]
      ensures trail == old(trail) + [disk]
    {
      ReferencedExist(disk.tables, disk.manifest);
      ChunkAppended(disk.tables, segs, done, chunk, firstId, manifest.nextId);
      ghost var was := disk;
      CreateTable(manifest.nextId, chunk);
      UnreferencedFiles(was, disk, view);
      segs' := segs + [SegmentFor(manifest.nextId, chunk)];
      manifest := manifest.(nextId := manifest.nextId + 1);
    }

    method WriteNext(merged: seq<Record>, i: nat, segs: seq<SegmentMeta>, ghost firstId: nat,
                     ghost view: map<ByteString, ByteString>) returns (segs': seq<SegmentMeta>, n: nat)
      requires i < |merged| && opts.segmentMax >= 1 && Sorted(merged) && Shows(disk, view)
      requires forall id :: id in AllIds(disk.manifest) ==> id < manifest.nextId
      requires ChunksOf(disk.tables, segs, merged[..i], firstId, manifest.nextId)
      requires forall s :: s in segs ==> s.records <= opts.segmentMax
      modifies `manifest, `disk, `trail
      ensures i < n <= |merged| && ChunksOf(disk.tables, segs', merged[..n], firstId, manifest.nextId)
      ensures forall s :: s in segs' ==> s.records <= opts.segmentMax
      ensures Front(segs') == segs && (n < |merged| && Full(segs, opts.segmentMax) ==> Full(segs', opts.segmentMax))
      ensures manifest == old(manifest).(nextId := old(manifest).nextId + 1)
      ensures disk.manifest == old(disk).manifest && disk.log == old(disk).log
      ensures SameFor(disk.manifest, old(disk).tables, disk.tables) && Shows(disk, view)
      ensures trail == old(trail) + [disk]
    {
      n := if i + opts.segmentMax <= |merged| then i + opts.segmentMax else |merged|;
      TakeMore(merged, i, n);
      FullSnoc(segs, SegmentFor(manifest.nextId, merged[i..n]), opts.segmentMax);
      segs' := WriteChunk(merged[i..n], merged[..i], merged[..n], segs, firstId, view);
    }

    /** Writes the merged records in chunks of at most `segmentMax` (src/lib.rs:619-632). */
    method WriteChunks(merged: seq<Record>, ghost view: map<ByteString, ByteString>) returns (segs: seq<SegmentMeta>)
      requires opts.segmentMax >= 1 && Sorted(merged) && Shows(disk, view)
      requires manifest == disk.manifest
      modifies `manifest, `disk, `trail
      ensures manifest == old(manifest).(nextId := manifest.nextId)
      ensures disk.manifest == old(disk).manifest && disk.log == old(disk).log
      ensures SameFor(disk.manifest, old(disk).tables, disk.tables)
      ensures ChunksOf(disk.tables, segs, merged, old(manifest).nextId, manifest.nextId)
      ensures forall s :: s in segs ==> s.records <= opts.segmentMax
      ensures Full(Front(segs), opts.segmentMax)
      ensures TrailShows(old(trail), trail, view, disk.log)
    {
      segs := [];
      var i := 0;
      ReferencedExist(disk.tables, manifest);
      while i < |merged|
        invariant 0 <= i <= |merged| && old(manifest).nextId <= manifest.nextId
        invariant manifest == old(manifest).(nextId := manifest.nextId)
        invariant disk.manifest == old(disk).manifest && disk.log == old(disk).log
        invariant SameFor(disk.manifest, old(disk).tables, disk.tables) && Shows(disk, view)
        invariant ChunksOf(disk.tables, segs, merged[..i], old(manifest).nextId, manifest.nextId)
        invariant forall s :: s in segs ==> s.records <= opts.segmentMax
        invariant Full(Front(segs), opts.segmentMax) && (i < |merged| ==> Full(segs, opts.segmentMax))
        invariant TrailShows(old(trail), trail, view, disk.log)
      {
        ghost var steps := trail;
        segs, i := WriteNext(merged, i, segs, old(manifest).nextId, view);
        TrailGrows(old(trail), steps, disk, view, disk.log);
      }
      assert merged[..i] == merged;
    }

    /** Merges level 0 and the segments `over`, newest first, into `merged`. */
    method MergeInputs(over: seq<SegmentMeta>) returns (merged: seq<Record>)
      requires ManifestOk(disk.tables, manifest) && AllStored(disk.tables, over)
      ensures Sorted(merged) && AsMap(merged) == Values(Replaced(disk.tables, manifest, over))
    {
      var inputs := Reverse(manifest.l0) + SegmentIds(over);
      forall id | id in inputs ensures TableOk(disk.tables, id) {
        if id !in Reverse(manifest.l0) {
          var i :| 0 <= i < |over| && SegmentIds(over)[i] == id;
          assert over[i] in over;
        } else {
          assert id in manifest.l0;
        }
      }
      MapsOfConcat(disk.tables, Reverse(manifest.l0), SegmentIds(over));
      OverlayConcat(MapsOf(disk.tables, Reverse(manifest.l0)), MapsOf(disk.tables, SegmentIds(over)));
      merged := MergeIds(disk.tables, inputs);
    }

    /** Replaces level 0 and the segments `over` by their merge beside `keep`, commits the
        manifest, and only then deletes the old files (src/lib.rs:614-654, 900-940). */
    method ReplaceSegments(keep: seq<SegmentMeta>, over: seq<SegmentMeta>)
      requires Valid() && memtable.entries == []
      requires AllStored(disk.tables, over) && Splits(disk.tables, manifest, keep, over)
      requires forall s :: s in over ==> s in manifest.segments && s !in keep
      modifies `manifest, `disk, `trail
      ensures Valid() && View() == old(View()) && manifest.l0 == []
      ensures RawView() == Level(old(disk).tables, keep) + Values(Replaced(old(disk).tables, old(manifest), over))
      ensures RawView().Keys <= old(RawView()).Keys
      ensures forall s :: s in keep ==> s in manifest.segments
      ensures forall s :: s in manifest.segments ==> s in keep || s.records <= opts.segmentMax
      ensures disk.log == old(disk).log && TrailShows(old(trail), trail, old(View()), disk.log)
    {
      IdleEngine(disk, ops);
      NoNewKeys(disk.tables, manifest, keep, over);
      OverNothing(Base(disk.tables, manifest));
      SwapTables(keep, over);
      IdleEngine(disk, ops);
      OverNothing(Base(disk.tables, manifest));
    }

    method SwapTables(keep: seq<SegmentMeta>, over: seq<SegmentMeta>)
      requires opts.segmentMax >= 1 && manifest == disk.manifest && ManifestOk(disk.tables, manifest)
      requires Wal.Resolve(disk.log) == []
      requires AllStored(disk.tables, over) && Splits(disk.tables, manifest, keep, over)
      requires forall s :: s in over ==> s in manifest.segments && s !in keep
      modifies `manifest, `disk, `trail
      ensures manifest == disk.manifest && manifest.l0 == [] && disk.log == old(disk).log
      ensures Shows(disk, Recovered(old(disk)))
      ensures Base(disk.tables, manifest) ==
        Level(old(disk).tables, keep) + Values(Replaced(old(disk).tables, old(manifest), over))
      ensures forall s :: s in keep ==> s in manifest.segments
      ensures forall s :: s in manifest.segments ==> s in keep || s.records <= opts.segmentMax
      ensures TrailShows(old(trail), trail, Recovered(old(disk)), disk.log)
    {
      var dropped := MergeAndCommit(keep, over);
      ghost var steps := trail;
      RemoveTables(dropped, Recovered(old(disk)));
      TrailContinues(old(trail), steps, trail, Recovered(old(disk)), disk.log, disk.log);
    }

    method MergeAndCommit(keep: seq<SegmentMeta>, over: seq<SegmentMeta>) returns (dropped: seq<nat>)
      requires opts.segmentMax >= 1 && manifest == disk.manifest && ManifestOk(disk.tables, manifest)
      requires Wal.Resolve(disk.log) == []
      requires AllStored(disk.tables, over) && Splits(disk.tables, manifest, keep, over)
      requires forall s :: s in over ==> s in manifest.segments && s !in keep
      modifies `manifest, `disk, `trail
      ensures manifest == disk.manifest && manifest.l0 == [] && disk.log == old(disk).log
      ensures Shows(disk, Recovered(old(disk)))
      ensures Base(disk.tables, manifest) ==
        Level(old(disk).tables, keep) + Values(Replaced(old(disk).tables, old(manifest), over))
      ensures forall id :: id in dropped ==> id !in AllIds(disk.manifest)
      ensures forall s :: s in keep ==> s in manifest.segments
      ensures forall s :: s in manifest.segments ==> s in keep || s.records <= opts.segmentMax
      ensures TrailShows(old(trail), trail, Recovered(old(disk)), disk.log)
    {
      ghost var m, tables := manifest, disk.tables;
      var merged := MergeInputs(over);
      var segs := WriteChunks(merged, Recovered(disk));
      dropped := manifest.l0 + SegmentIds(over);
      ghost var steps := trail;
      CommitSegments(keep, segs, over, merged, m, tables);
      TrailGrows(old(trail), steps, disk, Recovered(old(disk)), disk.log);
      MergedUnreferenced(m, keep, over, segs, manifest.nextId);
    }

    /** The commit point of a compaction: one atomic manifest replacement. */
    method CommitSegments(keep: seq<SegmentMeta>, segs: seq<SegmentMeta>, ghost over: seq<SegmentMeta>,
                          ghost merged: seq<Record>, ghost m: Manifest, ghost tables: Tables)
      requires ManifestOk(tables, m) && Splits(tables, m, keep, over) && SameFor(m, tables, disk.tables)
      requires AsMap(merged) == Values(Replaced(tables, m, over))
      requires ChunksOf(disk.tables, segs, merged, m.nextId, manifest.nextId)
      requires Wal.Resolve(disk.log) == []
      modifies `manifest, `disk, `trail
      ensures manifest == Compacted(keep, segs, old(manifest).nextId)
      ensures disk == old(disk).(manifest := manifest) && trail == old(trail) + [disk]
      ensures Shows(disk, Live(Base(tables, m)))
      ensures Base(disk.tables, manifest) == Level(tables, keep) + Values(Replaced(tables, m, over))
      ensures multiset(SortSegments(keep + segs)) == multiset(keep + segs)
      ensures forall s :: s in manifest.segments <==> s in keep || s in segs
    {
      CompactionPreserves(tables, disk.tables, m, keep, over, merged, segs, manifest.nextId);
      CompactedSegments(tables, disk.tables, m, keep, over, merged, segs, manifest.nextId);
      manifest := Compacted(keep, segs, manifest.nextId);
      SaveManifest();
    }

    /** Compaction of level 0 into the overlapping part of level 1 (src/lib.rs:585-655).
        Segments that miss the span of the level-0 batch are kept as they are. */
    method Compact() returns (r: Result<()>)
      requires Valid() && memtable.entries == []
      modifies `manifest, `disk, `trail
      ensures Valid() && View() == old(View()) && RawView().Keys <= old(RawView()).Keys
      ensures r.Err? <==> opts.l0Threshold == 0 && old(manifest).l0 == []
      ensures r.Err? || |old(manifest).l0| < opts.l0Threshold ==>
        manifest == old(manifest) && disk == old(disk) && trail == old(trail)
      ensures r.Ok? && |old(manifest).l0| >= opts.l0Threshold ==> manifest.l0 == []
      ensures r.Ok? ==> Retains(old(disk).tables, old(manifest), manifest)
      ensures disk.log == old(disk).log && TrailShows(old(trail), trail, old(View()), disk.log)
    {
      if |manifest.l0| < opts.l0Threshold {
        return Ok(());
      }
      var span := TableBounds(disk.tables, manifest.l0);
      if span.None? {
        return Err(Corrupt);
      }
      var (lo, hi) := span.value;
      var over := Choose(manifest.segments, lo, hi, true);
      var keep := Choose(manifest.segments, lo, hi, false);
      ChooseSplits(disk.tables, manifest, lo, hi);
      ChooseMembers(manifest.segments, lo, hi, false);
      ghost var batch := Batch(disk.tables, manifest.l0);
      forall a, b | IsSpan(batch, a, b) ensures a == lo && b == hi {
        SpanUnique(batch, lo, hi, a, b);
      }
      ReplaceSegments(keep, over);
      return Ok(());
    }

    // ---- flush ----

    /** Persists the memtable as the newest level-0 table and empties the log
        (src/lib.rs:541-566). */
    method FlushTable()
      requires Valid() && memtable.entries != []
      modifies this
      ensures Valid() && fresh(memtable) && memtable.entries == []
      ensures RawView() == old(RawView()) && View() == old(View())
      ensures ops == [] && buffer == [] && nextTx == old(nextTx)
      ensures manifest.l0 == old(manifest).l0 + [old(manifest).nextId]
      ensures disk == Flushed(old(disk), old(memtable.entries)).(log := [])
      ensures FlushTrail(old(trail), trail, old(disk), old(memtable.entries), Wal.LogOf(old(ops)))
    {
      PersistTable();
      StartOver();
    }

    /** The table is durable and part of the manifest, the log empty. */
    method PersistTable()
      requires Valid() && memtable.entries != []
      modifies `manifest, `disk, `trail, `buffer
      ensures manifest == disk.manifest && ManifestOk(disk.tables, manifest) && disk.log == [] && buffer == []
      ensures disk == Flushed(old(disk), memtable.entries).(log := [])
      ensures Base(disk.tables, manifest) + map[] == old(RawView())
      ensures manifest.l0 == old(manifest).l0 + [old(manifest).nextId]
      ensures FlushTrail(old(trail), trail, old(disk), memtable.entries, Wal.LogOf(ops))
    {
      FlushReadyNow();
      FlushedRaw(disk, memtable.entries, ops);
      WriteTable();
    }

    /** The durable steps of a flush: the table, the manifest, then the log. */
    method WriteTable()
      requires manifest == disk.manifest && disk.log + buffer == Wal.LogOf(ops)
      modifies `manifest, `disk, `trail, `buffer
      ensures disk == Flushed(old(disk), memtable.entries).(log := []) && manifest == disk.manifest && buffer == []
      ensures FlushTrail(old(trail), trail, old(disk), memtable.entries, Wal.LogOf(ops))
    {
      var id := manifest.nextId;
      CreateTable(id, memtable.entries);
      manifest := Manifest(manifest.l0 + [id], manifest.segments, id + 1);
      SaveManifest();
      TruncateLog();
    }

    /** An empty memtable over the tables, with an empty log. */
    method StartOver()
      requires opts.segmentMax >= 1 && manifest == disk.manifest && ManifestOk(disk.tables, manifest)
      requires disk.log == [] && buffer == [] && nextTx >= 1
      modifies `memtable, `ops
      ensures Valid() && fresh(memtable) && memtable.entries == [] && ops == []
      ensures RawView() == Base(disk.tables, manifest) + map[]
    {
      NoOps(nextTx);
      memtable := new Memtable.MemTable();
      ops := [];
    }

    lemma FlushReadyNow()
      requires Valid() && memtable.entries != []
      ensures FlushReady(disk, memtable.entries, ops)
    {
    }

    /** Flush followed by the automatic compaction (src/lib.rs:541-574). A crash on the way
        leaves the view after some prefix of the operations, and the whole view if the log
        was complete on disk. */
    method Flush()
      requires Valid()
      modifies this
      ensures Valid() && View() == old(View()) && memtable.entries == [] && nextTx == old(nextTx)
      ensures RawView().Keys <= old(RawView()).Keys
      ensures memtable == old(memtable) || fresh(memtable)
      ensures AllDurable(disk, ops) && disk.log <= Wal.LogOf(old(ops))
      ensures TrailLeaves(old(trail), trail, old(disk), old(buffer), old(ops))
      ensures old(memtable.entries) == [] ==> trail == old(trail) && disk == old(disk)
      ensures old(memtable.entries) != [] ==> |trail| >= |old(trail)| + 4 && disk.log == []
      ensures old(memtable.entries) != [] && |old(manifest).l0| + 1 < opts.l0Threshold ==>
        disk == Flushed(old(disk), old(memtable.entries)).(log := [])
      ensures old(memtable.entries) != [] && |old(manifest).l0| + 1 >= opts.l0Threshold ==> manifest.l0 == []
      ensures old(buffer) == [] ==> TrailShows(old(trail), trail, old(View()), Wal.LogOf(old(ops)))
    {
      if memtable.entries == [] {
        IdleIsDurable(disk, ops);
        return;
      }
      ghost var d, recs, was := disk, memtable.entries, ops;
      FlushReadyNow();
      FlushTable();
      FlushTrailLeaves(old(trail), trail, d, old(buffer), recs, was);
      if d.log == Wal.LogOf(was) {
        FlushTrailShows(old(trail), trail, d, recs, was);
      }
      ghost var steps := trail;
      if |manifest.l0| >= opts.l0Threshold {
        var r := Compact();
        LeavesContinues(old(trail), steps, trail, d, old(buffer), was, AsMap(recs));
        if d.log == Wal.LogOf(was) {
          TrailContinues(old(trail), steps, trail, old(View()), Wal.LogOf(was), []);
        }
      }
      IdleIsDurable(disk, ops);
    }

    // ---- writes ----

    /** Log record and memtable entry of one plain write. */
    method Append(rec: Record)
      requires Valid()
      modifies `buffer, `ops, memtable
      ensures Valid() && View() == Edited(old(View()), [rec])
      ensures RawView().Keys <= old(RawView()).Keys + {rec.key}
      ensures ops == old(ops) + [Wal.Write(rec)] && buffer == old(buffer) + [Wal.WriteRec(rec)]
      ensures memtable.sizeBytes ==
        Memtable.Grown(old(memtable.sizeBytes), AsMap(old(memtable.entries)), rec.key, rec.entry)
    {
      var op := Wal.Write(rec);
      LogStateSnoc(disk.log, buffer, ops, op, nextTx);
      AppendedView([rec], op);
      buffer := buffer + [Wal.WriteRec(rec)];
      ops := ops + [op];
      memtable.Put(rec.key, rec.entry);
    }

    lemma AppendedView(muts: seq<Record>, op: Wal.Op)
      requires Valid() && Wal.Mutations([op]) == muts
      ensures Memtable.Applied(map[], Wal.Mutations(ops + [op])) == Memtable.Applied(AsMap(memtable.entries), muts)
      ensures Live(Base(disk.tables, manifest) + Memtable.Applied(AsMap(memtable.entries), muts)) == Edited(View(), muts)
    {
      Wal.LogOfSnoc(ops, op);
      Memtable.AppliedConcat(map[], Wal.Mutations(ops), muts);
      EditedIsLive(Base(disk.tables, manifest), AsMap(memtable.entries), muts);
    }

    /** Put or delete (src/lib.rs:330-340): the reader's map changes at one key. Until the
        next flush the write is only buffered. */
    method PutInternal(rec: Record)
      requires Valid()
      modifies this, memtable
      ensures Valid() && View() == Edited(old(View()), [rec])
      ensures RawView().Keys <= old(RawView()).Keys + {rec.key}
      ensures nextTx == old(nextTx) && (memtable == old(memtable) || fresh(memtable))
      ensures AllDurable(disk, ops) || (disk == old(disk) && ops == old(ops) + [Wal.Write(rec)])
      ensures var size := Memtable.Grown(old(memtable.sizeBytes), AsMap(old(memtable.entries)), rec.key, rec.entry);
        if size >= opts.memtableLimit then memtable.entries == [] && AllDurable(disk, ops)
        else memtable.sizeBytes == size && disk == old(disk) && ops == old(ops) + [Wal.Write(rec)]
      ensures TrailLeaves(old(trail), trail, old(disk), old(buffer) + [Wal.WriteRec(rec)], old(ops) + [Wal.Write(rec)])
    {
      Append(rec);
      if memtable.sizeBytes >= opts.memtableLimit {
        Flush();
      }
    }

    // ---- transactions ----

    /** A new transaction id; no block of the current log uses it (src/lib.rs:343-347). */
    method AllocTxId() returns (id: U64)
      requires Valid() && nextTx < U64_LIMIT
      modifies `nextTx
      ensures Valid() && id == old(nextTx) && nextTx == old(nextTx) + 1 && Unused(ops, id)
      ensures RawView() == old(RawView())
    {
      id := nextTx;
      nextTx := nextTx + 1;
    }

    /** Buffers `Begin`, the mutations and `Commit` (src/entity.rs:1471-1480). */
    method LogBlock(id: U64, muts: seq<Record>)
      requires Logged() && id < nextTx && Unused(ops, id)
      modifies `buffer, `ops
      ensures Logged() && ops == old(ops) + [Wal.Tx(id, muts)]
    {
      ghost var op := Wal.Tx(id, muts);
      LogStateSnoc(disk.log, buffer, ops, op, nextTx);
      BufferBlock(id, muts);
      ops := ops + [op];
    }

    method BufferBlock(id: U64, muts: seq<Record>)
      modifies `buffer
      ensures buffer == old(buffer) + Wal.Block(Wal.Tx(id, muts))
    {
      buffer := buffer + [Wal.Begin(id)];
      var i := 0;
      while i < |muts|
        invariant 0 <= i <= |muts|
        invariant buffer == old(buffer) + ([Wal.Begin(id)] + Wal.TxRecs(id, muts)[..i])
      {
        buffer := buffer + [Wal.TxRec(id, muts[i])];
        i := i + 1;
      }
      buffer := buffer + [Wal.Commit(id)];
    }

    /** Transaction commit (src/entity.rs:1470-1496): log block, sync, then the memtable.
        After the sync no crash can undo it, and before it none can apply part of it. */
    method Commit(id: U64, muts: seq<Record>)
      requires Valid() && id < nextTx && Unused(ops, id)
      modifies this, memtable
      ensures Valid() && View() == Edited(old(View()), muts)
      ensures nextTx == old(nextTx) && (memtable == old(memtable) || fresh(memtable))
      ensures AllDurable(disk, ops) && |trail| > |old(trail)|
      ensures RawView().Keys <= old(RawView()).Keys + KeysOf(muts)
      ensures TrailShows(old(trail), trail, View(), Wal.LogOf(old(ops) + [Wal.Tx(id, muts)]))
      ensures var size := Memtable.GrownAll(old(memtable.sizeBytes), AsMap(old(memtable.entries)), muts);
        if size >= opts.memtableLimit then memtable.entries == []
        else memtable.sizeBytes == size && disk == old(disk).(log := Wal.LogOf(ops))
    {
      CommitDurably(id, muts);
      ghost var steps := trail;
      SyncedIsDurable(disk, ops);
      if memtable.sizeBytes >= opts.memtableLimit {
        Flush();
        TrailContinues(old(trail), steps, trail, View(), Wal.LogOf(old(ops) + [Wal.Tx(id, muts)]),
                       Wal.LogOf(old(ops) + [Wal.Tx(id, muts)]));
      }
    }

    method CommitDurably(id: U64, muts: seq<Record>)
      requires Valid() && id < nextTx && Unused(ops, id)
      modifies `buffer, `ops, `disk, `trail, memtable
      ensures Valid() && View() == Edited(old(View()), muts)
      ensures ops == old(ops) + [Wal.Tx(id, muts)] && disk.log == Wal.LogOf(ops) && buffer == []
      ensures TrailShows(old(trail), trail, View(), Wal.LogOf(ops)) && |trail| > |old(trail)|
      ensures RawView().Keys <= old(RawView()).Keys + KeysOf(muts)
      ensures disk == old(disk).(log := Wal.LogOf(ops))
      ensures memtable.sizeBytes == Memtable.GrownAll(old(memtable.sizeBytes), AsMap(old(memtable.entries)), muts)
    {
      ghost var op := Wal.Tx(id, muts);
      assert [op][1..] == [] && Wal.Mutations([op]) == muts;
      AppendedView(muts, op);
      AppliedKnows(AsMap(memtable.entries), muts);
      LogDurably(id, muts);
      ApplyTo(memtable, muts);
      WholeLogShows(disk, ops);
      TrailGrows(old(trail), old(trail), disk, View(), disk.log);
    }

    method LogDurably(id: U64, muts: seq<Record>)
      requires Logged() && id < nextTx && Unused(ops, id)
      modifies `buffer, `ops, `disk, `trail
      ensures Logged() && ops == old(ops) + [Wal.Tx(id, muts)] && buffer == []
      ensures disk == old(disk).(log := Wal.LogOf(ops)) && trail == old(trail) + [disk]
    {
      LogBlock(id, muts);
      assert disk.log + buffer + [] == disk.log + buffer;
      SyncLog();
    }

    // ---- maintenance ----

    /** Merges everything into fresh segments (src/lib.rs:896-942): nothing visible changes,
        level 0 is empty and no tombstone is left. */
    method CompactFull() returns (n: nat)
      requires Valid()
      modifies this
      ensures Valid() && View() == old(View()) && n == |manifest.segments|
      ensures manifest.l0 == [] && Values(RawView()) == RawView()
      ensures forall s :: s in manifest.segments ==> s.records <= opts.segmentMax
      ensures nextTx == old(nextTx) && (memtable == old(memtable) || fresh(memtable))
      ensures AllDurable(disk, ops)
      ensures old(memtable.entries) == [] ==> TrailShows(old(trail), trail, old(View()), Wal.LogOf(old(ops)))
      ensures old(memtable.entries) != [] ==> TrailLeaves(old(trail), trail, old(disk), old(buffer), old(ops))
      ensures old(buffer) == [] ==> TrailShows(old(trail), trail, old(View()), Wal.LogOf(old(ops)))
    {
      ghost var d, all, was := disk, AsMap(memtable.entries), ops;
      Flush();
      ghost var steps := trail;
      MergeAll();
      n := |manifest.segments|;
      if old(memtable.entries) != [] {
        LeavesContinues(old(trail), steps, trail, d, old(buffer), was, all);
      }
      if old(buffer) == [] {
        TrailContinues(old(trail), steps, trail, old(View()), Wal.LogOf(old(ops)), disk.log);
      }
    }

    method MergeAll()
      requires Valid() && memtable.entries == []
      modifies `manifest, `disk, `trail
      ensures Valid() && View() == old(View()) && manifest.l0 == [] && Values(RawView()) == RawView()
      ensures forall s :: s in manifest.segments ==> s.records <= opts.segmentMax
      ensures AllDurable(disk, ops)
      ensures disk.log == old(disk).log && TrailShows(old(trail), trail, old(View()), disk.log)
    {
      EverythingSplits(disk.tables, manifest);
      ReplaceSegments([], manifest.segments);
      IdleIsDurable(disk, ops);
    }

    /** Deletes exactly the table files that the manifest does not mention and whose name
        has the six-digit form (src/lib.rs:673-716). */
    method Gc() returns (removed: nat)
      requires Valid()
      modifies `disk, `trail
      ensures Valid() && View() == old(View())
      ensures disk == old(disk).(tables := old(disk).tables - Orphans(old(disk).tables, manifest))
      ensures forall id :: id in disk.tables <==> id in old(disk).tables && (id in AllIds(manifest) || id > 999999)
      ensures removed == |set id | id in old(disk).tables && id !in AllIds(manifest) && id <= 999999|
      ensures Base(disk.tables, manifest) == Base(old(disk).tables, manifest)
      ensures TrailShows(old(trail), trail, Recovered(old(disk)), disk.log)
    {
      removed := RemoveOrphans(Orphans(disk.tables, manifest), Recovered(disk));
      assert Orphans(old(disk).tables, manifest) ==
        set id | id in old(disk).tables && id !in AllIds(manifest) && id <= 999999;
    }

    method RemoveOrphans(all: set<nat>, ghost view: map<ByteString, ByteString>) returns (removed: nat)
      requires Shows(disk, view) && forall id :: id in all ==> id !in AllIds(disk.manifest)
      modifies `disk, `trail
      ensures disk == old(disk).(tables := old(disk).tables - all) && removed == |all|
      ensures Base(disk.tables, disk.manifest) == Base(old(disk).tables, disk.manifest)
      ensures Shows(disk, view) && TrailShows(old(trail), trail, view, disk.log)
    {
      var todo := all;
      ReferencedExist(disk.tables, disk.manifest);
      removed := 0;
      while todo != {}
        invariant todo <= all && removed == |all| - |todo|
        invariant disk == old(disk).(tables := old(disk).tables - (all - todo))
        invariant SameFor(disk.manifest, old(disk).tables, disk.tables) && Shows(disk, view)
        invariant TrailShows(old(trail), trail, view, disk.log)
        decreases |todo|
      {
        var id :| id in todo;
        ghost var steps := trail;
        RemoveOrphan(id, view);
        TrailGrows(old(trail), steps, disk, view, disk.log);
        todo := todo - {id};
        MinusOneMore(old(disk).tables, all, todo, id);
        removed := removed + 1;
      }
      assert all - todo == all;
      FrameBase(disk.manifest, old(disk).tables, disk.tables);
    }

    method RemoveOrphan(id: nat, ghost view: map<ByteString, ByteString>)
      requires Shows(disk, view) && id !in AllIds(disk.manifest)
      modifies `disk, `trail
      ensures disk == old(disk).(tables := old(disk).tables - {id})
      ensures SameFor(disk.manifest, old(disk).tables, disk.tables)
      ensures Shows(disk, view) && trail == old(trail) + [disk]
    {
      ReferencedExist(disk.tables, disk.manifest);
      ghost var was := disk;
      disk := disk.(tables := disk.tables - {id});
      UnreferencedFiles(was, disk, view);
      trail := trail + [disk];
    }
  }

  /** Table files that no manifest entry refers to; `{:06}` names longer than six digits
      are skipped. */
  function Orphans(tables: Tables, m: Manifest): set<nat> {
    set id | id in tables && id !in AllIds(m) && id <= 999999
  }

  lemma MinusOneMore(tables: Tables, all: set<nat>, todo: set<nat>, id: nat)
    requires id in all && id !in todo
    ensures tables - (all - (todo + {id})) - {id} == tables - (all - todo)
  {
  }

  /** What `validate_open_state` asks of the files (src/lib.rs:279-309). */
  predicate OpenStateOk(tables: Tables, m: Manifest) {
    && (forall i :: 0 <= i < |m.l0| ==> m.l0[i] in tables)
    && (forall i :: 0 <= i < |m.segments| ==> BoundsMatch(tables, m.segments[i]))
  }

  predicate BoundsMatch(tables: Tables, s: SegmentMeta) {
    && s.fileId in tables && tables[s.fileId] != []
    && tables[s.fileId][0].key == s.minKey
    && tables[s.fileId][|tables[s.fileId]| - 1].key == s.maxKey
  }

  /** A missing file or a segment range that differs from its table is refused. */
  method ValidateOpenState(tables: Tables, m: Manifest) returns (r: Result<()>)
    ensures r.Ok? <==> OpenStateOk(tables, m)
    ensures r.Err? ==> r.error == Corrupt
    ensures ManifestOk(tables, m) ==> r.Ok?
  {
    var i := 0;
    while i < |m.l0|
      invariant 0 <= i <= |m.l0| && forall j :: 0 <= j < i ==> m.l0[j] in tables
    {
      if m.l0[i] !in tables {
        assert m.l0[i] in m.l0;
        return Err(Corrupt);
      }
      i := i + 1;
    }
    i := 0;
    while i < |m.segments|
      invariant 0 <= i <= |m.segments| && forall j :: 0 <= j < i ==> BoundsMatch(tables, m.segments[j])
    {
      var s := m.segments[i];
      assert s in m.segments;
      if s.fileId !in tables || tables[s.fileId] == [] {
        return Err(Corrupt);
      }
      var table := tables[s.fileId];
      if table[0].key != s.minKey || table[|table| - 1].key != s.maxKey {
        return Err(Corrupt);
      }
      i := i + 1;
    }
    return Ok(());
  }

  lemma EverythingSplits(tables: Tables, m: Manifest)
    requires ManifestOk(tables, m)
    ensures Splits(tables, m, [], m.segments)
    ensures var all := Replaced(tables, m, m.segments);
      Level(tables, []) + Values(all) == Values(all) == Values(Values(all))
  {
    assert MapsOf(tables, SegmentIds([])) == [];
    assert Level(tables, []) == map[];
    assert map[] + Level(tables, m.segments) == Level(tables, m.segments);
    var all := Values(Replaced(tables, m, m.segments));
    assert map[] + all == all && Values(all) == all;
  }

  /** Every segment that misses the span of the level-0 batch is still there. */
  ghost predicate Retains(tables: Tables, m: Manifest, m': Manifest) {
    forall lo, hi, s :: IsSpan(Batch(tables, m.l0), lo, hi) && s in m.segments && !Overlaps(s, lo, hi) ==> s in m'.segments
  }

  lemma SpanUnique(m: EntryMap, lo: ByteString, hi: ByteString, a: ByteString, b: ByteString)
    requires IsSpan(m, lo, hi) && IsSpan(m, a, b)
    ensures a == lo && b == hi
  {
    LessTotal(a, lo);
    LessTotal(b, hi);
  }

  lemma CompactedSegments(tables: Tables, t': Tables, m: Manifest, keep: seq<SegmentMeta>, over: seq<SegmentMeta>,
                          merged: seq<Record>, segs: seq<SegmentMeta>, nextId: nat)
    requires ManifestOk(tables, m) && Splits(tables, m, keep, over) && SameFor(m, tables, t')
    requires AsMap(merged) == Values(Replaced(tables, m, over))
    requires ChunksOf(t', segs, merged, m.nextId, nextId)
    ensures multiset(SortSegments(keep + segs)) == multiset(keep + segs)
    ensures forall s :: s in Compacted(keep, segs, nextId).segments <==> s in keep || s in segs
  {
    CompactedLevel(tables, t', m, keep, over, merged, segs, nextId);
    SortSegmentsOk(keep + segs);
    SameMembers(SortSegments(keep + segs), keep + segs);
  }

  /** The segments that miss the batch span stay, the others are merged. */
  lemma ChooseSplits(tables: Tables, m: Manifest, lo: ByteString, hi: ByteString)
    requires ManifestOk(tables, m) && InSpan(Batch(tables, m.l0), lo, hi)
    ensures var keep := Choose(m.segments, lo, hi, false);
      var over := Choose(m.segments, lo, hi, true);
      Splits(tables, m, keep, over) && AllStored(tables, over)
      && forall s :: s in over ==> s in m.segments && s !in keep
  {
    ChooseOk(m.segments, lo, hi, false);
    ChooseMembers(m.segments, lo, hi, false);
    ChooseMembers(m.segments, lo, hi, true);
    PartitionLevel(tables, m.segments, lo, hi);
    forall s | s in Choose(m.segments, lo, hi, false)
      ensures Misses(s, Replaced(tables, m, Choose(m.segments, lo, hi, true)))
    {
      RetainedMissesMerge(tables, m.segments, Batch(tables, m.l0), lo, hi, s);
    }
  }

  /** `key` lies in the segment's range, ends included. */
  predicate Covers(s: SegmentMeta, key: ByteString) {
    AtMost(s.minKey, key) && AtMost(key, s.maxKey)
  }

  lemma MinKeysAscend(segs: seq<SegmentMeta>, i: nat, j: nat)
    requires SegmentsOk(segs) && i < j < |segs|
    ensures Less(segs[i].minKey, segs[j].minKey)
  {
    AtMostThenLess(segs[i].minKey, segs[i].maxKey, segs[j].minKey);
  }

  lemma SegmentMissing(tables: Tables, segs: seq<SegmentMeta>, seg: Option<nat>, key: ByteString)
    requires SegmentsOk(segs) && AllStored(tables, segs)
    requires seg.Some? ==> seg.value < |segs| && Covers(segs[seg.value], key)
    requires seg.Some? ==> key !in TableMap(tables, segs[seg.value].fileId)
    requires seg.None? ==> forall s :: s in segs ==> !Covers(s, key)
    ensures key !in Level(tables, segs)
  {
    if key in Level(tables, segs) {
      var i := SegmentsHave(tables, segs, key);
      assert segs[i] in segs;
      SegmentBounds(tables, segs[i], key);
      if seg.Some? {
        var j := seg.value;
        AtMostThenLess(key, segs[i].maxKey, segs[j].minKey);
        AtMostThenLess(key, segs[j].maxKey, segs[i].minKey);
      }
    }
  }

  lemma ScanIsLive(raw: EntryMap, rows: EntryMap, start: Option<ByteString>, end: Option<ByteString>)
    requires rows == Values(Restrict(raw, start, end))
    ensures Live(rows) == (map k | k in Live(raw) && Between(k, start, end) :: Live(raw)[k])
  {
  }
}
