/** What is on disk and what opening it shows: the tables under the replayed log, for
    every point at which a crash may cut that log. */
module Recovery {
  import opened Seqs
  import opened Std
  import opened Bytes
  import opened Records
  import opened ManifestModel
  import opened Layers
  import Memtable
  import Wal

  /** Durable state: table files, the saved manifest and the log on disk. */
  datatype Disk = Disk(tables: Tables, manifest: Manifest, log: seq<Wal.LogRec>)

  /** What `open` makes of a disk: the tables under the replayed log. */
  function Recovered(d: Disk): map<ByteString, ByteString> {
    Live(Memtable.Applied(Base(d.tables, d.manifest), Wal.Resolve(d.log)))
  }

  /** The disk can be opened and shows `view`. */
  ghost predicate Shows(d: Disk, view: map<ByteString, ByteString>) {
    ManifestOk(d.tables, d.manifest) && Recovered(d) == view
  }

  /** Every durable state reached since `before` shows `view` and has a log that is a
      prefix of `log`. */
  ghost predicate TrailShows(before: seq<Disk>, now: seq<Disk>, view: map<ByteString, ByteString>,
                             log: seq<Wal.LogRec>)
  {
    before <= now && forall i :: |before| <= i < |now| ==> Shows(now[i], view) && now[i].log <= log
  }

  lemma TrailGrows(before: seq<Disk>, now: seq<Disk>, d: Disk, view: map<ByteString, ByteString>,
                   log: seq<Wal.LogRec>)
    requires TrailShows(before, now, view, log) && Shows(d, view) && d.log <= log
    ensures TrailShows(before, now + [d], view, log)
  {
  }

  lemma TrailContinues(a: seq<Disk>, b: seq<Disk>, c: seq<Disk>, view: map<ByteString, ByteString>,
                       log: seq<Wal.LogRec>, shorter: seq<Wal.LogRec>)
    requires TrailShows(a, b, view, log) && TrailShows(b, c, view, shorter) && shorter <= log
    ensures TrailShows(a, c, view, log)
  {
  }

  /** A disk of which only the first `n` buffered log records arrived. */
  function CrashImage(d: Disk, buffer: seq<Wal.LogRec>, n: nat): Disk
    requires n <= |buffer|
  {
    d.(log := d.log + buffer[..n])
  }

  /** All transaction ids in the log are below the next one. */
  ghost predicate IdsBelow(ops: seq<Wal.Op>, nextTx: nat) {
    forall i, id: U64 :: 0 <= i < |ops| && Wal.Uses(ops[i], id) ==> id < nextTx
  }

  /** Every id a block uses stands in the log, in its `Begin` record. */
  lemma {:induction false} UsedIdsAreLogged(ops: seq<Wal.Op>, i: nat)
    requires i < |ops| && !ops[i].Write?
    ensures Wal.Begin(ops[i].id) in Wal.LogOf(ops)
  {
    if i > 0 {
      UsedIdsAreLogged(ops[1..], i - 1);
    }
  }

  lemma LogBoundsIds(ops: seq<Wal.Op>)
    ensures IdsBelow(ops, Wal.MaxTx(Wal.LogOf(ops)) + 1)
  {
    Wal.MaxTxBound(Wal.LogOf(ops));
    forall i, id: U64 | 0 <= i < |ops| && Wal.Uses(ops[i], id) ensures id < Wal.MaxTx(Wal.LogOf(ops)) + 1 {
      UsedIdsAreLogged(ops, i);
      assert Wal.TxOf(Wal.Begin(id)) == Some(id);
    }
  }

  lemma AppliedToBase(base: EntryMap, muts: seq<Record>)
    ensures Memtable.Applied(base, muts) == base + Memtable.Applied(map[], muts)
  {
    Memtable.AppliedOverlays(base, muts);
  }

  // ---- what a disk shows ----

  /** A log cut anywhere shows the tables under the mutations of the first operations. */
  lemma CutLogShows(d: Disk, ops: seq<Wal.Op>, n: nat)
    requires Wal.DistinctIds(ops) && n <= |Wal.LogOf(ops)| && d.log == Wal.LogOf(ops)[..n]
    ensures Wal.Resolve(d.log) == Wal.Mutations(ops[..Wal.WholeOps(ops, n)])
    ensures Recovered(d) ==
      Live(Base(d.tables, d.manifest) + Memtable.Applied(map[], Wal.Mutations(ops[..Wal.WholeOps(ops, n)])))
  {
    Wal.CutIsLog(ops, n);
    Wal.CutIsOperationPrefix(ops, n);
    Wal.CutKeepsIdsDistinct(ops, n);
    Wal.ResolveOps(Wal.Cut(ops, n));
    AppliedToBase(Base(d.tables, d.manifest), Wal.Resolve(d.log));
  }

  /** The complete log shows the tables under the memtable. */
  lemma WholeLogShows(d: Disk, ops: seq<Wal.Op>)
    requires Wal.DistinctIds(ops) && d.log == Wal.LogOf(ops)
    ensures Recovered(d) == Live(Base(d.tables, d.manifest) + Memtable.Applied(map[], Wal.Mutations(ops)))
  {
    Wal.ResolveOps(ops);
    AppliedToBase(Base(d.tables, d.manifest), Wal.Resolve(d.log));
  }

  lemma {:induction false} MutationsPrefix(ops: seq<Wal.Op>, m: nat)
    requires m <= |ops|
    ensures Wal.Mutations(ops[..m]) <= Wal.Mutations(ops)
  {
    if m > 0 {
      MutationsPrefix(ops[1..], m - 1);
      assert ops[..m][1..] == ops[1..][..m - 1];
    }
  }

  lemma NothingApplied(muts: seq<Record>)
    ensures muts == [] || Memtable.Applied(map[], muts) != map[]
  {
    if muts != [] {
      assert muts[|muts| - 1].key in Memtable.Applied(map[], muts);
    }
  }

  /** With an empty memtable the log has no effect, however much of it is on disk. */
  lemma IdleLogShows(d: Disk, ops: seq<Wal.Op>, n: nat)
    requires Wal.DistinctIds(ops) && n <= |Wal.LogOf(ops)| && d.log == Wal.LogOf(ops)[..n]
    requires Memtable.Applied(map[], Wal.Mutations(ops)) == map[]
    ensures Wal.Resolve(d.log) == [] && Recovered(d) == Live(Base(d.tables, d.manifest))
  {
    CutLogShows(d, ops, n);
    NothingApplied(Wal.Mutations(ops));
    MutationsPrefix(ops, Wal.WholeOps(ops, n));
    assert Base(d.tables, d.manifest) + map[] == Base(d.tables, d.manifest);
  }

  lemma IdleEngine(d: Disk, ops: seq<Wal.Op>)
    requires Wal.DistinctIds(ops) && d.log <= Wal.LogOf(ops)
    requires Memtable.Applied(map[], Wal.Mutations(ops)) == map[]
    ensures Wal.Resolve(d.log) == []
    ensures Recovered(d) == Live(Base(d.tables, d.manifest)) == Live(Base(d.tables, d.manifest) + map[])
  {
    assert Wal.LogOf(ops)[..|d.log|] == d.log;
    IdleLogShows(d, ops, |d.log|);
    assert Base(d.tables, d.manifest) + map[] == Base(d.tables, d.manifest);
  }

  /** Files that the manifest does not mention are of no consequence. */
  lemma UnreferencedFiles(d: Disk, d': Disk, view: map<ByteString, ByteString>)
    requires Shows(d, view) && d'.manifest == d.manifest && d'.log == d.log
    requires SameFor(d.manifest, d.tables, d'.tables)
    ensures Shows(d', view)
  {
    FrameBase(d.manifest, d.tables, d'.tables);
    FrameOk(d.manifest, d.tables, d'.tables);
  }

  // ---- the views a crash can leave ----

  /** The view after the first `m` operations since the last flush. */
  ghost function ViewAfter(d: Disk, ops: seq<Wal.Op>, m: nat): map<ByteString, ByteString>
    requires m <= |ops|
  {
    Live(Base(d.tables, d.manifest) + Memtable.Applied(map[], Wal.Mutations(ops[..m])))
  }

  /** The operations that no crash can take back: their records are on disk. */
  ghost function Durable(d: Disk, ops: seq<Wal.Op>): (m: nat)
    ensures m <= |ops|
  {
    Wal.WholeOps(ops, |d.log|)
  }

  /** A crash can lose nothing that is visible. */
  ghost predicate AllDurable(d: Disk, ops: seq<Wal.Op>) {
    forall m :: Durable(d, ops) <= m <= |ops| ==> ViewAfter(d, ops, m) == ViewAfter(d, ops, |ops|)
  }

  /** Whatever part of the buffer reaches the disk, opening it shows the view after some
      prefix of the operations: at least the durable ones, all of them if all arrived. */
  lemma CrashShowsPrefix(d: Disk, buffer: seq<Wal.LogRec>, ops: seq<Wal.Op>, n: nat) returns (m: nat)
    requires Wal.DistinctIds(ops) && d.log + buffer == Wal.LogOf(ops) && n <= |buffer|
    ensures Durable(d, ops) <= m <= |ops| && (n == |buffer| ==> m == |ops|)
    ensures Recovered(CrashImage(d, buffer, n)) == ViewAfter(d, ops, m)
    ensures CrashImage(d, buffer, n).log <= Wal.LogOf(ops)
  {
    var image := CrashImage(d, buffer, n);
    assert image.log == Wal.LogOf(ops)[..|d.log| + n];
    m := Wal.WholeOps(ops, |d.log| + n);
    CutLogShows(image, ops, |d.log| + n);
    Wal.WholeOpsMonotone(ops, |d.log|, |d.log| + n);
    Wal.WholeOpsAll(ops);
  }

  lemma SyncedIsDurable(d: Disk, ops: seq<Wal.Op>)
    requires d.log == Wal.LogOf(ops)
    ensures Durable(d, ops) == |ops| && AllDurable(d, ops)
  {
    Wal.WholeOpsAll(ops);
    forall m | Durable(d, ops) <= m <= |ops| ensures ViewAfter(d, ops, m) == ViewAfter(d, ops, |ops|) {
      assert m == |ops|;
    }
  }

  /** If nothing that was logged has an effect, nothing can be lost. */
  lemma IdleIsDurable(d: Disk, ops: seq<Wal.Op>)
    requires Memtable.Applied(map[], Wal.Mutations(ops)) == map[]
    ensures AllDurable(d, ops)
  {
    assert ops[..|ops|] == ops;
    NothingApplied(Wal.Mutations(ops));
    forall m | Durable(d, ops) <= m <= |ops| ensures ViewAfter(d, ops, m) == ViewAfter(d, ops, |ops|) {
      MutationsPrefix(ops, m);
    }
  }

  /** Ids in a cut log stay below the bound of the full one, so a reopened engine
      never needs a larger one. */
  lemma CutBoundsIds(ops: seq<Wal.Op>, n: nat, nextTx: nat)
    requires IdsBelow(ops, nextTx) && n <= |Wal.LogOf(ops)| && nextTx >= 1
    ensures Wal.MaxTx(Wal.LogOf(ops)[..n]) < nextTx
  {
    var log := Wal.LogOf(ops)[..n];
    Wal.MaxTxAttained(log);
    if Wal.MaxTx(log) != 0 {
      var r :| r in log && Wal.TxOf(r) == Some(Wal.MaxTx(log));
      Wal.IdsOfLog(ops, r);
    }
  }

  /** A fresh log. */
  lemma NoOps(nextTx: nat)
    ensures Wal.LogOf([]) == [] && Wal.Mutations([]) == [] && Memtable.Applied(map[], []) == map[]
    ensures nextTx >= 1 ==> LogState([] + [], [], nextTx)
  {
  }

  /** The plain map after a list of writes and deletions. */
  function Edited(view: map<ByteString, ByteString>, muts: seq<Record>): map<ByteString, ByteString> {
    if muts == [] then view
    else
      var before, r := Edited(view, muts[..|muts| - 1]), muts[|muts| - 1];
      if r.entry.Some? then before[r.key := r.entry.value] else before - {r.key}
  }

  /** Entries with tombstones on top of a base behave like the plain map. */
  lemma {:induction false} EditedIsLive(base: EntryMap, m: EntryMap, muts: seq<Record>)
    ensures Live(base + Memtable.Applied(m, muts)) == Edited(Live(base + m), muts)
  {
    if muts != [] {
      EditedIsLive(base, m, muts[..|muts| - 1]);
      LiveUpdate(base, Memtable.Applied(m, muts[..|muts| - 1]), muts[|muts| - 1]);
    }
  }

  lemma LiveUpdate(base: EntryMap, m: EntryMap, r: Record)
    ensures Live(base + m[r.key := r.entry]) ==
      if r.entry.Some? then Live(base + m)[r.key := r.entry.value] else Live(base + m) - {r.key}
  {
    assert base + m[r.key := r.entry] == (base + m)[r.key := r.entry];
  }

  ghost predicate Unused(ops: seq<Wal.Op>, id: U64) {
    forall i :: 0 <= i < |ops| ==> !Wal.Uses(ops[i], id)
  }

  /** The records in file and buffer are those of the operations, block ids are distinct
      and below the next one. */
  ghost predicate LogState(log: seq<Wal.LogRec>, ops: seq<Wal.Op>, nextTx: nat) {
    log == Wal.LogOf(ops) && Wal.DistinctIds(ops) && IdsBelow(ops, nextTx) && nextTx >= 1
  }

  lemma LogStateSnoc(log: seq<Wal.LogRec>, buffer: seq<Wal.LogRec>, ops: seq<Wal.Op>, op: Wal.Op, nextTx: nat)
    requires LogState(log + buffer, ops, nextTx)
    requires op.Write? || (Unused(ops, op.id) && op.id < nextTx)
    ensures LogState(log + (buffer + Wal.Block(op)), ops + [op], nextTx)
  {
    Wal.LogOfSnoc(ops, op);
    IdsSnoc(ops, op, nextTx);
    Assoc(log, buffer, Wal.Block(op));
  }

  lemma IdsSnoc(ops: seq<Wal.Op>, op: Wal.Op, nextTx: nat)
    requires Wal.DistinctIds(ops) && IdsBelow(ops, nextTx)
    requires op.Write? || (Unused(ops, op.id) && op.id < nextTx)
    ensures Wal.DistinctIds(ops + [op]) && IdsBelow(ops + [op], nextTx)
  {
  }

  // ---- flush ----

  /** The disk after a flush wrote `recs` as a level-0 table and saved the manifest, but
      before it cut the log. */
  function Flushed(d: Disk, recs: seq<Record>): Disk {
    var id := d.manifest.nextId;
    Disk(d.tables[id := recs], Manifest(d.manifest.l0 + [id], d.manifest.segments, id + 1), d.log)
  }

  /** The durable steps of a flush: table, manifest, rest of the log, empty log. */
  predicate FlushTrail(before: seq<Disk>, now: seq<Disk>, d: Disk, recs: seq<Record>, log: seq<Wal.LogRec>) {
    now == before + [d.(tables := Flushed(d, recs).tables), Flushed(d, recs),
                     Flushed(d, recs).(log := log), Flushed(d, recs).(log := [])]
  }

  /** `recs` is the memtable of an engine with this disk and these operations. */
  ghost predicate FlushReady(d: Disk, recs: seq<Record>, ops: seq<Wal.Op>) {
    && ManifestOk(d.tables, d.manifest) && Wal.DistinctIds(ops)
    && recs != [] && Sorted(recs) && AsMap(recs) == Memtable.Applied(map[], Wal.Mutations(ops))
  }

  lemma FlushedBase(d: Disk, recs: seq<Record>, ops: seq<Wal.Op>)
    requires FlushReady(d, recs, ops)
    ensures ManifestOk(Flushed(d, recs).tables, Flushed(d, recs).manifest)
    ensures Base(Flushed(d, recs).tables, Flushed(d, recs).manifest) == Base(d.tables, d.manifest) + AsMap(recs)
  {
    FlushExtendsBase(d.tables, d.manifest, d.manifest.nextId, recs);
  }

  lemma OverlayAgain(a: EntryMap, b: EntryMap)
    ensures a + b + b == a + b && a + b + map[] == a + b && a + map[] == a
  {
  }

  /** The new table holds what the memtable held. */
  lemma FlushedRaw(d: Disk, recs: seq<Record>, ops: seq<Wal.Op>)
    requires FlushReady(d, recs, ops)
    ensures ManifestOk(Flushed(d, recs).tables, Flushed(d, recs).manifest)
    ensures Base(Flushed(d, recs).tables, Flushed(d, recs).manifest) + map[] == Base(d.tables, d.manifest) + AsMap(recs)
  {
    FlushedBase(d, recs, ops);
    OverlayAgain(Base(d.tables, d.manifest), AsMap(recs));
  }

  /** With the whole log in place, replaying it over the new table changes nothing. */
  lemma FlushedShows(d: Disk, recs: seq<Record>, ops: seq<Wal.Op>, log: seq<Wal.LogRec>)
    requires FlushReady(d, recs, ops) && (log == Wal.LogOf(ops) || log == [])
    ensures Shows(Flushed(d, recs).(log := log), Live(Base(d.tables, d.manifest) + AsMap(recs)))
  {
    var d' := Flushed(d, recs).(log := log);
    FlushedBase(d, recs, ops);
    OverlayAgain(Base(d.tables, d.manifest), AsMap(recs));
    if log == [] {
      assert Wal.LogOf([]) == [] && Wal.Mutations([]) == [];
      WholeLogShows(d', []);
    } else {
      WholeLogShows(d', ops);
    }
  }

  lemma TableWritten(d: Disk, recs: seq<Record>, view: map<ByteString, ByteString>)
    requires Shows(d, view)
    ensures Shows(d.(tables := Flushed(d, recs).tables), view)
  {
    ReferencedExist(d.tables, d.manifest);
    UnreferencedFiles(d, d.(tables := Flushed(d, recs).tables), view);
  }

  /** A flush that starts with the log complete on disk shows the same view after each
      of its steps. */
  lemma FlushTrailShows(before: seq<Disk>, now: seq<Disk>, d: Disk, recs: seq<Record>, ops: seq<Wal.Op>)
    requires FlushReady(d, recs, ops) && d.log == Wal.LogOf(ops) && FlushTrail(before, now, d, recs, Wal.LogOf(ops))
    ensures TrailShows(before, now, Live(Base(d.tables, d.manifest) + AsMap(recs)), Wal.LogOf(ops))
  {
    var view, log := Live(Base(d.tables, d.manifest) + AsMap(recs)), Wal.LogOf(ops);
    WholeLogShows(d, ops);
    TableWritten(d, recs, view);
    FlushedShows(d, recs, ops, log);
    FlushedShows(d, recs, ops, []);
    assert Flushed(d, recs).(log := log) == Flushed(d, recs);
    FourSteps(before, now, view, log);
  }

  lemma FourSteps(before: seq<Disk>, now: seq<Disk>, view: map<ByteString, ByteString>, log: seq<Wal.LogRec>)
    requires before <= now && |now| == |before| + 4
    requires Shows(now[|before|], view) && Shows(now[|before| + 1], view)
    requires Shows(now[|before| + 2], view) && Shows(now[|before| + 3], view)
    requires now[|before|].log <= log && now[|before| + 1].log <= log
    requires now[|before| + 2].log <= log && now[|before| + 3].log <= log
    ensures TrailShows(before, now, view, log)
  {
    forall i | |before| <= i < |now| ensures Shows(now[i], view) && now[i].log <= log {
      assert i == |before| || i == |before| + 1 || i == |before| + 2 || i == |before| + 3;
    }
  }

  ghost predicate NoneOverwritten(logged: EntryMap, all: EntryMap) {
    forall k :: k in logged ==> k in all && logged[k] == all[k]
  }

  /** A crash between saving the manifest and completing the log is harmless exactly when
      no entry of the logged part was overwritten with a different one later: the logged
      part is replayed on top of the newer table. */
  lemma TornFlushExact(d: Disk, recs: seq<Record>, ops: seq<Wal.Op>, n: nat)
    requires FlushReady(d, recs, ops) && n <= |Wal.LogOf(ops)|
    ensures var logged := Memtable.Applied(map[], Wal.Mutations(ops[..Wal.WholeOps(ops, n)]));
      Recovered(Flushed(d, recs).(log := Wal.LogOf(ops)[..n])) == Live(Base(d.tables, d.manifest) + AsMap(recs))
      <==> NoneOverwritten(logged, AsMap(recs))
  {
    var m := Wal.WholeOps(ops, n);
    var logged := Memtable.Applied(map[], Wal.Mutations(ops[..m]));
    FlushedBase(d, recs, ops);
    CutLogShows(Flushed(d, recs).(log := Wal.LogOf(ops)[..n]), ops, n);
    MutationsPrefix(ops, m);
    AppliedKeys(Wal.Mutations(ops[..m]), Wal.Mutations(ops));
    LiveAgrees(Base(d.tables, d.manifest), AsMap(recs), logged);
  }

  lemma LiveAgrees(base: EntryMap, all: EntryMap, logged: EntryMap)
    requires forall k :: k in logged ==> k in all
    ensures Live(base + all + logged) == Live(base + all) <==> NoneOverwritten(logged, all)
  {
    if Live(base + all + logged) == Live(base + all) {
      forall k | k in logged ensures logged[k] == all[k] {
        assert k in Live(base + all) <==> all[k].Some?;
        assert k in Live(base + all + logged) <==> logged[k].Some?;
      }
    }
    if NoneOverwritten(logged, all) {
      assert base + all + logged == base + all;
    }
  }

  lemma {:induction false} AppliedKeys(a: seq<Record>, b: seq<Record>)
    requires a <= b
    ensures forall k :: k in Memtable.Applied(map[], a) ==> k in Memtable.Applied(map[], b)
  {
    if |a| < |b| {
      AppliedKeys(a, b[..|b| - 1]);
    } else {
      assert a == b;
    }
  }

  // ---- every other durable state of a flush ----

  /** The first `n` log records leave nothing behind that a later record overwrote. */
  ghost predicate Replayable(ops: seq<Wal.Op>, n: nat) {
    NoneOverwritten(Memtable.Applied(map[], Wal.Mutations(ops[..Wal.WholeOps(ops, n)])),
                    Memtable.Applied(map[], Wal.Mutations(ops)))
  }

  /** A disk that can be opened and shows the view after some prefix of the operations,
      at least the durable ones. */
  ghost predicate Leaves(found: Disk, d: Disk, ops: seq<Wal.Op>) {
    && ManifestOk(found.tables, found.manifest) && found.log <= Wal.LogOf(ops)
    && exists m :: Durable(d, ops) <= m <= |ops| && Recovered(found) == ViewAfter(d, ops, m)
  }

  /** A crash finds the `i`-th durable state with `n` more log records. Until the log is
      complete any part of the buffer may have arrived. The states between saving the
      manifest and completing the log count only if the log can be replayed there. */
  ghost predicate CrashPoint(before: seq<Disk>, now: seq<Disk>, d: Disk, buffer: seq<Wal.LogRec>,
                             ops: seq<Wal.Op>, i: nat, n: nat)
  {
    && |before| <= i < |now| && n <= (if i <= |before| + 1 then |buffer| else 0)
    && (i == |before| + 1 ==> Replayable(ops, |d.log| + n))
  }

  /** Every crash since `before` leaves the view after some prefix of the operations. */
  ghost predicate TrailLeaves(before: seq<Disk>, now: seq<Disk>, d: Disk, buffer: seq<Wal.LogRec>, ops: seq<Wal.Op>) {
    && before <= now
    && forall i: nat, n: nat :: CrashPoint(before, now, d, buffer, ops, i, n) ==>
         Leaves(CrashImage(now[i], buffer, n), d, ops)
  }

  lemma AllIsReplayable(ops: seq<Wal.Op>)
    ensures Replayable(ops, |Wal.LogOf(ops)|)
  {
    Wal.WholeOpsAll(ops);
    assert ops[..|ops|] == ops;
  }

  lemma LeavesAll(found: Disk, d: Disk, ops: seq<Wal.Op>, all: EntryMap)
    requires Shows(found, Live(Base(d.tables, d.manifest) + all)) && found.log <= Wal.LogOf(ops)
    requires all == Memtable.Applied(map[], Wal.Mutations(ops))
    ensures Leaves(found, d, ops)
  {
    assert ops[..|ops|] == ops;
    assert Recovered(found) == ViewAfter(d, ops, |ops|);
  }

  /** Before the manifest is saved the new table is of no consequence. */
  lemma TableLeaves(d: Disk, buffer: seq<Wal.LogRec>, recs: seq<Record>, ops: seq<Wal.Op>, n: nat)
    requires FlushReady(d, recs, ops) && d.log + buffer == Wal.LogOf(ops) && n <= |buffer|
    ensures Leaves(CrashImage(d.(tables := Flushed(d, recs).tables), buffer, n), d, ops)
  {
    var image := CrashImage(d, buffer, n);
    var m := CrashShowsPrefix(d, buffer, ops, n);
    TableWritten(image, recs, Recovered(image));
  }

  lemma TornImage(d: Disk, buffer: seq<Wal.LogRec>, recs: seq<Record>, log: seq<Wal.LogRec>, n: nat)
    requires d.log + buffer == log && n <= |buffer|
    ensures |d.log| + n <= |log|
    ensures CrashImage(Flushed(d, recs), buffer, n) == Flushed(d, recs).(log := log[..|d.log| + n])
  {
    assert d.log + buffer[..n] == log[..|d.log| + n];
  }

  /** Between saving the manifest and completing the log. */
  lemma ManifestLeaves(found: Disk, d: Disk, recs: seq<Record>, ops: seq<Wal.Op>, n: nat)
    requires FlushReady(d, recs, ops) && n <= |Wal.LogOf(ops)| && Replayable(ops, n)
    requires found == Flushed(d, recs).(log := Wal.LogOf(ops)[..n])
    ensures Leaves(found, d, ops)
  {
    FlushedBase(d, recs, ops);
    TornFlushExact(d, recs, ops, n);
    LeavesAll(found, d, ops, AsMap(recs));
  }

  lemma LoggedLeaves(d: Disk, buffer: seq<Wal.LogRec>, recs: seq<Record>, ops: seq<Wal.Op>, log: seq<Wal.LogRec>)
    requires FlushReady(d, recs, ops) && (log == Wal.LogOf(ops) || log == [])
    ensures Leaves(CrashImage(Flushed(d, recs).(log := log), buffer, 0), d, ops)
  {
    var found := Flushed(d, recs).(log := log);
    assert CrashImage(found, buffer, 0) == found by {
      assert log + buffer[..0] == log;
    }
    FlushedShows(d, recs, ops, log);
    LeavesAll(found, d, ops, AsMap(recs));
  }

  lemma FlushPointLeaves(before: seq<Disk>, now: seq<Disk>, d: Disk, buffer: seq<Wal.LogRec>, recs: seq<Record>,
                         ops: seq<Wal.Op>, i: nat, n: nat)
    requires FlushReady(d, recs, ops) && d.log + buffer == Wal.LogOf(ops)
    requires FlushTrail(before, now, d, recs, Wal.LogOf(ops)) && CrashPoint(before, now, d, buffer, ops, i, n)
    ensures Leaves(CrashImage(now[i], buffer, n), d, ops)
  {
    if i == |before| {
      TableLeaves(d, buffer, recs, ops, n);
    } else if i == |before| + 1 {
      TornLeaves(d, buffer, recs, ops, n);
    } else if i == |before| + 2 {
      LoggedLeaves(d, buffer, recs, ops, Wal.LogOf(ops));
    } else {
      LoggedLeaves(d, buffer, recs, ops, []);
    }
  }

  lemma TornLeaves(d: Disk, buffer: seq<Wal.LogRec>, recs: seq<Record>, ops: seq<Wal.Op>, n: nat)
    requires FlushReady(d, recs, ops) && d.log + buffer == Wal.LogOf(ops) && n <= |buffer|
    requires Replayable(ops, |d.log| + n)
    ensures Leaves(CrashImage(Flushed(d, recs), buffer, n), d, ops)
  {
    TornImage(d, buffer, recs, Wal.LogOf(ops), n);
    ManifestLeaves(CrashImage(Flushed(d, recs), buffer, n), d, recs, ops, |d.log| + n);
  }

  /** A crash anywhere in a flush, with any part of the buffer on disk, leaves the view
      after some prefix of the operations; in the window after the manifest was saved it
      does so if the log can be replayed there. */
  lemma FlushTrailLeaves(before: seq<Disk>, now: seq<Disk>, d: Disk, buffer: seq<Wal.LogRec>, recs: seq<Record>,
                         ops: seq<Wal.Op>)
    requires FlushReady(d, recs, ops) && d.log + buffer == Wal.LogOf(ops)
    requires FlushTrail(before, now, d, recs, Wal.LogOf(ops))
    ensures TrailLeaves(before, now, d, buffer, ops)
  {
    forall i: nat, n: nat | CrashPoint(before, now, d, buffer, ops, i, n)
      ensures Leaves(CrashImage(now[i], buffer, n), d, ops)
    {
      FlushPointLeaves(before, now, d, buffer, recs, ops, i, n);
    }
  }

  /** Later steps that show the whole view go on like that. */
  lemma LeavesContinues(a: seq<Disk>, b: seq<Disk>, c: seq<Disk>, d: Disk, buffer: seq<Wal.LogRec>, ops: seq<Wal.Op>,
                        all: EntryMap)
    requires TrailLeaves(a, b, d, buffer, ops) && |b| >= |a| + 4
    requires TrailShows(b, c, Live(Base(d.tables, d.manifest) + all), [])
    requires all == Memtable.Applied(map[], Wal.Mutations(ops))
    ensures TrailLeaves(a, c, d, buffer, ops)
  {
    forall i: nat, n: nat | CrashPoint(a, c, d, buffer, ops, i, n) ensures Leaves(CrashImage(c[i], buffer, n), d, ops) {
      if i < |b| {
        assert CrashPoint(a, b, d, buffer, ops, i, n);
      } else {
        assert c[i].log + buffer[..0] == c[i].log;
        LeavesAll(c[i], d, ops, all);
      }
    }
  }

  // ---- a torn flush that shows a state that never was ----

  function Writes(recs: seq<Record>): (ops: seq<Wal.Op>)
    ensures |ops| == |recs| && forall i :: 0 <= i < |ops| ==> ops[i] == Wal.Write(recs[i])
  {
    seq(|recs|, i requires 0 <= i < |recs| => Wal.Write(recs[i]))
  }

  lemma {:induction false} PlainWrites(recs: seq<Record>)
    ensures Wal.Mutations(Writes(recs)) == recs
    ensures |Wal.LogOf(Writes(recs))| == |recs|
    ensures recs != [] ==> Wal.LogOf(Writes(recs))[0] == Wal.WriteRec(recs[0])
  {
    if recs != [] {
      assert Writes(recs)[1..] == Writes(recs[1..]);
      PlainWrites(recs[1..]);
    }
  }

  lemma AppliedOne(r: Record)
    ensures Memtable.Applied(map[], []) == map[] && Memtable.Applied(map[], [r]) == map[r.key := r.entry]
  {
    assert [r][..0] == [];
  }

  /** Two values for `a`, then one for `b`. */
  function Trio(a: ByteString, b: ByteString, x: ByteString, y: ByteString): seq<Record> {
    [Record(a, Some(x)), Record(a, Some(y)), Record(b, Some(y))]
  }

  /** The memtable after them. */
  function Pair(a: ByteString, b: ByteString, y: ByteString): seq<Record> {
    [Record(a, Some(y)), Record(b, Some(y))]
  }

  lemma AppliedThree(r: Record, s: Record, t: Record)
    ensures Memtable.Applied(map[], [r, s, t]) == map[][r.key := r.entry][s.key := s.entry][t.key := t.entry]
  {
    AppliedOne(r);
    Memtable.AppliedSnoc(map[], [r], s);
    Memtable.AppliedSnoc(map[], [r, s], t);
    assert [r] + [s] == [r, s] && [r, s] + [t] == [r, s, t];
  }

  lemma TrioApplied(a: ByteString, b: ByteString, x: ByteString, y: ByteString)
    ensures Memtable.Applied(map[], Trio(a, b, x, y)) == map[a := Some(y), b := Some(y)]
  {
    AppliedThree(Record(a, Some(x)), Record(a, Some(y)), Record(b, Some(y)));
    LastWins<ByteString, Entry>(a, b, Some(x), Some(y));
  }

  lemma LastWins<K, V>(a: K, b: K, x: V, y: V)
    ensures map[][a := x][a := y][b := y] == map[a := y, b := y]
  {
  }

  lemma PairAsMap(a: ByteString, b: ByteString, y: ByteString)
    requires Less(a, b)
    ensures AsMap(Pair(a, b, y)) == map[a := Some(y), b := Some(y)] && Sorted(Pair(a, b, y))
  {
    var r, t := Record(a, Some(y)), Record(b, Some(y));
    LessIrreflexive(a);
    AsMapCons(t, []);
    AsMapCons(r, [t]);
    assert [t] + [] == [t] && [r] + [t] == Pair(a, b, y);
    assert map[][b := t.entry][a := r.entry] == map[a := Some(y), b := Some(y)];
  }

  const EMPTY: Disk := Disk(map[], Manifest([], [], 1), [])

  lemma EmptyDisk()
    ensures ManifestOk(EMPTY.tables, EMPTY.manifest) && Base(EMPTY.tables, EMPTY.manifest) == map[]
  {
    assert Overlay([]) == map[];
  }

  lemma TrioReady(a: ByteString, b: ByteString, x: ByteString, y: ByteString)
    requires Less(a, b)
    ensures FlushReady(EMPTY, Pair(a, b, y), Writes(Trio(a, b, x, y)))
  {
    EmptyDisk();
    PairAsMap(a, b, y);
    TrioApplied(a, b, x, y);
    PlainWrites(Trio(a, b, x, y));
  }

  lemma ViewOfWrites(d: Disk, w: seq<Record>, m: nat)
    requires m <= |w| && Base(d.tables, d.manifest) == map[]
    ensures ViewAfter(d, Writes(w), m) == Live(Memtable.Applied(map[], w[..m]))
  {
    PlainWrites(w[..m]);
    assert Writes(w)[..m] == Writes(w[..m]);
    UnderNothing(Memtable.Applied(map[], w[..m]));
  }

  lemma UnderNothing(m: EntryMap)
    ensures map[] + m == m
  {
  }

  /** The views after none, one, two and all of the three writes. */
  lemma TrioViews(a: ByteString, b: ByteString, x: ByteString, y: ByteString, m: nat)
    requires a != b && x != y && m <= 3
    ensures ViewAfter(EMPTY, Writes(Trio(a, b, x, y)), m) != map[a := x, b := y]
  {
    EmptyDisk();
    ViewOfWrites(EMPTY, Trio(a, b, x, y), m);
    if m == 3 {
      WholeTrioView(a, b, x, y);
    } else {
      PartTrioView(a, b, x, y, m);
    }
  }

  lemma WholeTrioView(a: ByteString, b: ByteString, x: ByteString, y: ByteString)
    requires a != b && x != y
    ensures Live(Memtable.Applied(map[], Trio(a, b, x, y)[..3])) != map[a := x, b := y]
  {
    var w := Trio(a, b, x, y);
    assert w[..3] == w;
    TrioApplied(a, b, x, y);
    var view := Live(Memtable.Applied(map[], w));
    assert a in view && view[a] == y;
  }

  lemma PartTrioView(a: ByteString, b: ByteString, x: ByteString, y: ByteString, m: nat)
    requires a != b && m < 3
    ensures Live(Memtable.Applied(map[], Trio(a, b, x, y)[..m])) != map[a := x, b := y]
  {
    var w := Trio(a, b, x, y);
    assert forall i :: 0 <= i < m ==> w[..m][i].key == a;
    WritesOnly(w[..m], b);
    assert b !in Live(Memtable.Applied(map[], w[..m]));
  }

  lemma OneLogged(d: Disk, recs: seq<Record>, w: seq<Record>)
    requires w != [] && FlushReady(d, recs, Writes(w))
    ensures Wal.LogOf(Writes(w)) != []
    ensures Recovered(Flushed(d, recs).(log := Wal.LogOf(Writes(w))[..1])) ==
      Live(Base(d.tables, d.manifest) + AsMap(recs) + map[w[0].key := w[0].entry])
  {
    FlushedBase(d, recs, Writes(w));
    FirstLogged(w);
    CutLogShows(Flushed(d, recs).(log := Wal.LogOf(Writes(w))[..1]), Writes(w), 1);
    AppliedOne(w[0]);
  }

  lemma FirstLogged(w: seq<Record>)
    requires w != []
    ensures Wal.LogOf(Writes(w)) != [] && Wal.WholeOps(Writes(w), 1) == 1
    ensures Wal.Mutations(Writes(w)[..1]) == [w[0]]
  {
    PlainWrites(w);
    PlainWrites(w[..1]);
    assert Writes(w)[..1] == Writes(w[..1]) && w[..1] == [w[0]];
  }

  /** One of three writes was logged when the crash came: the first value of `a` is back
      beside the later value of `b`, a view that never was. */
  lemma TornFlushMixes(a: ByteString, b: ByteString, x: ByteString, y: ByteString, m: nat)
    requires Less(a, b) && x != y && m <= 3
    ensures FlushReady(EMPTY, Pair(a, b, y), Writes(Trio(a, b, x, y))) && Wal.LogOf(Writes(Trio(a, b, x, y))) != []
    ensures Recovered(Flushed(EMPTY, Pair(a, b, y)).(log := Wal.LogOf(Writes(Trio(a, b, x, y)))[..1]))
            == map[a := x, b := y] != ViewAfter(EMPTY, Writes(Trio(a, b, x, y)), m)
  {
    TrioReady(a, b, x, y);
    OneLogged(EMPTY, Pair(a, b, y), Trio(a, b, x, y));
    EmptyDisk();
    PairAsMap(a, b, y);
    LessIrreflexive(a);
    TwoKeys(a, b, x, y);
    TrioViews(a, b, x, y, m);
  }

  lemma TwoKeys(a: ByteString, b: ByteString, x: ByteString, y: ByteString)
    requires a != b
    ensures Live(map[] + map[a := Some(y), b := Some(y)] + map[a := Some(x)]) == map[a := x, b := y]
  {
  }

  lemma {:induction false} WritesOnly(recs: seq<Record>, k: ByteString)
    requires forall r :: r in recs ==> r.key != k
    ensures k !in Memtable.Applied(map[], recs)
  {
    if recs != [] {
      WritesOnly(recs[..|recs| - 1], k);
    }
  }
}
