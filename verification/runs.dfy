/** Whole runs of the engine: any sequence of writes, flushes, compactions, collections,
    transactions and crashes behaves like a plain map with a history, of which a crash
    may forget the newest part but nothing that was made durable. */
module Runs {
  import opened Bytes
  import opened Records
  import opened Layers
  import opened Recovery
  import opened DatabaseModel
  import Wal

  type View = map<ByteString, ByteString>

  /** One step of a run. The crashing steps are followed by a reopen: `Crash` strikes
      between operations, the others at any durable step inside the operation, while any
      part of the buffered log has reached the disk. Only the moment between saving the
      manifest and completing the log is left out, unless the log was complete before. */
  datatype Cmd =
    | Write(rec: Record)
    | Flush
    | CompactFull
    | Gc
    | Commit(muts: seq<Record>)
    | Abort
    | Crash
    | CrashInWrite(rec: Record)
    | CrashInCommit(muts: seq<Record>)
    | CrashInFlush
    | CrashInCompactFull

  function After(view: View, cmd: Cmd): View {
    match cmd
    case Write(r) => Edited(view, [r])
    case Commit(muts) => Edited(view, muts)
    case _ => view
  }

  /** Number of steps after which everything visible was durable for the last time. */
  function Floor(cmds: seq<Cmd>): (n: nat)
    ensures n <= |cmds|
  {
    if cmds == [] then 0
    else if cmds[|cmds| - 1].Write? || cmds[|cmds| - 1].Gc? || cmds[|cmds| - 1].Abort? then Floor(cmds[..|cmds| - 1])
    else |cmds|
  }

  /** `view` is one of the views since the last durable one. */
  ghost predicate Remembers(views: seq<View>, floor: nat, view: View) {
    exists j :: floor <= j < |views| && views[j] == view
  }

  /** What the reader may see after the `i`-th step, given the views before it. */
  ghost predicate Allowed(cmds: seq<Cmd>, i: nat, views: seq<View>, next: View)
    requires i < |cmds| && views != []
  {
    var last := views[|views| - 1];
    match cmds[i]
    case Crash => Remembers(views, Floor(cmds[..i]), next)
    case CrashInWrite(rec) => Remembers(views, Floor(cmds[..i]), next) || next == Edited(last, [rec])
    case CrashInCommit(muts) => Remembers(views, Floor(cmds[..i]), next) || next == Edited(last, muts)
    case CrashInFlush => Remembers(views, Floor(cmds[..i]), next)
    case CrashInCompactFull => Remembers(views, Floor(cmds[..i]), next)
    case _ => next == After(last, cmds[i])
  }

  ghost predicate AllowedAt(cmds: seq<Cmd>, i: nat, views: seq<View>) {
    i < |cmds| && i + 1 < |views| && Allowed(cmds, i, views[..i + 1], views[i + 1])
  }

  /** Every view that a crash could leave is a remembered one. */
  ghost predicate Covered(d: Disk, ops: seq<Wal.Op>, views: seq<View>, floor: nat) {
    forall m :: Durable(d, ops) <= m <= |ops| ==> Remembers(views, floor, ViewAfter(d, ops, m))
  }

  lemma CoveredByLast(d: Disk, ops: seq<Wal.Op>, views: seq<View>, floor: nat)
    requires AllDurable(d, ops) && floor < |views| && views[|views| - 1] == ViewAfter(d, ops, |ops|)
    ensures Covered(d, ops, views, floor)
  {
  }

  lemma RemembersMore(views: seq<View>, floor: nat, view: View, next: View)
    requires Remembers(views, floor, view)
    ensures Remembers(views + [next], floor, view)
  {
    var j :| floor <= j < |views| && views[j] == view;
    assert (views + [next])[j] == view;
  }

  /** One more buffered operation adds one view that a crash could leave. */
  lemma CoveredSnoc(d: Disk, buffer: seq<Wal.LogRec>, ops: seq<Wal.Op>, op: Wal.Op, views: seq<View>, floor: nat, next: View)
    requires Covered(d, ops, views, floor) && d.log + buffer == Wal.LogOf(ops) && floor <= |views|
    requires next == ViewAfter(d, ops + [op], |ops| + 1)
    ensures Covered(d, ops + [op], views + [next], floor)
  {
    Wal.WholeOpsSnoc(ops, op, |d.log|);
    forall m | Durable(d, ops + [op]) <= m <= |ops| + 1
      ensures Remembers(views + [next], floor, ViewAfter(d, ops + [op], m))
    {
      if m <= |ops| {
        ViewAfterPrefix(d, ops, op, m);
        RemembersMore(views, floor, ViewAfter(d, ops, m), next);
      } else {
        RemembersLast(views, floor, next);
      }
    }
  }

  lemma ViewAfterPrefix(d: Disk, ops: seq<Wal.Op>, op: Wal.Op, m: nat)
    requires m <= |ops|
    ensures ViewAfter(d, ops + [op], m) == ViewAfter(d, ops, m)
  {
    assert (ops + [op])[..m] == ops[..m];
  }

  lemma RemembersLast(views: seq<View>, floor: nat, next: View)
    requires floor <= |views|
    ensures Remembers(views + [next], floor, next)
  {
    assert (views + [next])[|views|] == next;
  }

  /** Reopens a disk whose log is any prefix of the operations' log. */
  method Reopen(d: Disk, opts: Options, ghost ops: seq<Wal.Op>, ghost nextTx: nat) returns (db: Database)
    requires opts.segmentMax >= 1 && ManifestOk(d.tables, d.manifest)
    requires LogState(Wal.LogOf(ops), ops, nextTx) && d.log <= Wal.LogOf(ops)
    ensures fresh(db) && fresh(db.memtable) && db.Valid() && db.opts == opts
    ensures db.View() == Recovered(d) && AllDurable(db.disk, db.ops) && db.nextTx <= nextTx
  {
    assert Wal.LogOf(ops)[..|d.log|] == d.log;
    Wal.CutIsLog(ops, |d.log|);
    Wal.CutKeepsIdsDistinct(ops, |d.log|);
    CutBoundsIds(ops, |d.log|, nextTx);
    db := new Database.FromDisk(d, opts, Wal.Cut(ops, |d.log|));
    SyncedIsDurable(db.disk, db.ops);
  }

  lemma ViewIsAfterAll(db: Database)
    requires db.Valid()
    ensures db.View() == ViewAfter(db.disk, db.ops, |db.ops|)
  {
    assert db.ops[..|db.ops|] == db.ops;
  }

  /** A crash while part of the buffer has reached the disk. */
  method CrashNow(db: Database, ghost views: seq<View>, ghost floor: nat) returns (db': Database)
    requires db.Logged() && Covered(db.disk, db.ops, views, floor)
    ensures fresh(db') && fresh(db'.memtable) && db'.Valid() && db'.opts == db.opts && db'.nextTx <= db.nextTx
    ensures AllDurable(db'.disk, db'.ops) && Remembers(views, floor, db'.View())
  {
    var n :| 0 <= n <= |db.buffer|;
    var image := CrashImage(db.disk, db.buffer, n);
    ghost var m := CrashShowsPrefix(db.disk, db.buffer, db.ops, n);
    db' := Reopen(image, db.opts, db.ops, db.nextTx);
  }

  /** A crash at one of the durable steps an operation went through. */
  method CrashInTrail(db: Database, from: nat, ghost before: seq<Disk>, ghost view: View,
                      ghost ops: seq<Wal.Op>, ghost nextTx: nat) returns (db': Database)
    requires db.opts.segmentMax >= 1 && from == |before| < |db.trail|
    requires TrailShows(before, db.trail, view, Wal.LogOf(ops)) && LogState(Wal.LogOf(ops), ops, nextTx)
    ensures fresh(db') && fresh(db'.memtable) && db'.Valid() && db'.opts == db.opts && db'.nextTx <= nextTx
    ensures AllDurable(db'.disk, db'.ops) && db'.View() == view
  {
    var i :| from <= i < |db.trail|;
    db' := Reopen(db.trail[i], db.opts, ops, nextTx);
  }

  /** A crash at one of the durable steps of an operation that flushes, with any part of
      the buffer on disk. */
  method CrashWhileFlushing(db: Database, from: nat, buffer: seq<Wal.LogRec>, ghost before: seq<Disk>, ghost d: Disk,
                            ghost ops: seq<Wal.Op>, ghost nextTx: nat, ghost views: seq<View>, ghost floor: nat)
      returns (db': Database)
    requires db.opts.segmentMax >= 1 && from == |before| < |db.trail|
    requires TrailLeaves(before, db.trail, d, buffer, ops) && d.log + buffer == Wal.LogOf(ops)
    requires LogState(Wal.LogOf(ops), ops, nextTx) && Covered(d, ops, views, floor)
    ensures fresh(db') && fresh(db'.memtable) && db'.Valid() && db'.opts == db.opts && db'.nextTx <= nextTx
    ensures AllDurable(db'.disk, db'.ops) && Remembers(views, floor, db'.View())
  {
    var i :| from <= i < |db.trail| && (i == from + 1 ==> buffer == []);
    var n :| 0 <= n <= if i == from then |buffer| else 0;
    CompleteIsReplayable(d, buffer, ops);
    assert CrashPoint(before, db.trail, d, buffer, ops, i, n);
    var found := CrashImage(db.trail[i], buffer, n);
    db' := Reopen(found, db.opts, ops, nextTx);
    LeavesRemembered(found, d, ops, views, floor);
  }

  lemma CompleteIsReplayable(d: Disk, buffer: seq<Wal.LogRec>, ops: seq<Wal.Op>)
    requires d.log + buffer == Wal.LogOf(ops)
    ensures buffer == [] ==> Replayable(ops, |d.log|)
  {
    AllIsReplayable(ops);
  }

  lemma LeavesRemembered(found: Disk, d: Disk, ops: seq<Wal.Op>, views: seq<View>, floor: nat)
    requires Leaves(found, d, ops) && Covered(d, ops, views, floor)
    ensures Remembers(views, floor, Recovered(found))
  {
    var m :| Durable(d, ops) <= m <= |ops| && Recovered(found) == ViewAfter(d, ops, m);
    assert Remembers(views, floor, ViewAfter(d, ops, m));
  }

  /** The claims that hold between any two steps of a run. */
  ghost predicate Running(db: Database, views: seq<View>, floor: nat)
    reads db, db.memtable
  {
    && db.Valid() && floor < |views| && db.View() == views[|views| - 1]
    && Covered(db.disk, db.ops, views, floor)
  }

  lemma RunningDurably(db: Database, views: seq<View>, floor: nat)
    requires db.Valid() && AllDurable(db.disk, db.ops) && floor <= |views|
    ensures Running(db, views + [db.View()], floor)
  {
    ViewIsAfterAll(db);
    CoveredByLast(db.disk, db.ops, views + [db.View()], floor);
  }

  method StepWrite(db: Database, rec: Record, ghost views: seq<View>, ghost floor: nat)
    requires Running(db, views, floor)
    modifies db, db.memtable
    ensures Running(db, views + [db.View()], floor) && db.View() == Edited(views[|views| - 1], [rec])
    ensures db.nextTx == old(db.nextTx) && (db.memtable == old(db.memtable) || fresh(db.memtable))
    ensures TrailLeaves(old(db.trail), db.trail, old(db.disk), old(db.buffer) + [Wal.WriteRec(rec)],
                        old(db.ops) + [Wal.Write(rec)])
  {
    ghost var d, buffer, ops := db.disk, db.buffer, db.ops;
    db.PutInternal(rec);
    if AllDurable(db.disk, db.ops) {
      RunningDurably(db, views, floor);
    } else {
      RunningBuffered(db, buffer, ops, rec, views, floor);
    }
  }

  lemma RunningBuffered(db: Database, buffer: seq<Wal.LogRec>, ops: seq<Wal.Op>, rec: Record,
                        views: seq<View>, floor: nat)
    requires db.Valid() && db.ops == ops + [Wal.Write(rec)] && db.disk.log + buffer == Wal.LogOf(ops)
    requires Covered(db.disk, ops, views, floor) && floor <= |views|
    ensures Running(db, views + [db.View()], floor)
  {
    ViewIsAfterAll(db);
    CoveredSnoc(db.disk, buffer, ops, Wal.Write(rec), views, floor, db.View());
  }

  lemma CoveredStays(d: Disk, d': Disk, ops: seq<Wal.Op>, views: seq<View>, floor: nat, next: View)
    requires Covered(d, ops, views, floor) && d'.log == d.log
    requires Base(d'.tables, d'.manifest) == Base(d.tables, d.manifest)
    ensures Covered(d', ops, views + [next], floor)
  {
    forall m | Durable(d', ops) <= m <= |ops| ensures Remembers(views + [next], floor, ViewAfter(d', ops, m)) {
      RemembersMore(views, floor, ViewAfter(d, ops, m), next);
    }
  }

  method StepGc(db: Database, ghost views: seq<View>, ghost floor: nat)
    requires Running(db, views, floor)
    modifies db
    ensures Running(db, views + [db.View()], floor) && db.View() == views[|views| - 1]
    ensures db.nextTx == old(db.nextTx) && db.memtable == old(db.memtable)
  {
    ghost var d := db.disk;
    var removed := db.Gc();
    CoveredStays(d, db.disk, db.ops, views, floor, db.View());
  }

  method StepAbort(db: Database, ghost views: seq<View>, ghost floor: nat)
    requires Running(db, views, floor) && db.nextTx < U64_LIMIT
    modifies db
    ensures Running(db, views + [db.View()], floor) && db.View() == views[|views| - 1]
    ensures db.nextTx == old(db.nextTx) + 1 && db.memtable == old(db.memtable)
  {
    var id := db.AllocTxId();
    CoveredStays(db.disk, db.disk, db.ops, views, floor, db.View());
  }

  /** Begins and commits a transaction with these mutations. */
  method StepCommit(db: Database, muts: seq<Record>, ghost views: seq<View>, ghost floor: nat)
    requires Running(db, views, floor) && db.nextTx < U64_LIMIT
    modifies db, db.memtable
    ensures Running(db, views + [db.View()], |views|) && db.View() == Edited(views[|views| - 1], muts)
    ensures db.nextTx == old(db.nextTx) + 1 && (db.memtable == old(db.memtable) || fresh(db.memtable))
  {
    var id := db.AllocTxId();
    db.Commit(id, muts);
    RunningDurably(db, views, |views|);
  }

  /** A crash in a commit: the transaction is there whole or not at all. Before the sync
      any part of the log may have arrived, after it everything has. */
  method StepCrashInCommit(db: Database, muts: seq<Record>, ghost views: seq<View>, ghost floor: nat)
      returns (db': Database)
    requires Running(db, views, floor) && db.nextTx < U64_LIMIT
    modifies db, db.memtable
    ensures fresh(db') && fresh(db'.memtable) && Running(db', views + [db'.View()], |views|)
    ensures Remembers(views, floor, db'.View()) || db'.View() == Edited(views[|views| - 1], muts)
    ensures db'.nextTx <= old(db.nextTx) + 1
  {
    ghost var next := Edited(db.View(), muts);
    if * {
      BufferCommit(db, muts, views, floor);
      db' := CrashNow(db, views + [next], floor);
      RemembersOneOf(views, floor, next, db'.View());
    } else {
      db' := CrashAfterSync(db, muts);
    }
    RunningDurably(db', views, |views|);
  }

  /** A crash at one of the durable steps from the sync of a commit on. */
  method CrashAfterSync(db: Database, muts: seq<Record>) returns (db': Database)
    requires db.Valid() && db.nextTx < U64_LIMIT
    modifies db, db.memtable
    ensures fresh(db') && fresh(db'.memtable) && db'.Valid() && AllDurable(db'.disk, db'.ops)
    ensures db'.View() == Edited(old(db.View()), muts) && db'.nextTx <= old(db.nextTx) + 1
  {
    var n := |db.trail|;
    var id := db.AllocTxId();
    ghost var before, ops, next := db.trail, db.ops + [Wal.Tx(id, muts)], Edited(db.View(), muts);
    LogStateSnoc(db.disk.log, db.buffer, db.ops, Wal.Tx(id, muts), db.nextTx);
    db.Commit(id, muts);
    db' := CrashInTrail(db, n, before, next, ops, db.nextTx);
  }

  /** A commit up to, but without, its sync. */
  method BufferCommit(db: Database, muts: seq<Record>, ghost views: seq<View>, ghost floor: nat)
    requires Running(db, views, floor) && db.nextTx < U64_LIMIT
    modifies db
    ensures db.Logged() && db.nextTx == old(db.nextTx) + 1
    ensures Covered(db.disk, db.ops, views + [Edited(old(db.View()), muts)], floor)
  {
    var id := db.AllocTxId();
    CoveredBlock(db, id, muts, views, floor);
    db.LogBlock(id, muts);
  }

  lemma CoveredBlock(db: Database, id: U64, muts: seq<Record>, views: seq<View>, floor: nat)
    requires db.Valid() && Covered(db.disk, db.ops, views, floor) && floor <= |views|
    ensures Covered(db.disk, db.ops + [Wal.Tx(id, muts)], views + [Edited(db.View(), muts)], floor)
  {
    var op := Wal.Tx(id, muts);
    assert [op][1..] == [] && Wal.Mutations([op]) == muts;
    db.AppendedView(muts, op);
    assert (db.ops + [op])[..|db.ops| + 1] == db.ops + [op];
    CoveredSnoc(db.disk, db.buffer, db.ops, op, views, floor, Edited(db.View(), muts));
  }

  lemma RemembersOneOf(views: seq<View>, floor: nat, next: View, view: View)
    requires Remembers(views + [next], floor, view)
    ensures Remembers(views, floor, view) || view == next
  {
    var j :| floor <= j < |views + [next]| && (views + [next])[j] == view;
    assert j < |views| ==> views[j] == view;
  }

  method StepCrash(db: Database, ghost views: seq<View>, ghost floor: nat) returns (db': Database)
    requires Running(db, views, floor)
    ensures fresh(db') && fresh(db'.memtable) && Running(db', views + [db'.View()], |views|)
    ensures Remembers(views, floor, db'.View()) && db'.nextTx <= db.nextTx
  {
    db' := CrashNow(db, views, floor);
    RunningDurably(db', views, |views|);
  }

  /** A crash inside a flush or a full compaction. */
  method StepCrashInside(db: Database, full: bool, ghost views: seq<View>, ghost floor: nat) returns (db': Database)
    requires Running(db, views, floor)
    modifies db
    ensures fresh(db') && fresh(db'.memtable) && Running(db', views + [db'.View()], |views|)
    ensures Remembers(views, floor, db'.View()) && db'.nextTx <= old(db.nextTx)
  {
    ghost var d, ops, before := db.disk, db.ops, db.trail;
    var buffer, n, idle := db.buffer, |db.trail|, db.memtable.entries == [];
    if full {
      var count := db.CompactFull();
    } else {
      db.Flush();
    }
    if |db.trail| == n {
      RunningAgain(db, views, floor);
      db' := StepCrash(db, views, floor);
    } else if idle {
      db' := CrashInTrail(db, n, before, views[|views| - 1], ops, db.nextTx);
      RunningDurably(db', views, |views|);
    } else {
      db' := CrashWhileFlushing(db, n, buffer, before, d, ops, db.nextTx, views, floor);
      RunningDurably(db', views, |views|);
    }
  }

  lemma RunningAgain(db: Database, views: seq<View>, floor: nat)
    requires db.Valid() && AllDurable(db.disk, db.ops) && floor < |views| && db.View() == views[|views| - 1]
    ensures Running(db, views, floor)
  {
    ViewIsAfterAll(db);
    CoveredByLast(db.disk, db.ops, views, floor);
  }

  /** A crash inside a write: before the automatic flush, or at one of its durable steps. */
  method StepCrashInWrite(db: Database, rec: Record, ghost views: seq<View>, ghost floor: nat) returns (db': Database)
    requires Running(db, views, floor)
    modifies db, db.memtable
    ensures fresh(db') && fresh(db'.memtable) && Running(db', views + [db'.View()], |views|)
    ensures Remembers(views, floor, db'.View()) || db'.View() == Edited(views[|views| - 1], [rec])
    ensures db'.nextTx <= old(db.nextTx)
  {
    ghost var d, ops, before, next := db.disk, db.ops + [Wal.Write(rec)], db.trail, Edited(db.View(), [rec]);
    var buffer, n := db.buffer + [Wal.WriteRec(rec)], |db.trail|;
    CoveredWrite(db, rec, views, floor);
    LogStateSnoc(db.disk.log, db.buffer, db.ops, Wal.Write(rec), db.nextTx);
    StepWrite(db, rec, views, floor);
    if |db.trail| == n {
      db' := CrashNow(db, views + [next], floor);
    } else {
      db' := CrashWhileFlushing(db, n, buffer, before, d, ops, db.nextTx, views + [next], floor);
    }
    RemembersOneOf(views, floor, next, db'.View());
    RunningDurably(db', views, |views|);
  }

  lemma CoveredWrite(db: Database, rec: Record, views: seq<View>, floor: nat)
    requires db.Valid() && Covered(db.disk, db.ops, views, floor) && floor <= |views|
    ensures Covered(db.disk, db.ops + [Wal.Write(rec)], views + [Edited(db.View(), [rec])], floor)
  {
    var op := Wal.Write(rec);
    assert [op][1..] == [] && Wal.Mutations([op]) == [rec];
    db.AppendedView([rec], op);
    assert (db.ops + [op])[..|db.ops| + 1] == db.ops + [op];
    CoveredSnoc(db.disk, db.buffer, db.ops, op, views, floor, Edited(db.View(), [rec]));
  }

  /** Steps that make nothing durable. */
  predicate Lazy(cmd: Cmd) {
    cmd.Write? || cmd.Gc? || cmd.Abort?
  }

  lemma FloorStep(cmds: seq<Cmd>, i: nat)
    requires i < |cmds|
    ensures Floor(cmds[..i + 1]) == if Lazy(cmds[i]) then Floor(cmds[..i]) else i + 1
  {
    assert cmds[..i + 1][..i] == cmds[..i];
  }

  method ExecuteLazy(db: Database, cmd: Cmd, ghost views: seq<View>, ghost floor: nat)
    requires Running(db, views, floor) && db.nextTx < U64_LIMIT && Lazy(cmd)
    modifies db, db.memtable
    ensures Running(db, views + [db.View()], floor) && db.View() == After(views[|views| - 1], cmd)
    ensures db.nextTx <= old(db.nextTx) + 1 && (db.memtable == old(db.memtable) || fresh(db.memtable))
  {
    match cmd
    case Write(rec) => StepWrite(db, rec, views, floor);
    case Gc => StepGc(db, views, floor);
    case Abort => StepAbort(db, views, floor);
  }

  method ExecuteDurably(db: Database, cmd: Cmd, ghost views: seq<View>, ghost floor: nat)
    requires Running(db, views, floor) && db.nextTx < U64_LIMIT && (cmd.Flush? || cmd.CompactFull? || cmd.Commit?)
    modifies db, db.memtable
    ensures Running(db, views + [db.View()], |views|) && db.View() == After(views[|views| - 1], cmd)
    ensures db.nextTx <= old(db.nextTx) + 1 && (db.memtable == old(db.memtable) || fresh(db.memtable))
  {
    match cmd
    case Commit(muts) => StepCommit(db, muts, views, floor);
    case Flush =>
      db.Flush();
      RunningDurably(db, views, |views|);
    case CompactFull =>
      var n := db.CompactFull();
      RunningDurably(db, views, |views|);
  }

  predicate Crashes(cmd: Cmd) {
    cmd.Crash? || cmd.CrashInWrite? || cmd.CrashInCommit? || cmd.CrashInFlush? || cmd.CrashInCompactFull?
  }

  /** What a crashing step may have added: all of its write or transaction. */
  predicate Completes(cmd: Cmd, last: View, view: View) {
    (cmd.CrashInCommit? && view == Edited(last, cmd.muts)) || (cmd.CrashInWrite? && view == Edited(last, [cmd.rec]))
  }

  method ExecuteCrash(db: Database, cmd: Cmd, ghost views: seq<View>, ghost floor: nat) returns (db': Database)
    requires Running(db, views, floor) && db.nextTx < U64_LIMIT && Crashes(cmd)
    modifies db, db.memtable
    ensures fresh(db') && fresh(db'.memtable) && Running(db', views + [db'.View()], |views|)
    ensures Remembers(views, floor, db'.View()) || Completes(cmd, views[|views| - 1], db'.View())
    ensures db'.nextTx <= old(db.nextTx) + 1
  {
    match cmd
    case Crash => db' := StepCrash(db, views, floor);
    case CrashInWrite(rec) => db' := StepCrashInWrite(db, rec, views, floor);
    case CrashInCommit(muts) => db' := StepCrashInCommit(db, muts, views, floor);
    case CrashInFlush => db' := StepCrashInside(db, false, views, floor);
    case CrashInCompactFull => db' := StepCrashInside(db, true, views, floor);
  }

  method Execute(db: Database, cmds: seq<Cmd>, i: nat, ghost views: seq<View>) returns (db': Database)
    requires i < |cmds| && |views| == i + 1 && Running(db, views, Floor(cmds[..i])) && db.nextTx < U64_LIMIT
    modifies db, db.memtable
    ensures db' == db || fresh(db')
    ensures db'.memtable == old(db.memtable) || fresh(db'.memtable)
    ensures Running(db', views + [db'.View()], Floor(cmds[..i + 1])) && Allowed(cmds, i, views, db'.View())
    ensures db'.nextTx <= old(db.nextTx) + 1
  {
    FloorStep(cmds, i);
    ghost var floor := Floor(cmds[..i]);
    if Lazy(cmds[i]) {
      ExecuteLazy(db, cmds[i], views, floor);
      db' := db;
    } else if cmds[i].Flush? || cmds[i].CompactFull? || cmds[i].Commit? {
      ExecuteDurably(db, cmds[i], views, floor);
      db' := db;
    } else {
      db' := ExecuteCrash(db, cmds[i], views, floor);
    }
  }

  /** Every run from a disk with a complete log: the reader sees the plain map updated in
      call order, a transaction takes effect whole or not at all, and a crash goes back to
      a view that is no older than the last durable one. `Get` and `Scan` read that view. */
  method Run(d: Disk, opts: Options, ghost ops: seq<Wal.Op>, cmds: seq<Cmd>)
      returns (db: Database, ghost views: seq<View>)
    requires opts.segmentMax >= 1 && ManifestOk(d.tables, d.manifest)
    requires d.log == Wal.LogOf(ops) && Wal.DistinctIds(ops)
    requires Wal.MaxTx(d.log) + 1 + |cmds| < U64_LIMIT
    ensures db.Valid() && |views| == |cmds| + 1
    ensures views[0] == Recovered(d) && views[|cmds|] == db.View()
    ensures forall i :: 0 <= i < |cmds| ==> AllowedAt(cmds, i, views)
  {
    db := new Database.FromDisk(d, opts, ops);
    SyncedIsDurable(db.disk, db.ops);
    RunningDurably(db, [], 0);
    views := [db.View()];
    assert [] + [db.View()] == views && cmds[..0] == [];
    var i := 0;
    while i < |cmds|
      invariant 0 <= i <= |cmds| && |views| == i + 1 && fresh(db) && fresh(db.memtable)
      invariant Running(db, views, Floor(cmds[..i])) && views[0] == Recovered(d)
      invariant db.nextTx + (|cmds| - i) < U64_LIMIT
      invariant forall j :: 0 <= j < i ==> AllowedAt(cmds, j, views)
    {
      db := Execute(db, cmds, i, views);
      StillAllowed(cmds, i, views, db.View());
      views := views + [db.View()];
      i := i + 1;
    }
  }

  lemma StillAllowed(cmds: seq<Cmd>, i: nat, views: seq<View>, next: View)
    requires i < |cmds| && |views| == i + 1 && Allowed(cmds, i, views, next)
    requires forall j :: 0 <= j < i ==> AllowedAt(cmds, j, views)
    ensures forall j :: 0 <= j <= i ==> AllowedAt(cmds, j, views + [next])
  {
    forall j | 0 <= j <= i ensures AllowedAt(cmds, j, views + [next]) {
      assert (views + [next])[..j + 1] == views[..j + 1];
      assert j == i ==> views[..j + 1] == views;
      assert j < i ==> AllowedAt(cmds, j, views);
    }
  }
}
