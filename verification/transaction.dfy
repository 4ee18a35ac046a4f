/** Transactions of src/entity.rs: pending writes laid over the committed engine, a lazy
    two-way merge for scans, commit and abort. */
module TransactionModel {
  import opened Std
  import opened Bytes
  import opened Records
  import opened Recovery
  import opened DatabaseModel
  import Memtable
  import Merge

  // ---- the two-way merge ----

  /** One step of the merge of committed rows `c` and pending rows `p`: the smaller key
      comes first, and at equal keys the pending row shadows the committed one. */
  predicate PairStep(c: seq<Record>, p: seq<Record>, r: Record, c': seq<Record>, p': seq<Record>) {
    if c == [] then p != [] && r == p[0] && c' == c && p' == p[1..]
    else if p == [] || Less(c[0].key, p[0].key) then r == c[0] && c' == c[1..] && p' == p
    else if c[0].key == p[0].key then r == p[0] && c' == c[1..] && p' == p[1..]
    else Less(p[0].key, c[0].key) && r == p[0] && c' == c && p' == p[1..]
  }

  lemma HeadIsLeast(s: seq<Record>)
    requires Sorted(s) && s != []
    ensures s[0].key in AsMap(s) && AsMap(s)[s[0].key] == s[0].entry
    ensures AsMap(s[1..]) == AsMap(s) - {s[0].key} && Sorted(s[1..])
    ensures forall k :: k in AsMap(s[1..]) ==> Less(s[0].key, k)
    ensures forall k :: k in AsMap(s) ==> k == s[0].key || Less(s[0].key, k)
  {
    AsMapAt(s, 0);
    AsMapTail(s);
  }

  /** All keys of `m` lie above `key`. */
  ghost predicate Above(m: EntryMap, key: ByteString) {
    forall k :: k in m ==> Less(key, k)
  }

  lemma AboveTail(s: seq<Record>, key: ByteString)
    requires Sorted(s) && (s != [] ==> Less(key, s[0].key))
    ensures Above(AsMap(s), key)
  {
    if s != [] {
      HeadIsLeast(s);
      forall k | k in AsMap(s) ensures Less(key, k) {
        if k != s[0].key {
          LessTransitive(key, s[0].key, k);
        }
      }
    }
  }

  /** What a step takes out of one side, given that the other side has no smaller key. */
  lemma TakeHead(s: seq<Record>, other: EntryMap)
    requires Sorted(s) && s != [] && Above(other, s[0].key)
    ensures var key := s[0].key;
      && key !in other && Above(AsMap(s[1..]), key)
      && AsMap(s[1..]) + other == AsMap(s) + other - {key}
      && other + AsMap(s[1..]) == other + AsMap(s) - {key}
  {
    HeadIsLeast(s);
    LessIrreflexive(s[0].key);
  }

  /** A step emits the least key of the overlay with its visible entry, and nothing else
      leaves the overlay. */
  lemma PairStepIsOverlay(c: seq<Record>, p: seq<Record>, r: Record, c': seq<Record>, p': seq<Record>)
    requires Sorted(c) && Sorted(p) && PairStep(c, p, r, c', p')
    ensures Sorted(c') && Sorted(p')
    ensures r.key in AsMap(c) + AsMap(p) && (AsMap(c) + AsMap(p))[r.key] == r.entry
    ensures AsMap(c') + AsMap(p') == AsMap(c) + AsMap(p) - {r.key}
    ensures Above(AsMap(c') + AsMap(p'), r.key)
  {
    if c != [] && (p == [] || Less(c[0].key, p[0].key)) {
      AboveTail(p, c[0].key);
      TakeHead(c, AsMap(p));
      HeadIsLeast(c);
    } else if c == [] || Less(p[0].key, c[0].key) {
      AboveTail(c, p[0].key);
      TakeHead(p, AsMap(c));
      HeadIsLeast(p);
    } else {
      HeadIsLeast(c);
      HeadIsLeast(p);
    }
  }

  function Buffered(b: Option<Record>): seq<Record> {
    if b.Some? then [b.value] else []
  }

  lemma Unbuffer(b: Option<Record>, rest: seq<Record>)
    ensures b.Some? ==> (Buffered(b) + rest)[0] == b.value && (Buffered(b) + rest)[1..] == rest
    ensures Buffered(None) + rest == rest
  {
  }

  /** The `match` of `TxScan::next`: the row to emit and what stays in the two buffers. */
  function Pick(c: Option<Record>, p: Option<Record>): (Option<Record>, Option<Record>, Option<Record>) {
    if p.None? then (c, None, None)
    else if c.None? || p.value.key == c.value.key then (p, None, None)
    else if Less(p.value.key, c.value.key) then (p, c, None)
    else (c, None, p)
  }

  lemma PickIsStep(c: Option<Record>, p: Option<Record>, cs: seq<Record>, ps: seq<Record>)
    requires (c.None? ==> cs == []) && (p.None? ==> ps == [])
    ensures var (r, c', p') := Pick(c, p);
      && (r.None? <==> c.None? && p.None?)
      && (r.Some? ==> PairStep(Buffered(c) + cs, Buffered(p) + ps, r.value, Buffered(c') + cs, Buffered(p') + ps))
  {
    Unbuffer(c, cs);
    Unbuffer(p, ps);
    if c.Some? && p.Some? {
      LessTrichotomy(p.value.key, c.value.key);
    }
  }

  /** `TxScan` (src/entity.rs:369-437). `committed` and `pending` are what the two inner
      iterators have not yielded yet. */
  class TxScan {
    const start: Option<ByteString>
    const end: Option<ByteString>
    var committed: seq<Record>
    var pending: seq<Record>
    var pendingBuf: Option<Record>
    var committedBuf: Option<Record>

    /** Committed rows still to come. */
    ghost function C(): seq<Record>
      reads this
    {
      Buffered(committedBuf) + committed
    }

    /** Pending rows of the range still to come. */
    ghost function P(): seq<Record>
      reads this
    {
      Buffered(pendingBuf) + RangeOf(pending, start, end)
    }

    /** What the merge still has to yield. */
    ghost function Merged(): EntryMap
      reads this
    {
      AsMap(C()) + AsMap(P())
    }

    ghost function Remaining(): nat
      reads this
    {
      |C()| + |P()|
    }

    ghost predicate Valid()
      reads this
    {
      Sorted(C()) && Sorted(P())
    }

    constructor (committed: seq<Record>, pending: seq<Record>, start: Option<ByteString>, end: Option<ByteString>)
      requires Sorted(committed) && Sorted(pending)
      ensures Valid() && C() == committed && P() == RangeOf(pending, start, end)
    {
      this.committed, this.pending, this.start, this.end := committed, pending, start, end;
      pendingBuf, committedBuf := None, None;
      new;
      RangeOfSorted(pending, start, end);
      Unbuffer(None, RangeOf(pending, start, end));
      Unbuffer(None, committed);
      LoadPending();
    }

    method LoadPending()
      modifies `pending, `pendingBuf
      ensures C() == old(C()) && P() == old(P()) && (pendingBuf == None ==> P() == [] == RangeOf(pending, start, end))
    {
      while pendingBuf.None? && pending != []
        invariant P() == old(P())
        decreases |pending|
      {
        var r := pending[0];
        if InRange(r.key, start, end) {
          pendingBuf := Some(r);
        }
        pending := pending[1..];
      }
    }

    method LoadCommitted()
      modifies `committed, `committedBuf
      ensures C() == old(C()) && P() == old(P()) && (committedBuf == None ==> C() == [] == committed)
    {
      if committedBuf.None? && committed != [] {
        committedBuf := Some(committed[0]);
        committed := committed[1..];
      }
    }

    method Next() returns (r: Option<Record>)
      requires Valid()
      modifies this
      ensures r.None? ==> old(C()) == [] && old(P()) == [] && C() == [] && P() == []
      ensures r.Some? ==> PairStep(old(C()), old(P()), r.value, C(), P())
    {
      LoadPending();
      LoadCommitted();
      PickIsStep(committedBuf, pendingBuf, committed, RangeOf(pending, start, end));
      var picked := Pick(committedBuf, pendingBuf);
      r, committedBuf, pendingBuf := picked.0, picked.1, picked.2;
    }
  }

  lemma PairStepShrinks(c: seq<Record>, p: seq<Record>, r: Record, c': seq<Record>, p': seq<Record>)
    requires PairStep(c, p, r, c', p')
    ensures |c'| + |p'| < |c| + |p|
  {
  }

  lemma DrainStep(c: seq<Record>, p: seq<Record>, r: Record, c': seq<Record>, p': seq<Record>, rows: seq<Record>)
    requires Sorted(c) && Sorted(p) && PairStep(c, p, r, c', p') && Merge.Emitted(rows, AsMap(c) + AsMap(p))
    ensures Sorted(c') && Sorted(p') && Merge.Emitted(rows + [r], AsMap(c') + AsMap(p'))
    ensures AsMap(c) + AsMap(p) + AsMap(rows) == AsMap(c') + AsMap(p') + AsMap(rows + [r])
    ensures |c'| + |p'| < |c| + |p|
  {
    PairStepIsOverlay(c, p, r, c', p');
    PairStepShrinks(c, p, r, c', p');
    Merge.EmitNext(rows, r, AsMap(c) + AsMap(p), AsMap(c') + AsMap(p'));
  }

  method DrainOne(scan: TxScan, ghost rows: seq<Record>) returns (r: Option<Record>)
    requires scan.Valid() && Merge.Emitted(rows, scan.Merged())
    modifies scan
    ensures scan.Valid()
    ensures r.None? ==> old(scan.Merged()) == map[]
    ensures r.Some? ==> Merge.Emitted(rows + [r.value], scan.Merged()) && scan.Remaining() < old(scan.Remaining())
    ensures r.Some? ==> old(scan.Merged()) + AsMap(rows) == scan.Merged() + AsMap(rows + [r.value])
  {
    ghost var c, p := scan.C(), scan.P();
    r := scan.Next();
    if r.Some? {
      DrainStep(c, p, r.value, scan.C(), scan.P(), rows);
    }
  }

  /** Draining the merge gives the overlay, sorted, every key once. */
  method Drain(scan: TxScan) returns (rows: seq<Record>)
    requires scan.Valid()
    modifies scan
    ensures Sorted(rows) && AsMap(rows) == old(scan.Merged())
  {
    rows := [];
    ghost var whole := scan.Merged();
    while true
      invariant scan.Valid() && Merge.Emitted(rows, scan.Merged())
      invariant whole == scan.Merged() + AsMap(rows)
      decreases scan.Remaining()
    {
      var r := DrainOne(scan, rows);
      if r.None? {
        assert map[] + AsMap(rows) == AsMap(rows);
        return;
      }
      rows := rows + [r.value];
    }
  }

  // ---- transactions ----

  datatype TxState = Active | Committed | Aborted

  /** Pending entries on top of the committed view behave like edits of it. */
  lemma {:induction false} PendingIsEdits(base: EntryMap, pending: seq<Record>)
    requires Sorted(pending)
    ensures Live(base + AsMap(pending)) == Edited(Live(base), pending)
  {
    EditedIsLive(base, map[], pending);
    SortedApplied(pending);
    assert base + map[] == base;
  }

  lemma {:induction false} SortedApplied(s: seq<Record>)
    requires Sorted(s)
    ensures Memtable.Applied(map[], s) == AsMap(s)
  {
    if s != [] {
      var init, last := s[..|s| - 1], s[|s| - 1];
      SortedApplied(init);
      forall i | 0 <= i < |init| ensures init[i].key != last.key {
        LessIrreflexive(last.key);
      }
      AsMapSnoc(init, last);
      assert init + [last] == s;
    }
  }

  lemma NothingPending(raw: EntryMap)
    ensures raw + AsMap([]) == raw
  {
    OverNothing(raw);
  }

  lemma PendingKeys(pending: seq<Record>)
    requires Sorted(pending)
    ensures KeysOf(pending) <= AsMap(pending).Keys
  {
    forall i | 0 <= i < |pending| ensures pending[i].key in AsMap(pending) {
      AsMapAt(pending, i);
    }
  }

  /** A transaction over one engine. `pending` is its ordered map of writes. */
  class Transaction {
    const db: Database
    const id: U64
    var pending: seq<Record>
    var state: TxState

    ghost predicate Valid()
      reads this, db, db.memtable
    {
      && db.Valid() && Sorted(pending)
      && (state.Active? ==> id < db.nextTx && Unused(db.ops, id))
    }

    /** Newest entries as this transaction sees them, tombstones included. */
    ghost function RawTxView(): EntryMap
      reads this, db, db.memtable
    {
      db.RawView() + AsMap(pending)
    }

    /** Reads inside the transaction see this map: the committed one with its own writes. */
    ghost function TxView(): map<ByteString, ByteString>
      reads this, db, db.memtable
    {
      Live(RawTxView())
    }

    /** A fresh id is drawn at the start; nothing else happens. */
    constructor Begin(db: Database)
      requires db.Valid() && db.nextTx < U64_LIMIT
      modifies db`nextTx
      ensures Valid() && this.db == db && state == Active && pending == []
      ensures TxView() == old(db.View())
    {
      this.db := db;
      pending, state := [], Active;
      id := db.nextTx;
      new;
      NothingPending(db.RawView());
      var drawn := db.AllocTxId();
    }

    /** Pending first, then the engine (src/entity.rs:337-342). */
    method Get(key: ByteString) returns (r: Result<Option<ByteString>>)
      requires Valid()
      ensures r.Err? <==> state != Active
      ensures r.Ok? ==> r.value == if key in TxView() then Some(TxView()[key]) else None
    {
      if state != Active {
        return Err(InvalidArgument);
      }
      if key in AsMap(pending) {
        return Ok(AsMap(pending)[key]);
      }
      var v := db.Get(key);
      return Ok(v);
    }

    /** Raw scan inside the transaction; its own deletions show up as tombstones. */
    method ScanStream(start: Option<ByteString>, end: Option<ByteString>) returns (rows: seq<Record>)
      requires Valid()
      ensures Sorted(rows) && AsMap(rows) == Restrict(RawTxView(), start, end)
    {
      var committed := db.ScanStream(start, end);
      var scan := new TxScan(committed, pending, start, end);
      RangeOfIsRestriction(pending, start, end);
      RestrictUnion(db.RawView(), AsMap(pending), start, end);
      rows := Drain(scan);
    }

    /** Buffers a write or, with `None`, a deletion (src/entity.rs:356-363). */
    method Put(key: ByteString, entry: Entry) returns (r: Result<()>)
      requires Valid()
      modifies `pending
      ensures Valid() && (r.Err? <==> state != Active)
      ensures r.Ok? ==> TxView() == Edited(old(TxView()), [Record(key, entry)])
      ensures r.Ok? ==> AsMap(pending) == AsMap(old(pending))[key := entry]
      ensures r.Err? ==> pending == old(pending)
    {
      if state != Active {
        return Err(InvalidArgument);
      }
      Memtable.UpsertSorted(pending, key, entry);
      Memtable.UpsertIsUpdate(pending, key, entry);
      LiveUpdate(db.RawView(), AsMap(pending), Record(key, entry));
      assert [Record(key, entry)][..0] == [];
      pending := Memtable.Upsert(pending, key, entry);
      return Ok(());
    }

    /** All pending writes become the engine's state at once (src/entity.rs:1465-1507). */
    method Commit() returns (r: Result<()>)
      requires Valid()
      modifies this, db, db.memtable
      ensures Valid() && (r.Err? <==> old(state) != Active)
      ensures r.Ok? ==> state == Committed && db.View() == old(TxView()) && AllDurable(db.disk, db.ops)
      ensures r.Ok? ==> db.RawView().Keys <= old(RawTxView()).Keys
      ensures r.Err? ==> db.View() == old(db.View()) && state == old(state)
    {
      if state != Active {
        return Err(InvalidArgument);
      }
      PendingIsEdits(db.RawView(), pending);
      PendingKeys(pending);
      db.Commit(id, pending);
      state := Committed;
      return Ok(());
    }

    /** Nothing was written, so nothing is undone (src/entity.rs:1511-1516). */
    method Abort() returns (r: Result<()>)
      requires Valid()
      modifies `pending, `state
      ensures Valid() && (r.Err? <==> old(state) != Active)
      ensures r.Ok? ==> state == Aborted && pending == []
      ensures r.Err? ==> state == old(state) && pending == old(pending)
      ensures db.View() == old(db.View())
    {
      if state != Active {
        return Err(InvalidArgument);
      }
      pending, state := [], Aborted;
      return Ok(());
    }
  }
}
