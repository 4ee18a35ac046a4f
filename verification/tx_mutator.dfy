/** A transaction as a `Mutator` of decoded keys (src/entity.rs:336-364): the entity layer
    may write through it as through the engine, and a commit hands the result over. */
module TxMutators {
  import opened Std
  import opened Bytes
  import opened KeyCodec
  import opened Store
  import opened Records
  import opened DirectMutators
  import Tx = TransactionModel

  class TxMutator {
    const tx: Tx.Transaction
    const arity: Arity
    /** What a reader inside the transaction sees, decoded. */
    ghost var live: Kv

    ghost predicate Valid()
      reads this, tx, tx.db, tx.db.memtable
    {
      tx.Valid() && tx.state == Tx.Active && Mirrors(tx.RawTxView(), live, arity)
    }

    constructor (tx: Tx.Transaction, arity: Arity, ghost live: Kv)
      requires tx.Valid() && tx.state == Tx.Active && Mirrors(tx.RawTxView(), live, arity)
      ensures Valid() && this.tx == tx && this.arity == arity && this.live == live
    {
      this.tx, this.arity, this.live := tx, arity, live;
    }

    method Get(key: Key) returns (r: Option<Stored>)
      requires Valid() && Storable(key, arity)
      ensures r == At(live, key)
    {
      EncodesAt(tx.TxView(), live, arity, key);
      var bytes := tx.Get(EncodeKey(key));
      r := if bytes.value.None? then None else Some(DecodeStored(key, bytes.value.value).value);
    }

    method Scan(start: Option<ByteString>, end: Option<ByteString>) returns (rows: seq<Row>)
      requires Valid()
      ensures IsScan(rows, live, start, end)
      ensures forall i :: 0 <= i < |rows| ==> Storable(rows[i].key, arity)
    {
      var recs := tx.ScanStream(start, end);
      rows := DecodeRows(recs, tx.RawTxView(), live, arity, start, end);
      RowsAreScan(recs, rows, tx.RawTxView(), live, arity, start, end);
    }

    method Put(key: Key, stored: Stored)
      requires Valid() && Storable(key, arity) && (key.Field? <==> stored.Val?) && StoredFits(stored)
      modifies this, tx`pending
      ensures Valid() && live == old(live)[key := stored]
    {
      ghost var raw, next, rec := tx.RawTxView(), live[key := stored], Record(EncodeKey(key), Some(StoredBytes(stored)));
      forall now: EntryMap | LeadsTo(now, raw, rec) ensures Mirrors(now, next, arity) {
        PutMirrors(raw, now, live, arity, key, stored);
      }
      Write(Record(EncodeKey(key), Some(StoredBytes(stored))), next);
    }

    method Delete(key: Key)
      requires Valid() && Storable(key, arity)
      modifies this, tx`pending
      ensures Valid() && live == old(live) - {key}
    {
      ghost var raw, next, rec := tx.RawTxView(), live - {key}, Record(EncodeKey(key), None);
      forall now: EntryMap | LeadsTo(now, raw, rec) ensures Mirrors(now, next, arity) {
        DeleteMirrors(raw, now, live, arity, key);
      }
      Write(Record(EncodeKey(key), None), next);
    }

    method Write(rec: Record, ghost next: Kv)
      requires tx.Valid() && tx.state == Tx.Active
      requires forall now: EntryMap :: LeadsTo(now, tx.RawTxView(), rec) ==> Mirrors(now, next, arity)
      modifies this, tx`pending
      ensures Valid() && live == next
    {
      live := next;
      WritePending(tx, rec, next, arity);
    }

    /** After a commit the engine holds what the transaction saw. */
    method Commit()
      requires Valid()
      modifies tx, tx.db, tx.db.memtable
      ensures tx.Valid() && tx.state == Tx.Committed && live == old(live)
      ensures Mirrors(tx.db.RawView(), live, arity)
    {
      ghost var raw := tx.RawTxView();
      var r := tx.Commit();
      StillMirrors(raw, tx.db.RawView(), live, arity);
    }
  }

  /** A fresh transaction shows what the engine holds. */
  lemma FreshMirrors(tx: Tx.Transaction, s: Kv, arity: Arity)
    requires tx.pending == [] && Mirrors(tx.db.RawView(), s, arity)
    ensures Mirrors(tx.RawTxView(), s, arity)
  {
    Tx.NothingPending(tx.db.RawView());
  }

  /** One write of a transaction, after which it stands for `next`. */
  method WritePending(tx: Tx.Transaction, rec: Record, ghost next: Kv, arity: Arity)
    requires tx.Valid() && tx.state == Tx.Active
    requires forall now: EntryMap :: LeadsTo(now, tx.RawTxView(), rec) ==> Mirrors(now, next, arity)
    modifies tx`pending
    ensures tx.Valid() && Mirrors(tx.RawTxView(), next, arity)
  {
    EditedOnce(tx.TxView(), rec);
    var r := tx.Put(rec.key, rec.entry);
    assert LeadsTo(tx.RawTxView(), old(tx.RawTxView()), rec);
  }

  lemma StillMirrors(raw: EntryMap, now: EntryMap, s: Kv, arity: Arity)
    requires Mirrors(raw, s, arity) && Live(now) == Live(raw) && now.Keys <= raw.Keys
    ensures Mirrors(now, s, arity)
  {
  }
}
