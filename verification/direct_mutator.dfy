/** The storage engine as a `Mutator` of decoded keys (src/lib.rs:1172-1206): what the
    entity layer assumes of its store is what the engine keeps, byte by byte. */
module DirectMutators {
  import opened Std
  import opened Bytes
  import opened OrderedValues
  import opened KeyCodec
  import opened Store
  import opened Records
  import Codec
  import Recovery
  import Engine = DatabaseModel

  // ---- whole keys ----

  /** Decodes any stored key; the arity of a composite index comes from the schema. */
  function DecodeKey(b: ByteString, arity: Arity): Option<Key> {
    if b == [] then None
    else if b[0] == ENTITY_TAG then
      var parts := DecodeEntityKey(b);
      if parts.None? then None else Some(Field(parts.value.0, parts.value.1, parts.value.2))
    else if |b| < 13 || b[0] != INDEX_TAG then None
    else if U32At(b, 5) == COMPOSITE_FIELD_MARKER then DecodeComposite(b, U32At(b, 1), U32At(b, 9), arity)
    else DecodeEntry(b)
  }

  function DecodeComposite(b: ByteString, cid: U32, ix: U32, arity: Arity): Option<Key> {
    var parts := DecodeCompositeKey(b, arity(cid, ix));
    if parts.None? then None else Some(Composite(cid, ix, parts.value.0, parts.value.1))
  }

  function DecodeEntry(b: ByteString): Option<Key> {
    var parts := DecodeIndexKey(b);
    if parts.None? then None
    else
      var len := CodeLen(b[9..]);
      Some(Index(parts.value.0, parts.value.1, b[9..9 + len.value], parts.value.2))
  }

  lemma IndexKeyHead(k: Key)
    requires !k.Field? && ValidKey(k)
    ensures |EncodeKey(k)| >= 13 && EncodeKey(k)[0] == INDEX_TAG && U32At(EncodeKey(k), 1) == k.cid
    ensures U32At(EncodeKey(k), 5) == if k.Index? then k.fid else COMPOSITE_FIELD_MARKER
  {
    if k.Index? {
      IndexHeadDecodes(k.cid, k.fid, k.code + EntityTail(k.eid));
    } else {
      IndexKeyParts(k);
      IndexHeadDecodes(k.cid, COMPOSITE_FIELD_MARKER, Le32(k.ix) + (Concat(k.codes) + EntityTail(k.eid)));
    }
  }

  lemma CompositeIx(k: Key)
    requires k.Composite? && ValidKey(k)
    ensures |EncodeKey(k)| >= 13 && U32At(EncodeKey(k), 9) == k.ix
  {
    IndexKeyParts(k);
    U32Reads(IndexFieldPrefix(k.cid, COMPOSITE_FIELD_MARKER), k.ix, Concat(k.codes) + EntityTail(k.eid));
  }

  /** Every key that is ever written reads back. */
  lemma KeyDecodes(k: Key, arity: Arity)
    requires Storable(k, arity)
    ensures DecodeKey(EncodeKey(k), arity) == Some(k)
  {
    KeyTag(k);
    match k
    case Field(_, _, _) => EntityKeyDecodes(k);
    case Index(_, _, _, _) =>
      IndexKeyHead(k);
      IndexKeyDecodes(k);
    case Composite(_, _, _, _) =>
      IndexKeyHead(k);
      CompositeIx(k);
      CompositeKeyDecodes(k);
  }

  // ---- values ----

  predicate StoredFits(v: Stored) {
    v.Val? ==> Codec.Fits(v.v)
  }

  function StoredBytes(v: Stored): ByteString
    requires StoredFits(v)
  {
    if v.Val? then Codec.Encode(v.v) else []
  }

  function DecodeStored(k: Key, b: ByteString): Result<Stored> {
    if k.Field? then
      match Codec.Decode(b)
      case Ok(v) => Ok(Val(v))
      case Err(e) => Err(e)
    else Ok(Empty)
  }

  lemma StoredDecodes(k: Key, v: Stored)
    requires StoredFits(v) && (k.Field? <==> v.Val?)
    ensures DecodeStored(k, StoredBytes(v)) == Ok(v)
  {
    if v.Val? {
      Codec.DecodeEncode(v.v);
    }
  }

  // ---- byte maps that stand for key maps ----

  type ByteMap = map<ByteString, ByteString>

  /** The bytes are those of a storable key. */
  ghost predicate IsKeyCode(b: ByteString, arity: Arity) {
    DecodeKey(b, arity).Some? && var k := DecodeKey(b, arity).value; Storable(k, arity) && EncodeKey(k) == b
  }

  ghost predicate Holds(view: ByteMap, k: Key, v: Stored) {
    && |k.eid| < U32_LIMIT && StoredFits(v)
    && EncodeKey(k) in view && view[EncodeKey(k)] == StoredBytes(v)
  }

  ghost predicate Encodes(view: ByteMap, s: Kv, arity: Arity) {
    && (forall k :: k in s ==> Holds(view, k, s[k]))
    && (forall b :: b in view ==> IsKeyCode(b, arity) && DecodeKey(b, arity).value in s)
  }

  ghost predicate KnownKeys(keys: set<ByteString>, arity: Arity) {
    forall b :: b in keys ==> IsKeyCode(b, arity)
  }

  lemma KeyIsCode(k: Key, arity: Arity)
    requires Storable(k, arity)
    ensures IsKeyCode(EncodeKey(k), arity) && DecodeKey(EncodeKey(k), arity).value == k
  {
    KeyDecodes(k, arity);
  }

  lemma CodesDiffer(j: Key, k: Key, arity: Arity)
    requires Storable(j, arity) && Storable(k, arity) && j != k
    ensures EncodeKey(j) != EncodeKey(k)
  {
    KeyIsCode(j, arity);
    KeyIsCode(k, arity);
  }

  lemma HoldsAfterPut(view: ByteMap, s: Kv, arity: Arity, k: Key, v: Stored, x: Key)
    requires Encodes(view, s, arity) && WellTyped(s, arity) && Storable(k, arity) && StoredFits(v)
    requires x in s[k := v]
    ensures Holds(view[EncodeKey(k) := StoredBytes(v)], x, s[k := v][x])
  {
    if x != k {
      assert Holds(view, x, s[x]);
      CodesDiffer(x, k, arity);
    }
  }

  lemma EncodesPut(view: ByteMap, s: Kv, arity: Arity, k: Key, v: Stored)
    requires Encodes(view, s, arity) && WellTyped(s, arity) && Storable(k, arity) && StoredFits(v)
    ensures Encodes(view[EncodeKey(k) := StoredBytes(v)], s[k := v], arity)
  {
    KeyIsCode(k, arity);
    var view', s' := view[EncodeKey(k) := StoredBytes(v)], s[k := v];
    forall x | x in s' ensures Holds(view', x, s'[x]) {
      HoldsAfterPut(view, s, arity, k, v, x);
    }
  }

  lemma HoldsAfterDelete(view: ByteMap, s: Kv, arity: Arity, k: Key, x: Key)
    requires Encodes(view, s, arity) && WellTyped(s, arity) && Storable(k, arity) && x in s - {k}
    ensures Holds(view - {EncodeKey(k)}, x, s[x])
  {
    assert Holds(view, x, s[x]);
    CodesDiffer(x, k, arity);
  }

  lemma EncodesDelete(view: ByteMap, s: Kv, arity: Arity, k: Key)
    requires Encodes(view, s, arity) && WellTyped(s, arity) && Storable(k, arity)
    ensures Encodes(view - {EncodeKey(k)}, s - {k}, arity)
  {
    KeyIsCode(k, arity);
    var view', s' := view - {EncodeKey(k)}, s - {k};
    forall x | x in s' ensures Holds(view', x, s'[x]) {
      HoldsAfterDelete(view, s, arity, k, x);
    }
    forall b | b in view' ensures IsKeyCode(b, arity) && DecodeKey(b, arity).value in s' {
      assert IsKeyCode(b, arity);
    }
  }

  lemma EncodesAt(view: ByteMap, s: Kv, arity: Arity, k: Key)
    requires Encodes(view, s, arity) && WellTyped(s, arity) && Storable(k, arity)
    ensures EncodeKey(k) in view <==> k in s
    ensures k in s ==> DecodeStored(k, view[EncodeKey(k)]) == Ok(s[k])
  {
    KeyIsCode(k, arity);
    if k in s {
      assert Holds(view, k, s[k]);
      StoredDecodes(k, s[k]);
    }
  }

  // ---- scans ----

  ghost predicate DecodesTo(rec: Record, row: Row, s: Kv, arity: Arity) {
    && IsKeyCode(rec.key, arity) && row.key == DecodeKey(rec.key, arity).value && row.stored == At(s, row.key)
  }

  /** A raw record of the engine, decoded. */
  lemma RecordDecodes(raw: EntryMap, s: Kv, arity: Arity, rec: Record)
    requires Encodes(Live(raw), s, arity) && WellTyped(s, arity) && KnownKeys(raw.Keys, arity)
    requires rec.key in raw && raw[rec.key] == rec.entry
    ensures IsKeyCode(rec.key, arity)
    ensures var k := DecodeKey(rec.key, arity).value;
      if rec.entry.None? then At(s, k) == None
      else DecodeStored(k, rec.entry.value).Ok? && At(s, k) == Some(DecodeStored(k, rec.entry.value).value)
  {
    var k := DecodeKey(rec.key, arity).value;
    EncodesAt(Live(raw), s, arity, k);
  }

  lemma KeyHasRow(recs: seq<Record>, rows: seq<Row>, raw: EntryMap, s: Kv, arity: Arity,
                  start: Option<ByteString>, end: Option<ByteString>, k: Key)
    requires Encodes(Live(raw), s, arity) && WellTyped(s, arity) && AsMap(recs) == Restrict(raw, start, end)
    requires |rows| == |recs| && forall i :: 0 <= i < |recs| ==> DecodesTo(recs[i], rows[i], s, arity)
    requires k in s && KeyInRange(k, start, end)
    ensures HasRow(rows, k)
  {
    EncodesAt(Live(raw), s, arity, k);
    AsMapKeys(recs, EncodeKey(k));
    var i :| 0 <= i < |recs| && recs[i].key == EncodeKey(k);
    KeyIsCode(k, arity);
    assert DecodesTo(recs[i], rows[i], s, arity);
  }

  lemma RowStands(recs: seq<Record>, i: nat, row: Row, raw: EntryMap, s: Kv, arity: Arity,
                  start: Option<ByteString>, end: Option<ByteString>)
    requires i < |recs| && Sorted(recs) && AsMap(recs) == Restrict(raw, start, end) && DecodesTo(recs[i], row, s, arity)
    ensures KeyInRange(row.key, start, end) && row.stored == At(s, row.key) && Storable(row.key, arity)
  {
    AsMapAt(recs, i);
    assert recs[i].key in Restrict(raw, start, end);
  }

  lemma RowsAreScan(recs: seq<Record>, rows: seq<Row>, raw: EntryMap, s: Kv, arity: Arity,
                    start: Option<ByteString>, end: Option<ByteString>)
    requires Encodes(Live(raw), s, arity) && WellTyped(s, arity)
    requires Sorted(recs) && AsMap(recs) == Restrict(raw, start, end)
    requires |rows| == |recs| && forall i :: 0 <= i < |recs| ==> DecodesTo(recs[i], rows[i], s, arity)
    ensures IsScan(rows, s, start, end)
    ensures forall i :: 0 <= i < |rows| ==> Storable(rows[i].key, arity)
  {
    forall i | 0 <= i < |rows|
      ensures KeyInRange(rows[i].key, start, end) && rows[i].stored == At(s, rows[i].key) && Storable(rows[i].key, arity)
    {
      RowStands(recs, i, rows[i], raw, s, arity, start, end);
    }
    forall i, j | 0 <= i < j < |rows| ensures KeyLess(rows[i].key, rows[j].key) {
      assert DecodesTo(recs[i], rows[i], s, arity) && DecodesTo(recs[j], rows[j], s, arity);
    }
    forall k | k in s && KeyInRange(k, start, end) ensures HasRow(rows, k) {
      KeyHasRow(recs, rows, raw, s, arity, start, end, k);
    }
  }

  method DecodeRows(recs: seq<Record>, ghost raw: EntryMap, ghost s: Kv, arity: Arity,
                    ghost start: Option<ByteString>, ghost end: Option<ByteString>) returns (rows: seq<Row>)
    requires Mirrors(raw, s, arity) && Sorted(recs) && AsMap(recs) == Restrict(raw, start, end)
    ensures |rows| == |recs| && forall i :: 0 <= i < |recs| ==> DecodesTo(recs[i], rows[i], s, arity)
  {
    rows := [];
    while |rows| < |recs|
      invariant |rows| <= |recs| && forall i :: 0 <= i < |rows| ==> DecodesTo(recs[i], rows[i], s, arity)
    {
      var rec := recs[|rows|];
      AsMapAt(recs, |rows|);
      assert rec.key in Restrict(raw, start, end);
      RecordDecodes(raw, s, arity, rec);
      var k := DecodeKey(rec.key, arity).value;
      rows := rows + [Row(k, if rec.entry.None? then None else Some(DecodeStored(k, rec.entry.value).value))];
    }
  }

  // ---- the engine ----

  /** The raw map of the engine stands for the key map. */
  ghost predicate Mirrors(raw: EntryMap, s: Kv, arity: Arity) {
    WellTyped(s, arity) && Encodes(Live(raw), s, arity) && KnownKeys(raw.Keys, arity)
  }

  lemma PutMirrors(raw: EntryMap, now: EntryMap, s: Kv, arity: Arity, k: Key, v: Stored)
    requires Mirrors(raw, s, arity) && Storable(k, arity) && StoredFits(v) && (k.Field? <==> v.Val?)
    requires Live(now) == Live(raw)[EncodeKey(k) := StoredBytes(v)] && now.Keys <= raw.Keys + {EncodeKey(k)}
    ensures Mirrors(now, s[k := v], arity)
  {
    EncodesPut(Live(raw), s, arity, k, v);
    KeyIsCode(k, arity);
  }

  lemma DeleteMirrors(raw: EntryMap, now: EntryMap, s: Kv, arity: Arity, k: Key)
    requires Mirrors(raw, s, arity) && Storable(k, arity)
    requires Live(now) == Live(raw) - {EncodeKey(k)} && now.Keys <= raw.Keys + {EncodeKey(k)}
    ensures Mirrors(now, s - {k}, arity)
  {
    EncodesDelete(Live(raw), s, arity, k);
    KeyIsCode(k, arity);
  }

  lemma EditedOnce(view: ByteMap, rec: Record)
    ensures Recovery.Edited(view, [rec]) == if rec.entry.Some? then view[rec.key := rec.entry.value] else view - {rec.key}
  {
    assert [rec][..0] == [];
  }

  class DirectMutator {
    const db: Engine.Database
    const arity: Arity
    /** What the engine holds, decoded. */
    ghost var live: Kv

    ghost predicate Valid()
      reads this, db, db.memtable
    {
      db.Valid() && Mirrors(db.RawView(), live, arity)
    }

    constructor (db: Engine.Database, arity: Arity, ghost live: Kv)
      requires db.Valid() && Mirrors(db.RawView(), live, arity)
      ensures Valid() && this.db == db && this.arity == arity && this.live == live
    {
      this.db, this.arity, this.live := db, arity, live;
    }

    method Get(key: Key) returns (r: Option<Stored>)
      requires Valid() && Storable(key, arity)
      ensures r == At(live, key)
    {
      EncodesAt(db.View(), live, arity, key);
      var bytes := db.Get(EncodeKey(key));
      r := if bytes.None? then None else Some(DecodeStored(key, bytes.value).value);
    }

    method Scan(start: Option<ByteString>, end: Option<ByteString>) returns (rows: seq<Row>)
      requires Valid()
      ensures IsScan(rows, live, start, end)
      ensures forall i :: 0 <= i < |rows| ==> Storable(rows[i].key, arity)
    {
      var recs := db.ScanStream(start, end);
      rows := DecodeRows(recs, db.RawView(), live, arity, start, end);
      RowsAreScan(recs, rows, db.RawView(), live, arity, start, end);
    }

    method Put(key: Key, stored: Stored)
      requires Valid() && Storable(key, arity) && (key.Field? <==> stored.Val?) && StoredFits(stored)
      modifies this, db, db.memtable
      ensures Valid() && live == old(live)[key := stored]
      ensures db.memtable == old(db.memtable) || fresh(db.memtable)
    {
      ghost var raw, next, rec := db.RawView(), live[key := stored], Record(EncodeKey(key), Some(StoredBytes(stored)));
      forall now: EntryMap | LeadsTo(now, raw, rec) ensures Mirrors(now, next, arity) {
        PutMirrors(raw, now, live, arity, key, stored);
      }
      Write(Record(EncodeKey(key), Some(StoredBytes(stored))), next);
    }

    method Delete(key: Key)
      requires Valid() && Storable(key, arity)
      modifies this, db, db.memtable
      ensures Valid() && live == old(live) - {key}
      ensures db.memtable == old(db.memtable) || fresh(db.memtable)
    {
      ghost var raw, next, rec := db.RawView(), live - {key}, Record(EncodeKey(key), None);
      forall now: EntryMap | LeadsTo(now, raw, rec) ensures Mirrors(now, next, arity) {
        DeleteMirrors(raw, now, live, arity, key);
      }
      Write(Record(EncodeKey(key), None), next);
    }

    /** One write of the engine, with the key map kept beside it. */
    method Write(rec: Record, ghost next: Kv)
      requires db.Valid() && forall now: EntryMap :: LeadsTo(now, db.RawView(), rec) ==> Mirrors(now, next, arity)
      modifies this, db, db.memtable
      ensures Valid() && live == next
      ensures db.memtable == old(db.memtable) || fresh(db.memtable)
    {
      live := next;
      WriteRaw(db, rec, next, arity);
    }
  }

  /** One write of the engine, after which it stands for `next`. */
  method WriteRaw(db: Engine.Database, rec: Record, ghost next: Kv, arity: Arity)
    requires db.Valid() && forall now: EntryMap :: LeadsTo(now, db.RawView(), rec) ==> Mirrors(now, next, arity)
    modifies db, db.memtable
    ensures db.Valid() && Mirrors(db.RawView(), next, arity)
    ensures db.memtable == old(db.memtable) || fresh(db.memtable)
  {
    EditedOnce(db.View(), rec);
    db.PutInternal(rec);
    assert LeadsTo(db.RawView(), old(db.RawView()), rec);
  }

  /** What a write may do to the raw map: the view changes at its key, no other key appears. */
  ghost predicate LeadsTo(now: EntryMap, raw: EntryMap, rec: Record) {
    && now.Keys <= raw.Keys + {rec.key}
    && Live(now) == if rec.entry.Some? then Live(raw)[rec.key := rec.entry.value] else Live(raw) - {rec.key}
  }
}
