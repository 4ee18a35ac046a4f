/** The streaming full scan (src/query/executor.rs:205-259): consecutive field rows are
    assembled into entities. It relies on all rows of an entity lying together. */
module Assembling {
  import opened Std
  import opened Bytes
  import opened KeyCodec
  import opened Store
  import opened Entities
  import opened Indexes
  import opened Ranking

  predicate LiveField(row: Row) {
    row.key.Field? && row.stored.Some? && row.stored.value.Val?
  }

  function WithField(r: Found, row: Row): Found
    requires LiveField(row)
  {
    r.(fs := r.fs[row.key.fid := row.stored.value.v])
  }

  /** One more row: it extends the last entity if it belongs to it, else starts the next. */
  function Gather(found: seq<Found>, row: Row): seq<Found> {
    if !LiveField(row) then found
    else
      var n := |found| - 1;
      if found != [] && found[n].eid == row.key.eid then found[..n] + [WithField(found[n], row)]
      else found + [WithField(Found(row.key.eid, map[]), row)]
  }

  function Gathered(rows: seq<Row>): seq<Found> {
    if rows == [] then [] else Gather(Gathered(rows[..|rows| - 1]), rows[|rows| - 1])
  }

  function Pending(current: Option<Found>): seq<Found> {
    if current.Some? then [current.value] else []
  }

  /** The first rows of the stream have been assembled: returned, or pending. */
  ghost predicate Assembled(stream: seq<Row>, pos: nat, emitted: seq<Found>, current: Option<Found>) {
    && pos <= |stream| && emitted + Pending(current) == Gathered(stream[..pos])
    && (current.Some? ==> current.value.fs != map[])
    && (current.None? ==> emitted == [] || pos == |stream|)
  }

  lemma SkipRow(stream: seq<Row>, pos: nat, emitted: seq<Found>, current: Option<Found>)
    requires pos < |stream| && Assembled(stream, pos, emitted, current) && !LiveField(stream[pos])
    ensures Assembled(stream, pos + 1, emitted, current)
  {
    assert stream[..pos + 1][..pos] == stream[..pos];
  }

  lemma ExtendRow(stream: seq<Row>, pos: nat, emitted: seq<Found>, cur: Found)
    requires pos < |stream| && Assembled(stream, pos, emitted, Some(cur))
    requires LiveField(stream[pos]) && cur.eid == stream[pos].key.eid
    ensures Assembled(stream, pos + 1, emitted, Some(WithField(cur, stream[pos])))
  {
    assert stream[..pos + 1][..pos] == stream[..pos];
    assert (emitted + [cur])[..|emitted|] == emitted;
    assert stream[pos].key.fid in WithField(cur, stream[pos]).fs;
  }

  lemma StartRow(stream: seq<Row>, pos: nat, emitted: seq<Found>, prev: Option<Found>)
    requires pos < |stream| && Assembled(stream, pos, emitted, prev)
    requires LiveField(stream[pos]) && (prev.Some? ==> prev.value.eid != stream[pos].key.eid)
    ensures Assembled(stream, pos + 1, emitted + Pending(prev), Some(WithField(Found(stream[pos].key.eid, map[]), stream[pos])))
  {
    assert stream[..pos + 1][..pos] == stream[..pos];
    var found := emitted + Pending(prev);
    assert found != [] ==> prev.Some? && found[|found| - 1] == prev.value;
    assert stream[pos].key.fid in WithField(Found(stream[pos].key.eid, map[]), stream[pos]).fs;
  }

  class ScanAssembler {
    const stream: seq<Row>
    var pos: nat
    var current: Option<Found>
    /** The entities returned so far. */
    ghost var emitted: seq<Found>

    ghost predicate Valid()
      reads this
    {
      Assembled(stream, pos, emitted, current)
    }

    ghost function Remaining(): int
      reads this
    {
      |stream| - pos + |Pending(current)|
    }

    constructor (stream: seq<Row>)
      ensures Valid() && this.stream == stream && emitted == []
    {
      this.stream, pos, current, emitted := stream, 0, None, [];
    }

    /** One turn of the loop of `next`. */
    method TakeRow() returns (r: Option<Found>)
      requires Valid() && pos < |stream|
      modifies this
      ensures Valid() && pos == old(pos) + 1
      ensures emitted == old(emitted) + Pending(r)
      ensures Remaining() <= old(Remaining()) - |Pending(r)|
    {
      var row := stream[pos];
      r := None;
      if !LiveField(row) {
        SkipRow(stream, pos, emitted, current);
      } else if current.Some? && current.value.eid == row.key.eid {
        ExtendRow(stream, pos, emitted, current.value);
        current := Some(WithField(current.value, row));
      } else {
        StartRow(stream, pos, emitted, current);
        var prev := current;
        current := Some(WithField(Found(row.key.eid, map[]), row));
        if prev.Some? {
          if prev.value.fs != map[] {
            r := prev;
          }
        }
      }
      emitted := emitted + Pending(r);
      pos := pos + 1;
    }

    /** `next`: the entities of `Gathered`, one by one. */
    method Next() returns (r: Option<Found>)
      requires Valid()
      modifies this
      ensures Valid()
      ensures r.Some? ==> emitted == old(emitted) + [r.value] && Remaining() < old(Remaining())
      ensures r.None? ==> emitted == old(emitted) == Gathered(stream) && Remaining() <= old(Remaining())
    {
      while pos < |stream|
        invariant Valid() && emitted == old(emitted)
        invariant Remaining() <= old(Remaining())
      {
        r := TakeRow();
        if r.Some? {
          return;
        }
      }
      assert stream[..pos] == stream;
      r := current;
      current := None;
      emitted := emitted + Pending(r);
    }
  }

  /** All rows of the stream, assembled. */
  method Assemble(stream: seq<Row>) returns (found: seq<Found>)
    ensures found == Gathered(stream)
  {
    var it := new ScanAssembler(stream);
    found := [];
    var next := it.Next();
    while next.Some?
      invariant it.Valid() && it.stream == stream
      invariant it.emitted == found + Pending(next)
      invariant next.None? ==> found == Gathered(stream)
      decreases it.Remaining(), if next.Some? then 1 else 0
    {
      found := found + [next.value];
      next := it.Next();
    }
  }

  // ---- the assembled entities are the entities ----

  /** All rows of an entity lie together. */
  ghost predicate Contiguous(rows: seq<Row>) {
    forall a, b, c :: 0 <= a < b < c < |rows| && rows[a].key.eid == rows[c].key.eid ==> rows[b].key.eid == rows[a].key.eid
  }

  lemma BetweenRows(cid: U32, a: Key, b: Key, c: Key)
    requires |a.eid| < U32_LIMIT && |b.eid| < U32_LIMIT && |c.eid| < U32_LIMIT
    requires a.Field? && c.Field? && a.cid == cid && c.cid == cid && a.eid == c.eid
    requires KeyLess(a, b) && KeyLess(b, c)
    ensures b.eid == a.eid
  {
    var p := EntityPrefix(cid, a.eid);
    EntityRangeExact(cid, a.eid, a);
    EntityRangeExact(cid, a.eid, b);
    EntityRangeExact(cid, a.eid, c);
    InRangeConvex(EncodeKey(a), EncodeKey(b), EncodeKey(c), Some(p), Successor(p));
  }

  lemma InRangeConvex(a: ByteString, b: ByteString, c: ByteString, start: Option<ByteString>, end: Option<ByteString>)
    requires Less(a, b) && Less(b, c) && InRange(a, start, end) && InRange(c, start, end)
    ensures InRange(b, start, end)
  {
    LessIsStrictTotalOrder();
  }

  lemma CollectionContiguous(rows: seq<Row>, s: Kv, arity: Arity, cid: U32)
    requires RowsAscend(rows) && forall i :: 0 <= i < |rows| ==> CollectionRow(rows[i], s, cid)
    ensures Contiguous(rows)
  {
    forall a, b, c | 0 <= a < b < c < |rows| && rows[a].key.eid == rows[c].key.eid ensures rows[b].key.eid == rows[a].key.eid {
      BetweenRows(cid, rows[a].key, rows[b].key, rows[c].key);
    }
  }

  /** The rows grouped by a map instead. */
  function Folded(rows: seq<Row>): ByEntity {
    if rows == [] then map[] else AddField(Folded(rows[..|rows| - 1]), rows[|rows| - 1])
  }

  lemma {:induction false} FoldedIsGrouped(rows: seq<Row>, s: Kv, cid: U32)
    requires forall i :: 0 <= i < |rows| ==> CollectionRow(rows[i], s, cid)
    ensures Grouped(Folded(rows), rows, s, cid)
  {
    if rows != [] {
      var n := |rows| - 1;
      FoldedIsGrouped(rows[..n], s, cid);
      GroupedSnoc(Folded(rows[..n]), rows, n, s, cid);
      assert rows[..n + 1] == rows;
    }
  }

  predicate HasFound(found: seq<Found>, e: ByteString) {
    exists j :: 0 <= j < |found| && found[j].eid == e
  }

  lemma FoundSnoc(found: seq<Found>, r: Found, e: ByteString)
    ensures HasFound(found + [r], e) <==> HasFound(found, e) || e == r.eid
  {
    var more := found + [r];
    if e == r.eid {
      assert more[|found|].eid == e;
    }
    if HasFound(found, e) {
      var j :| 0 <= j < |found| && found[j].eid == e;
      assert more[j].eid == e;
    }
  }

  /** The list and the map hold the same entities. */
  ghost predicate Lists(found: seq<Found>, groups: ByEntity) {
    && DistinctRows(found)
    && (forall j :: 0 <= j < |found| ==> found[j].eid in groups && groups[found[j].eid] == found[j].fs)
    && (forall e :: e in groups ==> HasFound(found, e))
  }

  lemma ListsExtended(found: seq<Found>, groups: ByEntity, row: Row)
    requires Lists(found, groups) && LiveField(row) && found != [] && found[|found| - 1].eid == row.key.eid
    ensures Lists(Gather(found, row), AddField(groups, row))
  {
    var n := |found| - 1;
    var more := Gather(found, row);
    forall j | 0 <= j < n ensures more[j] == found[j] {
    }
    forall e | e in AddField(groups, row) ensures HasFound(more, e) {
      assert HasFound(found, e);
      var j :| 0 <= j < |found| && found[j].eid == e;
      assert more[j].eid == e;
    }
  }

  lemma ListsStarted(found: seq<Found>, groups: ByEntity, row: Row)
    requires Lists(found, groups) && LiveField(row) && row.key.eid !in groups
    ensures Lists(Gather(found, row), AddField(groups, row))
  {
    var more := Gather(found, row);
    assert more == found + [WithField(Found(row.key.eid, map[]), row)];
    forall e | e in AddField(groups, row) ensures HasFound(more, e) {
      if e == row.key.eid {
        assert more[|found|].eid == e;
      } else {
        assert HasFound(found, e);
        var j :| 0 <= j < |found| && found[j].eid == e;
        assert more[j].eid == e;
      }
    }
  }

  /** The last entity is that of the last live row. */
  ghost predicate LastIsLatest(found: seq<Found>, rows: seq<Row>) {
    forall a :: 0 <= a < |rows| && LiveField(rows[a]) ==> found != [] && SameOrLater(rows, a, found[|found| - 1].eid)
  }

  ghost predicate SameOrLater(rows: seq<Row>, a: nat, e: ByteString)
    requires a < |rows|
  {
    rows[a].key.eid == e || exists b :: a < b < |rows| && rows[b].key.eid == e
  }

  lemma LatestSnoc(rows: seq<Row>)
    requires rows != [] && LastIsLatest(Gathered(rows[..|rows| - 1]), rows[..|rows| - 1])
    ensures LastIsLatest(Gathered(rows), rows)
  {
    var n := |rows| - 1;
    var front, found := rows[..n], Gathered(rows);
    forall a | 0 <= a < |rows| && LiveField(rows[a]) ensures found != [] && SameOrLater(rows, a, found[|found| - 1].eid) {
      if LiveField(rows[n]) {
        GatherEnds(Gathered(front), rows[n]);
        LastIsLater(rows, a);
      } else {
        assert front[a] == rows[a] && LiveField(front[a]);
        StillSameOrLater(rows, a, found[|found| - 1].eid);
      }
    }
  }

  lemma LastIsLater(rows: seq<Row>, a: nat)
    requires a < |rows|
    ensures SameOrLater(rows, a, rows[|rows| - 1].key.eid)
  {
  }

  lemma GatherEnds(found: seq<Found>, row: Row)
    requires LiveField(row)
    ensures var more := Gather(found, row); more != [] && more[|more| - 1].eid == row.key.eid
  {
  }

  lemma StillSameOrLater(rows: seq<Row>, a: nat, e: ByteString)
    requires a < |rows| - 1 && SameOrLater(rows[..|rows| - 1], a, e)
    ensures SameOrLater(rows, a, e)
  {
    var front := rows[..|rows| - 1];
    if front[a].key.eid != e {
      var b :| a < b < |front| && front[b].key.eid == e;
      assert rows[b].key.eid == e;
    }
  }

  /** Every group comes from a live row. */
  ghost predicate GroupsSeen(groups: ByEntity, rows: seq<Row>) {
    forall e :: e in groups ==> exists a :: 0 <= a < |rows| && LiveField(rows[a]) && rows[a].key.eid == e
  }

  lemma {:induction false} FoldedSeen(rows: seq<Row>)
    ensures GroupsSeen(Folded(rows), rows)
  {
    if rows != [] {
      var n := |rows| - 1;
      FoldedSeen(rows[..n]);
      forall e | e in Folded(rows) ensures exists a :: 0 <= a < |rows| && LiveField(rows[a]) && rows[a].key.eid == e {
        if e in Folded(rows[..n]) {
          var a :| 0 <= a < n && LiveField(rows[..n][a]) && rows[..n][a].key.eid == e;
          assert rows[a] == rows[..n][a];
        } else {
          assert LiveField(rows[n]) && rows[n].key.eid == e;
        }
      }
    }
  }

  lemma {:induction false} GatheredLists(rows: seq<Row>)
    requires Contiguous(rows)
    ensures Lists(Gathered(rows), Folded(rows)) && LastIsLatest(Gathered(rows), rows)
  {
    if rows != [] {
      var n := |rows| - 1;
      var front := rows[..n];
      assert Contiguous(front) by {
        assert forall i :: 0 <= i < n ==> front[i] == rows[i];
      }
      GatheredLists(front);
      LatestSnoc(rows);
      if LiveField(rows[n]) {
        var found := Gathered(front);
        if found != [] && found[|found| - 1].eid == rows[n].key.eid {
          ListsExtended(found, Folded(front), rows[n]);
        } else {
          NewEntity(rows);
          ListsStarted(found, Folded(front), rows[n]);
        }
      }
    }
  }

  /** A row that does not belong to the last entity belongs to none before. */
  lemma NewEntity(rows: seq<Row>)
    requires Contiguous(rows) && rows != []
    requires var n := |rows| - 1; var found := Gathered(rows[..n]);
      LastIsLatest(found, rows[..n]) && (found != [] ==> found[|found| - 1].eid != rows[n].key.eid)
    ensures rows[|rows| - 1].key.eid !in Folded(rows[..|rows| - 1])
  {
    var n := |rows| - 1;
    var front, e := rows[..n], rows[n].key.eid;
    var found := Gathered(front);
    FoldedSeen(front);
    forall a | 0 <= a < n && LiveField(front[a]) ensures front[a].key.eid != e {
      NotBefore(rows, a, found[|found| - 1].eid);
    }
  }

  lemma NotBefore(rows: seq<Row>, a: nat, latest: ByteString)
    requires Contiguous(rows) && a < |rows| - 1 && rows[|rows| - 1].key.eid != latest
    requires SameOrLater(rows[..|rows| - 1], a, latest)
    ensures rows[a].key.eid != rows[|rows| - 1].key.eid
  {
    var front := rows[..|rows| - 1];
    if front[a].key.eid != latest {
      var b :| a < b < |front| && front[b].key.eid == latest;
      assert rows[b].key.eid == latest;
    }
  }

  /** The rows stand for entities of the store, each once. */
  ghost predicate TrueRows(found: seq<Found>, s: Kv, cid: U32) {
    DistinctRows(found) && forall j :: 0 <= j < |found| ==> found[j].fs == FieldsOf(s, cid, found[j].eid) != map[]
  }

  /** A full scan finds every entity once, with all its fields. */
  lemma GatheredIsExact(rows: seq<Row>, s: Kv, arity: Arity, cid: U32)
    requires WellTyped(s, arity)
    requires IsScan(rows, s, Some(CollectionPrefix(cid)), Successor(CollectionPrefix(cid)))
    ensures TrueRows(Gathered(rows), s, cid)
    ensures forall e :: HasFound(Gathered(rows), e) <==> FieldsOf(s, cid, e) != map[]
  {
    var found, groups := Gathered(rows), Folded(rows);
    CollectionRowsAre(rows, s, arity, cid);
    CollectionContiguous(rows, s, arity, cid);
    GatheredLists(rows);
    FoldedIsGrouped(rows, s, cid);
    GroupedAll(groups, rows, s, cid);
    forall e: ByteString ensures HasFound(found, e) <==> FieldsOf(s, cid, e) != map[] {
      assert e in groups <==> FieldsOf(s, cid, e) != map[];
    }
  }
}
