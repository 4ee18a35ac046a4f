/** The key-value view that entities and indexes are written through: the `Mutator` of
    src/lib.rs:1172-1184, over decoded keys. Distinct keys have distinct bytes, so a map
    over keys is a map over bytes; DirectMutators and TxMutators show that the engine and
    a transaction are such views. */
module Store {
  import opened Std
  import opened Bytes
  import opened OrderedValues
  import opened KeyCodec

  /** Field keys carry a value, index keys an empty byte string. */
  datatype Stored = Val(v: Value) | Empty

  type Kv = map<Key, Stored>

  /** A row of a raw scan; `None` is a tombstone. */
  datatype Row = Row(key: Key, stored: Option<Stored>)

  function At(s: Kv, k: Key): Option<Stored> {
    if k in s then Some(s[k]) else None
  }

  /** Number of components of every composite index, by collection and index id. */
  type Arity = (U32, U32) -> nat

  ghost predicate Storable(k: Key, arity: Arity) {
    ValidKey(k) && (k.Composite? ==> |k.codes| == arity(k.cid, k.ix))
  }

  ghost predicate WellTyped(s: Kv, arity: Arity) {
    forall k :: k in s ==> Storable(k, arity) && (k.Field? <==> s[k].Val?)
  }

  predicate KeyLess(a: Key, b: Key)
    requires |a.eid| < U32_LIMIT && |b.eid| < U32_LIMIT
  {
    Less(EncodeKey(a), EncodeKey(b))
  }

  /** `k` lies in a byte range [start, end). */
  predicate KeyInRange(k: Key, start: Option<ByteString>, end: Option<ByteString>) {
    |k.eid| < U32_LIMIT && InRange(EncodeKey(k), start, end)
  }

  /** A raw scan: in byte order, every live key of the range with its value, and beside
      them any tombstones. */
  ghost predicate IsScan(rows: seq<Row>, live: Kv, start: Option<ByteString>, end: Option<ByteString>) {
    && (forall i :: 0 <= i < |rows| ==> KeyInRange(rows[i].key, start, end) && rows[i].stored == At(live, rows[i].key))
    && RowsAscend(rows)
    && (forall k :: k in live && KeyInRange(k, start, end) ==> HasRow(rows, k))
  }

  ghost predicate RowsAscend(rows: seq<Row>) {
    && (forall i :: 0 <= i < |rows| ==> |rows[i].key.eid| < U32_LIMIT)
    && (forall i, j :: 0 <= i < j < |rows| ==> KeyLess(rows[i].key, rows[j].key))
  }

  predicate IsLeast(s: set<Key>, k: Key) {
    k in s && |k.eid| < U32_LIMIT && forall j :: j in s && j != k ==> |j.eid| < U32_LIMIT && KeyLess(k, j)
  }

  /** Every nonempty set of keys has a first one. */
  lemma {:induction false} HasLeast(s: set<Key>, arity: Arity)
    requires s != {} && forall k :: k in s ==> Storable(k, arity)
    ensures exists k :: IsLeast(s, k)
    decreases |s|
  {
    var x :| x in s;
    if s == {x} {
      assert IsLeast(s, x);
    } else {
      HasLeast(s - {x}, arity);
      var k :| IsLeast(s - {x}, k);
      KeysOrdered(x, k, arity);
      if KeyLess(x, k) {
        forall j | j in s && j != x ensures |j.eid| < U32_LIMIT && KeyLess(x, j) {
          if j != k {
            LessTransitive(EncodeKey(x), EncodeKey(k), EncodeKey(j));
          }
        }
        assert IsLeast(s, x);
      } else {
        assert IsLeast(s, k);
      }
    }
  }

  lemma KeysOrdered(a: Key, b: Key, arity: Arity)
    requires Storable(a, arity) && Storable(b, arity) && a != b
    ensures KeyLess(a, b) || KeyLess(b, a)
  {
    LessTotal(EncodeKey(a), EncodeKey(b));
    if EncodeKey(a) == EncodeKey(b) {
      EncodeKeyInjective(a, b);
    }
  }

  /** The state `s` is, key by key, that of `a` or that of `b`. */
  ghost predicate Mixed(s: Kv, a: Kv, b: Kv) {
    forall k :: At(s, k) == At(a, k) || At(s, k) == At(b, k)
  }

  /** The rows of the keys in `done`, all of which come before those in `todo`. */
  ghost predicate Scanned(rows: seq<Row>, done: set<Key>, todo: set<Key>, live: Kv) {
    && (forall i :: 0 <= i < |rows| ==> rows[i].key in done && rows[i].stored == At(live, rows[i].key))
    && (forall k :: k in done ==> HasRow(rows, k))
    && (forall k :: k in done + todo ==> |k.eid| < U32_LIMIT)
    && (forall d, t :: d in done && t in todo ==> KeyLess(d, t))
    && (forall i, j :: 0 <= i < j < |rows| ==> KeyLess(rows[i].key, rows[j].key))
  }

  ghost predicate HasRow(rows: seq<Row>, k: Key) {
    exists i :: 0 <= i < |rows| && rows[i].key == k
  }

  lemma ScanStep(rows: seq<Row>, done: set<Key>, todo: set<Key>, live: Kv, k: Key)
    requires Scanned(rows, done, todo, live) && IsLeast(todo, k)
    ensures Scanned(rows + [Row(k, At(live, k))], done + {k}, todo - {k}, live)
  {
    var rows' := rows + [Row(k, At(live, k))];
    forall x | x in done + {k} ensures HasRow(rows', x) {
      if x == k {
        assert rows'[|rows|].key == k;
      } else {
        assert HasRow(rows, x);
        var i :| 0 <= i < |rows| && rows[i].key == x;
        assert rows'[i].key == x;
      }
    }
  }

  class Mutator {
    const arity: Arity
    var live: Kv
    /** Tombstones that raw scans still yield. */
    var dead: set<Key>
    /** The live map after every single write. */
    ghost var trail: seq<Kv>

    ghost predicate Valid()
      reads this
    {
      WellTyped(live, arity) && (forall k :: k in dead ==> Storable(k, arity) && k !in live)
    }

    constructor (arity: Arity)
      ensures Valid() && live == map[] && this.arity == arity && trail == []
    {
      this.arity, live, dead, trail := arity, map[], {}, [];
    }

    method Get(key: Key) returns (r: Option<Stored>)
      ensures r == At(live, key)
    {
      r := At(live, key);
    }

    method Scan(start: Option<ByteString>, end: Option<ByteString>) returns (rows: seq<Row>)
      requires Valid()
      ensures IsScan(rows, live, start, end)
      ensures forall i :: 0 <= i < |rows| ==> Storable(rows[i].key, arity) && (rows[i].key in live || rows[i].key in dead)
      ensures forall k :: k in dead && KeyInRange(k, start, end) ==> HasRow(rows, k)
    {
      var range := set k | k in live.Keys + dead && KeyInRange(k, start, end);
      rows := RowsInOrder(range);
      forall k | k in live.Keys + dead && KeyInRange(k, start, end) ensures HasRow(rows, k) {
        assert k in range;
      }
    }

    method RowsInOrder(range: set<Key>) returns (rows: seq<Row>)
      requires forall k :: k in range ==> Storable(k, arity)
      ensures Scanned(rows, range, {}, live)
    {
      var todo, done := range, {};
      rows := [];
      while todo != {}
        invariant done + todo == range && Scanned(rows, done, todo, live)
        decreases |todo|
      {
        HasLeast(todo, arity);
        var k :| IsLeast(todo, k);
        ScanStep(rows, done, todo, live, k);
        rows := rows + [Row(k, At(live, k))];
        todo, done := todo - {k}, done + {k};
      }
      assert done == range;
    }

    method Put(key: Key, stored: Stored)
      requires Valid() && Storable(key, arity) && (key.Field? <==> stored.Val?)
      modifies this
      ensures Valid() && live == old(live)[key := stored] && trail == old(trail) + [live]
    {
      live := live[key := stored];
      dead := dead - {key};
      trail := trail + [live];
      DropSomeTombstones();
    }

    method Delete(key: Key)
      requires Valid() && Storable(key, arity)
      modifies this
      ensures Valid() && live == old(live) - {key} && trail == old(trail) + [live]
    {
      live := live - {key};
      dead := dead + {key};
      trail := trail + [live];
      DropSomeTombstones();
    }

    /** A write may start a compaction, which forgets tombstones. */
    method DropSomeTombstones()
      requires Valid()
      modifies `dead
      ensures Valid()
    {
      while dead != {}
        invariant Valid()
        decreases |dead|
      {
        if * {
          break;
        }
        var k :| k in dead;
        dead := dead - {k};
      }
    }
  }
}
