/** The memtable of src/memtable.rs: an ordered map with a byte count. */
module Memtable {
  import opened Std
  import opened Bytes
  import opened Records

  /** `BTreeMap::insert` on the ordered entries. */
  function Upsert(s: seq<Record>, key: ByteString, entry: Entry): seq<Record> {
    if s == [] || Less(key, s[0].key) then [Record(key, entry)] + s
    else if s[0].key == key then [Record(key, entry)] + s[1..]
    else [s[0]] + Upsert(s[1..], key, entry)
  }

  lemma {:induction false} UpsertSorted(s: seq<Record>, key: ByteString, entry: Entry)
    requires Sorted(s)
    ensures Sorted(Upsert(s, key, entry))
    ensures forall x :: x in Upsert(s, key, entry) ==> x in s || x.key == key
  {
    if s == [] {
    } else if Less(key, s[0].key) {
      forall x | x in s ensures Less(key, x.key) {
        var i :| 0 <= i < |s| && s[i] == x;
        if i > 0 {
          LessTransitive(key, s[0].key, x.key);
        }
      }
      SortedCons(Record(key, entry), s);
    } else {
      SortedHead(s);
      LessTotal(key, s[0].key);
      if s[0].key == key {
        SortedCons(Record(key, entry), s[1..]);
      } else {
        UpsertSorted(s[1..], key, entry);
        SortedCons(s[0], Upsert(s[1..], key, entry));
      }
    }
  }

  lemma {:induction false} UpsertIsUpdate(s: seq<Record>, key: ByteString, entry: Entry)
    requires Sorted(s)
    ensures AsMap(Upsert(s, key, entry)) == AsMap(s)[key := entry]
  {
    if s == [] || Less(key, s[0].key) {
      AsMapCons(Record(key, entry), s);
    } else if s[0].key == key {
      AsMapCons(Record(key, entry), s[1..]);
    } else {
      UpsertIsUpdate(s[1..], key, entry);
      AsMapCons(s[0], Upsert(s[1..], key, entry));
    }
  }

  function SizeOf(s: seq<Record>): nat {
    if s == [] then 0 else RecordSize(s[0]) + SizeOf(s[1..])
  }

  function RecordSize(r: Record): nat {
    |r.key| + if r.entry.Some? then |r.entry.value| else 0
  }

  /** Writing a key adds its size and takes back the size of the entry it replaces. */
  lemma {:induction false} UpsertSize(s: seq<Record>, key: ByteString, entry: Entry)
    requires Sorted(s)
    ensures SizeOf(Upsert(s, key, entry)) == SizeOf(s) + RecordSize(Record(key, entry))
      - (if key in AsMap(s) then RecordSize(Record(key, AsMap(s)[key])) else 0)
    ensures key in AsMap(s) ==> RecordSize(Record(key, AsMap(s)[key])) <= SizeOf(s)
  {
    if s == [] {
    } else if Less(key, s[0].key) {
      AsMapKeys(s, key);
      if key in AsMap(s) {
        var i :| 0 <= i < |s| && s[i].key == key;
        LessIrreflexive(key);
        LessTransitive(key, s[0].key, s[i].key);
      }
      assert ([Record(key, entry)] + s)[1..] == s;
    } else if s[0].key == key {
      assert ([Record(key, entry)] + s[1..])[1..] == s[1..];
    } else {
      UpsertSize(s[1..], key, entry);
      assert ([s[0]] + Upsert(s[1..], key, entry))[1..] == Upsert(s[1..], key, entry);
    }
  }

  /** The byte count after a write: keys and values count, tombstones only their key, and
      the entry that is replaced no longer counts. */
  function Grown(size: int, m: EntryMap, key: ByteString, entry: Entry): int {
    size + |key| + (if entry.Some? then |entry.value| else 0)
      - if key in m then |key| + (if m[key].Some? then |m[key].value| else 0) else 0
  }

  /** The byte count after a list of mutations. */
  function GrownAll(size: int, m: EntryMap, muts: seq<Record>): int {
    if muts == [] then size
    else
      var init, last := muts[..|muts| - 1], muts[|muts| - 1];
      Grown(GrownAll(size, m, init), Applied(m, init), last.key, last.entry)
  }

  lemma GrownSnoc(size: int, m: EntryMap, muts: seq<Record>, r: Record)
    ensures GrownAll(size, m, muts + [r]) == Grown(GrownAll(size, m, muts), Applied(m, muts), r.key, r.entry)
  {
    assert (muts + [r])[..|muts|] == muts;
  }

  /** The newest values after a list of mutations, later ones winning. */
  function Applied(m: EntryMap, muts: seq<Record>): EntryMap {
    if muts == [] then m
    else Applied(m, muts[..|muts| - 1])[muts[|muts| - 1].key := muts[|muts| - 1].entry]
  }

  lemma AppliedSnoc(m: EntryMap, muts: seq<Record>, r: Record)
    ensures Applied(m, muts + [r]) == Applied(m, muts)[r.key := r.entry]
  {
    assert (muts + [r])[..|muts|] == muts;
  }

  lemma {:induction false} AppliedConcat(m: EntryMap, a: seq<Record>, b: seq<Record>)
    ensures Applied(m, a + b) == Applied(Applied(m, a), b)
  {
    if b == [] {
      assert a + b == a;
    } else {
      assert (a + b)[..|a + b| - 1] == a + b[..|b| - 1];
      AppliedConcat(m, a, b[..|b| - 1]);
    }
  }

  /** Replaying mutations on top of a base only overlays what they wrote. */
  lemma {:induction false} AppliedOverlays(m: EntryMap, muts: seq<Record>)
    ensures Applied(m, muts) == m + Applied(map[], muts)
  {
    if muts != [] {
      AppliedOverlays(m, muts[..|muts| - 1]);
    }
  }

  class MemTable {
    var entries: seq<Record>
    var sizeBytes: nat

    ghost predicate Valid()
      reads this
    {
      Sorted(entries) && sizeBytes == SizeOf(entries)
    }

    constructor ()
      ensures Valid() && entries == []
    {
      entries, sizeBytes := [], 0;
    }

    method Put(key: ByteString, value: Entry)
      requires Valid()
      modifies this
      ensures Valid() && AsMap(entries) == AsMap(old(entries))[key := value]
      ensures sizeBytes == Grown(old(sizeBytes), AsMap(old(entries)), key, value)
    {
      UpsertSorted(entries, key, value);
      UpsertIsUpdate(entries, key, value);
      UpsertSize(entries, key, value);
      var found := Get(key);
      entries := Upsert(entries, key, value);
      if found.Some? {
        sizeBytes := sizeBytes - RecordSize(Record(key, found.value));
      }
      sizeBytes := sizeBytes + RecordSize(Record(key, value));
      assert entries != [];
    }

    method Get(key: ByteString) returns (r: Option<Entry>)
      ensures r == if key in AsMap(entries) then Some(AsMap(entries)[key]) else None
    {
      r := if key in AsMap(entries) then Some(AsMap(entries)[key]) else None;
    }

    /** `memtable_source` (src/iterator.rs:164-186): an empty interval is answered
        before the map is asked. */
    method Source(start: Option<ByteString>, end: Option<ByteString>) returns (r: seq<Record>)
      requires Valid()
      ensures r == RangeOf(entries, start, end)
    {
      if start.Some? && end.Some? && AtMost(end.value, start.value) {
        EmptyInterval(entries, start.value, end.value);
        return [];
      }
      return RangeOf(entries, start, end);
    }
  }

  lemma {:induction false} EmptyInterval(s: seq<Record>, start: ByteString, end: ByteString)
    requires AtMost(end, start)
    ensures RangeOf(s, Some(start), Some(end)) == []
  {
    if s != [] {
      LessTotal(start, s[0].key);
      LessTotal(end, start);
      if Less(s[0].key, end) && Less(end, start) {
        LessTransitive(s[0].key, end, start);
      }
      EmptyInterval(s[1..], start, end);
    }
  }
}
