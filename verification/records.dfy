/** Sorted record lists and the maps they denote. A record list is what one
    memtable, one table file or one scan source holds. */
module Records {
  import opened Std
  import opened Bytes

  /** `None` is a tombstone (src/memtable.rs:5). */
  type Entry = Option<ByteString>

  datatype Record = Record(key: ByteString, entry: Entry)

  type EntryMap = map<ByteString, Entry>

  predicate Sorted(s: seq<Record>) {
    forall i, j :: 0 <= i < j < |s| ==> Less(s[i].key, s[j].key)
  }

  /** The entries a record list denotes. */
  function AsMap(s: seq<Record>): EntryMap {
    if s == [] then map[] else AsMap(s[1..])[s[0].key := s[0].entry]
  }

  lemma {:induction false} AsMapKeys(s: seq<Record>, k: ByteString)
    ensures k in AsMap(s) <==> exists i :: 0 <= i < |s| && s[i].key == k
  {
    if s != [] {
      AsMapKeys(s[1..], k);
      if k in AsMap(s[1..]) {
        var i :| 0 <= i < |s[1..]| && s[1..][i].key == k;
        assert s[i + 1].key == k;
      }
      if exists i :: 0 <= i < |s| && s[i].key == k {
        var i :| 0 <= i < |s| && s[i].key == k;
        assert i == 0 || s[1..][i - 1].key == k;
      }
    }
  }

  lemma {:induction false} AsMapAt(s: seq<Record>, i: nat)
    requires Sorted(s) && i < |s|
    ensures s[i].key in AsMap(s) && AsMap(s)[s[i].key] == s[i].entry
  {
    if i > 0 {
      assert s[1..][i - 1] == s[i];
      AsMapAt(s[1..], i - 1);
      LessIrreflexive(s[i].key);
    }
  }

  lemma {:induction false} AsMapTail(s: seq<Record>)
    requires Sorted(s) && s != []
    ensures AsMap(s[1..]) == AsMap(s) - {s[0].key}
    ensures forall k :: k in AsMap(s[1..]) ==> Less(s[0].key, k)
  {
    forall k | k in AsMap(s[1..]) ensures Less(s[0].key, k) {
      AsMapKeys(s[1..], k);
      var i :| 0 <= i < |s[1..]| && s[1..][i].key == k;
      assert s[i + 1].key == k;
    }
    LessIrreflexive(s[0].key);
    assert s[0].key !in AsMap(s[1..]);
  }

  lemma {:induction false} AsMapSnoc(s: seq<Record>, r: Record)
    requires forall i :: 0 <= i < |s| ==> s[i].key != r.key
    ensures AsMap(s + [r]) == AsMap(s)[r.key := r.entry]
  {
    if s == [] {
      assert s + [r] == [r] && [r][1..] == [];
    } else {
      assert (s + [r])[1..] == s[1..] + [r];
      AsMapSnoc(s[1..], r);
    }
  }

  lemma {:induction false} AsMapConcat(s: seq<Record>, t: seq<Record>)
    ensures AsMap(s + t) == AsMap(t) + AsMap(s)
  {
    if s == [] {
      assert s + t == t;
    } else {
      assert (s + t)[1..] == s[1..] + t;
      AsMapConcat(s[1..], t);
    }
  }

  /** A sorted list is determined by the map it denotes. */
  lemma {:induction false} SortedListUnique(s: seq<Record>, t: seq<Record>)
    requires Sorted(s) && Sorted(t) && AsMap(s) == AsMap(t)
    ensures s == t
  {
    if s == [] || t == [] {
      assert |AsMap(s)| == 0 <==> s == [] by { if s != [] { AsMapAt(s, 0); } }
      assert |AsMap(t)| == 0 <==> t == [] by { if t != [] { AsMapAt(t, 0); } }
    } else {
      AsMapAt(s, 0);
      AsMapAt(t, 0);
      AsMapTail(s);
      AsMapTail(t);
      assert s[0].key == t[0].key by {
        if s[0].key != t[0].key {
          LessTransitive(s[0].key, t[0].key, s[0].key);
          LessIrreflexive(s[0].key);
        }
      }
      SortedListUnique(s[1..], t[1..]);
      assert s == [s[0]] + s[1..];
    }
  }

  /** The records of a list whose keys lie in [start, end). */
  function RangeOf(s: seq<Record>, start: Option<ByteString>, end: Option<ByteString>): seq<Record> {
    if s == [] then []
    else (if InRange(s[0].key, start, end) then [s[0]] else []) + RangeOf(s[1..], start, end)
  }

  function Restrict(m: EntryMap, start: Option<ByteString>, end: Option<ByteString>): EntryMap {
    map k | k in m && InRange(k, start, end) :: m[k]
  }

  lemma SortedCons(r: Record, s: seq<Record>)
    requires Sorted(s) && forall x :: x in s ==> Less(r.key, x.key)
    ensures Sorted([r] + s)
  {
  }

  lemma SortedHead(s: seq<Record>)
    requires Sorted(s) && s != []
    ensures forall x :: x in s[1..] ==> Less(s[0].key, x.key)
  {
  }

  lemma AsMapCons(r: Record, s: seq<Record>)
    ensures AsMap([r] + s) == AsMap(s)[r.key := r.entry]
  {
    assert ([r] + s)[1..] == s;
  }

  lemma RestrictUpdate(m: EntryMap, r: Record, start: Option<ByteString>, end: Option<ByteString>)
    ensures Restrict(m[r.key := r.entry], start, end) ==
            if InRange(r.key, start, end) then Restrict(m, start, end)[r.key := r.entry]
            else Restrict(m, start, end)
  {
  }

  lemma {:induction false} RangeOfIsRestriction(s: seq<Record>, start: Option<ByteString>, end: Option<ByteString>)
    ensures AsMap(RangeOf(s, start, end)) == Restrict(AsMap(s), start, end)
  {
    if s != [] {
      RangeOfIsRestriction(s[1..], start, end);
      var r := RangeOf(s[1..], start, end);
      AsMapCons(s[0], r);
      assert [] + r == r;
      RestrictUpdate(AsMap(s[1..]), s[0], start, end);
    }
  }

  lemma {:induction false} RangeOfSorted(s: seq<Record>, start: Option<ByteString>, end: Option<ByteString>)
    requires Sorted(s)
    ensures Sorted(RangeOf(s, start, end))
    ensures forall r :: r in RangeOf(s, start, end) ==> r in s
  {
    if s != [] {
      RangeOfSorted(s[1..], start, end);
      var r := RangeOf(s[1..], start, end);
      assert [] + r == r;
      SortedHead(s);
      SortedCons(s[0], r);
    }
  }

  /** What a reader sees: tombstones and absent keys alike have no value. */
  function Live(m: EntryMap): map<ByteString, ByteString> {
    map k | k in m && m[k].Some? :: m[k].value
  }

  /** The records that carry a value (`filter(|(_, v)| v.is_some())`). */
  function DropTombstones(s: seq<Record>): seq<Record> {
    if s == [] then []
    else (if s[0].entry.Some? then [s[0]] else []) + DropTombstones(s[1..])
  }

  /** The entries that carry a value. */
  function Values(m: EntryMap): EntryMap {
    map k | k in m && m[k].Some? :: m[k]
  }

  lemma ValuesUpdate(m: EntryMap, r: Record)
    ensures Values(m[r.key := r.entry]) ==
            if r.entry.Some? then Values(m)[r.key := r.entry] else Values(m) - {r.key}
    ensures Live(Values(m)) == Live(m)
  {
  }

  lemma {:induction false} DropTombstonesIsValues(s: seq<Record>)
    requires Sorted(s)
    ensures AsMap(DropTombstones(s)) == Values(AsMap(s))
    ensures forall i :: 0 <= i < |DropTombstones(s)| ==> DropTombstones(s)[i].entry.Some?
  {
    if s != [] {
      DropTombstonesIsValues(s[1..]);
      AsMapTail(s);
      var d := DropTombstones(s[1..]);
      AsMapCons(s[0], d);
      assert [] + d == d;
      ValuesUpdate(AsMap(s[1..]), s[0]);
      LessIrreflexive(s[0].key);
      assert s[0].key !in Values(AsMap(s[1..]));
    }
  }

  lemma {:induction false} DropTombstonesSorted(s: seq<Record>)
    requires Sorted(s)
    ensures Sorted(DropTombstones(s))
    ensures forall r :: r in DropTombstones(s) ==> r in s
  {
    if s != [] {
      DropTombstonesSorted(s[1..]);
      var d := DropTombstones(s[1..]);
      assert [] + d == d;
      SortedHead(s);
      SortedCons(s[0], d);
    }
  }

  /** The union of several sources, newest first: the first source that has a key
      decides it, tombstones included. */
  function Overlay(sources: seq<EntryMap>): EntryMap {
    if sources == [] then map[] else Overlay(sources[1..]) + sources[0]
  }

  lemma {:induction false} OverlayFirstWins(sources: seq<EntryMap>, w: nat, k: ByteString)
    requires w < |sources| && k in sources[w]
    requires forall i :: 0 <= i < w ==> k !in sources[i]
    ensures k in Overlay(sources) && Overlay(sources)[k] == sources[w][k]
  {
    if w > 0 {
      OverlayFirstWins(sources[1..], w - 1, k);
    }
  }

  lemma {:induction false} OverlayKeys(sources: seq<EntryMap>, k: ByteString)
    ensures k in Overlay(sources) <==> exists i :: 0 <= i < |sources| && k in sources[i]
  {
    if sources != [] {
      OverlayKeys(sources[1..], k);
      if k in Overlay(sources[1..]) {
        var i :| 0 <= i < |sources[1..]| && k in sources[1..][i];
        assert k in sources[i + 1];
      }
      if exists i :: 0 <= i < |sources| && k in sources[i] {
        var i :| 0 <= i < |sources| && k in sources[i];
        assert i == 0 || k in sources[1..][i - 1];
      }
    }
  }

  lemma {:induction false} OverlayMinus(before: seq<EntryMap>, after: seq<EntryMap>, k: ByteString)
    requires |before| == |after|
    requires forall i :: 0 <= i < |before| ==> after[i] == before[i] - {k}
    ensures Overlay(after) == Overlay(before) - {k}
  {
    if before != [] {
      OverlayMinus(before[1..], after[1..], k);
    }
  }

  lemma {:induction false} OverlayRestrict(sources: seq<EntryMap>, parts: seq<EntryMap>,
                                           start: Option<ByteString>, end: Option<ByteString>)
    requires |sources| == |parts|
    requires forall i :: 0 <= i < |parts| ==> parts[i] == Restrict(sources[i], start, end)
    ensures Overlay(parts) == Restrict(Overlay(sources), start, end)
  {
    if sources != [] {
      OverlayRestrict(sources[1..], parts[1..], start, end);
    }
  }

  lemma {:induction false} OverlayConcat(a: seq<EntryMap>, b: seq<EntryMap>)
    ensures Overlay(a + b) == Overlay(b) + Overlay(a)
  {
    if a == [] {
      assert a + b == b;
    } else {
      assert (a + b)[1..] == a[1..] + b;
      OverlayConcat(a[1..], b);
    }
  }
}
