/** The k-way merge of src/iterator.rs: sorted sources, newest first, behind a heap
    of cursors. */
module Merge {
  import opened Std
  import opened Bytes
  import opened Records

  /** A source over a sorted vector (src/iterator.rs:22-54). */
  class VecSource {
    const items: seq<Record>
    var pos: nat

    constructor (items: seq<Record>)
      ensures this.items == items && pos == 0 && Rest() == items
    {
      this.items := items;
      pos := 0;
    }

    /** The records not yet consumed. */
    function Rest(): (r: seq<Record>)
      reads this
    {
      if pos <= |items| then items[pos..] else []
    }

    method Peek() returns (r: Option<Record>)
      ensures r == if Rest() == [] then None else Some(Rest()[0])
    {
      r := if pos < |items| then Some(items[pos]) else None;
    }

    method Advance()
      modifies this
      ensures Rest() == if old(Rest()) == [] then [] else old(Rest())[1..]
    {
      pos := pos + 1;
    }
  }

  /** Current key of one source; the source index encodes its age, 0 the newest. */
  datatype HeapEntry = HeapEntry(key: ByteString, idx: nat)

  /** `a` is popped before `b`: smaller key first, then the newer source. */
  predicate Precedes(a: HeapEntry, b: HeapEntry) {
    Less(a.key, b.key) || (a.key == b.key && a.idx < b.idx)
  }

  predicate IsTop(heap: set<HeapEntry>, top: HeapEntry) {
    top in heap && forall e :: e in heap && e != top ==> Precedes(top, e)
  }

  lemma TopUnique(heap: set<HeapEntry>, a: HeapEntry, b: HeapEntry)
    requires IsTop(heap, a) && IsTop(heap, b)
    ensures a == b
  {
    if a != b {
      LessIrreflexive(a.key);
      if Less(a.key, b.key) && Less(b.key, a.key) {
        LessTransitive(a.key, b.key, a.key);
      }
    }
  }

  lemma {:induction false} HeapHasTop(heap: set<HeapEntry>)
    requires heap != {}
    ensures exists top :: IsTop(heap, top)
  {
    var x :| x in heap;
    if heap == {x} {
      assert IsTop(heap, x);
    } else {
      HeapHasTop(heap - {x});
      var t :| IsTop(heap - {x}, t);
      LessTotal(x.key, t.key);
      if Precedes(x, t) {
        forall e | e in heap && e != x ensures Precedes(x, e) {
          assert e in heap - {x};
          if e != t && Less(x.key, t.key) && Less(t.key, e.key) {
            LessTransitive(x.key, t.key, e.key);
          }
        }
        assert IsTop(heap, x);
      } else {
        assert forall e :: e in heap && e != x ==> e in heap - {x};
        assert IsTop(heap, t);
      }
    }
  }

  // ---- what one step of the merge means, on the unconsumed parts of the sources ----

  ghost predicate AllSorted(rests: seq<seq<Record>>) {
    forall i :: 0 <= i < |rests| ==> Sorted(rests[i])
  }

  ghost function Maps(rests: seq<seq<Record>>): (r: seq<EntryMap>)
    ensures |r| == |rests| && forall i :: 0 <= i < |r| ==> r[i] == AsMap(rests[i])
  {
    seq(|rests|, i requires 0 <= i < |rests| => AsMap(rests[i]))
  }

  /** Exactly one cursor per unfinished source. */
  ghost function Cursors(rests: seq<seq<Record>>): set<HeapEntry> {
    set i | 0 <= i < |rests| && rests[i] != [] :: HeapEntry(rests[i][0].key, i)
  }

  ghost function CursorsExcept(rests: seq<seq<Record>>, x: nat): set<HeapEntry> {
    set i | 0 <= i < |rests| && i != x && rests[i] != [] :: HeapEntry(rests[i][0].key, i)
  }

  function CursorOf(rest: seq<Record>, idx: nat): set<HeapEntry> {
    if rest == [] then {} else {HeapEntry(rest[0].key, idx)}
  }

  lemma CursorsSnoc(rests: seq<seq<Record>>, i: nat)
    requires i < |rests|
    ensures Cursors(rests[..i + 1]) == Cursors(rests[..i]) + CursorOf(rests[i], i)
  {
  }

  lemma CursorsSplit(rests: seq<seq<Record>>, x: nat)
    requires x < |rests|
    ensures Cursors(rests) == CursorsExcept(rests, x) + CursorOf(rests[x], x)
    ensures CursorOf(rests[x], x) !! CursorsExcept(rests, x)
  {
  }

  lemma CursorsMove(before: seq<seq<Record>>, after: seq<seq<Record>>, x: nat, j: nat)
    requires |before| == |after| && x < |before| && j < |before| && j != x
    requires forall i :: 0 <= i < |before| && i != j ==> after[i] == before[i]
    ensures CursorsExcept(after, x) == CursorsExcept(before, x) - CursorOf(before[j], j) + CursorOf(after[j], j)
  {
  }

  function Drop(rest: seq<Record>, key: ByteString): seq<Record> {
    if rest != [] && rest[0].key == key then rest[1..] else rest
  }

  /** `rec` is a least head of all sources, and `w` is the first source whose head
      has that key. */
  ghost predicate Winner(rests: seq<seq<Record>>, rec: Record, w: nat) {
    && w < |rests| && rests[w] != [] && rests[w][0] == rec
    && (forall i :: 0 <= i < |rests| && rests[i] != [] ==> AtMost(rec.key, rests[i][0].key))
    && (forall i :: 0 <= i < w && rests[i] != [] ==> rests[i][0].key != rec.key)
  }

  /** The merge emits the winner; every source gives up its record of that key. */
  ghost predicate MergeStep(before: seq<seq<Record>>, rec: Record, after: seq<seq<Record>>) {
    && |after| == |before|
    && (exists w: nat :: Winner(before, rec, w))
    && (forall i :: 0 <= i < |before| ==> after[i] == Drop(before[i], rec.key))
  }

  lemma NoCursors(rests: seq<seq<Record>>)
    requires Cursors(rests) == {}
    ensures forall i :: 0 <= i < |rests| ==> rests[i] == []
  {
    forall i | 0 <= i < |rests| ensures rests[i] == [] {
      CursorsSplit(rests, i);
    }
  }

  /** The popped cursor stands at a least head, and at the newest one of that key. */
  lemma TopIsLeastHead(rests: seq<seq<Record>>, top: HeapEntry)
    requires IsTop(Cursors(rests), top)
    ensures top.idx < |rests| && rests[top.idx] != [] && rests[top.idx][0].key == top.key
    ensures forall i :: 0 <= i < |rests| && rests[i] != [] ==> AtMost(top.key, rests[i][0].key)
    ensures forall i :: 0 <= i < top.idx && rests[i] != [] ==> rests[i][0].key != top.key
  {
    LessIrreflexive(top.key);
    forall i | 0 <= i < |rests| && rests[i] != [] && i != top.idx
      ensures Precedes(top, HeapEntry(rests[i][0].key, i)) && AtMost(top.key, rests[i][0].key)
    {
      CursorsSplit(rests, i);
      if Less(rests[i][0].key, top.key) && Less(top.key, rests[i][0].key) {
        LessTransitive(top.key, rests[i][0].key, top.key);
      }
    }
  }

  /** While older sources are passed over: source `x` gave up its record, every other
      source did or still has it. */
  ghost predicate Skipping(before: seq<seq<Record>>, now: seq<seq<Record>>, key: ByteString, x: nat) {
    && AllSorted(before) && |now| == |before| && x < |before|
    && now[x] == Drop(before[x], key)
    && forall i :: 0 <= i < |before| ==> now[i] == before[i] || now[i] == Drop(before[i], key)
  }

  lemma SkipOne(before: seq<seq<Record>>, now: seq<seq<Record>>, key: ByteString, x: nat, j: nat)
    requires Skipping(before, now, key, x)
    requires j < |now| && j != x && now[j] != [] && now[j][0].key == key
    ensures Skipping(before, now[j := now[j][1..]], key, x)
    ensures Total(now[j := now[j][1..]]) < Total(now)
  {
    LessIrreflexive(key);
    TotalShrinks(now, now[j := now[j][1..]], j);
  }

  /** Once the top of the heap has another key, no source stands at `key` any more. */
  lemma SkippedAll(before: seq<seq<Record>>, now: seq<seq<Record>>, key: ByteString, x: nat)
    requires Skipping(before, now, key, x)
    requires forall i :: 0 <= i < |before| && before[i] != [] ==> AtMost(key, before[i][0].key)
    requires CursorsExcept(now, x) == {} || exists top :: IsTop(CursorsExcept(now, x), top) && top.key != key
    ensures forall i :: 0 <= i < |before| ==> now[i] == Drop(before[i], key)
    ensures AllSorted(now)
  {
    forall i | 0 <= i < |before| && i != x ensures now[i] == Drop(before[i], key) {
      if now[i] == before[i] && before[i] != [] && before[i][0].key == key {
        var c := HeapEntry(key, i);
        assert c in CursorsExcept(now, x);
        var top :| IsTop(CursorsExcept(now, x), top) && top.key != key;
        assert Precedes(top, c);
        assert before[top.idx] != [] && (now[top.idx] == before[top.idx] || now[top.idx] == Drop(before[top.idx], key));
        LessTransitive(top.key, key, top.key);
        LessIrreflexive(top.key);
      }
    }
  }

  lemma DropIsMinus(rest: seq<Record>, key: ByteString)
    requires Sorted(rest) && (rest != [] ==> AtMost(key, rest[0].key))
    ensures Sorted(Drop(rest, key)) && AsMap(Drop(rest, key)) == AsMap(rest) - {key}
    ensures key in AsMap(rest) <==> rest != [] && rest[0].key == key
    ensures forall k :: k in AsMap(rest) ==> AtMost(key, k)
  {
    LessIsStrictTotalOrder();
    if rest != [] {
      AsMapTail(rest);
      AsMapAt(rest, 0);
    }
  }

  /** One step removes exactly the least visible key and emits its visible entry. */
  lemma MergeStepIsOverlay(before: seq<seq<Record>>, rec: Record, after: seq<seq<Record>>)
    requires AllSorted(before) && MergeStep(before, rec, after)
    ensures AllSorted(after)
    ensures rec.key in Overlay(Maps(before)) && Overlay(Maps(before))[rec.key] == rec.entry
    ensures Overlay(Maps(after)) == Overlay(Maps(before)) - {rec.key}
    ensures forall k :: k in Overlay(Maps(after)) ==> Less(rec.key, k)
  {
    forall i | 0 <= i < |before|
      ensures Sorted(after[i]) && Maps(after)[i] == Maps(before)[i] - {rec.key}
      ensures rec.key in Maps(before)[i] <==> before[i] != [] && before[i][0].key == rec.key
    {
      DropIsMinus(before[i], rec.key);
    }
    OverlayMinus(Maps(before), Maps(after), rec.key);
    var w: nat :| Winner(before, rec, w);
    AsMapAt(before[w], 0);
    OverlayFirstWins(Maps(before), w, rec.key);
    forall k | k in Overlay(Maps(after)) ensures Less(rec.key, k) {
      OverlayKeys(Maps(before), k);
      var i :| 0 <= i < |before| && k in Maps(before)[i];
      DropIsMinus(before[i], rec.key);
      LessTotal(rec.key, k);
    }
  }

  ghost function Total(rests: seq<seq<Record>>): nat {
    if rests == [] then 0 else |rests[0]| + Total(rests[1..])
  }

  lemma {:induction false} TotalShrinks(before: seq<seq<Record>>, after: seq<seq<Record>>, w: nat)
    requires |before| == |after| && w < |before| && |after[w]| < |before[w]|
    requires forall i :: 0 <= i < |before| ==> |after[i]| <= |before[i]|
    ensures Total(after) < Total(before)
  {
    if w > 0 {
      TotalShrinks(before[1..], after[1..], w - 1);
    } else {
      TotalMonotone(before[1..], after[1..]);
    }
  }

  lemma {:induction false} TotalMonotone(before: seq<seq<Record>>, after: seq<seq<Record>>)
    requires |before| == |after|
    requires forall i :: 0 <= i < |before| ==> |after[i]| <= |before[i]|
    ensures Total(after) <= Total(before)
  {
    if before != [] {
      TotalMonotone(before[1..], after[1..]);
    }
  }

  lemma MergeStepIntro(before: seq<seq<Record>>, rec: Record, w: nat, after: seq<seq<Record>>)
    requires Winner(before, rec, w) && |after| == |before|
    requires forall i :: 0 <= i < |before| ==> after[i] == Drop(before[i], rec.key)
    ensures MergeStep(before, rec, after)
  {
  }

  lemma MergeStepShrinks(before: seq<seq<Record>>, rec: Record, after: seq<seq<Record>>)
    requires MergeStep(before, rec, after)
    ensures Total(after) < Total(before)
  {
    var w: nat :| Winner(before, rec, w);
    TotalShrinks(before, after, w);
  }

  lemma NothingLeft(rests: seq<seq<Record>>)
    requires forall i :: 0 <= i < |rests| ==> rests[i] == []
    ensures Overlay(Maps(rests)) == map[]
  {
    forall k ensures k !in Overlay(Maps(rests)) {
      OverlayKeys(Maps(rests), k);
    }
  }

  /** Lazy k-way merge (src/iterator.rs:91-157). The binary heap of the standard
      library is its set of entries; popping removes the one that precedes all others. */
  class MergeIter {
    const sources: seq<VecSource>
    var heap: set<HeapEntry>
    var primed: bool

    constructor (sources: seq<VecSource>)
      requires forall i, j :: 0 <= i < j < |sources| ==> sources[i] != sources[j]
      requires forall i :: 0 <= i < |sources| ==> Sorted(sources[i].Rest())
      ensures this.sources == sources && Valid() && !primed
    {
      this.sources := sources;
      heap := {};
      primed := false;
    }

    ghost function Rests(): (r: seq<seq<Record>>)
      reads sources
      ensures |r| == |sources| && forall i :: 0 <= i < |r| ==> r[i] == sources[i].Rest()
    {
      seq(|sources|, i requires 0 <= i < |sources| reads sources => sources[i].Rest())
    }

    ghost predicate Distinct() {
      forall i, j :: 0 <= i < j < |sources| ==> sources[i] != sources[j]
    }

    ghost predicate Valid()
      reads this, sources
    {
      && Distinct()
      && AllSorted(Rests())
      && heap == (if primed then Cursors(Rests()) else {})
    }

    method PopTop() returns (top: HeapEntry)
      requires heap != {}
      modifies `heap
      ensures IsTop(old(heap), top) && heap == old(heap) - {top}
    {
      HeapHasTop(heap);
      top :| IsTop(heap, top);
      heap := heap - {top};
    }

    method Prime()
      requires Valid() && !primed
      modifies this
      ensures Valid() && primed && Rests() == old(Rests())
    {
      var idx := 0;
      while idx < |sources|
        invariant 0 <= idx <= |sources| && !primed
        invariant heap == Cursors(Rests()[..idx])
      {
        CursorsSnoc(Rests(), idx);
        PushCursor(idx);
        idx := idx + 1;
      }
      assert Rests()[..idx] == Rests();
      primed := true;
    }

    method PeekTop() returns (top: HeapEntry)
      requires heap != {}
      ensures IsTop(heap, top)
    {
      HeapHasTop(heap);
      top :| IsTop(heap, top);
    }

    method AdvanceSource(i: nat)
      requires Distinct() && i < |sources|
      modifies sources[i]
      ensures Rests() == old(Rests())[i := if old(Rests())[i] == [] then [] else old(Rests())[i][1..]]
    {
      sources[i].Advance();
    }

    method PushCursor(i: nat)
      requires i < |sources|
      modifies `heap
      ensures heap == old(heap) + CursorOf(Rests()[i], i)
    {
      var next := sources[i].Peek();
      if next.Some? {
        heap := heap + {HeapEntry(next.value.key, i)};
      }
    }

    /** Pops the top cursor, advances its source and pushes the source's next cursor. */
    method RotateTop(top: HeapEntry, idx: nat, ghost before: seq<seq<Record>>)
      requires Distinct() && Skipping(before, Rests(), top.key, idx)
      requires heap == CursorsExcept(Rests(), idx) && IsTop(heap, top)
      modifies `heap, sources
      ensures Skipping(before, Rests(), top.key, idx) && heap == CursorsExcept(Rests(), idx)
      ensures Total(Rests()) < Total(old(Rests()))
    {
      var e := PopTop();
      TopUnique(CursorsExcept(Rests(), idx), top, e);
      ghost var now := Rests();
      AdvanceSource(e.idx);
      PushCursor(e.idx);
      SkipOne(before, now, top.key, idx, e.idx);
      CursorsMove(now, Rests(), idx, e.idx);
    }

    /** Passes over every older source that stands at `key`. */
    method SkipOlder(key: ByteString, idx: nat, ghost before: seq<seq<Record>>)
      requires Distinct() && Skipping(before, Rests(), key, idx)
      requires forall i :: 0 <= i < |before| && before[i] != [] ==> AtMost(key, before[i][0].key)
      requires heap == CursorsExcept(Rests(), idx)
      modifies `heap, sources
      ensures |Rests()| == |before| && forall i :: 0 <= i < |before| ==> Rests()[i] == Drop(before[i], key)
      ensures AllSorted(Rests()) && heap == CursorsExcept(Rests(), idx)
    {
      while heap != {}
        invariant Skipping(before, Rests(), key, idx)
        invariant heap == CursorsExcept(Rests(), idx)
        decreases Total(Rests())
      {
        var top := PeekTop();
        if top.key != key {
          break;
        }
        RotateTop(top, idx, before);
      }
      SkippedAll(before, Rests(), key, idx);
    }

    /** Pops the winning cursor and consumes its record. */
    method TakeTop() returns (item: Record, idx: nat)
      requires Valid() && primed && heap != {}
      modifies `heap, sources
      ensures idx < |sources| && Skipping(old(Rests()), Rests(), item.key, idx)
      ensures Winner(old(Rests()), item, idx)
      ensures heap == CursorsExcept(Rests(), idx)
    {
      ghost var before := Rests();
      var top := PopTop();
      idx := top.idx;
      TopIsLeastHead(before, top);
      var head := sources[idx].Peek();
      item := head.value;
      AdvanceSource(idx);
      CursorsSplit(before, idx);
    }

    /** Next deduplicated record (src/iterator.rs:118-157). */
    method Next() returns (r: Option<Record>)
      requires Valid()
      modifies this, sources
      ensures Valid() && primed
      ensures r.None? ==> Rests() == old(Rests()) && forall i :: 0 <= i < |Rests()| ==> Rests()[i] == []
      ensures r.Some? ==> MergeStep(old(Rests()), r.value, Rests())
    {
      if !primed {
        Prime();
      }
      if heap == {} {
        NoCursors(Rests());
        return None;
      }
      ghost var before := Rests();
      var item, idx := TakeTop();
      SkipOlder(item.key, idx, before);
      ghost var after := Rests();
      PushCursor(idx);
      CursorsSplit(after, idx);
      MergeStepIntro(before, item, idx, after);
      return Some(item);
    }
  }

  /** What has been emitted is sorted and lies below everything still to come. */
  ghost predicate Emitted(out: seq<Record>, rest: EntryMap) {
    Sorted(out) && forall r, k :: r in out && k in rest ==> Less(r.key, k)
  }

  lemma EmitNext(out: seq<Record>, rec: Record, before: EntryMap, after: EntryMap)
    requires Emitted(out, before) && rec.key in before && before[rec.key] == rec.entry
    requires after == before - {rec.key} && forall k :: k in after ==> Less(rec.key, k)
    ensures Emitted(out + [rec], after)
    ensures before + AsMap(out) == after + AsMap(out + [rec])
  {
    LessIrreflexive(rec.key);
    AsMapSnoc(out, rec);
    AsMapKeys(out, rec.key);
    forall r, k | r in out + [rec] && k in after ensures Less(r.key, k) {
      assert k in before;
    }
  }

  method SourcesFor(lists: seq<seq<Record>>) returns (sources: seq<VecSource>)
    ensures |sources| == |lists| && fresh(sources)
    ensures forall i, j :: 0 <= i < j < |sources| ==> sources[i] != sources[j]
    ensures forall i :: 0 <= i < |sources| ==> sources[i].Rest() == lists[i]
  {
    sources := [];
    while |sources| < |lists|
      invariant |sources| <= |lists| && fresh(sources)
      invariant forall i, j :: 0 <= i < j < |sources| ==> sources[i] != sources[j]
      invariant forall i :: 0 <= i < |sources| ==> sources[i].Rest() == lists[i]
    {
      var s := new VecSource(lists[|sources|]);
      sources := sources + [s];
    }
  }

  /** Materialized merge used by compaction (src/iterator.rs:190-203). */
  method MergeVecs(lists: seq<seq<Record>>) returns (out: seq<Record>)
    requires AllSorted(lists)
    ensures Sorted(out) && AsMap(out) == Overlay(Maps(lists))
  {
    var sources := SourcesFor(lists);
    var merge := new MergeIter(sources);
    assert merge.Rests() == lists;
    out := [];
    ghost var whole := Overlay(Maps(lists));
    while true
      invariant merge.Valid() && fresh(merge) && fresh(merge.sources)
      invariant Emitted(out, Overlay(Maps(merge.Rests())))
      invariant whole == Overlay(Maps(merge.Rests())) + AsMap(out)
      decreases Total(merge.Rests())
    {
      ghost var before := merge.Rests();
      var x := merge.Next();
      if x.None? {
        NothingLeft(merge.Rests());
        return;
      }
      MergeStepIsOverlay(before, x.value, merge.Rests());
      MergeStepShrinks(before, x.value, merge.Rests());
      EmitNext(out, x.value, Overlay(Maps(before)), Overlay(Maps(merge.Rests())));
      out := out + [x.value];
    }
  }
}
