/** Aggregation over integer fields (src/query/executor.rs:487-590). */
module Aggregates {
  import opened Std
  import opened Bytes
  import opened OrderedValues
  import opened Ranking

  datatype Aggregate = Count | Sum(f: U32) | Min(f: U32) | Max(f: U32)

  const I128_LIMIT: int := 0x8000_0000_0000_0000_0000_0000_0000_0000
  const I64_LIMIT: int := 0x8000_0000_0000_0000

  /** `i128::saturating_add`. */
  function SaturatingAdd(a: int, b: int): int {
    if a + b >= I128_LIMIT then I128_LIMIT - 1
    else if a + b < -I128_LIMIT then -I128_LIMIT
    else a + b
  }

  /** The integers among the values of the field, in the order of the rows. */
  function IntsOf(rows: seq<Found>, f: U32): seq<I64> {
    if rows == [] then []
    else
      var r := rows[|rows| - 1];
      IntsOf(rows[..|rows| - 1], f) + if f in r.fs && r.fs[f].Int? then [r.fs[f].i] else []
  }

  function Total(ints: seq<I64>): int {
    if ints == [] then 0 else Total(ints[..|ints| - 1]) + ints[|ints| - 1]
  }

  predicate NoFloatIn(rows: seq<Found>, f: U32) {
    forall i :: 0 <= i < |rows| && f in rows[i].fs ==> !rows[i].fs[f].Float?
  }

  lemma {:induction false} IntsAreFew(rows: seq<Found>, f: U32)
    ensures |IntsOf(rows, f)| <= |rows|
  {
    if rows != [] {
      IntsAreFew(rows[..|rows| - 1], f);
    }
  }

  lemma {:induction false} TotalBound(ints: seq<I64>)
    ensures -0x8000_0000_0000_0000 * |ints| <= Total(ints) <= 0x8000_0000_0000_0000 * |ints|
  {
    if ints != [] {
      TotalBound(ints[..|ints| - 1]);
    }
  }

  lemma TotalSnoc(ints: seq<I64>, i: I64)
    ensures Total(ints + [i]) == Total(ints) + i
  {
    assert (ints + [i])[..|ints|] == ints;
  }

  /** Fewer rows than a machine word can count never saturate the wide accumulator. */
  lemma NeverSaturates(ints: seq<I64>, i: I64)
    requires |ints| < U64_LIMIT - 1
    ensures SaturatingAdd(Total(ints), i) == Total(ints + [i])
  {
    TotalBound(ints + [i]);
    TotalSnoc(ints, i);
    assert |ints + [i]| <= 0xFFFF_FFFF_FFFF_FFFF;
  }

  predicate IsExtreme(x: I64, ints: seq<I64>, least: bool) {
    x in ints && forall i :: 0 <= i < |ints| ==> if least then x <= ints[i] else ints[i] <= x
  }

  /** The accumulators after the rows seen so far. */
  ghost predicate Accumulated(sum: int, count: nat, extreme: Option<I64>, ints: seq<I64>, least: bool) {
    && sum == Total(ints) && count == |ints| && (extreme.None? <==> ints == [])
    && (extreme.Some? ==> IsExtreme(extreme.value, ints, least))
  }

  function Better(extreme: Option<I64>, i: I64, least: bool): I64 {
    if extreme.None? then i
    else if least then if i < extreme.value then i else extreme.value
    else if i > extreme.value then i else extreme.value
  }

  lemma AccumulateMore(sum: int, count: nat, extreme: Option<I64>, ints: seq<I64>, least: bool, i: I64)
    requires Accumulated(sum, count, extreme, ints, least) && |ints| < U64_LIMIT - 1
    ensures Accumulated(SaturatingAdd(sum, i), count + 1, Some(Better(extreme, i, least)), ints + [i], least)
  {
    NeverSaturates(ints, i);
    var more, x := ints + [i], Better(extreme, i, least);
    assert more[|ints|] == i;
    if x != i {
      var j :| 0 <= j < |ints| && ints[j] == x;
      assert more[j] == x;
    }
  }

  lemma IntsSnoc(rows: seq<Found>, i: nat, f: U32)
    requires i < |rows|
    ensures IntsOf(rows[..i + 1], f) ==
      if f in rows[i].fs && rows[i].fs[f].Int? then IntsOf(rows[..i], f) + [rows[i].fs[f].i] else IntsOf(rows[..i], f)
  {
    assert rows[..i + 1][..i] == rows[..i];
  }

  lemma AccumulateRow(rows: seq<Found>, i: nat, f: U32, sum: int, count: nat, extreme: Option<I64>, least: bool)
    requires i < |rows| < U64_LIMIT && Accumulated(sum, count, extreme, IntsOf(rows[..i], f), least)
    ensures if f in rows[i].fs && rows[i].fs[f].Int? then
      var x := rows[i].fs[f].i;
      Accumulated(SaturatingAdd(sum, x), count + 1, Some(Better(extreme, x, least)), IntsOf(rows[..i + 1], f), least)
      else Accumulated(sum, count, extreme, IntsOf(rows[..i + 1], f), least)
  {
    IntsSnoc(rows, i, f);
    IntsAreFew(rows[..i], f);
    if f in rows[i].fs && rows[i].fs[f].Int? {
      AccumulateMore(sum, count, extreme, IntsOf(rows[..i], f), least, rows[i].fs[f].i);
    }
  }

  method Accumulate(rows: seq<Found>, f: U32, least: bool) returns (sum: int, count: nat, extreme: Option<I64>)
    requires |rows| < U64_LIMIT && NoFloatIn(rows, f)
    ensures Accumulated(sum, count, extreme, IntsOf(rows, f), least)
  {
    sum, count, extreme := 0, 0, None;
    var i := 0;
    while i < |rows|
      invariant 0 <= i <= |rows| && Accumulated(sum, count, extreme, IntsOf(rows[..i], f), least)
    {
      AccumulateRow(rows, i, f, sum, count, extreme, least);
      if f in rows[i].fs && rows[i].fs[f].Int? {
        var x := rows[i].fs[f].i;
        sum, count, extreme := SaturatingAdd(sum, x), count + 1, Some(Better(extreme, x, least));
      }
      i := i + 1;
    }
    assert rows[..i] == rows;
  }

  /** `aggregate_rows` where the field holds no float: the count of all rows, the exact sum
      clamped to 64 bits, the extreme value. Other values and absent fields are skipped;
      without an integer there is no result. */
  method AggregateRows(rows: seq<Found>, agg: Aggregate) returns (r: Option<Value>)
    requires |rows| < U64_LIMIT && (!agg.Count? ==> NoFloatIn(rows, agg.f))
    ensures agg.Count? && |rows| < I64_LIMIT ==> r == Some(Int(|rows|))
    ensures !agg.Count? ==> (r.None? <==> IntsOf(rows, agg.f) == [])
    ensures agg.Sum? && r.Some? && -0x8000_0000_0000_0000 <= Total(IntsOf(rows, agg.f)) < 0x8000_0000_0000_0000 ==>
      r.value == Int(Total(IntsOf(rows, agg.f)))
    ensures agg.Sum? && r.Some? && Total(IntsOf(rows, agg.f)) >= 0x8000_0000_0000_0000 ==>
      r.value == Int(0x7FFF_FFFF_FFFF_FFFF)
    ensures agg.Sum? && r.Some? && Total(IntsOf(rows, agg.f)) < -0x8000_0000_0000_0000 ==>
      r.value == Int(-0x8000_0000_0000_0000)
    ensures (agg.Min? || agg.Max?) && r.Some? ==> r.value.Int? && IsExtreme(r.value.i, IntsOf(rows, agg.f), agg.Min?)
  {
    if agg.Count? {
      return Some(Int(if |rows| < I64_LIMIT then |rows| else |rows| - 2 * I64_LIMIT));
    }
    var sum, count, extreme := Accumulate(rows, agg.f, agg.Min?);
    if count == 0 {
      return None;
    }
    if agg.Sum? {
      if sum > I64_LIMIT - 1 {
        return Some(Int(I64_LIMIT - 1));
      } else if sum < -I64_LIMIT {
        return Some(Int(-I64_LIMIT));
      }
      return Some(Int(sum));
    }
    return Some(Int(extreme.value));
  }

  /** The sum does not depend on the order of the rows. */
  lemma {:induction false} TotalPermutes(a: seq<I64>, b: seq<I64>)
    requires multiset(a) == multiset(b)
    ensures Total(a) == Total(b)
  {
    if a == [] {
      assert |multiset(b)| == 0;
    } else {
      var n := |a| - 1;
      assert a == a[..n] + [a[n]];
      assert a[n] in multiset(b);
      var j :| 0 <= j < |b| && b[j] == a[n];
      assert b == b[..j] + [b[j]] + b[j + 1..];
      var rest := b[..j] + b[j + 1..];
      assert multiset(a) == multiset(a[..n]) + multiset{a[n]};
      assert multiset(b) == multiset(rest) + multiset{b[j]};
      Cancel(multiset(a[..n]), multiset(rest), a[n]);
      TotalPermutes(a[..n], rest);
      TotalMoved(b[..j], b[j], b[j + 1..]);
    }
  }

  lemma Cancel(x: multiset<I64>, y: multiset<I64>, e: I64)
    requires x + multiset{e} == y + multiset{e}
    ensures x == y
  {
    assert x == x + multiset{e} - multiset{e} && y == y + multiset{e} - multiset{e};
  }

  lemma {:induction false} TotalMoved(a: seq<I64>, x: I64, b: seq<I64>)
    ensures Total(a + [x] + b) == Total(a + b) + x
  {
    if b == [] {
      assert a + [x] + b == a + [x] && a + b == a;
      TotalSnoc(a, x);
    } else {
      var n := |b| - 1;
      TotalMoved(a, x, b[..n]);
      assert a + [x] + b == (a + [x] + b[..n]) + [b[n]];
      assert a + b == (a + b[..n]) + [b[n]];
      TotalSnoc(a + [x] + b[..n], b[n]);
      TotalSnoc(a + b[..n], b[n]);
    }
  }
}
