/** Query rows and their order (src/query/executor.rs:416-453). */
module Ranking {
  import opened Std
  import opened Bytes
  import opened OrderedValues
  import opened Entities

  datatype Found = Found(eid: ByteString, fs: Fields)

  predicate DistinctRows(rows: seq<Found>) {
    forall i, j :: 0 <= i < j < |rows| ==> rows[i].eid != rows[j].eid
  }

  function FieldOf(r: Found, f: U32): Option<Value> {
    if f in r.fs then Some(r.fs[f]) else None
  }

  /** The comparison of the sort: a missing field is smallest, or largest when descending;
      ties are broken by entity id, always ascending. */
  function RowCmp(a: Found, b: Found, f: U32, asc: bool): Ordering {
    var ord := match (FieldOf(a, f), FieldOf(b, f))
      case (None, None) => Eq
      case (None, Some(_)) => if asc then Lt else Gt
      case (Some(_), None) => if asc then Gt else Lt
      case (Some(x), Some(y)) => if asc then ValueCmp(x, y) else Flip(ValueCmp(x, y));
    if ord != Eq then ord else CmpBytes(a.eid, b.eid)
  }

  predicate SortedBy(rows: seq<Found>, f: U32, asc: bool) {
    forall i, j :: 0 <= i < j < |rows| ==> RowCmp(rows[i], rows[j], f, asc) != Gt
  }

  lemma RowCmpFlips(a: Found, b: Found, f: U32, asc: bool)
    ensures RowCmp(b, a, f, asc) == Flip(RowCmp(a, b, f, asc))
  {
    LessTrichotomy(a.eid, b.eid);
    if f in a.fs && f in b.fs {
      CmpFlips(a.fs[f], b.fs[f]);
    }
  }

  /** Rows of different entities are never tied. */
  lemma RowCmpTies(a: Found, b: Found, f: U32, asc: bool)
    requires RowCmp(a, b, f, asc) == Eq
    ensures a.eid == b.eid
  {
    LessTrichotomy(a.eid, b.eid);
  }

  lemma BytesTransitive(a: ByteString, b: ByteString, c: ByteString)
    ensures CmpBytes(a, b) != Gt && CmpBytes(b, c) != Gt ==> CmpBytes(a, c) != Gt
  {
    LessTrichotomy(a, b);
    LessTrichotomy(b, c);
    LessTrichotomy(a, c);
    if Less(a, b) && Less(b, c) {
      LessTransitive(a, b, c);
    }
  }

  lemma RowCmpTransitive(a: Found, b: Found, c: Found, f: U32, asc: bool)
    requires RowCmp(a, b, f, asc) != Gt && RowCmp(b, c, f, asc) != Gt
    ensures RowCmp(a, c, f, asc) != Gt
  {
    BytesTransitive(a.eid, b.eid, c.eid);
    if f in a.fs && f in b.fs && f in c.fs {
      var x, y, z := a.fs[f], b.fs[f], c.fs[f];
      ValueCmpTransitiveIf(x, y, z);
      ValueCmpTransitiveIf(z, y, x);
      CmpFlips(x, y);
      CmpFlips(y, z);
      CmpFlips(x, z);
    }
  }

  /** The order asked for: by value, a missing field first when ascending and last when
      descending, and by entity id among equals, always ascending. */
  predicate Before(r: Found, s: Found, f: U32, asc: bool) {
    if f in r.fs && f in s.fs && ValueCmp(r.fs[f], s.fs[f]) != Eq then
      ValueCmp(r.fs[f], s.fs[f]) == if asc then Lt else Gt
    else if f in r.fs && f !in s.fs then !asc
    else if f !in r.fs && f in s.fs then asc
    else r.eid == s.eid || Less(r.eid, s.eid)
  }

  predicate InRowOrder(rows: seq<Found>, f: U32, asc: bool) {
    forall i, j :: 0 <= i < j < |rows| ==> Before(rows[i], rows[j], f, asc)
  }

  /** The comparison of the sort is that order. */
  lemma RowCmpMeans(a: Found, b: Found, f: U32, asc: bool)
    ensures RowCmp(a, b, f, asc) != Gt <==> Before(a, b, f, asc)
  {
    LessTrichotomy(a.eid, b.eid);
  }

  lemma SortedIsInOrder(rows: seq<Found>, f: U32, asc: bool)
    ensures SortedBy(rows, f, asc) <==> InRowOrder(rows, f, asc)
  {
    forall i, j | 0 <= i < j < |rows|
      ensures RowCmp(rows[i], rows[j], f, asc) != Gt <==> Before(rows[i], rows[j], f, asc)
    {
      RowCmpMeans(rows[i], rows[j], f, asc);
    }
  }

  /** Inserts a row behind those that are not larger. */
  function InsertRow(rows: seq<Found>, r: Found, f: U32, asc: bool): seq<Found> {
    if rows == [] then [r]
    else
      var n := |rows| - 1;
      if RowCmp(r, rows[n], f, asc) == Lt then InsertRow(rows[..n], r, f, asc) + [rows[n]] else rows + [r]
  }

  /** No row comes behind `last`. */
  predicate UpTo(rows: seq<Found>, last: Found, f: U32, asc: bool) {
    forall r :: r in rows ==> RowCmp(r, last, f, asc) != Gt
  }

  lemma {:induction false} InsertRowKeeps(rows: seq<Found>, r: Found, f: U32, asc: bool)
    ensures multiset(InsertRow(rows, r, f, asc)) == multiset(rows) + multiset{r}
  {
    if rows != [] {
      var n := |rows| - 1;
      assert rows == rows[..n] + [rows[n]];
      InsertRowKeeps(rows[..n], r, f, asc);
    }
  }

  lemma {:induction false} InsertRowSorts(rows: seq<Found>, r: Found, f: U32, asc: bool)
    requires SortedBy(rows, f, asc)
    ensures SortedBy(InsertRow(rows, r, f, asc), f, asc)
  {
    if rows != [] {
      var n := |rows| - 1;
      if RowCmp(r, rows[n], f, asc) == Lt {
        InsertRowSorts(rows[..n], r, f, asc);
        FrontUpTo(rows, r, f, asc);
        SortedSnoc(InsertRow(rows[..n], r, f, asc), rows[n], f, asc);
      } else {
        RowCmpFlips(r, rows[n], f, asc);
        AllUpTo(rows, r, f, asc);
        SortedSnoc(rows, r, f, asc);
      }
    }
  }

  lemma FrontUpTo(rows: seq<Found>, r: Found, f: U32, asc: bool)
    requires SortedBy(rows, f, asc) && rows != [] && RowCmp(r, rows[|rows| - 1], f, asc) == Lt
    ensures UpTo(InsertRow(rows[..|rows| - 1], r, f, asc), rows[|rows| - 1], f, asc)
  {
    var n := |rows| - 1;
    var front := InsertRow(rows[..n], r, f, asc);
    InsertRowKeeps(rows[..n], r, f, asc);
    forall x | x in front ensures RowCmp(x, rows[n], f, asc) != Gt {
      assert x in multiset(front);
      assert x in multiset(rows[..n]) || x == r;
    }
  }

  lemma AllUpTo(rows: seq<Found>, r: Found, f: U32, asc: bool)
    requires SortedBy(rows, f, asc) && rows != [] && RowCmp(rows[|rows| - 1], r, f, asc) != Gt
    ensures UpTo(rows, r, f, asc)
  {
    var n := |rows| - 1;
    forall x | x in rows ensures RowCmp(x, r, f, asc) != Gt {
      if x != rows[n] {
        RowCmpTransitive(x, rows[n], r, f, asc);
      }
    }
  }

  lemma SortedSnoc(rows: seq<Found>, last: Found, f: U32, asc: bool)
    requires SortedBy(rows, f, asc) && UpTo(rows, last, f, asc)
    ensures SortedBy(rows + [last], f, asc)
  {
  }

  /** `sort_rows`: the same rows, in order. */
  method SortRows(rows: seq<Found>, f: U32, asc: bool) returns (sorted: seq<Found>)
    ensures SortedBy(sorted, f, asc) && multiset(sorted) == multiset(rows)
    ensures InRowOrder(sorted, f, asc)
  {
    sorted := [];
    var i := 0;
    while i < |rows|
      invariant 0 <= i <= |rows| && SortedBy(sorted, f, asc) && multiset(sorted) == multiset(rows[..i])
    {
      assert rows[..i + 1] == rows[..i] + [rows[i]];
      InsertRowSorts(sorted, rows[i], f, asc);
      InsertRowKeeps(sorted, rows[i], f, asc);
      sorted := InsertRow(sorted, rows[i], f, asc);
      i := i + 1;
    }
    assert rows[..i] == rows;
    SortedIsInOrder(sorted, f, asc);
  }

  /** Two sorted arrangements of the same rows begin alike. */
  lemma SameFirst(a: seq<Found>, b: seq<Found>, f: U32, asc: bool)
    requires SortedBy(a, f, asc) && SortedBy(b, f, asc) && multiset(a) == multiset(b) && DistinctRows(a)
    requires a != [] && b != []
    ensures a[0] == b[0]
  {
    var x, y := a[0], b[0];
    FirstIsLeast(a, y, f, asc);
    FirstIsLeast(b, x, f, asc);
    RowCmpFlips(x, y, f, asc);
    RowCmpTies(x, y, f, asc);
    assert y in multiset(a);
    var j :| 0 <= j < |a| && a[j] == y;
  }

  lemma SameRest(a: seq<Found>, b: seq<Found>)
    requires multiset(a) == multiset(b) && a != [] && b != [] && a[0] == b[0]
    ensures multiset(a[1..]) == multiset(b[1..])
  {
    assert a == [a[0]] + a[1..] && b == [a[0]] + b[1..];
    assert multiset(a[1..]) == multiset(a) - multiset{a[0]};
    assert multiset(b[1..]) == multiset(b) - multiset{a[0]};
  }

  /** There is only one order: with distinct entities, sorting has a unique result. */
  lemma {:induction false} SortIsUnique(a: seq<Found>, b: seq<Found>, f: U32, asc: bool)
    requires SortedBy(a, f, asc) && SortedBy(b, f, asc) && multiset(a) == multiset(b) && DistinctRows(a)
    ensures a == b
  {
    SameLength(a, b);
    if a != [] {
      SameFirst(a, b, f, asc);
      SameRest(a, b);
      SortIsUnique(a[1..], b[1..], f, asc);
    }
  }

  lemma SameLength(a: seq<Found>, b: seq<Found>)
    requires multiset(a) == multiset(b)
    ensures |a| == |b|
  {
    assert |multiset(a)| == |a| && |multiset(b)| == |b|;
  }

  lemma FirstIsLeast(a: seq<Found>, r: Found, f: U32, asc: bool)
    requires a != [] && SortedBy(a, f, asc) && r in multiset(a)
    ensures RowCmp(a[0], r, f, asc) != Gt
  {
    assert r in a;
    if r == a[0] {
      RowCmpFlips(r, r, f, asc);
    }
  }

  lemma {:induction false} DistinctPermuted(a: seq<Found>, b: seq<Found>)
    requires multiset(a) == multiset(b) && DistinctRows(a)
    ensures DistinctRows(b)
  {
    SameLength(a, b);
    if !DistinctRows(b) {
      var i, j :| 0 <= i < j < |b| && b[i].eid == b[j].eid;
      assert b[i] in multiset(a) && b[j] in multiset(a);
      var k :| 0 <= k < |a| && a[k] == b[i];
      var l :| 0 <= l < |a| && a[l] == b[j];
      assert a[k] == a[l] && b[i] == b[j];
      TwiceIn(b, i, j);
      OnceIn(a, k);
      assert false;
    }
  }

  lemma TwiceIn(b: seq<Found>, i: nat, j: nat)
    requires i < j < |b| && b[i] == b[j]
    ensures multiset(b)[b[i]] >= 2
  {
    assert b == b[..j] + [b[j]] + b[j + 1..];
    assert b[..j][i] == b[i];
  }

  lemma OnceIn(a: seq<Found>, k: nat)
    requires k < |a| && DistinctRows(a)
    ensures multiset(a)[a[k]] == 1
  {
    assert a == a[..k] + [a[k]] + a[k + 1..];
    assert a[k] !in a[..k] && a[k] !in a[k + 1..];
  }
}
