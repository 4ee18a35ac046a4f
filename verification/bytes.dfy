/** Byte strings, their lexicographic order, and the prefix-successor arithmetic
    of src/keycodec.rs. Every key of the engine is such a string. */
module Bytes {
  import opened Std

  type Byte = x: int | 0 <= x < 256
  type ByteString = seq<Byte>

  const U32_LIMIT: int := 0x1_0000_0000
  const U63_LIMIT: int := 0x8000_0000_0000_0000
  const U64_LIMIT: int := 0x1_0000_0000_0000_0000

  type U32 = x: int | 0 <= x < 0x1_0000_0000
  type U64 = x: int | 0 <= x < 0x1_0000_0000_0000_0000

  /** Strict lexicographic order, the order of `Vec<u8>` and `[u8]`. */
  predicate Less(a: ByteString, b: ByteString) {
    b != [] && (a == [] || a[0] < b[0] || (a[0] == b[0] && Less(a[1..], b[1..])))
  }

  predicate AtMost(a: ByteString, b: ByteString) {
    !Less(b, a)
  }

  lemma {:induction false} LessIrreflexive(a: ByteString)
    ensures !Less(a, a)
  {
    if a != [] {
      LessIrreflexive(a[1..]);
    }
  }

  lemma {:induction false} LessTransitive(a: ByteString, b: ByteString, c: ByteString)
    requires Less(a, b) && Less(b, c)
    ensures Less(a, c)
  {
    if a != [] && a[0] == b[0] == c[0] {
      LessTransitive(a[1..], b[1..], c[1..]);
    }
  }

  lemma {:induction false} LessTotal(a: ByteString, b: ByteString)
    ensures Less(a, b) || a == b || Less(b, a)
  {
    if a != [] && b != [] && a[0] == b[0] {
      LessTotal(a[1..], b[1..]);
      if a[1..] == b[1..] {
        assert a == [a[0]] + a[1..] == b;
      }
    }
  }

  lemma LessTrichotomy(a: ByteString, b: ByteString)
    ensures Less(a, b) ==> !Less(b, a) && a != b
    ensures a == b ==> !Less(a, b) && !Less(b, a)
    ensures Less(a, b) || a == b || Less(b, a)
  {
    LessTotal(a, b);
    LessIrreflexive(a);
    if Less(a, b) && Less(b, a) {
      LessTransitive(a, b, a);
    }
  }

  /** The three order laws for all strings at once, for proofs over many keys. */
  lemma LessIsStrictTotalOrder()
    ensures forall a: ByteString :: !Less(a, a)
    ensures forall a: ByteString, b: ByteString :: Less(a, b) || a == b || Less(b, a)
    ensures forall a: ByteString, b: ByteString, c: ByteString :: Less(a, b) && Less(b, c) ==> Less(a, c)
  {
    forall a: ByteString ensures !Less(a, a) { LessIrreflexive(a); }
    forall a: ByteString, b: ByteString ensures Less(a, b) || a == b || Less(b, a) { LessTotal(a, b); }
    forall a: ByteString, b: ByteString, c: ByteString | Less(a, b) && Less(b, c) ensures Less(a, c) {
      LessTransitive(a, b, c);
    }
  }

  /** `a` is smaller than `b` at a position both of them have, so it stays smaller
      whatever bytes follow, and neither is a prefix of the other. */
  predicate Below(a: ByteString, b: ByteString) {
    a != [] && b != [] && (a[0] < b[0] || (a[0] == b[0] && Below(a[1..], b[1..])))
  }

  lemma {:induction false} BelowUnderSuffixes(a: ByteString, b: ByteString, s: ByteString, t: ByteString)
    requires Below(a, b)
    ensures Below(a + s, b + t) && Less(a + s, b + t)
  {
    assert (a + s)[0] == a[0] && (b + t)[0] == b[0];
    assert (a + s)[1..] == a[1..] + s && (b + t)[1..] == b[1..] + t;
    if a[0] == b[0] {
      BelowUnderSuffixes(a[1..], b[1..], s, t);
    }
  }

  lemma {:induction false} BelowIsNoPrefix(a: ByteString, b: ByteString)
    requires Below(a, b)
    ensures !(a <= b) && !(b <= a) && Less(a, b) && !Below(b, a)
  {
    if a[0] == b[0] {
      BelowIsNoPrefix(a[1..], b[1..]);
      PrefixOfTail(a, b);
      PrefixOfTail(b, a);
    }
  }

  lemma PrefixOfTail(a: ByteString, b: ByteString)
    requires a != [] && b != []
    ensures a <= b ==> a[1..] <= b[1..]
  {
  }

  /** A common head can be stripped off both sides of the order. */
  lemma {:induction false} LessBehindPrefix(p: ByteString, a: ByteString, b: ByteString)
    ensures Less(p + a, p + b) <==> Less(a, b)
    ensures Below(p + a, p + b) <==> Below(a, b)
  {
    if p == [] {
      assert p + a == a && p + b == b;
    } else {
      assert (p + a)[1..] == p[1..] + a && (p + b)[1..] == p[1..] + b;
      LessBehindPrefix(p[1..], a, b);
    }
  }

  /** Two strings of one length are equal or differ at a position both have. */
  lemma {:induction false} SameLengthBelow(a: ByteString, b: ByteString)
    requires |a| == |b|
    ensures a == b || Below(a, b) || Below(b, a)
  {
    if a != [] && a[0] == b[0] {
      SameLengthBelow(a[1..], b[1..]);
      if a[1..] == b[1..] {
        assert a == [a[0]] + a[1..] == b;
      }
    }
  }

  // ---- successor of a prefix ----

  /** The smallest string above every string that starts with `prefix`:
      drop trailing 0xFF bytes and count the last other byte up. */
  function Successor(prefix: ByteString): Option<ByteString> {
    if prefix == [] then None
    else if prefix[|prefix| - 1] != 0xFF then
      Some(prefix[..|prefix| - 1] + [prefix[|prefix| - 1] + 1])
    else Successor(prefix[..|prefix| - 1])
  }

  /** Key range [start, end) of a scan; a missing bound is unbounded. */
  predicate InRange(k: ByteString, start: Option<ByteString>, end: Option<ByteString>) {
    (start.Some? ==> AtMost(start.value, k)) && (end.Some? ==> Less(k, end.value))
  }

  /** Prefix ranges are exact: between `p` and its successor lie precisely the
      strings that start with `p`, and nothing else. */
  lemma {:induction false} PrefixRangeExact(p: ByteString, k: ByteString)
    ensures InRange(k, Some(p), Successor(p)) <==> p <= k
  {
    if p <= k {
      assert k == p + k[|p|..];
      assert p + [] == p;
      LessBehindPrefix(p, k[|p|..], []);
      PrefixBelowSuccessor(p, k);
      if Successor(p).Some? {
        BelowIsNoPrefix(k, Successor(p).value);
      }
    } else {
      LessTotal(p, k);
      if Less(p, k) {
        NotPrefixAboveSuccessor(p, k);
      }
    }
  }

  lemma {:induction false} PrefixBelowSuccessor(p: ByteString, k: ByteString)
    requires p <= k
    ensures Successor(p).Some? ==> Below(k, Successor(p).value)
  {
    if p != [] {
      var q := p[..|p| - 1];
      var last := p[|p| - 1];
      if last != 0xFF {
        var rest := k[|q|..];
        assert k == q + rest;
        assert rest[0] == last;
        LessBehindPrefix(q, rest, [last + 1]);
      } else {
        PrefixBelowSuccessor(q, k);
      }
    }
  }

  lemma {:induction false} NotPrefixAboveSuccessor(p: ByteString, k: ByteString)
    requires Less(p, k) && !(p <= k)
    ensures Successor(p).Some? && !Less(k, Successor(p).value)
  {
    var q := p[..|p| - 1];
    var last := p[|p| - 1];
    assert p == q + [last];
    if q <= k {
      assert k == q + k[|q|..];
      AboveSibling(q, last, k[|q|..]);
    } else {
      AbovePrefix(q, [last], k);
      NotPrefixAboveSuccessor(q, k);
      if last != 0xFF {
        SuccessorGrows(q, p, k);
      }
    }
  }

  /** With a common head, being above but no extension means a larger next byte. */
  lemma AboveSibling(q: ByteString, last: Byte, rest: ByteString)
    requires Less(q + [last], q + rest) && !(q + [last] <= q + rest)
    ensures last != 0xFF && !Less(q + rest, q + [last + 1])
  {
    LessBehindPrefix(q, [last], rest);
    assert rest != [];
    assert (q + rest)[..|q| + 1] == q + [rest[0]];
    assert rest[0] > last;
    LessBehindPrefix(q, rest, [last + 1]);
    assert [last + 1][1..] == [];
  }

  lemma AbovePrefix(q: ByteString, t: ByteString, k: ByteString)
    requires Less(q + t, k) && !(q <= k) && t != []
    ensures Less(q, k)
  {
    LessTrichotomy(q, k);
    LessTrichotomy(k, q + t);
    LessBehindPrefix(q, [], t);
    assert q + [] == q;
    if Less(k, q) {
      LessTransitive(k, q, q + t);
    }
  }

  /** Outside the strings that start with `q`, nothing separates `q` from its extensions. */
  lemma {:induction false} SuccessorGrows(q: ByteString, p: ByteString, k: ByteString)
    requires Successor(q).Some? && !Less(k, Successor(q).value)
    requires |p| == |q| + 1 && p[..|q|] == q && p[|q|] != 0xFF
    ensures !Less(k, Successor(p).value)
  {
    var s := Successor(p).value;
    assert q <= s;
    PrefixBelowSuccessor(q, s);
    BelowIsNoPrefix(s, Successor(q).value);
    if Less(k, s) {
      LessTransitive(k, s, Successor(q).value);
    }
  }

  /** `t` lies above every string that starts with `prefix`. */
  ghost predicate AboveAll(prefix: ByteString, t: ByteString) {
    forall k :: prefix <= k ==> Less(k, t)
  }

  /** The successor is the least such string; without a successor there is none. */
  lemma SuccessorIsLeast(prefix: ByteString)
    ensures Successor(prefix).Some? ==> AboveAll(prefix, Successor(prefix).value)
    ensures forall t :: AboveAll(prefix, t) ==> Successor(prefix).Some? && AtMost(Successor(prefix).value, t)
  {
    forall k | prefix <= k && Successor(prefix).Some? ensures Less(k, Successor(prefix).value) {
      PrefixRangeExact(prefix, k);
    }
    forall t | AboveAll(prefix, t) ensures Successor(prefix).Some? && AtMost(Successor(prefix).value, t) {
      AboveIsNoExtension(prefix, t);
      PrefixRangeExact(prefix, t);
    }
  }

  lemma AboveIsNoExtension(prefix: ByteString, t: ByteString)
    requires AboveAll(prefix, t)
    ensures !(prefix <= t) && AtMost(prefix, t)
  {
    assert Less(prefix, t);
    LessIrreflexive(t);
    if Less(t, prefix) {
      LessTransitive(t, prefix, t);
    }
  }

  /** The backward loop of `successor`, in place on a copy of the prefix. */
  method ComputeSuccessor(prefix: ByteString) returns (r: Option<ByteString>)
    ensures r == Successor(prefix)
    ensures r.Some? ==> AboveAll(prefix, r.value)
    ensures forall t :: AboveAll(prefix, t) ==> r.Some? && AtMost(r.value, t)
  {
    SuccessorIsLeast(prefix);
    var p := prefix;
    var i := |p|;
    assert prefix[..i] == prefix;
    while i > 0
      invariant 0 <= i <= |p| && p == prefix
      invariant Successor(prefix) == Successor(prefix[..i])
    {
      i := i - 1;
      assert prefix[..i + 1][..i] == prefix[..i];
      if p[i] != 0xFF {
        p := p[i := p[i] + 1];
        p := p[..i + 1];
        assert p == prefix[..i] + [prefix[i] + 1];
        return Some(p);
      }
    }
    return None;
  }

  // ---- fixed-width integers ----

  /** Big-endian bytes of `u`, most significant first. */
  function BigEndian(width: nat, u: nat): (r: ByteString)
    ensures |r| == width
  {
    if width == 0 then [] else BigEndian(width - 1, u / 256) + [u % 256]
  }

  function FromBigEndian(s: ByteString): (u: nat) {
    if s == [] then 0 else FromBigEndian(s[..|s| - 1]) * 256 + s[|s| - 1]
  }

  function Pow256(n: nat): (p: nat)
    ensures p >= 1
  {
    if n == 0 then 1 else 256 * Pow256(n - 1)
  }

  lemma Pow256Values()
    ensures Pow256(4) == U32_LIMIT && Pow256(8) == U64_LIMIT
  {
    assert Pow256(1) == 256;
    assert Pow256(2) == 0x1_0000;
    assert Pow256(3) == 0x100_0000;
    assert Pow256(5) == 0x100_0000_0000;
    assert Pow256(6) == 0x1_0000_0000_0000;
    assert Pow256(7) == 0x100_0000_0000_0000;
  }

  lemma {:induction false} BigEndianRoundTrip(width: nat, u: nat)
    requires u < Pow256(width)
    ensures FromBigEndian(BigEndian(width, u)) == u
  {
    if width > 0 {
      BigEndianRoundTrip(width - 1, u / 256);
      assert BigEndian(width, u)[..width - 1] == BigEndian(width - 1, u / 256);
    }
  }

  lemma {:induction false} FromBigEndianBound(s: ByteString)
    ensures FromBigEndian(s) < Pow256(|s|)
  {
    if s != [] {
      FromBigEndianBound(s[..|s| - 1]);
    }
  }

  /** Big-endian order is numeric order. */
  lemma {:induction false} BigEndianOrder(width: nat, u: nat, w: nat)
    requires u < w < Pow256(width)
    ensures Below(BigEndian(width, u), BigEndian(width, w))
  {
    var hu, hw := BigEndian(width - 1, u / 256), BigEndian(width - 1, w / 256);
    if u / 256 < w / 256 {
      BigEndianOrder(width - 1, u / 256, w / 256);
      BelowUnderSuffixes(hu, hw, [u % 256], [w % 256]);
    } else {
      assert u / 256 == w / 256;
      LessBehindPrefix(hu, [u % 256], [w % 256]);
    }
  }

  /** Little-endian bytes of `u`, least significant first. */
  function LittleEndian(width: nat, u: nat): (r: ByteString)
    ensures |r| == width
  {
    if width == 0 then [] else [u % 256] + LittleEndian(width - 1, u / 256)
  }

  function FromLittleEndian(s: ByteString): (u: nat) {
    if s == [] then 0 else s[0] + 256 * FromLittleEndian(s[1..])
  }

  lemma {:induction false} LittleEndianRoundTrip(width: nat, u: nat)
    requires u < Pow256(width)
    ensures FromLittleEndian(LittleEndian(width, u)) == u
  {
    if width > 0 {
      LittleEndianRoundTrip(width - 1, u / 256);
      assert LittleEndian(width, u)[1..] == LittleEndian(width - 1, u / 256);
    }
  }

  lemma {:induction false} FromLittleEndianBound(s: ByteString)
    ensures FromLittleEndian(s) < Pow256(|s|)
  {
    if s != [] {
      FromLittleEndianBound(s[1..]);
    }
  }

  function Le32(u: U32): (r: ByteString)
    ensures |r| == 4
  {
    LittleEndian(4, u)
  }

  function Le64(u: U64): (r: ByteString)
    ensures |r| == 8
  {
    LittleEndian(8, u)
  }

  lemma Le32RoundTrip(u: U32)
    ensures FromLittleEndian(Le32(u)) == u
  {
    Pow256Values();
    LittleEndianRoundTrip(4, u);
  }

  lemma Le64RoundTrip(u: U64)
    ensures FromLittleEndian(Le64(u)) == u
  {
    Pow256Values();
    LittleEndianRoundTrip(8, u);
  }

  lemma LittleEndianFour(u: U32)
    ensures Le32(u) == [u % 256, u / 256 % 256, u / 0x1_0000 % 256, u / 0x100_0000]
  {
    assert LittleEndian(1, u / 0x100_0000) == [u / 0x100_0000] + LittleEndian(0, 0);
    assert LittleEndian(2, u / 0x1_0000) == [u / 0x1_0000 % 256] + LittleEndian(1, u / 0x1_0000 / 256);
    assert LittleEndian(3, u / 256) == [u / 256 % 256] + LittleEndian(2, u / 256 / 256);
  }

  /** Small numbers as they stand in files. */
  lemma SmallNumber(u: Byte)
    ensures Le32(u) == [u, 0, 0, 0] && Le64(u) == [u, 0, 0, 0, 0, 0, 0, 0]
  {
    LittleEndianFour(u);
    LittleEndianZeros(4);
    LittleEndianZeros(7);
    assert LittleEndian(8, u) == [u] + LittleEndian(7, 0);
  }

  lemma {:induction false} LittleEndianZeros(width: nat)
    ensures LittleEndian(width, 0) == seq(width, i => 0)
  {
    if width > 0 {
      LittleEndianZeros(width - 1);
    }
  }
}
