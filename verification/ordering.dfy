/** Values and their order-preserving, self-delimiting encoding (src/ordering.rs): the
    byte order of two codes is the order of the values, whatever follows them. */
module OrderedValues {
  import opened Std
  import opened Bytes

  type I64 = x: int | -0x8000_0000_0000_0000 <= x < 0x8000_0000_0000_0000

  /** A string is its UTF-8 bytes, a float its 64 bits. */
  datatype Value =
    | Null
    | Bool(b: bool)
    | Int(i: I64)
    | Float(bits: U64)
    | String(s: ByteString)
    | Bytes(s: ByteString)

  datatype Ordering = Lt | Eq | Gt

  function CmpInt(a: int, b: int): Ordering {
    if a < b then Lt else if a == b then Eq else Gt
  }

  function CmpBytes(a: ByteString, b: ByteString): Ordering {
    if Less(a, b) then Lt else if a == b then Eq else Gt
  }

  function Flip(o: Ordering): Ordering {
    match o case Lt => Gt case Eq => Eq case Gt => Lt
  }

  // ---- floats as bit patterns ----

  const MAX_U64: U64 := 0xFFFF_FFFF_FFFF_FFFF
  const INF_BITS: U64 := 0x7FF0_0000_0000_0000
  const QUIET_NAN: U64 := 0x7FF8_0000_0000_0000

  predicate IsNaN(bits: U64) {
    (if bits < U63_LIMIT then bits else bits - U63_LIMIT) > INF_BITS
  }

  predicate IsZero(bits: U64) {
    bits == 0 || bits == U63_LIMIT
  }

  /** `x ^ (1 << 63)`. */
  function FlipTop(u: U64): U64 {
    if u < U63_LIMIT then u + U63_LIMIT else u - U63_LIMIT
  }

  /** Total order of floats as integers: NaN is the maximum, negative numbers have all
      bits inverted, the others the sign bit (src/ordering.rs:150-163). */
  function OrderedBits(bits: U64): U64 {
    if IsNaN(bits) then MAX_U64
    else if bits >= U63_LIMIT then MAX_U64 - bits
    else FlipTop(bits)
  }

  /** Sort key of a float in `value_cmp`. */
  function FloatKey(bits: U64): (int, int) {
    if IsNaN(bits) then (2, 0) else (0, OrderedBits(bits))
  }

  function CmpFloat(a: U64, b: U64): Ordering {
    var (x, y) := (FloatKey(a), FloatKey(b));
    if x.0 != y.0 then CmpInt(x.0, y.0) else CmpInt(x.1, y.1)
  }

  /** NaN takes the top code, which no number has, so codes order floats as `value_cmp` does. */
  lemma OrderedBitsOrder(a: U64, b: U64)
    ensures CmpFloat(a, b) == CmpInt(OrderedBits(a), OrderedBits(b))
    ensures OrderedBits(a) == MAX_U64 <==> IsNaN(a)
  {
  }

  // ---- floats as numbers ----

  const MANTISSA_LIMIT: int := 0x10_0000_0000_0000

  predicate Negative(bits: U64) {
    bits / U63_LIMIT == 1
  }

  /** Exponent and mantissa, without the sign. */
  function Magnitude(bits: U64): nat {
    bits % U63_LIMIT
  }

  function Exponent(bits: U64): nat {
    Magnitude(bits) / MANTISSA_LIMIT
  }

  function Mantissa(bits: U64): nat {
    Magnitude(bits) % MANTISSA_LIMIT
  }

  /** A NaN has all exponent bits set and a mantissa that is not zero (IEEE 754, section 3.4). */
  lemma NaNIs(bits: U64)
    ensures IsNaN(bits) <==> Exponent(bits) == 2047 && Mantissa(bits) != 0
  {
  }

  /** NaN is above all; negative numbers are below the others and ordered by falling magnitude. */
  predicate FloatLess(a: U64, b: U64) {
    !IsNaN(a) && (IsNaN(b)
      || (Negative(a) && !Negative(b))
      || (!Negative(a) && !Negative(b) && Magnitude(a) < Magnitude(b))
      || (Negative(a) && Negative(b) && Magnitude(b) < Magnitude(a)))
  }

  lemma FloatOrder(a: U64, b: U64)
    ensures CmpFloat(a, b) == Lt <==> FloatLess(a, b)
    ensures CmpFloat(a, b) == Gt <==> FloatLess(b, a)
    ensures CmpFloat(a, b) == Eq <==> a == b || (IsNaN(a) && IsNaN(b))
  {
  }

  function Pow2(n: nat): (p: nat)
    ensures p >= 1
  {
    if n == 0 then 1 else 2 * Pow2(n - 1)
  }

  /** The number behind a magnitude, in units of 2^-1074, the least positive number. */
  function MagnitudeValue(m: nat): nat {
    var e, f := m / MANTISSA_LIMIT, m % MANTISSA_LIMIT;
    if e == 0 then f else (MANTISSA_LIMIT + f) * Pow2(e - 1)
  }

  /** The number that the bits stand for, in the same units. */
  function FloatValue(bits: U64): int {
    var value: int := MagnitudeValue(Magnitude(bits));
    if Negative(bits) then -value else value
  }

  lemma MagnitudeStep(m: nat)
    ensures MagnitudeValue(m) < MagnitudeValue(m + 1)
  {
    var e, f := m / MANTISSA_LIMIT, m % MANTISSA_LIMIT;
    if f + 1 < MANTISSA_LIMIT {
      assert (m + 1) / MANTISSA_LIMIT == e && (m + 1) % MANTISSA_LIMIT == f + 1;
      if e > 0 {
        assert (MANTISSA_LIMIT + f + 1) * Pow2(e - 1) == (MANTISSA_LIMIT + f) * Pow2(e - 1) + Pow2(e - 1);
      }
    } else {
      assert (m + 1) / MANTISSA_LIMIT == e + 1 && (m + 1) % MANTISSA_LIMIT == 0;
      if e > 0 {
        assert MANTISSA_LIMIT * Pow2(e) == 2 * MANTISSA_LIMIT * Pow2(e - 1);
        assert (MANTISSA_LIMIT + f) * Pow2(e - 1) == 2 * MANTISSA_LIMIT * Pow2(e - 1) - Pow2(e - 1);
      }
    }
  }

  lemma {:induction false} MagnitudeGrows(m: nat, n: nat)
    requires m < n
    ensures MagnitudeValue(m) < MagnitudeValue(n)
  {
    MagnitudeStep(n - 1);
    if m < n - 1 {
      MagnitudeGrows(m, n - 1);
    }
  }

  /** The comparison orders numbers, infinities included, by value; only the two zeros are
      told apart, the negative one below. */
  lemma FloatOrderIsNumeric(a: U64, b: U64)
    requires !IsNaN(a) && !IsNaN(b)
    ensures FloatValue(a) < FloatValue(b) ==> CmpFloat(a, b) == Lt
    ensures FloatValue(a) == FloatValue(b) <==> a == b || (IsZero(a) && IsZero(b))
  {
    FloatOrder(a, b);
    var m, n := Magnitude(a), Magnitude(b);
    if m < n {
      MagnitudeGrows(m, n);
    } else if n < m {
      MagnitudeGrows(n, m);
    }
    if m > 0 {
      MagnitudeGrows(0, m);
    }
    if n > 0 {
      MagnitudeGrows(0, n);
    }
  }

  // ---- order of values ----

  function TypeRank(v: Value): nat {
    match v
    case Null => 0
    case Bool(_) => 1
    case Int(_) => 2
    case Float(_) => 3
    case String(_) => 4
    case Bytes(_) => 5
  }

  /** `value_cmp` (src/ordering.rs:24-43). */
  function ValueCmp(a: Value, b: Value): Ordering {
    match (a, b)
    case (Null, Null) => Eq
    case (Bool(x), Bool(y)) => CmpInt(if x then 1 else 0, if y then 1 else 0)
    case (Int(x), Int(y)) => CmpInt(x, y)
    case (Float(x), Float(y)) => CmpFloat(x, y)
    case (String(x), String(y)) => CmpBytes(x, y)
    case (Bytes(x), Bytes(y)) => CmpBytes(x, y)
    case _ => CmpInt(TypeRank(a), TypeRank(b))
  }

  /** The types in order, then false before true, integers and floats as numbers, strings
      and bytes byte by byte. */
  predicate ValueLess(a: Value, b: Value) {
    match a
    case Null => !b.Null?
    case Bool(x) => if b.Bool? then !x && b.b else b.Int? || b.Float? || b.String? || b.Bytes?
    case Int(x) => if b.Int? then x < b.i else b.Float? || b.String? || b.Bytes?
    case Float(x) => if b.Float? then FloatLess(x, b.bits) else b.String? || b.Bytes?
    case String(x) => if b.String? then Less(x, b.s) else b.Bytes?
    case Bytes(x) => b.Bytes? && Less(x, b.s)
  }

  /** What `value_cmp` decides; values tie if they are the same or both NaN. */
  lemma ValueCmpMeans(a: Value, b: Value)
    ensures ValueCmp(a, b) == Lt <==> ValueLess(a, b)
    ensures ValueCmp(a, b) == Gt <==> ValueLess(b, a)
    ensures ValueCmp(a, b) == Eq <==> a == b || (a.Float? && b.Float? && IsNaN(a.bits) && IsNaN(b.bits))
  {
    if a.Float? && b.Float? {
      FloatOrder(a.bits, b.bits);
    }
    if (a.String? && b.String?) || (a.Bytes? && b.Bytes?) {
      LessTrichotomy(a.s, b.s);
    }
  }

  // ---- encoding ----

  /** Null-free body and terminator: 0 becomes 0 1, the end is 0 0. */
  function Escape(data: ByteString): ByteString {
    if data == [] then [0, 0]
    else (if data[0] == 0 then [0, 1] else [data[0]]) + Escape(data[1..])
  }

  function AsU64(i: I64): U64 {
    if i < 0 then i + U64_LIMIT else i
  }

  /** `encode_ordered` (src/ordering.rs:116-147). */
  function EncodeOrdered(v: Value): (code: ByteString)
    ensures code != [] && code[0] == TypeRank(v)
  {
    match v
    case Null => [0]
    case Bool(b) => [1, if b then 1 else 0]
    case Int(i) => [2] + BigEndian(8, FlipTop(AsU64(i)))
    case Float(bits) => [3] + BigEndian(8, OrderedBits(bits))
    case String(s) => [4] + Escape(s)
    case Bytes(s) => [5] + Escape(s)
  }

  /** The push loop of `escape_null_free`. */
  method EscapeNullFree(data: ByteString, prefix: ByteString) returns (out: ByteString)
    ensures out == prefix + Escape(data)
  {
    out := prefix;
    var i := 0;
    assert data[0..] == data;
    while i < |data|
      invariant 0 <= i <= |data| && out + Escape(data[i..]) == prefix + Escape(data)
    {
      EscapeStep(out, data, i);
      if data[i] == 0 {
        out := out + [0];
        out := out + [1];
      } else {
        out := out + [data[i]];
      }
      i := i + 1;
    }
    assert data[i..] == [];
    out := out + [0];
    out := out + [0];
  }

  lemma EscapeStep(out: ByteString, data: ByteString, i: nat)
    requires i < |data|
    ensures out + Escape(data[i..]) ==
      (if data[i] == 0 then out + [0] + [1] else out + [data[i]]) + Escape(data[i + 1..])
  {
    assert data[i..][1..] == data[i + 1..];
  }

  // ---- the order embedding ----

  lemma BelowAtHead(x: Byte, y: Byte, a: ByteString, b: ByteString)
    ensures x < y ==> Below([x] + a, [y] + b)
    ensures x == y ==> (Below([x] + a, [y] + b) <==> Below(a, b))
  {
    assert ([x] + a)[1..] == a && ([y] + b)[1..] == b;
  }

  lemma EscapeHead(data: ByteString)
    requires data != []
    ensures data[0] != 0 ==> Escape(data) == [data[0]] + Escape(data[1..])
    ensures data[0] == 0 ==> Escape(data) == [0] + ([1] + Escape(data[1..]))
  {
  }

  lemma {:induction false} EscapeOrder(a: ByteString, b: ByteString)
    requires Less(a, b)
    ensures Below(Escape(a), Escape(b))
  {
    EscapeHead(b);
    if a == [] {
      assert Escape(a) == [0] + [0] && [0] + [] == [0];
      if b[0] == 0 {
        BelowAtHead(0, 1, [], Escape(b[1..]));
        BelowAtHead(0, 0, [0], [1] + Escape(b[1..]));
      } else {
        BelowAtHead(0, b[0], [0], Escape(b[1..]));
      }
    } else {
      EscapeHead(a);
      if a[0] == b[0] {
        EscapeOrder(a[1..], b[1..]);
        BelowAtHead(1, 1, Escape(a[1..]), Escape(b[1..]));
        BelowAtHead(a[0], b[0], Escape(a[1..]), Escape(b[1..]));
        BelowAtHead(0, 0, [1] + Escape(a[1..]), [1] + Escape(b[1..]));
      } else {
        BelowAtHead(a[0], b[0], if a[0] == 0 then [1] + Escape(a[1..]) else Escape(a[1..]), Escape(b[1..]));
      }
    }
  }

  lemma NumberOrder(tag: Byte, u: U64, w: U64)
    requires u < w
    ensures Below([tag] + BigEndian(8, u), [tag] + BigEndian(8, w))
  {
    Pow256Values();
    BigEndianOrder(8, u, w);
    BelowAtHead(tag, tag, BigEndian(8, u), BigEndian(8, w));
  }

  lemma TagOrder(a: ByteString, b: ByteString)
    requires a != [] && b != [] && a[0] < b[0]
    ensures Below(a, b)
  {
  }

  lemma CodesInOrder(a: Value, b: Value)
    requires ValueCmp(a, b) == Lt
    ensures Below(EncodeOrdered(a), EncodeOrdered(b))
  {
    match (a, b)
    case (Bool(x), Bool(y)) =>
      assert [1, 0] == [1] + [0] && [1, 1] == [1] + [1];
      assert [0] == [0] + [] && [1] == [1] + [];
      BelowAtHead(0, 1, [], []);
      BelowAtHead(1, 1, [0], [1]);
    case (Int(x), Int(y)) =>
      NumberOrder(2, FlipTop(AsU64(x)), FlipTop(AsU64(y)));
    case (Float(x), Float(y)) =>
      OrderedBitsOrder(x, y);
      NumberOrder(3, OrderedBits(x), OrderedBits(y));
    case (String(x), String(y)) =>
      EscapeOrder(x, y);
      BelowAtHead(4, 4, Escape(x), Escape(y));
    case (Bytes(x), Bytes(y)) =>
      EscapeOrder(x, y);
      BelowAtHead(5, 5, Escape(x), Escape(y));
    case _ =>
      TagOrder(EncodeOrdered(a), EncodeOrdered(b));
  }

  lemma CmpFlips(a: Value, b: Value)
    ensures ValueCmp(b, a) == Flip(ValueCmp(a, b))
  {
    match (a, b)
    case (String(x), String(y)) => LessTrichotomy(x, y);
    case (Bytes(x), Bytes(y)) => LessTrichotomy(x, y);
    case _ =>
  }

  lemma EqualCodes(a: Value, b: Value)
    requires ValueCmp(a, b) == Eq
    ensures EncodeOrdered(a) == EncodeOrdered(b)
  {
    match (a, b)
    case (Float(x), Float(y)) => OrderedBitsOrder(x, y);
    case _ =>
  }

  /** The code order is the value order, decided at a position both codes have. */
  lemma OrderEmbedding(a: Value, b: Value)
    ensures ValueCmp(a, b) == Lt <==> Below(EncodeOrdered(a), EncodeOrdered(b))
    ensures ValueCmp(a, b) == Gt <==> Below(EncodeOrdered(b), EncodeOrdered(a))
    ensures ValueCmp(a, b) == Eq <==> EncodeOrdered(a) == EncodeOrdered(b)
  {
    var x, y := EncodeOrdered(a), EncodeOrdered(b);
    CmpFlips(a, b);
    if ValueCmp(a, b) == Lt {
      CodesInOrder(a, b);
      BelowIsNoPrefix(x, y);
    } else if ValueCmp(a, b) == Gt {
      CodesInOrder(b, a);
      BelowIsNoPrefix(y, x);
    } else {
      EqualCodes(a, b);
      BelowNotSelf(x);
    }
  }

  lemma {:induction false} BelowNotSelf(a: ByteString)
    ensures !Below(a, a)
  {
    if Below(a, a) {
      BelowIsNoPrefix(a, a);
    }
  }

  /** Values in order keep their code order whatever bytes follow. */
  lemma OrderUnderSuffixes(a: Value, b: Value, s: ByteString, t: ByteString)
    ensures ValueCmp(a, b) == Lt ==> Less(EncodeOrdered(a) + s, EncodeOrdered(b) + t)
    ensures EncodeOrdered(a) + s == EncodeOrdered(b) + t ==> EncodeOrdered(a) == EncodeOrdered(b) && s == t
    ensures EncodeOrdered(a) <= EncodeOrdered(b) + t ==> EncodeOrdered(a) == EncodeOrdered(b)
  {
    var x, y := EncodeOrdered(a), EncodeOrdered(b);
    OrderEmbedding(a, b);
    if Below(x, y) {
      BelowUnderSuffixes(x, y, s, t);
      BelowUnderSuffixes(x, y, [], t);
      assert x + [] == x;
      BelowIsNoPrefix(x + s, y + t);
      BelowIsNoPrefix(x, y + t);
    } else if Below(y, x) {
      BelowUnderSuffixes(y, x, t, s);
      BelowUnderSuffixes(y, x, t, []);
      assert x + [] == x;
      BelowIsNoPrefix(y + t, x + s);
      BelowIsNoPrefix(y + t, x);
    } else {
      SameHead(x, s, t);
    }
  }

  lemma SameHead(x: ByteString, s: ByteString, t: ByteString)
    ensures x + s == x + t ==> s == t
  {
    assert (x + s)[|x|..] == s && (x + t)[|x|..] == t;
  }

  // ---- tuples ----

  function EncodeTuple(vs: seq<Value>): ByteString {
    if vs == [] then [] else EncodeOrdered(vs[0]) + EncodeTuple(vs[1..])
  }

  /** Componentwise, first difference decides. */
  function TupleCmp(vs: seq<Value>, ws: seq<Value>): Ordering
    requires |vs| == |ws|
  {
    if vs == [] then Eq
    else if ValueCmp(vs[0], ws[0]) != Eq then ValueCmp(vs[0], ws[0])
    else TupleCmp(vs[1..], ws[1..])
  }

  /** The embedding lifts to tuples of one arity. */
  lemma {:induction false} TupleEmbedding(vs: seq<Value>, ws: seq<Value>)
    requires |vs| == |ws|
    ensures TupleCmp(vs, ws) == Lt <==> Below(EncodeTuple(vs), EncodeTuple(ws))
    ensures TupleCmp(vs, ws) == Gt <==> Below(EncodeTuple(ws), EncodeTuple(vs))
    ensures TupleCmp(vs, ws) == Eq <==> EncodeTuple(vs) == EncodeTuple(ws)
  {
    if vs != [] {
      var x, y := EncodeOrdered(vs[0]), EncodeOrdered(ws[0]);
      var s, t := EncodeTuple(vs[1..]), EncodeTuple(ws[1..]);
      OrderEmbedding(vs[0], ws[0]);
      TupleEmbedding(vs[1..], ws[1..]);
      if Below(x, y) {
        BelowUnderSuffixes(x, y, s, t);
        BelowIsNoPrefix(x + s, y + t);
      } else if Below(y, x) {
        BelowUnderSuffixes(y, x, t, s);
        BelowIsNoPrefix(y + t, x + s);
      } else {
        LessBehindPrefix(x, s, t);
        LessBehindPrefix(x, t, s);
        SameHead(x, s, t);
      }
    }
  }

  /** The value order is transitive, with equal codes as its ties. */
  lemma ValueCmpTransitive(a: Value, b: Value, c: Value)
    requires ValueCmp(a, b) != Gt && ValueCmp(b, c) != Gt
    ensures ValueCmp(a, c) != Gt
    ensures ValueCmp(a, c) == Eq <==> ValueCmp(a, b) == Eq && ValueCmp(b, c) == Eq
  {
    var x, y, z := EncodeOrdered(a), EncodeOrdered(b), EncodeOrdered(c);
    OrderEmbedding(a, b);
    OrderEmbedding(b, c);
    OrderEmbedding(a, c);
    if Below(x, y) {
      BelowIsNoPrefix(x, y);
      if Below(y, z) {
        BelowIsNoPrefix(y, z);
        LessTransitive(x, y, z);
        LessTrichotomy(x, z);
        if Below(z, x) {
          BelowIsNoPrefix(z, x);
        }
      }
    }
  }

  lemma ValueCmpTransitiveIf(a: Value, b: Value, c: Value)
    ensures ValueCmp(a, b) != Gt && ValueCmp(b, c) != Gt ==>
      ValueCmp(a, c) != Gt && (ValueCmp(a, c) == Eq <==> ValueCmp(a, b) == Eq && ValueCmp(b, c) == Eq)
  {
    if ValueCmp(a, b) != Gt && ValueCmp(b, c) != Gt {
      ValueCmpTransitive(a, b, c);
    }
  }

  // ---- finding the end of a code ----

  /** Position behind the terminator of a null-free body that starts at `i`. */
  function BodyEnd(data: ByteString, i: nat): (r: Option<nat>)
    ensures r.Some? ==> i + 2 <= r.value <= |data|
    decreases |data| - i
  {
    if i >= |data| then None
    else if data[i] != 0 then BodyEnd(data, i + 1)
    else if i + 1 >= |data| then None
    else if data[i + 1] == 0 then Some(i + 2)
    else if data[i + 1] == 1 then BodyEnd(data, i + 2)
    else None
  }

  function LenOrNone(data: ByteString, n: nat): Option<nat> {
    if |data| < n then None else Some(n)
  }

  function CodeLen(data: ByteString): (r: Option<nat>)
    ensures r.Some? ==> 0 < r.value <= |data|
  {
    if data == [] then None
    else if data[0] == 0 then Some(1)
    else if data[0] == 1 then LenOrNone(data, 2)
    else if data[0] == 2 || data[0] == 3 then LenOrNone(data, 9)
    else if data[0] == 4 || data[0] == 5 then BodyEnd(data, 1)
    else None
  }

  /** `ordered_value_len` (src/ordering.rs:59-113). */
  method OrderedValueLen(data: ByteString) returns (r: Result<nat>)
    ensures r.Ok? <==> CodeLen(data).Some?
    ensures r.Ok? ==> r.value == CodeLen(data).value
    ensures r.Err? ==> r.error == InvalidFormat
  {
    if data == [] {
      return Err(InvalidFormat);
    }
    var tag := data[0];
    if tag == 0 {
      return Ok(1);
    } else if tag == 1 {
      return if |data| < 2 then Err(InvalidFormat) else Ok(2);
    } else if tag == 2 || tag == 3 {
      return if |data| < 9 then Err(InvalidFormat) else Ok(9);
    } else if tag == 4 || tag == 5 {
      var i := 1;
      while i < |data|
        invariant 1 <= i && BodyEnd(data, 1) == BodyEnd(data, i)
        decreases |data| - i
      {
        if data[i] == 0 {
          if i + 1 >= |data| {
            return Err(InvalidFormat);
          }
          if data[i + 1] == 0 {
            return Ok(i + 2);
          } else if data[i + 1] == 1 {
            i := i + 2;
            continue;
          } else {
            return Err(InvalidFormat);
          }
        }
        i := i + 1;
      }
      return Err(InvalidFormat);
    } else {
      return Err(InvalidFormat);
    }
  }

  lemma {:induction false} BodyEndOfEscape(head: ByteString, data: ByteString, rest: ByteString)
    ensures BodyEnd(head + Escape(data) + rest, |head|) == Some(|head| + |Escape(data)|)
    decreases data
  {
    var all := head + Escape(data) + rest;
    if data == [] {
      assert all[|head|] == 0 && all[|head| + 1] == 0;
    } else {
      EscapeHead(data);
      var unit := if data[0] == 0 then [0, 1] else [data[0]];
      assert all == head + unit + Escape(data[1..]) + rest;
      BodyEndOfEscape(head + unit, data[1..], rest);
      assert all[|head|] == data[0] && (data[0] == 0 ==> all[|head| + 1] == 1);
    }
  }

  lemma TextLen(tag: Byte, s: ByteString, rest: ByteString)
    requires tag == 4 || tag == 5
    ensures CodeLen([tag] + Escape(s) + rest) == Some(|[tag] + Escape(s)|)
  {
    BodyEndOfEscape([tag], s, rest);
  }

  /** A code announces its own end: the length is recovered whatever follows. */
  lemma CodeLenExact(v: Value, rest: ByteString)
    ensures CodeLen(EncodeOrdered(v) + rest) == Some(|EncodeOrdered(v)|)
  {
    match v
    case String(s) => TextLen(4, s, rest);
    case Bytes(s) => TextLen(5, s, rest);
    case _ =>
  }

  // ---- decoding ----

  /** `unescape_null_free`: the body must end with the terminator and nothing else. */
  function Unescape(data: ByteString): Result<ByteString> {
    if data == [] then Err(InvalidFormat)
    else if data[0] != 0 then Prefixed(data[0], Unescape(data[1..]))
    else if |data| == 1 then Err(InvalidFormat)
    else if data[1] == 0 then if |data| == 2 then Ok([]) else Err(InvalidFormat)
    else if data[1] == 1 then Prefixed(0, Unescape(data[2..]))
    else Err(InvalidFormat)
  }

  function Prefixed(b: Byte, r: Result<ByteString>): Result<ByteString> {
    match r case Ok(s) => Ok([b] + s) case Err(e) => Err(e)
  }

  function AllPrefixed(a: ByteString, r: Result<ByteString>): Result<ByteString> {
    match r case Ok(s) => Ok(a + s) case Err(e) => Err(e)
  }

  lemma PrefixedMore(a: ByteString, b: Byte, r: Result<ByteString>)
    ensures AllPrefixed(a, Prefixed(b, r)) == AllPrefixed(a + [b], r)
  {
    if r.Ok? {
      assert a + ([b] + r.value) == a + [b] + r.value;
    }
  }

  /** The loop of `unescape_null_free` (src/ordering.rs:239-273). */
  method UnescapeNullFree(data: ByteString) returns (r: Result<ByteString>)
    ensures r == Unescape(data)
  {
    var out: ByteString := [];
    var i := 0;
    assert data[0..] == data;
    if Unescape(data).Ok? {
      assert [] + Unescape(data).value == Unescape(data).value;
    }
    while i < |data|
      invariant 0 <= i <= |data|
      invariant AllPrefixed(out, Unescape(data[i..])) == Unescape(data)
    {
      var rest := data[i..];
      if rest[0] == 0 {
        if |rest| == 1 {
          return Err(InvalidFormat);
        }
        if rest[1] == 0 {
          if |rest| != 2 {
            return Err(InvalidFormat);
          }
          assert out + [] == out;
          return Ok(out);
        } else if rest[1] == 1 {
          PrefixedMore(out, 0, Unescape(rest[2..]));
          assert rest[2..] == data[i + 2..];
          out := out + [0];
          i := i + 2;
        } else {
          return Err(InvalidFormat);
        }
      } else {
        PrefixedMore(out, rest[0], Unescape(rest[1..]));
        assert rest[1..] == data[i + 1..];
        out := out + [rest[0]];
        i := i + 1;
      }
    }
    return Err(InvalidFormat);
  }

  lemma {:induction false} UnescapeEscape(data: ByteString)
    ensures Unescape(Escape(data)) == Ok(data)
  {
    if data != [] {
      EscapeHead(data);
      UnescapeEscape(data[1..]);
      assert [data[0]] + data[1..] == data;
      if data[0] == 0 {
        assert Escape(data)[2..] == Escape(data[1..]);
      } else {
        assert Escape(data)[1..] == Escape(data[1..]);
      }
    }
  }

  function AsI64(u: U64): I64 {
    if u < U63_LIMIT then u else u - U64_LIMIT
  }

  function U64Of(p: ByteString): (u: U64)
    requires |p| >= 8
  {
    FromBigEndianBound(p[0..8]);
    Pow256Values();
    FromBigEndian(p[0..8])
  }

  /** `decode_ordered` (src/ordering.rs:181-237), without the UTF-8 check of strings. */
  function DecodeOrdered(data: ByteString): Result<Value> {
    if data == [] then Err(InvalidFormat)
    else
      var payload := data[1..];
      if data[0] == 0 then Ok(Null)
      else if data[0] == 1 then if payload == [] then Err(InvalidFormat) else Ok(Bool(payload[0] != 0))
      else if data[0] == 2 then
        if |payload| < 8 then Err(InvalidFormat) else Ok(Int(AsI64(FlipTop(U64Of(payload)))))
      else if data[0] == 3 then
        if |payload| < 8 then Err(InvalidFormat) else Ok(Float(FloatOf(U64Of(payload))))
      else if data[0] == 4 || data[0] == 5 then
        match Unescape(payload)
        case Ok(s) => Ok(if data[0] == 4 then String(s) else Bytes(s))
        case Err(e) => Err(e)
      else Err(InvalidFormat)
  }

  function FloatOf(code: U64): U64 {
    if code == MAX_U64 then QUIET_NAN
    else if code >= U63_LIMIT then FlipTop(code)
    else MAX_U64 - code
  }

  /** All NaN patterns are one value to the index. */
  function Canonical(v: Value): Value {
    if v.Float? && IsNaN(v.bits) then Float(QUIET_NAN) else v
  }

  lemma NumberReadsBack(tag: Byte, u: U64)
    ensures var data := [tag] + BigEndian(8, u);
      data[0] == tag && |data[1..]| == 8 && U64Of(data[1..]) == u
  {
    Pow256Values();
    BigEndianRoundTrip(8, u);
    var data := [tag] + BigEndian(8, u);
    assert data[1..] == BigEndian(8, u) && data[1..][0..8] == BigEndian(8, u);
  }

  lemma TextDecodes(tag: Byte, s: ByteString)
    requires tag == 4 || tag == 5
    ensures DecodeOrdered([tag] + Escape(s)) == Ok(if tag == 4 then String(s) else Bytes(s))
  {
    UnescapeEscape(s);
    assert ([tag] + Escape(s))[1..] == Escape(s);
  }

  /** Decoding gives the value back; only the bits of a NaN are not kept. */
  lemma DecodeEncode(v: Value)
    ensures DecodeOrdered(EncodeOrdered(v)) == Ok(Canonical(v))
    ensures ValueCmp(v, Canonical(v)) == Eq
  {
    ValueCmpMeans(v, Canonical(v));
    match v
    case Int(i) => NumberReadsBack(2, FlipTop(AsU64(i)));
    case Float(bits) => NumberReadsBack(3, OrderedBits(bits));
    case String(s) => TextDecodes(4, s);
    case Bytes(s) => TextDecodes(5, s);
    case _ =>
  }

  // ---- equality of the language against equality of codes ----

  /** `PartialEq` of values: floats compare as numbers. */
  predicate RustEq(a: Value, b: Value) {
    if a.Float? && b.Float? then
      !IsNaN(a.bits) && !IsNaN(b.bits) && (a.bits == b.bits || (IsZero(a.bits) && IsZero(b.bits)))
    else a == b
  }

  /** The pairs on which the two notions of equality differ: NaN is unequal to itself but
      has one code, the two zeros are equal but have two. */
  predicate FloatTrap(a: Value, b: Value) {
    NanPair(a, b) || ZeroPair(a, b)
  }

  predicate NanPair(a: Value, b: Value) {
    a.Float? && b.Float? && IsNaN(a.bits) && IsNaN(b.bits)
  }

  predicate ZeroPair(a: Value, b: Value) {
    a.Float? && b.Float? && IsZero(a.bits) && IsZero(b.bits) && a.bits != b.bits
  }

  /** Index diffs compare with `PartialEq`, index keys by code. */
  lemma EqualityAgrees(a: Value, b: Value)
    ensures (RustEq(a, b) <==> EncodeOrdered(a) == EncodeOrdered(b)) <==> !FloatTrap(a, b)
    ensures !a.Float? || !b.Float? ==> (EncodeOrdered(a) == EncodeOrdered(b) <==> a == b)
  {
    OrderEmbedding(a, b);
    match (a, b)
    case (Float(x), Float(y)) => OrderedBitsOrder(x, y);
    case (String(x), String(y)) => LessTrichotomy(x, y);
    case (Bytes(x), Bytes(y)) => LessTrichotomy(x, y);
    case _ =>
  }

  predicate SameButNan(a: Value, b: Value) {
    NanPair(a, b) || a == b
  }

  predicate SameButZero(a: Value, b: Value) {
    ZeroPair(a, b) || (a == b && !NanPair(a, b))
  }

  /** What each equality identifies beyond identical values. */
  lemma EqualityKinds(a: Value, b: Value)
    ensures RustEq(a, b) <==> SameButZero(a, b)
    ensures EncodeOrdered(a) == EncodeOrdered(b) <==> SameButNan(a, b)
  {
    EqualityAgrees(a, b);
  }

  /** Type tags, and how a zero byte is escaped and a string ends. */
  lemma CodeExamples(i: I64, bits: U64)
    ensures EncodeOrdered(Null) == [0] && EncodeOrdered(Bool(false)) == [1, 0] && EncodeOrdered(Bool(true)) == [1, 1]
    ensures EncodeOrdered(Int(i))[0] == 2 && EncodeOrdered(Float(bits))[0] == 3
    ensures EncodeOrdered(String([0x61, 0])) == [4, 0x61, 0, 1, 0, 0] && EncodeOrdered(Bytes([])) == [5, 0, 0]
  {
    assert [0][1..] == [] && [0x61, 0][1..] == [0];
    assert Escape([0]) == [0, 1, 0, 0];
  }
}
