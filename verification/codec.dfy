/** The stored form of field values (src/codec.rs): a tag, then the payload. */
module Codec {
  import opened Seqs
  import opened Std
  import opened Bytes
  import opened OrderedValues

  /** Strings and byte fields carry a 32-bit length. */
  predicate Fits(v: Value) {
    v.String? || v.Bytes? ==> |v.s| < U32_LIMIT
  }

  /** `encode` (src/codec.rs:33-65). */
  function Encode(v: Value): ByteString
    requires Fits(v)
  {
    match v
    case Null => [0]
    case Bool(b) => [1, if b then 1 else 0]
    case Int(i) => [2] + Le64(AsU64(i))
    case Float(bits) => [3] + Le64(bits)
    case String(s) => [4] + (Le32(|s|) + s)
    case Bytes(s) => [5] + (Le32(|s|) + s)
  }

  function U64In(data: ByteString): U64
    requires |data| >= 9
  {
    FromLittleEndianBound(data[1..9]);
    Pow256Values();
    FromLittleEndian(data[1..9])
  }

  /** Length-prefixed body behind the tag; `None` where the data is too short. */
  function Body(data: ByteString): Option<ByteString> {
    if |data| < 5 then None
    else
      var len := FromLittleEndian(data[1..5]);
      if 5 + len > |data| then None else Some(data[5..5 + len])
  }

  /** `decode` (src/codec.rs:68-112), without the UTF-8 check of strings. */
  function Decode(data: ByteString): Result<Value> {
    if data == [] then Err(InvalidFormat)
    else if data[0] == 0 then Ok(Null)
    else if data[0] == 1 then if |data| < 2 then Err(InvalidFormat) else Ok(Bool(data[1] != 0))
    else if data[0] == 2 then if |data| < 9 then Err(InvalidFormat) else Ok(Int(AsI64(U64In(data))))
    else if data[0] == 3 then if |data| < 9 then Err(InvalidFormat) else Ok(Float(U64In(data)))
    else if data[0] == 4 || data[0] == 5 then
      var body := Body(data);
      if body.None? then Err(InvalidFormat)
      else Ok(if data[0] == 4 then String(body.value) else Bytes(body.value))
    else Err(InvalidFormat)
  }

  lemma NumberDecodes(tag: Byte, u: U64)
    ensures var data := [tag] + Le64(u);
      |data| == 9 && data[0] == tag && U64In(data) == u
  {
    Le64RoundTrip(u);
    assert ([tag] + Le64(u))[1..9] == Le64(u);
  }

  lemma BodyDecodes(tag: Byte, s: ByteString)
    requires |s| < U32_LIMIT
    ensures var data := [tag] + (Le32(|s|) + s);
      data[0] == tag && Body(data) == Some(s)
  {
    Le32RoundTrip(|s|);
    var data := [tag] + (Le32(|s|) + s);
    assert data[1..5] == Le32(|s|);
    assert data[5..5 + |s|] == s;
  }

  /** Stored values come back unchanged, every bit of a float included. */
  lemma DecodeEncode(v: Value)
    requires Fits(v)
    ensures Decode(Encode(v)) == Ok(v)
  {
    match v
    case Int(i) => NumberDecodes(2, AsU64(i));
    case Float(bits) => NumberDecodes(3, bits);
    case String(s) => BodyDecodes(4, s);
    case Bytes(s) => BodyDecodes(5, s);
    case _ =>
  }

  // ---- values byte by byte, with small numbers and short strings ----

  lemma NumberBytes(i: Byte)
    ensures Encode(Int(i)) == [2, i, 0, 0, 0, 0, 0, 0, 0] && Encode(Float(i)) == [3, i, 0, 0, 0, 0, 0, 0, 0]
  {
    SmallNumber(i);
  }

  lemma TextBytes(s: ByteString)
    requires |s| < 256
    ensures Encode(String(s)) == [4, |s|, 0, 0, 0] + s && Encode(Bytes(s)) == [5, |s|, 0, 0, 0] + s
  {
    SmallNumber(|s|);
    Assoc([4], [|s|, 0, 0, 0], s);
    Assoc([5], [|s|, 0, 0, 0], s);
    assert [4] + [|s|, 0, 0, 0] == [4, |s|, 0, 0, 0] && [5] + [|s|, 0, 0, 0] == [5, |s|, 0, 0, 0];
  }
}
