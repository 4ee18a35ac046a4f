/** The Bloom filter of src/sstable.rs:418-486. The hash pair of a key is a
    parameter: nothing below depends on how keys are mixed. */
module Bloom {
  import opened Bytes

  /** The two 64-bit hashes of a key. */
  type Hash = ByteString -> (U64, U64)

  predicate TestBit(b: bv8, j: nat)
    requires j < 8
  {
    b & (1 << j) != 0
  }

  /** `b |= 1 << j` */
  function SetBit(b: bv8, j: nat): (r: bv8)
    requires j < 8
    ensures forall i :: 0 <= i < 8 ==> (TestBit(r, i) <==> TestBit(b, i) || i == j)
  {
    b | (1 << j)
  }

  /** The filter's bit bytes as they are stored in a file, and back. */
  function Stored(bits: seq<bv8>): (s: ByteString)
    ensures |s| == |bits|
  {
    seq(|bits|, i requires 0 <= i < |bits| => bits[i] as int)
  }

  function Loaded(s: ByteString): (bits: seq<bv8>)
    ensures |bits| == |s|
  {
    seq(|s|, i requires 0 <= i < |s| => s[i] as bv8)
  }

  lemma LoadedStored(bits: seq<bv8>)
    ensures Loaded(Stored(bits)) == bits
  {
    forall i | 0 <= i < |bits| ensures Loaded(Stored(bits))[i] == bits[i] {
      var x := bits[i];
      assert (x as int) as bv8 == x;
    }
  }

  /** Bit position of probe `i`: `(a + b * i) mod 2^64 mod nbits`. */
  function Probe(h: (U64, U64), i: nat, nbits: nat): (bit: nat)
    requires nbits > 0
    ensures bit < nbits
  {
    (h.0 + h.1 * i) % U64_LIMIT % nbits
  }

  predicate HasBit(bits: seq<bv8>, bit: nat) {
    bit / 8 < |bits| && TestBit(bits[bit / 8], bit % 8)
  }

  /** All probes of `key` hit a set bit. */
  predicate Contains(hash: Hash, bits: seq<bv8>, nbits: nat, k: nat, key: ByteString)
    requires nbits > 0
  {
    forall i :: 0 <= i < k ==> HasBit(bits, Probe(hash(key), i, nbits))
  }

  /** Every bit set in `a` is set in `b`. */
  ghost predicate BitsWithin(a: seq<bv8>, b: seq<bv8>) {
    |a| == |b| && forall bit: nat :: HasBit(a, bit) ==> HasBit(b, bit)
  }

  /** The bit is one of the `k` probes for the hash pair. */
  ghost predicate IsProbe(h: (U64, U64), k: nat, nbits: nat, bit: nat)
    requires nbits > 0
  {
    exists i :: 0 <= i < k && bit == Place(h.0, h.1, i) % nbits
  }

  /** `a + b * i`, wrapping at 64 bits. */
  ghost function Place(a: U64, b: U64, i: nat): nat {
    (a + b * i) % U64_LIMIT
  }

  /** The probes are set, and nothing else changes. */
  ghost predicate SetsProbes(h: (U64, U64), before: seq<bv8>, after: seq<bv8>, k: nat, nbits: nat)
    requires nbits > 0
  {
    && |after| == |before|
    && forall bit: nat :: HasBit(after, bit) <==> HasBit(before, bit) || IsProbe(h, k, nbits, bit)
  }

  lemma SetOneBit(before: seq<bv8>, bit: nat)
    requires bit / 8 < |before|
    ensures var after := before[bit / 8 := SetBit(before[bit / 8], bit % 8)];
      forall x: nat :: HasBit(after, x) <==> HasBit(before, x) || x == bit
  {
  }

  lemma OneMoreProbe(h: (U64, U64), before: seq<bv8>, now: seq<bv8>, after: seq<bv8>, i: nat, nbits: nat)
    requires nbits > 0 && SetsProbes(h, before, now, i, nbits) && |after| == |now|
    requires forall x: nat :: HasBit(after, x) <==> HasBit(now, x) || x == Probe(h, i, nbits)
    ensures SetsProbes(h, before, after, i + 1, nbits)
  {
    forall x: nat ensures IsProbe(h, i + 1, nbits, x) <==> IsProbe(h, i, nbits, x) || x == Probe(h, i, nbits) {
      assert Place(h.0, h.1, i) % nbits == Probe(h, i, nbits);
    }
  }

  lemma ProbesAreContained(hash: Hash, bits: seq<bv8>, nbits: nat, k: nat, key: ByteString)
    requires nbits > 0
    ensures Contains(hash, bits, nbits, k, key) <==> forall x: nat :: IsProbe(hash(key), k, nbits, x) ==> HasBit(bits, x)
  {
    forall i | 0 <= i < k ensures IsProbe(hash(key), k, nbits, Probe(hash(key), i, nbits)) {
      assert Place(hash(key).0, hash(key).1, i) % nbits == Probe(hash(key), i, nbits);
    }
    if Contains(hash, bits, nbits, k, key) {
      forall x: nat | IsProbe(hash(key), k, nbits, x) ensures HasBit(bits, x) {
        var i :| 0 <= i < k && x == Place(hash(key).0, hash(key).1, i) % nbits;
        assert x == Probe(hash(key), i, nbits);
      }
    }
  }

  class BloomFilter {
    var bits: seq<bv8>
    const nbits: U32
    const k: U32
    const hash: Hash

    ghost predicate Valid()
      reads this
    {
      nbits > 0 && |bits| == (nbits + 7) / 8
    }

    constructor (nbits: U32, k: U32, hash: Hash)
      requires nbits > 0
      ensures Valid() && this.nbits == nbits && this.k == k && this.hash == hash
      ensures |bits| == (nbits + 7) / 8 && forall i :: 0 <= i < |bits| ==> bits[i] == 0
    {
      this.bits := seq((nbits + 7) / 8, i => 0);
      this.nbits := nbits;
      this.k := k;
      this.hash := hash;
    }

    /** Rebuilt from the bytes of a table file. */
    constructor FromBytes(data: ByteString, hash: Hash)
      requires |data| >= 8
      ensures this.hash == hash && bits == Loaded(data[8..])
      ensures nbits == FromLittleEndian(data[0..4]) && k == FromLittleEndian(data[4..8])
    {
      FromLittleEndianBound(data[0..4]);
      FromLittleEndianBound(data[4..8]);
      Pow256Values();
      this.nbits := FromLittleEndian(data[0..4]);
      this.k := FromLittleEndian(data[4..8]);
      this.bits := Loaded(data[8..]);
      this.hash := hash;
    }

    /** Sets every probe of `key`; no bit is ever cleared. */
    method Insert(key: ByteString)
      requires Valid()
      modifies this
      ensures Valid() && Contains(hash, bits, nbits, k, key)
      ensures BitsWithin(old(bits), bits) && SetsProbes(hash(key), old(bits), bits, k, nbits)
    {
      var i := 0;
      while i < k
        invariant 0 <= i <= k && Valid() && SetsProbes(hash(key), old(bits), bits, i, nbits)
      {
        var bit := Probe(hash(key), i, nbits);
        assert bit / 8 < |bits|;
        ghost var was := bits;
        SetOneBit(bits, bit);
        bits := bits[bit / 8 := SetBit(bits[bit / 8], bit % 8)];
        OneMoreProbe(hash(key), old(bits), was, bits, i, nbits);
        i := i + 1;
      }
      ProbesAreContained(hash, bits, nbits, k, key);
    }

    /** False only for keys that were never inserted. */
    method MaybeContains(key: ByteString) returns (r: bool)
      requires Valid()
      ensures r == Contains(hash, bits, nbits, k, key)
      ensures r <==> forall x: nat :: IsProbe(hash(key), k, nbits, x) ==> HasBit(bits, x)
    {
      ProbesAreContained(hash, bits, nbits, k, key);
      var i := 0;
      while i < k
        invariant 0 <= i <= k
        invariant forall j :: 0 <= j < i ==> HasBit(bits, Probe(hash(key), j, nbits))
      {
        var bit := Probe(hash(key), i, nbits);
        if !TestBit(bits[bit / 8], bit % 8) {
          assert !HasBit(bits, Probe(hash(key), i, nbits));
          return false;
        }
        i := i + 1;
      }
      return true;
    }

    method ToBytes() returns (out: ByteString)
      ensures out == Le32(nbits) + Le32(k) + Stored(bits)
    {
      out := Le32(nbits) + Le32(k) + Stored(bits);
    }
  }

  /** Inserting more keys never hides an earlier one. */
  lemma ContainsMonotone(hash: Hash, a: seq<bv8>, b: seq<bv8>, nbits: nat, k: nat, key: ByteString)
    requires nbits > 0 && BitsWithin(a, b) && Contains(hash, a, nbits, k, key)
    ensures Contains(hash, b, nbits, k, key)
  {
  }
}
