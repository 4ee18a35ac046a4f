/** Table files (src/sstable.rs): records, sparse index, Bloom filter and footer as
    bytes, written by a builder and read back by seeking and scanning. */
module Table {
  import opened Seqs
  import opened Std
  import opened Bytes
  import opened Records
  import opened Bloom

  const SPACING: nat := 16

  // ---- one record as bytes ----

  function ValueOf(e: Entry): ByteString {
    if e.Some? then e.value else []
  }

  /** Lengths are stored in 32 bits. */
  predicate Fits(r: Record) {
    |r.key| < U32_LIMIT && |ValueOf(r.entry)| < U32_LIMIT
  }

  function EncodeRecord(r: Record): (s: ByteString)
    requires Fits(r)
    ensures |s| == 9 + |r.key| + |ValueOf(r.entry)|
  {
    Le32(|r.key|) + Le32(|ValueOf(r.entry)|) + [if r.entry.Some? then 0 else 1] + r.key + ValueOf(r.entry)
  }

  datatype Read = End | Bad | Got(rec: Record, next: nat)

  /** One record at a file position; nothing is read at or beyond `dataEnd`, and a
      file that ends inside the length fields ends the scan, later it is an error. */
  function ReadRecordAt(file: ByteString, dataEnd: nat, pos: nat): Read {
    if pos >= dataEnd || pos + 8 > |file| then End
    else
      var klen := FromLittleEndian(file[pos..pos + 4]);
      var vlen := FromLittleEndian(file[pos + 4..pos + 8]);
      var body := pos + 9;
      if body + klen > |file| then Bad
      else if file[pos + 8] == 1 then Got(Record(file[body..body + klen], None), body + klen)
      else if body + klen + vlen > |file| then Bad
      else Got(Record(file[body..body + klen], Some(file[body + klen..body + klen + vlen])), body + klen + vlen)
  }

  /** The five parts of a record at its file position. */
  lemma PartsAt(file: ByteString, pos: nat, a: ByteString, b: ByteString, c: ByteString, d: ByteString, e: ByteString)
    requires |a| == 4 && |b| == 4 && |c| == 1 && pos + 9 + |d| + |e| <= |file|
    requires file[pos..pos + (9 + |d| + |e|)] == a + b + c + d + e
    ensures file[pos..pos + 4] == a && file[pos + 4..pos + 8] == b && file[pos + 8..pos + 9] == c
    ensures file[pos + 9..pos + 9 + |d|] == d && file[pos + 9 + |d|..pos + 9 + |d| + |e|] == e
  {
    var n := 9 + |d| + |e|;
    FiveParts(a, b, c, d, e);
    SliceOfSlice(file, pos, n, 0, 4);
    SliceOfSlice(file, pos, n, 4, 8);
    SliceOfSlice(file, pos, n, 8, 9);
    SliceOfSlice(file, pos, n, 9, 9 + |d|);
    SliceOfSlice(file, pos, n, 9 + |d|, n);
  }

  lemma ReadsBack(file: ByteString, dataEnd: nat, pos: nat, r: Record)
    requires Fits(r) && pos + |EncodeRecord(r)| <= dataEnd <= |file|
    requires file[pos..pos + |EncodeRecord(r)|] == EncodeRecord(r)
    ensures ReadRecordAt(file, dataEnd, pos) == Got(r, pos + |EncodeRecord(r)|)
  {
    var k, v := r.key, ValueOf(r.entry);
    Le32RoundTrip(|k|);
    Le32RoundTrip(|v|);
    PartsAt(file, pos, Le32(|k|), Le32(|v|), [if r.entry.Some? then 0 else 1], k, v);
    assert file[pos + 8] == file[pos + 8..pos + 9][0];
  }

  lemma SliceOfSlice(s: ByteString, pos: nat, n: nat, i: nat, j: nat)
    requires pos + n <= |s| && i <= j <= n
    ensures s[pos..pos + n][i..j] == s[pos + i..pos + j]
  {
    var inner := s[pos..pos + n];
    assert forall t :: 0 <= t < j - i ==> inner[i..j][t] == inner[i + t] == s[pos + i + t] == s[pos + i..pos + j][t];
  }

  lemma SliceLeft(x: ByteString, y: ByteString, i: nat, j: nat)
    requires i <= j <= |x|
    ensures (x + y)[i..j] == x[i..j]
  {
  }

  lemma SliceRight(x: ByteString, y: ByteString)
    ensures (x + y)[|x|..|x| + |y|] == y
  {
  }

  lemma SecondOfThree(x: ByteString, y: ByteString, z: ByteString)
    ensures (x + y + z)[|x|..|x| + |y|] == y
  {
    SliceLeft(x + y, z, |x|, |x| + |y|);
    SliceRight(x, y);
  }

  lemma FiveParts(a: ByteString, b: ByteString, c: ByteString, d: ByteString, e: ByteString)
    ensures var s := a + b + c + d + e;
      var i, j, k, l := |a|, |a| + |b|, |a| + |b| + |c|, |a| + |b| + |c| + |d|;
      s[0..i] == a && s[i..j] == b && s[j..k] == c && s[k..l] == d && s[l..l + |e|] == e
  {
    var ab, abc, abcd := a + b, a + b + c, a + b + c + d;
    SliceRight(abcd, e);
    SecondOfThree(abc, d, e);
    SliceLeft(abcd, e, |ab|, |abc|);
    SecondOfThree(ab, c, d);
    SliceLeft(abcd, e, |a|, |ab|);
    SliceLeft(abc, d, |a|, |ab|);
    SecondOfThree(a, b, c);
    SliceLeft(abcd, e, 0, |a|);
    SliceLeft(abc, d, 0, |a|);
    SliceLeft(ab, c, 0, |a|);
    SliceLeft(a, b, 0, |a|);
    assert a[0..|a|] == a;
  }

  // ---- a record list as bytes ----

  predicate AllFit(recs: seq<Record>) {
    forall r :: r in recs ==> Fits(r)
  }

  function EncodeAll(recs: seq<Record>): ByteString
    requires AllFit(recs)
  {
    if recs == [] then [] else EncodeAll(recs[..|recs| - 1]) + EncodeRecord(recs[|recs| - 1])
  }

  /** File offset of record `p`. */
  function Offset(recs: seq<Record>, p: nat): nat
    requires AllFit(recs) && p <= |recs|
  {
    |EncodeAll(recs[..p])|
  }

  lemma OffsetNext(recs: seq<Record>, p: nat)
    requires AllFit(recs) && p < |recs|
    ensures Offset(recs, p + 1) == Offset(recs, p) + |EncodeRecord(recs[p])|
    ensures EncodeAll(recs[..p + 1]) == EncodeAll(recs[..p]) + EncodeRecord(recs[p])
  {
    assert recs[..p + 1][..p] == recs[..p];
  }

  lemma {:induction false} EncodePrefix(recs: seq<Record>, p: nat)
    requires AllFit(recs) && p <= |recs|
    ensures EncodeAll(recs[..p]) <= EncodeAll(recs)
    decreases |recs| - p
  {
    if p < |recs| {
      OffsetNext(recs, p);
      EncodePrefix(recs, p + 1);
    } else {
      assert recs[..p] == recs;
    }
  }

  // ---- sparse index ----

  datatype IndexEntry = IndexEntry(key: ByteString, offset: nat)

  /** Position of record `n` within its block. */
  function InBlock(n: nat): (r: nat)
    ensures r < SPACING
  {
    n % SPACING
  }

  lemma InBlockNext(n: nat)
    ensures InBlock(n + 1) == if InBlock(n) + 1 == SPACING then 0 else InBlock(n) + 1
  {
  }

  /** Entries of the block starts: every 16th record, with its file offset. */
  function BlockEntries(recs: seq<Record>): seq<IndexEntry>
    requires AllFit(recs)
  {
    if recs == [] then [] else
      var n := |recs| - 1;
      BlockEntries(recs[..n]) + if InBlock(n) == 0 then [LastEntry(recs)] else []
  }

  function LastEntry(recs: seq<Record>): IndexEntry
    requires AllFit(recs) && recs != []
  {
    IndexEntry(recs[|recs| - 1].key, |EncodeAll(recs[..|recs| - 1])|)
  }

  /** The index of a finished table: block starts and, if it starts no block, the last record. */
  function SparseIndex(recs: seq<Record>): seq<IndexEntry>
    requires AllFit(recs)
  {
    BlockEntries(recs) + if recs != [] && InBlock(|recs| - 1) != 0 then [LastEntry(recs)] else []
  }

  predicate EntryFits(e: IndexEntry) {
    |e.key| < U32_LIMIT && e.offset < U64_LIMIT
  }

  function EncodeEntry(e: IndexEntry): (s: ByteString)
    requires EntryFits(e)
    ensures |s| == 12 + |e.key|
  {
    Le32(|e.key|) + e.key + Le64(e.offset)
  }

  function EncodeIndex(es: seq<IndexEntry>): ByteString
    requires forall e :: e in es ==> EntryFits(e)
  {
    if es == [] then [] else EncodeEntry(es[0]) + EncodeIndex(es[1..])
  }

  lemma {:induction false} EncodeIndexSnoc(es: seq<IndexEntry>, e: IndexEntry)
    requires EntryFits(e) && forall x :: x in es ==> EntryFits(x)
    ensures EncodeIndex(es + [e]) == EncodeIndex(es) + EncodeEntry(e)
  {
    if es == [] {
      assert es + [e] == [e] && [e][1..] == [];
    } else {
      assert (es + [e])[1..] == es[1..] + [e];
      EncodeIndexSnoc(es[1..], e);
    }
  }

  /** The entries of an index block; `None` where slicing would panic. */
  function IndexOf(raw: ByteString): Option<seq<IndexEntry>> {
    if raw == [] then Some([])
    else if |raw| < 4 then None
    else
      var keyLen := FromLittleEndian(raw[..4]);
      if 12 + keyLen > |raw| then None
      else
        var e := IndexEntry(raw[4..4 + keyLen], FromLittleEndian(raw[4 + keyLen..12 + keyLen]));
        Prepend(e, IndexOf(raw[12 + keyLen..]))
  }

  function Prepend(e: IndexEntry, rest: Option<seq<IndexEntry>>): Option<seq<IndexEntry>> {
    if rest.None? then None else Some([e] + rest.value)
  }

  lemma EntryReadsBack(e: IndexEntry, rest: ByteString)
    requires EntryFits(e)
    ensures IndexOf(EncodeEntry(e) + rest) == Prepend(e, IndexOf(rest))
  {
    var raw := EncodeEntry(e) + rest;
    Le32RoundTrip(|e.key|);
    Le64RoundTrip(e.offset);
    assert raw[..4] == Le32(|e.key|);
    assert raw[4..4 + |e.key|] == e.key;
    assert raw[4 + |e.key|..12 + |e.key|] == Le64(e.offset);
    assert raw[12 + |e.key|..] == rest;
  }

  lemma {:induction false} IndexReadsBack(es: seq<IndexEntry>)
    requires forall e :: e in es ==> EntryFits(e)
    ensures IndexOf(EncodeIndex(es)) == Some(es)
  {
    if es != [] {
      IndexReadsBack(es[1..]);
      EntryReadsBack(es[0], EncodeIndex(es[1..]));
      assert [es[0]] + es[1..] == es;
    }
  }

  /** The parsing loop of `parse_index` (src/sstable.rs:154-167). */
  method ParseIndex(raw: ByteString) returns (r: Option<seq<IndexEntry>>)
    ensures r == IndexOf(raw)
  {
    var out: seq<IndexEntry> := [];
    var i := 0;
    assert raw[0..] == raw;
    PrependNothing(IndexOf(raw));
    while i < |raw|
      invariant 0 <= i <= |raw|
      invariant IndexOf(raw) == PrependAll(out, IndexOf(raw[i..]))
      decreases |raw| - i
    {
      var e, n := ParseEntry(raw[i..], out);
      if e.None? {
        return None;
      }
      assert raw[i + n..] == raw[i..][n..];
      out := out + [e.value];
      i := i + n;
    }
    assert raw[i..] == [] && out + [] == out;
    return Some(out);
  }

  /** One turn of the parsing loop on what is left of the block. */
  method ParseEntry(rest: ByteString, ghost out: seq<IndexEntry>) returns (e: Option<IndexEntry>, n: nat)
    requires rest != []
    ensures e.None? ==> IndexOf(rest) == None
    ensures e.Some? ==> 0 < n <= |rest| && PrependAll(out, IndexOf(rest)) == PrependAll(out + [e.value], IndexOf(rest[n..]))
  {
    n := 0;
    if |rest| < 4 {
      return None, 0;
    }
    var keyLen := FromLittleEndian(rest[..4]);
    if 12 + keyLen > |rest| {
      return None, 0;
    }
    n := 12 + keyLen;
    e := Some(IndexEntry(rest[4..4 + keyLen], FromLittleEndian(rest[4 + keyLen..n])));
    PrependAllSnoc(out, e.value, IndexOf(rest[n..]));
  }

  lemma PrependNothing(rest: Option<seq<IndexEntry>>)
    ensures PrependAll([], rest) == rest
  {
    if rest.Some? {
      assert [] + rest.value == rest.value;
    }
  }

  function PrependAll(es: seq<IndexEntry>, rest: Option<seq<IndexEntry>>): Option<seq<IndexEntry>> {
    if rest.None? then None else Some(es + rest.value)
  }

  lemma PrependAllSnoc(es: seq<IndexEntry>, e: IndexEntry, rest: Option<seq<IndexEntry>>)
    ensures PrependAll(es, Prepend(e, rest)) == PrependAll(es + [e], rest)
  {
    if rest.Some? {
      assert es + ([e] + rest.value) == es + [e] + rest.value;
    }
  }

  // ---- building a file ----

  /** A table file: the bytes of its three blocks and the fields of its footer. */
  datatype TableFile = TableFile(bytes: ByteString, indexOffset: nat, indexLen: nat,
                                 bloomOffset: nat, bloomLen: nat, numRecords: nat)

  function FileOf(data: ByteString, index: ByteString, bloom: ByteString, count: nat): TableFile {
    TableFile(data + index + bloom, |data|, |index|, |data| + |index|, |bloom|, count)
  }

  /** Size limits of the format: 32-bit record lengths, 64-bit offsets, 32-bit index block. */
  predicate TableFits(recs: seq<Record>) {
    && AllFit(recs)
    && |recs| < U64_LIMIT
    && (forall e :: e in SparseIndex(recs) ==> EntryFits(e))
    && |EncodeIndex(SparseIndex(recs))| < U32_LIMIT
    && |EncodeAll(recs)| + |EncodeIndex(SparseIndex(recs))| < U64_LIMIT
  }

  lemma EncodeAllSnoc(recs: seq<Record>, r: Record)
    requires AllFit(recs) && Fits(r)
    ensures AllFit(recs + [r]) && EncodeAll(recs + [r]) == EncodeAll(recs) + EncodeRecord(r)
  {
    assert (recs + [r])[..|recs|] == recs;
  }

  /** The block-start entries fit their fields, and this is their encoding. */
  ghost predicate IsBlockIndex(index: ByteString, recs: seq<Record>) {
    && AllFit(recs)
    && (forall e :: e in BlockEntries(recs) ==> EntryFits(e))
    && index == EncodeIndex(BlockEntries(recs))
  }

  /** Index buffer, position in the block, and whether the last record got an entry. */
  ghost predicate IndexBuffer(index: ByteString, phase: nat, lastIndexed: bool, recs: seq<Record>) {
    && IsBlockIndex(index, recs)
    && phase == InBlock(|recs|)
    && (recs != [] ==> lastIndexed == (InBlock(|recs| - 1) == 0))
  }

  function NextIndex(index: ByteString, phase: nat, key: ByteString, offset: nat): ByteString
    requires EntryFits(IndexEntry(key, offset))
  {
    if phase == 0 then index + EncodeEntry(IndexEntry(key, offset)) else index
  }

  lemma IndexBufferGrow(index: ByteString, phase: nat, lastIndexed: bool, recs: seq<Record>, rec: Record)
    requires IndexBuffer(index, phase, lastIndexed, recs) && Fits(rec) && |EncodeAll(recs)| < U64_LIMIT
    ensures IndexBuffer(NextIndex(index, phase, rec.key, |EncodeAll(recs)|),
                        if phase + 1 == SPACING then 0 else phase + 1, phase == 0, recs + [rec])
  {
    var more := recs + [rec];
    InBlockNext(|recs|);
    BlockEntriesSnoc(recs, rec);
    assert |more| == |recs| + 1;
    if phase == 0 {
      BlockIndexWith(index, recs, more, LastEntry(more));
    } else {
      BlockIndexSame(index, recs, more);
    }
  }

  lemma BlockIndexWith(index: ByteString, recs: seq<Record>, more: seq<Record>, e: IndexEntry)
    requires IsBlockIndex(index, recs) && AllFit(more) && EntryFits(e)
    requires BlockEntries(more) == BlockEntries(recs) + [e]
    ensures IsBlockIndex(index + EncodeEntry(e), more)
  {
    EncodeIndexSnoc(BlockEntries(recs), e);
    forall x | x in BlockEntries(more) ensures EntryFits(x) {
      InSnoc(BlockEntries(recs), e, x);
    }
  }

  lemma BlockIndexSame(index: ByteString, recs: seq<Record>, more: seq<Record>)
    requires IsBlockIndex(index, recs) && AllFit(more) && BlockEntries(more) == BlockEntries(recs)
    ensures IsBlockIndex(index, more)
  {
  }

  lemma BlockEntriesSnoc(recs: seq<Record>, rec: Record)
    requires AllFit(recs) && Fits(rec) && |EncodeAll(recs)| < U64_LIMIT
    ensures AllFit(recs + [rec]) && LastEntry(recs + [rec]) == IndexEntry(rec.key, |EncodeAll(recs)|)
    ensures BlockEntries(recs + [rec]) ==
      if InBlock(|recs|) == 0 then BlockEntries(recs) + [LastEntry(recs + [rec])] else BlockEntries(recs)
  {
    assert (recs + [rec])[..|recs|] == recs;
    assert BlockEntries(recs) + [] == BlockEntries(recs);
  }

  lemma FinalIndex(index: ByteString, phase: nat, lastIndexed: bool, recs: seq<Record>)
    requires IndexBuffer(index, phase, lastIndexed, recs) && TableFits(recs)
    ensures recs != [] && !lastIndexed ==>
      EntryFits(LastEntry(recs)) && EncodeIndex(SparseIndex(recs)) == index + EncodeEntry(LastEntry(recs))
    ensures recs == [] || lastIndexed ==> EncodeIndex(SparseIndex(recs)) == index
  {
    if recs != [] && !lastIndexed {
      assert LastEntry(recs) in SparseIndex(recs);
      EncodeIndexSnoc(BlockEntries(recs), LastEntry(recs));
    } else {
      assert SparseIndex(recs) == BlockEntries(recs);
    }
  }

  /** The filter answers "maybe" for every record. */
  ghost predicate Covers(hash: Hash, bits: seq<bv8>, nbits: nat, k: nat, recs: seq<Record>) {
    nbits > 0 && forall r :: r in recs ==> Contains(hash, bits, nbits, k, r.key)
  }

  lemma CoversGrow(hash: Hash, a: seq<bv8>, b: seq<bv8>, nbits: nat, k: nat, recs: seq<Record>, rec: Record)
    requires Covers(hash, a, nbits, k, recs) && BitsWithin(a, b) && Contains(hash, b, nbits, k, rec.key)
    ensures Covers(hash, b, nbits, k, recs + [rec])
  {
    forall r | r in recs ensures Contains(hash, b, nbits, k, r.key) {
      ContainsMonotone(hash, a, b, nbits, k, r.key);
    }
  }

  /** Every bit of the filter is a probe of some record. */
  ghost predicate OnlyTheirs(hash: Hash, bits: seq<bv8>, nbits: nat, k: nat, recs: seq<Record>) {
    nbits > 0 && forall bit: nat :: HasBit(bits, bit) ==> ProbeOfSome(hash, nbits, k, recs, bit)
  }

  ghost predicate ProbeOfSome(hash: Hash, nbits: nat, k: nat, recs: seq<Record>, bit: nat)
    requires nbits > 0
  {
    exists r :: r in recs && IsProbe(hash(r.key), k, nbits, bit)
  }

  lemma OnlyTheirsGrow(hash: Hash, a: seq<bv8>, b: seq<bv8>, nbits: nat, k: nat, recs: seq<Record>, rec: Record)
    requires OnlyTheirs(hash, a, nbits, k, recs) && SetsProbes(hash(rec.key), a, b, k, nbits)
    ensures OnlyTheirs(hash, b, nbits, k, recs + [rec])
  {
    forall bit: nat | HasBit(b, bit) ensures ProbeOfSome(hash, nbits, k, recs + [rec], bit) {
      if HasBit(a, bit) {
        var r :| r in recs && IsProbe(hash(r.key), k, nbits, bit);
        assert r in recs + [rec];
      } else {
        assert rec in recs + [rec];
      }
    }
  }

  ghost predicate LastAdded(lastKey: Option<ByteString>, lastOffset: nat, added: seq<Record>) {
    && AllFit(added)
    && (added == [] ==> lastKey == None)
    && (added != [] ==>
          && lastKey == Some(added[|added| - 1].key)
          && lastOffset == |EncodeAll(added[..|added| - 1])|)
  }

  lemma LastAddedGrow(added: seq<Record>, rec: Record)
    requires AllFit(added) && Fits(rec)
    ensures LastAdded(Some(rec.key), |EncodeAll(added)|, added + [rec])
  {
    assert (added + [rec])[..|added|] == added;
  }

  /** Grows the buffers record by record (src/sstable.rs:13-121). */
  class TableBuilder {
    var buf: ByteString
    var index: ByteString
    var keysSinceIndex: nat
    var numRecords: nat
    var lastKey: Option<ByteString>
    var lastOffset: nat
    var lastRecordIndexed: bool
    const bloom: BloomFilter
    ghost var added: seq<Record>

    ghost predicate Valid()
      reads this, bloom
    {
      && bloom.Valid() && bloom.nbits == 1024 && bloom.k == 4
      && Covers(bloom.hash, bloom.bits, bloom.nbits, bloom.k, added)
      && OnlyTheirs(bloom.hash, bloom.bits, bloom.nbits, bloom.k, added)
      && BuffersValid()
    }

    ghost predicate BuffersValid()
      reads this
    {
      && AllFit(added) && buf == EncodeAll(added) && numRecords == |added|
      && IndexBuffer(index, keysSinceIndex, lastRecordIndexed, added)
      && LastAdded(lastKey, lastOffset, added)
    }

    constructor (hash: Hash)
      ensures Valid() && added == [] && fresh(bloom) && bloom.hash == hash
    {
      buf, index, keysSinceIndex, numRecords := [], [], 0, 0;
      lastKey, lastOffset, lastRecordIndexed := None, 0, false;
      bloom := new BloomFilter(1024, 4, hash);
      added := [];
    }

    /** Appends one record; a block start also gets an index entry. */
    method Add(key: ByteString, value: Entry)
      requires Valid() && Fits(Record(key, value)) && |buf| < U64_LIMIT
      modifies this, bloom
      ensures Valid() && added == old(added) + [Record(key, value)]
    {
      ghost var bits := bloom.bits;
      bloom.Insert(key);
      OnlyTheirsGrow(bloom.hash, bits, bloom.bits, bloom.nbits, bloom.k, added, Record(key, value));
      CoversGrow(bloom.hash, bits, bloom.bits, bloom.nbits, bloom.k, added, Record(key, value));
      Append(key, value);
    }

    method Append(key: ByteString, value: Entry)
      requires BuffersValid() && Fits(Record(key, value)) && |buf| < U64_LIMIT
      modifies this
      ensures BuffersValid() && added == old(added) + [Record(key, value)]
    {
      var rec := Record(key, value);
      var offset := |buf|;
      IndexRecord(rec);
      EncodeAllSnoc(added, rec);
      LastAddedGrow(added, rec);
      lastKey := Some(key);
      lastOffset := offset;
      buf := buf + EncodeRecord(rec);
      numRecords := numRecords + 1;
      added := added + [rec];
    }

    method IndexRecord(rec: Record)
      requires IndexBuffer(index, keysSinceIndex, lastRecordIndexed, added) && AllFit(added) && buf == EncodeAll(added)
      requires Fits(rec) && |buf| < U64_LIMIT
      modifies `index, `keysSinceIndex, `lastRecordIndexed
      ensures IndexBuffer(index, keysSinceIndex, lastRecordIndexed, added + [rec])
    {
      IndexBufferGrow(index, keysSinceIndex, lastRecordIndexed, added, rec);
      index := NextIndex(index, keysSinceIndex, rec.key, |buf|);
      lastRecordIndexed := keysSinceIndex == 0;
      keysSinceIndex := keysSinceIndex + 1;
      if keysSinceIndex == SPACING {
        keysSinceIndex := 0;
      }
    }

    /** Writes the file. If the last record started no block, it gets a final index
        entry, so that the index also bounds the keys of the table. */
    method Finish() returns (file: TableFile)
      requires Valid() && TableFits(added)
      modifies this
      ensures added == old(added)
      ensures |bloom.bits| == 128
      ensures file == FileOf(EncodeAll(added), EncodeIndex(SparseIndex(added)), FilterBlock(bloom.bits), |added|)
      ensures bloom.Valid() && bloom.nbits == 1024 && bloom.k == 4
      ensures Covers(bloom.hash, bloom.bits, bloom.nbits, bloom.k, added)
      ensures OnlyTheirs(bloom.hash, bloom.bits, bloom.nbits, bloom.k, added)
    {
      FinalIndex(index, keysSinceIndex, lastRecordIndexed, added);
      if numRecords > 0 && !lastRecordIndexed {
        index := index + EncodeEntry(IndexEntry(lastKey.value, lastOffset));
      }
      var bloomBytes := bloom.ToBytes();
      file := FileOf(buf, index, bloomBytes, numRecords);
    }
  }

  // ---- opening a file ----

  datatype Filter = Filter(bits: seq<bv8>, nbits: nat, k: nat)

  function FilterBlock(bits: seq<bv8>): ByteString {
    Le32(1024) + Le32(4) + Stored(bits)
  }

  function ParseFilter(b: ByteString): Filter
    requires |b| >= 8
  {
    Filter(Loaded(b[8..]), FromLittleEndian(b[0..4]), FromLittleEndian(b[4..8]))
  }

  lemma FilterReadsBack(bits: seq<bv8>)
    ensures ParseFilter(FilterBlock(bits)) == Filter(bits, 1024, 4)
  {
    var b := FilterBlock(bits);
    Le32RoundTrip(1024);
    Le32RoundTrip(4);
    assert b[0..4] == Le32(1024);
    assert b[4..8] == Le32(4);
    assert b[8..] == Stored(bits);
    LoadedStored(bits);
  }

  /** The shared state of an open table (src/sstable.rs:135-146). */
  datatype Shared = Shared(bytes: ByteString, numRecords: nat, bloom: Option<Filter>,
                           index: seq<IndexEntry>, dataEnd: nat)

  /** Reads index and filter (src/sstable.rs:187-219). Where the source would panic on
      a damaged block, this returns `Corrupt`. */
  function Open(f: TableFile): Result<Shared> {
    if f.indexOffset + f.indexLen > |f.bytes| || f.bloomOffset + f.bloomLen > |f.bytes| then Err(Io)
    else
      var index := IndexOf(f.bytes[f.indexOffset..f.indexOffset + f.indexLen]);
      if index.None? || 0 < f.bloomLen < 8 then Err(Corrupt)
      else
        var bloom := if f.bloomLen == 0 then None
                     else Some(ParseFilter(f.bytes[f.bloomOffset..f.bloomOffset + f.bloomLen]));
        Ok(Shared(f.bytes, f.numRecords, bloom, index.value, f.indexOffset))
  }

  lemma ThreeBlocks(a: ByteString, b: ByteString, c: ByteString)
    ensures var f := a + b + c;
      && f[..|a|] == a && f[|a|..|a| + |b|] == b && f[|a| + |b|..|a| + |b| + |c|] == c
  {
  }

  /** What a reader of a finished table sees: all blocks, exactly as built. */
  lemma OpenReadsBack(data: ByteString, es: seq<IndexEntry>, bits: seq<bv8>, count: nat)
    requires forall e :: e in es ==> EntryFits(e)
    ensures var f := FileOf(data, EncodeIndex(es), FilterBlock(bits), count);
      Open(f) == Ok(Shared(f.bytes, count, Some(Filter(bits, 1024, 4)), es, |data|))
  {
    IndexReadsBack(es);
    FilterReadsBack(bits);
    OpenOf(data, EncodeIndex(es), FilterBlock(bits), es, count);
  }

  lemma OpenOf(a: ByteString, b: ByteString, c: ByteString, es: seq<IndexEntry>, count: nat)
    requires IndexOf(b) == Some(es) && |c| >= 8
    ensures Open(FileOf(a, b, c, count)) == Ok(Shared(a + b + c, count, Some(ParseFilter(c)), es, |a|))
  {
    ThreeBlocks(a, b, c);
  }

  // ---- sparse index and record positions ----

  lemma {:induction false} BlockEntriesAt(recs: seq<Record>, i: nat)
    requires AllFit(recs) && i < |BlockEntries(recs)|
    ensures SPACING * i < |recs|
    ensures BlockEntries(recs)[i] == IndexEntry(recs[SPACING * i].key, Offset(recs, SPACING * i))
  {
    var n := |recs| - 1;
    var init := recs[..n];
    BlockEntriesCount(recs);
    BlockEntriesCount(init);
    if i < |BlockEntries(init)| {
      BlockEntriesAt(init, i);
      assert init[..SPACING * i] == recs[..SPACING * i];
    } else {
      assert n == SPACING * i;
    }
  }

  lemma {:induction false} BlockEntriesCount(recs: seq<Record>)
    requires AllFit(recs)
    ensures |BlockEntries(recs)| == (|recs| + SPACING - 1) / SPACING
  {
    if recs != [] {
      BlockEntriesCount(recs[..|recs| - 1]);
      BlocksOf(|recs| - 1);
    }
  }

  lemma BlocksOf(n: nat)
    ensures (n + 1 + SPACING - 1) / SPACING == (n + SPACING - 1) / SPACING + if InBlock(n) == 0 then 1 else 0
  {
  }

  /** Record position of index entry `i`. */
  ghost function PositionOf(recs: seq<Record>, i: nat): nat
    requires AllFit(recs)
  {
    if i < |BlockEntries(recs)| then SPACING * i else if recs == [] then 0 else |recs| - 1
  }

  lemma SparseIndexAt(recs: seq<Record>, i: nat)
    requires AllFit(recs) && i < |SparseIndex(recs)|
    ensures PositionOf(recs, i) < |recs|
    ensures SparseIndex(recs)[i] == IndexEntry(recs[PositionOf(recs, i)].key, Offset(recs, PositionOf(recs, i)))
  {
    if i < |BlockEntries(recs)| {
      BlockEntriesAt(recs, i);
    }
  }

  /** Every sixteenth record, from the first on, has an index entry with its key and offset. */
  lemma SparseIndexSteps(recs: seq<Record>, i: nat)
    requires AllFit(recs) && 16 * i < |recs|
    ensures i < |SparseIndex(recs)|
    ensures SparseIndex(recs)[i] == IndexEntry(recs[16 * i].key, |EncodeAll(recs[..16 * i])|)
    ensures (|recs| + 15) / 16 <= |SparseIndex(recs)| <= (|recs| + 15) / 16 + 1
  {
    BlockEntriesCount(recs);
    BlockEntriesAt(recs, i);
  }

  /** The index is never empty for a nonempty table, starts with the first record
      and ends with the last, for every number of records. */
  lemma SparseIndexEnds(recs: seq<Record>)
    requires AllFit(recs)
    ensures SparseIndex(recs) == [] <==> recs == []
    ensures recs != [] ==>
      && SparseIndex(recs)[0] == IndexEntry(recs[0].key, 0)
      && SparseIndex(recs)[|SparseIndex(recs)| - 1].key == recs[|recs| - 1].key
  {
    BlockEntriesCount(recs);
    if recs != [] {
      SparseIndexAt(recs, 0);
      SparseIndexAt(recs, |SparseIndex(recs)| - 1);
      assert recs[..0] == [];
      if InBlock(|recs| - 1) == 0 {
        assert SPACING * (|BlockEntries(recs)| - 1) == |recs| - 1;
      }
    }
  }

  // ---- reading ----

  /** A reader serves exactly the records `recs`: its bytes and index describe them, and
      its filter covers their keys. Every finished table is opened in this state. */
  ghost predicate Serves(t: Shared, hash: Hash, recs: seq<Record>) {
    && Sorted(recs) && AllFit(recs)
    && t.dataEnd == |EncodeAll(recs)| && EncodeAll(recs) <= t.bytes
    && t.index == SparseIndex(recs)
    && t.numRecords == |recs|
    && (t.bloom.Some? ==> Covers(hash, t.bloom.value.bits, t.bloom.value.nbits, t.bloom.value.k, recs))
  }

  lemma NextFits(recs: seq<Record>, i: nat)
    requires TableFits(recs) && i < |recs|
    ensures Fits(recs[i]) && AllFit(recs[..i]) && |EncodeAll(recs[..i])| < U64_LIMIT
    ensures recs[..i + 1] == recs[..i] + [Record(recs[i].key, recs[i].entry)]
  {
    EncodePrefix(recs, i);
  }

  method AddNext(b: TableBuilder, recs: seq<Record>, i: nat)
    requires TableFits(recs) && i < |recs| && b.Valid() && b.added == recs[..i]
    modifies b, b.bloom
    ensures b.Valid() && b.added == recs[..i + 1]
  {
    NextFits(recs, i);
    b.Add(recs[i].key, recs[i].entry);
  }

  /** Any finished table opens to a reader that serves exactly its records. */
  lemma BuiltTableServes(hash: Hash, recs: seq<Record>, bits: seq<bv8>)
    requires Sorted(recs) && TableFits(recs) && Covers(hash, bits, 1024, 4, recs)
    ensures var t := Open(FileOf(EncodeAll(recs), EncodeIndex(SparseIndex(recs)), FilterBlock(bits), |recs|));
      t.Ok? && Serves(t.value, hash, recs)
  {
    OpenReadsBack(EncodeAll(recs), SparseIndex(recs), bits, |recs|);
    ThreeBlocks(EncodeAll(recs), EncodeIndex(SparseIndex(recs)), FilterBlock(bits));
  }

  /** Adds the records in order and finishes the file (src/compaction.rs:9-15), which opens
      to a reader that serves exactly these records. */
  method BuildTable(hash: Hash, recs: seq<Record>) returns (file: TableFile)
    requires Sorted(recs) && TableFits(recs)
    ensures Open(file).Ok? && Serves(Open(file).value, hash, recs)
  {
    var b := new TableBuilder(hash);
    var i := 0;
    while i < |recs|
      invariant 0 <= i <= |recs| && fresh(b) && fresh(b.bloom) && b.bloom.hash == hash
      invariant b.Valid() && b.added == recs[..i]
    {
      AddNext(b, recs, i);
      i := i + 1;
    }
    assert recs[..i] == recs;
    file := b.Finish();
    BuiltTableServes(hash, recs, b.bloom.bits);
  }

  /** The scan at record `p`'s offset yields that record, or the end behind the last. */
  lemma ScanAt(t: Shared, hash: Hash, recs: seq<Record>, p: nat)
    requires Serves(t, hash, recs) && p <= |recs|
    ensures ReadRecordAt(t.bytes, t.dataEnd, Offset(recs, p)) ==
            if p < |recs| then Got(recs[p], Offset(recs, p + 1)) else End
  {
    if p < |recs| {
      OffsetNext(recs, p);
      EncodePrefix(recs, p);
      EncodePrefix(recs, p + 1);
      var e := EncodeRecord(recs[p]);
      assert t.bytes[Offset(recs, p)..Offset(recs, p) + |e|] == EncodeAll(recs[..p + 1])[Offset(recs, p)..] == e;
      ReadsBack(t.bytes, t.dataEnd, Offset(recs, p), recs[p]);
    } else {
      assert recs[..p] == recs;
    }
  }

  /** Every record before position `p` has a smaller key than `key`. */
  ghost predicate AllBefore(recs: seq<Record>, p: nat, key: ByteString) {
    p <= |recs| && forall i :: 0 <= i < p ==> Less(recs[i].key, key)
  }

  /** A scan from this offset starts at a record with only smaller keys before it. */
  ghost predicate StartsAt(recs: seq<Record>, p: nat, key: ByteString, offset: nat) {
    AllFit(recs) && AllBefore(recs, p, key) && offset == Offset(recs, p)
  }

  lemma NotYetAt(recs: seq<Record>, p: nat, key: ByteString)
    requires Sorted(recs) && p < |recs| && AtMost(recs[p].key, key)
    ensures AllBefore(recs, p, key)
  {
    forall i | 0 <= i < p ensures Less(recs[i].key, key) {
      LessTotal(recs[p].key, key);
      if recs[p].key != key {
        LessTransitive(recs[i].key, recs[p].key, key);
      }
    }
  }

  /** Number of leading entries with a key at most `key`. */
  method SearchIndex(entries: seq<IndexEntry>, key: ByteString) returns (lo: nat)
    ensures lo <= |entries|
    ensures lo > 0 ==> AtMost(entries[lo - 1].key, key)
    ensures lo < |entries| ==> Less(key, entries[lo].key)
  {
    lo := 0;
    var hi := |entries|;
    while lo < hi
      invariant 0 <= lo <= hi <= |entries|
      invariant lo > 0 ==> AtMost(entries[lo - 1].key, key)
      invariant hi < |entries| ==> Less(key, entries[hi].key)
    {
      var mid := (lo + hi) / 2;
      if AtMost(entries[mid].key, key) {
        lo := mid + 1;
      } else {
        hi := mid;
      }
    }
  }

  /** An open table with its own file position (src/sstable.rs:124-132). */
  class TableReader {
    const shared: Shared
    const hash: Hash
    var position: nat

    constructor (shared: Shared, hash: Hash)
      ensures this.shared == shared && this.hash == hash
    {
      this.shared := shared;
      this.hash := hash;
      position := 0;
    }

    /** First and last key of the table, from the index alone. */
    method KeyBounds(ghost recs: seq<Record>) returns (r: Option<(ByteString, ByteString)>)
      requires Serves(shared, hash, recs)
      ensures r == if recs == [] then None else Some((recs[0].key, recs[|recs| - 1].key))
    {
      SparseIndexEnds(recs);
      if shared.index == [] {
        return None;
      }
      return Some((shared.index[0].key, shared.index[|shared.index| - 1].key));
    }

    /** Offset of the block in which `key` would lie, by binary search. */
    method BlockOffsetFor(key: ByteString, ghost recs: seq<Record>) returns (offset: nat)
      requires Serves(shared, hash, recs)
      ensures exists p :: StartsAt(recs, p, key, offset)
    {
      var entries := shared.index;
      var lo := SearchIndex(entries, key);
      if lo == 0 {
        SparseIndexEnds(recs);
        assert recs[..0] == [];
        offset := if entries == [] then 0 else entries[0].offset;
        assert StartsAt(recs, 0, key, offset);
      } else {
        SparseIndexAt(recs, lo - 1);
        NotYetAt(recs, PositionOf(recs, lo - 1), key);
        offset := entries[lo - 1].offset;
        assert StartsAt(recs, PositionOf(recs, lo - 1), key, offset);
      }
    }

    method ReadRecord() returns (r: Read)
      modifies this
      ensures r == ReadRecordAt(shared.bytes, shared.dataEnd, old(position))
      ensures r.Got? ==> position == r.next
      ensures !r.Got? ==> position == old(position)
    {
      r := ReadRecordAt(shared.bytes, shared.dataEnd, position);
      if r.Got? {
        position := r.next;
      }
    }

    /** Reads the record at the offset of record `n` and moves behind it. */
    method ReadNext(ghost recs: seq<Record>, ghost n: nat) returns (x: Read)
      requires Serves(shared, hash, recs) && n <= |recs| && position == Offset(recs, n)
      modifies this
      ensures n < |recs| ==> x == Got(recs[n], Offset(recs, n + 1)) && position == Offset(recs, n + 1)
      ensures n == |recs| ==> x == End && position == old(position)
    {
      ScanAt(shared, hash, recs, n);
      x := ReadRecord();
    }

    /** Bloom filter, sparse index, then a linear scan: exactly the stored entry, or absence. */
    method Lookup(key: ByteString, ghost recs: seq<Record>) returns (r: Result<Option<Entry>>)
      requires Serves(shared, hash, recs)
      modifies this
      ensures r == Ok(if key in AsMap(recs) then Some(AsMap(recs)[key]) else None)
    {
      AsMapKeys(recs, key);
      if shared.bloom.Some? {
        var f := shared.bloom.value;
        if !Contains(hash, f.bits, f.nbits, f.k, key) {
          return Ok(None);
        }
      }
      ghost var p;
      position := BlockOffsetFor(key, recs);
      p :| StartsAt(recs, p, key, position);
      r := ScanFor(key, recs, p);
    }

    /** The linear part of a lookup, from a position in front of `key`. */
    method ScanFor(key: ByteString, ghost recs: seq<Record>, ghost start: nat) returns (r: Result<Option<Entry>>)
      requires Serves(shared, hash, recs)
      requires AllBefore(recs, start, key) && position == Offset(recs, start)
      modifies this
      ensures r == Ok(if key in AsMap(recs) then Some(AsMap(recs)[key]) else None)
    {
      AsMapKeys(recs, key);
      ghost var p := start;
      while true
        invariant AllBefore(recs, p, key) && position == Offset(recs, p)
        decreases |recs| - p
      {
        var rec := ReadNext(recs, p);
        match rec
        case Bad =>
          return Err(Io);
        case End =>
          LessIrreflexive(key);
          return Ok(None);
        case Got(x, _) =>
          if x.key == key {
            AsMapAt(recs, p);
            return Ok(Some(x.entry));
          } else if Less(key, x.key) {
            NotBetween(recs, p, key);
            return Ok(None);
          }
          LessTotal(x.key, key);
          p := p + 1;
      }
    }

    /** All records in order (src/sstable.rs:325-336). */
    method Iter(ghost recs: seq<Record>) returns (r: Result<seq<Record>>)
      requires Serves(shared, hash, recs)
      modifies this
      ensures r == Ok(recs)
    {
      var out: seq<Record> := [];
      position := 0;
      assert recs[..0] == [];
      var n := 0;
      while n < shared.numRecords
        invariant 0 <= n <= |recs| && out == recs[..n] && position == Offset(recs, n)
      {
        var x := ReadNext(recs, n);
        if x.Bad? {
          return Err(Io);
        } else if x.End? {
          break;
        }
        TakeNext(recs, n);
        out := out + [x.rec];
        n := n + 1;
      }
      TakeNext(recs, n);
      return Ok(out);
    }
  }

  /** A key strictly between two neighbours is not stored. */
  lemma NotBetween(recs: seq<Record>, p: nat, key: ByteString)
    requires Sorted(recs) && p < |recs| && AllBefore(recs, p, key) && Less(key, recs[p].key)
    ensures forall i :: 0 <= i < |recs| ==> recs[i].key != key
  {
    forall i | 0 <= i < |recs| ensures recs[i].key != key {
      LessIrreflexive(key);
      if i > p {
        LessTransitive(key, recs[p].key, recs[i].key);
      }
    }
  }

  // ---- range iteration ----

  /** Skipping a part of the list that lies before `start` loses nothing. */
  lemma {:induction false} RangeOfSkip(recs: seq<Record>, p: nat, start: ByteString, end: Option<ByteString>)
    requires AllBefore(recs, p, start)
    ensures RangeOf(recs, Some(start), end) == RangeOf(recs[p..], Some(start), end)
  {
    if p == 0 {
      assert recs[0..] == recs;
    } else {
      assert !InRange(recs[0].key, Some(start), end);
      assert forall i :: 0 <= i < p - 1 ==> recs[1..][i] == recs[i + 1];
      RangeOfSkip(recs[1..], p - 1, start, end);
      assert recs[1..][p - 1..] == recs[p..];
    }
  }

  /** Once a key reaches `end`, nothing behind it is in range. */
  lemma {:induction false} RangeOfBeyond(recs: seq<Record>, start: Option<ByteString>, end: ByteString)
    requires Sorted(recs) && (recs != [] ==> AtMost(end, recs[0].key))
    ensures RangeOf(recs, start, Some(end)) == []
  {
    if recs != [] {
      if |recs| > 1 && Less(recs[1].key, end) {
        LessTransitive(recs[0].key, recs[1].key, end);
      }
      RangeOfBeyond(recs[1..], start, end);
    }
  }

  /** One record of the range, or none, and the records behind it. */
  lemma RangeStep(recs: seq<Record>, p: nat, start: Option<ByteString>, end: Option<ByteString>)
    requires Sorted(recs) && p < |recs|
    ensures RangeOf(recs[p..], start, end) ==
      (if InRange(recs[p].key, start, end) then [recs[p]] else []) + RangeOf(recs[p + 1..], start, end)
    ensures end.Some? && AtMost(end.value, recs[p].key) ==>
      RangeOf(recs[p..], start, end) == [] && RangeOf(recs[p + 1..], start, end) == []
    ensures !InRange(recs[p].key, start, end) ==>
      RangeOf(recs[p..], start, end) == RangeOf(recs[p + 1..], start, end)
  {
    assert recs[p..][1..] == recs[p + 1..];
    if end.Some? && AtMost(end.value, recs[p].key) {
      RangeOfBeyond(recs[p..], start, end.value);
    }
  }

  /** Lazy scan of one table in [start, end) (src/sstable.rs:344-416). To its user it
      is a source over exactly the records of that range. */
  class TableIter {
    const reader: TableReader
    const start: Option<ByteString>
    const end: Option<ByteString>
    var cur: Option<Option<Record>>
    ghost const recs: seq<Record>
    ghost var p: nat

    ghost predicate Valid()
      reads this, reader
    {
      && Serves(reader.shared, reader.hash, recs)
      && p <= |recs| && reader.position == Offset(recs, p)
      && (cur == Some(None) ==> Ahead() == [])
    }

    ghost function Ahead(): seq<Record>
      requires p <= |recs|
      reads this
    {
      RangeOf(recs[p..], start, end)
    }

    /** The records not yet consumed. */
    ghost function Rest(): seq<Record>
      requires p <= |recs|
      reads this
    {
      match cur
      case None => Ahead()
      case Some(None) => []
      case Some(Some(r)) => [r] + Ahead()
    }

    constructor FromReader(reader: TableReader, start: Option<ByteString>, end: Option<ByteString>,
                           ghost recs: seq<Record>)
      requires Serves(reader.shared, reader.hash, recs)
      modifies reader
      ensures Valid() && this.reader == reader && Rest() == RangeOf(recs, start, end)
    {
      this.reader, this.start, this.end := reader, start, end;
      this.recs := recs;
      cur := None;
      p := 0;
      new;
      SparseIndexEnds(recs);
      assert recs[..0] == [] && recs[0..] == recs;
      if start.Some? {
        reader.position := reader.BlockOffsetFor(start.value, recs);
        ghost var first: nat :| StartsAt(recs, first, start.value, reader.position);
        p := first;
        RangeOfSkip(recs, p, start.value, end);
      } else {
        reader.position := if reader.shared.index == [] then 0 else reader.shared.index[0].offset;
      }
    }

    method Load() returns (ok: bool)
      requires Valid() && cur.None?
      modifies this, reader
      ensures ok && Valid() && cur.Some? && Rest() == old(Rest())
    {
      while true
        invariant Valid() && cur.None? && Ahead() == old(Ahead())
        decreases |recs| - p
      {
        var x := Step();
        if x.End? {
          cur := Some(None);
          return true;
        }
        if end.Some? && AtMost(end.value, x.rec.key) {
          cur := Some(None);
          return true;
        }
        if start.Some? && Less(x.rec.key, start.value) {
          continue;
        }
        cur := Some(Some(x.rec));
        return true;
      }
    }

    /** Reads the record at the file position and says what it leaves in range. */
    method Step() returns (x: Read)
      requires Valid() && cur.None?
      modifies `p, reader
      ensures !x.Bad? && Valid()
      ensures x.End? ==> p == old(p) && Ahead() == []
      ensures x.Got? ==> p == old(p) + 1
      ensures x.Got? && end.Some? && AtMost(end.value, x.rec.key) ==> old(Ahead()) == Ahead() == []
      ensures x.Got? ==> old(Ahead()) == (if InRange(x.rec.key, start, end) then [x.rec] else []) + Ahead()
    {
      x := reader.ReadNext(recs, p);
      if x.Got? {
        RangeStep(recs, p, start, end);
        p := p + 1;
      }
    }

    method Peek() returns (r: Option<Record>)
      requires Valid()
      modifies this, reader
      ensures Valid() && Rest() == old(Rest())
      ensures r == if Rest() == [] then None else Some(Rest()[0])
    {
      if cur.None? {
        var ok := Load();
      }
      r := cur.value;
    }

    /** Called on a peeked record or at the end; both forget the buffered state. */
    method Advance()
      requires Valid() && cur.Some?
      modifies this
      ensures Valid() && Rest() == if old(Rest()) == [] then [] else old(Rest())[1..]
    {
      cur := None;
    }
  }

  /** A value, a tombstone and an index entry as they stand in a file. */
  lemma TableBytes(k: ByteString, v: ByteString, offset: Byte)
    requires |k| < 256 && |v| < 256
    ensures EncodeRecord(Record(k, Some(v))) == [|k|, 0, 0, 0, |v|, 0, 0, 0, 0] + k + v
    ensures EncodeRecord(Record(k, None)) == [|k|, 0, 0, 0, 0, 0, 0, 0, 1] + k
    ensures EncodeEntry(IndexEntry(k, offset)) == [|k|, 0, 0, 0] + k + [offset, 0, 0, 0, 0, 0, 0, 0]
  {
    SmallNumber(|k|);
    SmallNumber(|v|);
    SmallNumber(|ValueOf(None)|);
    SmallNumber(offset);
  }
}
