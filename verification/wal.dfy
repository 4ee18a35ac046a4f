/** The write-ahead log of src/wal.rs: its bytes, its replay, and what a log cut off
    at any point still means. The checksum is an arbitrary function of the bytes. */
module Wal {
  import opened Seqs
  import opened Std
  import opened Bytes
  import opened Records

  type Checksum = ByteString -> U32

  datatype LogRec =
    | Put(key: ByteString, value: ByteString)
    | Delete(key: ByteString)
    | Begin(tx: U64)
    | TxPut(tx: U64, key: ByteString, value: ByteString)
    | TxDelete(tx: U64, key: ByteString)
    | Commit(tx: U64)
    | Abort(tx: U64)

  // ---- records as bytes ----

  predicate Fits(r: LogRec) {
    match r
    case Put(k, v) => |k| < U32_LIMIT && |v| < U32_LIMIT
    case Delete(k) => |k| < U32_LIMIT
    case TxPut(_, k, v) => |k| < U32_LIMIT && |v| < U32_LIMIT
    case TxDelete(_, k) => |k| < U32_LIMIT
    case _ => true
  }

  function TypeOf(r: LogRec): Byte {
    match r
    case Put(_, _) => 0
    case Delete(_) => 1
    case Begin(_) => 2
    case TxPut(_, _, _) => 3
    case TxDelete(_, _) => 4
    case Commit(_) => 5
    case Abort(_) => 6
  }

  /** Length fields and transaction id that precede key and value. */
  function Head(r: LogRec): ByteString
    requires Fits(r)
  {
    match r
    case Put(k, v) => Le32(|k|) + Le32(|v|)
    case Delete(k) => Le32(|k|)
    case Begin(tx) => Le64(tx)
    case TxPut(tx, k, v) => Le64(tx) + Le32(|k|) + Le32(|v|)
    case TxDelete(tx, k) => Le64(tx) + Le32(|k|)
    case Commit(tx) => Le64(tx)
    case Abort(tx) => Le64(tx)
  }

  function Data(r: LogRec): ByteString {
    match r
    case Put(k, v) => k + v
    case Delete(k) => k
    case TxPut(_, k, v) => k + v
    case TxDelete(_, k) => k
    case _ => []
  }

  function Payload(r: LogRec): ByteString
    requires Fits(r)
  {
    Head(r) + Data(r)
  }

  function EncodeRec(crc: Checksum, r: LogRec): (s: ByteString)
    requires Fits(r)
    ensures |s| >= 5
  {
    Le32(crc([TypeOf(r)] + Payload(r))) + ([TypeOf(r)] + Payload(r))
  }

  /** Fixed part of the payload; `None` for an unknown type. */
  function HeadLen(t: Byte): Option<nat> {
    if t == 0 || t == 2 || t == 5 || t == 6 then Some(8)
    else if t == 1 then Some(4)
    else if t == 3 then Some(16)
    else if t == 4 then Some(12)
    else None
  }

  /** Length of key and value, from the fixed part. */
  function DataLen(t: Byte, head: ByteString): nat
    requires HeadLen(t).Some? && |head| == HeadLen(t).value
  {
    if t == 0 then FromLittleEndian(head[0..4]) + FromLittleEndian(head[4..8])
    else if t == 1 then FromLittleEndian(head[0..4])
    else if t == 3 then FromLittleEndian(head[8..12]) + FromLittleEndian(head[12..16])
    else if t == 4 then FromLittleEndian(head[8..12])
    else 0
  }

  /** The type-dependent payload at the front of `b` (src/wal.rs:190-227); `None` when
      `b` ends too early. An unknown type has an empty payload. */
  function ReadPayload(t: Byte, b: ByteString): Option<ByteString> {
    if HeadLen(t).None? then Some([])
    else
      var n := HeadLen(t).value;
      if n > |b| then None
      else
        var d := DataLen(t, b[..n]);
        if n + d > |b| then None else Some(b[..n + d])
  }

  function U64At(p: ByteString): U64
    requires |p| >= 8
  {
    FromLittleEndianBound(p[0..8]);
    Pow256Values();
    FromLittleEndian(p[0..8])
  }

  /** The record a complete payload denotes; `None` for an unknown type. */
  function DecodePayload(t: Byte, p: ByteString): Option<LogRec>
    requires HeadLen(t).Some? ==> IsPayload(t, p)
  {
    if t == 0 then
      var k := FromLittleEndian(p[..8][0..4]);
      Some(Put(p[8..8 + k], p[8 + k..]))
    else if t == 1 then Some(Delete(p[4..]))
    else if t == 2 then Some(Begin(U64At(p)))
    else if t == 3 then
      var k := FromLittleEndian(p[..16][8..12]);
      Some(TxPut(U64At(p), p[16..16 + k], p[16 + k..]))
    else if t == 4 then Some(TxDelete(U64At(p), p[12..]))
    else if t == 5 then Some(Commit(U64At(p)))
    else if t == 6 then Some(Abort(U64At(p)))
    else None
  }

  datatype Step = Stop | Next(rec: LogRec, rest: ByteString)

  /** One turn of the replay loop: a truncated record, a wrong checksum or an unknown
      type ends the replay. */
  function ReadRec(crc: Checksum, b: ByteString): (s: Step)
    ensures s.Next? ==> |s.rest| < |b|
  {
    if |b| < 5 then Stop
    else
      var t := b[4];
      var payload := ReadPayload(t, b[5..]);
      if payload.None? || crc([t] + payload.value) != FromLittleEndian(b[..4]) then Stop
      else
        PayloadShape(t, b[5..]);
        var rec := DecodePayload(t, payload.value);
        if rec.None? then Stop else Next(rec.value, b[5 + |payload.value|..])
  }

  lemma PayloadShape(t: Byte, b: ByteString)
    requires ReadPayload(t, b).Some?
    ensures |ReadPayload(t, b).value| <= |b|
    ensures HeadLen(t).Some? ==> IsPayload(t, ReadPayload(t, b).value)
  {
    if HeadLen(t).Some? {
      var n := HeadLen(t).value;
      assert ReadPayload(t, b).value[..n] == b[..n];
    }
  }

  /** `p` has exactly the length its fixed part announces. */
  predicate IsPayload(t: Byte, p: ByteString)
    requires HeadLen(t).Some?
  {
    var n := HeadLen(t).value;
    |p| >= n && |p| == n + DataLen(t, p[..n])
  }

  function ReadLog(crc: Checksum, b: ByteString): seq<LogRec>
    decreases |b|
  {
    match ReadRec(crc, b)
    case Stop => []
    case Next(rec, rest) => [rec] + ReadLog(crc, rest)
  }

  // ---- a written record reads back ----

  lemma HeadReadsBack(r: LogRec)
    requires Fits(r)
    ensures HeadLen(TypeOf(r)) == Some(|Head(r)|)
    ensures DataLen(TypeOf(r), Head(r)) == |Data(r)|
  {
    var h := Head(r);
    match r
    case Put(k, v) =>
      Le32RoundTrip(|k|);
      Le32RoundTrip(|v|);
      assert h[0..4] == Le32(|k|) && h[4..8] == Le32(|v|);
    case Delete(k) =>
      Le32RoundTrip(|k|);
      assert h[0..4] == Le32(|k|);
    case TxPut(tx, k, v) =>
      Le32RoundTrip(|k|);
      Le32RoundTrip(|v|);
      assert h[8..12] == Le32(|k|) && h[12..16] == Le32(|v|);
    case TxDelete(tx, k) =>
      Le32RoundTrip(|k|);
      assert h[8..12] == Le32(|k|);
    case _ =>
  }

  lemma PayloadReadsBack(r: LogRec, rest: ByteString)
    requires Fits(r)
    ensures ReadPayload(TypeOf(r), Payload(r) + rest) == Some(Payload(r))
  {
    HeadReadsBack(r);
    var b := Payload(r) + rest;
    assert b[..|Head(r)|] == Head(r);
    assert b[..|Payload(r)|] == Payload(r);
  }

  lemma BehindHead(h: ByteString, k: ByteString, v: ByteString)
    ensures (h + (k + v))[|h|..|h| + |k|] == k && (h + (k + v))[|h| + |k|..] == v
  {
  }

  lemma PayloadDecodes(r: LogRec)
    requires Fits(r)
    ensures HeadLen(TypeOf(r)).Some? && IsPayload(TypeOf(r), Payload(r))
    ensures DecodePayload(TypeOf(r), Payload(r)) == Some(r)
  {
    HeadReadsBack(r);
    var p, h := Payload(r), Head(r);
    assert p[..|h|] == h && p[|h|..] == Data(r);
    match r
    case Put(k, v) =>
      Le32RoundTrip(|k|);
      assert h[0..4] == Le32(|k|);
      BehindHead(h, k, v);
    case Delete(k) =>
    case Begin(tx) =>
      TxReadsBack(p, tx);
    case TxPut(tx, k, v) =>
      Le32RoundTrip(|k|);
      assert h[8..12] == Le32(|k|);
      BehindHead(h, k, v);
      TxReadsBack(p, tx);
    case TxDelete(tx, k) =>
      TxReadsBack(p, tx);
    case Commit(tx) =>
      TxReadsBack(p, tx);
    case Abort(tx) =>
      TxReadsBack(p, tx);
  }

  lemma TxReadsBack(p: ByteString, tx: U64)
    requires Le64(tx) <= p
    ensures U64At(p) == tx
  {
    Le64RoundTrip(tx);
    assert p[0..8] == Le64(tx);
  }

  lemma RecordLayout(c: ByteString, t: Byte, p: ByteString, rest: ByteString)
    requires |c| == 4
    ensures var b := c + ([t] + p) + rest;
      |b| >= 5 && b[..4] == c && b[4] == t && b[5..] == p + rest && b[5 + |p|..] == rest
  {
    var b := c + ([t] + p) + rest;
    assert b[5..] == p + rest;
    assert b[5 + |p|..] == b[5..][|p|..] == rest;
  }

  lemma RecFromParts(crc: Checksum, c: ByteString, t: Byte, p: ByteString, rest: ByteString)
    requires |c| == 4 && FromLittleEndian(c) == crc([t] + p)
    requires HeadLen(t).Some? && ReadPayload(t, p + rest) == Some(p) && IsPayload(t, p)
    ensures ReadRec(crc, c + ([t] + p) + rest) == Next(DecodePayload(t, p).value, rest)
  {
    RecordLayout(c, t, p, rest);
  }

  lemma RecReadsBack(crc: Checksum, r: LogRec, rest: ByteString)
    requires Fits(r)
    ensures ReadRec(crc, EncodeRec(crc, r) + rest) == Next(r, rest)
  {
    var sum := crc([TypeOf(r)] + Payload(r));
    Le32RoundTrip(sum);
    PayloadReadsBack(r, rest);
    PayloadDecodes(r);
    RecFromParts(crc, Le32(sum), TypeOf(r), Payload(r), rest);
  }

  /** A record that is not completely there is not read at all. */
  lemma TornRecStops(crc: Checksum, r: LogRec, n: nat)
    requires Fits(r) && n < |EncodeRec(crc, r)|
    ensures ReadRec(crc, EncodeRec(crc, r)[..n]) == Stop
  {
    var b := EncodeRec(crc, r)[..n];
    if n >= 5 {
      HeadReadsBack(r);
      assert b[4] == TypeOf(r);
      assert b[5..] == Payload(r)[..n - 5];
      if n - 5 >= |Head(r)| {
        assert b[5..][..|Head(r)|] == Head(r);
      }
    }
  }

  // ---- whole logs and torn logs ----

  predicate AllFit(recs: seq<LogRec>) {
    forall r :: r in recs ==> Fits(r)
  }

  /** The bytes the record writers append. */
  function EncodeLog(crc: Checksum, recs: seq<LogRec>): ByteString
    requires AllFit(recs)
  {
    if recs == [] then [] else EncodeRec(crc, recs[0]) + EncodeLog(crc, recs[1..])
  }

  /** Number of records that lie completely in the first `n` bytes of the log. */
  function WholeRecords(crc: Checksum, recs: seq<LogRec>, n: nat): (m: nat)
    requires AllFit(recs)
    ensures m <= |recs|
  {
    if recs == [] || n < |EncodeRec(crc, recs[0])| then 0
    else 1 + WholeRecords(crc, recs[1..], n - |EncodeRec(crc, recs[0])|)
  }

  lemma NothingToRead(crc: Checksum)
    ensures ReadLog(crc, []) == []
  {
  }

  lemma ReadLogCons(crc: Checksum, r: LogRec, rest: ByteString)
    requires Fits(r)
    ensures ReadLog(crc, EncodeRec(crc, r) + rest) == [r] + ReadLog(crc, rest)
  {
    RecReadsBack(crc, r, rest);
  }

  lemma TakeOfAppend<T>(a: seq<T>, b: seq<T>, n: nat)
    requires n <= |a| + |b|
    ensures (a + b)[..n] == if n <= |a| then a[..n] else a + b[..n - |a|]
  {
  }

  /** The bytes behind the last whole record. */
  function TornTail(crc: Checksum, recs: seq<LogRec>, n: nat): ByteString
    requires AllFit(recs)
  {
    if recs == [] then []
    else if n < |EncodeRec(crc, recs[0])| then EncodeRec(crc, recs[0])[..n]
    else TornTail(crc, recs[1..], n - |EncodeRec(crc, recs[0])|)
  }

  lemma EncodeLogCons(crc: Checksum, r: LogRec, rest: seq<LogRec>)
    requires Fits(r) && AllFit(rest)
    ensures AllFit([r] + rest) && EncodeLog(crc, [r] + rest) == EncodeRec(crc, r) + EncodeLog(crc, rest)
  {
    assert ([r] + rest)[1..] == rest;
  }

  lemma PrefixCons<T>(s: seq<T>, m: nat)
    requires s != [] && m < |s|
    ensures s[..1 + m] == [s[0]] + s[1..][..m]
  {
  }

  /** A byte prefix of a log is its whole records and the beginning of one more. */
  lemma {:induction false} PrefixSplits(crc: Checksum, recs: seq<LogRec>, n: nat)
    requires AllFit(recs) && n <= |EncodeLog(crc, recs)|
    ensures EncodeLog(crc, recs)[..n] == EncodeLog(crc, recs[..WholeRecords(crc, recs, n)]) + TornTail(crc, recs, n)
  {
    if recs != [] {
      var e, tail := EncodeRec(crc, recs[0]), EncodeLog(crc, recs[1..]);
      TakeOfAppend(e, tail, n);
      if n >= |e| {
        var k := n - |e|;
        var m := WholeRecords(crc, recs[1..], k);
        PrefixSplits(crc, recs[1..], k);
        PrefixCons(recs, m);
        EncodeLogCons(crc, recs[0], recs[1..][..m]);
        Assoc(e, EncodeLog(crc, recs[1..][..m]), TornTail(crc, recs[1..], k));
        SplitAt(e, tail, n);
      } else {
        assert recs[..0] == [];
      }
    }
  }

  lemma SplitAt<T>(a: seq<T>, b: seq<T>, n: nat)
    requires |a| <= n <= |a| + |b|
    ensures (a + b)[..n] == a + b[..n - |a|]
  {
  }

  lemma {:induction false} ReadsWhole(crc: Checksum, recs: seq<LogRec>, rest: ByteString)
    requires AllFit(recs)
    ensures ReadLog(crc, EncodeLog(crc, recs) + rest) == recs + ReadLog(crc, rest)
  {
    if recs == [] {
      assert [] + rest == rest;
    } else {
      Assoc(EncodeRec(crc, recs[0]), EncodeLog(crc, recs[1..]), rest);
      ReadLogCons(crc, recs[0], EncodeLog(crc, recs[1..]) + rest);
      ReadsWhole(crc, recs[1..], rest);
      HeadAndTail(recs);
      Assoc([recs[0]], recs[1..], ReadLog(crc, rest));
    }
  }

  lemma {:induction false} TornTailStops(crc: Checksum, recs: seq<LogRec>, n: nat)
    requires AllFit(recs)
    ensures ReadLog(crc, TornTail(crc, recs, n)) == []
  {
    if recs == [] {
      NothingToRead(crc);
    } else if n < |EncodeRec(crc, recs[0])| {
      TornRecStops(crc, recs[0], n);
    } else {
      TornTailStops(crc, recs[1..], n - |EncodeRec(crc, recs[0])|);
    }
  }

  /** Any byte prefix of a written log reads back as exactly its whole records. */
  lemma TornLogReadsBack(crc: Checksum, recs: seq<LogRec>, n: nat)
    requires AllFit(recs) && n <= |EncodeLog(crc, recs)|
    ensures ReadLog(crc, EncodeLog(crc, recs)[..n]) == recs[..WholeRecords(crc, recs, n)]
  {
    var whole := recs[..WholeRecords(crc, recs, n)];
    PrefixSplits(crc, recs, n);
    ReadsWhole(crc, whole, TornTail(crc, recs, n));
    TornTailStops(crc, recs, n);
    assert whole + [] == whole;
  }

  lemma HeadAndTail<T>(s: seq<T>)
    requires s != []
    ensures [s[0]] + s[1..] == s
  {
  }

  lemma {:induction false} WholeRecordsAll(crc: Checksum, recs: seq<LogRec>)
    requires AllFit(recs)
    ensures WholeRecords(crc, recs, |EncodeLog(crc, recs)|) == |recs|
  {
    if recs != [] {
      WholeRecordsAll(crc, recs[1..]);
    }
  }

  // ---- what a log means ----

  function Committed(log: seq<LogRec>): set<U64> {
    set r | r in log && r.Commit? :: r.tx
  }

  /** The mutations of a log, given which transactions are committed. */
  function Select(log: seq<LogRec>, committed: set<U64>): seq<Record> {
    if log == [] then [] else Effect(log[0], committed) + Select(log[1..], committed)
  }

  function Effect(r: LogRec, committed: set<U64>): seq<Record> {
    match r
    case Put(k, v) => [Record(k, Some(v))]
    case Delete(k) => [Record(k, None)]
    case TxPut(tx, k, v) => if tx in committed then [Record(k, Some(v))] else []
    case TxDelete(tx, k) => if tx in committed then [Record(k, None)] else []
    case _ => []
  }

  /** Replay result: plain mutations, and those of transactions with a `Commit` record. */
  function Resolve(log: seq<LogRec>): seq<Record> {
    Select(log, Committed(log))
  }

  function TxOf(r: LogRec): Option<U64> {
    match r
    case Put(_, _) => None
    case Delete(_) => None
    case Begin(tx) => Some(tx)
    case TxPut(tx, _, _) => Some(tx)
    case TxDelete(tx, _) => Some(tx)
    case Commit(tx) => Some(tx)
    case Abort(tx) => Some(tx)
  }

  /** Highest transaction id of any record, 0 if there is none. */
  function MaxTx(log: seq<LogRec>): nat {
    if log == [] then 0 else Larger(MaxTx(log[..|log| - 1]), TxOf(log[|log| - 1]))
  }

  function Larger(m: nat, tx: Option<U64>): nat {
    if tx.Some? && tx.value > m then tx.value else m
  }

  lemma {:induction false} MaxTxBound(log: seq<LogRec>)
    ensures forall r :: r in log && TxOf(r).Some? ==> TxOf(r).value <= MaxTx(log)
  {
    if log != [] {
      MaxTxBound(log[..|log| - 1]);
      assert log == log[..|log| - 1] + [log[|log| - 1]];
    }
  }

  /** The raw operations the replay keeps: `Begin` and `Abort` only move the id. */
  predicate Kept(r: LogRec) {
    !r.Begin? && !r.Abort?
  }

  function KeptOf(log: seq<LogRec>): seq<LogRec> {
    if log == [] then []
    else KeptOf(log[..|log| - 1]) + if Kept(log[|log| - 1]) then [log[|log| - 1]] else []
  }

  lemma {:induction false} SelectSnoc(log: seq<LogRec>, r: LogRec, committed: set<U64>)
    ensures Select(log + [r], committed) == Select(log, committed) + Effect(r, committed)
  {
    if log == [] {
      assert log + [r] == [r] && [r][1..] == [];
    } else {
      assert (log + [r])[1..] == log[1..] + [r];
      SelectSnoc(log[1..], r, committed);
    }
  }

  lemma {:induction false} KeptSuffices(log: seq<LogRec>, committed: set<U64>)
    ensures Select(KeptOf(log), committed) == Select(log, committed)
    ensures Committed(KeptOf(log)) == Committed(log)
  {
    if log != [] {
      var init, r := log[..|log| - 1], log[|log| - 1];
      assert log == init + [r];
      KeptSuffices(init, committed);
      SelectSnoc(init, r, committed);
      SelectSnoc(KeptOf(init), r, committed);
      if Kept(r) {
        assert Committed(KeptOf(init) + [r]) == Committed(KeptOf(init)) + Committed([r]);
        assert Committed(log) == Committed(init) + Committed([r]);
      } else {
        assert KeptOf(log) == KeptOf(init);
        assert Select(init, committed) + [] == Select(init, committed);
        assert Committed(log) == Committed(init);
      }
    }
  }

  lemma LogSnoc(log: seq<LogRec>, r: LogRec, rest: seq<LogRec>)
    ensures log + ([r] + rest) == log + [r] + rest
    ensures KeptOf(log + [r]) == if Kept(r) then KeptOf(log) + [r] else KeptOf(log)
    ensures MaxTx(log + [r]) == Larger(MaxTx(log), TxOf(r))
  {
    assert (log + [r])[..|log|] == log;
    assert KeptOf(log) + [] == KeptOf(log);
  }

  /** First pass of the replay: parses until the log stops making sense. */
  method ParseOps(crc: Checksum, bytes: ByteString) returns (ops: seq<LogRec>, maxTx: nat)
    ensures ops == KeptOf(ReadLog(crc, bytes)) && maxTx == MaxTx(ReadLog(crc, bytes))
  {
    ops, maxTx := [], 0;
    ghost var log: seq<LogRec> := [];
    var b := bytes;
    while true
      invariant ReadLog(crc, bytes) == log + ReadLog(crc, b)
      invariant ops == KeptOf(log) && maxTx == MaxTx(log)
      decreases |b|
    {
      var step := ReadRec(crc, b);
      if step.Stop? {
        assert log + [] == log;
        return;
      }
      var tx := TxOf(step.rec);
      if tx.Some? && tx.value > maxTx {
        maxTx := tx.value;
      }
      if Kept(step.rec) {
        ops := ops + [step.rec];
      }
      b := step.rest;
      LogSnoc(log, step.rec, ReadLog(crc, b));
      log := log + [step.rec];
    }
  }

  method CommittedIds(ops: seq<LogRec>) returns (committed: set<U64>)
    ensures committed == Committed(ops)
  {
    committed := {};
    var i := 0;
    while i < |ops|
      invariant 0 <= i <= |ops| && committed == Committed(ops[..i])
    {
      assert ops[..i + 1] == ops[..i] + [ops[i]];
      if ops[i].Commit? {
        committed := committed + {ops[i].tx};
      }
      i := i + 1;
    }
    assert ops[..i] == ops;
  }

  method SelectCommitted(ops: seq<LogRec>, committed: set<U64>) returns (records: seq<Record>)
    ensures records == Select(ops, committed)
  {
    records := [];
    var i := 0;
    while i < |ops|
      invariant 0 <= i <= |ops| && records == Select(ops[..i], committed)
    {
      TakeNext(ops, i);
      SelectSnoc(ops[..i], ops[i], committed);
      records := records + Effect(ops[i], committed);
      i := i + 1;
    }
    TakeNext(ops, i);
  }

  /** Replay of log bytes (src/wal.rs:236-362): one pass that parses, one that finds the
      committed transactions, one that keeps the committed mutations in log order. */
  method Replay(crc: Checksum, bytes: ByteString) returns (records: seq<Record>, maxTx: nat)
    ensures records == Resolve(ReadLog(crc, bytes))
    ensures maxTx == MaxTx(ReadLog(crc, bytes))
  {
    var ops;
    ops, maxTx := ParseOps(crc, bytes);
    var committed := CommittedIds(ops);
    KeptSuffices(ReadLog(crc, bytes), committed);
    records := SelectCommitted(ops, committed);
  }

  // ---- logs of operations ----

  /** What the engine appends as one unit. `Unfinished` is what a crash left of a
      transaction block: its first records, never the `Commit`. */
  datatype Op =
    | Write(rec: Record)
    | Tx(id: U64, muts: seq<Record>)
    | Unfinished(id: U64, muts: seq<Record>)

  function WriteRec(r: Record): LogRec {
    if r.entry.Some? then Put(r.key, r.entry.value) else Delete(r.key)
  }

  function TxRec(id: U64, r: Record): LogRec {
    if r.entry.Some? then TxPut(id, r.key, r.entry.value) else TxDelete(id, r.key)
  }

  function TxRecs(id: U64, muts: seq<Record>): (s: seq<LogRec>)
    ensures |s| == |muts| && forall i :: 0 <= i < |s| ==> s[i] == TxRec(id, muts[i])
  {
    seq(|muts|, i requires 0 <= i < |muts| => TxRec(id, muts[i]))
  }

  function Block(op: Op): seq<LogRec> {
    match op
    case Write(r) => [WriteRec(r)]
    case Tx(id, muts) => [Begin(id)] + TxRecs(id, muts) + [Commit(id)]
    case Unfinished(id, muts) => [Begin(id)] + TxRecs(id, muts)
  }

  function LogOf(ops: seq<Op>): seq<LogRec> {
    if ops == [] then [] else Block(ops[0]) + LogOf(ops[1..])
  }

  /** The mutations that take effect: all of a committed block, none of an unfinished one. */
  function EffectOf(op: Op): seq<Record> {
    match op
    case Write(r) => [r]
    case Tx(_, muts) => muts
    case Unfinished(_, _) => []
  }

  function Mutations(ops: seq<Op>): seq<Record> {
    if ops == [] then [] else EffectOf(ops[0]) + Mutations(ops[1..])
  }

  ghost predicate Uses(op: Op, id: U64) {
    !op.Write? && op.id == id
  }

  /** No two blocks of the log share a transaction id. */
  ghost predicate DistinctIds(ops: seq<Op>) {
    forall i, j, id :: 0 <= i < j < |ops| && Uses(ops[i], id) ==> !Uses(ops[j], id)
  }

  lemma {:induction false} SelectConcat(a: seq<LogRec>, b: seq<LogRec>, committed: set<U64>)
    ensures Select(a + b, committed) == Select(a, committed) + Select(b, committed)
  {
    if a == [] {
      assert a + b == b;
    } else {
      assert (a + b)[1..] == a[1..] + b;
      SelectConcat(a[1..], b, committed);
    }
  }

  lemma {:induction false} SelectTx(id: U64, muts: seq<Record>, committed: set<U64>)
    ensures Select(TxRecs(id, muts), committed) == if id in committed then muts else []
  {
    if muts != [] {
      assert TxRecs(id, muts)[1..] == TxRecs(id, muts[1..]);
      SelectTx(id, muts[1..], committed);
    }
  }

  lemma SelectBlock(op: Op, committed: set<U64>)
    requires op.Tx? ==> op.id in committed
    requires op.Unfinished? ==> op.id !in committed
    ensures Select(Block(op), committed) == EffectOf(op)
  {
    match op
    case Write(r) =>
    case Tx(id, muts) =>
      SelectConcat([Begin(id)] + TxRecs(id, muts), [Commit(id)], committed);
      SelectConcat([Begin(id)], TxRecs(id, muts), committed);
      SelectTx(id, muts, committed);
    case Unfinished(id, muts) =>
      SelectConcat([Begin(id)], TxRecs(id, muts), committed);
      SelectTx(id, muts, committed);
  }

  lemma CommittedConcat(a: seq<LogRec>, b: seq<LogRec>)
    ensures Committed(a + b) == Committed(a) + Committed(b)
  {
  }

  lemma CommittedBlock(op: Op)
    ensures Committed(Block(op)) == if op.Tx? then {op.id} else {}
  {
    if op.Tx? {
      assert Commit(op.id) in Block(op);
    }
  }

  lemma {:induction false} CommittedOfLog(ops: seq<Op>, id: U64)
    ensures id in Committed(LogOf(ops)) <==> exists i :: 0 <= i < |ops| && ops[i].Tx? && ops[i].id == id
  {
    if ops != [] {
      CommittedOfLog(ops[1..], id);
      CommittedBlock(ops[0]);
      CommittedConcat(Block(ops[0]), LogOf(ops[1..]));
      if i :| 0 <= i < |ops[1..]| && ops[1..][i].Tx? && ops[1..][i].id == id {
        assert ops[i + 1] == ops[1..][i];
      }
      if i :| 0 <= i < |ops| && ops[i].Tx? && ops[i].id == id {
        assert i == 0 || ops[1..][i - 1] == ops[i];
      }
    }
  }

  lemma {:induction false} SelectOps(ops: seq<Op>, committed: set<U64>)
    requires forall op :: op in ops ==> (op.Tx? ==> op.id in committed) && (op.Unfinished? ==> op.id !in committed)
    ensures Select(LogOf(ops), committed) == Mutations(ops)
  {
    if ops != [] {
      SelectConcat(Block(ops[0]), LogOf(ops[1..]), committed);
      SelectBlock(ops[0], committed);
      SelectOps(ops[1..], committed);
    }
  }

  /** With distinct ids a log means exactly its operations: every committed block
      counts, no unfinished block does. */
  lemma ResolveOps(ops: seq<Op>)
    requires DistinctIds(ops)
    ensures Resolve(LogOf(ops)) == Mutations(ops)
  {
    forall op | op in ops
      ensures (op.Tx? ==> op.id in Committed(LogOf(ops))) && (op.Unfinished? ==> op.id !in Committed(LogOf(ops)))
    {
      var j :| 0 <= j < |ops| && ops[j] == op;
      if !op.Write? {
        CommittedOfLog(ops, op.id);
        assert Uses(ops[j], op.id);
        if op.Unfinished? && op.id in Committed(LogOf(ops)) {
          var i :| 0 <= i < |ops| && ops[i].Tx? && ops[i].id == op.id;
          assert Uses(ops[i], op.id);
        }
      }
    }
    SelectOps(ops, Committed(LogOf(ops)));
  }

  /** What remains of the operations when only the first `n` records reach the disk. */
  function Cut(ops: seq<Op>, n: nat): seq<Op> {
    if ops == [] || n == 0 then []
    else if n >= |Block(ops[0])| then [ops[0]] + Cut(ops[1..], n - |Block(ops[0])|)
    else [Unfinished(ops[0].id, ops[0].muts[..n - 1])]
  }

  /** Number of operations that survive a cut completely. */
  function WholeOps(ops: seq<Op>, n: nat): (m: nat)
    ensures m <= |ops|
  {
    if ops == [] || n < |Block(ops[0])| then 0 else 1 + WholeOps(ops[1..], n - |Block(ops[0])|)
  }

  lemma CutOne(op: Op, n: nat)
    requires 0 < n < |Block(op)|
    ensures LogOf(Cut([op], n)) == Block(op)[..n] && Mutations(Cut([op], n)) == []
  {
    var u := Unfinished(op.id, op.muts[..n - 1]);
    assert [u][1..] == [];
    assert Block(u) == Block(op)[..n];
  }

  /** A log cut after any record is again a log of operations. */
  lemma {:induction false} CutIsLog(ops: seq<Op>, n: nat)
    requires n <= |LogOf(ops)|
    ensures LogOf(Cut(ops, n)) == LogOf(ops)[..n]
  {
    if ops != [] && n > 0 {
      var b := Block(ops[0]);
      TakeOfAppend(b, LogOf(ops[1..]), n);
      if n >= |b| {
        CutIsLog(ops[1..], n - |b|);
        assert ([ops[0]] + Cut(ops[1..], n - |b|))[1..] == Cut(ops[1..], n - |b|);
      } else {
        CutOne(ops[0], n);
      }
    }
  }

  /** Its effect is that of a prefix of the operations: a transaction counts whole or not at all. */
  lemma {:induction false} CutIsOperationPrefix(ops: seq<Op>, n: nat)
    requires n <= |LogOf(ops)|
    ensures Mutations(Cut(ops, n)) == Mutations(ops[..WholeOps(ops, n)])
  {
    if ops != [] && n > 0 {
      var b := Block(ops[0]);
      if n >= |b| {
        CutIsOperationPrefix(ops[1..], n - |b|);
        var m := WholeOps(ops[1..], n - |b|);
        assert ([ops[0]] + Cut(ops[1..], n - |b|))[1..] == Cut(ops[1..], n - |b|);
        assert ops[..m + 1][0] == ops[0] && ops[..m + 1][1..] == ops[1..][..m];
      } else {
        CutOne(ops[0], n);
      }
    }
  }

  lemma {:induction false} CutUsesIds(ops: seq<Op>, n: nat)
    requires n <= |LogOf(ops)|
    ensures |Cut(ops, n)| <= |ops|
    ensures forall i, id :: 0 <= i < |Cut(ops, n)| && Uses(Cut(ops, n)[i], id) ==> Uses(ops[i], id)
  {
    if ops != [] && n > 0 && n >= |Block(ops[0])| {
      CutUsesIds(ops[1..], n - |Block(ops[0])|);
    }
  }

  lemma CutKeepsIdsDistinct(ops: seq<Op>, n: nat)
    requires n <= |LogOf(ops)| && DistinctIds(ops)
    ensures DistinctIds(Cut(ops, n))
  {
    CutUsesIds(ops, n);
  }

  /** A crash at any byte of the log: replay yields the effect of a prefix of the
      operations, with every transaction whole or absent. */
  lemma TornLogIsOperationPrefix(crc: Checksum, ops: seq<Op>, n: nat)
    requires DistinctIds(ops) && AllFit(LogOf(ops)) && n <= |EncodeLog(crc, LogOf(ops))|
    ensures var m := WholeOps(ops, WholeRecords(crc, LogOf(ops), n));
      && Resolve(ReadLog(crc, EncodeLog(crc, LogOf(ops))[..n])) == Mutations(ops[..m])
      && (n == |EncodeLog(crc, LogOf(ops))| ==> m == |ops|)
  {
    var k := WholeRecords(crc, LogOf(ops), n);
    TornLogReadsBack(crc, LogOf(ops), n);
    CutIsLog(ops, k);
    CutIsOperationPrefix(ops, k);
    CutKeepsIdsDistinct(ops, k);
    ResolveOps(Cut(ops, k));
    WholeOpsAll(ops);
    WholeRecordsAll(crc, LogOf(ops));
  }

  lemma {:induction false} WholeOpsAll(ops: seq<Op>)
    ensures WholeOps(ops, |LogOf(ops)|) == |ops|
  {
    if ops != [] {
      WholeOpsAll(ops[1..]);
    }
  }

  lemma {:induction false} LogOfConcat(a: seq<Op>, b: seq<Op>)
    ensures LogOf(a + b) == LogOf(a) + LogOf(b)
  {
    if a == [] {
      assert a + b == b;
    } else {
      assert (a + b)[1..] == a[1..] + b;
      LogOfConcat(a[1..], b);
      Assoc(Block(a[0]), LogOf(a[1..]), LogOf(b));
    }
  }

  lemma {:induction false} MutationsConcat(a: seq<Op>, b: seq<Op>)
    ensures Mutations(a + b) == Mutations(a) + Mutations(b)
  {
    if a == [] {
      assert a + b == b;
    } else {
      assert (a + b)[1..] == a[1..] + b;
      MutationsConcat(a[1..], b);
    }
  }

  lemma LogOfSnoc(ops: seq<Op>, op: Op)
    ensures LogOf(ops + [op]) == LogOf(ops) + Block(op)
    ensures Mutations(ops + [op]) == Mutations(ops) + Mutations([op])
  {
    LogOfConcat(ops, [op]);
    MutationsConcat(ops, [op]);
    assert [op][1..] == [];
  }

  /** A further operation does not change which earlier ones are complete. */
  lemma {:induction false} WholeOpsSnoc(ops: seq<Op>, op: Op, n: nat)
    requires n <= |LogOf(ops)|
    ensures WholeOps(ops + [op], n) == WholeOps(ops, n)
  {
    if ops != [] {
      assert (ops + [op])[1..] == ops[1..] + [op];
      if n >= |Block(ops[0])| {
        WholeOpsSnoc(ops[1..], op, n - |Block(ops[0])|);
      }
    }
  }

  lemma {:induction false} WholeOpsMonotone(ops: seq<Op>, n: nat, n': nat)
    requires n <= n'
    ensures WholeOps(ops, n) <= WholeOps(ops, n')
  {
    if ops != [] && n >= |Block(ops[0])| {
      WholeOpsMonotone(ops[1..], n - |Block(ops[0])|, n' - |Block(ops[0])|);
    }
  }

  /** Transaction ids in a log of operations are those of its blocks. */
  lemma {:induction false} IdsOfLog(ops: seq<Op>, r: LogRec)
    requires r in LogOf(ops) && TxOf(r).Some?
    ensures exists i :: 0 <= i < |ops| && Uses(ops[i], TxOf(r).value)
  {
    if r in Block(ops[0]) {
      assert Uses(ops[0], TxOf(r).value);
    } else {
      IdsOfLog(ops[1..], r);
      var i :| 0 <= i < |ops[1..]| && Uses(ops[1..][i], TxOf(r).value);
      assert Uses(ops[i + 1], TxOf(r).value);
    }
  }

  lemma {:induction false} MaxTxAttained(log: seq<LogRec>)
    ensures MaxTx(log) == 0 || exists r :: r in log && TxOf(r) == Some(MaxTx(log))
  {
    if log != [] {
      MaxTxAttained(log[..|log| - 1]);
      assert log[|log| - 1] in log;
    }
  }

  // ---- records byte by byte, for short keys and values and small transaction ids ----

  lemma PutBytes(k: ByteString, v: ByteString)
    requires |k| < 256 && |v| < 256
    ensures [TypeOf(Put(k, v))] + Payload(Put(k, v)) == [0, |k|, 0, 0, 0, |v|, 0, 0, 0] + k + v
  {
    SmallNumber(|k|);
    SmallNumber(|v|);
    Regroup([0], Head(Put(k, v)), k, v);
    assert [0] + Head(Put(k, v)) == [0, |k|, 0, 0, 0, |v|, 0, 0, 0];
  }

  lemma DeleteBytes(k: ByteString)
    requires |k| < 256
    ensures [TypeOf(Delete(k))] + Payload(Delete(k)) == [1, |k|, 0, 0, 0] + k
  {
    SmallNumber(|k|);
    Regroup([1], Head(Delete(k)), k, []);
    assert [1] + Head(Delete(k)) == [1, |k|, 0, 0, 0];
  }

  lemma MarkBytes(r: LogRec, tx: Byte)
    requires r == Begin(tx) || r == Commit(tx) || r == Abort(tx)
    ensures [TypeOf(r)] + Payload(r) == [if r.Begin? then 2 else if r.Commit? then 5 else 6, tx, 0, 0, 0, 0, 0, 0, 0]
  {
    SmallNumber(tx);
  }

  lemma TxPutBytes(k: ByteString, v: ByteString, tx: Byte)
    requires |k| < 256 && |v| < 256
    ensures [TypeOf(TxPut(tx, k, v))] + Payload(TxPut(tx, k, v)) ==
      [3, tx, 0, 0, 0, 0, 0, 0, 0, |k|, 0, 0, 0, |v|, 0, 0, 0] + k + v
  {
    SmallNumber(|k|);
    SmallNumber(|v|);
    SmallNumber(tx);
    Regroup([3], Head(TxPut(tx, k, v)), k, v);
    assert [3] + Head(TxPut(tx, k, v)) == [3, tx, 0, 0, 0, 0, 0, 0, 0, |k|, 0, 0, 0, |v|, 0, 0, 0];
  }

  lemma TxDeleteBytes(k: ByteString, tx: Byte)
    requires |k| < 256
    ensures [TypeOf(TxDelete(tx, k))] + Payload(TxDelete(tx, k)) == [4, tx, 0, 0, 0, 0, 0, 0, 0, |k|, 0, 0, 0] + k
  {
    SmallNumber(|k|);
    SmallNumber(tx);
    Regroup([4], Head(TxDelete(tx, k)), k, []);
    assert [4] + Head(TxDelete(tx, k)) == [4, tx, 0, 0, 0, 0, 0, 0, 0, |k|, 0, 0, 0];
  }
}
