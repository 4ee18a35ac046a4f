# Verified model of an embedded entity database

The program stores entities (named fields under an id, in collections) in a log-structured
key-value engine and answers queries over them with secondary indexes. This project models it
from the bytes on disk to the rows of a query, and proves that each layer keeps what the layer
above relies on.

**Storage engine.** Writes go to a log and a memtable, a full memtable becomes a level-0 table,
and compaction merges level 0 with the overlapping ones of the disjoint level-1 segments, without
tombstones. `Database` is a class with the fields of the original (memtable, manifest, disk, log
buffer, next transaction id). The reader's view is a function of these fields; every operation
states how the view changes, and a ghost `trail` records every durable state it goes through.
`Runs.Run` executes any sequence of commands, crashes included, and relates each view to a plain
map. Tables are modelled down to their bytes (`table.dfy`), the engine works on their record lists.

**Log and recovery.** The log is modelled in bytes, with an arbitrary checksum function. A log cut
at any byte replays to the effect of a prefix of its operations, a transaction counting whole or
not at all.

**Ordered keys and indexes.** Values have an order-preserving, self-delimiting code, and keys are
built from codes such that every scan range holds exactly the keys it is meant for. On these facts
the entity layer works with decoded keys: `Store.Mutator` is the key-value view that the original
calls `Mutator`, and `direct_mutator.dfy` and `tx_mutator.dfy` prove that the engine and a
transaction are such views. `core_put_entity`
writes through it in its original order of phases; its contract names the resulting store, and its
trail every state between two writes.

**Queries.** The planner turns filters into a disjunctive normal form, merges literals into
bounds and picks indexes; the executor runs the plan. `PlanMeaning.PlanMeans` says for every
entity whether planning kept the meaning of the filters, `Queries.RunQuery` that the rows are the
right ones.

Bytes are `seq<Byte>`, a string is its UTF-8 bytes, a float its 64 bits, a field name its id. The
hash functions of the Bloom filter, the checksum, and the addition of floats are arbitrary
functions.

## Where code and comments differ

The model follows the code. Each difference has a lemma with a concrete case and a theorem with
the exact condition.

- `lower_stronger` (src/query/planner.rs:265-269) takes `Inclusive` for tighter than `Exclusive` at
  equal values. `MergedExactIff` gives the condition on the literals, `SourceExact` the one for a
  row, `GtTrapExample` and `TrapSelectsTooMuch` the case `x > 5 AND x >= 5`.
- `union_bounds` (src/query/planner.rs:501-508) keeps the exclusive one of two equal lower bounds.
  `UnionExactIff` gives the condition on the clauses, `UnionSelects` says which rows are lost,
  `LostExample` gives one.
- Composite entries exist for complete tuples only (src/entity.rs:673-684), but partly bound
  composite indexes are used (src/query/planner.rs:382-396). `AllFoundIff` gives the condition,
  `PartlyBoundMisses` a store on which a match is missed.
- The scan in index order takes candidates from deleted entries too (src/query/executor.rs:347-352).
  `OrderExactIff` gives the condition on the scanned rows, `OrderStream` the one on the store,
  `UpdatedTwice` a store and a scan in which one entity comes out twice.
- Index diffs compare values with `PartialEq` (src/entity.rs:651), index keys by code.
  `EqualityAgrees` and `TupleTrapIs` list the values and tuples on which these differ,
  `PutKeepsExact` proves that a put keeps exact indexes if and only if it meets none,
  `TrapLosesEntry` what happens otherwise, `FloatRewrites` gives two stores.
- The module comment of src/ordering.rs:16 writes -0 == +0 in the order of floats; the code puts -0.0
  right below 0.0. `FloatOrderIsNumeric` proves that no other two numbers are told apart or tied
  against their values.
- `flush` saves the manifest while part of the log may still be buffered (src/lib.rs:560-566).
  `TornFlushExact` gives the condition under which a crash there is harmless, `TornFlushMixes` a
  run in which it is not.

## Model

| member | source | states |
|---|---|---|
| Bytes.ComputeSuccessor | src/keycodec.rs:190-202 | The backward loop returns the smallest string above every extension of the prefix, or none if there is no such string. |
| Bytes.SuccessorIsLeast | src/keycodec.rs:187-202 | Whatever lies above every extension of a prefix is no smaller than its successor; without a successor nothing does. |
| Bytes.PrefixRangeExact | src/keycodec.rs:181-202 | The range from a prefix to its successor holds exactly the strings that start with the prefix, all-0xFF and empty prefixes included. |
| Bytes.LittleEndianRoundTrip | src/keycodec.rs:24-38 | Little-endian bytes of any width give the number back. |
| Bytes.BigEndianOrder | src/ordering.rs:116-147 | Big-endian bytes of one width are ordered as the numbers are. |
| Memtable.MemTable.Put | src/memtable.rs:21-28 | The map changes at one key; the byte count grows by key and value and gives back those of the replaced entry. |
| Memtable.MemTable.Source | src/iterator.rs:164-186 | The records of the range in order; an empty or inverted interval gives none. |
| Memtable.UpsertSize | src/memtable.rs:21-28 | Adding the new entry's size and taking back the replaced one's keeps the account exact. |
| Merge.MergeIter.Next | src/iterator.rs:117-157 | Returns the least key of the overlay of all sources with the entry of the lowest source that has it, removes exactly that key from the overlay, and leaves one heap cursor per unfinished source. |
| Merge.TopIsLeastHead | src/iterator.rs:61-80 | The heap order pops a least head, and among equal keys the newest source. |
| Merge.MergeStepIsOverlay | src/iterator.rs:117-157 | A merge step takes exactly the least key out of the overlay of the sources; nothing else changes. |
| Merge.MergeVecs | src/iterator.rs:189-203 | Draining the merge of strictly sorted sources gives the strictly sorted list whose map is the overlay in which the lowest source wins, tombstones included. |
| ManifestModel.Validate | src/manifest.rs:69-96 | Accepts exactly the manifests whose segments are strictly sorted, disjoint, nonempty ranges and in which no table id occurs twice. |
| ManifestModel.WindowsSuffice | src/manifest.rs:69-88 | Neighbours that are in order make the whole segment list disjoint. |
| ManifestModel.SortSegmentsOk | src/lib.rs:633-638 | Sorting pairwise disjoint segments by minimum key gives a strictly ordered list of the same segments. |
| Layers.FlushExtendsBase | src/lib.rs:541-566 | A new newest table overlays everything below it and keeps the manifest well formed. |
| Layers.SegmentDecides | src/lib.rs:424-443 | In disjoint segments the one that holds a key alone decides it. |
| Layers.PartitionLevel | src/lib.rs:594-612 | The segment level is the union of the overlapping and the retained segments. |
| Layers.RetainedMissesMerge | src/lib.rs:594-612 | A retained segment lies wholly on one side of everything that is merged: the level-0 batch and all overlapping segments. |
| Layers.KeptAndNewApart | src/lib.rs:614-638 | The new chunks never straddle a retained segment. |
| Layers.DroppingTombstonesIsSafe | src/lib.rs:594-617 | Replacing overlapping part and batch by their merge without tombstones leaves every visible value as it is, and none reappears. |
| Layers.CompactionPreserves | src/lib.rs:585-655 | After compaction the manifest is well formed and every key has the visible value it had. |
| Layers.MergedUnreferenced | src/lib.rs:639-654 | The new manifest refers to none of the merged tables, so deleting them touches nothing live. |
| Wal.RecReadsBack | src/wal.rs:47-106 | A written record followed by any bytes reads back as itself, for every record type and any checksum function. |
| Wal.TornRecStops | src/wal.rs:190-227 | A proper beginning of a record reads as the end of the log. |
| Wal.TornLogReadsBack | src/wal.rs:236-300 | Any byte prefix of a written log reads back as exactly its whole records. |
| Wal.PutBytes | src/wal.rs:47-76 | The bytes of a write record, type, lengths, key and value, for keys and values below 256 bytes. |
| Wal.TxPutBytes | src/wal.rs:82-91 | The same for a write inside a transaction. |
| Wal.Replay | src/wal.rs:236-362 | Replay returns exactly the mutations outside transactions and those of committed ones, in log order, and the highest transaction id. |
| Wal.ResolveOps | src/wal.rs:312-362 | With distinct transaction ids every committed block counts in full, and no unfinished block revives. |
| Wal.CutIsOperationPrefix | src/wal.rs:236-362 | A log cut after any record has the effect of a prefix of the operations. |
| Wal.TornLogIsOperationPrefix | src/wal.rs:236-362 | A log cut at any byte replays to the effect of a prefix of the operations, each transaction whole or absent. |
| Bloom.BloomFilter.Insert | src/sstable.rs:448-455 | Exactly the bits `(a + b * i) mod 2^64 mod nbits` of the key are set in addition, for any hash function. |
| Bloom.BloomFilter.MaybeContains | src/sstable.rs:457-467 | The answer is exactly whether all these bits of the key are set. |
| Bloom.ContainsMonotone | src/sstable.rs:448-467 | Inserting more keys never hides an earlier one. |
| Table.ReadsBack | src/sstable.rs:47-80 | The bytes of a record, at any position of a file, are read as that record. |
| Table.TableBytes | src/sstable.rs:47-80 | The bytes of a value, a tombstone and an index entry, for keys and values below 256 bytes. |
| Table.TableBuilder.Finish | src/sstable.rs:82-120 | The file is the encoded records, their sparse index with a final entry if the last record starts no block, and a filter whose bits are the probes of the keys and no others. |
| Table.SparseIndexEnds | src/sstable.rs:82-95 | For every number of records the index starts with the first key and ends with the last. |
| Table.SparseIndexSteps | src/sstable.rs:47-65 | Every sixteenth record has an index entry with its key and offset, and at most one more entry follows. |
| Table.BuildTable | src/compaction.rs:9-15 | Building from sorted records gives a file that opens to a reader serving exactly those records. |
| Table.BuiltTableServes | src/sstable.rs:170-219 | Opening a finished file gives back its records, index and filter. |
| Table.TableReader.KeyBounds | src/sstable.rs:237-241 | Exactly the first and the last key, or none for an empty table. |
| Table.TableReader.BlockOffsetFor | src/sstable.rs:244-261 | Binary search finds a block such that every record before it has a smaller key. |
| Table.TableReader.Lookup | src/sstable.rs:298-316 | Exactly the stored entry, tombstone or absence, for every key. |
| Table.TableReader.Iter | src/sstable.rs:325-336 | All records in order. |
| Table.TableIter.Load | src/sstable.rs:378-402 | Loads the next record of the range; together the loads yield exactly the records within [start, end). |
| Recovery.CrashShowsPrefix | src/lib.rs:206-236 | Whatever part of the log buffer reached the disk, reopening shows the view after some prefix of the operations, at least the durable one. |
| Recovery.FlushTrailShows | src/lib.rs:541-574 | If the log on disk is complete, every durable state of a flush shows the same view when reopened. |
| Recovery.FlushTrailLeaves | src/lib.rs:541-574 | With any part of the log buffer on disk, a crash at any durable state of a flush leaves the view after some prefix of the operations, at least the durable one; between saving the manifest and completing the log it does so if the logged part overwrites no newer entry. |
| Recovery.TornFlushExact | src/lib.rs:556-571 | With an incomplete log, a crash between manifest and truncation shows the right view if and only if the log on disk overwrites no newer flushed entry. |
| Recovery.TornFlushMixes | src/lib.rs:560-566 | A concrete run in which that crash shows a view that never existed. |
| Recovery.CutBoundsIds | src/lib.rs:229-233 | The ids of a cut log stay below the next id of the engine that wrote it, so a reopened engine needs no larger one. |
| Recovery.LogBoundsIds | src/lib.rs:229-233 | One above the highest id of the log is above the id of every block in it, so a reopened engine reuses none. |
| DatabaseModel.Database.FromDisk | src/lib.rs:171-236 | Opening shows the recovered view and continues above every transaction id in the log. |
| DatabaseModel.ValidateOpenState | src/lib.rs:279-309 | Refuses exactly the states with a missing or empty table or a segment whose first or last key is not the table's own. |
| DatabaseModel.Database.FindSegment | src/lib.rs:447-472 | Binary search finds the one segment whose range contains the key, if there is one. |
| DatabaseModel.Database.Get | src/lib.rs:401-443 | Exactly the value of the plain map, for every key. |
| DatabaseModel.Database.ScanStream | src/lib.rs:477-517 | Exactly the newest entries of the range, tombstones included, in order. |
| DatabaseModel.Database.Scan | src/lib.rs:527-538 | Exactly the live part of the plain map in the range, in order. |
| DatabaseModel.TableBounds | src/lib.rs:744-768 | Exactly the smallest and largest key of several tables, or none. |
| DatabaseModel.MergeIds | src/lib.rs:725-741 | The sorted values of the overlay of the tables, newest first, without tombstones. |
| DatabaseModel.Database.WriteChunks | src/lib.rs:619-632 | Consecutive chunks, each stored under a fresh id with its own bounds, all but the last with exactly the segment limit of records. |
| DatabaseModel.Database.Compact | src/lib.rs:585-655 | View unchanged, level 0 empty, non-overlapping segments retained, invariant kept, and every durable step shows the same view. |
| DatabaseModel.Database.Flush | src/lib.rs:541-574 | View unchanged, memtable empty, everything durable; below the compaction threshold the disk gains exactly one level-0 table, from it on level 0 is empty; for any log buffer a crash at any durable step leaves the view after some prefix of the operations, in the window after the manifest under the condition of `TornFlushExact`; with an empty buffer every step shows the same view. |
| DatabaseModel.Database.PutInternal | src/lib.rs:330-340 | The reader's map changes at exactly the written key. The memtable is flushed, and all is durable, exactly if its byte count reaches the limit; otherwise the disk stays as it is. A crash at any durable step leaves the view after some prefix of the operations. |
| DatabaseModel.Database.AllocTxId | src/lib.rs:343-347 | An id that no block of the current log uses. |
| DatabaseModel.Database.Commit | src/entity.rs:1465-1496 | The map takes all mutations of the transaction, and after the sync no crash can undo them; the memtable is flushed exactly if its byte count reaches the limit. |
| DatabaseModel.Database.CompactFull | src/lib.rs:896-942 | View unchanged, level 0 empty, no tombstone left; crashes at any durable step as for a flush. |
| DatabaseModel.Database.Gc | src/lib.rs:673-716 | Deletes exactly the table files with an id below 1000000 that the manifest does not mention, and counts them; the view and all other tables stay. |
| Runs.Run | src/lib.rs:171-942 | For every sequence of writes, flushes, full compactions, garbage collections, commits, aborts and crashes, also at the durable steps inside a write, commit, flush or full compaction and with any part of the log buffer on disk: each step shows the plain map updated in call order, a crash goes back no further than the last durable view, and no transaction is torn. |
| TransactionModel.PairStepIsOverlay | src/entity.rs:406-437 | One step of the overlay scan emits the least key with its visible entry and takes only that key out. |
| TransactionModel.Drain | src/entity.rs:369-437 | Draining gives exactly the committed entries overridden by the pending ones, sorted, every key once. |
| TransactionModel.Transaction.Get | src/entity.rs:337-342 | Exactly the committed map overridden by the pending writes. |
| TransactionModel.Transaction.ScanStream | src/entity.rs:343-355 | The same for every range, own deletions as tombstones. |
| TransactionModel.Transaction.Commit | src/entity.rs:1465-1507 | The engine's map becomes the transaction's view; a finished transaction is refused. |
| TransactionModel.Transaction.Abort | src/entity.rs:1511-1516 | The engine's map is as before. |
| TransactionModel.PendingIsEdits | src/entity.rs:1485-1496 | The overlay of the pending entries is what applying them as mutations gives. |
| OrderedValues.OrderEmbedding | src/ordering.rs:24-147 | For all values the code order is the value order, decided at a position both codes have, so no code is a proper prefix of another. |
| OrderedValues.OrderUnderSuffixes | src/ordering.rs:116-178 | Values in order keep their code order whatever bytes follow either code. |
| OrderedValues.TupleEmbedding | src/ordering.rs:116-147 | The embedding lifts to concatenated codes of tuples. |
| OrderedValues.ValueCmpTransitive | src/ordering.rs:24-54 | The order of values of mixed types is transitive, ties included. |
| OrderedValues.OrderedBitsOrder | src/ordering.rs:150-163 | Float codes order floats as the comparison does, and only NaN has the top code. |
| OrderedValues.FloatOrder | src/ordering.rs:24-33 | The comparison of floats: NaN on top, negative numbers below the others, rising magnitude among those, falling magnitude among negatives; no two numbers tie. |
| OrderedValues.FloatOrderIsNumeric | src/ordering.rs:150-163 | On all numbers, infinities included, that is the order of the values that sign, exponent and mantissa stand for; only the zeros are told apart. |
| OrderedValues.NaNIs | src/ordering.rs:24-33 | A NaN has all exponent bits set and a mantissa that is not zero. |
| OrderedValues.ValueCmpMeans | src/ordering.rs:24-54 | The order of values type by type: null, booleans, integers, floats, strings, bytes, and within a type by number or byte by byte; ties are identical values and NaNs only. |
| OrderedValues.OrderedValueLen | src/ordering.rs:59-113 | The loops compute the length of the code at the front, or refuse damaged data. |
| OrderedValues.CodeLenExact | src/ordering.rs:59-113 | The length of a code is recovered exactly whatever follows it. |
| OrderedValues.DecodeEncode | src/ordering.rs:181-237 | Decoding gives the value back, up to the bits of a NaN. |
| OrderedValues.CodeExamples | src/ordering.rs:116-147 | The type tags, how a zero byte is escaped and how a string ends. |
| OrderedValues.EqualityAgrees | src/entity.rs:651-655 | The language's equality and equality of codes agree exactly off NaN pairs and zeros of different sign. |
| KeyCodec.EncodeKeyInjective | src/keycodec.rs:24-132 | Distinct keys of all three kinds have distinct bytes. |
| KeyCodec.FieldKeyBytes | src/keycodec.rs:123-132 | The bytes of a field key, for small ids. |
| KeyCodec.IndexKeyBytes | src/keycodec.rs:24-38 | The bytes of an index key, for small ids. |
| KeyCodec.CompositeKeyBytes | src/keycodec.rs:107-121 | The bytes of a composite index key, for small ids. |
| KeyCodec.EntityKeyDecodes | src/keycodec.rs:135-151 | An entity key decodes to its parts. |
| KeyCodec.IndexKeyDecodes | src/keycodec.rs:42-64 | An index key decodes to its parts, code boundary included. |
| KeyCodec.CompositeKeyDecodes | src/index.rs:246-280 | A composite key decodes to its component codes and entity id. |
| KeyCodec.CollectionRangeExact | src/keycodec.rs:162-168 | The scan range of a collection holds exactly its field keys. |
| KeyCodec.EntityRangeExact | src/keycodec.rs:170-185 | The scan range of an entity holds exactly its field keys, and none of entities whose id it heads. |
| KeyCodec.IndexRangeExact | src/index.rs:64-87 | For every pair of bounds and values of mixed types the range holds exactly the index keys of the field whose value is within the bounds. |
| KeyCodec.CompositeIndexRange | src/index.rs:193-241 | The loop computes the range behind the equality prefix, or the whole index if a leading bound is not inclusive. |
| KeyCodec.CompositeRangeExact | src/index.rs:193-241 | With equality before the last component the range holds exactly the keys whose components satisfy all bounds. |
| KeyCodec.CompositeRangeCovers | src/index.rs:193-241 | With pinned leading components no matching key is outside the range. |
| Codec.DecodeEncode | src/codec.rs:33-112 | Stored values come back unchanged, every bit of a float included. |
| Codec.TextBytes | src/codec.rs:33-68 | The bytes of stored strings and byte fields below 256 bytes. |
| DirectMutators.KeyDecodes | src/keycodec.rs:42-151 | Every storable key is recovered from its bytes. |
| DirectMutators.DirectMutator.Get | src/lib.rs:1192-1196 | The engine's lookup of an encoded key is the lookup in the map of keys. |
| DirectMutators.DirectMutator.Scan | src/lib.rs:1197-1199 | The engine's raw scan, decoded, is a scan of the map of keys: all live keys of the range in byte order with their values. |
| DirectMutators.DirectMutator.Put | src/lib.rs:1200-1202 | A put of the engine is an update of the map of keys, also when it flushes and compacts. |
| DirectMutators.DirectMutator.Delete | src/lib.rs:1203-1205 | A delete of the engine removes exactly that key. |
| TxMutators.TxMutator.Scan | src/entity.rs:343-355 | The transaction's raw scan, decoded, is a scan of the map of keys it sees. |
| TxMutators.TxMutator.Put | src/entity.rs:356-359 | A put inside a transaction is an update of the map of keys it sees. |
| TxMutators.TxMutator.Delete | src/entity.rs:360-363 | A delete inside a transaction removes exactly that key. |
| TxMutators.TxMutator.Commit | src/entity.rs:1465-1507 | After a commit the engine holds exactly the map of keys that the transaction saw. |
| Entities.PutKeepsExact | src/entity.rs:645-742 | After a put the entity's single-field and composite entries are exactly those of its fields, if and only if no indexed value is replaced by one of a pair of NaNs or of zeros of different sign, and no indexed tuple by one that differs only in such pairs of one kind. |
| Entities.TupleTrapIs | src/entity.rs:661-684 | The diff of complete tuples and their codes disagree exactly if the tuples agree up to NaN and hold one, or agree up to the sign of zeros and are not the same. |
| Entities.PutKeepsOthers | src/entity.rs:504-762 | Other entities keep exact indexes. |
| Entities.TrapLosesEntry | src/entity.rs:651-655 | From such a pair the new value's entry is missing. |
| Entities.FloatRewrites | src/entity.rs:651-655 | Writing NaN where NaN already was takes the value out of its index, and -0.0 over 0.0 is not entered. |
| EntityWrites.PutEntity | src/entity.rs:504-762 | The store after the put is the same with any hint that misses no live field as without one, and its states on the way lie between the three checkpoints. |
| EntityWrites.PutNeverMisses | src/entity.rs:645-742 | At every single write of a put each live value of an indexed field has its entry, provided no value changes between two representations that compare equal. |
| EntityWrites.WarmRead | src/entity.rs:555-617 | With a hint, point lookups find every old value that the index diff looks at, and every stale field. |
| EntityWrites.ColdRead | src/entity.rs:618-641 | Without a hint the range scan finds every old field. |
| EntityWrites.GetEntity | src/entity.rs:834-866 | Exactly the live fields, each once, or none. |
| EntityOps.DeleteEntity | src/entity.rs:765-831 | Deleting leaves the store of a put of nothing, with states on the way that miss no entry. |
| EntityOps.DeleteLeavesNothing | src/entity.rs:765-831 | If its indexes were exact, no key of the entity is left. |
| EntityOps.ApplyPatch | src/entity.rs:115-170 | The patched field list is the meaning of the patches on the old fields; a failing patch is reported as `InvalidArgument`. |
| EntityOps.WrappingAddIsModular | src/entity.rs:130-150 | Integer increments wrap modulo 2^64. |
| EntityOps.IncrementMeans | src/entity.rs:128-167 | An increment gives the sum modulo 2^64 of two integers or the sum of two floats, fails otherwise, and touches no other field. |
| EntityOps.EntityEqMeans | src/entity.rs:101-112 | Entities are equal exactly if they have the same names with pairwise equal values, in any order. |
| EntityOps.CasEntity | src/entity.rs:177-257 | A conflict exactly if an entity exists against `Absent`, a field is missing or unequal, or the entity is absent or differs in names or values, never against `Any`; then nothing is written, otherwise the store of putting the patched entity. |
| EntityOps.MatchesMeans | src/entity.rs:202-237 | The check on the field list decides exactly these conditions on the fields. |
| Hints.HintAfterPut | src/entity.rs:744-747 | A put makes its own hint the true field set and leaves all others true. |
| Hints.HintAfterCommit | src/entity.rs:1498-1504 | Dropping the hints of the touched entities keeps all remaining ones true. |
| Hints.EntityStore.Put | src/entity.rs:1022-1050 | In every valid store the hinted put has the result of the unhinted one, and hints stay true. |
| Hints.EntityStore.Delete | src/entity.rs:1094-1107 | The entity is deleted and its hint forgotten; hints stay true. |
| Hints.EntityStore.Cas | src/entity.rs:1060-1085 | The same conflicts; on success the store of a hinted put of the patched fields, on failure nothing changes. |
| Hints.EntityStore.Commit | src/entity.rs:1485-1504 | The pending writes reach the store and hints stay true. |
| Hints.EntityStore.CreateIndex | src/entity.rs:1110-1117 | Entities are untouched, this one index is added to the definitions and misses no entry; if all indexes were exact, all are. |
| Hints.EntityStore.DropIndex | src/entity.rs:1133-1140 | Entities are untouched, this one index is no longer defined, and the remaining ones stay exact. |
| Hints.EntityStore.CreateComposite | src/entity.rs:1122-1130 | The same for a composite index. |
| Hints.EntityStore.DropComposite | src/entity.rs:1143-1150 | The same for dropping one. |
| Indexes.Find | src/index.rs:138-170 | An error exactly without an index; otherwise distinct ids, each a hit, and all hits if no entry of the index is missing. |
| Indexes.FindComposite | src/index.rs:285-339 | Distinct ids that satisfy the bounds; with exact entries, apart from those of deleted tuples, an id is found if and only if the entity has all fields of the index and satisfies the bounds. |
| Indexes.AllFoundIff | src/index.rs:285-339 | A partly bound lookup finds every entity that satisfies the bounds if and only if each of them has all fields of the index or an old tuple in the range. |
| Indexes.FindFullyBound | src/index.rs:285-339 | With all components bound, exactly the entities that satisfy the bounds. |
| Indexes.PartlyBoundMisses | src/index.rs:285-339 | On a concrete store with exact indexes and no deleted key the lookup returns without the entity that satisfies its bounds. |
| Indexes.Clear | src/index.rs:408-420 | Removes exactly the entries of one index. |
| Indexes.Rebuild | src/index.rs:425-446 | From any stale start the index holds exactly the entries of the live values; no other key changes. |
| Indexes.RebuiltIsExact | src/index.rs:425-446 | A rebuilt index has an entry if and only if a live field has that value. |
| Indexes.ClearComposite | src/index.rs:342-351 | Removes exactly the entries of one composite index. |
| Indexes.RebuildComposite | src/index.rs:357-405 | From any stale start the composite index holds exactly the entries of the complete tuples; no other key changes. |
| Indexes.RebuiltTuplesCover | src/index.rs:357-405 | A rebuilt composite index misses no complete tuple. |
| IndexChanges.IndexCreated | src/entity.rs:1110-1117 | Rebuilding one index keeps all others exact and makes it exact. |
| IndexChanges.TuplesCreated | src/entity.rs:1122-1130 | The same for a composite index. |
| EntityRuns.NoFloatsNoTraps | src/entity.rs:651-655 | Without floats no put meets a pair on which equality and codes differ. |
| EntityRuns.Run | src/entity.rs:1022-1150 | After every run of puts, deletes, transactional puts and index changes without floats each entity is what was last written, and all indexes are exact. |
| EntityRuns.RunThenFind | src/index.rs:138-170 | After every such run an index lookup with any bounds equals a full scan, without duplicates. |
| Predicates.TestMeans | src/query/expression.rs:38-69 | A comparison holds by the order of values; on an absent field only `Ne` does. |
| Predicates.DnfEquivalent | src/query/planner.rs:62-123 | For every predicate and entity, absent fields included, some clause of the normal form holds if and only if the predicate does, and dually for its negation. |
| Predicates.NeIsNotEq | src/query/expression.rs:38-70 | `Ne` and the negation of `Eq` agree everywhere, also on absent fields. |
| Predicates.InvertedDiffers | src/query/planner.rs:57-61 | A negated comparison is not the inverted one: they differ on an absent field. |
| Predicates.DnfNonempty | src/query/planner.rs:62-123 | There is always a clause, and every clause has a literal. |
| BoundMerging.MergeBounds | src/query/planner.rs:311-332 | The loop computes the bounds tightened literal by literal. |
| BoundMerging.MergedIsImplied | src/query/planner.rs:311-332 | A value that satisfies the literals is within the merged bounds. |
| BoundMerging.MergedExactIff | src/query/planner.rs:256-332 | The merged bounds mean exactly the literals if and only if there is no `>` literal beside a `>=` or `=` literal at an equal value at which all other kinds of literals hold and no other `>` literal is stronger. |
| BoundMerging.GtTrapIsWithin | src/query/planner.rs:256-271 | That pair of literals exists if and only if the value of some `>` literal lies within the merged bounds. |
| BoundMerging.NoPairNoTrap | src/query/planner.rs:256-271 | Without a `>` and a `>=` or `=` literal at an equal value the merged bounds are exact. |
| BoundMerging.GtTrapExample | src/query/planner.rs:256-271 | `x > 5 AND x >= 5` lets 5 through. |
| IndexChoice.CheaperTransitive | src/query/planner.rs:231-247 | The cost comparison of two fields is transitive. |
| IndexChoice.CheaperIsTotal | src/query/planner.rs:231-247 | It decides between any two different fields, in one direction only. |
| IndexChoice.PickIndexField | src/query/planner.rs:184-225 | Nothing exactly if no literal has an index, otherwise the one field that is preferred to all others: an equality before a range, both ends before one, then the tighter bounds, then the smaller id. |
| IndexChoice.CheaperMeans | src/query/planner.rs:231-247 | The cost comparison of two fields is that preference, stated on the literals. |
| IndexChoice.LeadingMeans | src/query/planner.rs:382-396 | The bound components are the longest beginning of the field list with a literal on each field and an equality first on all but the last. |
| IndexChoice.PickComposite | src/query/planner.rs:354-410 | Nothing exactly if no index has a bound leading component, otherwise one that binds more components than every other, or as many with the lexicographically smaller field list. |
| Planner.ChosenKindFits | src/query/planner.rs:420-489 | A composite index is taken for two bound components or more, or if no field has an index; a single field otherwise; a full scan only if no index bounds anything. |
| Planner.PlanClause | src/query/planner.rs:420-489 | The source is the one that the best index of either kind gives, and the residual holds exactly the literals that it does not answer. |
| Planner.ClausesMean | src/query/planner.rs:579-590 | Some clause holds if and only if all filters do. |
| Planner.UnionBounds | src/query/planner.rs:493-521 | The loop computes the widened bounds over all clauses. |
| Planner.MakePlan | src/query/planner.rs:551-696 | Every clause gets the source of its best index; rows come from a limited scan in index order exactly if the query is sorted and limited, the field is indexed, and every clause bounds it. |
| PlanMeaning.LeadingPinned | src/query/planner.rs:382-396 | Every component of a composite plan before the last is pinned to one value. |
| PlanMeaning.SourceIsSuperset | src/query/planner.rs:420-489 | A source selects every entity for which its clause holds. |
| PlanMeaning.SourceExact | src/query/planner.rs:420-489 | A row that passes source and residual satisfies the clause if and only if it does not sit at the value of a `>` literal on a covered field. |
| PlanMeaning.PlanMeans | src/query/planner.rs:551-696 | For every entity the plan selects it if and only if the filters hold, except: with a single clause also rows at the value of a covered `>` literal, and in index order over several clauses not those at a lower end that only inclusive clauses contain; both exceptions are exact. |
| PlanMeaning.NoTrapMeans | src/query/planner.rs:311-332 | No row is misjudged if the clause holds no such pair of literals. |
| PlanMeaning.NoPairsNoTrap | src/query/planner.rs:256-271 | In particular if it holds no `>` and `>=` or `=` literals of one field at an equal value. |
| PlanMeaning.TrapSelectsTooMuch | src/query/planner.rs:265-269 | `x > 5 AND x >= 5` with an index on x selects x = 5. |
| PlanMeaning.UnionSelects | src/query/planner.rs:493-521 | A row of some clause is within the united bounds if and only if it does not sit at a lower end at which one clause is exclusive and no clause begins below. |
| PlanMeaning.UnionExactIff | src/query/planner.rs:493-521 | The united bounds hold every value of every clause if and only if no two clauses share the least lower value, one exclusive and one that contains it. |
| PlanMeaning.LostAtIs | src/query/planner.rs:501-508 | The united lower bound is exclusive at a value if and only if a clause is exclusive there and none begins below, in terms of the literals. |
| PlanMeaning.LostExample | src/query/planner.rs:501-508 | `x > 5 OR x >= 5`, sorted by x with a limit, loses x = 5. |
| Ranking.SortRows | src/query/executor.rs:420-453 | The same rows, by value in the direction asked for, missing fields first when ascending and last when descending, ties by ascending entity id. |
| Ranking.RowCmpMeans | src/query/executor.rs:420-453 | The comparison of the sort is that order. |
| Ranking.RowCmpTransitive | src/query/executor.rs:420-453 | The sort order is transitive, missing fields and ties included. |
| Ranking.SortIsUnique | src/query/executor.rs:420-453 | With distinct entities there is only one sorted result. |
| Assembling.ScanAssembler.Next | src/query/executor.rs:205-259 | The iterator returns one by one the entities gathered from consecutive rows, and nothing after the last. |
| Assembling.GatheredIsExact | src/query/executor.rs:167-184 | Assembling the rows of a collection gives every entity with a live field exactly once, with exactly its fields. |
| OrderedScan.OrderStream | src/query/executor.rs:326-414 | Every row is a hit; if the index is exact apart from deleted entries, every hit is among the rows, and they are the hits, each once, in sort order, if and only if no row comes from a deleted entry of a hit. |
| OrderedScan.OrderExactIff | src/query/executor.rs:326-414 | For the rows of any scan of the range: the candidates come out as the hits, each once and in order, if and only if no scanned row is a deleted entry of a hit. |
| OrderedScan.UpdatedTwice | src/query/executor.rs:347-352 | On a concrete store, in which one indexed field was updated once, the scan in index order returns the entity twice. |
| Executor.CandidateIds | src/query/executor.rs:128-163 | Fails exactly on plans that yield no ids or lack an index; otherwise distinct ids of selected entities, all of them if the indexes serve. |
| Executor.Exec | src/query/executor.rs:61-123 | Fails exactly on plans that cannot run; otherwise true rows of selected entities, and, if the indexes serve, each once, in the order of the plan and, limits aside, all of them. |
| Queries.RunQuery | src/query/executor.rs:40-58 | A query never fails and returns true rows; if the indexes used serve and no entity is misjudged, it returns the first rows, in the order asked for, of exactly the entities that satisfy the filters. |
| Queries.ExactIndexesServe | src/query/planner.rs:420-489 | Exact indexes serve every plan, given that composite indexes in use are fully bound or miss no entity, and that no deleted entry in the range of an ordering index belongs to an entity that is still a hit. |
| Queries.PlainIsWellJudged | src/query/planner.rs:551-696 | Filters without a trap, and without tied lower ends under index order, are judged right for every entity. |
| Queries.CorrectIsUnique | src/query/executor.rs:40-58 | A sorted query has one correct answer, so indexes do not show in it. |
| Queries.RunThenQuery | src/entity.rs:1183-1208 | After every run of writes and index changes a query free of those cases (trap, tie, old entry of a hit, missed composite) returns exactly what was last written of the entities that satisfy its filters. |
| Aggregates.AggregateRows | src/query/executor.rs:485-584 | The row count; over integers the exact sum if it fits 64 bits and the nearest limit otherwise, and the exact extreme; nothing if there is no integer. |
| Aggregates.NeverSaturates | src/query/executor.rs:501-507 | The 128-bit accumulator never saturates. |
| Aggregates.TotalPermutes | src/query/executor.rs:485-584 | The sum does not depend on the order of the rows. |

## Left out

- Runs.Run: transaction ids are assumed not to reach 2^64. A crash is assumed to leave a
  whole-record prefix of the log (`Wal.TornLogIsOperationPrefix` covers the reading of others);
  appending behind a torn tail (src/wal.rs:40) is not modelled. No crash is placed between saving
  the manifest and completing the log, where `TornFlushExact` gives the condition, unless the log
  was complete, nor inside garbage collection.
- DatabaseModel.Database.Flush: in the window after the manifest was saved a crash is covered only
  under the condition of `TornFlushExact`.
- EntityWrites.PutEntity: proved over `Store.Mutator`; `DirectMutators` and `TxMutators` prove that
  engine and transaction keep its contract, but no theorem runs the entity layer on their bytes.
- EntityWrites.PutNeverMisses: excludes values that change only between representations the
  language calls equal, as the entry of such a value is not rewritten (src/entity.rs:651).
- EntityRuns.Run: runs without floats in indexed or other fields, and without conditional updates;
  `Hints.EntityStore.Cas` shows that these go through the same put.
- Planner.MakePlan: models plans of the shape Limit?(Sort?(Filter*(Collection))) over an existing
  collection; the original flattens any nesting (src/query/planner.rs:558-577).
- Executor.Exec: yields rows at once instead of through iterators; early stopping under a limit is
  not modelled, nor are errors while rows are pulled.
- Aggregates.AggregateRows: only fields without floats, and no average.
- DirectMutators.DirectMutator.Put: values of 2^32 bytes or more are excluded, as their stored
  length would be truncated.
- Codec.DecodeEncode: strings and byte fields below 2^32 bytes, for the same reason.
- File handles, fsync, table cache and reader forks, backup and restore, the VERSION file, command
  line, diagnostics.
- The table footer with its magic number, the text forms of manifest and schema, and the
  conversion of the old level-1 layout.
- Checks that keys, ids and strings are UTF-8.
- I/O errors that leave an operation half done; files are created, replaced and deleted as a whole,
  and a deletion may fail silently.
- Names of collections and fields and the schema's id maps; duplicate names in one entity
  (src/entity.rs:42-44) are excluded.
- Composite index ids are never used again; an index that is being built is not one of the
  definitions until it is READY.
- The query language, explain texts and projection.
- Direct puts, deletes and conditional updates are several writes, not atomic; only the states
  between the writes are described.
