# Decommitter oracle and VM utilities, modelled in Dafny

This project models two pieces of the zkSync multi-VM crate.

**The bytecode decommitter oracle** (`vm_m6/oracles/decommitter.rs`). It resolves a code hash to bytecode words.
- It looks first in a history-recorded cache (`known_bytecodes`), then in storage.
- It "decommits" the words into a code page of VM memory, one word write per index.
- It records which hashes already have a page (`decommitted_code_hashes`) and logs every request (`decommitment_requests`).
- All three recorders roll back to a timestamp when the VM reverts.

The oracle is a Dafny `class` whose methods update those three fields. Each field is a history recorder: a container paired with an undo log, with one log entry per change when history is on.

**The m5 utilities** (`vm_m5/utils.rs`):
- the page numbers a call frame derives from its base page;
- the extractor that reads an arbitrary, possibly unaligned byte window out of a page of 256-bit words, and its fat-pointer and primitive-value wrappers;
- the big- and little-endian byte views of a 256-bit word;
- the linear suffix collectors of log queries stamped at or after a timestamp;
- the binary-search count of precompile calls at or after a timestamp.

Files and modules:
- `primitives.dfy` (`Primitives`): `u16`, `u32`, the timestamp and page types, `Option`, `Result`, the `Fault` values that stand for the source's panics, and `u32` wrap-around arithmetic.
- `codec.dfy` (`Codec`): 256-bit words, their big- and little-endian bytes with round trips, and `bytes_to_be_words`.
- `timestamps.dfy` (`Timestamps`): the trailing-run count, the binary-search partition point, the log query records and the suffix collectors, each with a reference definition and the lemmas that connect the two.
- `history.dfy` (`HistoryRecorder`): the keyed recorder (`MapHistory`) and the push-only recorder (`VecHistory`) as values, with the rollback lemmas.
- `memory.dfy` (`VmMemory`): the VM memory as a class whose cells map (page, index) to a word, with the two operations this core calls.
- `page_dump.dfy` (`PageDump`): the frame page helpers, the byte-window extractor (imperative, with its nested loops) and its wrappers, and the lemma that extracting any window of a stored bytecode gives that slice back.
- `decommitter.dfy` (`Decommitter`): the storage collaborator, the oracle class and its operations, and four scenario methods. They show that a second decommit is a repeat, that a rollback to a decommit's timestamp forgets the decommit, and that after fresh, repeat and rollback the next decommit is fresh again with the first decommit's answer.

The panics this model covers become `Err(...)` results: the two bound asserts of the page dump and the `expect` on an unknown hash. The other panics are listed under "## Left out".

## Model

| member | source | states |
|---|---|---|
| Primitives.WrappingAdd | core/lib/multivm/src/versions/vm_m5/utils.rs:72 | `u32` addition: the plain sum when it fits, otherwise the sum minus 2^32 |
| Primitives.WrappingSub | core/lib/multivm/src/versions/vm_m5/utils.rs:73 | `u32` subtraction: the plain difference when `b <= a`, otherwise the difference plus 2^32 |
| Codec.IntoBeIter | core/lib/multivm/src/versions/vm_m5/utils.rs:179-186 | `into_be_iter` yields 32 bytes, most significant first: read back as a big-endian number they are the word |
| Codec.BeBytesRoundTrip | core/lib/multivm/src/versions/vm_m5/utils.rs:179-186 | a number below 256^n is recovered from its n big-endian digits |
| Codec.FromBeBytesRoundTrip | core/lib/multivm/src/versions/vm_m5/utils.rs:179-186 | any byte string is the big-endian digit string of the number it denotes |
| Codec.LeBytesIsReversedBeBytes | core/lib/multivm/src/versions/vm_m5/utils.rs:168-187 | the little-endian digits are the big-endian digits reversed |
| Codec.IntoLeIter | core/lib/multivm/src/versions/vm_m5/utils.rs:170-177 | `into_le_iter` yields 32 bytes, exactly the reverse of `into_be_iter` |
| Codec.U256FromBigEndian | core/lib/multivm/src/versions/vm_m6/oracles/decommitter.rs:64 | the word read from 32 big-endian bytes yields those same 32 bytes |
| Codec.BytesToBeWords | core/lib/multivm/src/versions/vm_m6/oracles/decommitter.rs:64 | a word-aligned bytecode becomes `len / 32` words whose big-endian bytes, concatenated, are the bytecode |
| Timestamps.TrailingCount | core/lib/multivm/src/versions/vm_m6/oracles/decommitter.rs:89-94 | the `rev().take_while(t >= from).count()` count: every timestamp in the trailing run is `>= from`, and the one just before the run is `< from` |
| Timestamps.CountAtOrAfterOfSorted | core/lib/multivm/src/versions/vm_m5/utils.rs:224-226 | on sorted timestamps the trailing run is exactly the set of timestamps `>= from`, wherever they stand |
| Timestamps.PartitionPoint | core/lib/multivm/src/versions/vm_m5/utils.rs:231 | `partition_point(t < from)` returns an index within bounds; on input partitioned by `t < from` (sorted or not) everything before it is `< from` and everything from it on is `>= from` |
| Timestamps.SortedIsPartitioned | core/lib/multivm/src/versions/vm_m5/utils.rs:224-231 | sorted timestamps are partitioned by `t < from` for every `from`, so the documented sorted input meets the partition point's precondition |
| Timestamps.PartitionPointOnPartitionedUnsorted | core/lib/multivm/src/versions/vm_m5/utils.rs:231 | the partition point is defined beyond sorted input: `[1, 5, 3]` is not sorted but is partitioned by `t < 2`, its partition point is 1 and the count is 2 |
| Timestamps.PartitionEndsTrailingRun | core/lib/multivm/src/versions/vm_m5/utils.rs:231 | a split point with everything before it `< from` and everything after it `>= from` starts the trailing run |
| Timestamps.TrailingRunUnique | core/lib/multivm/src/versions/vm_m5/utils.rs:231 | a maximal run of timestamps `>= from` at the end of the sequence has length `TrailingCount` |
| Timestamps.PrecompileCallsCountAfterTimestamp | core/lib/multivm/src/versions/vm_m5/utils.rs:227-232 | `len - partition_point` is at most `len`; on input partitioned by `t < from`, sorted input in particular, it is the length of the trailing run `>= from` |
| Timestamps.PrecompileCallsCountIsCountAtOrAfter | core/lib/multivm/src/versions/vm_m5/utils.rs:224-232 | on sorted input the count is the number of timestamps `>= from_timestamp` |
| Timestamps.SuffixAtOrAfter | core/lib/multivm/src/versions/vm_m5/utils.rs:213-221 | `rev().take_while(..).collect().rev()` returns the suffix of the input, in its original order, whose length is the trailing-run count |
| Timestamps.CollectLogQueriesAfterTimestamp | core/lib/multivm/src/versions/vm_m5/utils.rs:209-222 | the result is a suffix of the log, its length the trailing run of log timestamps `>= from_timestamp` |
| Timestamps.CollectStorageLogQueriesAfterTimestamp | core/lib/multivm/src/versions/vm_m5/utils.rs:191-205 | the same for storage log queries, on `log_query.timestamp` |
| Timestamps.CollectedLogQueriesAreTrailingRun | core/lib/multivm/src/versions/vm_m5/utils.rs:207-222 | query by query: the result is the log's tail; every collected query is stamped `>= from_timestamp`; the query just before the tail, if any, is stamped earlier |
| Timestamps.CollectedStorageLogQueriesAreTrailingRun | core/lib/multivm/src/versions/vm_m5/utils.rs:189-205 | the same for storage log queries |
| Timestamps.SuffixIsFilterWhenSorted | core/lib/multivm/src/versions/vm_m5/utils.rs:207-222 | on sorted timestamps the suffix collection equals the filter `timestamp >= from`, in order |
| Timestamps.CollectLogQueriesIsFilterWhenSorted | core/lib/multivm/src/versions/vm_m5/utils.rs:207-222 | on a sorted log, the collected queries are exactly the queries stamped `>= from_timestamp` |
| Timestamps.CollectStorageLogQueriesIsFilterWhenSorted | core/lib/multivm/src/versions/vm_m5/utils.rs:189-205 | the same for storage log queries |
| Timestamps.CountAgreesWithCollection | core/lib/multivm/src/versions/vm_m5/utils.rs:209-232 | on a sorted log, the binary-search count equals the length of the linear suffix collection, for every threshold |
| HistoryRecorder.MapHistory.Get | core/lib/multivm/src/versions/vm_m6/oracles/decommitter.rs:50 | a lookup finds a value exactly when the key is present, and it is the stored value |
| HistoryRecorder.MapHistory.UndoLast | core/lib/multivm/src/versions/vm_m6/oracles/decommitter.rs:156-158 | undoing the newest record drops it from the log |
| HistoryRecorder.MapHistory.Insert | core/lib/multivm/src/versions/vm_m6/oracles/decommitter.rs:65 | the key now maps to the value and every other key is unchanged; with history on, the log gains one entry stamped with the timestamp and holding the previous value, and undoing that entry restores the recorder exactly; with history off the log is unchanged |
| HistoryRecorder.MapHistory.RollbackToTimestamp | core/lib/multivm/src/versions/vm_m6/oracles/decommitter.rs:156-158 | the log is cut to a prefix; every dropped record was stamped `>= t`; the newest kept record is stamped `< t` |
| HistoryRecorder.MapHistory.RollbackPopsTrailingRun | core/lib/multivm/src/versions/vm_m6/oracles/decommitter.rs:155-160 | a rollback to `t` pops exactly the trailing run of records stamped `>= t` |
| HistoryRecorder.MapHistory.DeleteHistory | core/lib/multivm/src/versions/vm_m6/oracles/decommitter.rs:148-149 | the log is emptied and the contents are kept |
| HistoryRecorder.EmptyMapHistory | core/lib/multivm/src/versions/vm_m6/oracles/decommitter.rs:41-42 | a default recorder is an empty map with an empty log |
| HistoryRecorder.VecHistory.Push | core/lib/multivm/src/versions/vm_m6/oracles/decommitter.rs:173 | the value is appended; with history on, the log gains the timestamp; the log never outgrows the vector |
| HistoryRecorder.VecHistory.RollbackToTimestamp | core/lib/multivm/src/versions/vm_m6/oracles/decommitter.rs:159 | the log and the vector each lose the same number of trailing entries; every popped entry was stamped `>= t`, and the newest remaining one is stamped `< t` |
| HistoryRecorder.VecHistory.DeleteHistory | core/lib/multivm/src/versions/vm_m6/oracles/decommitter.rs:150 | the log is emptied and the contents are kept |
| HistoryRecorder.EmptyVecHistory | core/lib/multivm/src/versions/vm_m6/oracles/decommitter.rs:43 | a default vector recorder is empty and well formed |
| HistoryRecorder.InsertAll | core/lib/multivm/src/versions/vm_m6/oracles/decommitter.rs:73-75 | a run of inserts extends the log by one record per insert, each stamped with its own timestamp, and keeps the old log as a prefix |
| HistoryRecorder.InsertAllPrefixStep | core/lib/multivm/src/versions/vm_m6/oracles/decommitter.rs:73-75 | running one more insert of the list is one more `insert` call |
| HistoryRecorder.InsertAllLastWins | core/lib/multivm/src/versions/vm_m6/oracles/decommitter.rs:71-75 | after a run of inserts, a key maps to the value of its last insert |
| HistoryRecorder.InsertAllUntouched | core/lib/multivm/src/versions/vm_m6/oracles/decommitter.rs:71-75 | a key that no insert names keeps its lookup result |
| HistoryRecorder.RollbackUndoesLaterInserts | core/lib/multivm/src/versions/vm_m6/oracles/decommitter.rs:155-160 | if no logged change is stamped `>= t`, any run of inserts stamped `>= t` followed by a rollback to `t` gives back the original recorder |
| HistoryRecorder.InsertAllAppend | core/lib/multivm/src/versions/vm_m6/oracles/decommitter.rs:73-75 | running inserts `a` and then `b` is running `a + b` |
| HistoryRecorder.RollbackUndoesSuffix | core/lib/multivm/src/versions/vm_m6/oracles/decommitter.rs:155-160 | if the recorder after inserts `before` has nothing logged at `t` or later, then further inserts stamped `>= t` and a rollback to `t` give back that recorder |
| HistoryRecorder.InsertAllEarlierStaysQuiet | core/lib/multivm/src/versions/vm_m6/oracles/decommitter.rs:73-75 | inserts stamped before `t` on a recorder with nothing logged at `t` or later leave nothing logged at `t` or later |
| HistoryRecorder.RollbackToKth | core/lib/multivm/src/versions/vm_m6/oracles/decommitter.rs:155-160 | after inserts stamped t1 < … < tn on a recorder with nothing logged at t1 or later, a rollback to tk gives the recorder as it was after the first k - 1 inserts |
| HistoryRecorder.RollbackQuietIsIdentity | core/lib/multivm/src/versions/vm_m6/oracles/decommitter.rs:155-160 | a rollback past every logged change changes nothing |
| HistoryRecorder.RollbackUndoesInsert | core/lib/multivm/src/versions/vm_m6/oracles/decommitter.rs:210-211 | one insert stamped `>= t`, then a rollback to `t`, gives back the original recorder |
| HistoryRecorder.RollbackUndoesInsertIfAbsent | core/lib/multivm/src/versions/vm_m6/oracles/decommitter.rs:58-65 | the cache fill of `get_bytecode` (insert only when absent) is likewise undone by a rollback to its timestamp |
| HistoryRecorder.RollbackIdempotent | core/lib/multivm/src/versions/vm_m6/oracles/decommitter.rs:155-160 | a second rollback, to the same or a later timestamp, changes nothing |
| HistoryRecorder.VecRollbackIdempotent | core/lib/multivm/src/versions/vm_m6/oracles/decommitter.rs:159 | the same for the vector recorder |
| HistoryRecorder.VecHistory.RollbackPopsNewest | core/lib/multivm/src/versions/vm_m6/oracles/decommitter.rs:159 | when the newest push is stamped `>= t`, a rollback to `t` pops it and then rolls back the rest |
| HistoryRecorder.VecHistory.RollbackIsPopWhileAtOrAfter | core/lib/multivm/src/versions/vm_m6/oracles/decommitter.rs:159 | the vector recorder's rollback equals the reference that undoes the newest push, one at a time, while it is stamped `>= t` |
| HistoryRecorder.InsertAbsentKeepsFirstInsertsOnly | core/lib/multivm/src/versions/vm_m6/oracles/decommitter.rs:87-88 | inserting only absent keys keeps "one record per key, each a first insert" |
| HistoryRecorder.DeleteHistoryKeepsFirstInsertsOnly | core/lib/multivm/src/versions/vm_m6/oracles/decommitter.rs:148 | an emptied log has that shape trivially |
| HistoryRecorder.UndoLastKeepsFirstInsertsOnly | core/lib/multivm/src/versions/vm_m6/oracles/decommitter.rs:156-157 | in such a log, undoing the newest record removes exactly its key, so the map shrinks by one, and the shape is kept |
| HistoryRecorder.RollbackKeepsFirstInsertsOnly | core/lib/multivm/src/versions/vm_m6/oracles/decommitter.rs:156-157 | a rollback keeps the shape and only ever removes keys |
| HistoryRecorder.RollbackForgetsTrailingKeys | core/lib/multivm/src/versions/vm_m6/oracles/decommitter.rs:86-95 | in such a log, the trailing run stamped `>= t` has as many records as the keys a rollback to `t` removes |
| VmMemory.Memory.SpecializedCodeQuery | core/lib/multivm/src/versions/vm_m6/oracles/decommitter.rs:218 | one query writes its value at its (page, index) and is logged as issued |
| VmMemory.Memory.DumpPageContentAsWords | core/lib/multivm/src/versions/vm_m5/utils.rs:99-100 | `to - from` words, word `i` being the page's word `from + i` (zero if never written) |
| PageDump.CodePageCandidateFromBase | core/lib/multivm/src/versions/vm_m5/utils.rs:38-40 | the code page is the base page |
| PageDump.StackPageFromBase | core/lib/multivm/src/versions/vm_m5/utils.rs:42-44 | the stack page is `base + 1`, wrapping to 0 at the top of `u32` |
| PageDump.HeapPageFromBase | core/lib/multivm/src/versions/vm_m5/utils.rs:46-48 | the heap page is `base + 2`, wrapping at 2^32 |
| PageDump.AuxHeapPageFromBase | core/lib/multivm/src/versions/vm_m5/utils.rs:50-52 | the aux heap page is `base + 3`, wrapping at 2^32 |
| PageDump.FramePagesAreConsecutive | core/lib/multivm/src/versions/vm_m5/utils.rs:38-52 | away from the top of the page space, code, stack, heap and aux heap are four consecutive pages |
| PageDump.WordRange | core/lib/multivm/src/versions/vm_m5/utils.rs:90-95 | the first word holds `offset`; the end word is the ceiling of `(offset + length) / 32`; together they cover the unaligned window |
| PageDump.DumpResult | core/lib/multivm/src/versions/vm_m5/utils.rs:83-88 | the reference result: `offset >= 2^24` fails first, then `length >= 2^24`; otherwise exactly `length` bytes |
| PageDump.PushWordBytes | core/lib/multivm/src/versions/vm_m5/utils.rs:109-121 | the inner loop appends bytes `skip..` of the word, at most `remaining` of them, and reduces `remaining` by the number pushed |
| PageDump.DumpStep | core/lib/multivm/src/versions/vm_m5/utils.rs:104-123 | after word `w` the output is the window's bytes up to the end of that word, or the whole window if that comes first |
| PageDump.DumpWords | core/lib/multivm/src/versions/vm_m5/utils.rs:102-123 | the outer loop outputs exactly `length` bytes of the words' big-endian bytes, starting at `unalignment` |
| PageDump.DumpedWindow | core/lib/multivm/src/versions/vm_m5/utils.rs:97-105 | that window of the words read is the page's byte window `[offset, offset + length)` |
| PageDump.DumpMemoryPageByOffsetAndLength | core/lib/multivm/src/versions/vm_m5/utils.rs:77-135 | the two bound assertions fail as `Err`, checked in source order; otherwise the result is bytes `[offset, offset + length)` of the page read as big-endian words, which also gives the asserted length; `length == 0` gives the empty string |
| PageDump.DumpMemoryPageUsingFatPointer | core/lib/multivm/src/versions/vm_m5/utils.rs:65-75 | the pointer's page, from `start + offset` for `length - offset` bytes (both `u32`, wrapping) |
| PageDump.DumpMemoryPageUsingPrimitiveValue | core/lib/multivm/src/versions/vm_m5/utils.rs:54-63 | a value not marked as a pointer yields empty bytes; a pointer is decoded, then dumped as a fat pointer |
| PageDump.PageBytesInWords | core/lib/multivm/src/versions/vm_m5/utils.rs:99-105 | any byte window inside a run of a page's words is that window of the words' big-endian bytes |
| PageDump.PageBytesOfStoredWords | core/lib/multivm/src/versions/vm_m5/utils.rs:77-135 | on a page that starts with the words `ws`, a window inside them reads back as that slice of `ws`'s bytes |
| PageDump.ExtractionRoundTrip | core/lib/multivm/src/versions/vm_m5/utils.rs:77-135 | a page holding a bytecode's words yields, for any in-bounds window, exactly that slice of the bytecode |
| Decommitter.BytecodeLenInWords | core/lib/multivm/src/versions/vm_m6/oracles/decommitter.rs:184-185 | the length read from the hash is bytes 2 and 3 of its big-endian form, read as a big-endian `u16` |
| Decommitter.Storage.LoadFactoryDep | core/lib/multivm/src/versions/vm_m6/oracles/decommitter.rs:58-62 | a stored bytecode is found exactly when its hash is in storage |
| Decommitter.CodeWrites | core/lib/multivm/src/versions/vm_m6/oracles/decommitter.rs:196-227 | one code-page write per word, word `i` going to index `i as u32` with the template's other fields |
| Decommitter.CodeWritesStep | core/lib/multivm/src/versions/vm_m6/oracles/decommitter.rs:215-227 | one more loop iteration updates exactly one more cell, at the word's own index |
| Decommitter.CodeWritesStore | core/lib/multivm/src/versions/vm_m6/oracles/decommitter.rs:215-227 | after the copy loop, index `i` of the page holds word `i` |
| Decommitter.CodeWritesKeepOthers | core/lib/multivm/src/versions/vm_m6/oracles/decommitter.rs:215-227 | every cell outside the first `len` indices of the page is as it was |
| Decommitter.CodeWritesFillPage | core/lib/multivm/src/versions/vm_m6/oracles/decommitter.rs:213-227 | both of the above at once |
| Decommitter.TotalWordsRemove | core/lib/multivm/src/versions/vm_m6/oracles/decommitter.rs:111-116 | the word total over the cache does not depend on the order the entries are summed in |
| Decommitter.TotalWordsInsert | core/lib/multivm/src/versions/vm_m6/oracles/decommitter.rs:111-116 | caching one more bytecode adds its word count to the total |
| Decommitter.PopulateLastBytecodeWins | core/lib/multivm/src/versions/vm_m6/oracles/decommitter.rs:71-76 | after `populate`, a hash listed several times maps to its last listed bytecode |
| Decommitter.PopulateKeepsUnlisted | core/lib/multivm/src/versions/vm_m6/oracles/decommitter.rs:71-76 | after `populate`, a hash not in the list has its old cache entry, or none |
| Decommitter.DecommittedPageDumpsStoredBytes | core/lib/multivm/src/versions/vm_m6/oracles/decommitter.rs:189-227 | after a fresh decommit of a stored bytecode, any in-bounds window extracted from its page is that slice of the stored bytes |
| Decommitter.DecommitterOracle.constructor | core/lib/multivm/src/versions/vm_m6/oracles/decommitter.rs:38-45 | a new oracle has three empty recorders; the page map always records history |
| Decommitter.DecommitterOracle.ResolvedBytecode | core/lib/multivm/src/versions/vm_m6/oracles/decommitter.rs:49-69 | a hash resolves to the cached words, else to the stored bytes as big-endian words, else to nothing |
| Decommitter.DecommitterOracle.GetBytecode | core/lib/multivm/src/versions/vm_m6/oracles/decommitter.rs:49-69 | cache hit: the cached words, cache unchanged; cache miss with a stored bytecode: its words, and one insert into the cache under `timestamp`; otherwise the "unexisting hash" failure with the cache unchanged |
| Decommitter.DecommitterOracle.Populate | core/lib/multivm/src/versions/vm_m6/oracles/decommitter.rs:72-76 | the cache after the loop is the cache after that run of inserts, in list order, all under `timestamp` |
| Decommitter.DecommitterOracle.GetUsedBytecodeHashes | core/lib/multivm/src/versions/vm_m6/oracles/decommitter.rs:78-84 | the result lists exactly the keys of the page map, each once |
| Decommitter.DecommitterOracle.GetDecommittedBytecodesAfterTimestamp | core/lib/multivm/src/versions/vm_m6/oracles/decommitter.rs:86-95 | the count is the longest trailing run of the page map's log stamped `>= timestamp` |
| Decommitter.DecommitterOracle.AfterTimestampCountsForgottenHashes | core/lib/multivm/src/versions/vm_m6/oracles/decommitter.rs:86-95 | each record in the page map's log is the first insert of a distinct hash that still has a page (at most one record per hash, none after `delete_history`), so the count after `timestamp` is the number of hashes a rollback to `timestamp` forgets |
| Decommitter.DecommitterOracle.GetSize | core/lib/multivm/src/versions/vm_m6/oracles/decommitter.rs:109-121 | 32 bytes per cached word over every cached bytecode, plus 40 bytes per page-map entry |
| Decommitter.DecommitterOracle.DeleteHistory | core/lib/multivm/src/versions/vm_m6/oracles/decommitter.rs:147-151 | all three recorders forget their logs and keep their contents |
| Decommitter.DecommitterOracle.RollbackToTimestamp | core/lib/multivm/src/versions/vm_m6/oracles/decommitter.rs:154-160 | all three recorders roll back to the same timestamp, and the oracle's invariant is kept |
| Decommitter.DecommitterOracle.DecommitIntoMemory | core/lib/multivm/src/versions/vm_m6/oracles/decommitter.rs:167-232 | every call pushes one request; with history on, its timestamp is logged. Repeat: the stored page, `is_fresh = false`, the length from the hash, no bytes returned, nothing else changes. Unknown hash: the failure, maps and memory unchanged. Fresh: `is_fresh = true`, length `len as u16`, the page recorded, the cache filled if it missed, one write per word into the page, and the words returned only in witness mode |
| Decommitter.WriteCodePage | core/lib/multivm/src/versions/vm_m6/oracles/decommitter.rs:196-227 | the copy loop issues exactly the code writes of the words, in order, and the cells are those writes applied |
| Decommitter.DecommitThenRepeat | core/lib/multivm/src/versions/vm_m6/oracles/decommitter.rs:174-187 | a second decommit of a freshly decommitted hash is a repeat: the first page, the length from the hash, no bytes returned, both maps as the first call left them, and no more memory queries or cell changes |
| Decommitter.DecommitThenRollback | core/lib/multivm/src/versions/vm_m6/oracles/decommitter.rs:189-211 | with nothing logged at or after the decommit's timestamp, a fresh decommit followed by a rollback to that timestamp leaves both maps as before, so the hash has no page; the memory writes stay |
| Decommitter.DecommitRepeatThenRollback | core/lib/multivm/src/versions/vm_m6/oracles/decommitter.rs:155-211 | fresh, then repeat, then a rollback to the fresh decommit's timestamp: both maps as before; only the fresh decommit wrote to memory |
| Decommitter.DecommitRepeatRollbackRedecommit | core/lib/multivm/src/versions/vm_m6/oracles/decommitter.rs:155-232 | after fresh, repeat and rollback, the next decommit of the hash is fresh again, with the first decommit's answer and the page recorded anew; memory has seen the code writes of the two fresh decommits only |

## Left out

- `HistoryRecorder` and its source file are not part of this model. The recorder is modelled from its use in the oracle: a container plus an undo log of (timestamp, record). Rollback pops records stamped at or after the timestamp, newest first. With history off, nothing is logged.
- HistoryRecorder.VecHistory: the vector recorder is modelled as push-only, which is the only way the oracle uses it. Its rollback pops the whole trailing run at once; `RollbackIsPopWhileAtOrAfter` proves this equal to popping push by push.
- Decommitter.DecommitterOracle.RollbackToTimestamp requires history to be on. The source implements `rollback_to_timestamp` only for the history-enabled oracle.
- Storage: `Storage`, `StoragePtr` and `load_factory_dep` are reduced to a map from hash to word-aligned bytecode. `u256_to_h256` is the identity on the hash.
- Codec.BytesToBeWords: `bytes_to_be_words` is defined only for bytecodes whose length is a multiple of 32. Its assertion on other lengths is not modelled.
- Decommitter.BytecodeLenInWords: the hash layout (bytes 2 and 3, big-endian) follows the zkSync bytecode hash format. Its source file is not part of this model.
- PageDump.DumpMemoryPageUsingPrimitiveValue: `FatPointer::from_u256` is a parameter. Its bit layout lives in the VM crate, which is not part of this model.
- The `Memory` trait and `SimpleMemory` are reduced to a map from (page, index) to a word. `monotonic_cycle_counter` is passed on and has no effect. `dump_page_content_as_u256_words` reads unwritten cells as zero.
- PageDump.StackPageFromBase, PageDump.HeapPageFromBase, PageDump.AuxHeapPageFromBase and PageDump.DumpMemoryPageUsingFatPointer: `u32` addition and subtraction wrap around, which is release-build behaviour. A debug build panics on overflow instead, and that is not modelled.
- Decommitter.DecommitterOracle.DecommitIntoMemory: `decommitted_length` is `values.len() as u16`, so it truncates modulo 2^16, and the model keeps that truncation. The memory index `i as u32` likewise wraps modulo 2^32. The page-content lemmas (`CodeWritesFillPage`, `DecommittedPageDumpsStoredBytes`) therefore assume at most 2^32 words.
- Decommitter.DecommitterOracle.DecommitIntoMemory: the two copy loops, with and without witness mode, write the same queries. They are one method, `WriteCodePage`; the mode decides only whether the words are returned.
- Decommitter.DecommitterOracle.GetUsedBytecodeHashes: the order of the result is not modelled. It follows hash-map iteration order, which is unspecified.
- Decommitter.DecommitterOracle.GetSize: `size_of::<U256>()` and `size_of::<(U256, u32)>()` are the constants 32 and 40. `usize` overflow is not modelled.
- Timestamps.PartitionPoint: on input that is not partitioned by `t < from`, `partition_point` returns an unspecified index. The model returns the index its binary search reaches and promises only the bounds.
- Timestamps.CollectLogQueriesAfterTimestamp and Timestamps.CollectStorageLogQueriesAfterTimestamp: the iterator chain is modelled as a suffix computed from the log's timestamps, taken as a separate sequence. The timestamp conversion `glue_into` is the identity.
- PageDump.DumpMemoryPageByOffsetAndLength: the final `assert_eq!` on the output length is proved to hold, so it has no error path. Allocation (`with_capacity`) is not modelled.
- Not modelled:
  - `get_history_size`: a metrics estimate that depends on Rust memory layout.
  - `get_storage` and `get_decommitted_code_hashes_with_history`: they only return handles.
  - `BASE_SYSTEM_CONTRACTS`: loaded from disk.
  - `create_test_block_params`: a test fixture.
  - `VmExecutionResult`, and the gas, timestamp and calldata constants.
  - The page constants `INITIAL_BASE_PAGE` and `ENTRY_POINT_PAGE`: no modelled operation uses them.
  - The `FixedLengthIterator` traits: they are represented by 32-element sequences.
  - The prover API types: serde data types with no logic.
