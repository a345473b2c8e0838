/**
 * The bytecode decommitter oracle: resolves code hashes to words, loads them into
 * code pages, remembers which hashes already have a page, and rolls that bookkeeping
 * back on revert.
 */
module Decommitter {
  import opened Primitives
  import opened Codec
  import opened Timestamps
  import opened HistoryRecorder
  import opened VmMemory
  import opened PageDump

  type CodeHash = U256

  /** A request to decommit `hash` into `memoryPage`, completed by the oracle. */
  datatype DecommittmentQuery = DecommittmentQuery(
    hash: CodeHash,
    timestamp: Timestamp,
    memoryPage: MemoryPage,
    decommittedLength: u16,
    isFresh: bool)

  /** `bytecode_len_in_words`: bytes 2 and 3 of the big-endian hash, read as a big-endian `u16`. */
  function BytecodeLenInWords(hash: CodeHash): (n: u16)
    ensures n == FromBeBytes(IntoBeIter(hash)[2..4])
  {
    var h := IntoBeIter(hash);
    assert h[2..4][..1] == [h[2]];
    (h[2] as int) * 256 + (h[3] as int)
  }

  /** The storage collaborator: bytecodes ("factory dependencies") by hash. */
  class Storage {
    var factoryDeps: map<CodeHash, Bytecode>

    constructor (factoryDeps: map<CodeHash, Bytecode>)
      ensures this.factoryDeps == factoryDeps
    {
      this.factoryDeps := factoryDeps;
    }

    /** `load_factory_dep`. */
    function LoadFactoryDep(hash: CodeHash): (r: Option<Bytecode>)
      reads this`factoryDeps
      ensures r.Some? <==> hash in factoryDeps
      ensures r.Some? ==> r.value == factoryDeps[hash]
    {
      if hash in factoryDeps then Some(factoryDeps[hash]) else None
    }
  }

  /** The write of word `i` of a bytecode into code page `page`. */
  function CodeWrite(page: MemoryPage, timestamp: Timestamp, i: nat, value: U256): MemoryQuery
  {
    MemoryQuery(timestamp, MemoryLocation(Code, page, i % U32_MODULUS), value, false, true, false)
  }

  /** The writes that load `values` into `page`, word `i` at index `i`. */
  function CodeWrites(page: MemoryPage, timestamp: Timestamp, values: seq<U256>): (qs: seq<MemoryQuery>)
    ensures |qs| == |values|
    ensures forall i :: 0 <= i < |values| ==> qs[i] == CodeWrite(page, timestamp, i, values[i])
  {
    seq(|values|, i requires 0 <= i < |values| => CodeWrite(page, timestamp, i, values[i]))
  }

  /** Loading one more word appends one cell update, at the word's own index. */
  lemma {:induction false} CodeWritesStep(cells: Cells, page: MemoryPage, timestamp: Timestamp, values: seq<U256>)
    requires 0 < |values| <= U32_MODULUS
    ensures var n := |values| - 1;
            ApplyWrites(cells, CodeWrites(page, timestamp, values))
            == ApplyWrites(cells, CodeWrites(page, timestamp, values[..n]))[(page, n) := values[n]]
  {
    var n := |values| - 1;
    var qs := CodeWrites(page, timestamp, values);
    assert qs[..n] == CodeWrites(page, timestamp, values[..n]);
    assert qs[n] == CodeWrite(page, timestamp, n, values[n]);
    assert n % U32_MODULUS == n;
  }

  lemma {:induction false} CodeWritesStore(cells: Cells, page: MemoryPage, timestamp: Timestamp, values: seq<U256>)
    requires |values| <= U32_MODULUS
    ensures forall i :: 0 <= i < |values| ==> ReadWord(ApplyWrites(cells, CodeWrites(page, timestamp, values)), page, i) == values[i]
  {
    if values != [] {
      var n := |values| - 1;
      var before := ApplyWrites(cells, CodeWrites(page, timestamp, values[..n]));
      var after := ApplyWrites(cells, CodeWrites(page, timestamp, values));
      CodeWritesStep(cells, page, timestamp, values);
      CodeWritesStore(cells, page, timestamp, values[..n]);
      forall i | 0 <= i < |values|
        ensures ReadWord(after, page, i) == values[i]
      {
        if i < n {
          assert ReadWord(before, page, i) == values[..n][i];
        }
      }
    }
  }

  lemma {:induction false} CodeWritesKeepOthers(cells: Cells, page: MemoryPage, timestamp: Timestamp, values: seq<U256>)
    requires |values| <= U32_MODULUS
    ensures var after := ApplyWrites(cells, CodeWrites(page, timestamp, values));
            forall key: (MemoryPage, nat) :: key.0 != page || key.1 >= |values| ==>
              (key in after <==> key in cells) && (key in cells ==> after[key] == cells[key])
  {
    if values != [] {
      var n := |values| - 1;
      CodeWritesStep(cells, page, timestamp, values);
      CodeWritesKeepOthers(cells, page, timestamp, values[..n]);
    }
  }

  /**
   * Loading `values` into `page` leaves word `i` of the page holding `values[i]` and
   * every other cell as it was.
   */
  lemma {:induction false} CodeWritesFillPage(cells: Cells, page: MemoryPage, timestamp: Timestamp, values: seq<U256>)
    requires |values| <= U32_MODULUS
    ensures var after := ApplyWrites(cells, CodeWrites(page, timestamp, values));
            && (forall i :: 0 <= i < |values| ==> ReadWord(after, page, i) == values[i])
            && (forall key: (MemoryPage, nat) :: key.0 != page || key.1 >= |values| ==>
                  (key in after <==> key in cells) && (key in cells ==> after[key] == cells[key]))
  {
    CodeWritesStore(cells, page, timestamp, values);
    CodeWritesKeepOthers(cells, page, timestamp, values);
  }

  /** Reference definition for `get_size`: the number of words over all cached bytecodes. */
  ghost function TotalWords(m: map<CodeHash, seq<U256>>): nat
    decreases |m|
  {
    if m == map[] then 0
    else
      var k :| k in m;
      assert |m - {k}| < |m| by {
        assert (m - {k}).Keys == m.Keys - {k};
      }
      |m[k]| + TotalWords(m - {k})
  }

  /** Any entry can be taken out first when summing. */
  lemma {:induction false} TotalWordsRemove(m: map<CodeHash, seq<U256>>, k: CodeHash)
    requires k in m
    ensures TotalWords(m) == |m[k]| + TotalWords(m - {k})
    decreases |m|
  {
    var j :| j in m && TotalWords(m) == |m[j]| + TotalWords(m - {j});
    if j != k {
      assert (m - {j}).Keys == m.Keys - {j};
      assert (m - {k}).Keys == m.Keys - {k};
      TotalWordsRemove(m - {j}, k);
      TotalWordsRemove(m - {k}, j);
      assert m - {j} - {k} == m - {k} - {j};
    }
  }

  /** Caching one more bytecode adds its word count. */
  lemma {:induction false} TotalWordsInsert(m: map<CodeHash, seq<U256>>, k: CodeHash, v: seq<U256>)
    requires k !in m
    ensures TotalWords(m[k := v]) == TotalWords(m) + |v|
  {
    TotalWordsRemove(m[k := v], k);
    assert m[k := v] - {k} == m;
  }

  /** `std::mem::size_of::<U256>()`. */
  const SIZE_OF_U256: nat := 32
  /** `std::mem::size_of::<(U256, u32)>()`. */
  const SIZE_OF_HASH_AND_PAGE: nat := 40

  function WithTimestamp(bytecodes: seq<(CodeHash, seq<U256>)>, timestamp: Timestamp): (ops: seq<(CodeHash, seq<U256>, Timestamp)>)
    ensures |ops| == |bytecodes|
    ensures forall i :: 0 <= i < |ops| ==> ops[i] == (bytecodes[i].0, bytecodes[i].1, timestamp)
  {
    seq(|bytecodes|, i requires 0 <= i < |bytecodes| => (bytecodes[i].0, bytecodes[i].1, timestamp))
  }

  /** After `populate`, a hash listed several times maps to the bytecode listed last. */
  lemma {:induction false} PopulateLastBytecodeWins(known: MapHistory<CodeHash, seq<U256>>, bytecodes: seq<(CodeHash, seq<U256>)>,
                                 timestamp: Timestamp, i: nat)
    requires i < |bytecodes|
    requires forall j :: i < j < |bytecodes| ==> bytecodes[j].0 != bytecodes[i].0
    ensures InsertAll(known, WithTimestamp(bytecodes, timestamp)).Get(bytecodes[i].0) == Some(bytecodes[i].1)
  {
    InsertAllLastWins(known, WithTimestamp(bytecodes, timestamp), i);
  }

  /** After `populate`, a hash not listed keeps its cached words, or stays uncached. */
  lemma {:induction false} PopulateKeepsUnlisted(known: MapHistory<CodeHash, seq<U256>>, bytecodes: seq<(CodeHash, seq<U256>)>,
                              timestamp: Timestamp, hash: CodeHash)
    requires forall j :: 0 <= j < |bytecodes| ==> bytecodes[j].0 != hash
    ensures InsertAll(known, WithTimestamp(bytecodes, timestamp)).Get(hash) == known.Get(hash)
  {
    InsertAllUntouched(known, WithTimestamp(bytecodes, timestamp), hash);
  }

  /**
   * After a fresh decommit of a stored bytecode into `page`, extracting any window of
   * the bytecode's length from that page gives back exactly those stored bytes.
   */
  lemma {:induction false} DecommittedPageDumpsStoredBytes(cells: Cells, page: MemoryPage, timestamp: Timestamp, b: Bytecode,
                                        offset: nat, length: nat)
    requires |b| / 32 <= U32_MODULUS
    requires offset + length <= |b| && offset < DUMP_BOUND && length < DUMP_BOUND
    ensures DumpResult(ApplyWrites(cells, CodeWrites(page, timestamp, BytesToBeWords(b))), page, offset, length)
            == Ok(b[offset..offset + length])
  {
    var words := BytesToBeWords(b);
    CodeWritesFillPage(cells, page, timestamp, words);
    ExtractionRoundTrip(ApplyWrites(cells, CodeWrites(page, timestamp, words)), page, b, offset, length);
  }

  class DecommitterOracle {
    /** The const parameter `B`: witness mode, in which fresh decommits also return the words. */
    const witnessMode: bool
    /** The history mode `H` of `knownBytecodes` and `decommitmentRequests`. */
    const historyEnabled: bool
    const storage: Storage
    var knownBytecodes: MapHistory<CodeHash, seq<U256>>
    /** Always recorded with history. */
    var decommittedCodeHashes: MapHistory<CodeHash, MemoryPage>
    var decommitmentRequests: VecHistory<()>

    ghost predicate Valid()
      reads this
    {
      && knownBytecodes.enabled == historyEnabled
      && decommittedCodeHashes.enabled
      && decommitmentRequests.enabled == historyEnabled
      && decommitmentRequests.Valid()
      && FirstInsertsOnly(decommittedCodeHashes)
    }

    /** No recorder holds a record stamped `t` or later. */
    ghost predicate QuietSince(t: Timestamp)
      reads this
    {
      && (knownBytecodes.history == [] || knownBytecodes.history[|knownBytecodes.history| - 1].timestamp < t)
      && (decommittedCodeHashes.history == []
          || decommittedCodeHashes.history[|decommittedCodeHashes.history| - 1].timestamp < t)
    }

    /** `new(storage)`. */
    constructor (storage: Storage, witnessMode: bool, historyEnabled: bool)
      ensures Valid()
      ensures this.storage == storage && this.witnessMode == witnessMode && this.historyEnabled == historyEnabled
      ensures knownBytecodes == EmptyMapHistory(historyEnabled)
      ensures decommittedCodeHashes == EmptyMapHistory(true)
      ensures decommitmentRequests == EmptyVecHistory(historyEnabled)
    {
      this.storage := storage;
      this.witnessMode := witnessMode;
      this.historyEnabled := historyEnabled;
      knownBytecodes := EmptyMapHistory(historyEnabled);
      decommittedCodeHashes := EmptyMapHistory(true);
      decommitmentRequests := EmptyVecHistory(historyEnabled);
    }

    /** What `get_bytecode` resolves `hash` to: the cached words, else the stored bytes as words, else nothing. */
    function ResolvedBytecode(hash: CodeHash): (r: Option<seq<U256>>)
      reads this`knownBytecodes, storage`factoryDeps
      ensures hash in knownBytecodes.inner ==> r == Some(knownBytecodes.inner[hash])
      ensures hash !in knownBytecodes.inner ==>
                r == if hash in storage.factoryDeps then Some(BytesToBeWords(storage.factoryDeps[hash])) else None
    {
      match knownBytecodes.Get(hash)
      case Some(words) => Some(words)
      case None =>
        match storage.LoadFactoryDep(hash)
        case Some(bytes) => Some(BytesToBeWords(bytes))
        case None => None
    }

    /** `get_bytecode`: cache first, then storage; a storage hit is cached under `timestamp`. */
    method GetBytecode(hash: CodeHash, timestamp: Timestamp) returns (r: Result<seq<U256>>)
      requires Valid()
      modifies this`knownBytecodes
      ensures Valid()
      ensures hash in old(knownBytecodes.inner) ==>
                r == Ok(old(knownBytecodes.inner)[hash]) && knownBytecodes == old(knownBytecodes)
      ensures hash !in old(knownBytecodes.inner) && hash in storage.factoryDeps ==>
                && r == Ok(BytesToBeWords(storage.factoryDeps[hash]))
                && knownBytecodes == old(knownBytecodes).Insert(hash, r.value, timestamp)
      ensures hash !in old(knownBytecodes.inner) && hash !in storage.factoryDeps ==>
                r == Err(UnexistingHash) && knownBytecodes == old(knownBytecodes)
      ensures r == match old(ResolvedBytecode(hash)) case Some(words) => Ok(words) case None => Err(UnexistingHash)
    {
      var entry := knownBytecodes.Get(hash);
      match entry {
        case Some(x) =>
          return Ok(x);
        case None =>
          var loaded := storage.LoadFactoryDep(hash);
          if loaded.None? {
            return Err(UnexistingHash);
          }
          var value := BytesToBeWords(loaded.value);
          knownBytecodes := knownBytecodes.Insert(hash, value, timestamp);
          return Ok(value);
      }
    }

    /** `populate`: inserts every pair, in order, under one timestamp. */
    method Populate(bytecodes: seq<(CodeHash, seq<U256>)>, timestamp: Timestamp)
      requires Valid()
      modifies this`knownBytecodes
      ensures Valid()
      ensures knownBytecodes == InsertAll(old(knownBytecodes), WithTimestamp(bytecodes, timestamp))
    {
      ghost var ops := WithTimestamp(bytecodes, timestamp);
      var i := 0;
      while i < |bytecodes|
        invariant 0 <= i <= |bytecodes|
        invariant knownBytecodes == InsertAll(old(knownBytecodes), ops[..i])
      {
        var (hash, bytecode) := bytecodes[i];
        InsertAllPrefixStep(old(knownBytecodes), ops, i);
        knownBytecodes := knownBytecodes.Insert(hash, bytecode, timestamp);
        i := i + 1;
      }
      assert ops[..i] == ops;
    }

    /** `get_used_bytecode_hashes`: every hash that has a page, each once, in no particular order. */
    method GetUsedBytecodeHashes() returns (hashes: seq<CodeHash>)
      ensures forall h :: h in hashes <==> h in decommittedCodeHashes.inner
      ensures forall i, j :: 0 <= i < j < |hashes| ==> hashes[i] != hashes[j]
    {
      hashes := [];
      var rest := decommittedCodeHashes.inner.Keys;
      while rest != {}
        invariant rest <= decommittedCodeHashes.inner.Keys
        invariant forall h :: h in hashes <==> h in decommittedCodeHashes.inner && h !in rest
        invariant forall i, j :: 0 <= i < j < |hashes| ==> hashes[i] != hashes[j]
        decreases rest
      {
        var h :| h in rest;
        hashes := hashes + [h];
        rest := rest - {h};
      }
    }

    /** `get_decommitted_bytecodes_after_timestamp`: the trailing run of page-map records stamped `timestamp` or later. */
    function GetDecommittedBytecodesAfterTimestamp(timestamp: Timestamp): (n: nat)
      reads this
      ensures n <= |decommittedCodeHashes.history|
      ensures forall i :: |decommittedCodeHashes.history| - n <= i < |decommittedCodeHashes.history| ==>
                decommittedCodeHashes.history[i].timestamp >= timestamp
      ensures n < |decommittedCodeHashes.history| ==>
                decommittedCodeHashes.history[|decommittedCodeHashes.history| - n - 1].timestamp < timestamp
    {
      TrailingCount(Stamps(decommittedCodeHashes.history), timestamp)
    }

    /**
     * Each record in the page map's history is the first insert of a distinct hash that
     * still has a page (at most one record per hash, none after `DeleteHistory`), so the
     * count after `timestamp` is the number of hashes a rollback to `timestamp` forgets.
     */
    lemma {:induction false} AfterTimestampCountsForgottenHashes(timestamp: Timestamp)
      requires Valid()
      ensures GetDecommittedBytecodesAfterTimestamp(timestamp)
              == |decommittedCodeHashes.inner| - |decommittedCodeHashes.RollbackToTimestamp(timestamp).inner|
    {
      RollbackForgetsTrailingKeys(decommittedCodeHashes, timestamp);
    }

    /** `get_size`: the cached words at 32 bytes each, plus 40 bytes per page-map entry. */
    method GetSize() returns (size: nat)
      ensures size == SIZE_OF_U256 * TotalWords(knownBytecodes.inner)
                      + SIZE_OF_HASH_AND_PAGE * |decommittedCodeHashes.inner|
    {
      var knownBytecodesSize := 0;
      var rest := knownBytecodes.inner;
      while rest != map[]
        invariant rest.Keys <= knownBytecodes.inner.Keys
        invariant forall k :: k in rest ==> rest[k] == knownBytecodes.inner[k]
        invariant knownBytecodesSize + SIZE_OF_U256 * TotalWords(rest) == SIZE_OF_U256 * TotalWords(knownBytecodes.inner)
        decreases |rest|
      {
        var hash :| hash in rest;
        TotalWordsRemove(rest, hash);
        knownBytecodesSize := knownBytecodesSize + |rest[hash]| * SIZE_OF_U256;
        assert (rest - {hash}).Keys == rest.Keys - {hash};
        rest := rest - {hash};
      }
      var decommittedCodeHashesSize := |decommittedCodeHashes.inner| * SIZE_OF_HASH_AND_PAGE;
      size := knownBytecodesSize + decommittedCodeHashesSize;
    }

    /** `delete_history`: every recorder forgets its log and keeps its contents. */
    method DeleteHistory()
      requires Valid()
      modifies this`knownBytecodes, this`decommittedCodeHashes, this`decommitmentRequests
      ensures Valid()
      ensures decommittedCodeHashes == old(decommittedCodeHashes).DeleteHistory()
      ensures knownBytecodes == old(knownBytecodes).DeleteHistory()
      ensures decommitmentRequests == old(decommitmentRequests).DeleteHistory()
    {
      DeleteHistoryKeepsFirstInsertsOnly(decommittedCodeHashes);
      decommittedCodeHashes := decommittedCodeHashes.DeleteHistory();
      knownBytecodes := knownBytecodes.DeleteHistory();
      decommitmentRequests := decommitmentRequests.DeleteHistory();
    }

    /** `rollback_to_timestamp`, defined for the history-enabled oracle: all three recorders, same timestamp. */
    method RollbackToTimestamp(timestamp: Timestamp)
      requires Valid() && historyEnabled
      modifies this`knownBytecodes, this`decommittedCodeHashes, this`decommitmentRequests
      ensures Valid()
      ensures decommittedCodeHashes == old(decommittedCodeHashes).RollbackToTimestamp(timestamp)
      ensures knownBytecodes == old(knownBytecodes).RollbackToTimestamp(timestamp)
      ensures decommitmentRequests == old(decommitmentRequests).RollbackToTimestamp(timestamp)
    {
      RollbackKeepsFirstInsertsOnly(decommittedCodeHashes, timestamp);
      decommittedCodeHashes := decommittedCodeHashes.RollbackToTimestamp(timestamp);
      knownBytecodes := knownBytecodes.RollbackToTimestamp(timestamp);
      decommitmentRequests := decommitmentRequests.RollbackToTimestamp(timestamp);
    }

    /**
     * `decommit_into_memory`. Every call logs one request. A hash that already has a
     * page is answered from the page map without touching memory; otherwise its words
     * are resolved, its page is recorded and word `i` is written to index `i` of the page.
     */
    method DecommitIntoMemory(monotonicCycleCounter: u32, partialQuery: DecommittmentQuery, memory: Memory)
      returns (r: Result<(DecommittmentQuery, Option<seq<U256>>)>)
      requires Valid()
      modifies this`knownBytecodes, this`decommittedCodeHashes, this`decommitmentRequests, memory
      ensures Valid()
      ensures decommitmentRequests == old(decommitmentRequests).Push((), partialQuery.timestamp)
      // repeat decommit
      ensures partialQuery.hash in old(decommittedCodeHashes.inner) ==>
                && r == Ok((partialQuery.(isFresh := false,
                                          memoryPage := old(decommittedCodeHashes.inner)[partialQuery.hash],
                                          decommittedLength := BytecodeLenInWords(partialQuery.hash)),
                            None))
                && knownBytecodes == old(knownBytecodes)
                && decommittedCodeHashes == old(decommittedCodeHashes)
                && unchanged(memory)
      // a hash neither cached nor stored
      ensures partialQuery.hash !in old(decommittedCodeHashes.inner) && old(ResolvedBytecode(partialQuery.hash)).None? ==>
                && r == Err(UnexistingHash)
                && knownBytecodes == old(knownBytecodes)
                && decommittedCodeHashes == old(decommittedCodeHashes)
                && unchanged(memory)
      // fresh decommit
      ensures partialQuery.hash !in old(decommittedCodeHashes.inner) && old(ResolvedBytecode(partialQuery.hash)).Some? ==>
                var values := old(ResolvedBytecode(partialQuery.hash)).value;
                && r == Ok((partialQuery.(decommittedLength := |values| % U16_MODULUS, isFresh := true),
                            if witnessMode then Some(values) else None))
                && decommittedCodeHashes
                   == old(decommittedCodeHashes).Insert(partialQuery.hash, partialQuery.memoryPage, partialQuery.timestamp)
                && knownBytecodes
                   == (if partialQuery.hash in old(knownBytecodes.inner) then old(knownBytecodes)
                       else old(knownBytecodes).Insert(partialQuery.hash, values, partialQuery.timestamp))
                && memory.issued == old(memory.issued) + CodeWrites(partialQuery.memoryPage, partialQuery.timestamp, values)
                && memory.cells == ApplyWrites(old(memory.cells), CodeWrites(partialQuery.memoryPage, partialQuery.timestamp, values))
    {
      decommitmentRequests := decommitmentRequests.Push((), partialQuery.timestamp);
      var query := partialQuery;
      var knownPage := decommittedCodeHashes.Get(query.hash);
      if knownPage.Some? {
        query := query.(isFresh := false, memoryPage := knownPage.value,
                        decommittedLength := BytecodeLenInWords(query.hash));
        return Ok((query, None));
      }

      var fetched := GetBytecode(query.hash, query.timestamp);
      if fetched.Err? {
        return Err(fetched.fault);
      }
      var values := fetched.value;
      var pageToUse := query.memoryPage;
      var timestamp := query.timestamp;
      query := query.(decommittedLength := |values| % U16_MODULUS, isFresh := true);

      InsertAbsentKeepsFirstInsertsOnly(decommittedCodeHashes, query.hash, pageToUse, timestamp);
      decommittedCodeHashes := decommittedCodeHashes.Insert(query.hash, pageToUse, timestamp);

      WriteCodePage(memory, monotonicCycleCounter, pageToUse, timestamp, values);
      r := Ok((query, if witnessMode then Some(values) else None));
    }
  }

  /** The copy loop of a fresh decommit: one code write per word, word `i` to index `i`. */
  method WriteCodePage(memory: Memory, monotonicCycleCounter: u32, pageToUse: MemoryPage, timestamp: Timestamp,
                       values: seq<U256>)
    modifies memory
    ensures memory.issued == old(memory.issued) + CodeWrites(pageToUse, timestamp, values)
    ensures memory.cells == ApplyWrites(old(memory.cells), CodeWrites(pageToUse, timestamp, values))
  {
    var tmpQ := MemoryQuery(timestamp, MemoryLocation(Code, pageToUse, 0), 0, false, true, false);
    var i := 0;
    while i < |values|
      invariant 0 <= i <= |values|
      invariant tmpQ.(location := tmpQ.location.(index := 0), value := 0)
                == MemoryQuery(timestamp, MemoryLocation(Code, pageToUse, 0), 0, false, true, false)
      invariant memory.issued == old(memory.issued) + CodeWrites(pageToUse, timestamp, values[..i])
      invariant memory.cells == ApplyWrites(old(memory.cells), CodeWrites(pageToUse, timestamp, values[..i]))
    {
      tmpQ := tmpQ.(location := tmpQ.location.(index := i % U32_MODULUS), value := values[i]);
      assert tmpQ == CodeWrite(pageToUse, timestamp, i, values[i]);
      assert CodeWrites(pageToUse, timestamp, values[..i + 1])
             == CodeWrites(pageToUse, timestamp, values[..i]) + [tmpQ];
      memory.SpecializedCodeQuery(monotonicCycleCounter, tmpQ);
      i := i + 1;
    }
    assert values[..i] == values;
  }

  /**
   * Decommit `query.hash` fresh, then decommit it again later: the second call is a
   * repeat, answered with the page of the first, with no bytes returned and no memory
   * traffic; both maps keep what the first call recorded.
   */
  method DecommitThenRepeat(oracle: DecommitterOracle, memory: Memory, query: DecommittmentQuery, t2: Timestamp)
    returns (r1: Result<(DecommittmentQuery, Option<seq<U256>>)>,
             r2: Result<(DecommittmentQuery, Option<seq<U256>>)>)
    requires oracle.Valid()
    requires query.hash !in oracle.decommittedCodeHashes.inner && oracle.ResolvedBytecode(query.hash).Some?
    modifies oracle, memory
    ensures oracle.Valid()
    ensures var values := old(oracle.ResolvedBytecode(query.hash)).value;
            r1 == Ok((query.(decommittedLength := |values| % U16_MODULUS, isFresh := true),
                      if oracle.witnessMode then Some(values) else None))
    ensures r2.Ok? && !r2.value.0.isFresh && r2.value.0.memoryPage == query.memoryPage && r2.value.1 == None
    ensures r2.value.0.decommittedLength == BytecodeLenInWords(query.hash)
    ensures oracle.decommittedCodeHashes
            == old(oracle.decommittedCodeHashes).Insert(query.hash, query.memoryPage, query.timestamp)
    ensures var values := old(oracle.ResolvedBytecode(query.hash)).value;
            oracle.knownBytecodes
            == if query.hash in old(oracle.knownBytecodes.inner) then old(oracle.knownBytecodes)
               else old(oracle.knownBytecodes).Insert(query.hash, values, query.timestamp)
    ensures var values := old(oracle.ResolvedBytecode(query.hash)).value;
            && memory.issued == old(memory.issued) + CodeWrites(query.memoryPage, query.timestamp, values)
            && memory.cells == ApplyWrites(old(memory.cells), CodeWrites(query.memoryPage, query.timestamp, values))
  {
    r1 := oracle.DecommitIntoMemory(0, query, memory);
    assert query.hash in oracle.decommittedCodeHashes.inner;
    r2 := oracle.DecommitIntoMemory(0, query.(timestamp := t2), memory);
  }

  /**
   * Decommit `query.hash` fresh, then roll back to that decommit's timestamp: the
   * oracle forgets the page and the bytecode it fetched, so both maps are as before
   * and a later decommit of the hash is fresh again. The memory writes stay.
   */
  method DecommitThenRollback(oracle: DecommitterOracle, memory: Memory, query: DecommittmentQuery)
    returns (r1: Result<(DecommittmentQuery, Option<seq<U256>>)>)
    requires oracle.Valid() && oracle.historyEnabled
    requires query.hash !in oracle.decommittedCodeHashes.inner && oracle.ResolvedBytecode(query.hash).Some?
    requires oracle.QuietSince(query.timestamp)
    modifies oracle, memory
    ensures oracle.Valid()
    ensures r1.Ok? && r1.value.0.isFresh
    ensures oracle.decommittedCodeHashes == old(oracle.decommittedCodeHashes)
    ensures oracle.knownBytecodes == old(oracle.knownBytecodes)
    ensures query.hash !in oracle.decommittedCodeHashes.inner
    ensures var values := old(oracle.ResolvedBytecode(query.hash)).value;
            memory.issued == old(memory.issued) + CodeWrites(query.memoryPage, query.timestamp, values)
  {
    ghost var known0 := oracle.knownBytecodes;
    ghost var decommitted0 := oracle.decommittedCodeHashes;
    ghost var values := oracle.ResolvedBytecode(query.hash).value;
    var t1 := query.timestamp;

    RollbackUndoesInsert(decommitted0, query.hash, query.memoryPage, t1, t1);
    RollbackUndoesInsertIfAbsent(known0, query.hash, values, t1, t1);
    r1 := oracle.DecommitIntoMemory(0, query, memory);
    ghost var issued1 := memory.issued;
    oracle.RollbackToTimestamp(t1);
    assert memory.issued == issued1;
  }

  /**
   * Decommit `query.hash` fresh, decommit it again as a repeat at `t2`, then roll back
   * to the first decommit's timestamp: both maps are as before, so the hash has no
   * page again. Only the fresh decommit wrote to memory.
   */
  method DecommitRepeatThenRollback(oracle: DecommitterOracle, memory: Memory, query: DecommittmentQuery, t2: Timestamp)
    returns (r1: Result<(DecommittmentQuery, Option<seq<U256>>)>,
             r2: Result<(DecommittmentQuery, Option<seq<U256>>)>)
    requires oracle.Valid() && oracle.historyEnabled
    requires query.hash !in oracle.decommittedCodeHashes.inner && oracle.ResolvedBytecode(query.hash).Some?
    requires oracle.QuietSince(query.timestamp)
    modifies oracle, memory
    ensures oracle.Valid()
    ensures var values := old(oracle.ResolvedBytecode(query.hash)).value;
            r1 == Ok((query.(decommittedLength := |values| % U16_MODULUS, isFresh := true),
                      if oracle.witnessMode then Some(values) else None))
    ensures r2.Ok? && !r2.value.0.isFresh && r2.value.0.memoryPage == query.memoryPage && r2.value.1 == None
    ensures oracle.decommittedCodeHashes == old(oracle.decommittedCodeHashes)
    ensures oracle.knownBytecodes == old(oracle.knownBytecodes)
    ensures var values := old(oracle.ResolvedBytecode(query.hash)).value;
            memory.issued == old(memory.issued) + CodeWrites(query.memoryPage, query.timestamp, values)
  {
    ghost var known0 := oracle.knownBytecodes;
    ghost var decommitted0 := oracle.decommittedCodeHashes;
    ghost var values := oracle.ResolvedBytecode(query.hash).value;
    var t1 := query.timestamp;

    RollbackUndoesInsert(decommitted0, query.hash, query.memoryPage, t1, t1);
    RollbackUndoesInsertIfAbsent(known0, query.hash, values, t1, t1);
    r1, r2 := DecommitThenRepeat(oracle, memory, query, t2);
    ghost var issued1 := memory.issued;
    oracle.RollbackToTimestamp(t1);
    assert memory.issued == issued1;
  }

  /**
   * The whole memoization cycle: fresh, repeat, rollback, then a decommit at `t3`
   * that is fresh again and gets the answer the first decommit got; memory has seen
   * the code writes of the two fresh decommits only.
   */
  method DecommitRepeatRollbackRedecommit(oracle: DecommitterOracle, memory: Memory, query: DecommittmentQuery,
                                          t2: Timestamp, t3: Timestamp)
    returns (r1: Result<(DecommittmentQuery, Option<seq<U256>>)>,
             r2: Result<(DecommittmentQuery, Option<seq<U256>>)>,
             r3: Result<(DecommittmentQuery, Option<seq<U256>>)>)
    requires oracle.Valid() && oracle.historyEnabled
    requires query.hash !in oracle.decommittedCodeHashes.inner && oracle.ResolvedBytecode(query.hash).Some?
    requires oracle.QuietSince(query.timestamp)
    modifies oracle, memory
    ensures oracle.Valid()
    ensures r1.Ok? && r1.value.0.isFresh
    ensures r2.Ok? && !r2.value.0.isFresh && r2.value.0.memoryPage == query.memoryPage
    ensures r3.Ok? && r3.value.0 == r1.value.0.(timestamp := t3) && r3.value.1 == r1.value.1
    ensures oracle.decommittedCodeHashes
            == old(oracle.decommittedCodeHashes).Insert(query.hash, query.memoryPage, t3)
    ensures var values := old(oracle.ResolvedBytecode(query.hash)).value;
            memory.issued == old(memory.issued) + CodeWrites(query.memoryPage, query.timestamp, values)
                                                + CodeWrites(query.memoryPage, t3, values)
  {
    ghost var values := oracle.ResolvedBytecode(query.hash).value;
    r1, r2 := DecommitRepeatThenRollback(oracle, memory, query, t2);
    assert oracle.ResolvedBytecode(query.hash) == Some(values);
    ghost var issued1 := memory.issued;
    r3 := oracle.DecommitIntoMemory(0, query.(timestamp := t3), memory);
    assert memory.issued == issued1 + CodeWrites(query.memoryPage, t3, values);
  }
}
