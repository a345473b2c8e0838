/**
 * Timestamp range utilities: which, and how many, events of a log happened at or
 * after a given instant.
 */
module Timestamps {
  import opened Primitives
  import opened Codec

  ghost predicate Sorted(ts: seq<Timestamp>)
  {
    forall i, j :: 0 <= i <= j < |ts| ==> ts[i] <= ts[j]
  }

  /** The length of the longest suffix of `ts` whose timestamps are all at least `from`. */
  function TrailingCount(ts: seq<Timestamp>, from: Timestamp): (n: nat)
    ensures n <= |ts|
    ensures forall i :: |ts| - n <= i < |ts| ==> ts[i] >= from
    ensures n < |ts| ==> ts[|ts| - n - 1] < from
  {
    if |ts| == 0 || ts[|ts| - 1] < from then 0 else TrailingCount(ts[..|ts| - 1], from) + 1
  }

  /** Reference definition: how many of `ts` are at least `from`, wherever they stand. */
  function CountAtOrAfter(ts: seq<Timestamp>, from: Timestamp): nat
  {
    if ts == [] then 0
    else CountAtOrAfter(ts[..|ts| - 1], from) + (if ts[|ts| - 1] >= from then 1 else 0)
  }

  lemma {:induction false} CountAtOrAfterOfSorted(ts: seq<Timestamp>, from: Timestamp)
    requires Sorted(ts)
    ensures CountAtOrAfter(ts, from) == TrailingCount(ts, from)
  {
    if ts != [] {
      var init := ts[..|ts| - 1];
      assert Sorted(init);
      if ts[|ts| - 1] >= from {
        CountAtOrAfterOfSorted(init, from);
      } else {
        NoneAtOrAfter(init, from);
      }
    }
  }

  lemma {:induction false} NoneAtOrAfter(ts: seq<Timestamp>, from: Timestamp)
    requires forall i :: 0 <= i < |ts| ==> ts[i] < from
    ensures CountAtOrAfter(ts, from) == 0
  {
    if ts != [] {
      NoneAtOrAfter(ts[..|ts| - 1], from);
    }
  }

  /**
   * `ts` is partitioned by the predicate `t < from`: no timestamp below `from` stands
   * after one that is not. Every sorted sequence is, for every `from`.
   */
  ghost predicate PartitionedBelow(ts: seq<Timestamp>, from: Timestamp)
  {
    forall i, j :: 0 <= i <= j < |ts| && ts[j] < from ==> ts[i] < from
  }

  lemma {:induction false} SortedIsPartitioned(ts: seq<Timestamp>, from: Timestamp)
    requires Sorted(ts)
    ensures PartitionedBelow(ts, from)
  {
    forall i, j | 0 <= i <= j < |ts| && ts[j] < from
      ensures ts[i] < from
    {
      assert ts[i] <= ts[j];
    }
  }

  /**
   * Binary search over `ts[lo..hi]` for the first timestamp that is not below `from`,
   * the way `<[T]>::partition_point(|t| *t < from)` searches.
   */
  function PartitionPointIn(ts: seq<Timestamp>, from: Timestamp, lo: nat, hi: nat): (p: nat)
    requires lo <= hi <= |ts|
    ensures lo <= p <= hi
    ensures PartitionedBelow(ts, from) && (forall i :: 0 <= i < lo ==> ts[i] < from) && (forall i :: hi <= i < |ts| ==> ts[i] >= from) ==>
              (forall i :: 0 <= i < p ==> ts[i] < from) && (forall i :: p <= i < |ts| ==> ts[i] >= from)
    decreases hi - lo
  {
    if lo == hi then lo
    else
      var mid := lo + (hi - lo) / 2;
      if ts[mid] < from then PartitionPointIn(ts, from, mid + 1, hi) else PartitionPointIn(ts, from, lo, mid)
  }

  /**
   * `partition_point(|t| *t < from)`: on input partitioned by `t < from` (sorted
   * input in particular), the index of the first timestamp `>= from`.
   */
  function PartitionPoint(ts: seq<Timestamp>, from: Timestamp): (p: nat)
    ensures p <= |ts|
    ensures PartitionedBelow(ts, from) ==> (forall i :: 0 <= i < p ==> ts[i] < from) && (forall i :: p <= i < |ts| ==> ts[i] >= from)
  {
    PartitionPointIn(ts, from, 0, |ts|)
  }

  /** `precompile_calls_count_after_timestamp`: `len - partition_point(t < from)`. */
  function PrecompileCallsCountAfterTimestamp(sortedTimestamps: seq<Timestamp>, fromTimestamp: Timestamp): (n: nat)
    ensures n <= |sortedTimestamps|
    ensures PartitionedBelow(sortedTimestamps, fromTimestamp) ==> n == TrailingCount(sortedTimestamps, fromTimestamp)
  {
    var p := PartitionPoint(sortedTimestamps, fromTimestamp);
    PartitionEndsTrailingRun(sortedTimestamps, fromTimestamp, p);
    |sortedTimestamps| - p
  }

  /** A split point `p` with every timestamp before it below `from` and every one after not starts the trailing run. */
  lemma {:induction false} PartitionEndsTrailingRun(ts: seq<Timestamp>, from: Timestamp, p: nat)
    requires p <= |ts|
    ensures (forall i :: 0 <= i < p ==> ts[i] < from) && (forall i :: p <= i < |ts| ==> ts[i] >= from) ==>
            |ts| - p == TrailingCount(ts, from)
  {
    if (forall i :: 0 <= i < p ==> ts[i] < from) && (forall i :: p <= i < |ts| ==> ts[i] >= from) {
      TrailingRunUnique(ts, from, p);
    }
  }

  /** The longest suffix at or after `from` is unique: any `m` that starts such a maximal run is `|ts| - TrailingCount`. */
  lemma {:induction false} TrailingRunUnique(ts: seq<Timestamp>, from: Timestamp, m: nat)
    requires m <= |ts|
    requires forall i :: m <= i < |ts| ==> ts[i] >= from
    requires m == 0 || ts[m - 1] < from
    ensures |ts| - m == TrailingCount(ts, from)
  {
  }

  /** On sorted input the count is the number of timestamps at or after `fromTimestamp`. */
  lemma {:induction false} PrecompileCallsCountIsCountAtOrAfter(sortedTimestamps: seq<Timestamp>, fromTimestamp: Timestamp)
    requires Sorted(sortedTimestamps)
    ensures PrecompileCallsCountAfterTimestamp(sortedTimestamps, fromTimestamp) == CountAtOrAfter(sortedTimestamps, fromTimestamp)
  {
    SortedIsPartitioned(sortedTimestamps, fromTimestamp);
    CountAtOrAfterOfSorted(sortedTimestamps, fromTimestamp);
  }

  /**
   * Partitioned but unsorted input: `partition_point` is still defined, and on
   * `[1, 5, 3]` with `from = 2` it is 1, so the count is 2.
   */
  lemma {:induction false} PartitionPointOnPartitionedUnsorted()
    ensures !Sorted([1, 5, 3]) && PartitionedBelow([1, 5, 3], 2)
    ensures PartitionPoint([1, 5, 3], 2) == 1
    ensures PrecompileCallsCountAfterTimestamp([1, 5, 3], 2) == 2
  {
    var ts: seq<Timestamp> := [1, 5, 3];
    assert ts[1] > ts[2];
    var p := PartitionPoint(ts, 2);
    assert ts[0] < 2 && ts[1] >= 2;
  }

  // ---------------------------------------------------------------------------
  // Log queries and the linear suffix collection

  /** A 160-bit account address. */
  type Address = x: nat | x < 0x1_0000_0000_0000_0000_0000_0000_0000_0000_0000_0000

  /** The fields of a `LogQuery` as the VM emits it; only `timestamp` matters here. */
  datatype LogQuery = LogQuery(
    timestamp: Timestamp,
    txNumberInBlock: u16,
    auxByte: byte,
    shardId: byte,
    address: Address,
    key: U256,
    readValue: U256,
    writtenValue: U256,
    rwFlag: bool,
    rollback: bool,
    isService: bool)

  datatype StorageLogKind = Read | InitialWrite | RepeatedWrite

  /** A log query tagged with whether it was an initial or a repeated write. */
  datatype StorageLogQuery = StorageLogQuery(logQuery: LogQuery, logType: StorageLogKind)

  /** The timestamps of a log, in order. */
  function LogStamps(qs: seq<LogQuery>): (ts: seq<Timestamp>)
    ensures |ts| == |qs|
    ensures forall i :: 0 <= i < |qs| ==> ts[i] == qs[i].timestamp
  {
    seq(|qs|, i requires 0 <= i < |qs| => qs[i].timestamp)
  }

  function StorageLogStamps(qs: seq<StorageLogQuery>): (ts: seq<Timestamp>)
    ensures |ts| == |qs|
    ensures forall i :: 0 <= i < |qs| ==> ts[i] == qs[i].logQuery.timestamp
  {
    seq(|qs|, i requires 0 <= i < |qs| => qs[i].logQuery.timestamp)
  }

  /**
   * `iter().rev().take_while(timestamp >= from).collect().rev()`, where `stamps[i]` is
   * the timestamp of `qs[i]`: walk back from the end while timestamps are at least
   * `from`, then restore the original order.
   */
  function SuffixAtOrAfter<T>(qs: seq<T>, stamps: seq<Timestamp>, from: Timestamp): (r: seq<T>)
    requires |stamps| == |qs|
    ensures |r| == TrailingCount(stamps, from) && r == qs[|qs| - |r|..]
  {
    if |qs| == 0 || stamps[|qs| - 1] < from then []
    else SuffixAtOrAfter(qs[..|qs| - 1], stamps[..|qs| - 1], from) + [qs[|qs| - 1]]
  }

  /** Reference definition: the elements whose timestamp is at least `from`, in order. */
  function FilterAtOrAfter<T>(qs: seq<T>, stamps: seq<Timestamp>, from: Timestamp): seq<T>
    requires |stamps| == |qs|
  {
    if qs == [] then []
    else FilterAtOrAfter(qs[..|qs| - 1], stamps[..|qs| - 1], from) + (if stamps[|qs| - 1] >= from then [qs[|qs| - 1]] else [])
  }

  /** `collect_log_queries_after_timestamp`: the longest suffix stamped at or after `fromTimestamp`. */
  function CollectLogQueriesAfterTimestamp(allLogQueries: seq<LogQuery>, fromTimestamp: Timestamp): (r: seq<LogQuery>)
    ensures |r| == TrailingCount(LogStamps(allLogQueries), fromTimestamp)
    ensures r == allLogQueries[|allLogQueries| - |r|..]
  {
    SuffixAtOrAfter(allLogQueries, LogStamps(allLogQueries), fromTimestamp)
  }

  /** `collect_storage_log_queries_after_timestamp`: the same over storage log queries. */
  function CollectStorageLogQueriesAfterTimestamp(allLogQueries: seq<StorageLogQuery>, fromTimestamp: Timestamp): (r: seq<StorageLogQuery>)
    ensures |r| == TrailingCount(StorageLogStamps(allLogQueries), fromTimestamp)
    ensures r == allLogQueries[|allLogQueries| - |r|..]
  {
    SuffixAtOrAfter(allLogQueries, StorageLogStamps(allLogQueries), fromTimestamp)
  }

  /**
   * What `collect_log_queries_after_timestamp` returns, query by query: a suffix of
   * the log that is stamped `fromTimestamp` or later, and the query just before it,
   * if any, is stamped earlier.
   */
  lemma {:induction false} CollectedLogQueriesAreTrailingRun(allLogQueries: seq<LogQuery>, fromTimestamp: Timestamp)
    ensures var r := CollectLogQueriesAfterTimestamp(allLogQueries, fromTimestamp);
            && (forall i :: 0 <= i < |r| ==> r[i] == allLogQueries[|allLogQueries| - |r| + i])
            && (forall i :: 0 <= i < |r| ==> r[i].timestamp >= fromTimestamp)
            && (|r| < |allLogQueries| ==> allLogQueries[|allLogQueries| - |r| - 1].timestamp < fromTimestamp)
  {
    var r := CollectLogQueriesAfterTimestamp(allLogQueries, fromTimestamp);
    var ts := LogStamps(allLogQueries);
    var m := |allLogQueries| - |r|;
    forall i | 0 <= i < |r|
      ensures r[i] == allLogQueries[m + i] && r[i].timestamp >= fromTimestamp
    {
      assert ts[m + i] >= fromTimestamp;
    }
    if m > 0 {
      assert ts[m - 1] < fromTimestamp;
    }
  }

  /** The same for `collect_storage_log_queries_after_timestamp`. */
  lemma {:induction false} CollectedStorageLogQueriesAreTrailingRun(allLogQueries: seq<StorageLogQuery>, fromTimestamp: Timestamp)
    ensures var r := CollectStorageLogQueriesAfterTimestamp(allLogQueries, fromTimestamp);
            && (forall i :: 0 <= i < |r| ==> r[i] == allLogQueries[|allLogQueries| - |r| + i])
            && (forall i :: 0 <= i < |r| ==> r[i].logQuery.timestamp >= fromTimestamp)
            && (|r| < |allLogQueries| ==> allLogQueries[|allLogQueries| - |r| - 1].logQuery.timestamp < fromTimestamp)
  {
    var r := CollectStorageLogQueriesAfterTimestamp(allLogQueries, fromTimestamp);
    var ts := StorageLogStamps(allLogQueries);
    var m := |allLogQueries| - |r|;
    forall i | 0 <= i < |r|
      ensures r[i] == allLogQueries[m + i] && r[i].logQuery.timestamp >= fromTimestamp
    {
      assert ts[m + i] >= fromTimestamp;
    }
    if m > 0 {
      assert ts[m - 1] < fromTimestamp;
    }
  }

  /** On sorted input the linear suffix collection is the plain filter. */
  lemma {:induction false} SuffixIsFilterWhenSorted<T>(qs: seq<T>, stamps: seq<Timestamp>, from: Timestamp)
    requires |stamps| == |qs| && Sorted(stamps)
    ensures SuffixAtOrAfter(qs, stamps, from) == FilterAtOrAfter(qs, stamps, from)
  {
    if qs != [] {
      var n := |qs| - 1;
      assert Sorted(stamps[..n]);
      if stamps[n] >= from {
        SuffixIsFilterWhenSorted(qs[..n], stamps[..n], from);
      } else {
        FilterNone(qs[..n], stamps[..n], from);
      }
    }
  }

  lemma {:induction false} FilterNone<T>(qs: seq<T>, stamps: seq<Timestamp>, from: Timestamp)
    requires |stamps| == |qs|
    requires forall i :: 0 <= i < |stamps| ==> stamps[i] < from
    ensures FilterAtOrAfter(qs, stamps, from) == []
  {
    if qs != [] {
      FilterNone(qs[..|qs| - 1], stamps[..|qs| - 1], from);
    }
  }

  /** `collect_log_queries_after_timestamp` on sorted input keeps exactly the queries at or after `fromTimestamp`. */
  lemma {:induction false} CollectLogQueriesIsFilterWhenSorted(allLogQueries: seq<LogQuery>, fromTimestamp: Timestamp)
    requires Sorted(LogStamps(allLogQueries))
    ensures CollectLogQueriesAfterTimestamp(allLogQueries, fromTimestamp)
            == FilterAtOrAfter(allLogQueries, LogStamps(allLogQueries), fromTimestamp)
  {
    SuffixIsFilterWhenSorted(allLogQueries, LogStamps(allLogQueries), fromTimestamp);
  }

  /** The same for storage log queries. */
  lemma {:induction false} CollectStorageLogQueriesIsFilterWhenSorted(allLogQueries: seq<StorageLogQuery>, fromTimestamp: Timestamp)
    requires Sorted(StorageLogStamps(allLogQueries))
    ensures CollectStorageLogQueriesAfterTimestamp(allLogQueries, fromTimestamp)
            == FilterAtOrAfter(allLogQueries, StorageLogStamps(allLogQueries), fromTimestamp)
  {
    SuffixIsFilterWhenSorted(allLogQueries, StorageLogStamps(allLogQueries), fromTimestamp);
  }

  /**
   * The binary-search count agrees with the length of the linear suffix collection,
   * for every threshold, on sorted input.
   */
  lemma {:induction false} CountAgreesWithCollection(allLogQueries: seq<LogQuery>, fromTimestamp: Timestamp)
    requires Sorted(LogStamps(allLogQueries))
    ensures PrecompileCallsCountAfterTimestamp(LogStamps(allLogQueries), fromTimestamp)
            == |CollectLogQueriesAfterTimestamp(allLogQueries, fromTimestamp)|
  {
    SortedIsPartitioned(LogStamps(allLogQueries), fromTimestamp);
  }
}
