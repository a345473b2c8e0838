/**
 * The history recorder: a container plus a log of undo records, each stamped with
 * the timestamp of the change it undoes. Rolling back to `t` pops and applies the
 * records stamped `t` or later, newest first; with history disabled nothing is logged.
 */
module HistoryRecorder {
  import opened Primitives
  import opened Timestamps

  datatype Entry<R> = Entry(timestamp: Timestamp, record: R)

  function Stamps<R>(h: seq<Entry<R>>): (ts: seq<Timestamp>)
    ensures |ts| == |h|
    ensures forall i :: 0 <= i < |h| ==> ts[i] == h[i].timestamp
  {
    seq(|h|, i requires 0 <= i < |h| => h[i].timestamp)
  }

  lemma {:induction false} StampsPrefix<R>(h: seq<Entry<R>>, n: nat)
    requires n <= |h|
    ensures Stamps(h[..n]) == Stamps(h)[..n]
  {
  }

  /** The undo record of a keyed write: the key and the value it held before, if any. */
  datatype MapEvent<K, V> = MapEvent(key: K, previous: Option<V>)

  /** A history-recorded hash map. */
  datatype MapHistory<K(==), V> = MapHistory(inner: map<K, V>, history: seq<Entry<MapEvent<K, V>>>, enabled: bool)
  {
    function Get(k: K): (r: Option<V>)
      ensures r.Some? <==> k in inner
      ensures r.Some? ==> r.value == inner[k]
    {
      if k in inner then Some(inner[k]) else None
    }

    /** Undoes the newest record: restores its key's previous value, or removes the key. */
    function UndoLast(): (r: MapHistory<K, V>)
      requires |history| > 0
      ensures r.history == history[..|history| - 1] && r.enabled == enabled
    {
      var e := history[|history| - 1].record;
      var restored := match e.previous
        case Some(v) => inner[e.key := v]
        case None => inner - {e.key};
      MapHistory(restored, history[..|history| - 1], enabled)
    }

    /** `insert(key, value, timestamp)`; with history enabled the write can be undone. */
    function Insert(key: K, value: V, timestamp: Timestamp): (r: MapHistory<K, V>)
      ensures r.inner.Keys == inner.Keys + {key} && r.inner[key] == value
      ensures forall k :: k in inner && k != key ==> r.inner[k] == inner[k]
      ensures r.enabled == enabled
      ensures enabled ==> r.history == history + [Entry(timestamp, MapEvent(key, Get(key)))]
      ensures !enabled ==> r.history == history
      ensures enabled ==> r.UndoLast() == this
    {
      var r := MapHistory(inner[key := value],
                          if enabled then history + [Entry(timestamp, MapEvent(key, Get(key)))] else history,
                          enabled);
      if enabled then
        assert r.UndoLast().inner == inner;
        r
      else r
    }

    /** `rollback_to_timestamp(t)`: undo every record, newest first, while it is stamped `t` or later. */
    function RollbackToTimestamp(t: Timestamp): (r: MapHistory<K, V>)
      ensures r.enabled == enabled
      ensures |r.history| <= |history| && r.history == history[..|r.history|]
      ensures forall i :: |r.history| <= i < |history| ==> history[i].timestamp >= t
      ensures r.history == [] || r.history[|r.history| - 1].timestamp < t
      decreases |history|
    {
      if |history| == 0 || history[|history| - 1].timestamp < t then this
      else UndoLast().RollbackToTimestamp(t)
    }

    /** The records a rollback to `t` undoes are the trailing run stamped `t` or later. */
    lemma {:induction false} RollbackPopsTrailingRun(t: Timestamp)
      ensures |RollbackToTimestamp(t).history| == |history| - TrailingCount(Stamps(history), t)
    {
      var r := RollbackToTimestamp(t);
      TrailingRunUnique(Stamps(history), t, |r.history|);
    }

    /** `delete_history()`: forget the log, keep the contents. */
    function DeleteHistory(): (r: MapHistory<K, V>)
      ensures r.inner == inner && r.history == [] && r.enabled == enabled
    {
      MapHistory(inner, [], enabled)
    }
  }

  function EmptyMapHistory<K(==), V>(enabled: bool): (r: MapHistory<K, V>)
    ensures r.inner == map[] && r.history == [] && r.enabled == enabled
  {
    MapHistory(map[], [], enabled)
  }

  /** A history-recorded vector that is only ever pushed to; each log entry undoes one push. */
  datatype VecHistory<T> = VecHistory(inner: seq<T>, history: seq<Timestamp>, enabled: bool)
  {
    ghost predicate Valid()
    {
      |history| <= |inner|
    }

    /** `push(value, timestamp)`. */
    function Push(value: T, timestamp: Timestamp): (r: VecHistory<T>)
      ensures r.inner == inner + [value] && r.enabled == enabled
      ensures r.history == if enabled then history + [timestamp] else history
      ensures Valid() ==> r.Valid()
    {
      VecHistory(inner + [value], if enabled then history + [timestamp] else history, enabled)
    }

    /**
     * Undo every push, newest first, while it is stamped `t` or later: the trailing
     * run of pushes stamped `t` or later is popped at once.
     */
    function RollbackToTimestamp(t: Timestamp): (r: VecHistory<T>)
      requires Valid()
      ensures r.Valid() && r.enabled == enabled
      ensures |r.history| <= |history| && r.history == history[..|r.history|]
      ensures |inner| - |r.inner| == |history| - |r.history| && r.inner == inner[..|r.inner|]
      ensures forall i :: |r.history| <= i < |history| ==> history[i] >= t
      ensures r.history == [] || r.history[|r.history| - 1] < t
    {
      var popped := TrailingCount(history, t);
      VecHistory(inner[..|inner| - popped], history[..|history| - popped], enabled)
    }

    /** Reference definition of the rollback: undo the newest push while it is stamped `t` or later, one at a time. */
    function PopWhileAtOrAfter(t: Timestamp): VecHistory<T>
      requires Valid()
      decreases |history|
    {
      if |history| == 0 || history[|history| - 1] < t then this
      else VecHistory(inner[..|inner| - 1], history[..|history| - 1], enabled).PopWhileAtOrAfter(t)
    }

    /** When the newest push is stamped `t` or later, rolling back pops it and rolls back the rest. */
    lemma {:induction false} RollbackPopsNewest(t: Timestamp)
      requires Valid() && |history| > 0 && history[|history| - 1] >= t
      ensures RollbackToTimestamp(t)
              == VecHistory(inner[..|inner| - 1], history[..|history| - 1], enabled).RollbackToTimestamp(t)
    {
      var u := VecHistory(inner[..|inner| - 1], history[..|history| - 1], enabled);
      assert TrailingCount(history, t) == TrailingCount(u.history, t) + 1;
      var r, ru := RollbackToTimestamp(t), u.RollbackToTimestamp(t);
      assert ru.inner == r.inner;
      assert ru.history == r.history;
    }

    /** Popping the trailing run at once gives the state that popping push by push gives. */
    lemma {:induction false} RollbackIsPopWhileAtOrAfter(t: Timestamp)
      requires Valid()
      ensures RollbackToTimestamp(t) == PopWhileAtOrAfter(t)
      decreases |history|
    {
      if |history| == 0 || history[|history| - 1] < t {
        assert inner[..|inner|] == inner && history[..|history|] == history;
      } else {
        RollbackPopsNewest(t);
        VecHistory(inner[..|inner| - 1], history[..|history| - 1], enabled).RollbackIsPopWhileAtOrAfter(t);
      }
    }

    function DeleteHistory(): (r: VecHistory<T>)
      ensures r.inner == inner && r.history == [] && r.enabled == enabled
    {
      VecHistory(inner, [], enabled)
    }
  }

  function EmptyVecHistory<T>(enabled: bool): (r: VecHistory<T>)
    ensures r.inner == [] && r.history == [] && r.enabled == enabled && r.Valid()
  {
    VecHistory([], [], enabled)
  }

  // ---------------------------------------------------------------------------
  // Rollback correctness

  /** A sequence of `insert` calls, as (key, value, timestamp). */
  function InsertAll<K(==), V>(r: MapHistory<K, V>, ops: seq<(K, V, Timestamp)>): (r': MapHistory<K, V>)
    ensures r'.enabled == r.enabled
    ensures !r.enabled ==> r'.history == r.history
    ensures r.enabled ==> |r'.history| == |r.history| + |ops| && r'.history[..|r.history|] == r.history
    ensures r.enabled ==> forall i :: 0 <= i < |ops| ==> r'.history[|r.history| + i].timestamp == ops[i].2
  {
    if ops == [] then r
    else
      var prev := InsertAll(r, ops[..|ops| - 1]);
      var last := ops[|ops| - 1];
      var r' := prev.Insert(last.0, last.1, last.2);
      assert r.enabled ==> r'.history[..|prev.history|] == prev.history;
      r'
  }

  /** Extending the inserted prefix by one operation is one more `insert`. */
  lemma {:induction false} InsertAllPrefixStep<K, V>(r: MapHistory<K, V>, ops: seq<(K, V, Timestamp)>, i: nat)
    requires i < |ops|
    ensures InsertAll(r, ops[..i + 1]) == InsertAll(r, ops[..i]).Insert(ops[i].0, ops[i].1, ops[i].2)
  {
    assert ops[..i + 1][..i] == ops[..i];
  }

  /** Among several inserts of one key, the last one wins. */
  lemma {:induction false} InsertAllLastWins<K, V>(r: MapHistory<K, V>, ops: seq<(K, V, Timestamp)>, i: nat)
    requires i < |ops|
    requires forall j :: i < j < |ops| ==> ops[j].0 != ops[i].0
    ensures InsertAll(r, ops).Get(ops[i].0) == Some(ops[i].1)
  {
    if i < |ops| - 1 {
      InsertAllLastWins(r, ops[..|ops| - 1], i);
    }
  }

  /** A key no insert names keeps what it had. */
  lemma {:induction false} InsertAllUntouched<K, V>(r: MapHistory<K, V>, ops: seq<(K, V, Timestamp)>, k: K)
    requires forall j :: 0 <= j < |ops| ==> ops[j].0 != k
    ensures InsertAll(r, ops).Get(k) == r.Get(k)
  {
    if ops != [] {
      InsertAllUntouched(r, ops[..|ops| - 1], k);
    }
  }

  /**
   * Rolling back to `t` undoes exactly the inserts made at `t` or later: if nothing
   * in the log was stamped `t` or later, every later insert is undone and the
   * recorder returns to the state it had before them.
   */
  lemma {:induction false} RollbackUndoesLaterInserts<K, V>(r: MapHistory<K, V>, ops: seq<(K, V, Timestamp)>, t: Timestamp)
    requires r.enabled
    requires r.history == [] || r.history[|r.history| - 1].timestamp < t
    requires forall i :: 0 <= i < |ops| ==> ops[i].2 >= t
    ensures InsertAll(r, ops).RollbackToTimestamp(t) == r
  {
    if ops == [] {
    } else {
      var prev := InsertAll(r, ops[..|ops| - 1]);
      var last := ops[|ops| - 1];
      var cur := prev.Insert(last.0, last.1, last.2);
      assert cur.history[|cur.history| - 1].timestamp >= t;
      assert cur.RollbackToTimestamp(t) == cur.UndoLast().RollbackToTimestamp(t);
      RollbackUndoesLaterInserts(r, ops[..|ops| - 1], t);
    }
  }

  /** Inserting `a` and then `b` is inserting `a + b`. */
  lemma {:induction false} InsertAllAppend<K, V>(r: MapHistory<K, V>, a: seq<(K, V, Timestamp)>, b: seq<(K, V, Timestamp)>)
    ensures InsertAll(r, a + b) == InsertAll(InsertAll(r, a), b)
    decreases |b|
  {
    if b == [] {
      assert a + b == a;
    } else {
      assert (a + b)[..|a + b| - 1] == a + b[..|b| - 1];
      InsertAllAppend(r, a, b[..|b| - 1]);
    }
  }

  /** A rollback to `t` after inserts `before` and then inserts stamped `t` or later undoes exactly the latter. */
  lemma {:induction false} RollbackUndoesSuffix<K, V>(r: MapHistory<K, V>, before: seq<(K, V, Timestamp)>,
                                                      after: seq<(K, V, Timestamp)>, t: Timestamp)
    requires r.enabled
    requires InsertAll(r, before).history == [] || InsertAll(r, before).history[|InsertAll(r, before).history| - 1].timestamp < t
    requires forall i :: 0 <= i < |after| ==> after[i].2 >= t
    ensures InsertAll(r, before + after).RollbackToTimestamp(t) == InsertAll(r, before)
  {
    RollbackUndoesLaterInserts(InsertAll(r, before), after, t);
    InsertAllAppend(r, before, after);
  }

  /** Inserts stamped before `t` on a recorder quiet since `t` leave it quiet since `t`. */
  lemma {:induction false} InsertAllEarlierStaysQuiet<K, V>(r: MapHistory<K, V>, ops: seq<(K, V, Timestamp)>, t: Timestamp)
    requires r.enabled
    requires r.history == [] || r.history[|r.history| - 1].timestamp < t
    requires forall i :: 0 <= i < |ops| ==> ops[i].2 < t
    ensures InsertAll(r, ops).history == [] || InsertAll(r, ops).history[|InsertAll(r, ops).history| - 1].timestamp < t
  {
    if ops != [] {
      var h := InsertAll(r, ops).history;
      assert h[|r.history| + (|ops| - 1)].timestamp == ops[|ops| - 1].2;
    }
  }

  /**
   * After inserts stamped t1 < ... < tn on a recorder quiet since t1, a rollback to tk
   * gives back the recorder as it was after the first k - 1 inserts.
   */
  lemma {:induction false} RollbackToKth<K, V>(r: MapHistory<K, V>, ops: seq<(K, V, Timestamp)>, k: nat)
    requires r.enabled && 1 <= k <= |ops|
    requires r.history == [] || r.history[|r.history| - 1].timestamp < ops[0].2
    requires forall i, j :: 0 <= i < j < |ops| ==> ops[i].2 < ops[j].2
    ensures InsertAll(r, ops).RollbackToTimestamp(ops[k - 1].2) == InsertAll(r, ops[..k - 1])
  {
    var t := ops[k - 1].2;
    var before, after := ops[..k - 1], ops[k - 1..];
    assert k > 1 ==> ops[0].2 < ops[k - 1].2;
    forall i | 0 <= i < |before|
      ensures before[i].2 < t
    {
      assert before[i] == ops[i];
      assert ops[i].2 < ops[k - 1].2;
    }
    forall i | 0 <= i < |after|
      ensures after[i].2 >= t
    {
      assert after[i] == ops[k - 1 + i];
      assert i > 0 ==> ops[k - 1].2 < ops[k - 1 + i].2;
    }
    InsertAllEarlierStaysQuiet(r, before, t);
    assert before + after == ops;
    RollbackUndoesSuffix(r, before, after, t);
  }

  /** A rollback to a timestamp later than every logged change changes nothing. */
  lemma {:induction false} RollbackQuietIsIdentity<K, V>(r: MapHistory<K, V>, t: Timestamp)
    requires r.history == [] || r.history[|r.history| - 1].timestamp < t
    ensures r.RollbackToTimestamp(t) == r
  {
  }

  /** The single-insert case: an insert stamped `t` or later is undone by a rollback to `t`. */
  lemma {:induction false} RollbackUndoesInsert<K, V>(r: MapHistory<K, V>, key: K, value: V, timestamp: Timestamp, t: Timestamp)
    requires r.enabled
    requires r.history == [] || r.history[|r.history| - 1].timestamp < t
    requires timestamp >= t
    ensures r.Insert(key, value, timestamp).RollbackToTimestamp(t) == r
  {
    var cur := r.Insert(key, value, timestamp);
    assert cur.RollbackToTimestamp(t) == cur.UndoLast().RollbackToTimestamp(t);
  }

  /** An insert made only when the key is absent is undone the same way, and when it is skipped there is nothing to undo. */
  lemma {:induction false} RollbackUndoesInsertIfAbsent<K, V>(r: MapHistory<K, V>, key: K, value: V, timestamp: Timestamp, t: Timestamp)
    requires r.enabled
    requires r.history == [] || r.history[|r.history| - 1].timestamp < t
    requires timestamp >= t
    ensures (if key in r.inner then r else r.Insert(key, value, timestamp)).RollbackToTimestamp(t) == r
  {
    if key in r.inner {
      RollbackQuietIsIdentity(r, t);
    } else {
      RollbackUndoesInsert(r, key, value, timestamp, t);
    }
  }

  /** Rollback is idempotent, and a second rollback to a later timestamp does nothing. */
  lemma {:induction false} RollbackIdempotent<K, V>(r: MapHistory<K, V>, t: Timestamp, t': Timestamp)
    requires t <= t'
    ensures r.RollbackToTimestamp(t).RollbackToTimestamp(t') == r.RollbackToTimestamp(t)
  {
  }

  /** The same for the pushed-only vector. */
  lemma {:induction false} VecRollbackIdempotent<T>(v: VecHistory<T>, t: Timestamp, t': Timestamp)
    requires v.Valid() && t <= t'
    ensures v.RollbackToTimestamp(t).RollbackToTimestamp(t') == v.RollbackToTimestamp(t)
  {
  }

  // ---------------------------------------------------------------------------
  // Logs that record first inserts only

  /**
   * Read newest first, every record undoes the first insert of a key that is present
   * at that point, and the log below it has the same shape: the shape a log keeps when
   * a key is inserted only while absent. No key has two records.
   */
  ghost predicate FirstInsertsOnly<K, V>(r: MapHistory<K, V>)
    decreases |r.history|
  {
    |r.history| > 0 ==>
      var e := r.history[|r.history| - 1].record;
      e.previous == None && e.key in r.inner && FirstInsertsOnly(r.UndoLast())
  }

  lemma {:induction false} InsertAbsentKeepsFirstInsertsOnly<K, V>(r: MapHistory<K, V>, key: K, value: V, t: Timestamp)
    requires r.enabled && FirstInsertsOnly(r) && key !in r.inner
    ensures FirstInsertsOnly(r.Insert(key, value, t))
  {
  }

  lemma {:induction false} DeleteHistoryKeepsFirstInsertsOnly<K, V>(r: MapHistory<K, V>)
    ensures FirstInsertsOnly(r.DeleteHistory())
  {
  }

  /** Undoing the newest first insert removes exactly that key and keeps the logged shape. */
  lemma {:induction false} UndoLastKeepsFirstInsertsOnly<K, V>(r: MapHistory<K, V>)
    requires FirstInsertsOnly(r) && |r.history| > 0
    ensures var k := r.history[|r.history| - 1].record.key;
            && k in r.inner
            && r.UndoLast().inner.Keys == r.inner.Keys - {k}
            && |r.UndoLast().inner| == |r.inner| - 1
            && FirstInsertsOnly(r.UndoLast())
  {
    var u := r.UndoLast();
    var k := r.history[|r.history| - 1].record.key;
    assert u.inner.Keys == r.inner.Keys - {k};
    assert |u.inner| == |u.inner.Keys| == |r.inner.Keys| - 1;
  }

  /** A rollback keeps the logged shape and only ever removes keys. */
  lemma {:induction false} RollbackKeepsFirstInsertsOnly<K, V>(r: MapHistory<K, V>, t: Timestamp)
    requires FirstInsertsOnly(r)
    ensures FirstInsertsOnly(r.RollbackToTimestamp(t))
    ensures r.RollbackToTimestamp(t).inner.Keys <= r.inner.Keys
    decreases |r.history|
  {
    if |r.history| > 0 && r.history[|r.history| - 1].timestamp >= t {
      var u := r.UndoLast();
      UndoLastKeepsFirstInsertsOnly(r);
      assert r.RollbackToTimestamp(t) == u.RollbackToTimestamp(t);
      RollbackKeepsFirstInsertsOnly(u, t);
    }
  }

  /**
   * When the log records first inserts only, the number of trailing records stamped
   * `t` or later is the number of keys a rollback to `t` removes.
   */
  lemma {:induction false} RollbackForgetsTrailingKeys<K, V>(r: MapHistory<K, V>, t: Timestamp)
    requires FirstInsertsOnly(r)
    ensures TrailingCount(Stamps(r.history), t) == |r.inner| - |r.RollbackToTimestamp(t).inner|
    decreases |r.history|
  {
    var ts := Stamps(r.history);
    if |r.history| == 0 || r.history[|r.history| - 1].timestamp < t {
      assert TrailingCount(ts, t) == 0;
    } else {
      var u := r.UndoLast();
      UndoLastKeepsFirstInsertsOnly(r);
      StampsPrefix(r.history, |r.history| - 1);
      assert ts[|ts| - 1] >= t;
      assert TrailingCount(ts, t) == TrailingCount(Stamps(u.history), t) + 1;
      assert r.RollbackToTimestamp(t) == u.RollbackToTimestamp(t);
      RollbackForgetsTrailingKeys(u, t);
    }
  }
}
