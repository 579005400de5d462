/**
 * The log store: consensus log entries kept under the "logs" namespace,
 * one key per index, with first/last index discovery by prefix scans,
 * point lookup, all-or-nothing batch append and inclusive range deletion.
 * Every operation is one engine transaction.
 */
module LogStore {
  import opened Results
  import opened Bytes
  import opened Keys
  import opened Engine

  /** A consensus log entry; the store reads nothing from it but its index. */
  datatype Entry = Entry(index: uint64, term: uint64, data: seq<byte>)

  /** The external entry codec (`encodeMsgPack` / `decodeMsgPack`). */
  datatype Codec = Codec(encode: Entry -> Result<Value, string>, decode: Value -> Result<Entry, string>)

  /** The codec's assumed round trip on e: if it encodes e, it decodes the result back to e. */
  predicate RoundTripsOn(c: Codec, e: Entry) {
    c.encode(e).Success? ==> c.decode(c.encode(e).value) == Success(e)
  }

  /**
   * The store's invariant: every key in the log namespace is the prefix
   * followed by exactly eight index bytes. Every write below keeps it.
   */
  ghost predicate WellFormed(db: Store) {
    forall k :: k in db && IsLogKey(k) ==> IsIndexKey(k)
  }

  /** The indices that currently have an entry. */
  function LogIndices(db: Store): set<uint64> {
    set k | k in db && IsIndexKey(k) :: IndexOf(k)
  }

  lemma LogIndicesExact(db: Store, i: uint64)
    ensures i in LogIndices(db) <==> LogKey(i) in db
  {
    if i in LogIndices(db) {
      var k :| k in db && IsIndexKey(k) && IndexOf(k) == i;
      LogKeyOfIndex(k);
    }
    if LogKey(i) in db {
      IndexOfLogKey(i);
    }
  }

  // ---------------------------------------------------------------------
  // FirstIndex / LastIndex
  // ---------------------------------------------------------------------

  /** A stored index keeps the forward scan in the log namespace, at an index no larger. */
  lemma ForwardScanBelow(db: Store, order: seq<Key>, pos: nat, i: uint64)
    requires WellFormed(db) && Enumerates(order, db)
    requires pos <= |order|
    requires forall q :: 0 <= q < pos ==> LexLess(order[q], LogKey(0))
    requires pos < |order| ==> !LexLess(order[pos], LogKey(0))
    requires LogKey(i) in db
    ensures pos < |order| && IsIndexKey(order[pos]) && IndexOf(order[pos]) <= i
  {
    var q :| 0 <= q < |order| && order[q] == LogKey(i);
    LogKeyOrder(i, 0);
    assert pos <= q;
    if q == pos {
      IndexOfLogKey(i);
    } else {
      var c := order[pos];
      assert LexLess(c, LogKey(i));
      LogKeyBounds(i);
      assert c in db;
      if c != LogKey(0) {
        LexTotal(c, LogKey(0));
      }
      assert LexLessOrEqual(LogKey(0), c);
      LogNamespaceContiguous(0, i, c);
      LogKeyOfIndex(c);
      LogKeyOrder(IndexOf(c), i);
    }
  }

  /**
   * The key a forward seek to the smallest log key lands on is the key of
   * the smallest stored index, if any index is stored.
   */
  lemma ForwardScanFindsLowest(db: Store, order: seq<Key>, pos: nat)
    requires WellFormed(db) && Enumerates(order, db)
    requires pos <= |order|
    requires forall q :: 0 <= q < pos ==> LexLess(order[q], LogKey(0))
    requires forall q :: pos <= q < |order| ==> !LexLess(order[q], LogKey(0))
    ensures pos < |order| && IsLogKey(order[pos]) ==>
      IsIndexKey(order[pos]) && IndexOf(order[pos]) in LogIndices(db)
      && forall i :: i in LogIndices(db) ==> IndexOf(order[pos]) <= i
    ensures !(pos < |order| && IsLogKey(order[pos])) ==> LogIndices(db) == {}
  {
    forall i | i in LogIndices(db)
      ensures pos < |order| && IsIndexKey(order[pos]) && IndexOf(order[pos]) <= i
    {
      LogIndicesExact(db, i);
      ForwardScanBelow(db, order, pos, i);
    }
    if pos < |order| && IsLogKey(order[pos]) {
      assert order[pos] in db;
      LogIndicesExact(db, IndexOf(order[pos]));
      LogKeyOfIndex(order[pos]);
    }
  }

  /** A stored index keeps the reverse scan in the log namespace, at an index no smaller. */
  lemma ReverseScanAbove(db: Store, order: seq<Key>, pos: nat, i: uint64)
    requires WellFormed(db) && Enumerates(order, db)
    requires pos <= |order|
    requires 0 < pos ==> !LexLess(LogKey(MAX_UINT64), order[pos - 1])
    requires forall q :: pos <= q < |order| ==> LexLess(LogKey(MAX_UINT64), order[q])
    requires LogKey(i) in db
    ensures 0 < pos && IsIndexKey(order[pos - 1]) && i <= IndexOf(order[pos - 1])
  {
    var q :| 0 <= q < |order| && order[q] == LogKey(i);
    LogKeyOrder(MAX_UINT64, i);
    assert q < pos;
    if q == pos - 1 {
      IndexOfLogKey(i);
    } else {
      var c := order[pos - 1];
      assert LexLess(LogKey(i), c);
      assert c in db;
      assert LexLessOrEqual(c, LogKey(MAX_UINT64)) by {
        if c != LogKey(MAX_UINT64) {
          LexTotal(c, LogKey(MAX_UINT64));
        }
      }
      LogNamespaceContiguous(i, MAX_UINT64, c);
      LogKeyOfIndex(c);
      LogKeyOrder(i, IndexOf(c));
    }
  }

  /**
   * The key a reverse seek to the largest log key lands on is the key of
   * the largest stored index, if any index is stored.
   */
  lemma ReverseScanFindsHighest(db: Store, order: seq<Key>, pos: nat)
    requires WellFormed(db) && Enumerates(order, db)
    requires pos <= |order|
    requires forall q :: 0 <= q < pos ==> !LexLess(LogKey(MAX_UINT64), order[q])
    requires forall q :: pos <= q < |order| ==> LexLess(LogKey(MAX_UINT64), order[q])
    ensures 0 < pos && IsLogKey(order[pos - 1]) ==>
      IsIndexKey(order[pos - 1]) && IndexOf(order[pos - 1]) in LogIndices(db)
      && forall i :: i in LogIndices(db) ==> i <= IndexOf(order[pos - 1])
    ensures !(0 < pos && IsLogKey(order[pos - 1])) ==> LogIndices(db) == {}
  {
    forall i | i in LogIndices(db)
      ensures 0 < pos && IsIndexKey(order[pos - 1]) && i <= IndexOf(order[pos - 1])
    {
      LogIndicesExact(db, i);
      ReverseScanAbove(db, order, pos, i);
    }
    if 0 < pos && IsLogKey(order[pos - 1]) {
      assert order[pos - 1] in db;
      LogIndicesExact(db, IndexOf(order[pos - 1]));
      LogKeyOfIndex(order[pos - 1]);
    }
  }

  /**
   * `FirstIndex`: seek forward to "logs" ++ MIN_LOG_KEY and return the index
   * of the first key still in the log namespace, or 0 when there is none.
   */
  method FirstIndex(db: Store, order: seq<Key>) returns (first: uint64)
    requires WellFormed(db) && Enumerates(order, db)
    ensures LogIndices(db) == {} ==> first == 0
    ensures LogIndices(db) != {} ==>
      first in LogIndices(db) && forall i :: i in LogIndices(db) ==> first <= i
  {
    SeekKeysAreExtremeLogKeys();
    var pos := SeekForward(order, LogsPrefix + MinLogKey);
    ForwardScanFindsLowest(db, order, pos);
    if pos < |order| && IsLogKey(order[pos]) {
      first := IndexOf(order[pos]);
    } else {
      first := 0;
    }
  }

  /**
   * `LastIndex`: seek backward to "logs" ++ MAX_LOG_KEY and return the index
   * of the first key still in the log namespace, or 0 when there is none.
   */
  method LastIndex(db: Store, order: seq<Key>) returns (last: uint64)
    requires WellFormed(db) && Enumerates(order, db)
    ensures LogIndices(db) == {} ==> last == 0
    ensures LogIndices(db) != {} ==>
      last in LogIndices(db) && forall i :: i in LogIndices(db) ==> i <= last
  {
    SeekKeysAreExtremeLogKeys();
    var pos := SeekReverse(order, LogsPrefix + MaxLogKey);
    ReverseScanFindsHighest(db, order, pos);
    if 0 < pos && IsLogKey(order[pos - 1]) {
      last := IndexOf(order[pos - 1]);
    } else {
      last := 0;
    }
  }

  // ---------------------------------------------------------------------
  // GetLog
  // ---------------------------------------------------------------------

  /** `GetLog`: the entry stored under index idx, decoded. */
  function GetLog(db: Store, f: Faults, codec: Codec, idx: uint64): (r: Result<Entry, Error>)
    ensures r.Success? ==> LogKey(idx) in db && codec.decode(db[LogKey(idx)]) == Success(r.value)
    ensures r == Failure(LogNotFound) <==> LogKey(idx) !in db && f.read(LogKey(idx)).None?
    ensures LogKey(idx) in db && f.read(LogKey(idx)).None? ==>
      (r.Success? <==> codec.decode(db[LogKey(idx)]).Success?)
      && (codec.decode(db[LogKey(idx)]).Failure? ==>
            r == Failure(CodecFailure(codec.decode(db[LogKey(idx)]).error)))
    ensures f.read(LogKey(idx)).Some? ==> r == Failure(EngineFailure(f.read(LogKey(idx)).value))
  {
    var key := LogKey(idx);
    match f.read(key)
    case Some(why) => Failure(EngineFailure(why))
    case None =>
      if key !in db then Failure(LogNotFound)
      else
        match codec.decode(db[key])
        case Success(e) => Success(e)
        case Failure(why) => Failure(CodecFailure(why))
  }

  // ---------------------------------------------------------------------
  // StoreLogs / StoreLog
  // ---------------------------------------------------------------------

  predicate AllEncode(logs: seq<Entry>, codec: Codec) {
    forall j :: 0 <= j < |logs| ==> codec.encode(logs[j]).Success?
  }

  /** e encodes and the engine accepts the staged write of its encoding. */
  predicate StageOk(f: Faults, codec: Codec, e: Entry) {
    codec.encode(e).Success? && f.write(LogKey(e.index), codec.encode(e).value).None?
  }

  /** The error staging e returns when it fails: the codec's error, else the engine's. */
  function StageError(f: Faults, codec: Codec, e: Entry): Error
    requires !StageOk(f, codec, e)
  {
    match codec.encode(e)
    case Failure(why) => CodecFailure(why)
    case Success(v) => EngineFailure(f.write(LogKey(e.index), v).value)
  }

  /** Every entry encodes and every staged write is accepted. */
  predicate BatchStageable(f: Faults, codec: Codec, logs: seq<Entry>) {
    forall j :: 0 <= j < |logs| ==> StageOk(f, codec, logs[j])
  }

  /** logs[j] is the first entry of the batch whose staging fails. */
  predicate FirstBatchFault(f: Faults, codec: Codec, logs: seq<Entry>, j: int) {
    0 <= j < |logs| && BatchStageable(f, codec, logs[..j]) && !StageOk(f, codec, logs[j])
  }

  /**
   * Every entry encodes, every staged write is accepted, and so is the
   * commit, which an empty batch never reaches.
   */
  predicate BatchAccepted(f: Faults, codec: Codec, logs: seq<Entry>) {
    BatchStageable(f, codec, logs) && (|logs| > 0 ==> f.commit.None?)
  }

  /** The keys a batch writes. */
  function BatchKeys(logs: seq<Entry>): set<Key> {
    set j | 0 <= j < |logs| :: LogKey(logs[j].index)
  }

  /** logs[j] is the last entry of the batch with its index, so its write is the one that stays. */
  predicate LastWithIndex(logs: seq<Entry>, j: nat)
    requires j < |logs|
  {
    forall j' :: j < j' < |logs| ==> logs[j'].index != logs[j].index
  }

  /** The staged copy after writing the batch, entry by entry, in order. */
  function Staged(db: Store, logs: seq<Entry>, codec: Codec): (r: Store)
    requires AllEncode(logs, codec)
    ensures forall k :: k in r <==> k in db || k in BatchKeys(logs)
    ensures forall k :: k in db && k !in BatchKeys(logs) ==> r[k] == db[k]
    decreases |logs|
  {
    if |logs| == 0 then db
    else
      var init := logs[..|logs| - 1];
      var last := logs[|logs| - 1];
      assert BatchKeys(logs) == BatchKeys(init) + {LogKey(last.index)} by {
        assert forall j :: 0 <= j < |init| ==> init[j] == logs[j];
      }
      Staged(db, init, codec)[LogKey(last.index) := codec.encode(last).value]
  }

  /** The entry that stays under an index is the last one of the batch with that index. */
  lemma {:induction false} StagedHoldsLastWrite(db: Store, logs: seq<Entry>, codec: Codec, j: nat)
    requires AllEncode(logs, codec)
    requires j < |logs| && LastWithIndex(logs, j)
    ensures LogKey(logs[j].index) in Staged(db, logs, codec)
    ensures Staged(db, logs, codec)[LogKey(logs[j].index)] == codec.encode(logs[j]).value
    decreases |logs|
  {
    var init := logs[..|logs| - 1];
    if j < |logs| - 1 {
      assert init[j] == logs[j];
      assert LastWithIndex(init, j);
      StagedHoldsLastWrite(db, init, codec, j);
      LogKeyOrder(logs[j].index, logs[|logs| - 1].index);
    }
  }

  /** Staging one more entry of the batch writes its encoding over the staged prefix. */
  lemma StagedOneMore(db: Store, f: Faults, logs: seq<Entry>, codec: Codec, n: nat)
    requires n < |logs| && BatchStageable(f, codec, logs[..n])
    requires codec.encode(logs[n]).Success?
    requires f.write(LogKey(logs[n].index), codec.encode(logs[n]).value).None?
    ensures BatchStageable(f, codec, logs[..n + 1])
    ensures Staged(db, logs[..n + 1], codec) ==
      Staged(db, logs[..n], codec)[LogKey(logs[n].index) := codec.encode(logs[n]).value]
  {
    assert logs[..n + 1][..n] == logs[..n];
  }

  /**
   * Committing a fully staged batch: the batch is published unless the
   * commit fails, and an empty batch, having staged nothing, cannot fail.
   */
  lemma CommitOfStagedBatch(db: Store, t: Txn, f: Faults, codec: Codec, logs: seq<Entry>)
    requires BatchStageable(f, codec, logs)
    requires t.snapshot == db && t.pending == Staged(db, logs, codec) && (t.staged <==> 0 < |logs|)
    ensures Commit(t, f).err.Some? ==> Commit(t, f).store == db
    ensures Commit(t, f).err.None? ==> Commit(t, f).store == Staged(db, logs, codec)
    ensures Commit(t, f).err.None? <==> BatchAccepted(f, codec, logs)
  {
  }

  /**
   * The staging loop of `StoreLogs`: encode and stage each entry in order.
   * The first encode or write failure stops it with that error; otherwise
   * the whole batch is staged.
   */
  method StageBatch(db: Store, f: Faults, codec: Codec, logs: seq<Entry>) returns (t: Txn, err: Option<Error>)
    ensures t.snapshot == db
    ensures err.None? <==> BatchStageable(f, codec, logs)
    ensures err.None? ==> t.pending == Staged(db, logs, codec) && (t.staged <==> 0 < |logs|)
    ensures err.Some? ==> exists j :: FirstBatchFault(f, codec, logs, j) && err == Some(StageError(f, codec, logs[j]))
  {
    t := Begin(db);
    var n := 0;
    while n < |logs|
      invariant n <= |logs|
      invariant t.snapshot == db
      invariant BatchStageable(f, codec, logs[..n])
      invariant t.pending == Staged(db, logs[..n], codec)
      invariant t.staged <==> 0 < n
    {
      var key := LogKey(logs[n].index);
      var val := codec.encode(logs[n]);
      if val.Failure? {
        err := Some(CodecFailure(val.error));
        assert FirstBatchFault(f, codec, logs, n);
        return;
      }
      var staged := TxnSet(t, f, key, val.value);
      if staged.Failure? {
        err := Some(staged.error);
        assert FirstBatchFault(f, codec, logs, n);
        return;
      }
      StagedOneMore(db, f, logs, codec, n);
      t := staged.value;
      n := n + 1;
    }
    assert logs[..n] == logs;
    err := None;
  }

  /**
   * `StoreLogs`: stage every entry of the batch in one transaction and
   * commit once. The first encode or write failure returns at once and the
   * deferred discard drops everything staged, so the store is unchanged.
   */
  method StoreLogs(db: Store, f: Faults, codec: Codec, logs: seq<Entry>) returns (out: Outcome)
    ensures out.err.Some? ==> out.store == db
    ensures out.err.None? ==> AllEncode(logs, codec) && out.store == Staged(db, logs, codec)
    ensures out.err.None? <==> BatchAccepted(f, codec, logs)
    ensures !BatchStageable(f, codec, logs) ==>
      exists j :: FirstBatchFault(f, codec, logs, j) && out.err == Some(StageError(f, codec, logs[j]))
    ensures BatchStageable(f, codec, logs) && 0 < |logs| && f.commit.Some? ==>
      out.err == Some(EngineFailure(f.commit.value))
  {
    var t, err := StageBatch(db, f, codec, logs);
    if err.Some? {
      out := Outcome(Discard(t), err);
    } else {
      out := Commit(t, f);
      CommitOfStagedBatch(db, t, f, codec, logs);
    }
  }

  /** `StoreLog`: a batch of one. */
  method StoreLog(db: Store, f: Faults, codec: Codec, e: Entry) returns (out: Outcome)
    ensures out.err.Some? ==> out.store == db
    ensures out.err.None? ==>
      codec.encode(e).Success? && out.store == db[LogKey(e.index) := codec.encode(e).value]
    ensures out.err.None? <==>
      codec.encode(e).Success? && f.write(LogKey(e.index), codec.encode(e).value).None? && f.commit.None?
    ensures codec.encode(e).Failure? ==> out.err == Some(CodecFailure(codec.encode(e).error))
    ensures codec.encode(e).Success? && f.write(LogKey(e.index), codec.encode(e).value).Some? ==>
      out.err == Some(EngineFailure(f.write(LogKey(e.index), codec.encode(e).value).value))
    ensures StageOk(f, codec, e) && f.commit.Some? ==> out.err == Some(EngineFailure(f.commit.value))
  {
    out := StoreLogs(db, f, codec, [e]);
    assert [e][..0] == [];
    assert [e][0] == e;
  }

  /** A stored entry reads back: `GetLog` of its index decodes to the entry itself. */
  lemma StoredLogReadsBack(db: Store, logs: seq<Entry>, codec: Codec, j: nat)
    requires AllEncode(logs, codec)
    requires j < |logs| && LastWithIndex(logs, j) && RoundTripsOn(codec, logs[j])
    ensures GetLog(Staged(db, logs, codec), NoFaults(), codec, logs[j].index) == Success(logs[j])
  {
    StagedHoldsLastWrite(db, logs, codec, j);
  }

  /** After a batch, the stored indices are the old ones plus the batch's. */
  lemma StagedLogIndices(db: Store, logs: seq<Entry>, codec: Codec)
    requires AllEncode(logs, codec)
    ensures LogIndices(Staged(db, logs, codec)) == LogIndices(db) + (set j | 0 <= j < |logs| :: logs[j].index)
  {
    var r := Staged(db, logs, codec);
    forall i: uint64
      ensures i in LogIndices(r) <==> i in LogIndices(db) || exists j :: 0 <= j < |logs| && logs[j].index == i
    {
      LogIndicesExact(r, i);
      LogIndicesExact(db, i);
      if LogKey(i) in BatchKeys(logs) {
        var j :| 0 <= j < |logs| && LogKey(logs[j].index) == LogKey(i);
        LogKeyOrder(logs[j].index, i);
      }
    }
  }

  // ---------------------------------------------------------------------
  // DeleteRange
  // ---------------------------------------------------------------------

  /** k is the key of an index in [min, max]. */
  predicate InRange(k: Key, min: uint64, max: uint64) {
    IsIndexKey(k) && min <= IndexOf(k) <= max
  }

  /**
   * k is the stored key of the range whose delete fails with the lowest
   * index: the one the ascending deleting scan stops at.
   */
  predicate FirstDeleteFault(db: Store, f: Faults, min: uint64, max: uint64, k: Key) {
    && k in db && InRange(k, min, max) && f.delete(k).Some?
    && forall k' :: k' in db && InRange(k', min, max) && IndexOf(k') < IndexOf(k) ==> f.delete(k').None?
  }

  /** The contents once every log key with an index in [min, max] is gone. */
  function RemoveLogRange(db: Store, min: uint64, max: uint64): Store {
    map k | k in db && !InRange(k, min, max) :: db[k]
  }

  /**
   * When the deleting scan stops, at the end, outside the log namespace, or
   * at an index above max, it has passed every key in the range.
   */
  lemma DeleteScanComplete(db: Store, order: seq<Key>, min: uint64, max: uint64, pos: nat, cur: nat,
                            passed: set<Key>)
    requires WellFormed(db) && Enumerates(order, db)
    requires pos <= cur <= |order|
    requires forall q :: 0 <= q < pos ==> LexLess(order[q], LogKey(min))
    requires cur < |order| ==> !IsLogKey(order[cur]) || (IsIndexKey(order[cur]) && max < IndexOf(order[cur]))
    requires forall q :: pos <= q < |order| ==> !LexLess(order[q], LogKey(min))
    requires forall q :: pos <= q < cur ==> order[q] in passed
    ensures forall k :: k in db && InRange(k, min, max) ==> k in passed
  {
    forall k | k in db && InRange(k, min, max)
      ensures exists q :: pos <= q < cur && order[q] == k
    {
      var i := IndexOf(k);
      LogKeyOfIndex(k);
      var q :| 0 <= q < |order| && order[q] == k;
      LogKeyOrder(i, min);
      assert pos <= q;
      if cur <= q {
        var c := order[cur];
        assert LexLessOrEqual(c, k) by {
          if cur < q {
            assert LexLess(order[cur], order[q]);
          }
        }
        assert LexLessOrEqual(LogKey(min), c) by {
          if c != LogKey(min) {
            LexTotal(c, LogKey(min));
          }
        }
        LogNamespaceContiguous(min, i, c);
        assert c in db;
        LogKeyOfIndex(c);
        if c != k {
          LogKeyOrder(i, IndexOf(c));
          LexAsymmetric(c, k);
        }
        assert false;
      }
    }
  }

  /** Removing exactly the keys of the range is removing the range. */
  lemma RemovedExactlyTheRange(db: Store, gone: set<Key>, min: uint64, max: uint64)
    requires forall k :: k in gone ==> k in db && InRange(k, min, max)
    requires forall k :: k in db && InRange(k, min, max) ==> k in gone
    ensures db - gone == RemoveLogRange(db, min, max)
  {
  }

  /** A log key the deleting scan reaches is a stored index key at or above min. */
  lemma ScannedLogKeyAtLeastMin(db: Store, order: seq<Key>, min: uint64, pos: nat, cur: nat)
    requires WellFormed(db) && Enumerates(order, db)
    requires pos <= cur < |order| && IsLogKey(order[cur])
    requires forall q :: pos <= q < |order| ==> !LexLess(order[q], LogKey(min))
    ensures order[cur] in db && IsIndexKey(order[cur]) && min <= IndexOf(order[cur])
  {
    assert order[cur] in db;
    LogKeyOfIndex(order[cur]);
    LogKeyOrder(IndexOf(order[cur]), min);
  }

  /**
   * Committing the deletion of exactly the keys of the range: the range is
   * removed unless the commit fails, and a commit with nothing deleted
   * cannot fail.
   */
  lemma CommitOfDeletedRange(db: Store, t: Txn, f: Faults, gone: set<Key>, min: uint64, max: uint64)
    requires t.snapshot == db && t.pending == db - gone && (t.staged <==> gone != {})
    requires forall k :: k in gone ==> k in db && InRange(k, min, max) && f.delete(k).None?
    requires forall k :: k in db && InRange(k, min, max) ==> k in gone
    ensures Commit(t, f).err.None? ==> Commit(t, f).store == RemoveLogRange(db, min, max)
    ensures Commit(t, f).err.Some? ==> Commit(t, f).store == db
    ensures Commit(t, f).err.Some? <==> f.commit.Some? && exists k :: k in db && InRange(k, min, max)
    ensures (forall k :: k in db ==> !InRange(k, min, max)) ==> Commit(t, f) == Outcome(db, None)
    ensures max < min ==> Commit(t, f) == Outcome(db, None)
  {
    RemovedExactlyTheRange(db, gone, min, max);
    if gone != {} {
      var k :| k in gone;
      assert k in db && InRange(k, min, max);
    }
  }

  /** Deleting one more key from the store without gone is deleting gone plus that key. */
  lemma DeleteOneMore(db: Store, gone: set<Key>, k: Key)
    ensures (db - gone) - {k} == db - (gone + {k})
  {
  }

  /**
   * Every stored key of the range with an index below that of the key the
   * scan is at has already been passed.
   */
  lemma EarlierInRangeKeysPassed(db: Store, order: seq<Key>, min: uint64, max: uint64, pos: nat, cur: nat,
                                 passed: set<Key>)
    requires WellFormed(db) && Enumerates(order, db)
    requires pos <= cur < |order| && IsIndexKey(order[cur])
    requires forall q :: 0 <= q < pos ==> LexLess(order[q], LogKey(min))
    requires forall q :: pos <= q < cur ==> order[q] in passed
    ensures forall k :: k in db && InRange(k, min, max) && IndexOf(k) < IndexOf(order[cur]) ==> k in passed
  {
    forall k | k in db && InRange(k, min, max) && IndexOf(k) < IndexOf(order[cur])
      ensures k in passed
    {
      var q :| 0 <= q < |order| && order[q] == k;
      LogKeyOfIndex(k);
      LogKeyOfIndex(order[cur]);
      LogKeyOrder(IndexOf(k), IndexOf(order[cur]));
      if cur <= q {
        if cur < q {
          LexAsymmetric(order[cur], k);
        } else {
          LexIrreflexive(k);
        }
        assert false;
      }
      if q < pos {
        LogKeyOrder(IndexOf(k), min);
        assert false;
      }
    }
  }

  /**
   * The deleting scan of `DeleteRange`, from the position a forward seek to
   * min's key lands on: delete each log key met until an index above max.
   * A failing delete stops the scan with that error; otherwise exactly the
   * stored keys of the range are staged for deletion.
   */
  method DeleteScan(db: Store, order: seq<Key>, f: Faults, min: uint64, max: uint64, pos: nat)
    returns (t: Txn, err: Option<Error>, ghost gone: set<Key>)
    requires WellFormed(db) && Enumerates(order, db)
    requires pos <= |order|
    requires forall q :: 0 <= q < pos ==> LexLess(order[q], LogKey(min))
    requires forall q :: pos <= q < |order| ==> !LexLess(order[q], LogKey(min))
    ensures t.snapshot == db
    ensures err.Some? ==> exists k :: k in db && InRange(k, min, max) && f.delete(k).Some?
    ensures err.Some? ==> exists k :: FirstDeleteFault(db, f, min, max, k) && err == Some(EngineFailure(f.delete(k).value))
    ensures err.None? ==> t.pending == db - gone && (t.staged <==> gone != {})
    ensures err.None? ==> forall k :: k in gone <==> k in db && InRange(k, min, max)
    ensures forall k :: k in gone ==> f.delete(k).None?
  {
    t := Begin(db);
    var cur := pos;
    gone := {};
    while cur < |order| && IsLogKey(order[cur])
      invariant pos <= cur <= |order|
      invariant t.snapshot == db
      invariant forall k :: k in gone ==> k in db && InRange(k, min, max) && f.delete(k).None?
      invariant forall q :: pos <= q < cur ==> order[q] in gone
      invariant t.pending == db - gone
      invariant t.staged <==> gone != {}
    {
      var k := order[cur];
      ScannedLogKeyAtLeastMin(db, order, min, pos, cur);
      if IndexOf(k) > max {
        break;
      }
      var deleted := TxnDelete(t, f, k);
      if deleted.Failure? {
        EarlierInRangeKeysPassed(db, order, min, max, pos, cur, gone);
        assert FirstDeleteFault(db, f, min, max, k);
        err := Some(deleted.error);
        return;
      }
      DeleteOneMore(db, gone, k);
      t := deleted.value;
      gone := gone + {k};
      cur := cur + 1;
    }
    DeleteScanComplete(db, order, min, max, pos, cur, gone);
    err := None;
  }

  /**
   * `DeleteRange`: seek to the key of min, delete each log key met until
   * an index above max (the scan stops there), then commit once. A failing
   * delete returns at once and the deferred discard drops the transaction.
   */
  method DeleteRange(db: Store, order: seq<Key>, f: Faults, min: uint64, max: uint64) returns (out: Outcome)
    requires WellFormed(db) && Enumerates(order, db)
    ensures out.err.None? ==> out.store == RemoveLogRange(db, min, max)
    ensures out.err.Some? ==> out.store == db
    ensures out.err.Some? <==>
      || (exists k :: k in db && InRange(k, min, max) && f.delete(k).Some?)
      || (f.commit.Some? && exists k :: k in db && InRange(k, min, max))
    ensures (forall k :: k in db ==> !InRange(k, min, max)) ==> out == Outcome(db, None)
    ensures max < min ==> out == Outcome(db, None)
    ensures (exists k :: k in db && InRange(k, min, max) && f.delete(k).Some?) ==>
      exists k :: FirstDeleteFault(db, f, min, max, k) && out.err == Some(EngineFailure(f.delete(k).value))
    ensures (forall k :: k in db && InRange(k, min, max) ==> f.delete(k).None?) && out.err.Some? ==>
      f.commit.Some? && out.err == Some(EngineFailure(f.commit.value))
  {
    var pos := SeekForward(order, LogKey(min));
    var t, err, gone := DeleteScan(db, order, f, min, max, pos);
    if err.Some? {
      out := Outcome(Discard(t), err);
    } else {
      out := Commit(t, f);
      CommitOfDeletedRange(db, t, f, gone, min, max);
    }
  }

  /**
   * `DeleteRange` twice over the same range: once the first call succeeds,
   * the second deletes nothing and succeeds under any engine faults, since
   * it stages nothing and so its commit does not reach the engine.
   */
  method DeleteRangeTwice(db: Store, order: seq<Key>, after: seq<Key>, f: Faults, g: Faults,
                          min: uint64, max: uint64) returns (first: Outcome, second: Outcome)
    requires WellFormed(db) && Enumerates(order, db)
    requires Enumerates(after, RemoveLogRange(db, min, max))
    ensures first.err.None? ==> first.store == RemoveLogRange(db, min, max)
    ensures first.err.None? ==> second == Outcome(first.store, None)
  {
    first := DeleteRange(db, order, f, min, max);
    if first.err.None? {
      RemoveLogRangeIdempotent(db, min, max);
      second := DeleteRange(first.store, after, g, min, max);
    } else {
      second := first;
    }
  }

  /** Range deletion is exact and inclusive: indices in [min, max] go, every other key stays as it was. */
  lemma RemoveLogRangeExact(db: Store, min: uint64, max: uint64)
    ensures LogIndices(RemoveLogRange(db, min, max)) == set i | i in LogIndices(db) && (i < min || max < i)
    ensures forall k :: k in db && !InRange(k, min, max) ==>
      k in RemoveLogRange(db, min, max) && RemoveLogRange(db, min, max)[k] == db[k]
    ensures forall k :: k in RemoveLogRange(db, min, max) ==> k in db
  {
    var r := RemoveLogRange(db, min, max);
    forall i: uint64
      ensures i in LogIndices(r) <==> i in LogIndices(db) && (i < min || max < i)
    {
      LogIndicesExact(r, i);
      LogIndicesExact(db, i);
      IndexOfLogKey(i);
    }
  }

  /** A second identical `DeleteRange` finds nothing to delete and leaves the store as it is. */
  lemma RemoveLogRangeIdempotent(db: Store, min: uint64, max: uint64)
    ensures forall k :: k in RemoveLogRange(db, min, max) ==> !InRange(k, min, max)
    ensures RemoveLogRange(RemoveLogRange(db, min, max), min, max) == RemoveLogRange(db, min, max)
  {
  }

  /** With min > max the first key reached is already beyond the range: nothing is deleted. */
  lemma EmptyRangeIsNoOp(db: Store, min: uint64, max: uint64)
    requires max < min
    ensures RemoveLogRange(db, min, max) == db
  {
  }

  /** `GetLog` of a deleted index reports the log as not found; every other index reads as before. */
  lemma DeletedLogNotFound(db: Store, f: Faults, codec: Codec, min: uint64, max: uint64, i: uint64)
    requires f.read(LogKey(i)).None?
    ensures min <= i <= max ==> GetLog(RemoveLogRange(db, min, max), f, codec, i) == Failure(LogNotFound)
    ensures !(min <= i <= max) ==> GetLog(RemoveLogRange(db, min, max), f, codec, i) == GetLog(db, f, codec, i)
  {
    IndexOfLogKey(i);
  }
}
