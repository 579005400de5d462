/**
 * The two namespaces do not interfere: stable-store writes never touch a
 * log key, and log writes and deletions never touch a stable-store key.
 */
module Namespaces {
  import opened Bytes
  import opened Keys
  import opened Engine
  import opened LogStore
  import opened StableStore

  /** The part of the store in the log namespace. */
  function LogView(db: Store): Store {
    map k | k in db && IsLogKey(k) :: db[k]
  }

  /** The part of the store in the stable-store namespace. */
  function ConfView(db: Store): Store {
    map k | k in db && HasPrefix(k, ConfPrefix) :: db[k]
  }

  /** The log store's answers depend on the log namespace only. */
  lemma LogAnswersFollowLogView(db1: Store, db2: Store, f: Faults, codec: Codec)
    requires LogView(db1) == LogView(db2)
    ensures LogIndices(db1) == LogIndices(db2)
    ensures WellFormed(db1) <==> WellFormed(db2)
    ensures forall i :: GetLog(db1, f, codec, i) == GetLog(db2, f, codec, i)
  {
    assert forall k :: IsLogKey(k) ==> (k in db1 <==> k in LogView(db1));
    forall i | true
      ensures i in LogIndices(db1) <==> i in LogIndices(db2)
    {
      LogIndicesExact(db1, i);
      LogIndicesExact(db2, i);
    }
  }

  /** The stable store's answers depend on the stable-store namespace only. */
  lemma ConfAnswersFollowConfView(db1: Store, db2: Store, f: Faults)
    requires ConfView(db1) == ConfView(db2)
    ensures forall k :: Get(db1, f, k) == Get(db2, f, k)
  {
    forall k | true
      ensures Get(db1, f, k) == Get(db2, f, k)
    {
      NamespacesDisjoint(k, 0);
      assert ConfKey(k) in db1 <==> ConfKey(k) in ConfView(db1);
    }
  }

  /**
   * `Set` never touches a log key, so first and last index, the stored
   * indices and every `GetLog` answer are what they were.
   */
  lemma SetLeavesLogsAlone(db: Store, f: Faults, g: Faults, codec: Codec, k: seq<byte>, v: Value)
    ensures LogView(Set(db, f, k, v).store) == LogView(db)
    ensures LogIndices(Set(db, f, k, v).store) == LogIndices(db)
    ensures WellFormed(db) ==> WellFormed(Set(db, f, k, v).store)
    ensures forall i :: GetLog(Set(db, f, k, v).store, g, codec, i) == GetLog(db, g, codec, i)
  {
    NamespacesDisjoint(k, 0);
    LogAnswersFollowLogView(Set(db, f, k, v).store, db, g, codec);
  }

  /** Appending log entries never touches a stable-store key. */
  lemma StoreLogsLeavesConfAlone(db: Store, f: Faults, codec: Codec, logs: seq<Entry>)
    requires AllEncode(logs, codec)
    ensures ConfView(Staged(db, logs, codec)) == ConfView(db)
    ensures forall k :: Get(Staged(db, logs, codec), f, k) == Get(db, f, k)
  {
    var r := Staged(db, logs, codec);
    forall k | k in BatchKeys(logs)
      ensures !HasPrefix(k, ConfPrefix)
    {
      var j :| 0 <= j < |logs| && k == LogKey(logs[j].index);
      NamespacesDisjoint([], logs[j].index);
    }
    ConfAnswersFollowConfView(r, db, f);
  }

  /** Deleting a log range never touches a stable-store key. */
  lemma DeleteRangeLeavesConfAlone(db: Store, f: Faults, min: uint64, max: uint64)
    ensures ConfView(RemoveLogRange(db, min, max)) == ConfView(db)
    ensures forall k :: Get(RemoveLogRange(db, min, max), f, k) == Get(db, f, k)
  {
    forall k | HasPrefix(k, ConfPrefix)
      ensures !IsLogKey(k)
    {
      assert k[0] == 0x63;
    }
    ConfAnswersFollowConfView(RemoveLogRange(db, min, max), db, f);
  }

  /** The empty store is well formed, and every write keeps it so. */
  lemma EveryWriteKeepsWellFormed(db: Store, f: Faults, codec: Codec, logs: seq<Entry>,
                                  min: uint64, max: uint64, k: seq<byte>, v: Value)
    ensures WellFormed(map[])
    ensures WellFormed(db) ==> WellFormed(Set(db, f, k, v).store)
    ensures WellFormed(db) && AllEncode(logs, codec) ==> WellFormed(Staged(db, logs, codec))
    ensures WellFormed(db) ==> WellFormed(RemoveLogRange(db, min, max))
  {
    NamespacesDisjoint(k, 0);
  }
}
