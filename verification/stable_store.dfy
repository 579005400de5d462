/**
 * The stable store: small pieces of state the consensus engine must keep
 * across restarts, stored under the "conf" namespace, as raw bytes or as
 * an unsigned 64-bit integer in the same eight-byte big-endian form as
 * log indices.
 */
module StableStore {
  import opened Results
  import opened Bytes
  import opened Keys
  import opened Engine

  /** `Set`: write conf ++ k to v in one transaction and commit. */
  function Set(db: Store, f: Faults, k: seq<byte>, v: Value): (out: Outcome)
    ensures out.err.None? ==> out.store == db[ConfKey(k) := v]
    ensures out.err.Some? ==> out.store == db
    ensures out.err.None? <==> f.write(ConfKey(k), v).None? && f.commit.None?
    ensures f.write(ConfKey(k), v).Some? ==> out.err == Some(EngineFailure(f.write(ConfKey(k), v).value))
    ensures f.write(ConfKey(k), v).None? && f.commit.Some? ==> out.err == Some(EngineFailure(f.commit.value))
  {
    var t := Begin(db);
    match TxnSet(t, f, ConfKey(k), v)
    case Failure(e) => Outcome(Discard(t), Some(e))
    case Success(staged) => Commit(staged, f)
  }

  /** `Get`: the bytes stored under conf ++ k. */
  function Get(db: Store, f: Faults, k: seq<byte>): (r: Result<Value, Error>)
    ensures r.Success? ==> ConfKey(k) in db && r.value == db[ConfKey(k)]
    ensures r == Failure(KeyNotFound) <==> ConfKey(k) !in db && f.read(ConfKey(k)).None?
    ensures ConfKey(k) in db && f.read(ConfKey(k)).None? ==> r == Success(db[ConfKey(k)])
    ensures f.read(ConfKey(k)).Some? ==> r == Failure(EngineFailure(f.read(ConfKey(k)).value))
  {
    var key := ConfKey(k);
    match f.read(key)
    case Some(why) => Failure(EngineFailure(why))
    case None =>
      if key !in db then Failure(KeyNotFound) else Success(db[key])
  }

  /** `SetUint64`: `Set` of the eight big-endian bytes of n. */
  function SetUint64(db: Store, f: Faults, k: seq<byte>, n: uint64): (out: Outcome)
    ensures out.err.None? ==> out.store == db[ConfKey(k) := Uint64ToBytes(n)]
    ensures out.err.None? ==> BytesToUint64(out.store[ConfKey(k)]) == n
    ensures out.err.Some? ==> out.store == db
    ensures out.err.None? <==> f.write(ConfKey(k), Uint64ToBytes(n)).None? && f.commit.None?
    ensures f.write(ConfKey(k), Uint64ToBytes(n)).Some? ==>
      out.err == Some(EngineFailure(f.write(ConfKey(k), Uint64ToBytes(n)).value))
    ensures f.write(ConfKey(k), Uint64ToBytes(n)).None? && f.commit.Some? ==>
      out.err == Some(EngineFailure(f.commit.value))
  {
    Uint64RoundTrip(n);
    Set(db, f, k, Uint64ToBytes(n))
  }

  /** `GetUint64`: `Get`, then the stored eight bytes read as a big-endian integer. */
  function GetUint64(db: Store, f: Faults, k: seq<byte>): (r: Result<uint64, Error>)
    requires ConfKey(k) in db ==> |db[ConfKey(k)]| == 8
    ensures r.Success? ==> ConfKey(k) in db && Uint64ToBytes(r.value) == db[ConfKey(k)]
    ensures r.Failure? ==> Get(db, f, k) == Failure(r.error)
  {
    match Get(db, f, k)
    case Failure(e) => Failure(e)
    case Success(v) =>
      BytesRoundTrip(v);
      Success(BytesToUint64(v))
  }

  /** After a successful `Set`, `Get` returns exactly the value written, even an empty one. */
  lemma SetThenGet(db: Store, f: Faults, k: seq<byte>, v: Value)
    ensures Set(db, NoFaults(), k, v).err.None?
    ensures Set(db, f, k, v).err.None? ==> Get(Set(db, f, k, v).store, NoFaults(), k) == Success(v)
  {
  }

  /** A key never set reads as `ErrKeyNotFound`, never as a value. */
  lemma GetOfUnsetKey(db: Store, k: seq<byte>)
    requires ConfKey(k) !in db
    ensures Get(db, NoFaults(), k) == Failure(KeyNotFound)
  {
  }

  /** `Set` of one key leaves every other stable-store key reading as before. */
  lemma SetKeepsOtherKeys(db: Store, f: Faults, g: Faults, k: seq<byte>, v: Value, other: seq<byte>)
    requires other != k
    ensures Get(Set(db, f, k, v).store, g, other) == Get(db, g, other)
  {
    ConfKeyInjective(k, other);
  }

  /** `SetUint64` then `GetUint64` returns the integer written. */
  lemma SetUint64ThenGetUint64(db: Store, f: Faults, k: seq<byte>, n: uint64)
    ensures SetUint64(db, f, k, n).err.None? ==>
      GetUint64(SetUint64(db, f, k, n).store, NoFaults(), k) == Success(n)
  {
    Uint64RoundTrip(n);
  }

  /** The bytes `SetUint64` stores are the same eight big-endian bytes used for log indices. */
  lemma SetUint64StoresBigEndian(db: Store, f: Faults, k: seq<byte>, n: uint64)
    ensures SetUint64(db, f, k, n).err.None? ==>
      Get(SetUint64(db, f, k, n).store, NoFaults(), k) == Success(Uint64ToBytes(n))
      && BytesToUint64(Uint64ToBytes(n)) == n
  {
    Uint64RoundTrip(n);
  }
}
