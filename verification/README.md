# BadgerStore, modelled in Dafny

This project models the log-store and stable-store core of `BadgerStore`, the
storage backend of a Raft consensus engine built on the Badger embedded
key-value engine. One ordered byte-keyed map holds two namespaces:

- log entries live under `"logs" ++ BE8(index)`, where BE8 is the eight-byte
  big-endian form of the index;
- stable state lives under `"conf" ++ key`.

Every operation is one engine transaction. The model proves the properties
these operations rely on:

- the index key is injective and order-preserving, so a forward or reverse
  prefix scan finds the true first or last index;
- a batch append is all-or-nothing;
- range deletion is exact and inclusive, and doing it twice changes nothing
  the second time;
- each stored value reads back as written;
- the two namespaces never interfere.

Modules, leaf to root:

- `Results` (results.dfy): `Option` and `Result`.
- `Bytes` (bytes.dfy): the byte-wise lexicographic order the engine sorts
  keys by (`LexLess`), with its order laws. It also holds the fixed-width
  big-endian codec `Uint64ToBytes` / `BytesToUint64`.
- `Keys` (keys.dfy): the `logs`/`conf` prefixes, `MinLogKey`/`MaxLogKey`,
  `LogKey`, `IndexOf` and `ConfKey`.
- `Engine` (engine.dfy): the engine as the store sees it.
  - The store is `map<seq<byte>, seq<byte>>`.
  - A transaction is a snapshot plus a staged copy. `Commit` publishes the
    staged copy; `Discard` drops it. As in Badger, committing a transaction
    that staged nothing succeeds without reaching the engine.
  - The iterator's ascending key order is `Enumerates`. `SeekForward` and
    `SeekReverse` model the iterator's `Seek`.
  - Engine failures come in as a `Faults` value: for each key, whether a
    read, staged write or staged delete fails, and whether the commit fails.
- `LogStore` (log_store.dfy): `FirstIndex`, `LastIndex`, `GetLog`,
  `StoreLogs`, `StoreLog` and `DeleteRange`, with their reference
  definitions (`LogIndices`, `Staged`, `RemoveLogRange`).
- `StableStore` (stable_store.dfy): `Set`, `Get`, `SetUint64` and
  `GetUint64`.
- `Namespaces` (namespaces.dfy): the lemmas showing that each namespace is
  unaffected by writes to the other.

## Assumptions

- `uint64ToBytes`, `bytesToUint64`, `MIN_LOG_KEY` and `MAX_LOG_KEY` are
  defined outside badger_store.go. They are taken to be:
  - the fixed-width eight-byte big-endian codec (`Bytes.Uint64ToBytes`,
    `Bytes.BytesToUint64`);
  - eight `0x00` bytes (`Keys.MinLogKey`);
  - eight `0xFF` bytes (`Keys.MaxLogKey`).

  `Keys.SeekKeysAreExtremeLogKeys` proves that the two seek keys are then the
  keys of index 0 and index 2^64-1.
- The entry codec (`encodeMsgPack`/`decodeMsgPack`) is defined outside
  badger_store.go. It is a parameter (`LogStore.Codec`) whose encode may
  fail. Where a lemma needs a round trip it assumes one, for the entry
  concerned only, with `LogStore.RoundTripsOn`.
- The engine's iterator yields every key exactly once, in ascending byte
  order (`Engine.Enumerates`). `Engine.SortedKeys` builds such an order for
  any store, so this requirement excludes no store.
- A reverse `Seek(k)` lands on the largest key at or below `k`. This is
  Badger's documented reverse-seek behaviour.
- Store invariant `LogStore.WellFormed`: every key under the `logs` prefix is
  exactly prefix plus eight bytes. Only the store writes that namespace, and
  `Namespaces.EveryWriteKeepsWellFormed` proves that the empty store and
  every write keep the invariant.

## Model

| member | source | states |
|---|---|---|
| `Bytes.Uint64ToBytesOrder` | badger_store.go:110 | the eight-byte big-endian index encoding is injective, and `n < m` exactly when the encoding of n sorts before that of m in byte order |
| `Bytes.Uint64RoundTrip` | badger_store.go:57 | decoding the eight bytes of an index gives the index back |
| `Bytes.BytesRoundTrip` | badger_store.go:191 | every eight-byte string is the encoding of the integer it decodes to |
| `Keys.LogKeyOrder` | badger_store.go:110 | the log key `"logs" ++ BE8(i)` is injective in i, and i < j exactly when key(i) sorts before key(j) |
| `Keys.SeekKeysAreExtremeLogKeys` | badger_store.go:54 | the forward seek key `"logs" ++ MIN_LOG_KEY` is the key of index 0; the reverse seek key `"logs" ++ MAX_LOG_KEY` is the key of the largest index |
| `Keys.LogKeyBounds` | badger_store.go:71 | every log key lies between the two seek keys, inclusive |
| `Keys.LogNamespaceContiguous` | badger_store.go:54-57 | any key that sorts between two log keys carries the `logs` prefix, so log keys form one unbroken run of the scan order |
| `Keys.NamespacesDisjoint` | badger_store.go:11-12 | no `conf` key has the `logs` prefix, no log key has the `conf` prefix, and no conf key equals a log key |
| `Keys.LogKey` | badger_store.go:110 | the log key of index i, built the same way at lines 83, 110 and 125, is a twelve-byte `logs` key whose eight-byte suffix decodes back to i |
| `Keys.IndexOf` | badger_store.go:57 | decoding a twelve-byte log key's suffix, as lines 57, 74 and 136 do, gives the index whose log key is exactly that key |
| `Keys.ConfKey` | badger_store.go:152 | the engine key of a stable-store key, built the same way at lines 152 and 163, carries the `conf` prefix and gives the caller's key back once the prefix is dropped |
| `Keys.ConfKeyInjective` | badger_store.go:152 | distinct stable-store keys are stored under distinct engine keys |
| `Engine.SortedKeys` | badger_store.go:51 | every store has an iteration order: each key exactly once, strictly ascending |
| `Engine.SeekForward` | badger_store.go:54 | forward `Seek`: every key before the returned position sorts below the target, and no key from it onward does |
| `Engine.SeekReverse` | badger_store.go:71 | reverse `Seek`: every key before the returned position is at or below the target, and every key from it onward is above it |
| `LogStore.ForwardScanFindsLowest` | badger_store.go:54-57 | after seeking to index 0's key, the key the scan reaches is in the log namespace exactly when some index is stored, and it then holds the smallest stored index |
| `LogStore.ReverseScanFindsHighest` | badger_store.go:71-74 | after a reverse seek to the largest index's key, the key reached is in the log namespace exactly when some index is stored, and it then holds the largest stored index |
| `LogStore.FirstIndex` | badger_store.go:46-60 | returns the minimum stored log index, or 0 (and no error) when no log key exists |
| `LogStore.LastIndex` | badger_store.go:62-77 | returns the maximum stored log index, or 0 (and no error) when no log key exists |
| `LogStore.GetLog` | badger_store.go:79-99 | a failed engine read is returned as that failure; otherwise `ErrLogNotFound` is returned exactly when the index key is absent; for a present key the result succeeds exactly when the stored bytes decode, carries the decoded entry, and otherwise is the codec's error |
| `LogStore.Staged` | badger_store.go:109-118 | the staged batch holds the old keys plus the batch's keys, and every key outside the batch keeps its old value |
| `LogStore.StagedHoldsLastWrite` | badger_store.go:115-117 | under each index the batch writes, the staged value is the encoding of the last entry in the batch with that index |
| `LogStore.StageBatch` | badger_store.go:109-118 | the staging loop fails exactly when some entry fails to encode or its staged write fails; otherwise the staged copy is the batch written in order over the old contents, and something is staged exactly when the batch is non-empty; a failure carries the error of the first entry that fails, the codec's error if it does not encode, else the engine's write error |
| `LogStore.StoreLogs` | badger_store.go:105-121 | all-or-nothing: on error the store is unchanged; on success it is the staged batch; success happens exactly when every entry encodes, every staged write is accepted and, for a non-empty batch, the commit succeeds (an empty batch stages nothing and always succeeds); the error is that of the first entry whose encode or write fails, and otherwise the commit's |
| `LogStore.StoreLog` | badger_store.go:101-103 | on success the store gains exactly the entry's encoding under its index key; on error it is unchanged; success happens exactly when the encode, the write and the commit all succeed; the error is the codec's if the entry does not encode, else the write's if it fails, else the commit's |
| `LogStore.StoredLogReadsBack` | badger_store.go:83-98 | after a batch is stored, `GetLog` of each entry's index returns that entry, given that the codec decodes that entry's encoding back to it and that it is the last entry of the batch with its index |
| `LogStore.StagedLogIndices` | badger_store.go:105-121 | after a batch, the stored indices are the old ones plus exactly the batch's indices |
| `LogStore.DeleteScanComplete` | badger_store.go:133-138 | wherever the deleting scan stops (end of keys, end of the `logs` prefix, or an index above max), it has passed every log key with an index in [min, max] |
| `LogStore.EarlierInRangeKeysPassed` | badger_store.go:133-140 | when the ascending scan reaches a log key, every stored key of the range with a lower index has already been passed, so the first delete that fails is the one with the lowest index |
| `LogStore.DeleteScan` | badger_store.go:133-143 | the scan from min's key fails only when a stored in-range key's delete fails; otherwise it stages the deletion of exactly the stored log keys with index in [min, max], and stages something exactly when such a key exists; a failure carries the delete error of the stored in-range key with the lowest index whose delete fails |
| `LogStore.DeleteRange` | badger_store.go:123-146 | on success exactly the log keys with index in [min, max] are gone and nothing else changes; on error the store is unchanged; it fails exactly when an in-range key's delete fails, or when some in-range key exists and the commit fails; with no in-range key, and in particular with min > max, it succeeds and leaves the store unchanged; the error is the delete error of the lowest-index in-range key whose delete fails, and otherwise the commit's |
| `LogStore.DeleteRangeTwice` | badger_store.go:123-146 | after a successful `DeleteRange(min, max)`, a second identical call succeeds under any engine faults and leaves the store as the first call left it |
| `LogStore.RemoveLogRangeExact` | badger_store.go:123-146 | the remaining indices are the old ones outside [min, max]; every key outside the range, in either namespace, keeps its value; no key is added |
| `LogStore.RemoveLogRangeIdempotent` | badger_store.go:133-143 | after a range deletion no key in the range is left, so deleting the same range again changes nothing |
| `LogStore.EmptyRangeIsNoOp` | badger_store.go:136-138 | when min > max, the range to remove is empty, so the store is unchanged (`DeleteRange` with min > max also succeeds, by its own contract) |
| `LogStore.DeletedLogNotFound` | badger_store.go:85-87 | after deleting [min, max], `GetLog` of an index in the range returns `ErrLogNotFound`, and any other index reads exactly as before |
| `StableStore.Set` | badger_store.go:148-157 | on success conf ++ k maps to v and nothing else changes; on error the store is unchanged; success happens exactly when the staged write and the commit succeed; the error is the write's if it fails, else the commit's |
| `StableStore.Get` | badger_store.go:159-180 | a failed engine read is returned as that failure; otherwise a present conf ++ k yields exactly its stored value, and an absent one yields `ErrKeyNotFound` |
| `StableStore.SetUint64` | badger_store.go:182-184 | on success conf ++ k maps to the eight big-endian bytes of n, which decode back to n, and nothing else changes; on error the store is unchanged; success happens exactly when the staged write and the commit succeed; the error is the write's if it fails, else the commit's |
| `StableStore.GetUint64` | badger_store.go:186-192 | a success is the integer whose eight-byte encoding is the stored value; any failure is `Get`'s failure, passed through |
| `StableStore.SetThenGet` | badger_store.go:148-180 | with no engine faults `Set` succeeds, and after a successful `Set(k, v)`, `Get(k)` returns v, including an empty v |
| `StableStore.GetOfUnsetKey` | badger_store.go:165-167 | a key never set reads as `ErrKeyNotFound` |
| `StableStore.SetKeepsOtherKeys` | badger_store.go:152 | `Set(k, v)` leaves every other key's `Get` answer unchanged |
| `StableStore.SetUint64ThenGetUint64` | badger_store.go:182-192 | after a successful `SetUint64(k, n)`, `GetUint64(k)` returns n |
| `StableStore.SetUint64StoresBigEndian` | badger_store.go:183 | after `SetUint64(k, n)`, `Get(k)` returns the same eight big-endian bytes used for log indices |
| `Namespaces.LogAnswersFollowLogView` | badger_store.go:83 | stores that agree on the `logs` namespace have the same stored indices, the same well-formedness and the same `GetLog` answers |
| `Namespaces.ConfAnswersFollowConfView` | badger_store.go:163 | stores that agree on the `conf` namespace give the same `Get` answers |
| `Namespaces.SetLeavesLogsAlone` | badger_store.go:152 | `Set` never touches a log key, so the stored indices (and hence `FirstIndex`/`LastIndex`) and every `GetLog` answer are unchanged |
| `Namespaces.StoreLogsLeavesConfAlone` | badger_store.go:110 | a log batch never touches a `conf` key, so every `Get` answer is unchanged |
| `Namespaces.DeleteRangeLeavesConfAlone` | badger_store.go:133 | range deletion never touches a `conf` key, so every `Get` answer is unchanged |
| `Namespaces.EveryWriteKeepsWellFormed` | badger_store.go:110 | the empty store is well formed, and `Set`, a stored batch and a range deletion each keep it so |

## Left out

- `NewBadgerStore` / `New` (badger_store.go:21-44): directory creation and
  opening the engine are I/O. The code opens the engine before creating the
  directories, and it ignores the result of the second `MkdirAll` (line 34);
  the `if` there tests the `Open` error instead. The model has no lifecycle,
  so it follows neither.
- `Close` (badger_store.go:194-196): engine lifecycle.
- Engine internals: conflict detection, LSM and value-log behaviour. Commit,
  point reads (`Get` and `item.Value()` together), staged writes and staged
  deletes may each fail as the `Faults` input says. Other Badger behaviour is
  not modelled.
- Iterator `PrefetchValues` is not modelled: it affects performance only.
  `Reverse` is modelled as the scan direction.
- Go slice aliasing from `append` on the shared package-level prefixes is not
  modelled: every key here is a fresh immutable sequence.
- Buffer lifetimes of engine-owned slices are not modelled; the model treats
  both of the following as stable values.
  - `DeleteRange` passes the iterator's `item.Key()` straight to `tx.Delete`
    (badger_store.go:135,140). Badger documents that this slice is valid only
    until the iterator's `Next()`, and offers `KeyCopy` for longer use.
    `LogStore.DeleteRange`'s exactness assumes that the key handed to
    `Delete` is the key the iterator was at.
  - `Get` returns `item.Value()`'s slice after the deferred `Discard` has run
    (badger_store.go:161,173,179). Badger documents that such a value may
    change once the transaction ends. `StableStore.Get`'s result assumes that
    the caller sees the stored bytes.
  Whether either is a defect depends on how the Badger version in use manages
  buffers.
- Concurrency between callers is not modelled: isolation is left to the
  engine, and each operation is a single sequential transaction.
- The entry codec's bytes are not modelled, and `Entry` drops the `raft.Log`
  fields `Type`, `Extensions` and `AppendedAt`. It keeps the index, which is
  the only field the store reads, and the term and data.
- `LogStore.DeleteRange`: the model assumes that the transaction may be
  committed while the scan's iterator is still open. At badger_store.go:145
  `tx.Commit` runs before the deferred `it.Close()` of line 131, and Badger's
  `Commit` discards the transaction. Badger releases whose `Discard` panics
  on an unclosed iterator would panic there whenever deletions were staged,
  instead of committing. This is a possible defect in the code, not
  executed, and it depends on the Badger version. `FirstIndex` and
  `LastIndex` are not affected, because their deferred `Close` runs before
  the deferred `Discard`.
- `StableStore.GetUint64`: requires a stored value to be eight bytes long,
  because `bytesToUint64` on other lengths is not part of this model.
- `LogStore.FirstIndex`, `LogStore.LastIndex`, `LogStore.DeleteRange`: these
  require the `WellFormed` store invariant, because the code decodes every
  `logs` key's suffix as eight bytes. They also require the engine's
  iteration order (`Enumerates`), which is an engine guarantee the code relies on.
- `FirstIndex` and `LastIndex` return 0 both for an empty log and when only
  index 0 is stored. The code does the same; the model records this and does
  not resolve it.
