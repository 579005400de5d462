/**
 * The embedded ordered key-value engine, as far as the store relies on it:
 * a byte-keyed map, read-write transactions that stage writes and either
 * commit them or drop them, iteration in ascending byte order with seek, and
 * the engine's own failures, which arrive as inputs (`Faults`) because
 * nothing in the store decides when the engine fails.
 */
module Engine {
  import opened Results
  import opened Bytes
  import opened Keys

  type Value = seq<byte>

  /** The engine's committed contents. */
  type Store = map<Key, Value>

  datatype Error =
    | LogNotFound                   // raft.ErrLogNotFound
    | KeyNotFound                   // the stable store's ErrKeyNotFound
    | EngineFailure(reason: string) // any failure the engine reports
    | CodecFailure(reason: string)  // the entry codec rejected a value

  /**
   * When the engine fails in one operation: a point read (`Get` or
   * `Value`) of a key, a staged write or delete of a key, or the commit.
   */
  datatype Faults = Faults(
    read: Key -> Option<string>,
    write: (Key, Value) -> Option<string>,
    delete: Key -> Option<string>,
    commit: Option<string>)

  function NoFaults(): Faults {
    Faults(k => None, (k, v) => None, k => None, None)
  }

  /** What a write operation leaves behind: the committed contents and its error, if any. */
  datatype Outcome = Outcome(store: Store, err: Option<Error>)

  // ---------------------------------------------------------------------
  // Transactions
  // ---------------------------------------------------------------------

  /**
   * A transaction: the contents it started from, its staged copy, and
   * whether any write or delete has been staged.
   */
  datatype Txn = Txn(snapshot: Store, pending: Store, staged: bool)

  function Begin(s: Store): Txn {
    Txn(s, s, false)
  }

  function TxnSet(t: Txn, f: Faults, k: Key, v: Value): Result<Txn, Error> {
    match f.write(k, v)
    case Some(why) => Failure(EngineFailure(why))
    case None => Success(t.(pending := t.pending[k := v], staged := true))
  }

  function TxnDelete(t: Txn, f: Faults, k: Key): Result<Txn, Error> {
    match f.delete(k)
    case Some(why) => Failure(EngineFailure(why))
    case None => Success(t.(pending := t.pending - {k}, staged := true))
  }

  /**
   * Commit publishes the staged copy; a failed commit publishes nothing.
   * A transaction with nothing staged commits successfully without
   * reaching the engine, as Badger's `Commit` does.
   */
  function Commit(t: Txn, f: Faults): Outcome {
    if !t.staged then Outcome(t.pending, None)
    else match f.commit
    case Some(why) => Outcome(t.snapshot, Some(EngineFailure(why)))
    case None => Outcome(t.pending, None)
  }

  /** The deferred discard: the staged copy is dropped. */
  function Discard(t: Txn): Store {
    t.snapshot
  }

  // ---------------------------------------------------------------------
  // Iteration
  // ---------------------------------------------------------------------

  /** Strictly ascending in byte order. */
  ghost predicate Sorted(order: seq<Key>) {
    forall i, j :: 0 <= i < j < |order| ==> LexLess(order[i], order[j])
  }

  /** `order` is the sequence a forward iterator over s yields: every key once, ascending. */
  ghost predicate Enumerates(order: seq<Key>, s: Store) {
    Sorted(order) && (forall k :: k in s <==> k in order)
  }

  ghost function Insert(order: seq<Key>, k: Key): (r: seq<Key>)
    requires Sorted(order) && k !in order
    ensures Sorted(r)
    ensures forall x :: x in r <==> x in order || x == k
  {
    if |order| == 0 then [k]
    else if LexLess(k, order[0]) then
      assert forall j :: 0 < j < |order| ==> LexLess(k, order[j]) by {
        forall j | 0 < j < |order| ensures LexLess(k, order[j]) {
          LexTransitive(k, order[0], order[j]);
        }
      }
      [k] + order
    else
      var rest := Insert(order[1..], k);
      assert LexLess(order[0], k) by {
        LexTotal(order[0], k);
      }
      assert forall x :: x in rest ==> LexLess(order[0], x);
      var r := [order[0]] + rest;
      assert forall j :: 0 < j < |r| ==> r[j] in rest;
      r
  }

  /** The keys of a store in the order the engine's iterator yields them. */
  ghost function SortedKeys(keys: set<Key>): (r: seq<Key>)
    ensures Sorted(r)
    ensures forall k :: k in keys <==> k in r
  {
    if keys == {} then []
    else
      var k :| k in keys;
      Insert(SortedKeys(keys - {k}), k)
  }

  /** Every store has an iteration order, so requiring one excludes no store. */
  lemma IterationOrderExists(s: Store)
    ensures Enumerates(SortedKeys(s.Keys), s)
  {
  }

  /**
   * A forward `Seek(target)`: the position of the first key at or after
   * target.
   */
  method SeekForward(order: seq<Key>, target: Key) returns (pos: nat)
    requires Sorted(order)
    ensures pos <= |order|
    ensures forall i :: 0 <= i < pos ==> LexLess(order[i], target)
    ensures forall i :: pos <= i < |order| ==> !LexLess(order[i], target)
  {
    pos := 0;
    while pos < |order| && LexLess(order[pos], target)
      invariant pos <= |order|
      invariant forall i :: 0 <= i < pos ==> LexLess(order[i], target)
    {
      pos := pos + 1;
    }
    forall i | pos < i < |order|
      ensures !LexLess(order[i], target)
    {
      if LexLess(order[i], target) {
        LexTransitive(order[pos], order[i], target);
      }
    }
  }

  /**
   * A reverse `Seek(target)`: the number of keys at or before target, so
   * that the reverse iterator starts at position pos - 1 when pos > 0.
   */
  method SeekReverse(order: seq<Key>, target: Key) returns (pos: nat)
    requires Sorted(order)
    ensures pos <= |order|
    ensures forall i :: 0 <= i < pos ==> !LexLess(target, order[i])
    ensures forall i :: pos <= i < |order| ==> LexLess(target, order[i])
  {
    pos := |order|;
    while 0 < pos && LexLess(target, order[pos - 1])
      invariant pos <= |order|
      invariant forall i :: pos <= i < |order| ==> LexLess(target, order[i])
    {
      pos := pos - 1;
    }
    forall i | 0 <= i < pos - 1
      ensures !LexLess(target, order[i])
    {
      if LexLess(target, order[i]) {
        LexTransitive(target, order[i], order[pos - 1]);
      }
    }
  }
}
