/**
 * The two key namespaces multiplexed into the engine's single keyspace:
 * log keys are "logs" followed by the eight-byte big-endian index, stable
 * store keys are "conf" followed by the caller's key bytes, unchanged.
 */
module Keys {
  import opened Bytes

  type Key = seq<byte>

  /** `dbLogs`: the ASCII bytes of "logs". */
  const LogsPrefix: seq<byte> := [0x6c, 0x6f, 0x67, 0x73]

  /** `dbConf`: the ASCII bytes of "conf". */
  const ConfPrefix: seq<byte> := [0x63, 0x6f, 0x6e, 0x66]

  /** `MIN_LOG_KEY`, assumed to be eight 0x00 bytes. */
  const MinLogKey: seq<byte> := [0, 0, 0, 0, 0, 0, 0, 0]

  /** `MAX_LOG_KEY`, assumed to be eight 0xFF bytes. */
  const MaxLogKey: seq<byte> := [0xFF, 0xFF, 0xFF, 0xFF, 0xFF, 0xFF, 0xFF, 0xFF]

  /** The iterator's `ValidForPrefix` test. */
  predicate HasPrefix(k: Key, p: seq<byte>) {
    |p| <= |k| && k[..|p|] == p
  }

  predicate IsLogKey(k: Key) {
    HasPrefix(k, LogsPrefix)
  }

  /** A log key as the store writes it: the prefix and exactly eight index bytes. */
  predicate IsIndexKey(k: Key) {
    IsLogKey(k) && |k| == |LogsPrefix| + 8
  }

  /**
   * The key a log entry with index i is stored under: a twelve-byte log key
   * whose eight-byte suffix decodes back to i.
   */
  function LogKey(i: uint64): (k: Key)
    ensures IsIndexKey(k)
    ensures BytesToUint64(k[|LogsPrefix|..]) == i
  {
    var k := LogsPrefix + Uint64ToBytes(i);
    assert k[..|LogsPrefix|] == LogsPrefix;
    assert k[|LogsPrefix|..] == Uint64ToBytes(i);
    Uint64RoundTrip(i);
    k
  }

  /**
   * The index a log key carries after its prefix: the key is exactly the
   * log key of that index.
   */
  function IndexOf(k: Key): (r: uint64)
    requires IsIndexKey(k)
    ensures LogKey(r) == k
  {
    BytesRoundTrip(k[|LogsPrefix|..]);
    assert k == k[..|LogsPrefix|] + k[|LogsPrefix|..];
    BytesToUint64(k[|LogsPrefix|..])
  }

  /**
   * The key a stable-store key k is stored under: it carries the conf prefix
   * and gives k back once the prefix is dropped.
   */
  function ConfKey(k: seq<byte>): (r: Key)
    ensures HasPrefix(r, ConfPrefix) && r[|ConfPrefix|..] == k
  {
    var r := ConfPrefix + k;
    assert r[..|ConfPrefix|] == ConfPrefix;
    r
  }

  lemma IndexOfLogKey(i: uint64)
    ensures IndexOf(LogKey(i)) == i
  {
    assert LogKey(i)[|LogsPrefix|..] == Uint64ToBytes(i);
    Uint64RoundTrip(i);
  }

  lemma LogKeyOfIndex(k: Key)
    requires IsIndexKey(k)
    ensures LogKey(IndexOf(k)) == k
  {
    BytesRoundTrip(k[|LogsPrefix|..]);
    assert k == k[..|LogsPrefix|] + k[|LogsPrefix|..];
  }

  /**
   * The log key is injective and order-preserving in the index: ascending
   * byte order over log keys is ascending index order.
   */
  lemma LogKeyOrder(i: uint64, j: uint64)
    ensures i < j <==> LexLess(LogKey(i), LogKey(j))
    ensures i == j <==> LogKey(i) == LogKey(j)
  {
    Uint64ToBytesOrder(i, j);
    LexLessUnderPrefix(LogsPrefix, Uint64ToBytes(i), Uint64ToBytes(j));
    IndexOfLogKey(i);
    IndexOfLogKey(j);
  }

  /** The seek keys of the first/last scans are the keys of index 0 and of the largest index. */
  lemma SeekKeysAreExtremeLogKeys()
    ensures LogsPrefix + MinLogKey == LogKey(0)
    ensures LogsPrefix + MaxLogKey == LogKey(MAX_UINT64)
  {
    ExtremeBigEndian(8);
    Pow256Eight();
    assert Uint64ToBytes(0) == MinLogKey by {
      BytesRoundTrip(MinLogKey);
      assert MinLogKey == seq(8, _ => 0);
    }
    assert Uint64ToBytes(MAX_UINT64) == MaxLogKey by {
      BytesRoundTrip(MaxLogKey);
      assert MaxLogKey == seq(8, _ => 0xFF);
    }
  }

  /** Every log key lies between the key of index 0 and the key of the largest index. */
  lemma LogKeyBounds(i: uint64)
    ensures LexLessOrEqual(LogKey(0), LogKey(i))
    ensures LexLessOrEqual(LogKey(i), LogKey(MAX_UINT64))
  {
    LogKeyOrder(0, i);
    LogKeyOrder(i, MAX_UINT64);
  }

  /** Log keys form one contiguous block of the engine's key order. */
  lemma LogNamespaceContiguous(i: uint64, j: uint64, a: Key)
    requires LexLessOrEqual(LogKey(i), a) && LexLessOrEqual(a, LogKey(j))
    ensures IsLogKey(a)
  {
    SandwichedSharesPrefix(LogsPrefix, Uint64ToBytes(i), Uint64ToBytes(j), a);
  }

  /** No stable-store key lies in the log namespace, nor is any log key a stable-store key. */
  lemma NamespacesDisjoint(k: seq<byte>, i: uint64)
    ensures !IsLogKey(ConfKey(k))
    ensures HasPrefix(ConfKey(k), ConfPrefix) && !HasPrefix(LogKey(i), ConfPrefix)
    ensures ConfKey(k) != LogKey(i)
  {
    assert ConfKey(k)[0] == 0x63;
    assert LogKey(i)[0] == 0x6c;
    assert ConfKey(k)[..|ConfPrefix|] == ConfPrefix;
  }

  lemma ConfKeyInjective(k1: seq<byte>, k2: seq<byte>)
    ensures ConfKey(k1) == ConfKey(k2) <==> k1 == k2
  {
    if ConfKey(k1) == ConfKey(k2) {
      assert k1 == ConfKey(k1)[|ConfPrefix|..];
      assert k2 == ConfKey(k2)[|ConfPrefix|..];
    }
  }
}
