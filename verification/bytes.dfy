/**
 * Byte strings as the key-value engine sees them: the byte-wise
 * lexicographic order it sorts keys by, and the fixed-width big-endian
 * codec for unsigned 64-bit integers that makes that order agree with
 * numeric order.
 */
module Bytes {

  type byte = x: int | 0 <= x < 256

  const TWO_TO_THE_64: int := 0x1_0000_0000_0000_0000

  type uint64 = x: int | 0 <= x < TWO_TO_THE_64

  const MAX_UINT64: uint64 := 0xFFFF_FFFF_FFFF_FFFF

  // ---------------------------------------------------------------------
  // Lexicographic order
  // ---------------------------------------------------------------------

  /** Strict byte-wise lexicographic order; a proper prefix sorts first. */
  predicate LexLess(a: seq<byte>, b: seq<byte>)
    decreases |a|
  {
    0 < |b| && (|a| == 0 || a[0] < b[0] || (a[0] == b[0] && LexLess(a[1..], b[1..])))
  }

  predicate LexLessOrEqual(a: seq<byte>, b: seq<byte>) {
    a == b || LexLess(a, b)
  }

  lemma {:induction false} LexIrreflexive(a: seq<byte>)
    ensures !LexLess(a, a)
    decreases |a|
  {
    if 0 < |a| {
      LexIrreflexive(a[1..]);
    }
  }

  lemma {:induction false} LexTransitive(a: seq<byte>, b: seq<byte>, c: seq<byte>)
    requires LexLess(a, b) && LexLess(b, c)
    ensures LexLess(a, c)
    decreases |a|
  {
    if 0 < |a| && a[0] == b[0] && b[0] == c[0] {
      LexTransitive(a[1..], b[1..], c[1..]);
    }
  }

  lemma LexAsymmetric(a: seq<byte>, b: seq<byte>)
    requires LexLess(a, b)
    ensures !LexLess(b, a)
  {
    if LexLess(b, a) {
      LexTransitive(a, b, a);
      LexIrreflexive(a);
    }
  }

  /** Any two distinct byte strings are ordered one way or the other. */
  lemma {:induction false} LexTotal(a: seq<byte>, b: seq<byte>)
    requires a != b
    ensures LexLess(a, b) || LexLess(b, a)
    decreases |a|
  {
    if 0 < |a| && 0 < |b| && a[0] == b[0] {
      assert a == [a[0]] + a[1..];
      assert b == [b[0]] + b[1..];
      LexTotal(a[1..], b[1..]);
    }
  }

  /** A common prefix does not change how two strings compare. */
  lemma {:induction false} LexLessUnderPrefix(p: seq<byte>, a: seq<byte>, b: seq<byte>)
    ensures LexLess(p + a, p + b) <==> LexLess(a, b)
    decreases |p|
  {
    if 0 < |p| {
      assert (p + a)[1..] == p[1..] + a;
      assert (p + b)[1..] == p[1..] + b;
      assert (p + a)[0] == (p + b)[0];
      LexLessUnderPrefix(p[1..], a, b);
    } else {
      assert p + a == a && p + b == b;
    }
  }

  /** Two equal-length strings keep their order whatever is appended to them. */
  lemma {:induction false} LexLessExtend(a: seq<byte>, b: seq<byte>, c: seq<byte>, d: seq<byte>)
    requires |a| == |b| && LexLess(a, b)
    ensures LexLess(a + c, b + d)
    decreases |a|
  {
    if 0 < |a| && a[0] == b[0] {
      assert (a + c)[1..] == a[1..] + c;
      assert (b + d)[1..] == b[1..] + d;
      LexLessExtend(a[1..], b[1..], c, d);
    }
  }

  /** Whatever sorts between two strings that start with p starts with p too. */
  lemma {:induction false} SandwichedSharesPrefix(p: seq<byte>, x: seq<byte>, y: seq<byte>, a: seq<byte>)
    requires LexLessOrEqual(p + x, a) && LexLessOrEqual(a, p + y)
    ensures |p| <= |a| && a[..|p|] == p
    decreases |p|
  {
    if 0 < |p| && a != p + x && a != p + y {
      assert (p + x)[1..] == p[1..] + x;
      assert (p + y)[1..] == p[1..] + y;
      assert (p + x)[0] == p[0] && (p + y)[0] == p[0];
      assert a[0] == p[0];
      SandwichedSharesPrefix(p[1..], x, y, a[1..]);
      assert a[..|p|] == [a[0]] + a[1..][..|p| - 1];
    }
  }

  // ---------------------------------------------------------------------
  // Fixed-width big-endian integers
  // ---------------------------------------------------------------------

  function Pow256(width: nat): (r: nat)
    ensures 0 < r
  {
    if width == 0 then 1 else 256 * Pow256(width - 1)
  }

  /** The `width` bytes of n, most significant first. */
  function ToBigEndian(n: nat, width: nat): (r: seq<byte>)
    requires n < Pow256(width)
    ensures |r| == width
  {
    if width == 0 then [] else ToBigEndian(n / 256, width - 1) + [n % 256]
  }

  /** The number a big-endian byte string denotes. */
  function FromBigEndian(s: seq<byte>): (r: nat)
    ensures r < Pow256(|s|)
  {
    if |s| == 0 then 0 else FromBigEndian(s[..|s| - 1]) * 256 + s[|s| - 1]
  }

  lemma {:induction false} FromToBigEndian(n: nat, width: nat)
    requires n < Pow256(width)
    ensures FromBigEndian(ToBigEndian(n, width)) == n
  {
    if 0 < width {
      var s := ToBigEndian(n, width);
      assert s[..|s| - 1] == ToBigEndian(n / 256, width - 1);
      FromToBigEndian(n / 256, width - 1);
    }
  }

  lemma {:induction false} ToFromBigEndian(s: seq<byte>)
    ensures ToBigEndian(FromBigEndian(s), |s|) == s
  {
    if 0 < |s| {
      var init := s[..|s| - 1];
      ToFromBigEndian(init);
      var n := FromBigEndian(s);
      assert n / 256 == FromBigEndian(init);
      assert n % 256 == s[|s| - 1];
      assert s == init + [s[|s| - 1]];
    }
  }

  /** Numeric order of fixed-width encodings is their byte order. */
  lemma {:induction false} BigEndianMonotone(n: nat, m: nat, width: nat)
    requires n < m < Pow256(width)
    ensures LexLess(ToBigEndian(n, width), ToBigEndian(m, width))
  {
    if 0 < width {
      var a := ToBigEndian(n / 256, width - 1);
      var b := ToBigEndian(m / 256, width - 1);
      if n / 256 < m / 256 {
        BigEndianMonotone(n / 256, m / 256, width - 1);
        LexLessExtend(a, b, [n % 256], [m % 256]);
      } else {
        LexLessUnderPrefix(a, [n % 256], [m % 256]);
      }
    }
  }

  /** A run of zero bytes denotes 0 and a run of 0xFF bytes the largest value of its width. */
  lemma {:induction false} ExtremeBigEndian(width: nat)
    ensures FromBigEndian(seq(width, _ => 0)) == 0
    ensures FromBigEndian(seq(width, _ => 0xFF)) == Pow256(width) - 1
  {
    if 0 < width {
      assert seq(width, _ => 0)[..width - 1] == seq(width - 1, _ => 0);
      assert seq(width, _ => 0xFF)[..width - 1] == seq(width - 1, _ => 0xFF);
      ExtremeBigEndian(width - 1);
    }
  }

  lemma Pow256Eight()
    ensures Pow256(8) == TWO_TO_THE_64
  {
  }

  /** `uint64ToBytes`: eight bytes, most significant first. */
  function Uint64ToBytes(n: uint64): (r: seq<byte>)
    ensures |r| == 8
  {
    Pow256Eight();
    ToBigEndian(n, 8)
  }

  /** `bytesToUint64` on an eight-byte string. */
  function BytesToUint64(s: seq<byte>): (n: uint64)
    requires |s| == 8
  {
    Pow256Eight();
    FromBigEndian(s)
  }

  lemma Uint64RoundTrip(n: uint64)
    ensures BytesToUint64(Uint64ToBytes(n)) == n
  {
    Pow256Eight();
    FromToBigEndian(n, 8);
  }

  lemma BytesRoundTrip(s: seq<byte>)
    requires |s| == 8
    ensures Uint64ToBytes(BytesToUint64(s)) == s
  {
    ToFromBigEndian(s);
  }

  /** The encoding is injective and order-preserving, in both directions. */
  lemma Uint64ToBytesOrder(n: uint64, m: uint64)
    ensures n < m <==> LexLess(Uint64ToBytes(n), Uint64ToBytes(m))
    ensures n == m <==> Uint64ToBytes(n) == Uint64ToBytes(m)
  {
    Pow256Eight();
    if n < m {
      BigEndianMonotone(n, m, 8);
      LexIrreflexive(Uint64ToBytes(n));
    } else if m < n {
      BigEndianMonotone(m, n, 8);
      LexAsymmetric(Uint64ToBytes(m), Uint64ToBytes(n));
      Uint64RoundTrip(n);
      Uint64RoundTrip(m);
    } else {
      LexIrreflexive(Uint64ToBytes(n));
    }
  }
}
