/**
  The C integer ranges the wire format uses and their little-endian images.
  The backend copies integers byte for byte out of memory; the JVM side reads
  and writes them with the `...LE` calls, so both see a little-endian image.
*/
module Primitives {

  type Byte = b: int | 0 <= b < 256
  type Bytes = seq<Byte>

  const INT_MAX: int := 0x7fff_ffff
  const INT_MIN: int := -0x8000_0000

  type Int16 = x: int | -0x8000 <= x < 0x8000
  type Int32 = x: int | INT_MIN <= x <= INT_MAX
  type UInt32 = x: int | 0 <= x < 0x1_0000_0000

  datatype Option<+T> = None | Some(value: T)

  function Max(a: int, b: int): int { if a < b then b else a }

  function Min(a: int, b: int): int { if a < b then a else b }

  /** C's `res |= r` on the codes 0 and -1. */
  function Or(res: int, r: int): int { if res == 0 then r else res }

  lemma ConcatAssoc<T>(a: seq<T>, b: seq<T>, c: seq<T>)
    ensures (a + b) + c == a + (b + c)
  {
  }

  predicate FitsInt(x: int) { INT_MIN <= x <= INT_MAX }

  /** 256 to the power k. */
  function Pow256(k: nat): (p: nat)
    ensures p > 0
  {
    if k == 0 then 1 else 256 * Pow256(k - 1)
  }

  /** The low `k` bytes of `x` in two's complement, least significant first. */
  function Le(x: int, k: nat): (b: Bytes)
    ensures |b| == k
    decreases k
  {
    if k == 0 then [] else [x % 256] + Le(x / 256, k - 1)
  }

  /** The unsigned number whose little-endian image is `b`. */
  function FromLe(b: Bytes): (x: nat)
    ensures x < Pow256(|b|)
  {
    if b == [] then 0 else b[0] + 256 * FromLe(b[1..])
  }

  /** `b` read as a two's complement number of |b| bytes. */
  function Signed(b: Bytes): (x: int)
    requires b != []
    ensures -(Pow256(|b|) as int) <= 2 * x < Pow256(|b|)
  {
    var u := FromLe(b);
    if 2 * u < Pow256(|b|) then u else u - Pow256(|b|)
  }

  /** Byte `i` of an image holds the bits from 8 i on: the least significant byte comes first. */
  lemma {:induction false} LeDigit(x: int, k: nat, i: nat)
    requires i < k
    ensures Le(x, k)[i] == x / Pow256(i) % 256
    decreases i
  {
    if i > 0 {
      LeDigit(x / 256, k - 1, i - 1);
      DivideTwice(x, Pow256(i - 1));
    }
  }

  lemma DivideTwice(x: int, p: int)
    requires p > 0
    ensures x / 256 / p == x / (256 * p)
  {
    var q, r := x / 256 / p, x / 256 % p;
    assert x == 256 * (q * p + r) + x % 256;
    assert x == q * (256 * p) + (256 * r + x % 256);
    QuotientIs(x, 256 * p, q, 256 * r + x % 256);
  }

  lemma QuotientIs(x: int, m: int, q: int, r: int)
    requires m > 0 && x == q * m + r && 0 <= r < m
    ensures x / m == q
  {
    var d := x / m - q;
    assert d * m == r - x % m;
  }

  lemma {:induction false} FromLeInvertsLe(x: nat, k: nat)
    requires x < Pow256(k)
    ensures FromLe(Le(x, k)) == x
    decreases k
  {
    if k == 0 {
    } else {
      FromLeInvertsLe(x / 256, k - 1);
      assert Le(x, k)[1..] == Le(x / 256, k - 1);
    }
  }

  lemma {:induction false} LeWraps(x: int, k: nat)
    ensures Le(x + Pow256(k), k) == Le(x, k)
    decreases k
  {
    if k == 0 {
    } else {
      var p := Pow256(k - 1);
      assert (x + 256 * p) / 256 == x / 256 + p;
      assert (x + 256 * p) % 256 == x % 256;
      LeWraps(x / 256, k - 1);
    }
  }

  /** A signed number of `k` bytes survives the trip through its image. */
  lemma SignedInvertsLe(x: int, k: nat)
    requires k > 0
    requires -(Pow256(k) as int) <= 2 * x < Pow256(k)
    ensures Signed(Le(x, k)) == x
  {
    if x >= 0 {
      FromLeInvertsLe(x, k);
    } else {
      LeWraps(x, k);
      FromLeInvertsLe(x + Pow256(k), k);
    }
  }
}
