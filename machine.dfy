/** Fixed-width C integer arithmetic used by the reorder buffer: `unsigned int`
    (32 bits), `uint64_t`, and the reinterpretation of a `uint64_t` difference
    as `int64_t` (two's complement). */
module Machine {

  const TWO_32: int := 0x1_0000_0000
  const TWO_63: int := 0x8000_0000_0000_0000
  const TWO_64: int := 0x1_0000_0000_0000_0000

  type uint32 = x: int | 0 <= x < TWO_32
  type uint64 = x: int | 0 <= x < TWO_64
  type int64 = x: int | -TWO_63 <= x < TWO_63

  /** Conversion of any integer to `unsigned int`: reduction modulo 2^32. */
  function Trunc32(x: int): uint32
  {
    x % TWO_32
  }

  /** Conversion of any integer to `uint64_t`: reduction modulo 2^64. */
  function Wrap64(x: int): uint64
  {
    x % TWO_64
  }

  /** `(int64_t) u` for a `uint64_t` u on a two's-complement machine. */
  function AsSigned64(u: uint64): int64
  {
    if u < TWO_63 then u else u - TWO_64
  }

  /** `(int64_t)(a - b)` for `uint64_t` a and b: the wrapping difference read back as signed. */
  function SignedDiff(a: uint64, b: uint64): (r: int64)
    ensures (r - (a - b)) % TWO_64 == 0
  {
    AsSigned64(Wrap64(a - b))
  }

  /** Two values of the signed range that are congruent modulo 2^64 are equal. */
  lemma CongruentInt64Equal(x: int64, y: int64)
    requires (x - y) % TWO_64 == 0
    ensures x == y
  {
  }

  /** The signed wrapping difference is the one value of the `int64_t` range that is
      congruent to the mathematical difference `a - b` modulo 2^64. */
  lemma SignedDiffCharacterized(a: uint64, b: uint64, k: int64)
    ensures (SignedDiff(a, b) - (a - b)) % TWO_64 == 0
    ensures (k - (a - b)) % TWO_64 == 0 <==> k == SignedDiff(a, b)
  {
    var r := SignedDiff(a, b);
    assert (r - (a - b)) % TWO_64 == 0;
    if (k - (a - b)) % TWO_64 == 0 {
      assert (k - r) % TWO_64 == 0;
      CongruentInt64Equal(k, r);
    }
  }

  /** A sequence number up to 2^63 - 1 steps ahead of `b`, even if it wrapped past 2^64,
      is seen at its true forward distance. */
  lemma SignedDiffAhead(b: uint64, k: int)
    requires 0 <= k < TWO_63
    ensures SignedDiff(Wrap64(b + k), b) == k
  {
    SignedDiffCharacterized(Wrap64(b + k), b, k);
  }

  /** A sequence number 1 to 2^63 steps behind `b` is seen as a negative distance. */
  lemma SignedDiffBehind(b: uint64, k: int)
    requires 0 < k <= TWO_63
    ensures SignedDiff(Wrap64(b - k), b) == -k
  {
    SignedDiffCharacterized(Wrap64(b - k), b, -k);
  }

  /** The example of the source comment, written for 64 bits: 0x10 is 0x13 steps
      after 0xFFFF_FFFF_FFFF_FFFD. */
  lemma SignedDiffWrapExample()
    ensures SignedDiff(0x10, 0xFFFF_FFFF_FFFF_FFFD) == 0x13
  {
  }

  /** Adding after a reduction modulo 2^64 is the same as reducing the sum. */
  lemma Wrap64Add(a: int, b: int)
    ensures Wrap64(Wrap64(a) + b) == Wrap64(a + b)
  {
  }

  /** A power of two: 1, 2, 4, ... */
  predicate IsPow2(n: nat)
  {
    n == 1 || (n > 1 && n % 2 == 0 && IsPow2(n / 2))
  }

  lemma Pow2Double(n: nat)
    requires IsPow2(n)
    ensures IsPow2(2 * n)
  {
  }

  /** Products of powers of two are powers of two. */
  lemma {:induction false} Pow2Mul(a: nat, b: nat)
    requires IsPow2(a) && IsPow2(b)
    ensures IsPow2(a * b)
  {
    if b > 1 {
      Pow2Mul(a, b / 2);
      Pow2Double(a * (b / 2));
      assert 2 * (a * (b / 2)) == a * b;
    }
  }

  /** 2^28 and 2^31 are powers of two. */
  lemma LargePowersOfTwo()
    ensures IsPow2(0x1000_0000) && IsPow2(0x8000_0000)
  {
    Pow2Double(1);
    Pow2Double(2);
    Pow2Double(4);
    Pow2Double(8);
    Pow2Mul(16, 16);
    Pow2Mul(256, 256);
    Pow2Mul(256, 16);
    Pow2Mul(0x1_0000, 0x1000);
    Pow2Mul(0x1000_0000, 8);
  }

  /** C's bitwise `&` on non-negative integers, one bit at a time. */
  function BitAnd(a: nat, b: nat): (r: nat)
    ensures r <= a && r <= b
  {
    if a == 0 || b == 0 then 0
    else 2 * BitAnd(a / 2, b / 2) + (if a % 2 == 1 && b % 2 == 1 then 1 else 0)
  }

  /** For a power of two `n`, masking with `n - 1` an index below `2 * n` wraps it
      once around the window: this is what `(head + offset) & mask` computes. */
  lemma {:induction false} MaskWraps(x: nat, n: nat)
    requires IsPow2(n) && x < 2 * n
    ensures BitAnd(x, n - 1) == if x < n then x else x - n
  {
    if n == 1 || x == 0 {
    } else {
      MaskWraps(x / 2, n / 2);
      assert (n - 1) / 2 == n / 2 - 1;
    }
  }
}
