/**
 * The bit-level arithmetic the ring-buffer queue relies on: Go's `x & y` on
 * non-negative integers, powers of two, and the "bitwise modulus" identity
 * `x & (n - 1) == x % n` that holds exactly because `n` is a power of two.
 */
module Bits {

  /** `n` is 1, 2, 4, 8, ... */
  predicate IsPowerOfTwo(n: nat)
    decreases n
  {
    n == 1 || (n >= 2 && n % 2 == 0 && IsPowerOfTwo(n / 2))
  }

  /** Go's bitwise AND `x & y`, for non-negative operands, one bit at a time from the lowest. */
  function BitAnd(x: nat, y: nat): (r: nat)
    ensures r <= x && r <= y
  {
    if x == 0 || y == 0 then 0
    else 2 * BitAnd(x / 2, y / 2) + (if x % 2 == 1 && y % 2 == 1 then 1 else 0)
  }

  /** Doubling keeps a power of two a power of two. */
  lemma DoubleIsPowerOfTwo(n: nat)
    requires IsPowerOfTwo(n)
    ensures IsPowerOfTwo(2 * n)
  {
    assert (2 * n) / 2 == n;
  }

  /** A power of two of at least 2 is twice a power of two. */
  lemma HalfIsPowerOfTwo(n: nat)
    requires IsPowerOfTwo(n) && n >= 2
    ensures IsPowerOfTwo(n / 2) && n == 2 * (n / 2)
  {
  }

  /** A power of two of at least 4 is a whole number of fours. */
  lemma PowerOfTwoQuarters(n: nat)
    requires IsPowerOfTwo(n) && n >= 4
    ensures n == 4 * (n / 4)
  {
    assert IsPowerOfTwo(n / 2);
  }

  /** Powers of two are spaced by doubling: nothing lies strictly between `k` and `2 * k`. */
  lemma {:induction false} PowerOfTwoAbove(n: nat, k: nat)
    requires IsPowerOfTwo(n) && IsPowerOfTwo(k) && n > k
    ensures n >= 2 * k
    decreases k
  {
    if k >= 2 {
      PowerOfTwoAbove(n / 2, k / 2);
    }
  }

  lemma {:induction false} MulAtLeast(d: nat, k: nat)
    requires k >= 1
    ensures d * k >= d
  {
    if k > 1 {
      MulAtLeast(d, k - 1);
      assert d * k == d * (k - 1) + d;
    }
  }

  /** Euclidean division is determined by any decomposition `x == d * q + r` with `r < d`. */
  lemma ModOfDecomposition(x: nat, d: nat, q: nat, r: nat)
    requires d > 0 && x == d * q + r && r < d
    ensures x % d == r && x / d == q
  {
    var q', r' := x / d, x % d;
    assert x == d * q' + r';
    if q > q' {
      assert d * q == d * q' + d * (q - q');
      MulAtLeast(d, q - q');
    } else if q < q' {
      assert d * q' == d * q + d * (q' - q);
      MulAtLeast(d, q' - q);
    }
  }

  /** Reducing modulo `2 * m` splits into reducing `x / 2` modulo `m` and keeping the low bit. */
  lemma ModOfDouble(x: nat, m: nat)
    requires m > 0
    ensures x % (2 * m) == 2 * ((x / 2) % m) + x % 2
  {
    var q, r := (x / 2) / m, (x / 2) % m;
    assert x / 2 == m * q + r;
    assert x == 2 * (x / 2) + x % 2;
    assert x == (2 * m) * q + (2 * r + x % 2);
    ModOfDecomposition(x, 2 * m, q, 2 * r + x % 2);
  }

  /** Masking with an odd number keeps the low bit and masks the rest with the upper bits. */
  lemma BitAndOdd(x: nat, y: nat)
    requires x > 0 && y % 2 == 1
    ensures BitAnd(x, y) == 2 * BitAnd(x / 2, y / 2) + x % 2
  {
  }

  /**
   * The bitwise modulus: masking with `n - 1` is reduction modulo `n`
   * whenever `n` is a power of two.
   */
  lemma {:induction false} MaskIsMod(x: nat, n: nat)
    requires IsPowerOfTwo(n)
    ensures BitAnd(x, n - 1) == x % n
  {
    if n == 1 {
    } else if x == 0 {
    } else {
      var m := n / 2;
      assert n == 2 * m && (n - 1) / 2 == m - 1;
      MaskIsMod(x / 2, m);
      BitAndOdd(x, n - 1);
      ModOfDouble(x, m);
    }
  }

  /**
   * One step of wrap-around: for `0 <= x < 2 * m`, the index `x` brought back
   * into `[0, m)` by subtracting `m` at most once.
   */
  function Wrap(x: int, m: int): (r: int)
    requires 0 <= x < 2 * m
    ensures 0 <= r < m
    ensures r == x || r == x - m
  {
    if x < m then x else x - m
  }

  /** On its domain, `Wrap` is reduction modulo `m`. */
  lemma WrapIsMod(x: int, m: int)
    requires 0 <= x < 2 * m
    ensures Wrap(x, m) == x % m
  {
    if x < m {
      ModOfDecomposition(x, m, 0, x);
    } else {
      ModOfDecomposition(x, m, 1, x - m);
    }
  }

  /** The bitwise modulus of an index that has gone at most one lap past a power-of-two capacity. */
  lemma MaskIsWrap(x: int, n: nat)
    requires IsPowerOfTwo(n) && 0 <= x < 2 * n
    ensures BitAnd(x, n - 1) == Wrap(x, n)
  {
    MaskIsMod(x, n);
    WrapIsMod(x, n);
  }

  lemma EightAndSixteenArePowersOfTwo()
    ensures IsPowerOfTwo(8) && IsPowerOfTwo(16)
  {
    assert IsPowerOfTwo(1);
    assert IsPowerOfTwo(2);
    assert IsPowerOfTwo(4);
  }
}
