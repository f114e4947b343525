/** Facts about Dafny's `%` that the rotation proofs rely on.  Dafny's `%`
    is the mathematical (Euclidean) remainder, never negative, so
    `-1 % n == n - 1`; JavaScript's `%` truncates and would give -1.  The
    contracts use the Euclidean remainder on purpose: it is the value the
    source's explicit wrap-around comparisons compute. */
module ModArith {

  /** A non-zero multiple of `n` is at least `n` away from zero. */
  lemma MultipleAwayFromZero(d: int, n: int)
    requires n > 0
    ensures d >= 1 ==> d * n >= n
    ensures d <= -1 ==> d * n <= -n
  {
    if d >= 1 {
      assert d * n == (d - 1) * n + n;
    } else if d <= -1 {
      assert d * n == (d + 1) * n - n;
    }
  }

  /** `a % n` is determined by any decomposition `a == q * n + r` with
      `0 <= r < n`. */
  lemma ModUnique(a: int, q: int, r: int, n: int)
    requires n > 0
    requires 0 <= r < n
    requires a == q * n + r
    ensures a % n == r
  {
    var d := q - a / n;
    assert d * n == a % n - r;
    MultipleAwayFromZero(d, n);
  }

  /** Adding a multiple of `n` does not change the remainder. */
  lemma ModAddMultiple(a: int, q: int, n: int)
    requires n > 0
    ensures (a + q * n) % n == a % n
  {
    ModUnique(a + q * n, a / n + q, a % n, n);
  }

  /** Reducing an operand first does not change the remainder of a sum. */
  lemma ModOfSum(a: int, b: int, n: int)
    requires n > 0
    ensures (a % n + b) % n == (a + b) % n
  {
    ModAddMultiple(a % n + b, a / n, n);
  }

  /** An index already in range is its own remainder. */
  lemma ModInRange(a: int, n: int)
    requires 0 <= a < n
    ensures a % n == a
  {
    ModUnique(a, 0, a, n);
  }
}
