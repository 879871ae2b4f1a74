/** Facts about Dafny's Euclidean `/` and `%` that the carousel proofs use. */
module Arith {

  lemma MulPositive(d: int, n: int)
    requires d >= 1 && n >= 1
    ensures d * n >= n
  {
  }

  /** Every integer is its quotient times the divisor plus its remainder. */
  lemma DivModSplit(x: int, n: int)
    requires n >= 1
    ensures x == (x / n) * n + x % n
  {
  }

  /** A decomposition `x == q * n + r` with `0 <= r < n` is the one `/` and `%` give. */
  lemma DivModUnique(x: int, n: int, q: int, r: int)
    requires n >= 1 && 0 <= r < n && x == q * n + r
    ensures x / n == q && x % n == r
  {
    var q', r' := x / n, x % n;
    assert (q - q') * n == r' - r;
    if q > q' {
      MulPositive(q - q', n);
    } else if q < q' {
      MulPositive(q' - q, n);
    }
  }

  /** Adding one to `x` moves its residue one step up, wrapping at `n`. */
  lemma ModSucc(x: int, n: int)
    requires n >= 1
    ensures (x + 1) % n == (if x % n == n - 1 then 0 else x % n + 1)
  {
    if x % n == n - 1 {
      DivModUnique(x + 1, n, x / n + 1, 0);
    } else {
      DivModUnique(x + 1, n, x / n, x % n + 1);
    }
  }

  /** Subtracting one from `x` moves its residue one step down, wrapping at `0`. */
  lemma ModPred(x: int, n: int)
    requires n >= 1
    ensures (x - 1) % n == (if x % n == 0 then n - 1 else x % n - 1)
  {
    if x % n == 0 {
      DivModUnique(x - 1, n, x / n - 1, n - 1);
    } else {
      DivModUnique(x - 1, n, x / n, x % n - 1);
    }
  }

}
