/** The little arithmetic that ring indices need. */
module Modular {
  lemma {:induction false} MulGap(n: nat, d: int)
    ensures d >= 1 ==> n * d >= n
    ensures d <= 0 ==> n * d <= 0
    ensures d <= -1 ==> n * d + n <= 0
  {
  }

  /** The division algorithm determines quotient and remainder. */
  lemma {:induction false} ModUnique(x: int, n: nat, q: int, r: nat)
    requires r < n && x == n * q + r
    ensures x % n == r && x / n == q
  {
    var d := q - x / n;
    assert x % n - r == n * d by {
      assert x == n * (x / n) + x % n;
    }
    MulGap(n, d);
  }

  lemma {:induction false} ModAdd(n: nat, a: nat, b: nat)
    requires n > 0
    ensures (a % n + b) % n == (a + b) % n
  {
    var y := a % n + b;
    var q := a / n + y / n;
    assert a + b == n * q + y % n by {
      assert n * q == n * (a / n) + n * (y / n);
    }
    ModUnique(a + b, n, q, y % n);
  }

  /** Fewer than n apart, two counters have different ring indices. */
  lemma {:induction false} ModDistinct(n: nat, a: nat, b: nat)
    requires a < b < a + n
    ensures a % n != b % n
  {
    var d := b / n - a / n;
    assert b - a == n * d + (b % n - a % n);
    MulGap(n, d);
  }

  /** A full turn returns to the same ring index. */
  lemma {:induction false} ModTurn(n: nat, a: nat)
    requires n > 0
    ensures (a + n) % n == a % n
  {
    ModUnique(a + n, n, a / n + 1, a % n);
  }
}
