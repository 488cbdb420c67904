/** Multiplication and remainder facts that the other modules share. */
module Arith {
  lemma MulBound(n: nat, k: int)
    ensures k >= 1 ==> n * k >= n
    ensures k <= 0 ==> n * k <= 0
    ensures k <= -1 ==> n * k + n <= 0
  {
    if k >= 1 {
      assert n * k == n + n * (k - 1) && n * (k - 1) >= 0;
    } else {
      assert n * k == -(n * (-k)) && n * (-k) >= 0;
      if k <= -1 {
        assert n * (-k) == n + n * (-k - 1) && n * (-k - 1) >= 0;
      }
    }
  }

  /** Quotient and remainder are determined by their defining equation. */
  lemma DivModUnique(x: int, n: nat, q: int, r: int)
    requires 0 < n && x == n * q + r && 0 <= r < n
    ensures x / n == q && x % n == r
  {
    var d := x / n - q;
    assert n * (x / n) + x % n == x;
    assert n * (x / n) == n * q + n * d;
    MulBound(n, d);
  }

  /** Two numbers less than n apart have different remainders. */
  lemma DistinctRemainders(a: nat, b: nat, n: nat)
    requires a < b < a + n
    ensures a % n != b % n
  {
    if a % n == b % n {
      var d := b / n - a / n;
      assert n * (b / n) == n * (a / n) + n * d;
      assert b - a == n * d;
      MulBound(n, d);
    }
  }

  lemma AddMultiple(a: int, q: int, n: nat)
    requires 0 < n
    ensures (a + n * q) % n == a % n
    ensures (a + n * q) / n == a / n + q
  {
    assert n * (a / n) + n * q == n * (a / n + q);
    DivModUnique(a + n * q, n, a / n + q, a % n);
  }

  /** The remainder of a sum depends on the remainders only. */
  lemma ModAdd(a: int, b: int, n: nat)
    requires 0 < n
    ensures (a % n + b) % n == (a + b) % n
  {
    assert a == a % n + n * (a / n);
    AddMultiple(a % n + b, a / n, n);
  }

  function Pow2(e: nat): (p: nat)
    ensures 1 <= p
  {
    if e == 0 then 1 else 2 * Pow2(e - 1)
  }

  lemma {:induction false} Pow2Add(a: nat, b: nat)
    ensures Pow2(a) * Pow2(b) == Pow2(a + b)
  {
    if a > 0 {
      Pow2Add(a - 1, b);
      assert 2 * Pow2(a - 1) * Pow2(b) == 2 * (Pow2(a - 1) * Pow2(b));
    }
  }

  lemma {:induction false} Pow2Monotone(a: nat, b: nat)
    requires a <= b
    ensures Pow2(a) <= Pow2(b)
  {
    if a < b {
      Pow2Monotone(a, b - 1);
    }
  }

  /** Multiples of b up to x, counted. */
  lemma MultipleLe(k: int, b: nat, x: int)
    requires 0 < b
    ensures k * b <= x <==> k <= x / b
  {
    assert b * (x / b) + x % b == x;
    assert k * b - b * (x / b) == b * (k - x / b);
    MulBound(b, k - x / b);
    if k <= x / b {
      assert b * (k - x / b) <= 0;
    }
  }

  lemma ProductBound(a: nat, b: nat, x: nat, y: nat)
    ensures a >= x && b >= y ==> a * b >= x * y
  {
    if a >= x && b >= y {
      assert a * b == x * y + x * (b - y) + (a - x) * b;
      assert x * (b - y) >= 0 && (a - x) * b >= 0;
    }
  }

  /** Numbers with the same remainder differ by a multiple. */
  lemma SameRemainder(x: int, y: int, m: nat)
    requires 0 < m && x % m == y % m
    ensures (y - x) % m == 0
  {
    assert m * (y / m - x / m) == m * (y / m) - m * (x / m);
    DivModUnique(y - x, m, y / m - x / m, 0);
  }

  lemma AddDivisible(a: int, s: int, m: nat)
    requires 0 < m && s % m == 0
    ensures (a + s) % m == a % m
  {
    assert s == m * (s / m);
    AddMultiple(a, s / m, m);
  }
}
