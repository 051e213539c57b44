/** Rounding up to multiples, and powers of two. */
module Rounding {
  import opened Machine

  predicate PowerOfTwo(n: nat) {
    n == 1 || (n > 1 && n % 2 == 0 && PowerOfTwo(n / 2))
  }

  function RoundUp(x: nat, n: nat): nat
    requires n > 0
  {
    (x + (n - 1)) / n * n
  }

  lemma RoundFacts(x: nat, n: nat, q: nat, r: nat, k: nat)
    requires x + (n - 1) == n * q + r && r < n
    ensures x <= n * q && (n * q) % n == 0
    ensures x <= n * k ==> n * q <= n * k
  {
    DivModOf(n, q, 0);
    if k < q {
      MulStep(n, k, q);
    } else {
      MulMonotone(n, q, k);
    }
  }

  /** The least multiple that is not below. */
  lemma RoundUpLeast(x: nat, n: nat, y: nat)
    requires n > 0
    ensures x <= RoundUp(x, n) && RoundUp(x, n) % n == 0
    ensures x <= y && y % n == 0 ==> RoundUp(x, n) <= y
  {
    var q, r, k := (x + (n - 1)) / n, (x + (n - 1)) % n, y / n;
    Euclid(x + (n - 1), n);
    Euclid(y, n);
    MulCommutes(q, n);
    RoundFacts(x, n, q, r, k);
  }

  lemma {:induction false} PowersDivide(m: nat, n: nat)
    requires PowerOfTwo(m) && PowerOfTwo(n)
    ensures m % n == 0 || n % m == 0
    decreases m + n
  {
    if m > 1 && n > 1 {
      PowersDivide(m / 2, n / 2);
      if m / 2 % (n / 2) == 0 {
        DoubleDivides(m / 2, n / 2);
      } else {
        DoubleDivides(n / 2, m / 2);
      }
    }
  }

  lemma DoubleDivides(a: nat, b: nat)
    requires b > 0 && a % b == 0
    ensures (2 * a) % (2 * b) == 0
  {
    Euclid(a, b);
    var q := a / b;
    assert 2 * a == (2 * b) * q + 0 by { assert 2 * (b * q) == (2 * b) * q; }
    DivModOf(2 * b, q, 0);
  }

  lemma Divides(x: nat, b: nat, a: nat)
    requires a > 0 && b > 0 && x % b == 0 && b % a == 0
    ensures x % a == 0
  {
    Euclid(x, b);
    Euclid(b, a);
    var p, q := x / b, b / a;
    assert x == a * (q * p) + 0 by { assert b * p == (a * q) * p == a * (q * p); }
    DivModOf(a, q * p, 0);
  }

  lemma Power16(n: nat)
    requires PowerOfTwo(n)
    ensures PowerOfTwo(2 * n) && PowerOfTwo(16 * n)
  {
    hide PowerOfTwo;
    Doubled(n);
    Doubled(2 * n);
    Doubled(4 * n);
    Doubled(8 * n);
    assert 2 * (2 * n) == 4 * n && 2 * (4 * n) == 8 * n && 2 * (8 * n) == 16 * n;
  }

  lemma Doubled(n: nat)
    requires PowerOfTwo(n)
    ensures PowerOfTwo(2 * n)
  {
    Positive(n);
  }

  lemma PowerOne()
    ensures PowerOfTwo(1)
  {
  }

  lemma Positive(n: nat)
    requires PowerOfTwo(n)
    ensures n > 0
  {
  }
}
