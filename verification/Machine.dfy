/** Fixed-width machine arithmetic shared by the models. */
module Machine {

  const TWO32: nat := 0x1_0000_0000
  const TWO64: nat := 0x1_0000_0000_0000_0000

  type byte = x: int | 0 <= x < 256
  type u32 = x: int | 0 <= x < TWO32

  /** Truncation to `uint32_t`. */
  function U32(x: int): u32 {
    x % TWO32
  }

  /** Truncation to `uint64_t`. */
  function U64(x: int): nat {
    x % TWO64
  }

  lemma U32Id(x: nat)
    requires x < TWO32
    ensures U32(x) == x
  {
  }

  lemma U64Id(x: nat)
    requires x < TWO64
    ensures U64(x) == x
  {
  }

  /** Bitwise exclusive or of two naturals. */
  function Xor(a: nat, b: nat): nat
    decreases a
  {
    if a == 0 then b
    else (if a % 2 == b % 2 then 0 else 1) + 2 * Xor(a / 2, b / 2)
  }

  /** Bitwise or of two naturals. */
  function Or(a: nat, b: nat): nat
    decreases a + b
  {
    if a == 0 && b == 0 then 0
    else (if a % 2 == 1 || b % 2 == 1 then 1 else 0) + 2 * Or(a / 2, b / 2)
  }

  function Pow2(k: nat): (n: nat)
    ensures n > 0
  {
    if k == 0 then 1 else 2 * Pow2(k - 1)
  }

  /** The low bits of an exclusive or only depend on the low bits of the operands. */
  lemma {:induction false} XorLow(a: nat, b: nat, n: nat)
    requires n == 1 || n == 2 || n == 4 || n == 8
    ensures Xor(a, b) % n == Xor(a % n, b % n)
    decreases n
  {
    hide Xor;
    if n == 1 {
      XorStep(0, 0);
      assert a % 1 == 0 && b % 1 == 0;
    } else {
      XorStep(a, b);
      XorStep(a % n, b % n);
      XorLow(a / 2, b / 2, n / 2);
      ModHalf(a, n);
      ModHalf(b, n);
      ModHalf(Xor(a, b), n);
    }
  }

  lemma XorLow3(c: nat, key: nat)
    requires c < 8
    ensures Xor(c, key) % 8 == Xor(c, key % 8)
  {
    XorLow(c, key, 8);
    SmallMod(c, 8);
  }

  lemma SmallMod(c: nat, n: nat)
    requires c < n
    ensures c % n == c
  {
  }

  lemma ModHalf(a: nat, n: nat)
    requires n == 2 || n == 4 || n == 8
    ensures a % n / 2 == a / 2 % (n / 2) && a % n % 2 == a % 2
  {
    var h, q, r := n / 2, a / n, a % n;
    assert a == 2 * (h * q + r / 2) + r % 2;
    DivModOf(2, h * q + r / 2, r % 2);
    DivModOf(h, q, r / 2);
  }

  /** Product by repeated addition; proofs that need the algebra of products call `MulIs`. */
  function Mul(a: nat, b: nat): nat {
    if b == 0 then 0 else a + Mul(a, b - 1)
  }

  lemma {:induction false} MulIs(a: nat, b: nat)
    ensures Mul(a, b) == a * b
  {
    if b > 0 {
      MulIs(a, b - 1);
      assert a * b == a + a * (b - 1);
    }
  }

  /** Tile dimensions and depths. */
  predicate TileDim(q: nat) {
    q in {1, 4, 8, 16, 32, 64}
  }

  /** Division by a tile dimension, with one literal divisor per case. */
  function Quot(x: nat, q: nat): nat
    requires TileDim(q)
  {
    if q == 1 then x else if q == 4 then x / 4 else if q == 8 then x / 8
    else if q == 16 then x / 16 else if q == 32 then x / 32 else x / 64
  }

  lemma QuotIs(x: nat, q: nat)
    requires TileDim(q)
    ensures Quot(x, q) == x / q
  {
  }

  /** Quotient and remainder of a number written in positional notation. */
  lemma DivModOf(n: nat, q: nat, r: nat)
    requires r < n
    ensures (n * q + r) / n == q && (n * q + r) % n == r
  {
    var a := n * q + r;
    assert a == n * (a / n) + a % n;
    DivModUnique(n, a / n, a % n, q, r);
  }

  /** One unfolding of Xor that also covers a zero left operand. */
  lemma XorStep(a: nat, b: nat)
    ensures Xor(a, b) == (if a % 2 == b % 2 then 0 else 1) + 2 * Xor(a / 2, b / 2)
  {
  }

  /** Exclusive or with a fixed mask is injective on three-bit values. */
  lemma Xor3Injective(a: nat, b: nat, m: nat)
    requires a < 8 && b < 8 && m < 8
    requires Xor(a, m) == Xor(b, m)
    ensures a == b
  {
    XorStep(a, m); XorStep(a / 2, m / 2); XorStep(a / 4, m / 4);
    XorStep(b, m); XorStep(b / 2, m / 2); XorStep(b / 4, m / 4);
    assert a / 2 / 2 == a / 4 && b / 2 / 2 == b / 4 && m / 2 / 2 == m / 4;
  }

  /** Exclusive or of two-bit values stays in two bits. */
  lemma Xor2Range(a: nat, m: nat)
    requires a < 4 && m < 4
    ensures Xor(a, m) < 4
  {
    XorStep(a, m); XorStep(a / 2, m / 2);
  }

  /** Positional notation is unique: quotient and remainder determine each other. */
  lemma DivModUnique(n: nat, q: nat, r: nat, q': nat, r': nat)
    requires r < n && r' < n
    requires n * q + r == n * q' + r'
    ensures q == q' && r == r'
  {
    if q < q' {
      MulMonotone(n, q + 1, q');
    } else if q' < q {
      MulMonotone(n, q' + 1, q);
    }
  }

  lemma MulMonotone(n: nat, a: nat, b: nat)
    requires a <= b
    ensures n * a <= n * b
  {
  }

  lemma Euclid(n: nat, d: nat)
    requires d > 0
    ensures n == d * (n / d) + n % d
  {
  }

  lemma MulStep(n: nat, a: nat, b: nat)
    requires a < b
    ensures n * a + n <= n * b
  {
    MulMonotone(n, a + 1, b);
  }

  lemma MulCommutes(a: nat, b: nat)
    ensures a * b == b * a
    ensures a * b >= 0
  {
  }
}
