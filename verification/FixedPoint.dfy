/** Scaling a pixel coordinate: the exact quotient and the accumulated 32.32 fixed-point step. */
module FixedPoint {
  import opened Machine
  import opened Products

  /** Source coordinate of the general path: a 32-bit product, then a division. */
  function Scaled(srcSize: u32, dstSize: u32, v: nat): nat
    requires dstSize > 0
  {
    U32(Mul(srcSize, v)) / dstSize
  }

  /** Step of the fast path in 32.32 fixed point. */
  function Increment(srcSize: u32, dstSize: u32): nat
    requires dstSize > 0
  {
    srcSize * TWO32 / dstSize
  }

  /** A 64-bit accumulator after i additions of the step. */
  function Accumulated(step: nat, i: nat): nat {
    if i == 0 then 0 else U64(Accumulated(step, i - 1) + step)
  }

  /** Source coordinate of the fast path: the integer part of the accumulated steps. */
  function FastScaled(srcSize: u32, dstSize: u32, v: nat): nat
    requires dstSize > 0
  {
    Accumulated(Increment(srcSize, dstSize), v) / TWO32
  }

  /** The accumulator holds the product, also across wraps. */
  lemma {:induction false} AccumulatedIsProduct(step: nat, i: nat)
    ensures Accumulated(step, i) == U64(i * step)
  {
    if i > 0 {
      AccumulatedIsProduct(step, i - 1);
      assert i * step == (i - 1) * step + step;
      WrapAdd((i - 1) * step, step);
    }
  }

  lemma AccumulateStep(step: nat, i: nat)
    ensures Accumulated(step, i + 1) == U64(Accumulated(step, i) + step)
  {
  }

  lemma WrapAdd(a: nat, b: nat)
    ensures U64(U64(a) + b) == U64(a + b)
  {
  }

  lemma DivBetween(a: nat, q: nat)
    requires q * TWO32 <= a < q * TWO32 + TWO32
    ensures a / TWO32 == q
  {
  }

  lemma MulLess(d: nat, a: nat, b: nat)
    requires d * a < d * b
    ensures a < b
  {
    if b <= a { MulMonotone(d, b, a); }
  }

  /** From d*a + b == d*(e*2^32) + c with b and c below d*2^32, the integer part of a is e or e - 1. */
  lemma FloorStep(d: nat, a: nat, b: nat, e: nat, c: nat)
    requires d > 0 && b < d * TWO32 && c < d * TWO32
    requires d * a + b == d * (e * TWO32) + c
    ensures a / TWO32 == if c < b then e - 1 else e
    ensures c < b ==> e > 0
  {
    var m := e * TWO32;
    if c < b {
      MulLess(d, a, m);
      assert d * (a + TWO32) == d * a + d * TWO32;
      MulLess(d, m, a + TWO32);
      DivBetween(a, e - 1);
    } else {
      if a < m { MulStep(d, a, m); }
      assert d * (m + TWO32) == d * m + d * TWO32;
      MulLess(d, a, m + TWO32);
      DivBetween(a, e);
    }
  }

  /** v * srcSize * 2^32, once through the step and once through the exact quotient. */
  lemma TwoWays(srcSize: nat, dstSize: nat, v: nat, inc: nat, rho: nat, exact: nat, r: nat)
    requires srcSize * TWO32 == dstSize * inc + rho && srcSize * v == dstSize * exact + r
    ensures dstSize * (v * inc) + v * rho == dstSize * (exact * TWO32) + r * TWO32
  {
    calc {
      dstSize * (v * inc) + v * rho;
      { Shuffle(dstSize, v, inc); }
      v * (dstSize * inc) + v * rho;
      { DistributeMul(v, dstSize * inc, rho); }
      v * (srcSize * TWO32);
      { Shuffle(v, srcSize, TWO32); }
      srcSize * (v * TWO32);
      { Associate(srcSize, v, TWO32); }
      srcSize * v * TWO32;
      (dstSize * exact + r) * TWO32;
      { Associate(dstSize, exact, TWO32); }
      dstSize * (exact * TWO32) + r * TWO32;
    }
  }

  lemma Shuffle(a: nat, b: nat, c: nat)
    ensures a * (b * c) == b * (a * c)
  {
  }

  lemma Associate(a: nat, b: nat, c: nat)
    ensures a * (b * c) == a * b * c
  {
  }

  lemma DistributeMul(a: nat, b: nat, c: nat)
    ensures a * b + a * c == a * (b + c)
  {
  }

  lemma ProductBound(v: nat, rho: nat, dstSize: nat)
    requires v < dstSize && rho < dstSize <= TWO32
    ensures 0 <= v * rho < dstSize * TWO32
  {
    MulMonotone(v, rho, TWO32);
    MulCommutes(v, rho);
    MulMonotone(TWO32, v + 1, dstSize);
  }

  lemma ProductBelow(v: nat, inc: nat, srcSize: nat, dstSize: nat, rho: nat)
    requires v < dstSize && srcSize < TWO32 && srcSize * TWO32 == dstSize * inc + rho
    ensures 0 <= v * inc < TWO64
  {
    MulMonotone(inc, v, dstSize);
    MulCommutes(inc, v);
    MulCommutes(inc, dstSize);
  }

  /** The fixed-point coordinate is late when the dropped fractions have summed up past the remainder. */
  predicate Late(srcSize: u32, dstSize: u32, v: nat)
    requires dstSize > 0
  {
    srcSize * v % dstSize * TWO32 < v * (srcSize * TWO32 % dstSize)
  }

  lemma FixedPointFloor(srcSize: nat, dstSize: nat, v: nat, inc: nat, rho: nat, exact: nat, r: nat)
    requires v < dstSize <= TWO32 && srcSize < TWO32 && rho < dstSize && r < dstSize
    requires srcSize * TWO32 == dstSize * inc + rho && srcSize * v == dstSize * exact + r
    ensures 0 <= v * inc < TWO64
    ensures v * inc / TWO32 == exact - if r * TWO32 < v * rho then 1 else 0
  {
    TwoWays(srcSize, dstSize, v, inc, rho, exact, r);
    ProductBound(v, rho, dstSize);
    RemainderBound(r, dstSize);
    ProductBelow(v, inc, srcSize, dstSize, rho);
    FloorStep(dstSize, v * inc, v * rho, exact, r * TWO32);
  }

  /** Exactly when the fast path agrees with the true quotient; otherwise it is one pixel short. */
  lemma FastScaledExact(srcSize: u32, dstSize: u32, v: nat)
    requires v < dstSize
    ensures FastScaled(srcSize, dstSize, v) == srcSize * v / dstSize - if Late(srcSize, dstSize, v) then 1 else 0
  {
    hide Mul, Accumulated, U64;
    var inc := Increment(srcSize, dstSize);
    Euclid(srcSize * TWO32, dstSize);
    MulIs(srcSize, v);
    Euclid(Mul(srcSize, v), dstSize);
    FixedPointFloor(srcSize, dstSize, v, inc, srcSize * TWO32 % dstSize, Mul(srcSize, v) / dstSize, Mul(srcSize, v) % dstSize);
    AccumulatedIsProduct(inc, v);
    U64Id(v * inc);
  }

  /** The fast path never leaves the source image and lands on the exact coordinate or one before it. */
  lemma FastScaledBound(srcSize: u32, dstSize: u32, v: nat)
    requires v < dstSize && srcSize > 0
    ensures FastScaled(srcSize, dstSize, v) < srcSize
    ensures srcSize * v / dstSize - 1 <= FastScaled(srcSize, dstSize, v) <= srcSize * v / dstSize
  {
    FastScaledExact(srcSize, dstSize, v);
    ExactInImage(srcSize, dstSize, v);
  }

  lemma ExactInImage(srcSize: nat, dstSize: nat, v: nat)
    requires v < dstSize && srcSize > 0
    ensures srcSize * v / dstSize < srcSize
  {
    var q := Mul(srcSize, v) / dstSize;
    MulIs(srcSize, v);
    Euclid(Mul(srcSize, v), dstSize);
    if q >= srcSize {
      MulMonotone(dstSize, srcSize, q);
      MulCommutes(dstSize, srcSize);
      MulStep(srcSize, v, dstSize);
    }
  }

  /** When the step has no fraction the fast path is exact everywhere. */
  lemma FastScaledWholeStep(srcSize: u32, dstSize: u32, v: nat)
    requires v < dstSize && srcSize * TWO32 % dstSize == 0
    ensures FastScaled(srcSize, dstSize, v) == srcSize * v / dstSize
  {
    FastScaledExact(srcSize, dstSize, v);
  }

  /** Scaling two pixels to six is late: pixel 3 reads source pixel 0 instead of 1. */
  lemma FastScaledLate(v: nat)
    requires v == 3
    ensures FastScaled(2, 6, v) == 0 && Scaled(2, 6, v) == 1
  {
    FastScaledExact(2, 6, v);
    assert Late(2, 6, v);
    MulIs(2, v);
    U32Id(6);
  }

  lemma SameSize(size: u32, v: nat)
    requires v < size
    ensures size * v / size == v && size * TWO32 % size == 0
    ensures FastScaled(size, size, v) == v
  {
    MulDivExact(size, v);
    MulDivExact(size, TWO32);
    FastScaledWholeStep(size, size, v);
  }

  lemma MulDivExact(n: nat, v: nat)
    requires n > 0
    ensures n * v / n == v && n * v % n == 0
  {
    Euclid(n * v, n);
    DivModUnique(n, n * v / n, n * v % n, v, 0);
  }

  /** The general path keeps every coordinate of an unscaled copy exactly when the size is at most 2^16. */
  lemma ScaledIdentityIff(size: u32)
    requires size > 0
    ensures (forall v: nat :: v < size ==> Scaled(size, size, v) == v) <==> size <= 0x10000
  {
    if size <= 0x10000 {
      forall v: nat | v < size ensures Scaled(size, size, v) == v { ScaledSmall(size, v); }
    } else {
      ScaledWraps(size);
    }
  }

  lemma ScaledSmall(size: u32, v: nat)
    requires v < size <= 0x10000
    ensures Scaled(size, size, v) == v
  {
    MulMonotone(size, v, 0xFFFF);
    MulMonotone(0xFFFF, size, 0x10000);
    MulCommutes(size, v);
    MulIs(size, v);
    U32Id(size * v);
    MulDivExact(size, v);
  }

  /** A larger size wraps at its last coordinate at the latest. */
  lemma ScaledWraps(size: u32)
    requires size > 0x10000
    ensures Scaled(size, size, size - 1) != size - 1
  {
    var n := Mul(size, size - 1);
    MulIs(size, size - 1);
    MulMonotone(size - 1, 0x10001, size);
    assert n >= TWO32;
    assert U32(n) < n;
    Euclid(U32(n), size);
  }

  lemma RemainderBound(r: nat, d: nat)
    requires r < d
    ensures r * TWO32 < d * TWO32
  {
  }
}
