/** Fields of an instruction word: reading one, and or-ing one in. */
module InstructionBits {
  import opened Machine

  /** A field by its first and last bit, numbered from the most significant bit as the manual does. */
  datatype Field = Field(id: nat, first: nat, last: nat)

  predicate WellPlaced(f: Field) {
    f.first <= f.last < 32
  }

  function StartOf(f: Field): nat
    requires WellPlaced(f)
  {
    31 - f.last
  }

  function WidthOf(f: Field): nat
    requires WellPlaced(f)
  {
    f.last - f.first + 1
  }

  /** The bits of the field, shifted down. */
  function ValueOf(f: Field, w: nat): nat
    requires WellPlaced(f)
  {
    Bits(w, StartOf(f), WidthOf(f))
  }

  function Bits(w: nat, start: nat, width: nat): nat {
    w / Pow2(start) % Pow2(width)
  }

  // -------- powers of two

  lemma {:induction false} Pow2Sum(a: nat, b: nat)
    ensures Pow2(a + b) == Pow2(a) * Pow2(b)
    decreases b
  {
    if b > 0 {
      Pow2Sum(a, b - 1);
      TwiceProduct(Pow2(a), Pow2(b - 1));
    }
  }

  lemma TwiceProduct(m: nat, n: nat)
    ensures m * (2 * n) == 2 * (m * n)
  {
  }

  /** Dividing twice is dividing by the product. */
  lemma DivDiv(x: nat, a: nat, b: nat)
    requires a > 0 && b > 0
    ensures x / a / b == x / (a * b)
  {
    Euclid(x, a);
    Euclid(x / a, b);
    var q, r, s := x / a / b, x / a % b, x % a;
    assert x == a * (b * q + r) + s == (a * b) * q + (a * r + s);
    MulMonotone(a, r + 1, b);
    MulCommutes(a, b);
    assert a * r + s < a * b;
    DivModOf(a * b, q, a * r + s);
  }

  // -------- which bits a field is

  /** Reducing to n bits keeps the bits below. */
  lemma {:induction false} LowBitKept(x: nat, n: nat, k: nat)
    requires k < n
    ensures x % Pow2(n) / Pow2(k) % 2 == x / Pow2(k) % 2
    decreases k
  {
    HalfOfLow(x, Pow2(n - 1));
    if k > 0 {
      var m := Pow2(k - 1);
      DivDiv(x % Pow2(n), 2, m);
      DivDiv(x, 2, m);
      LowBitKept(x / 2, n - 1, k - 1);
    }
  }

  lemma HalfOfLow(x: nat, h: nat)
    requires h > 0
    ensures x % (2 * h) / 2 == x / 2 % h && x % (2 * h) % 2 == x % 2
  {
    Euclid(x / 2, h);
    var q, r := x / 2 / h, x / 2 % h;
    assert (2 * h) * q == 2 * (h * q);
    DivModOf(2 * h, q, 2 * r + x % 2);
  }

  /** Bit b of the manual, counted from the most significant, lies in the field's value as far from its end as in the field. */
  lemma FieldBit(f: Field, w: nat, b: nat)
    requires WellPlaced(f) && f.first <= b <= f.last
    ensures ValueOf(f, w) < Pow2(f.last - f.first + 1)
    ensures ValueOf(f, w) / Pow2(f.last - b) % 2 == w / Pow2(31 - b) % 2
  {
    hide Pow2;
    LowBitKept(w / Pow2(31 - f.last), f.last - f.first + 1, f.last - b);
    DivDiv(w, Pow2(31 - f.last), Pow2(f.last - b));
    Pow2Sum(31 - f.last, f.last - b);
  }

  // -------- or-ing a value into a clear field

  lemma {:induction false} OrLow(a: nat, v: nat, w: nat)
    requires v < Pow2(w) && a % Pow2(w) == 0
    ensures Or(a, v) == a + v
    decreases w
  {
    if w == 0 {
      OrZero(a);
    } else {
      HalfMod(a, Pow2(w - 1));
      OrLow(a / 2, v / 2, w - 1);
      OrStep(a, v);
    }
  }

  lemma HalfMod(a: nat, n: nat)
    requires n > 0 && a % (2 * n) == 0
    ensures a % 2 == 0 && a / 2 % n == 0
  {
    Euclid(a, 2 * n);
    var q := a / (2 * n);
    assert a == 2 * (n * q) by { assert (2 * n) * q == 2 * (n * q); }
    DivModOf(n, q, 0);
  }

  lemma {:induction false} OrZero(a: nat)
    ensures Or(a, 0) == a
  {
    if a > 0 {
      OrZero(a / 2);
    }
  }

  lemma OrStep(a: nat, b: nat)
    ensures Or(a, b) == (if a % 2 == 1 || b % 2 == 1 then 1 else 0) + 2 * Or(a / 2, b / 2)
  {
  }

  /** Or-ing a value that fits into a clear field adds it there. */
  lemma {:induction false} OrAdds(a: nat, v: nat, s: nat, w: nat)
    requires v < Pow2(w) && Bits(a, s, w) == 0
    ensures Or(a, v * Pow2(s)) == a + v * Pow2(s)
    decreases s
  {
    if s == 0 {
      assert a / 1 == a && v * 1 == v;
      OrLow(a, v, w);
    } else {
      hide Pow2, Or, Bits;
      BitsOfHalf(a, s, w);
      OrAdds(a / 2, v, s - 1, w);
      OrDouble(a, v * Pow2(s - 1));
      Twice(v, s);
    }
  }

  lemma BitsOfHalf(a: nat, s: nat, w: nat)
    requires s > 0
    ensures Bits(a / 2, s - 1, w) == Bits(a, s, w)
  {
    DivDiv(a, 2, Pow2(s - 1));
  }

  lemma OrDouble(a: nat, half: nat)
    requires Or(a / 2, half) == a / 2 + half
    ensures Or(a, 2 * half) == a + 2 * half
  {
    hide Or;
    OrStep(a, 2 * half);
    assert 2 * half / 2 == half && 2 * half % 2 == 0;
  }

  lemma Twice(v: nat, s: nat)
    requires s > 0
    ensures v * Pow2(s) == 2 * (v * Pow2(s - 1))
  {
  }

  lemma SkipLow(a: nat, p: nat, y: nat)
    requires p > 0
    ensures (a + p * y) / p == a / p + y
  {
    Euclid(a, p);
    MoreTimes(p, a / p, y);
    DivModOf(p, a / p + y, a % p);
  }

  lemma SkipHigh(x: nat, q: nat, k: nat)
    requires q > 0
    ensures (x + q * k) % q == x % q
  {
    Euclid(x, q);
    MoreTimes(q, x / q, k);
    DivModOf(q, x / q + k, x % q);
  }

  lemma MoreTimes(p: nat, x: nat, y: nat)
    ensures p * (x + y) == p * x + p * y
  {
  }

  lemma Regroup(v: nat, p: nat, q: nat, r: nat)
    ensures v * ((p * q) * r) == p * (q * (v * r))
  {
    assert v * ((p * q) * r) == (p * q) * (v * r);
  }

  lemma Assoc(p: nat, q: nat, h: nat)
    ensures (p * q) * h == p * (q * h)
  {
  }

  lemma SmallDiv(lo: nat, p: nat)
    requires lo < p
    ensures lo / p == 0
  {
  }

  /** The field then holds the value. */
  lemma AddedHere(a: nat, v: nat, s: nat, w: nat)
    requires v < Pow2(w) && Bits(a, s, w) == 0
    ensures Bits(a + v * Pow2(s), s, w) == v
  {
    hide Pow2;
    var x, q := a / Pow2(s), Pow2(w);
    MulCommutes(v, Pow2(s));
    SkipLow(a, Pow2(s), v);
    ZeroMod(x, q, v);
  }

  lemma ZeroMod(x: nat, q: nat, v: nat)
    requires v < q && x % q == 0
    ensures (x + v) % q == v
  {
    Euclid(x, q);
    DivModOf(q, x / q, v);
  }

  lemma HighPart(v: nat, s: nat, t: nat, u: nat) returns (k: nat)
    requires t + u <= s
    ensures v * Pow2(s) == Pow2(t) * (Pow2(u) * k)
  {
    hide Pow2;
    Pow2Sum(t + u, s - t - u);
    Pow2Sum(t, u);
    Regroup(v, Pow2(t), Pow2(u), Pow2(s - t - u));
    k := v * Pow2(s - t - u);
  }

  lemma AddHigh(a: nat, p: nat, q: nat, k: nat, y: nat)
    requires p > 0 && q > 0 && y == p * (q * k)
    ensures (a + y) / p % q == a / p % q
  {
    SkipLow(a, p, q * k);
    SkipHigh(a / p, q, k);
  }

  /** Fields below do not see it. */
  lemma AddedAbove(a: nat, v: nat, s: nat, t: nat, u: nat)
    requires t + u <= s
    ensures Bits(a + v * Pow2(s), t, u) == Bits(a, t, u)
  {
    hide Pow2;
    var k := HighPart(v, s, t, u);
    AddHigh(a, Pow2(t), Pow2(u), k, v * Pow2(s));
  }

  /** Fields above do not see it either. */
  lemma AddedBelow(a: nat, v: nat, s: nat, w: nat, t: nat, u: nat)
    requires v < Pow2(w) && Bits(a, s, w) == 0 && s + w <= t
    ensures Bits(a + v * Pow2(s), t, u) == Bits(a, t, u)
  {
    hide Pow2;
    AboveSame(a, v, s, w);
    Pow2Sum(s + w, t - s - w);
    DivDiv(a, Pow2(s + w), Pow2(t - s - w));
    DivDiv(a + v * Pow2(s), Pow2(s + w), Pow2(t - s - w));
  }

  lemma AboveSame(a: nat, v: nat, s: nat, w: nat)
    requires v < Pow2(w) && Bits(a, s, w) == 0
    ensures (a + v * Pow2(s)) / Pow2(s + w) == a / Pow2(s + w)
  {
    hide Pow2;
    var x, p, q := a / Pow2(s), Pow2(s), Pow2(w);
    Pow2Sum(s, w);
    MulCommutes(v, p);
    SkipLow(a, p, v);
    DivDiv(a, p, q);
    DivDiv(a + v * p, p, q);
    Euclid(x, q);
    DivModOf(q, x / q, v);
  }
}
