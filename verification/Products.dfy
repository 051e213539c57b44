/** The algebra of `Mul`, and the numbering of the cells of a grid. */
module Products {
  import opened Machine

  lemma {:induction false} MulPlus(a: nat, b: nat, c: nat)
    ensures Mul(a, b + c) == Mul(a, b) + Mul(a, c)
  {
    if c > 0 {
      MulPlus(a, b, c - 1);
      assert b + c - 1 == b + (c - 1);
    }
  }

  lemma {:induction false} MulTimes(a: nat, b: nat, c: nat)
    ensures Mul(a, Mul(b, c)) == Mul(Mul(a, b), c)
  {
    if c > 0 {
      MulTimes(a, b, c - 1);
      MulPlus(a, b, Mul(b, c - 1));
    }
  }

  lemma MulFlip(a: nat, b: nat)
    ensures Mul(a, b) == Mul(b, a)
  {
    MulIs(a, b); MulIs(b, a);
  }

  lemma MulOne(a: nat)
    ensures Mul(a, 1) == a && Mul(1, a) == a && Mul(a, 0) == 0 && Mul(0, a) == 0
  {
    MulIs(1, a); MulIs(0, a);
  }

  /** Swaps the two middle factors of a product of pairs. */
  lemma MulSwap(a: nat, b: nat, c: nat, d: nat)
    ensures Mul(Mul(a, b), Mul(c, d)) == Mul(Mul(a, c), Mul(b, d))
  {
    calc {
      Mul(Mul(a, b), Mul(c, d));
      { MulTimes(Mul(a, b), c, d); }
      Mul(Mul(Mul(a, b), c), d);
      { MulTimes(a, b, c); MulFlip(b, c); MulTimes(a, c, b); }
      Mul(Mul(Mul(a, c), b), d);
      { MulTimes(Mul(a, c), b, d); }
      Mul(Mul(a, c), Mul(b, d));
    }
  }

  lemma MulEight(a: nat, b: nat)
    ensures Mul(8 * a, b) == 8 * Mul(a, b) && Mul(a, 8 * b) == 8 * Mul(a, b)
  {
    MulTimes(a, 8, b);
    MulTimes(8, a, b);
    MulIs(a, 8);
    MulIs(8, a);
    MulIs(8, b);
    MulIs(8, Mul(a, b));
  }

  lemma MulBelow(n: nat, a: nat, b: nat)
    requires a < b
    ensures Mul(n, a) + n <= Mul(n, b)
  {
    MulIs(n, a); MulIs(n, b);
    MulStep(n, a, b);
  }

  lemma MulUnique(n: nat, q: nat, r: nat, q': nat, r': nat)
    requires r < n && r' < n && Mul(n, q) + r == Mul(n, q') + r'
    ensures q == q' && r == r'
  {
    MulIs(n, q); MulIs(n, q');
    DivModUnique(n, q, r, q', r');
  }

  lemma MulCancel(n: nat, a: nat, b: nat)
    requires n > 0 && Mul(n, a) == Mul(n, b)
    ensures a == b
  {
    if a < b { MulBelow(n, a, b); } else if b < a { MulBelow(n, b, a); }
  }

  lemma MulMod(n: nat, a: nat)
    requires n > 0
    ensures Mul(n, a) % n == 0
  {
    MulIs(n, a);
    DivModOf(n, a, 0);
  }

  lemma QuotLess(a: nat, n: nat, q: nat)
    requires TileDim(q) && n == Mul(q, Quot(n, q)) && a < n
    ensures Quot(a, q) < Quot(n, q)
  {
    hide Quot, Mul;
    QuotIs(a, q);
    QuotIs(n, q);
    MulIs(q, Quot(n, q));
    Euclid(a, q);
    if n / q <= a / q {
      MulMonotone(q, n / q, a / q);
    }
  }

  /** Equal quotients and remainders give equal numbers. */
  lemma QuotWhole(a: nat, b: nat, q: nat)
    requires TileDim(q) && Quot(a, q) == Quot(b, q) && a % q == b % q
    ensures a == b
  {
    QuotIs(a, q);
    QuotIs(b, q);
    Euclid(a, q);
    Euclid(b, q);
  }

  // -------- grids

  /** Number of the cell in column i, row j, layer k of a grid. */
  function Grid(cols: nat, rows: nat, i: nat, j: nat, k: nat): nat {
    i + Mul(cols, j + Mul(rows, k))
  }

  lemma GridUnique(cols: nat, rows: nat, i: nat, j: nat, k: nat, i': nat, j': nat, k': nat)
    requires i < cols && i' < cols && j < rows && j' < rows
    requires Grid(cols, rows, i, j, k) == Grid(cols, rows, i', j', k')
    ensures i == i' && j == j' && k == k'
  {
    MulUnique(cols, j + Mul(rows, k), i, j' + Mul(rows, k'), i');
    MulUnique(rows, k, j, k', j');
  }

  lemma GridBound(cols: nat, rows: nat, layers: nat, i: nat, j: nat, k: nat)
    requires i < cols && j < rows && k < layers
    ensures Grid(cols, rows, i, j, k) < Mul(cols, Mul(rows, layers))
  {
    MulBelow(rows, k, layers);
    MulBelow(cols, j + Mul(rows, k), Mul(rows, layers));
  }

  /** The offsets of a cell inside its layer and of its layer add up to the offset of its number. */
  lemma GridOffset(unit: nat, cols: nat, rows: nat, i: nat, j: nat, k: nat)
    ensures Mul(unit, i + Mul(j, cols)) + Mul(Mul(unit, Mul(cols, rows)), k) == Mul(unit, Grid(cols, rows, i, j, k))
  {
    calc {
      Mul(unit, Grid(cols, rows, i, j, k));
      { MulPlus(cols, j, Mul(rows, k)); MulFlip(cols, j); MulTimes(cols, rows, k); }
      Mul(unit, i + Mul(j, cols) + Mul(Mul(cols, rows), k));
      { MulPlus(unit, i + Mul(j, cols), Mul(Mul(cols, rows), k)); }
      Mul(unit, i + Mul(j, cols)) + Mul(unit, Mul(Mul(cols, rows), k));
      { MulTimes(unit, Mul(cols, rows), k); }
      Mul(unit, i + Mul(j, cols)) + Mul(Mul(unit, Mul(cols, rows)), k);
    }
  }

  /** Size of a box of q*cols by r*rows by layers*th cells of pb bytes, counted in tiles. */
  lemma BoxBytes(q: nat, r: nat, th: nat, pb: nat, cols: nat, rows: nat, layers: nat)
    ensures Mul(Mul(Mul(Mul(q, cols), Mul(r, rows)), Mul(layers, th)), pb)
            == Mul(Mul(Mul(Mul(q, r), th), pb), Mul(cols, Mul(rows, layers)))
  {
    var n, u := Mul(cols, Mul(rows, layers)), Mul(Mul(q, r), th);
    calc {
      Mul(Mul(Mul(Mul(q, cols), Mul(r, rows)), Mul(layers, th)), pb);
      { MulSwap(q, cols, r, rows); }
      Mul(Mul(Mul(Mul(q, r), Mul(cols, rows)), Mul(layers, th)), pb);
      { MulFlip(layers, th); MulSwap(Mul(q, r), Mul(cols, rows), th, layers); }
      Mul(Mul(u, Mul(Mul(cols, rows), layers)), pb);
      { MulTimes(cols, rows, layers); }
      Mul(Mul(u, n), pb);
      { MulTimes(u, n, pb); MulFlip(n, pb); MulTimes(u, pb, n); }
      Mul(Mul(u, pb), n);
    }
  }

  /** One layer of the same box. */
  lemma LayerBytes(q: nat, r: nat, th: nat, pb: nat, cols: nat, rows: nat)
    ensures Mul(Mul(Mul(Mul(q, cols), Mul(r, rows)), th), pb) == Mul(Mul(Mul(Mul(q, r), th), pb), Mul(cols, rows))
  {
    BoxBytes(q, r, th, pb, cols, rows, 1);
    MulOne(th);
    MulOne(rows);
  }
}
