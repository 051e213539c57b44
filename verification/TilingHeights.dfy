/** Heights that are no whole number of micro tiles: exactly when two slabs of a surface run into each other. */
module TilingHeights {
  import opened Machine
  import opened Products
  import opened Tiling
  import opened TilingInjective
  import opened TilingLimits

  /** A micro-tiled surface of at least one tile row and more than one slab, whose height may cut the last tile row. */
  predicate Tall(s: Surface) {
    && Kind(s.mode) == Micro && PlainPixels(s) && WholeTiles(s.pitch, 8)
    && s.pitch > 0 && s.height >= 8 && s.numSlices > Thickness(s.mode)
    && Mul(s.pitch, s.height) < TWO32 && BufferBytes(s) * 8 < TWO64
  }

  /** The first r pixel rows of a thin micro tile are stored in its first 8 r places. */
  predicate FillsInOrder(bpp: nat, isDepth: bool, r: nat) {
    if isDepth then r % 4 == 0
    else match bpp
      case 16 => true
      case 8 => r % 4 != 2
      case _ => r % 2 == 0
  }

  /** A cut last row does no harm in a thin surface of one tile column that fills its tiles in order. */
  predicate Harmless(s: Surface) {
    Thickness(s.mode) == 1 && s.pitch == 8 && FillsInOrder(s.bpp, s.isDepth, s.height % 8)
  }

  lemma HeightIff(s: Surface)
    requires Tall(s)
    ensures Injective(s) <==> s.height % 8 == 0 || Harmless(s)
  {
    hide BufferBytes, Mul, Addr, Harmless;
    if s.height % 8 == 0 {
      MulIs(8, Quot(s.height, 8));
      InjectiveIff(s);
    } else if Harmless(s) {
      forall x: nat, y: nat, z: nat, x': nat, y': nat, z': nat
        | InSurface(s, x, y, z) && InSurface(s, x', y', z') && Addr(s, x, y, z) == Addr(s, x', y', z')
        ensures x == x' && y == y' && z == z'
      {
        HarmlessInjective(s, x, y, z, x', y', z');
      }
    } else {
      var x, y, z, x', y' := CutRowCollides(s);
      assert InSurface(s, x, y, z) && InSurface(s, x', y', Thickness(s.mode));
    }
  }

  // -------- places

  /** Place of a pixel in its slab. */
  function Place(s: Surface, x: nat, y: nat, z: nat): nat {
    PixelIndex(s.bpp, s.mode, s.isDepth, x, y, z) + Mul(64 * Thickness(s.mode), x / 8 + Mul(y / 8, s.pitch / 8))
  }

  /** Places from the start of a slab to the start of the next. */
  function Stride(s: Surface): nat {
    Mul(Mul(s.pitch, s.height), Thickness(s.mode))
  }

  /** An address is its place, counted in pixels, if it fits 64 bits. */
  lemma PlaceAddr(s: Surface, x: nat, y: nat, z: nat)
    requires Kind(s.mode) == Micro && PlainPixels(s) && Mul(s.pitch, s.height) < TWO32
    requires Mul(PixelBytes(s), Place(s, x, y, z) + Mul(Stride(s), Quot(z, Thickness(s.mode)))) < TWO64
    ensures MicroAddr(s, x, y, z) == Mul(PixelBytes(s), Place(s, x, y, z) + Mul(Stride(s), Quot(z, Thickness(s.mode))))
  {
    hide Mul, PixelIndex, PixelOffset, Quot, U32, U64;
    var pb, th, k := PixelBytes(s), Thickness(s.mode), Quot(z, Thickness(s.mode));
    var i, g := PixelIndex(s.bpp, s.mode, s.isDepth, x, y, z), x / 8 + Mul(y / 8, s.pitch / 8);
    PixelSize(s);
    PixelOffsetForm(s, x, y, z);
    MicroTileBytesForm(s);
    U32Id(Mul(s.pitch, s.height));
    BytesOfBits(Stride(s), pb);
    SlotOffset(pb, i, 64 * th, g);
    SlotOffset(pb, Place(s, x, y, z), Stride(s), k);
    U64Id(MicroTileOffset(s, x, y));
    U64Id(SlabOffset(s, z));
    U64Id(PixelOffset(s, x, y, z) / 8 + MicroTileOffset(s, x, y) + SlabOffset(s, z));
  }

  /** Places are small: below two slabs. */
  lemma PlaceBound(s: Surface, x: nat, y: nat, z: nat)
    requires Tall(s) && x < s.pitch && y < s.height
    ensures Place(s, x, y, z) < 2 * Stride(s)
  {
    hide Mul, PixelIndex, BufferBytes, PlainPixels;
    var th, cols, n := Thickness(s.mode), s.pitch / 8, s.height / 8 + 1;
    var g := x / 8 + Mul(y / 8, cols);
    PixelIndexBound(s.bpp, s.mode, s.isDepth, x, y, z);
    MulIs(8, cols);
    MulFlip(y / 8, cols);
    MulBelow(cols, y / 8, n);
    MulBelow(64 * th, g, Mul(cols, n));
    PlaceArith(th, cols, n, s.pitch, s.height);
  }

  lemma PlaceArith(th: nat, cols: nat, n: nat, pitch: nat, height: nat)
    requires (th == 1 || th == 4) && pitch == 8 * cols && n == height / 8 + 1 && height >= 8
    ensures Mul(64 * th, Mul(cols, n)) <= 2 * Mul(Mul(pitch, height), th)
  {
    hide Mul;
    TwoSlabs(cols, n, height);
    MulEight(cols, height);
    if th == 1 {
      MulIs(64, Mul(cols, n));
      MulIs(Mul(pitch, height), 1);
    } else {
      MulIs(256, Mul(cols, n));
      MulIs(Mul(pitch, height), 4);
    }
  }

  lemma TwoSlabs(cols: nat, n: nat, height: nat)
    requires 8 * n <= 2 * height
    ensures 8 * Mul(cols, n) <= 2 * Mul(cols, height)
  {
    MulIs(cols, n);
    MulIs(cols, height);
    MulMonotone(cols, 8 * n, 2 * height);
    Regroup(cols, n, 8);
    Regroup(cols, height, 2);
  }

  lemma Regroup(a: nat, b: nat, c: nat)
    ensures a * (c * b) == c * (a * b)
  {
  }

  lemma StrideBound(s: Surface)
    requires Tall(s)
    ensures Stride(s) < 4 * TWO32
  {
    MulIs(Mul(s.pitch, s.height), Thickness(s.mode));
  }

  /** A place past the end of the first slab is also a place of the second one. */
  lemma SamePlace(s: Surface, x: nat, y: nat, z: nat, x': nat, y': nat)
    requires Tall(s) && x < s.pitch && y < s.height && z < Thickness(s.mode) && x' < s.pitch && y' < s.height
    requires Place(s, x, y, z) == Place(s, x', y', Thickness(s.mode)) + Stride(s)
    ensures MicroAddr(s, x, y, z) == MicroAddr(s, x', y', Thickness(s.mode))
  {
    hide Mul, Place, Stride, BufferBytes, MicroAddr;
    var th := Thickness(s.mode);
    assert Quot(z, th) == 0 && Quot(th, th) == 1;
    MulOne(Stride(s));
    PlaceBound(s, x, y, z);
    StrideBound(s);
    PixelSize(s);
    MulIs(PixelBytes(s), Place(s, x, y, z));
    PlaceAddr(s, x, y, z);
    PlaceAddr(s, x', y', th);
  }

  // -------- collisions

  /** Index of a pixel in its layer. */
  function Plane(bpp: nat, isDepth: bool, x: nat, y: nat): nat {
    var p := PlaneBits(bpp, isDepth, x, y);
    FromBits(p[0], p[1], p[2], p[3], p[4], p[5], 0, 0)
  }

  lemma IndexOfLayer(s: Surface, x: nat, y: nat, z: nat)
    ensures PixelIndex(s.bpp, s.mode, s.isDepth, x, y, z) == Plane(s.bpp, s.isDepth, x, y) + 64 * (z % Thickness(s.mode))
  {
    PixelIndexBits(s.bpp, s.mode, s.isDepth, x, y, z);
  }

  lemma SmallBits(a: nat, b: nat, c: nat, v: nat)
    requires a <= 1 && b <= 1 && c <= 1 && v == a + 2 * b + 4 * c
    ensures Bit0(v) == a && Bit1(v) == b && Bit2(v) == c
  {
  }

  lemma ThreeBits(n: nat) returns (b0: nat, b1: nat, b2: nat)
    requires n < 8
    ensures b0 <= 1 && b1 <= 1 && b2 <= 1 && n == b0 + 2 * b1 + 4 * b2
  {
    b0, b1, b2 := n % 2, n / 2 % 2, n / 4;
  }

  lemma BitsOf(n: nat) returns (b0: nat, b1: nat, b2: nat, b3: nat, b4: nat, b5: nat)
    requires n < 64
    ensures b0 <= 1 && b1 <= 1 && b2 <= 1 && b3 <= 1 && b4 <= 1 && b5 <= 1
    ensures n == FromBits(b0, b1, b2, b3, b4, b5, 0, 0)
  {
    b0, b1, b2 := ThreeBits(n % 8);
    b3, b4, b5 := ThreeBits(n / 8);
  }

  /** Every place of a layer holds a pixel. */
  lemma PlaneOnto(bpp: nat, isDepth: bool, n: nat) returns (x: nat, y: nat)
    requires n < 64
    ensures x < 8 && y < 8 && Plane(bpp, isDepth, x, y) == n
  {
    hide Bit0, Bit1, Bit2;
    var b0, b1, b2, b3, b4, b5 := BitsOf(n);
    if isDepth {
      x, y := Corner(b0, b2, b4, b1, b3, b5);
    } else if bpp == 8 {
      x, y := Corner(b0, b1, b2, b4, b3, b5);
    } else if bpp == 16 {
      x, y := Corner(b0, b1, b2, b3, b4, b5);
    } else if bpp == 64 {
      x, y := Corner(b0, b2, b3, b1, b4, b5);
    } else if bpp == 128 {
      x, y := Corner(b1, b2, b3, b0, b4, b5);
    } else {
      x, y := Corner(b0, b1, b3, b2, b4, b5);
    }
  }

  /** Coordinates with the given low bits. */
  lemma Corner(x0: nat, x1: nat, x2: nat, y0: nat, y1: nat, y2: nat) returns (x: nat, y: nat)
    requires x0 <= 1 && x1 <= 1 && x2 <= 1 && y0 <= 1 && y1 <= 1 && y2 <= 1
    ensures x < 8 && y < 8
    ensures Bit0(x) == x0 && Bit1(x) == x1 && Bit2(x) == x2 && Bit0(y) == y0 && Bit1(y) == y1 && Bit2(y) == y2
  {
    x, y := x0 + 2 * x1 + 4 * x2, y0 + 2 * y1 + 4 * y2;
    SmallBits(x0, x1, x2, x);
    SmallBits(y0, y1, y2, y);
  }

  /** Row of the last stored pixel among the first r rows of a micro tile; its column is 7. */
  function LastRow(bpp: nat, isDepth: bool, r: nat): (y: nat)
    requires r > 0
    ensures y < r
  {
    if !isDepth && bpp == 8 && r % 4 == 3 then r - 2 else r - 1
  }

  /** Index of a pixel of the last column, from the bits of its row. */
  lemma LastColumn(bpp: nat, isDepth: bool, y: nat, y0: nat, y1: nat, y2: nat)
    requires y0 <= 1 && y1 <= 1 && y2 <= 1 && y == y0 + 2 * y1 + 4 * y2
    ensures Plane(bpp, isDepth, 7, y) ==
            if isDepth then 21 + 2 * y0 + 8 * y1 + 32 * y2
            else match bpp
              case 8 => 7 + 8 * y1 + 16 * y0 + 32 * y2
              case 16 => 7 + 8 * y
              case 64 => 13 + 2 * y0 + 16 * y1 + 32 * y2
              case 128 => 14 + y0 + 16 * y1 + 32 * y2
              case _ => 11 + 4 * y0 + 16 * y1 + 32 * y2
  {
    SmallBits(1, 1, 1, 7);
    SmallBits(y0, y1, y2, y);
    hide Bit0, Bit1, Bit2;
  }

  /** Rows that are not stored in order reach past their 8 r places; in any case they reach the last of them. */
  lemma LastPlane(bpp: nat, isDepth: bool, r: nat)
    requires 0 < r < 8
    ensures var p := Plane(bpp, isDepth, 7, LastRow(bpp, isDepth, r));
            p + 1 >= 8 * r && (!FillsInOrder(bpp, isDepth, r) ==> p >= 8 * r)
  {
    hide Plane;
    var y := LastRow(bpp, isDepth, r);
    var y0, y1, y2 := ThreeBits(y);
    LastColumn(bpp, isDepth, y, y0, y1, y2);
  }

  /** When a cut last row is not harmless, one of its pixels lies where one of the next slab's first row does. */
  lemma CutRowCollides(s: Surface) returns (x: nat, y: nat, z: nat, x': nat, y': nat)
    requires Tall(s) && s.height % 8 != 0 && !Harmless(s)
    ensures InSurface(s, x, y, z) && InSurface(s, x', y', Thickness(s.mode)) && z < Thickness(s.mode)
    ensures Addr(s, x, y, z) == Addr(s, x', y', Thickness(s.mode))
  {
    hide Mul, Place, Stride, BufferBytes, MicroAddr, Harmless, PlainPixels;
    if Thickness(s.mode) == 1 {
      z := 0;
      x, y, x', y' := ThinPlaces(s);
    } else {
      x, y, z, x', y' := ThickPlaces(s);
    }
    SamePlace(s, x, y, z, x', y');
  }

  /** The stride, split into the tiles of the whole tile rows and the pixel rows of the cut one. */
  lemma StrideForm(s: Surface, whole: nat, cut: nat)
    requires WholeTiles(s.pitch, 8) && whole == Mul(s.height / 8, s.pitch / 8) && cut == Mul(s.pitch / 8, s.height % 8)
    ensures Stride(s) == if Thickness(s.mode) == 1 then 64 * whole + 8 * cut else 256 * whole + 32 * cut
  {
    hide Mul;
    var cols := s.pitch / 8;
    MulIs(8, cols);
    StrideArith(cols, s.height / 8, s.height % 8);
    if Thickness(s.mode) == 1 {
      MulIs(Mul(s.pitch, s.height), 1);
    } else {
      MulIs(Mul(s.pitch, s.height), 4);
    }
  }

  lemma StrideArith(cols: nat, h: nat, r: nat)
    ensures Mul(8 * cols, 8 * h + r) == 64 * Mul(h, cols) + 8 * Mul(cols, r)
  {
    hide Mul;
    MulEight(cols, 8 * h + r);
    MulPlus(cols, 8 * h, r);
    MulEight(cols, h);
    MulFlip(h, cols);
  }

  /** A place, from the number of tiles before the pixel's tile row, its tile column and its layer. */
  lemma PlaceForm(s: Surface, x: nat, y: nat, z: nat, i: nat, before: nat)
    requires x / 8 == i && before == Mul(y / 8, s.pitch / 8)
    ensures Place(s, x, y, z) == Plane(s.bpp, s.isDepth, x, y)
                                 + if Thickness(s.mode) == 1 then 64 * (i + before) else 64 * (z % 4) + 256 * (i + before)
  {
    hide Mul, PixelIndex, Plane;
    IndexOfLayer(s, x, y, z);
    if Thickness(s.mode) == 1 {
      MulIs(64, i + before);
    } else {
      MulIs(256, i + before);
    }
  }

  /** Only the low bits of the coordinates matter inside a tile. */
  lemma PlaneOfTile(bpp: nat, isDepth: bool, a: nat, b: nat, x: nat, y: nat)
    requires x < 8 && y < 8
    ensures Plane(bpp, isDepth, 8 * a + x, 8 * b + y) == Plane(bpp, isDepth, x, y)
    ensures (8 * a + x) / 8 == a && (8 * b + y) / 8 == b
  {
    LowBits(a, x);
    LowBits(b, y);
  }

  lemma LowBits(a: nat, x: nat)
    requires x < 8
    ensures Bit0(8 * a + x) == Bit0(x) && Bit1(8 * a + x) == Bit1(x) && Bit2(8 * a + x) == Bit2(x)
    ensures (8 * a + x) / 8 == a
  {
    assert (8 * a + x) / 2 == 4 * a + x / 2;
    assert (8 * a + x) / 4 == 2 * a + x / 4;
  }

  lemma ThinPlaces(s: Surface) returns (x: nat, y: nat, x': nat, y': nat)
    requires Tall(s) && s.height % 8 != 0 && !Harmless(s) && Thickness(s.mode) == 1
    ensures x < s.pitch && y < s.height && x' < s.pitch && y' < s.height
    ensures Place(s, x, y, 0) == Place(s, x', y', 1) + Stride(s)
  {
    hide Mul, Place, Stride, BufferBytes, PlainPixels, Plane, FillsInOrder;
    var cols, h, r := s.pitch / 8, s.height / 8, s.height % 8;
    MulIs(8, cols);
    var last := LastRow(s.bpp, s.isDepth, r);
    LastPlane(s.bpp, s.isDepth, r);
    var p := Plane(s.bpp, s.isDepth, 7, last);
    PlaneBound(s.bpp, s.isDepth, 7, last);
    var w := ThinOverrun(cols, r, p);
    var x0, y0 := PlaneOnto(s.bpp, s.isDepth, w % 64);
    x, y, x', y' := 8 * (cols - 1) + 7, 8 * h + last, 8 * (w / 64) + x0, y0;
    PlaneOfTile(s.bpp, s.isDepth, cols - 1, h, 7, last);
    PlaneOfTile(s.bpp, s.isDepth, w / 64, 0, x0, y0);
    MulOne(cols);
    PlaceForm(s, x, y, 0, cols - 1, Mul(h, cols));
    PlaceForm(s, x', y', 1, w / 64, 0);
    StrideForm(s, Mul(h, cols), Mul(cols, r));
  }

  lemma PlaneBound(bpp: nat, isDepth: bool, x: nat, y: nat)
    ensures Plane(bpp, isDepth, x, y) < 64
  {
    PlaneBitsRange(bpp, isDepth, x, y);
  }

  /** The last row overruns the slab, by less than a tile row. */
  lemma ThinOverrun(cols: nat, r: nat, p: nat) returns (w: nat)
    requires cols > 0 && 0 < r < 8 && p < 64 && p + 1 >= 8 * r && (cols == 1 ==> p >= 8 * r)
    ensures p + 64 * (cols - 1) == w + 8 * Mul(cols, r) && w / 64 < cols
  {
    MulIs(cols, r);
    assert cols * r == (cols - 1) * r + r;
    MulMonotone(cols - 1, r, 7);
    w := p + 64 * (cols - 1) - 8 * (cols * r);
  }

  lemma ThickPlaces(s: Surface) returns (x: nat, y: nat, z: nat, x': nat, y': nat)
    requires Tall(s) && s.height % 8 != 0 && Thickness(s.mode) == 4
    ensures x < s.pitch && y < s.height && z < 4 && x' < s.pitch && y' < s.height
    ensures Place(s, x, y, z) == Place(s, x', y', 4) + Stride(s)
  {
    hide Mul, Place, Stride, BufferBytes, PlainPixels, Plane;
    var cols, h, r := s.pitch / 8, s.height / 8, s.height % 8;
    MulIs(8, cols);
    var e, d, d' := ThickOverrun(cols, r);
    x, y, z, x', y' := 8 * (e / 4), 8 * h + d, e % 4, 0, d';
    PlaneOfTile(s.bpp, s.isDepth, e / 4, h, 0, d);
    HalfPlane(s.bpp, s.isDepth, d);
    HalfPlane(s.bpp, s.isDepth, d');
    MulOne(cols);
    PlaceForm(s, x, y, z, e / 4, Mul(h, cols));
    PlaceForm(s, x', y', 4, 0, 0);
    StrideForm(s, Mul(h, cols), Mul(cols, r));
  }

  /** The lower half of a layer starts with the fifth row. */
  lemma HalfPlane(bpp: nat, isDepth: bool, d: nat)
    requires d == 0 || d == 4
    ensures Plane(bpp, isDepth, 0, d) == 8 * d
  {
    SmallBits(0, 0, 0, 0);
    SmallBits(0, 0, d / 4, d);
  }

  /** A layer of the cut row that starts, or is halfway through, where the next slab starts or is half a layer further. */
  lemma ThickOverrun(cols: nat, r: nat) returns (e: nat, d: nat, d': nat)
    requires cols > 0 && 0 < r < 8
    ensures e < 4 * cols && (d == 0 || d == 4) && (d' == 0 || d' == 4) && d < r
    ensures 64 * e + 8 * d == 32 * Mul(cols, r) + 8 * d'
  {
    MulIs(cols, r);
    var m := cols * r;
    MulMonotone(cols, r, 7);
    if m % 2 == 0 {
      e, d, d' := m / 2, 0, 0;
    } else if cols > 1 || r < 7 {
      e, d, d' := m / 2 + 1, 0, 4;
    } else {
      e, d, d' := 3, 4, 0;
    }
  }

  // -------- the harmless case

  /** The first r rows of a tile stay inside their 8 r places. */
  lemma RowsInOrder(bpp: nat, isDepth: bool, r: nat, x: nat, y: nat)
    requires r < 8 && FillsInOrder(bpp, isDepth, r) && y % 8 < r
    ensures Plane(bpp, isDepth, x, y) < 8 * r
  {
    hide Bit0, Bit1, Bit2;
    BitsRange(x);
    BitsRange(y);
    var y0, y1, y2 := Bit0(y), Bit1(y), Bit2(y);
    if isDepth {
      assert y2 == 0 && r == 4;
    } else if bpp == 16 {
    } else if bpp == 8 {
      assert 8 * y1 + 16 * y0 + 32 * y2 + 8 <= 8 * r;
    } else {
      assert 2 * y1 + 4 * y2 + 2 <= r;
    }
  }

  lemma HarmlessPlace(s: Surface, x: nat, y: nat, z: nat)
    requires Tall(s) && Harmless(s) && InSurface(s, x, y, z)
    ensures Place(s, x, y, z) == Plane(s.bpp, s.isDepth, x, y) + 64 * (y / 8)
    ensures Place(s, x, y, z) < Stride(s)
  {
    hide Mul, Place, Stride, BufferBytes, PlainPixels, Plane, FillsInOrder;
    MulOne(y / 8);
    MulOne(s.height / 8);
    MulOne(s.height % 8);
    PlaceForm(s, x, y, z, 0, y / 8);
    StrideForm(s, s.height / 8, s.height % 8);
    PlaneBound(s.bpp, s.isDepth, x, y);
    if y / 8 == s.height / 8 {
      RowsInOrder(s.bpp, s.isDepth, s.height % 8, x, y);
    }
  }

  lemma HarmlessAddr(s: Surface, x: nat, y: nat, z: nat)
    requires Tall(s) && Harmless(s) && InSurface(s, x, y, z)
    ensures MicroAddr(s, x, y, z) == Mul(PixelBytes(s), Place(s, x, y, z) + Mul(Stride(s), z))
  {
    hide Mul, Place, MicroAddr, PlainPixels;
    hide Harmless;
    HarmlessPlace(s, x, y, z);
    var n, pb := Stride(s), PixelBytes(s);
    assert Slabs(s) == s.numSlices by { assert Thickness(s.mode) == 1 by { ThinHarmless(s); } }
    ThinHarmless(s);
    MulOne(Mul(s.pitch, s.height));
    MulOne(s.numSlices);
    MulBelow(n, z, s.numSlices);
    MulFlip(pb, Mul(n, s.numSlices));
    MulIs(pb, Place(s, x, y, z) + Mul(n, z));
    MulIs(pb, Mul(n, s.numSlices));
    MulMonotone(pb, Place(s, x, y, z) + Mul(n, z), Mul(n, s.numSlices));
    PlaceAddr(s, x, y, z);
  }

  lemma ThinHarmless(s: Surface)
    requires Harmless(s)
    ensures Thickness(s.mode) == 1
  {
  }

  lemma HarmlessInjective(s: Surface, x: nat, y: nat, z: nat, x': nat, y': nat, z': nat)
    requires Tall(s) && Harmless(s) && InSurface(s, x, y, z) && InSurface(s, x', y', z')
    requires Addr(s, x, y, z) == Addr(s, x', y', z')
    ensures x == x' && y == y' && z == z'
  {
    hide Mul, Place, Stride, BufferBytes, MicroAddr, FillsInOrder;
    PixelSize(s);
    HarmlessAddr(s, x, y, z);
    HarmlessAddr(s, x', y', z');
    HarmlessPlace(s, x, y, z);
    HarmlessPlace(s, x', y', z');
    MulCancel(PixelBytes(s), Place(s, x, y, z) + Mul(Stride(s), z), Place(s, x', y', z') + Mul(Stride(s), z'));
    MulUnique(Stride(s), z, Place(s, x, y, z), z', Place(s, x', y', z'));
    PlaneAndTile(s, x, y, z, x', y');
  }

  lemma PlaneAndTile(s: Surface, x: nat, y: nat, z: nat, x': nat, y': nat)
    requires x < 8 && x' < 8
    requires Plane(s.bpp, s.isDepth, x, y) + 64 * (y / 8) == Plane(s.bpp, s.isDepth, x', y') + 64 * (y' / 8)
    ensures x == x' && y == y'
  {
    hide Plane, PixelIndex;
    PlaneBound(s.bpp, s.isDepth, x, y);
    PlaneBound(s.bpp, s.isDepth, x', y');
    DivModUnique(64, y / 8, Plane(s.bpp, s.isDepth, x, y), y' / 8, Plane(s.bpp, s.isDepth, x', y'));
    IndexOfLayer(s, x, y, z);
    IndexOfLayer(s, x', y', z);
    PixelIndexInjective(s.bpp, s.mode, s.isDepth, x, y, z, x', y', z);
    DivModWhole(y, y', 8);
  }
}
