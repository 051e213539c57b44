/** Exactly which surfaces have overlapping pixels: 12-byte pixels in macro tiles, and wrapped slice sizes. */
module TilingLimits {
  import opened Machine
  import opened Products
  import opened Tiling
  import opened TilingInjective

  /** No two pixels of the surface have the same address. */
  ghost predicate Injective(s: Surface)
    requires Addressable(s)
  {
    forall x: nat, y: nat, z: nat, x': nat, y': nat, z': nat ::
      InSurface(s, x, y, z) && InSurface(s, x', y', z') && Addr(s, x, y, z) == Addr(s, x', y', z')
      ==> x == x' && y == y' && z == z'
  }

  predicate Overlap(a: nat, b: nat, n: nat) {
    a < b + n && b < a + n
  }

  /** No two pixels of the surface share a byte. */
  ghost predicate Disjoint(s: Surface)
    requires Addressable(s)
  {
    forall x: nat, y: nat, z: nat, x': nat, y': nat, z': nat ::
      InSurface(s, x, y, z) && InSurface(s, x', y', z') && Overlap(Addr(s, x, y, z), Addr(s, x', y', z'), PixelBytes(s))
      ==> x == x' && y == y' && z == z'
  }

  /** The address map is injective exactly when the 32-bit slice size does not wrap or is never used. */
  lemma InjectiveIff(s: Surface)
    requires Shaped(s)
    ensures Injective(s) <==> NoWrap(s)
  {
    hide Addr, BufferBytes, Mul, Aligned;
    if NoWrap(s) {
      forall x: nat, y: nat, z: nat, x': nat, y': nat, z': nat
        | InSurface(s, x, y, z) && InSurface(s, x', y', z') && Addr(s, x, y, z) == Addr(s, x', y', z')
        ensures x == x' && y == y' && z == z'
      {
        AddrInjective(s, x, y, z, x', y', z');
      }
    } else {
      var x, y := WrappedSliceCollides(s);
      assert InSurface(s, x, y, 0) && InSurface(s, 0, 0, Thickness(s.mode));
    }
  }

  /** Pixels share no byte exactly when slice sizes do not wrap and no 12-byte pixel is macro-tiled. */
  lemma DisjointIff(s: Surface)
    requires Shaped(s) && s.numSlices > 0
    ensures Disjoint(s) <==> NoWrap(s) && WholeGroups(s)
  {
    hide Addr, BufferBytes, Mul, Aligned;
    if !NoWrap(s) {
      var x, y := WrappedSliceCollides(s);
      assert InSurface(s, x, y, 0) && InSurface(s, 0, 0, Thickness(s.mode));
      assert Overlap(Addr(s, x, y, 0), Addr(s, 0, 0, Thickness(s.mode)), PixelBytes(s)) by { PixelSize(s); }
    } else if !WholeGroups(s) {
      var x, y, y' := Straddles(s);
      assert InSurface(s, x, y, 0) && InSurface(s, 0, y', 0);
    } else {
      forall x: nat, y: nat, z: nat, x': nat, y': nat, z': nat
        | InSurface(s, x, y, z) && InSurface(s, x', y', z') && Overlap(Addr(s, x, y, z), Addr(s, x', y', z'), PixelBytes(s))
        ensures x == x' && y == y' && z == z'
      {
        if x != x' || y != y' || z != z' {
          PixelsDisjoint(s, x, y, z, x', y', z');
        }
      }
    }
  }

  // -------- twelve-byte pixels in macro tiles

  /** The two upper left micro tiles of a macro tile share their bank and differ in their pipe. */
  lemma NeighbourChannels(x: nat, y: nat)
    requires x < 8 && y < 16
    ensures RawChannel(x, y) == if y < 8 then 0 else 1
  {
    RawChannelForm(x, y);
  }

  lemma FlipLowBit(key: nat)
    ensures Xor(0, key) % 8 / 2 == Xor(1, key) % 8 / 2
    ensures Xor(0, key) % 2 != Xor(1, key) % 2
  {
    XorLow3(0, key);
    XorLow3(1, key);
    XorStep(1, key % 8);
    ModHalf(Xor(0, key), 8);
    ModHalf(Xor(1, key), 8);
  }

  lemma SameBankOtherPipe(s: Surface, x: nat, y: nat, x': nat, y': nat)
    requires Kind(s.mode) == Macro && Addressable(s) && x < 8 && y < 8 && x' < 8 && 8 <= y' < 16
    ensures FinalBank(s, x, y, 0) == FinalBank(s, x', y', 0)
    ensures Channel(s, x, y, 0) % 2 != Channel(s, x', y', 0) % 2
  {
    hide Xor, ChannelKey, RawChannel;
    NeighbourChannels(x, y);
    NeighbourChannels(x', y');
    FlipLowBit(ChannelKey(s, 0));
    ModHalf(Xor(0, ChannelKey(s, 0)), 8);
    ModHalf(Xor(1, ChannelKey(s, 0)), 8);
    assert MacroColumn(s.mode, x) == 0 && MacroColumn(s.mode, x') == 0;
  }

  /** Column and row, in its micro tile, of the pixel of index 21: the one that starts at byte 252. */
  function StraddlerX(s: Surface): nat { if s.isDepth then 7 else 1 }
  function StraddlerY(s: Surface): nat { if s.isDepth then 0 else 3 }

  lemma StraddlerIndex(s: Surface, x: nat, y: nat)
    requires s.bpp == 96 && x == StraddlerX(s) && (y == StraddlerY(s) || y == 8 + StraddlerY(s))
    ensures PixelIndex(s.bpp, s.mode, s.isDepth, x, y, 0) == 21
  {
    assert PlaneBits(s.bpp, s.isDepth, x, y) == [1, 0, 1, 0, 1, 0];
  }

  /** Offset, in its channel, of a pixel of the first macro tile. */
  lemma FirstTileOffset(s: Surface, x: nat, y: nat, index: nat)
    requires Shaped(s) && NoWrap(s) && Kind(s.mode) == Macro && s.numSlices > 0 && x < 8 && y < 16
    requires PixelIndex(s.bpp, s.mode, s.isDepth, x, y, 0) == index
    ensures InSurface(s, x, y, 0)
    ensures MacroAddr(s, x, y, 0)
            == Interleave(Mul(PixelBytes(s), index), FinalBank(s, x, y, 0), Channel(s, x, y, 0) % 2)
  {
    hide Mul, MacroAddr, TotalOffset, FinalBank, Channel, PixelIndex, Interleave, BufferBytes, PixelBytes;
    OneMacroTile(s);
    MacroAddrForm(s, x, y, 0);
    FirstTileNumber(s, x, y);
    MulOne(64 * Thickness(s.mode));
  }

  lemma FirstTileNumber(s: Surface, x: nat, y: nat)
    requires Kind(s.mode) == Macro && x < 8 && y < 16
    ensures MacroTileNumber(s, x, y, 0) == 0
  {
    assert MacroColumn(s.mode, x) == 0 && MacroRow(s.mode, y) == 0;
    MulOne(MacroRow(s.mode, s.height));
    MulOne(MacroColumn(s.mode, s.pitch));
  }

  /** An aligned surface has at least one macro tile. */
  lemma OneMacroTile(s: Surface)
    requires Shaped(s) && Kind(s.mode) == Macro
    ensures s.pitch >= 8 && s.height >= 16
  {
    hide BufferBytes;
    var q, r := MacroTilePitch(s.mode), MacroTileHeight(s.mode);
    MulIs(q, Quot(s.pitch, q));
    MulIs(r, Quot(s.height, r));
    MulMonotone(q, 1, Quot(s.pitch, q));
    MulMonotone(r, 1, Quot(s.height, r));
  }

  lemma GroupBorder(bank: nat)
    ensures Overlap(Interleave(252, bank, 0), Interleave(0, bank, 1), 12)
  {
  }

  /** A twelve-byte pixel at byte 252 of a group runs into the first pixel of the next pipe's group. */
  lemma Straddles(s: Surface) returns (x: nat, y: nat, y': nat)
    requires Shaped(s) && NoWrap(s) && !WholeGroups(s) && s.numSlices > 0
    ensures InSurface(s, x, y, 0) && InSurface(s, 0, y', 0) && y != y'
    ensures Overlap(Addr(s, x, y, 0), Addr(s, 0, y', 0), PixelBytes(s))
  {
    hide Mul, MacroAddr, FinalBank, Channel, BufferBytes, PixelIndex, Interleave, Overlap, Aligned;
    x := StraddlerX(s);
    if Channel(s, x, StraddlerY(s), 0) % 2 == 0 {
      y, y' := StraddlerY(s), 8;
      SameBankOtherPipe(s, x, y, 0, y');
    } else {
      y, y' := 8 + StraddlerY(s), 0;
      SameBankOtherPipe(s, x, StraddlerY(s), x, y);
      SameBankOtherPipe(s, 0, y', x, y);
    }
    StraddlerIndex(s, x, y);
    FirstPixelIndex(s, 0, y', 0);
    FirstTileOffset(s, x, y, 21);
    FirstTileOffset(s, 0, y', 0);
    MulIs(12, 21);
    MulIs(12, 0);
    GroupBorder(FinalBank(s, 0, y', 0));
  }

  // -------- wrapped slice sizes

  /** The first pixel of the second slab lands on a pixel of the first one. */
  lemma WrappedSliceCollides(s: Surface) returns (x: nat, y: nat)
    requires Shaped(s) && !NoWrap(s)
    ensures InSurface(s, x, y, 0) && InSurface(s, 0, 0, Thickness(s.mode))
    ensures Addr(s, x, y, 0) == Addr(s, 0, 0, Thickness(s.mode))
  {
    hide Mul, MicroAddr, MacroAddr, BufferBytes, Aligned;
    if Kind(s.mode) == Micro {
      x, y := MicroCollides(s);
    } else {
      x, y := MacroCollides(s);
    }
  }

  lemma MicroCollides(s: Surface) returns (x: nat, y: nat)
    requires Shaped(s) && !NoWrap(s) && Kind(s.mode) == Micro
    ensures InSurface(s, x, y, 0)
    ensures MicroAddr(s, x, y, 0) == MicroAddr(s, 0, 0, Thickness(s.mode))
  {
    hide Mul, MicroAddr, MicroTileOffset, SlabOffset, BufferBytes;
    var cols, rows := s.pitch / 8, s.height / 8;
    var t := U32(Mul(s.pitch, s.height)) / 64;
    MulIs(8, cols);
    MulIs(8, rows);
    WrappedTile(s.pitch, s.height, cols, rows, t);
    var i, j := TileOfNumber(t, cols, rows);
    x, y := 8 * i, 8 * j;
    FirstPixelAddr(s, x, y, 0);
    FirstPixelAddr(s, 0, 0, Thickness(s.mode));
    SecondSlab(s, t, i, j);
  }

  lemma WrappedTile(pitch: nat, height: nat, cols: nat, rows: nat, t: nat)
    requires pitch == 8 * cols && height == 8 * rows && Mul(pitch, height) >= TWO32
    requires t == U32(Mul(pitch, height)) / 64
    ensures cols > 0 && t < Mul(cols, rows) && 64 * t == U32(Mul(pitch, height))
  {
    hide Mul;
    MulEight(cols, 8 * rows);
    MulEight(cols, rows);
    MulOne(rows);
    WrappedMultiple(Mul(cols, rows));
  }

  lemma WrappedMultiple(m: nat)
    ensures U32(64 * m) == 64 * (m % 0x400_0000)
  {
    var q, r := m / 0x400_0000, m % 0x400_0000;
    assert 64 * m == TWO32 * q + 64 * r;
  }

  lemma TileOfNumber(t: nat, cols: nat, rows: nat) returns (i: nat, j: nat)
    requires cols > 0 && t < Mul(cols, rows)
    ensures i < cols && j < rows && t == i + Mul(j, cols)
  {
    i, j := t % cols, t / cols;
    assert t == cols * j + i;
    MulIs(j, cols);
    MulIs(cols, rows);
    if j >= rows {
      MulMonotone(cols, rows, j);
    }
  }

  /** Address of the first pixel of a micro tile. */
  lemma FirstPixelAddr(s: Surface, x: nat, y: nat, slice: nat)
    requires PlainPixels(s) && Kind(s.mode) == Micro && x % 8 == 0 && y % 8 == 0 && slice % Thickness(s.mode) == 0
    ensures MicroAddr(s, x, y, slice) == U64(U64(MicroTileOffset(s, x, y)) + U64(SlabOffset(s, slice)))
  {
    hide Mul, PixelIndex, PixelOffset, MicroTileOffset, SlabOffset, PlainPixels;
    FirstPixelIndex(s, x, y, slice);
    ZeroIndex(s, x, y, slice);
  }

  lemma FirstPixelIndex(s: Surface, x: nat, y: nat, slice: nat)
    requires x % 8 == 0 && y % 8 == 0 && slice % Thickness(s.mode) == 0
    ensures PixelIndex(s.bpp, s.mode, s.isDepth, x, y, slice) == 0
  {
    PixelIndexBits(s.bpp, s.mode, s.isDepth, x, y, slice);
    PlaneBitsZero(s.bpp, s.isDepth, x, y);
  }

  lemma ZeroIndex(s: Surface, x: nat, y: nat, slice: nat)
    requires PlainPixels(s) && PixelIndex(s.bpp, s.mode, s.isDepth, x, y, slice) == 0
    ensures PixelOffset(s, x, y, slice) / 8 == 0
  {
    PixelOffsetForm(s, x, y, slice);
  }

  lemma PlaneBitsZero(bpp: nat, isDepth: bool, x: nat, y: nat)
    requires x % 8 == 0 && y % 8 == 0
    ensures PlaneBits(bpp, isDepth, x, y) == [0, 0, 0, 0, 0, 0]
  {
    BitsRange(x); BitsRange(y);
  }

  /** The second slab starts where tile t of the first one does. */
  lemma SecondSlab(s: Surface, t: nat, i: nat, j: nat)
    requires PlainPixels(s) && 64 * t == U32(Mul(s.pitch, s.height)) && t == i + Mul(j, s.pitch / 8)
    ensures SlabOffset(s, Thickness(s.mode)) == MicroTileOffset(s, 8 * i, 8 * j)
    ensures SlabOffset(s, 0) == 0 && MicroTileOffset(s, 0, 0) == 0
  {
    hide Mul, MicroTileBytes, PlainPixels, SliceBytes, U32;
    WrappedSlice(s, t);
    MulOne(SliceBytes(s));
    MulOne(MicroTileBytes(s));
    MulOne(s.pitch / 8);
  }

  lemma WrappedSlice(s: Surface, t: nat)
    requires PlainPixels(s) && 64 * t == U32(Mul(s.pitch, s.height))
    ensures SliceBytes(s) == Mul(MicroTileBytes(s), t)
  {
    hide Mul, MicroTileBytes, U32;
    MicroTileBytesForm(s);
    PixelSize(s);
    BytesOfBits(Mul(64 * t, Thickness(s.mode)), PixelBytes(s));
    SecondSlabArith(t, Thickness(s.mode), PixelBytes(s));
  }

  lemma SecondSlabArith(t: nat, th: nat, pb: nat)
    ensures Mul(Mul(64 * t, th), pb) == Mul(Mul(64 * th, pb), t)
  {
    calc {
      Mul(Mul(64 * t, th), pb);
      { MulIs(64, t); MulTimes(64, t, th); MulFlip(t, th); MulTimes(64, th, t); MulIs(64, th); }
      Mul(Mul(64 * th, t), pb);
      { MulTimes(64 * th, t, pb); MulFlip(t, pb); MulTimes(64 * th, pb, t); }
      Mul(Mul(64 * th, pb), t);
    }
  }

  // -------- wrapped slice sizes of macro tiles

  /** Coordinates of a micro tile's first pixel, from its macro tile and its position there. */
  predicate TileAt(m: TileMode, i: nat, j: nat, x: nat, y: nat)
    requires Kind(m) == Macro
  {
    MacroColumn(m, x) == i && MacroRow(m, y) == j && x % 8 == 0 && y % 8 == 0
  }

  /** Bits 3 to 5 of a coordinate, from the number of its micro tile. */
  lemma TileBits(n: nat)
    ensures Bit3(8 * n) == n % 2 && Bit4(8 * n) == n / 2 % 2 && Bit5(8 * n) == n / 4 % 2 && 8 * n % 8 == 0
  {
    assert 8 * n / 8 == n;
    assert 8 * n / 16 == n / 2;
    assert 8 * n / 32 == n / 4;
  }

  /** Every raw channel occurs in every macro tile, for every aspect ratio. */
  lemma RawOnto(m: TileMode, i: nat, j: nat, pipe: nat, low: nat, high: nat) returns (x: nat, y: nat)
    requires Kind(m) == Macro && pipe <= 1 && low <= 1 && high <= 1
    ensures TileAt(m, i, j, x, y) && RawChannel(x, y) == pipe + 2 * low + 4 * high
  {
    hide Xor;
    var a, b := MicroIn(m, i, j, pipe, low, high);
    x, y := 8 * a, 8 * b;
    TileBits(a);
    TileBits(b);
    RawChannelForm(x, y);
  }

  function Flip(a: nat, b: nat): (c: nat)
    ensures c <= 1
  {
    if a == b then 0 else 1
  }

  /** Micro tile column and row, in the macro tile (i, j), of the channel with the given bits. */
  lemma MicroIn(m: TileMode, i: nat, j: nat, pipe: nat, low: nat, high: nat) returns (a: nat, b: nat)
    requires Kind(m) == Macro && pipe <= 1 && low <= 1 && high <= 1
    ensures MacroColumn(m, 8 * a) == i && MacroRow(m, 8 * b) == j
    ensures Flip(b % 2, a % 2) == pipe && Flip(b / 4 % 2, a % 2) == low && Flip(b / 2 % 2, a / 2 % 2) == high
  {
    if AspectRatio(m) == 1 {
      a, b := MicroInWide(i, j, pipe, low, high);
    } else if AspectRatio(m) == 2 {
      a, b := MicroInSquare(i, j, pipe, low, high);
    } else {
      a := i;
      b := MicroInTall(i, j, pipe, low, high);
    }
  }

  lemma MicroInWide(i: nat, j: nat, pipe: nat, low: nat, high: nat) returns (a: nat, b: nat)
    requires pipe <= 1 && low <= 1 && high <= 1
    ensures 8 * a / 32 == i && 8 * b / 16 == j
    ensures Flip(b % 2, a % 2) == pipe && Flip(b / 4 % 2, a % 2) == low && Flip(b / 2 % 2, a / 2 % 2) == high
  {
    var a0 := Flip(low, j / 2 % 2);
    var a1, b0 := Flip(high, j % 2), Flip(pipe, a0);
    a, b := 2 * (2 * i + a1) + a0, 2 * j + b0;
    assert a / 2 == 2 * i + a1 && a % 2 == a0 && a / 2 % 2 == a1;
    assert b / 2 == j && b % 2 == b0 && b / 4 == j / 2;
  }

  lemma MicroInSquare(i: nat, j: nat, pipe: nat, low: nat, high: nat) returns (a: nat, b: nat)
    requires pipe <= 1 && low <= 1 && high <= 1
    ensures 8 * a / 16 == i && 8 * b / 32 == j
    ensures Flip(b % 2, a % 2) == pipe && Flip(b / 4 % 2, a % 2) == low && Flip(b / 2 % 2, a / 2 % 2) == high
  {
    var a0 := Flip(low, j % 2);
    var b0, b1 := Flip(pipe, a0), Flip(high, i % 2);
    a, b := 2 * i + a0, 2 * (2 * j + b1) + b0;
    assert a / 2 == i && a % 2 == a0;
    assert b / 2 == 2 * j + b1 && b % 2 == b0 && b / 2 % 2 == b1 && b / 4 == j;
  }

  lemma MicroInTall(a: nat, j: nat, pipe: nat, low: nat, high: nat) returns (b: nat)
    requires pipe <= 1 && low <= 1 && high <= 1
    ensures 8 * b / 64 == j
    ensures Flip(b % 2, a % 2) == pipe && Flip(b / 4 % 2, a % 2) == low && Flip(b / 2 % 2, a / 2 % 2) == high
  {
    var b0, b1, b2 := Flip(pipe, a % 2), Flip(high, a / 2 % 2), Flip(low, a % 2);
    b := 2 * (2 * (2 * j + b2) + b1) + b0;
    assert b / 2 == 2 * (2 * j + b2) + b1 && b % 2 == b0;
    assert b / 2 % 2 == b1 && b / 4 == 2 * j + b2;
    assert b / 4 % 2 == b2 && b / 8 == j;
  }

  lemma {:induction false} XorTwice(a: nat, m: nat)
    ensures Xor(Xor(a, m), m) == a
    decreases a + m
  {
    hide Xor;
    XorStep(a, m);
    XorStep(Xor(a, m), m);
    if a + m == 0 {
      XorZeros();
    } else {
      XorTwice(a / 2, m / 2);
    }
  }

  lemma XorZeros()
    ensures Xor(0, 0) == 0
  {
  }

  lemma Xor3Range(a: nat, m: nat)
    requires a < 8 && m < 8
    ensures Xor(a, m) < 8
  {
    hide Xor;
    XorStep(a, m);
    Xor2Range(a / 2, m / 2);
  }

  /** The bank that the swap turns into the given one. */
  lemma SwapOnto(s: Surface, bank: nat, column: nat) returns (b: nat)
    requires Kind(s.mode) == Macro && Addressable(s) && bank < 4
    ensures b < 4 && SwappedBank(s, b, column) == bank
  {
    b := bank;
    if BankSwapped(s.mode) {
      var w := FitToPitch(BankSwapWidthBase(s.bpp, s.mode), s.pitch);
      var order := BankSwapOrder(Mul(MacroTilePitch(s.mode), column) / w % 4);
      b := Xor(bank, order);
      Xor2Range(bank, order);
      XorTwice(bank, order);
    }
  }

  /** Every channel occurs in every macro tile, whatever the swizzle, rotation and bank swap. */
  lemma ChannelOnto(s: Surface, i: nat, j: nat, slice: nat, bank: nat, pipe: nat) returns (x: nat, y: nat)
    requires Kind(s.mode) == Macro && Addressable(s) && bank < 4 && pipe < 2
    ensures TileAt(s.mode, i, j, x, y)
    ensures FinalBank(s, x, y, slice) == bank && Channel(s, x, y, slice) % 2 == pipe
  {
    hide Xor, SwappedBank, RawChannel, ChannelKey, MacroColumn, MacroRow;
    var b := SwapOnto(s, bank, i);
    var c, key := 2 * b + pipe, ChannelKey(s, slice);
    XorTwice(c, key % 8);
    Xor3Range(c, key % 8);
    var raw := Xor(c, key % 8);
    XorLow3(raw, key);
    x, y := RawOnto(s.mode, i, j, raw % 2, raw / 2 % 2, raw / 4);
    assert raw == raw % 2 + 2 * (raw / 2 % 2) + 4 * (raw / 4);
  }

  /** A pixel in one of the columns and rows of macro tiles lies in the surface. */
  lemma InTile(m: TileMode, n: nat, v: nat, q: nat)
    requires TileDim(q) && WholeTiles(n, q) && Quot(v, q) < Quot(n, q)
    ensures v < n
  {
    hide Quot, Mul;
    QuotIs(v, q);
    QuotIs(n, q);
    MulIs(q, Quot(n, q));
    Euclid(v, q);
    MulStep(q, v / q, n / q);
  }

  lemma MacroCollides(s: Surface) returns (x: nat, y: nat)
    requires Shaped(s) && !NoWrap(s) && Kind(s.mode) == Macro
    ensures InSurface(s, x, y, 0)
    ensures MacroAddr(s, x, y, 0) == MacroAddr(s, 0, 0, Thickness(s.mode))
  {
    hide Mul, Quot, BufferBytes, Interleave, Channel, SwappedBank, TotalOffset, MacroTilePitch, MacroTileHeight, PlainPixels, U32;
    var m, th := s.mode, Thickness(s.mode);
    var cols, rows := MacroColumn(m, s.pitch), MacroRow(m, s.height);
    var t := U32(Mul(s.pitch, s.height)) / 512;
    WrappedMacroTile(s, t);
    var i, j := TileOfNumber(t, cols, rows);
    FinalBankRange(s, 0, 0, th);
    x, y := ChannelOnto(s, i, j, 0, FinalBank(s, 0, 0, th), Channel(s, 0, 0, th) % 2);
    InTile(m, s.pitch, x, MacroTilePitch(m));
    InTile(m, s.height, y, MacroTileHeight(m));
    SecondMacroSlab(s, t, x, y);
  }

  lemma WrappedMacroTile(s: Surface, t: nat)
    requires Aligned(s) && Kind(s.mode) == Macro && Mul(s.pitch, s.height) >= TWO32
    requires t == U32(Mul(s.pitch, s.height)) / 512
    ensures MacroColumn(s.mode, s.pitch) > 0
    ensures t < Mul(MacroColumn(s.mode, s.pitch), MacroRow(s.mode, s.height)) && 512 * t == U32(Mul(s.pitch, s.height))
  {
    hide Mul, Quot, MacroTilePitch, MacroTileHeight;
    var cols, rows := MacroColumn(s.mode, s.pitch), MacroRow(s.mode, s.height);
    MulSwap(MacroTilePitch(s.mode), cols, MacroTileHeight(s.mode), rows);
    MacroTileArea(s.mode);
    MulIs(512, Mul(cols, rows));
    MulOne(rows);
    WrappedMacroMultiple(Mul(cols, rows));
  }

  lemma WrappedMacroMultiple(m: nat)
    ensures U32(512 * m) == 512 * (m % 0x80_0000)
  {
    var q, r := m / 0x80_0000, m % 0x80_0000;
    assert 512 * m == TWO32 * q + 512 * r;
  }

  /** The second slab starts where macro tile t of the first one does. */
  lemma SecondMacroSlab(s: Surface, t: nat, x: nat, y: nat)
    requires PlainPixels(s) && Kind(s.mode) == Macro && x % 8 == 0 && y % 8 == 0
    requires 512 * t == U32(Mul(s.pitch, s.height))
    requires t == MacroColumn(s.mode, x) + Mul(MacroRow(s.mode, y), MacroColumn(s.mode, s.pitch))
    ensures TotalOffset(s, x, y, 0) == TotalOffset(s, 0, 0, Thickness(s.mode))
  {
    hide PixelOffset, PixelIndex, Mul, MacroColumn, MacroRow, U64;
    var th := Thickness(s.mode);
    FirstPixelIndex(s, x, y, 0);
    FirstPixelIndex(s, 0, 0, th);
    ZeroIndex(s, x, y, 0);
    ZeroIndex(s, 0, 0, th);
    FirstMacroTile(s);
    WrappedSliceBytes(s, t);
    U64Id(0);
    MulOne(SliceBytes(s));
    MulOne(MacroTileBytes(s));
    MulOne(MacroColumn(s.mode, s.pitch));
  }

  lemma FirstMacroTile(s: Surface)
    requires Kind(s.mode) == Macro
    ensures MacroColumn(s.mode, 0) == 0 && MacroRow(s.mode, 0) == 0
  {
  }

  lemma WrappedSliceBytes(s: Surface, t: nat)
    requires PlainPixels(s) && Kind(s.mode) == Macro && 512 * t == U32(Mul(s.pitch, s.height))
    ensures SliceBytes(s) == Mul(MacroTileBytes(s), t)
  {
    hide Mul, MacroTileBytes;
    PixelSize(s);
    MacroTileBytesForm(s);
    BytesOfBits(Mul(512 * t, Thickness(s.mode)), PixelBytes(s));
    EightTiles(Thickness(s.mode), PixelBytes(s));
    MacroSlabArith(t, Thickness(s.mode), PixelBytes(s));
  }

  lemma MacroSlabArith(t: nat, th: nat, pb: nat)
    ensures Mul(Mul(512 * t, th), pb) == Mul(Mul(Mul(512, th), pb), t)
  {
    calc {
      Mul(Mul(512 * t, th), pb);
      { MulIs(512, t); MulTimes(512, t, th); MulFlip(t, th); MulTimes(512, th, t); }
      Mul(Mul(Mul(512, th), t), pb);
      { MulTimes(Mul(512, th), t, pb); MulFlip(t, pb); MulTimes(Mul(512, th), pb, t); }
      Mul(Mul(Mul(512, th), pb), t);
    }
  }
}
