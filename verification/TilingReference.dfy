/** Where every pixel lies, in plain arithmetic: a second definition of the address map, and proof that it is the map. */
module TilingReference {
  import opened Machine
  import opened Products
  import opened Tiling
  import opened TilingInjective

  // -------- inside a micro tile

  /** Bits of x and y interleaved, x first. */
  function Morton(x: nat, y: nat, bits: nat): nat {
    if bits == 0 then 0 else x % 2 + 2 * (y % 2) + 4 * Morton(x / 2, y / 2, bits - 1)
  }

  /** Place of a pixel in its layer of 8 by 8: depth in Morton order, colours in rows of 8, 4, 2 or 1 that alternate. */
  function PlaceInLayer(bpp: nat, isDepth: bool, x: nat, y: nat): nat {
    if isDepth then Morton(x, y, 3)
    else if bpp == 8 then x % 8 + 8 * (y / 2 % 2) + 16 * (y % 2) + 32 * (y / 4 % 2)
    else if bpp == 16 then x % 8 + 8 * (y % 8)
    else if bpp == 64 then x % 2 + 2 * (y % 2) + 4 * (x / 2 % 4) + 16 * (y / 2 % 4)
    else if bpp == 128 then y % 2 + 2 * (x % 8) + 16 * (y / 2 % 4)
    else x % 4 + 4 * (y % 2) + 8 * (x / 4 % 2) + 16 * (y / 2 % 4)
  }

  /** The modes whose tiles are four layers deep. */
  function Layers(m: TileMode): nat {
    if m in {Tiled1DThick, Tiled2DThick, Tiled2BThick, Tiled3DThick, Tiled3BThick} then 4 else 1
  }

  lemma UpperBits(v: nat)
    ensures v / 2 % 4 == Bit1(v) + 2 * Bit2(v)
  {
    var h := v / 2;
    assert h % 4 == h % 2 + 2 * (h / 2 % 2);
    assert h / 2 == v / 4;
  }

  lemma MortonIs(x: nat, y: nat)
    ensures Morton(x, y, 3) == Bit0(x) + 2 * Bit0(y) + 4 * Bit1(x) + 8 * Bit1(y) + 16 * Bit2(x) + 32 * Bit2(y)
  {
    assert x / 2 / 2 == x / 4 && y / 2 / 2 == y / 4;
    assert Morton(x / 4, y / 4, 1) == Bit2(x) + 2 * Bit2(y);
    assert Morton(x / 2, y / 2, 2) == Bit1(x) + 2 * Bit1(y) + 4 * Morton(x / 4, y / 4, 1);
  }

  /** The index of a pixel in its micro tile, for every pixel size, tile type and thickness. */
  lemma PlaceIs(bpp: nat, m: TileMode, isDepth: bool, x: nat, y: nat, z: nat)
    ensures PixelIndex(bpp, m, isDepth, x, y, z) == PlaceInLayer(bpp, isDepth, x, y) + 64 * (z % Layers(m))
  {
    PixelIndexBits(bpp, m, isDepth, x, y, z);
    ModeIs(m);
    LayerOf(bpp, isDepth, x, y);
  }

  lemma LayerOf(bpp: nat, isDepth: bool, x: nat, y: nat)
    ensures var p := PlaneBits(bpp, isDepth, x, y);
            FromBits(p[0], p[1], p[2], p[3], p[4], p[5], 0, 0) == PlaceInLayer(bpp, isDepth, x, y)
  {
    MortonIs(x, y);
    LowAndHigh(x);
    LowAndHigh(y);
    hide Bit0, Bit1, Bit2, Morton;
  }

  /** The parts of a coordinate in terms of its low bits. */
  lemma LowAndHigh(v: nat)
    ensures v % 2 == Bit0(v) && v / 2 % 2 == Bit1(v) && v / 4 % 2 == Bit2(v) && v / 2 % 4 == Bit1(v) + 2 * Bit2(v)
    ensures v % 8 == Bit0(v) + 2 * Bit1(v) + 4 * Bit2(v) && v % 4 == Bit0(v) + 2 * Bit1(v)
  {
    BitsRange(v);
    UpperBits(v);
  }

  // -------- tile modes

  /** Width and height of a macro tile; a micro tile is 8 by 8. */
  function TileWidth(m: TileMode): nat {
    if m in {Tiled2DThin2, Tiled2BThin2} then 16 else if m in {Tiled2DThin4, Tiled2BThin4} then 8 else 32
  }

  function TileHeight(m: TileMode): nat {
    if m in {Tiled2DThin2, Tiled2BThin2} then 32 else if m in {Tiled2DThin4, Tiled2BThin4} then 64 else 16
  }

  /** How far the channels turn from one slab to the next: by a bank in the 2D modes, by a pipe in the 3D ones. */
  function Turn(m: TileMode): nat {
    if m in {Tiled3DThin1, Tiled3DThick, Tiled3BThin1, Tiled3BThick} then 1 else 2
  }

  /** The modes that swap banks along a row. */
  predicate Swaps(m: TileMode) {
    m in {Tiled2BThin1, Tiled2BThin2, Tiled2BThin4, Tiled2BThick, Tiled3BThin1, Tiled3BThick}
  }

  lemma ModeIs(m: TileMode)
    ensures Thickness(m) == Layers(m) && (BankSwapped(m) <==> Swaps(m))
    ensures Kind(m) == Linear <==> m in {LinearGeneral, LinearAligned}
    ensures Kind(m) == Micro <==> m in {Tiled1DThin1, Tiled1DThick}
    ensures Kind(m) == Macro ==> MacroTilePitch(m) == TileWidth(m) && MacroTileHeight(m) == TileHeight(m) && Rotation(m) == Turn(m)
  {
  }

  // -------- channels

  lemma Parity(a: nat, b: nat)
    ensures (if a % 2 == b % 2 then 0 else 1) == (a + b) % 2
  {
  }

  /** Exclusive or of three-bit numbers, bit by bit. */
  lemma Xor3(a0: nat, a1: nat, a2: nat, b: nat)
    requires a0 <= 1 && a1 <= 1 && a2 <= 1 && b < 8
    ensures Xor(a0 + 2 * a1 + 4 * a2, b) == (a0 + b) % 2 + 2 * ((a1 + b / 2) % 2) + 4 * ((a2 + b / 4) % 2)
  {
    hide Xor;
    var a := a0 + 2 * a1 + 4 * a2;
    XorStep(a, b);
    assert a % 2 == a0 && a / 2 == a1 + 2 * a2;
    Xor2(a1, a2, b / 2);
    assert b / 2 / 2 == b / 4;
    Parity(a0, b);
  }

  lemma Xor2(a0: nat, a1: nat, b: nat)
    requires a0 <= 1 && a1 <= 1 && b < 4
    ensures Xor(a0 + 2 * a1, b) == (a0 + b) % 2 + 2 * ((a1 + b / 2) % 2)
  {
    hide Xor;
    var a := a0 + 2 * a1;
    XorStep(a, b);
    assert a % 2 == a0 && a / 2 == a1;
    XorStep(a1, b / 2);
    XorZero();
    Parity(a0, b);
    Parity(a1, b / 2);
  }

  lemma XorZero()
    ensures Xor(0, 0) == 0
  {
  }

  /** Swizzle and slab turn. */
  function Key(s: Surface, slice: nat): nat {
    s.pipeSwizzle + 2 * s.bankSwizzle + Turn(s.mode) * (slice / Layers(s.mode))
  }

  function Pipe(x: nat, y: nat, key: nat): nat { (x / 8 + y / 8 + key) % 2 }
  function BankLow(x: nat, y: nat, key: nat): nat { (x / 8 + y / 32 + key / 2) % 2 }
  function BankHigh(x: nat, y: nat, key: nat): nat { (x / 16 + y / 16 + key / 4) % 2 }

  lemma KeyIs(s: Surface, slice: nat)
    requires Kind(s.mode) == Macro
    ensures ChannelKey(s, slice) % 8 == Key(s, slice) % 8
  {
    ModeIs(s.mode);
    var k := if Thickness(s.mode) > 1 then slice / 4 else slice;
    assert k == slice / Layers(s.mode);
    MulIs(k, Rotation(s.mode));
    MulCommutes(k, Rotation(s.mode));
    Low3(s.pipeSwizzle + 2 * s.bankSwizzle, Mul(k, Rotation(s.mode)));
  }

  lemma Low3(a: nat, b: nat)
    ensures U64(U32(a) + b) % 8 == (a + b) % 8
  {
    var q := a / TWO32;
    assert a == TWO32 * q + U32(a);
    var n := U32(a) + b;
    assert n == TWO64 * (n / TWO64) + U64(n);
    assert a + b == 8 * (0x2000_0000 * q + 0x2000_0000_0000_0000 * (n / TWO64)) + U64(n);
  }

  lemma BitsOfKey(k: nat)
    ensures k % 8 % 2 == k % 2 && k % 8 / 2 % 2 == k / 2 % 2 && k % 8 / 4 % 2 == k / 4 % 2
  {
    var q, r := k / 8, k % 8;
    assert k == 8 * q + r;
    assert k / 2 == 4 * q + r / 2 && k / 4 == 2 * q + r / 4;
  }

  lemma AddMod2(a: nat, b: nat, c: nat)
    requires b % 2 == c % 2
    ensures (a % 2 + b) % 2 == (a + c) % 2
  {
  }

  /** Only the low three bits of the key matter. */
  lemma KeyBits(a: nat, b: nat, c: nat, key: nat, k: nat)
    requires key % 8 == k % 8
    ensures (a % 2 + key % 8) % 2 == (a + k) % 2
    ensures (b % 2 + key % 8 / 2) % 2 == (b + k / 2) % 2
    ensures (c % 2 + key % 8 / 4) % 2 == (c + k / 4) % 2
  {
    BitsOfKey(k);
    AddMod2(a, k % 8, k);
    AddMod2(b, k % 8 / 2, k / 2);
    AddMod2(c, k % 8 / 4, k / 4);
  }

  /** Pipe and bank of a pixel before the bank swap: sums of its tile coordinates and the key, bit by bit. */
  lemma ChannelIs(s: Surface, x: nat, y: nat, slice: nat)
    requires Kind(s.mode) == Macro
    ensures var k := Key(s, slice);
            Channel(s, x, y, slice) == Pipe(x, y, k) + 2 * BankLow(x, y, k) + 4 * BankHigh(x, y, k)
  {
    hide Xor, ChannelKey, Key, RawChannel;
    var k, key := Key(s, slice), ChannelKey(s, slice);
    var a, b, c := x / 8 + y / 8, x / 8 + y / 32, x / 16 + y / 16;
    RawIs(x, y);
    KeyIs(s, slice);
    ChannelSum(RawChannel(x, y), a, b, c, key, k);
    assert Pipe(x, y, k) == (a + k) % 2 && BankLow(x, y, k) == (b + k / 2) % 2 && BankHigh(x, y, k) == (c + k / 4) % 2;
  }

  lemma ChannelSum(raw: nat, a: nat, b: nat, c: nat, key: nat, k: nat)
    requires raw == a % 2 + 2 * (b % 2) + 4 * (c % 2) && raw < 8 && key % 8 == k % 8
    ensures Xor(raw, key) % 8 == (a + k) % 2 + 2 * ((b + k / 2) % 2) + 4 * ((c + k / 4) % 2)
  {
    hide Xor;
    XorLow3(raw, key);
    Xor3(a % 2, b % 2, c % 2, key % 8);
    KeyBits(a, b, c, key, k);
  }

  lemma RawIs(x: nat, y: nat)
    ensures RawChannel(x, y) == (x / 8 + y / 8) % 2 + 2 * ((x / 8 + y / 32) % 2) + 4 * ((x / 16 + y / 16) % 2)
    ensures RawChannel(x, y) < 8
  {
    hide PipeWithoutRotation, BankWithoutRotation;
    RawChannelForm(x, y);
    Parity(y / 8, x / 8);
    Parity(y / 32, x / 8);
    Parity(y / 16, x / 16);
  }

  // -------- the bank swap

  /** Width after which the bank order changes, before it is fitted to the pitch. */
  function SwapBase(bpp: nat, m: TileMode): nat {
    if m in {Tiled2BThin4} then (match bpp case 8 => 256 case 16 => 128 case 32 => 64 case 64 => 32 case 96 => 21 case _ => 16)
    else match bpp case 8 => 512 case 16 => 256 case 32 => 128 case 64 => 64 case _ => 32
  }

  lemma SwapBaseIs(bpp: nat, m: TileMode)
    requires Swaps(m) && ValidBpp(bpp)
    ensures Kind(m) == Macro && BankSwapWidthBase(bpp, m) == SwapBase(bpp, m)
  {
    hide SwapWidthFor;
    if m == Tiled2BThin4 {
      SwapTable(bpp, 4, false);
    } else if m == Tiled2BThin2 {
      SwapTable(bpp, 2, false);
    } else {
      SwapTable(bpp, 1, Thickness(m) > 1);
    }
  }

  lemma SwapTable(bpp: nat, factor: nat, thick: bool)
    requires ValidBpp(bpp) && factor in {1, 2, 4} && (thick ==> factor == 1)
    ensures SwapWidthFor(bpp, factor, thick) ==
            if factor == 4 then (match bpp case 8 => 256 case 16 => 128 case 32 => 64 case 64 => 32 case 96 => 21 case _ => 16)
            else match bpp case 8 => 512 case 16 => 256 case 32 => 128 case 64 => 64 case _ => 32
  {
    hide SwapWidthFor;
    if bpp == 8 {
      Swap8();
    } else if bpp == 16 {
      Swap16();
    } else if bpp == 32 {
      Swap32();
    } else if bpp == 64 {
      Swap64();
    } else if bpp == 96 {
      Swap96();
    } else {
      Swap128();
    }
  }

  lemma SwapValue(bpp: nat, factor: nat, thick: bool, most: nat, least: nat, width: nat)
    requires ValidBpp(bpp) && factor in {1, 2, 4} && 0 < factor * 2 * bpp && most == 16384 / (factor * 2 * bpp)
    requires least == 8192 / ((if thick then 4 else 1) * (8 * bpp)) && width == Max(1, 128 / bpp) * 32
    ensures SwapWidthFor(bpp, factor, thick) == Min(most, Max(least, width))
  {
    hide SlicesPerTile;
  }

  lemma Swap8()
    ensures SwapWidthFor(8, 1, false) == 512 && SwapWidthFor(8, 1, true) == 512
    ensures SwapWidthFor(8, 2, false) == 512 && SwapWidthFor(8, 4, false) == 256
  {
    hide SwapWidthFor;
    SwapValue(8, 1, false, 1024, 128, 512);
    SwapValue(8, 1, true, 1024, 32, 512);
    SwapValue(8, 2, false, 512, 128, 512);
    SwapValue(8, 4, false, 256, 128, 512);
  }

  lemma Swap16()
    ensures SwapWidthFor(16, 1, false) == 256 && SwapWidthFor(16, 1, true) == 256
    ensures SwapWidthFor(16, 2, false) == 256 && SwapWidthFor(16, 4, false) == 128
  {
    hide SwapWidthFor;
    SwapValue(16, 1, false, 512, 64, 256);
    SwapValue(16, 1, true, 512, 16, 256);
    SwapValue(16, 2, false, 256, 64, 256);
    SwapValue(16, 4, false, 128, 64, 256);
  }

  lemma Swap32()
    ensures SwapWidthFor(32, 1, false) == 128 && SwapWidthFor(32, 1, true) == 128
    ensures SwapWidthFor(32, 2, false) == 128 && SwapWidthFor(32, 4, false) == 64
  {
    hide SwapWidthFor;
    SwapValue(32, 1, false, 256, 32, 128);
    SwapValue(32, 1, true, 256, 8, 128);
    SwapValue(32, 2, false, 128, 32, 128);
    SwapValue(32, 4, false, 64, 32, 128);
  }

  lemma Swap64()
    ensures SwapWidthFor(64, 1, false) == 64 && SwapWidthFor(64, 1, true) == 64
    ensures SwapWidthFor(64, 2, false) == 64 && SwapWidthFor(64, 4, false) == 32
  {
    hide SwapWidthFor;
    SwapValue(64, 1, false, 128, 16, 64);
    SwapValue(64, 1, true, 128, 4, 64);
    SwapValue(64, 2, false, 64, 16, 64);
    SwapValue(64, 4, false, 32, 16, 64);
  }

  lemma Swap96()
    ensures SwapWidthFor(96, 1, false) == 32 && SwapWidthFor(96, 1, true) == 32
    ensures SwapWidthFor(96, 2, false) == 32 && SwapWidthFor(96, 4, false) == 21
  {
    hide SwapWidthFor;
    SwapValue(96, 1, false, 85, 10, 32);
    SwapValue(96, 1, true, 85, 2, 32);
    SwapValue(96, 2, false, 42, 10, 32);
    SwapValue(96, 4, false, 21, 10, 32);
  }

  lemma Swap128()
    ensures SwapWidthFor(128, 1, false) == 32 && SwapWidthFor(128, 1, true) == 32
    ensures SwapWidthFor(128, 2, false) == 32 && SwapWidthFor(128, 4, false) == 16
  {
    hide SwapWidthFor;
    SwapValue(128, 1, false, 64, 8, 32);
    SwapValue(128, 1, true, 64, 2, 32);
    SwapValue(128, 2, false, 32, 8, 32);
    SwapValue(128, 4, false, 16, 8, 32);
  }

  /** Fitting halves the width as often as needed and no more. */
  lemma {:induction false} FitHalves(width: nat, pitch: u32) returns (j: nat)
    requires U32(2 * pitch) > 0
    ensures FitToPitch(width, pitch) == width / Pow2(j) < U32(2 * pitch)
    ensures j > 0 ==> width / Pow2(j - 1) >= U32(2 * pitch)
    decreases width
  {
    if width < U32(2 * pitch) {
      j := 0;
      assert Pow2(0) == 1;
    } else {
      j := FitHalves(width / 2, pitch);
      HalfPower(width, j);
      if j > 0 {
        HalfPower(width, j - 1);
      } else {
        assert Pow2(0) == 1;
      }
      j := j + 1;
    }
  }

  lemma HalfPower(width: nat, j: nat)
    ensures width / 2 / Pow2(j) == width / Pow2(j + 1)
  {
    var n := Pow2(j);
    var q, r := width / 2 / n, width / 2 % n;
    Euclid(width / 2, n);
    assert width == (2 * n) * q + (2 * r + width % 2) by { assert 2 * (n * q) == (2 * n) * q; }
    DivModOf(2 * n, q, 2 * r + width % 2);
  }

  /** Which of the four bank orders a column of macro tiles has. */
  function SwapIndex(s: Surface, x: nat): (i: nat)
    requires Addressable(s) && Kind(s.mode) == Macro
    ensures i < 4 && (!Swaps(s.mode) ==> i == 0)
  {
    if Swaps(s.mode) then TileWidth(s.mode) * (x / TileWidth(s.mode)) / SwapWidth(s) % 4 else 0
  }

  function SwapWidth(s: Surface): (w: nat)
    requires Addressable(s) && Swaps(s.mode)
    ensures w > 0
  {
    ModeIs(s.mode);
    SwapBaseIs(s.bpp, s.mode);
    FitToPitch(SwapBase(s.bpp, s.mode), s.pitch)
  }

  /** The bank: the middle two of the four orders flip its low bit, the last two its high bit. */
  function Bank(s: Surface, x: nat, y: nat, slice: nat): nat
    requires Addressable(s) && Kind(s.mode) == Macro
  {
    var k, i := Key(s, slice), SwapIndex(s, x);
    (BankLow(x, y, k) + if 1 <= i <= 2 then 1 else 0) % 2 + 2 * ((BankHigh(x, y, k) + if i >= 2 then 1 else 0) % 2)
  }

  lemma BankIs(s: Surface, x: nat, y: nat, slice: nat)
    requires Kind(s.mode) == Macro && Addressable(s)
    ensures FinalBank(s, x, y, slice) == Bank(s, x, y, slice)
    ensures Channel(s, x, y, slice) % 2 == Pipe(x, y, Key(s, slice))
  {
    hide Channel, Key, Pipe, BankLow, BankHigh, SwapIndex, Xor, MacroColumn, BankSwapOrder;
    ChannelIs(s, x, y, slice);
    ModeIs(s.mode);
    var k := Key(s, slice);
    var p, b0, b1 := Pipe(x, y, k), BankLow(x, y, k), BankHigh(x, y, k);
    BitsAre(x, y, k);
    SplitChannel(p, b0, b1);
    if Swaps(s.mode) {
      SwapIs(s, x, b0 + 2 * b1);
      SwapOrder(b0, b1, SwapIndex(s, x));
    } else {
      assert FinalBank(s, x, y, slice) == b0 + 2 * b1;
    }
  }

  lemma SwapIs(s: Surface, x: nat, bank: nat)
    requires Kind(s.mode) == Macro && Addressable(s) && Swaps(s.mode)
    ensures SwappedBank(s, bank, MacroColumn(s.mode, x)) == Xor(bank, BankSwapOrder(SwapIndex(s, x)))
  {
    hide Xor, FitToPitch, BankSwapWidthBase, SwapBase, MacroColumn, MacroTilePitch, TileWidth, Mul, BankSwapOrder;
    ModeIs(s.mode);
    SwapBaseIs(s.bpp, s.mode);
    ColumnIs(s.mode, x);
  }

  /** The middle two of the four orders flip the low bit of a bank, the last two its high bit. */
  lemma SwapOrder(b0: nat, b1: nat, i: nat)
    requires b0 <= 1 && b1 <= 1 && i < 4
    ensures Xor(b0 + 2 * b1, BankSwapOrder(i))
         == (b0 + if 1 <= i <= 2 then 1 else 0) % 2 + 2 * ((b1 + if i >= 2 then 1 else 0) % 2)
  {
    hide Xor;
    Xor2(b0, b1, BankSwapOrder(i));
  }

  lemma BitsAre(x: nat, y: nat, k: nat)
    ensures Pipe(x, y, k) <= 1 && BankLow(x, y, k) <= 1 && BankHigh(x, y, k) <= 1
  {
  }

  lemma SplitChannel(p: nat, b0: nat, b1: nat)
    requires p <= 1 && b0 <= 1 && b1 <= 1
    ensures (p + 2 * b0 + 4 * b1) % 2 == p && (p + 2 * b0 + 4 * b1) / 2 == b0 + 2 * b1
    ensures b0 % 2 == b0 && b1 % 2 == b1
  {
  }

  lemma ColumnIs(m: TileMode, x: nat)
    requires Kind(m) == Macro
    ensures Mul(MacroTilePitch(m), MacroColumn(m, x)) == TileWidth(m) * (x / TileWidth(m))
  {
    ModeIs(m);
    QuotIs(x, MacroTilePitch(m));
    MulIs(MacroTilePitch(m), MacroColumn(m, x));
  }

  // -------- addresses

  /** Number of a cell when the cells of a box are counted row by row and layer by layer. */
  function Counted(cols: nat, rows: nat, i: nat, j: nat, k: nat): nat {
    i + cols * (j + rows * k)
  }

  /** Number of a pixel when tiles of w by h pixels are stored one after the other, row by row and slab by slab. */
  function Stored(s: Surface, w: nat, h: nat, x: nat, y: nat, z: nat): nat
    requires w > 0 && h > 0
  {
    var t := Layers(s.mode);
    PlaceInLayer(s.bpp, s.isDepth, x, y) + 64 * (z % t) + 64 * t * Counted(s.pitch / w, s.height / h, x / w, y / h, z / t)
  }

  function Bytes(s: Surface, number: nat): nat { s.bpp / 8 * number }

  /** Groups of 256 bytes go round over the eight channels. */
  function Spread(offset: nat, pipe: nat, bank: nat): nat {
    offset % 256 + 256 * pipe + 512 * bank + 2048 * (offset / 256)
  }

  /** The address of a pixel. */
  function Place(s: Surface, x: nat, y: nat, z: nat): nat
    requires Addressable(s)
  {
    if s.mode in {LinearGeneral, LinearAligned} then Bytes(s, Counted(s.pitch, s.height, x, y, z))
    else if s.mode in {Tiled1DThin1, Tiled1DThick} then Bytes(s, Stored(s, 8, 8, x, y, z))
    else
      ModeIs(s.mode);
      Spread(Bytes(s, Stored(s, TileWidth(s.mode), TileHeight(s.mode), x, y, z)), Pipe(x, y, Key(s, z)), Bank(s, x, y, z))
  }

  lemma GridIs(cols: nat, rows: nat, i: nat, j: nat, k: nat)
    ensures Grid(cols, rows, i, j, k) == Counted(cols, rows, i, j, k)
  {
    MulIs(rows, k);
    MulIs(cols, j + rows * k);
  }

  lemma StoredIs(s: Surface, w: nat, h: nat, x: nat, y: nat, z: nat, number: nat)
    requires TileDim(w) && TileDim(h)
    requires number == Grid(Quot(s.pitch, w), Quot(s.height, h), Quot(x, w), Quot(y, h), Quot(z, Thickness(s.mode)))
    ensures PixelIndex(s.bpp, s.mode, s.isDepth, x, y, z) + Mul(64 * Thickness(s.mode), number) == Stored(s, w, h, x, y, z)
  {
    hide Grid, Mul, Quot, PixelIndex, PlaceInLayer, Counted;
    var t := Thickness(s.mode);
    PlaceIs(s.bpp, s.mode, s.isDepth, x, y, z);
    ModeIs(s.mode);
    QuotIs(s.pitch, w); QuotIs(s.height, h); QuotIs(x, w); QuotIs(y, h); QuotIs(z, t);
    GridIs(s.pitch / w, s.height / h, x / w, y / h, z / t);
    MulIs(64 * t, number);
  }

  /** The address map is the arithmetic one, in every tile mode and for every pixel size. */
  lemma AddrIs(s: Surface, x: nat, y: nat, z: nat)
    requires Shaped(s) && NoWrap(s) && InSurface(s, x, y, z)
    ensures Addr(s, x, y, z) == Place(s, x, y, z)
  {
    ModeIs(s.mode);
    match Kind(s.mode)
    case Linear => LinearIs(s, x, y, z);
    case Micro => MicroIs(s, x, y, z);
    case Macro => MacroIs(s, x, y, z);
  }

  lemma LinearIs(s: Surface, x: nat, y: nat, z: nat)
    requires Shaped(s) && Kind(s.mode) == Linear && InSurface(s, x, y, z)
    ensures LinearAddr(s, x, y, z) == Bytes(s, Counted(s.pitch, s.height, x, y, z))
  {
    hide LinearAddr, BufferBytes, Grid, Mul;
    LinearAddrForm(s, x, y, z);
    GridIs(s.pitch, s.height, x, y, z);
    MulIs(PixelBytes(s), Grid(s.pitch, s.height, x, y, z));
  }

  lemma MicroIs(s: Surface, x: nat, y: nat, z: nat)
    requires Shaped(s) && NoWrap(s) && Kind(s.mode) == Micro && InSurface(s, x, y, z)
    ensures MicroAddr(s, x, y, z) == Bytes(s, Stored(s, 8, 8, x, y, z))
  {
    hide MicroAddr, BufferBytes, Grid, Mul, PixelIndex, Stored, Aligned, PlainPixels;
    MicroAddrForm(s, x, y, z);
    StoredIs(s, 8, 8, x, y, z, MicroTileNumber(s, x, y, z));
    MulIs(PixelBytes(s), MicroSlot(s, x, y, z));
  }

  lemma MacroIs(s: Surface, x: nat, y: nat, z: nat)
    requires Shaped(s) && NoWrap(s) && Kind(s.mode) == Macro && InSurface(s, x, y, z)
    ensures MacroAddr(s, x, y, z) == Place(s, x, y, z)
  {
    hide MacroAddr, BufferBytes, Grid, Mul, PixelIndex, Stored, Aligned, PlainPixels, TotalOffset, FinalBank, Channel, Bank, Key, Pipe;
    MacroAddrForm(s, x, y, z);
    ModeIs(s.mode);
    StoredIs(s, TileWidth(s.mode), TileHeight(s.mode), x, y, z, MacroTileNumber(s, x, y, z));
    MulIs(PixelBytes(s), ChannelSlot(s, x, y, z));
    BankIs(s, x, y, z);
  }

  // -------- neighbours

  /** How many pixels of a row lie next to each other in a tile. */
  function RunLength(bpp: nat): nat {
    match bpp case 8 | 16 => 8 case 64 => 2 case 128 => 1 case _ => 4
  }

  lemma NextMod(x: nat, run: nat)
    requires run in {2, 4, 8} && x % run + 1 < run
    ensures (x + 1) % run == x % run + 1 && (x + 1) / run == x / run
  {
    Euclid(x, run);
    DivModOf(run, x / run, x % run + 1);
  }

  lemma Coarse(a: nat, b: nat, run: nat)
    requires run in {2, 4, 8} && a / run == b / run
    ensures a / 8 == b / 8 && a / 16 == b / 16 && a / 32 == b / 32
  {
    CoarseOne(a, run);
    CoarseOne(b, run);
  }

  lemma CoarseOne(a: nat, run: nat)
    requires run in {2, 4, 8}
    ensures a / 8 == a / run / (8 / run) && a / 16 == a / 8 / 2 && a / 32 == a / 8 / 4
  {
    if run == 2 {
      assert a / 2 / 4 == a / 8;
    } else if run == 4 {
      assert a / 4 / 2 == a / 8;
    }
  }

  lemma ModOf(run: nat, low: nat, more: nat)
    requires run in {2, 4, 8} && low < run
    ensures (low + run * more) % run == low
  {
    DivModOf(run, more, low);
  }

  lemma NextPlace(bpp: nat, x: nat, y: nat)
    requires ValidBpp(bpp) && x % RunLength(bpp) + 1 < RunLength(bpp)
    ensures PlaceInLayer(bpp, false, x + 1, y) == PlaceInLayer(bpp, false, x, y) + 1
    ensures PlaceInLayer(bpp, false, x, y) % RunLength(bpp) == x % RunLength(bpp)
  {
    NextMod(x, RunLength(bpp));
    if bpp == 8 {
      ModOf(8, x % 8, y / 2 % 2 + 2 * (y % 2) + 4 * (y / 4 % 2));
    } else if bpp == 16 {
      ModOf(8, x % 8, y % 8);
    } else if bpp == 64 {
      ModOf(2, x % 2, y % 2 + 2 * (x / 2 % 4) + 8 * (y / 2 % 4));
    } else {
      ModOf(4, x % 4, y % 2 + 2 * (x / 4 % 2) + 4 * (y / 2 % 4));
    }
  }

  /** A tile starts a whole number of runs after any other. */
  lemma NextStored(s: Surface, w: nat, h: nat, x: nat, y: nat, z: nat)
    requires ValidBpp(s.bpp) && !s.isDepth && w in {8, 16, 32} && h > 0 && x % RunLength(s.bpp) + 1 < RunLength(s.bpp)
    ensures Stored(s, w, h, x + 1, y, z) == Stored(s, w, h, x, y, z) + 1
    ensures Stored(s, w, h, x, y, z) % RunLength(s.bpp) == x % RunLength(s.bpp)
  {
    hide PlaceInLayer, Counted;
    NextPlace(s.bpp, x, y);
    NextMod(x, RunLength(s.bpp));
    Coarse(x + 1, x, RunLength(s.bpp));
    assert (x + 1) / w == x / w;
    var t, n := Layers(s.mode), Counted(s.pitch / w, s.height / h, x / w, y / h, z / Layers(s.mode));
    MulCommutes(t, n);
    WholeRuns(PlaceInLayer(s.bpp, false, x, y), z % t + t * n, RunLength(s.bpp));
    assert 64 * (z % t) + 64 * t * n == 64 * (z % t + t * n) by { assert 64 * t * n == 64 * (t * n); }
  }

  lemma WholeRuns(place: nat, more: nat, run: nat)
    requires run in {2, 4, 8}
    ensures (place + 64 * more) % run == place % run
  {
    var q, r := place / run, place % run;
    Euclid(place, run);
    if run == 2 {
      ModOf(2, r, q + 32 * more);
    } else if run == 4 {
      ModOf(4, r, q + 16 * more);
    } else {
      ModOf(8, r, q + 8 * more);
    }
  }

  lemma SameGroup(n: nat, run: nat, stored: nat)
    requires (n == 1 && run == 8) || (n == 2 && run == 8) || (n == 4 && run == 4) || (n == 8 && run == 2)
    requires stored % run + 1 < run
    ensures n * stored % 256 + n < 256
  {
    var a, b := stored / run, stored % run;
    Euclid(stored, run);
    if n == 1 {
      InGroup(stored, 8, 32, a, b);
    } else if n == 2 {
      InGroup(2 * stored, 16, 16, a, 2 * b);
    } else if n == 4 {
      InGroup(4 * stored, 16, 16, a, 4 * b);
    } else {
      InGroup(8 * stored, 16, 16, a, 8 * b);
    }
  }

  /** A run of `size` bytes lies inside one group of 256. */
  lemma InGroup(offset: nat, size: nat, runs: nat, a: nat, b: nat)
    requires ((size == 8 && runs == 32) || (size == 16 && runs == 16)) && offset == size * a + b && b < size
    ensures offset % 256 <= 256 - size + b
  {
    var q, r := a / runs, a % runs;
    if size == 8 {
      assert offset == 256 * q + (8 * r + b);
      DivModOf(256, q, 8 * r + b);
    } else {
      assert offset == 256 * q + (16 * r + b);
      DivModOf(256, q, 16 * r + b);
    }
  }

  lemma SpreadNext(offset: nat, n: nat, pipe: nat, bank: nat)
    requires offset % 256 + n < 256
    ensures Spread(offset + n, pipe, bank) == Spread(offset, pipe, bank) + n
  {
    DivModOf(256, offset / 256, offset % 256 + n);
  }

  /** The pixels of a run lie next to each other: eight of 8 or 16 bits, four of 32 or 96, two of 64. */
  lemma RowNeighbours(s: Surface, x: nat, y: nat, z: nat)
    requires WellFormed(s) && Kind(s.mode) != Linear && !s.isDepth && InSurface(s, x + 1, y, z)
    requires x % RunLength(s.bpp) + 1 < RunLength(s.bpp)
    ensures Addr(s, x + 1, y, z) == Addr(s, x, y, z) + PixelBytes(s)
  {
    hide Addr, BufferBytes, Aligned, Stored, Bank, Key;
    AddrIs(s, x, y, z);
    AddrIs(s, x + 1, y, z);
    ModeIs(s.mode);
    NextMod(x, RunLength(s.bpp));
    Coarse(x + 1, x, RunLength(s.bpp));
    if Kind(s.mode) == Micro {
      NextStored(s, 8, 8, x, y, z);
      NextBytes(s, Stored(s, 8, 8, x, y, z));
    } else {
      var w, h := TileWidth(s.mode), TileHeight(s.mode);
      NextStored(s, w, h, x, y, z);
      var n := Stored(s, w, h, x, y, z);
      NextBytes(s, n);
      SameGroup(PixelBytes(s), RunLength(s.bpp), n);
      SameBank(s, x, y, z);
      SpreadNext(Bytes(s, n), PixelBytes(s), Pipe(x, y, Key(s, z)), Bank(s, x, y, z));
    }
  }

  lemma NextBytes(s: Surface, n: nat)
    ensures Bytes(s, n + 1) == Bytes(s, n) + PixelBytes(s)
  {
  }

  lemma SameBank(s: Surface, x: nat, y: nat, z: nat)
    requires Kind(s.mode) == Macro && Addressable(s)
    requires (x + 1) / 8 == x / 8 && (x + 1) / 16 == x / 16 && (x + 1) / 32 == x / 32
    ensures Bank(s, x + 1, y, z) == Bank(s, x, y, z) && Pipe(x + 1, y, Key(s, z)) == Pipe(x, y, Key(s, z))
  {
    hide Key, SwapIndex, Pipe, BankLow, BankHigh;
    SameSwap(s, x, x + 1);
    SameBits(x, x + 1, y, Key(s, z));
  }

  lemma SameBits(x: nat, x': nat, y: nat, k: nat)
    requires x' / 8 == x / 8 && x' / 16 == x / 16
    ensures Pipe(x', y, k) == Pipe(x, y, k) && BankLow(x', y, k) == BankLow(x, y, k) && BankHigh(x', y, k) == BankHigh(x, y, k)
  {
  }

  lemma SameSwap(s: Surface, x: nat, x': nat)
    requires Kind(s.mode) == Macro && Addressable(s) && x' / 8 == x / 8 && x' / 16 == x / 16 && x' / 32 == x / 32
    ensures SwapIndex(s, x') == SwapIndex(s, x)
  {
    hide SwapWidth, Swaps;
    SameTile(TileWidth(s.mode), x, x');
  }

  lemma SameTile(w: nat, x: nat, x': nat)
    requires w in {8, 16, 32} && x' / 8 == x / 8 && x' / 16 == x / 16 && x' / 32 == x / 32
    ensures x' / w == x / w
  {
  }

  /** Pixels of 128 bits lie next to each other in pairs of rows. */
  lemma ColumnNeighbours(s: Surface, x: nat, y: nat, z: nat)
    requires WellFormed(s) && Kind(s.mode) == Micro && !s.isDepth && s.bpp == 128 && InSurface(s, x, y + 1, z) && y % 2 == 0
    ensures Addr(s, x, y + 1, z) == Addr(s, x, y, z) + 16
  {
    hide Addr, BufferBytes, Aligned, PlaceInLayer, Counted;
    AddrIs(s, x, y, z);
    AddrIs(s, x, y + 1, z);
    ModeIs(s.mode);
    NextMod(y, 2);
    Coarse(y + 1, y, 2);
    PairPlace(x, y);
    NextBytes(s, Stored(s, 8, 8, x, y, z));
  }

  lemma PairPlace(x: nat, y: nat)
    requires (y + 1) % 2 == y % 2 + 1 && (y + 1) / 2 == y / 2
    ensures PlaceInLayer(128, false, x, y + 1) == PlaceInLayer(128, false, x, y) + 1
  {
  }
}
