/**
 * Surface addressing of the R600-style tile modes: where the pixel (x, y, slice)
 * of a one-sample surface lives in its buffer, and proof that no two pixels share a byte.
 */
module Tiling {
  import opened Machine

  datatype TileMode =
    | LinearGeneral | LinearAligned
    | Tiled1DThin1 | Tiled1DThick
    | Tiled2DThin1 | Tiled2DThin2 | Tiled2DThin4 | Tiled2DThick
    | Tiled2BThin1 | Tiled2BThin2 | Tiled2BThin4 | Tiled2BThick
    | Tiled3DThin1 | Tiled3DThick
    | Tiled3BThin1 | Tiled3BThick

  datatype TilingKind = Linear | Micro | Macro

  // The address configuration: 2 pipes, 4 banks (so 8 channels), 256-byte pipe interleave,
  // rows and splits of 2048 bytes, swaps of 256 bytes.

  function Kind(m: TileMode): TilingKind {
    match m
    case LinearGeneral | LinearAligned => Linear
    case Tiled1DThin1 | Tiled1DThick => Micro
    case _ => Macro
  }

  function Thickness(m: TileMode): (t: nat)
    ensures t == 1 || t == 4
  {
    match m
    case Tiled1DThick | Tiled2DThick | Tiled2BThick | Tiled3DThick | Tiled3BThick => 4
    case _ => 1
  }

  function Rotation(m: TileMode): nat {
    match m
    case Tiled2DThin1 | Tiled2DThin2 | Tiled2DThin4 | Tiled2DThick
       | Tiled2BThin1 | Tiled2BThin2 | Tiled2BThin4 | Tiled2BThick => 2
    case Tiled3DThin1 | Tiled3DThick | Tiled3BThin1 | Tiled3BThick => 1
    case _ => 0
  }

  predicate BankSwapped(m: TileMode) {
    match m
    case Tiled2BThin1 | Tiled2BThin2 | Tiled2BThin4 | Tiled2BThick | Tiled3BThin1 | Tiled3BThick => true
    case _ => false
  }

  function AspectRatio(m: TileMode): nat
    requires Kind(m) == Macro
    ensures AspectRatio(m) in {1, 2, 4}
  {
    match m
    case Tiled2DThin2 | Tiled2BThin2 => 2
    case Tiled2DThin4 | Tiled2BThin4 => 4
    case _ => 1
  }

  function MacroTilePitch(m: TileMode): (p: nat)
    requires Kind(m) == Macro
    ensures p in {8, 16, 32}
  {
    if AspectRatio(m) == 1 then 32 else if AspectRatio(m) == 2 then 16 else 8
  }

  function MacroTileHeight(m: TileMode): (h: nat)
    requires Kind(m) == Macro
    ensures h in {16, 32, 64}
  {
    16 * AspectRatio(m)
  }

  /** A surface as the address computation sees it (one sample). */
  datatype Surface = Surface(mode: TileMode, bpp: nat, isDepth: bool,
                             pitch: u32, height: u32, numSlices: u32,
                             tileBase: u32, compBits: u32,
                             pipeSwizzle: u32, bankSwizzle: u32)

  function Bit0(v: nat): nat { v % 2 }
  function Bit1(v: nat): nat { v / 2 % 2 }
  function Bit2(v: nat): nat { v / 4 % 2 }
  function Bit3(v: nat): nat { v / 8 % 2 }
  function Bit4(v: nat): nat { v / 16 % 2 }
  function Bit5(v: nat): nat { v / 32 % 2 }

  /** The word with the given bits, least significant first. */
  function FromBits(b0: nat, b1: nat, b2: nat, b3: nat, b4: nat, b5: nat, b6: nat, b7: nat): nat {
    b0 + 2 * b1 + 4 * b2 + 8 * b3 + 16 * b4 + 32 * b5 + 64 * b6 + 128 * b7
  }

  /** The six in-plane bits of a pixel index, in the order the tile type and pixel size prescribe. */
  function PlaneBits(bpp: nat, isDepth: bool, x: nat, y: nat): (p: seq<nat>)
    ensures |p| == 6
  {
    var x0, x1, x2, y0, y1, y2 := Bit0(x), Bit1(x), Bit2(x), Bit0(y), Bit1(y), Bit2(y);
    if isDepth then [x0, y0, x1, y1, x2, y2]
    else match bpp
      case 8 => [x0, x1, x2, y1, y0, y2]
      case 16 => [x0, x1, x2, y0, y1, y2]
      case 64 => [x0, y0, x1, x2, y1, y2]
      case 128 => [y0, x0, x1, x2, y1, y2]
      case _ => [x0, x1, y0, x2, y1, y2]
  }

  /** Position of a pixel in its 8x8 (or 8x8x4) micro tile. */
  function PixelIndex(bpp: nat, m: TileMode, isDepth: bool, x: nat, y: nat, z: nat): nat {
    var p := PlaneBits(bpp, isDepth, x, y);
    if Thickness(m) > 1 then FromBits(p[0], p[1], p[2], p[3], p[4], p[5], Bit0(z), Bit1(z))
    else FromBits(p[0], p[1], p[2], p[3], p[4], p[5], 0, 0)
  }

  function PipeWithoutRotation(x: nat, y: nat): nat {
    Xor(Bit3(y), Bit3(x))
  }

  function BankWithoutRotation(x: nat, y: nat): nat {
    var ty := y / 2;
    Xor(Bit4(ty), Bit3(x)) + 2 * Xor(Bit3(ty), Bit4(x))
  }

  // -------- bank swapping

  /** Bits per pixel for which the copy functions are instantiated. */
  predicate ValidBpp(bpp: nat) {
    bpp in {8, 16, 32, 64, 96, 128}
  }

  function SlicesPerTile(bpp: nat): (r: nat)
    requires ValidBpp(bpp)
    ensures r == 1
  {
    var samplesPerTile := 2048 / (8 * bpp);
    if samplesPerTile != 0 then Max(1, 1 / samplesPerTile) else 1
  }

  /** Width after which the bank order is swapped, before it is fitted to the pitch. */
  function BankSwapWidthBase(bpp: nat, m: TileMode): (w: nat)
    requires Kind(m) == Macro && ValidBpp(bpp)
    ensures w > 0
  {
    SwapWidthFor(bpp, AspectRatio(m), Thickness(m) > 1)
  }

  function SwapWidthFor(bpp: nat, factor: nat, thick: bool): (w: nat)
    requires ValidBpp(bpp) && factor in {1, 2, 4}
    ensures w > 0
  {
    var slicesPerTile := SlicesPerTile(bpp);
    var bytesPerTileSlice := (if thick then 4 else 1) * (8 * bpp) / slicesPerTile;
    var swapWidth := Max(1, 128 / bpp) * 32;
    var heightBytes := factor * 2 * bpp / slicesPerTile;
    SwapTerms(bpp, factor);
    var swapMax := 16384 / heightBytes;
    var swapMin := 8192 / bytesPerTileSlice;
    Min(swapMax, Max(swapMin, swapWidth))
  }

  lemma SwapTerms(bpp: nat, factor: nat)
    requires ValidBpp(bpp) && factor in {1, 2, 4}
    ensures 0 < factor * 2 * bpp <= 1024 && 16384 / (factor * 2 * bpp) >= 16
  {
    if factor == 1 {
    } else if factor == 2 {
    } else {
    }
    DivAtLeast(factor * 2 * bpp);
  }

  lemma DivAtLeast(n: nat)
    requires 0 < n <= 1024
    ensures 16384 / n >= 16
  {
    MulMonotone(16, n, 1024);
    Euclid(16384, n);
    if 16384 / n < 16 {
      MulMonotone(n, 16384 / n, 15);
    }
  }

  function Max(a: nat, b: nat): nat { if a < b then b else a }
  function Min(a: nat, b: nat): nat { if b < a then b else a }

  /** `width` halved until it drops below twice the pitch. */
  function FitToPitch(width: nat, pitch: u32): (w: nat)
    requires U32(2 * pitch) > 0
    ensures w < U32(2 * pitch)
    ensures w == width || U32(2 * pitch) <= 2 * w + 1
    ensures width > 0 ==> w > 0
  {
    if width >= U32(2 * pitch) then FitToPitch(width / 2, pitch) else width
  }

  method BankSwappedWidth(bpp: nat, m: TileMode, pitch: u32) returns (w: nat)
    requires Kind(m) == Macro && BankSwapped(m) && ValidBpp(bpp)
    requires U32(2 * pitch) > 0
    ensures w == FitToPitch(BankSwapWidthBase(bpp, m), pitch)
  {
    w := BankSwapWidthBase(bpp, m);
    while w >= U32(2 * pitch)
      invariant FitToPitch(w, pitch) == FitToPitch(BankSwapWidthBase(bpp, m), pitch)
      decreases w
    {
      w := w / 2;
    }
  }

  function BankSwapOrder(i: nat): (b: nat)
    requires i < 4
    ensures b < 4
  {
    [0, 1, 3, 2][i]
  }

  /** A bank swap width, where one is asked for, is defined (its halving loop ends). */
  predicate Addressable(s: Surface) {
    BankSwapped(s.mode) ==> ValidBpp(s.bpp) && U32(2 * s.pitch) > 0
  }

  /** The bank of a macro tile column after the optional swap. */
  function SwappedBank(s: Surface, bank: nat, macroTileIndexX: nat): nat
    requires Kind(s.mode) == Macro && Addressable(s)
  {
    if BankSwapped(s.mode) then
      var bankSwapWidth := FitToPitch(BankSwapWidthBase(s.bpp, s.mode), s.pitch);
      var swapIndex := Mul(MacroTilePitch(s.mode), macroTileIndexX) / bankSwapWidth;
      Xor(bank, BankSwapOrder(swapIndex % 4))
    else bank
  }

  // -------- addresses

  function BitsToBytes(bits: nat): nat {
    (bits + 7) / 8
  }

  /** Number of a pixel of a linear surface; the slice offset is a 64-bit product. */
  function LinearIndex(s: Surface, x: nat, y: nat, slice: nat): nat {
    U64(Mul(Mul(s.pitch, s.height), slice)) + Mul(y, s.pitch) + x
  }

  function LinearAddr(s: Surface, x: nat, y: nat, slice: nat): nat {
    U64(Mul(LinearIndex(s, x, y, slice), s.bpp)) / 8
  }

  function MicroTileBytes(s: Surface): nat {
    BitsToBytes(Mul(64 * Thickness(s.mode), s.bpp))
  }

  /** Bytes of one slice (one slab of four slices when thick); `pitch * height` is a 32-bit product. */
  function SliceBytes(s: Surface): nat {
    BitsToBytes(Mul(Mul(U32(Mul(s.pitch, s.height)), Thickness(s.mode)), s.bpp))
  }

  /** Offset in bits of a pixel inside its micro tile. */
  function PixelOffset(s: Surface, x: nat, y: nat, slice: nat): nat {
    var pixelIndex := PixelIndex(s.bpp, s.mode, s.isDepth, x, y, slice);
    if s.compBits != 0 && s.compBits != s.bpp && s.isDepth then s.tileBase + Mul(s.compBits, pixelIndex)
    else Mul(s.bpp, pixelIndex)
  }

  /** Start of a micro tile inside its slab. */
  function MicroTileOffset(s: Surface, x: nat, y: nat): nat {
    Mul(MicroTileBytes(s), x / 8 + Mul(y / 8, s.pitch / 8))
  }

  /** Start of the slab that holds a slice. */
  function SlabOffset(s: Surface, slice: nat): nat {
    Mul(SliceBytes(s), Quot(slice, Thickness(s.mode)))
  }

  function MicroAddr(s: Surface, x: nat, y: nat, slice: nat): nat {
    U64(PixelOffset(s, x, y, slice) / 8 + U64(MicroTileOffset(s, x, y)) + U64(SlabOffset(s, slice)))
  }

  /** Channel number (pipe and bank) of a micro tile before swizzle and rotation. */
  function RawChannel(x: nat, y: nat): nat {
    PipeWithoutRotation(x, y) + 2 * BankWithoutRotation(x, y)
  }

  /** Swizzle and slice rotation that the channel number is combined with. */
  function ChannelKey(s: Surface, slice: nat): nat {
    var swizzle := U32(s.pipeSwizzle + 2 * s.bankSwizzle);
    var sliceIn := if Thickness(s.mode) > 1 then slice / 4 else slice;
    U64(swizzle + Mul(sliceIn, Rotation(s.mode)))
  }

  /** Channel number after swizzle and slice rotation. */
  function Channel(s: Surface, x: nat, y: nat, slice: nat): (c: nat)
    ensures c < 8
  {
    Xor(RawChannel(x, y), ChannelKey(s, slice)) % 8
  }

  function MacroTileBytes(s: Surface): nat
    requires Kind(s.mode) == Macro
  {
    BitsToBytes(Mul(Mul(Mul(Thickness(s.mode), s.bpp), MacroTileHeight(s.mode)), MacroTilePitch(s.mode)))
  }

  /** Start of a macro tile inside its slab. */
  function MacroTileOffset(s: Surface, x: nat, y: nat): nat
    requires Kind(s.mode) == Macro
  {
    Mul(MacroTileBytes(s),
        MacroColumn(s.mode, x) + Mul(MacroRow(s.mode, y), MacroColumn(s.mode, s.pitch)))
  }

  /** Start of a macro tile's share of one channel. */
  function ChannelBase(s: Surface, x: nat, y: nat, slice: nat): nat
    requires Kind(s.mode) == Macro
  {
    U64(U64(MacroTileOffset(s, x, y)) + U64(SlabOffset(s, slice))) / 8
  }

  /** Offset of a pixel inside its own channel. */
  function TotalOffset(s: Surface, x: nat, y: nat, slice: nat): nat
    requires Kind(s.mode) == Macro
  {
    PixelOffset(s, x, y, slice) / 8 + ChannelBase(s, x, y, slice)
  }

  /** Interleaves a channel number into an offset: 256-byte groups rotate over the eight channels. */
  function Interleave(total: nat, bank: nat, pipe: nat): nat {
    bank * 512 + pipe * 256 + total % 256 + total / 256 * 2048
  }

  function MacroAddr(s: Surface, x: nat, y: nat, slice: nat): nat
    requires Kind(s.mode) == Macro && Addressable(s)
  {
    var c := Channel(s, x, y, slice);
    var bank := SwappedBank(s, c / 2, MacroColumn(s.mode, x));
    U64(Interleave(TotalOffset(s, x, y, slice), bank, c % 2))
  }

  /** Column of macro tiles a pixel is in. */
  function MacroColumn(m: TileMode, x: nat): nat
    requires Kind(m) == Macro
  {
    Quot(x, MacroTilePitch(m))
  }

  /** Row of macro tiles a pixel is in. */
  function MacroRow(m: TileMode, y: nat): nat
    requires Kind(m) == Macro
  {
    Quot(y, MacroTileHeight(m))
  }

  /** Byte address of a pixel. */
  function Addr(s: Surface, x: nat, y: nat, slice: nat): nat
    requires Addressable(s)
  {
    match Kind(s.mode)
    case Linear => LinearAddr(s, x, y, slice)
    case Micro => MicroAddr(s, x, y, slice)
    case Macro => MacroAddr(s, x, y, slice)
  }
}
