/** No two pixels of a surface share a byte: every tile mode's address map is injective and in bounds. */
module TilingInjective {
  import opened Machine
  import opened Products
  import opened Tiling

  // -------- inside a micro tile

  lemma BitsRange(v: nat)
    ensures Bit0(v) <= 1 && Bit1(v) <= 1 && Bit2(v) <= 1 && Bit3(v) <= 1 && Bit4(v) <= 1 && Bit5(v) <= 1
    ensures Bit0(v) + 2 * Bit1(v) + 4 * Bit2(v) == v % 8
    ensures Bit0(v) + 2 * Bit1(v) == v % 4
  {
    var v1, v2, v3 := v / 2, v / 2 / 2, v / 2 / 2 / 2;
    assert v == 2 * v1 + v % 2 && v1 == 2 * v2 + v1 % 2 && v2 == 2 * v3 + v2 % 2;
    DivModOf(4, v2, v % 2 + 2 * (v1 % 2));
    DivModOf(8, v3, v % 2 + 2 * (v1 % 2) + 4 * (v2 % 2));
  }

  /** A word determines its bits. */
  lemma FromBitsUnique(b0: nat, b1: nat, b2: nat, b3: nat, b4: nat, b5: nat, b6: nat, b7: nat,
                       c0: nat, c1: nat, c2: nat, c3: nat, c4: nat, c5: nat, c6: nat, c7: nat)
    requires b0 <= 1 && b1 <= 1 && b2 <= 1 && b3 <= 1 && b4 <= 1 && b5 <= 1 && b6 <= 1 && b7 <= 1
    requires c0 <= 1 && c1 <= 1 && c2 <= 1 && c3 <= 1 && c4 <= 1 && c5 <= 1 && c6 <= 1 && c7 <= 1
    requires FromBits(b0, b1, b2, b3, b4, b5, b6, b7) == FromBits(c0, c1, c2, c3, c4, c5, c6, c7)
    ensures b0 == c0 && b1 == c1 && b2 == c2 && b3 == c3 && b4 == c4 && b5 == c5 && b6 == c6 && b7 == c7
  {
    var b456, c456 := b4 + 2 * b5 + 4 * b6 + 8 * b7, c4 + 2 * c5 + 4 * c6 + 8 * c7;
    DivModUnique(16, b456, b0 + 2 * b1 + 4 * b2 + 8 * b3, c456, c0 + 2 * c1 + 4 * c2 + 8 * c3);
    Nibble(b0, b1, b2, b3, c0, c1, c2, c3);
    Nibble(b4, b5, b6, b7, c4, c5, c6, c7);
  }

  lemma Nibble(b0: nat, b1: nat, b2: nat, b3: nat, c0: nat, c1: nat, c2: nat, c3: nat)
    requires b0 <= 1 && b1 <= 1 && b2 <= 1 && b3 <= 1 && c0 <= 1 && c1 <= 1 && c2 <= 1 && c3 <= 1
    requires b0 + 2 * b1 + 4 * b2 + 8 * b3 == c0 + 2 * c1 + 4 * c2 + 8 * c3
    ensures b0 == c0 && b1 == c1 && b2 == c2 && b3 == c3
  {
    DivModUnique(4, b2 + 2 * b3, b0 + 2 * b1, c2 + 2 * c3, c0 + 2 * c1);
  }

  /** Layer of a pixel inside a thick micro tile. */
  function Layer(m: TileMode, z: nat): nat {
    if Thickness(m) > 1 then z % 4 else 0
  }

  lemma PixelIndexBits(bpp: nat, m: TileMode, isDepth: bool, x: nat, y: nat, z: nat)
    ensures var p := PlaneBits(bpp, isDepth, x, y);
            PixelIndex(bpp, m, isDepth, x, y, z)
            == FromBits(p[0], p[1], p[2], p[3], p[4], p[5], Layer(m, z) % 2, Layer(m, z) / 2)
    ensures Layer(m, z) == z % Thickness(m)
  {
    LayerBits(z);
  }

  lemma LayerBits(z: nat)
    ensures Bit0(z) == z % 4 % 2 && Bit1(z) == z % 4 / 2 && z % 4 / 2 <= 1
  {
    BitsRange(z);
    DivModOf(2, Bit1(z), Bit0(z));
  }

  lemma PlaneBitsUnique(bpp: nat, isDepth: bool, x: nat, y: nat, x': nat, y': nat)
    requires SamePlane(PlaneBits(bpp, isDepth, x, y), PlaneBits(bpp, isDepth, x', y'))
    ensures x % 8 == x' % 8 && y % 8 == y' % 8
  {
    BitsRange(x); BitsRange(y); BitsRange(x'); BitsRange(y');
  }

  /** Pixels of one micro tile have distinct indices. */
  lemma PixelIndexInjective(bpp: nat, m: TileMode, isDepth: bool,
                            x: nat, y: nat, z: nat, x': nat, y': nat, z': nat)
    requires PixelIndex(bpp, m, isDepth, x, y, z) == PixelIndex(bpp, m, isDepth, x', y', z')
    ensures x % 8 == x' % 8 && y % 8 == y' % 8 && z % Thickness(m) == z' % Thickness(m)
  {
    hide FromBits, PlaneBits, PixelIndex;
    PixelIndexBits(bpp, m, isDepth, x, y, z);
    PixelIndexBits(bpp, m, isDepth, x', y', z');
    PlaneBitsRange(bpp, isDepth, x, y);
    PlaneBitsRange(bpp, isDepth, x', y');
    var t, t' := Layer(m, z), Layer(m, z');
    assert t < 4 && t' < 4;
    IndexParts(PlaneBits(bpp, isDepth, x, y), t % 2, t / 2, PlaneBits(bpp, isDepth, x', y'), t' % 2, t' / 2);
    DivModWhole(t, t', 2);
    PlaneBitsUnique(bpp, isDepth, x, y, x', y');
  }

  predicate SixBits(p: seq<nat>) {
    |p| == 6 && p[0] <= 1 && p[1] <= 1 && p[2] <= 1 && p[3] <= 1 && p[4] <= 1 && p[5] <= 1
  }

  predicate SamePlane(p: seq<nat>, q: seq<nat>)
    requires |p| == |q| == 6
  {
    p[0] == q[0] && p[1] == q[1] && p[2] == q[2] && p[3] == q[3] && p[4] == q[4] && p[5] == q[5]
  }

  lemma IndexParts(p: seq<nat>, t0: nat, t1: nat, q: seq<nat>, u0: nat, u1: nat)
    requires SixBits(p) && SixBits(q) && t0 <= 1 && t1 <= 1 && u0 <= 1 && u1 <= 1
    requires FromBits(p[0], p[1], p[2], p[3], p[4], p[5], t0, t1) == FromBits(q[0], q[1], q[2], q[3], q[4], q[5], u0, u1)
    ensures SamePlane(p, q) && t0 == u0 && t1 == u1
  {
    FromBitsUnique(p[0], p[1], p[2], p[3], p[4], p[5], t0, t1, q[0], q[1], q[2], q[3], q[4], q[5], u0, u1);
  }

  lemma PlaneBitsRange(bpp: nat, isDepth: bool, x: nat, y: nat)
    ensures SixBits(PlaneBits(bpp, isDepth, x, y))
  {
    BitsRange(x); BitsRange(y);
  }

  lemma PixelIndexBound(bpp: nat, m: TileMode, isDepth: bool, x: nat, y: nat, z: nat)
    ensures PixelIndex(bpp, m, isDepth, x, y, z) < 64 * Thickness(m)
  {
    hide PlaneBits, PixelIndex;
    PixelIndexBits(bpp, m, isDepth, x, y, z);
    PlaneBitsRange(bpp, isDepth, x, y);
  }

  // -------- surfaces

  function PixelBytes(s: Surface): nat {
    s.bpp / 8
  }

  /** Slices are stored in slabs of `Thickness` slices. */
  function Slabs(s: Surface): nat {
    Quot(s.numSlices + Thickness(s.mode) - 1, Thickness(s.mode))
  }

  /** Size of the pixels of a surface, without padding. */
  function PixelBufferBytes(s: Surface): nat {
    Mul(Mul(Mul(s.pitch, s.height), Mul(Slabs(s), Thickness(s.mode))), PixelBytes(s))
  }

  /** Bytes a surface's buffer must have; macro tiles round up to a whole stripe of channel groups. */
  function BufferBytes(s: Surface): nat {
    var size := PixelBufferBytes(s);
    if Kind(s.mode) == Macro then (size + 2047) / 2048 * 2048 else size
  }

  /** n is a multiple of the tile dimension q. */
  predicate WholeTiles(n: nat, q: nat)
    requires TileDim(q)
  {
    n == Mul(q, Quot(n, q))
  }

  predicate Aligned(s: Surface) {
    match Kind(s.mode)
    case Linear => true
    case Micro => WholeTiles(s.pitch, 8) && WholeTiles(s.height, 8)
    case Macro => WholeTiles(s.pitch, MacroTilePitch(s.mode)) && WholeTiles(s.height, MacroTileHeight(s.mode))
  }

  /** Uncompressed pixels. */
  predicate PlainPixels(s: Surface) {
    && ValidBpp(s.bpp)
    && (s.compBits == 0 || s.compBits == s.bpp || !s.isDepth)
  }

  lemma PixelSize(s: Surface)
    requires PlainPixels(s)
    ensures s.bpp == 8 * PixelBytes(s)
    ensures PixelBytes(s) in {1, 2, 4, 8, 12, 16}
  {
  }

  /** Surfaces the address map can be asked about: uncompressed, aligned to their tiles, addresses below 2^64. */
  predicate Shaped(s: Surface) {
    && PlainPixels(s)
    && s.pitch > 0 && s.height > 0
    && Aligned(s) && Addressable(s)
    && BufferBytes(s) * 8 < TWO64
  }

  /** The 32-bit slice size does not wrap, or is never used. */
  predicate NoWrap(s: Surface) {
    Kind(s.mode) == Linear || s.numSlices <= Thickness(s.mode) || Mul(s.pitch, s.height) < TWO32
  }

  /** No pixel straddles a 256-byte group of a channel. */
  predicate WholeGroups(s: Surface) {
    Kind(s.mode) != Macro || s.bpp != 96
  }

  /** Surfaces whose pixels do not overlap. */
  predicate WellFormed(s: Surface) {
    Shaped(s) && NoWrap(s) && WholeGroups(s)
  }

  predicate InSurface(s: Surface, x: nat, y: nat, slice: nat) {
    x < s.pitch && y < s.height && slice < s.numSlices
  }

  // -------- tile offsets

  /** Bytes of one micro tile. */
  function TileBytes(s: Surface): nat {
    Mul(64 * Thickness(s.mode), PixelBytes(s))
  }

  /** A slice number lies in the slab its quotient names. */
  lemma SlabBound(s: Surface, slice: nat)
    requires slice < s.numSlices
    ensures Quot(slice, Thickness(s.mode)) < Slabs(s)
  {
  }

  /** Only the slices past the first slab use the slice size. */
  lemma LaterSlab(s: Surface, slice: nat)
    requires NoWrap(s) && Kind(s.mode) != Linear && slice < s.numSlices
    ensures Quot(slice, Thickness(s.mode)) == 0 || Mul(s.pitch, s.height) < TWO32
  {
  }

  lemma PixelOffsetForm(s: Surface, x: nat, y: nat, slice: nat)
    requires PlainPixels(s)
    ensures PixelOffset(s, x, y, slice) / 8 == Mul(PixelBytes(s), PixelIndex(s.bpp, s.mode, s.isDepth, x, y, slice))
    ensures PixelOffset(s, x, y, slice) / 8 + PixelBytes(s) <= TileBytes(s)
  {
    hide PixelIndex, Mul;
    PixelSize(s);
    PixelIndexBound(s.bpp, s.mode, s.isDepth, x, y, slice);
    PixelOffsetArith(PixelBytes(s), PixelIndex(s.bpp, s.mode, s.isDepth, x, y, slice), 64 * Thickness(s.mode));
  }

  lemma PixelOffsetArith(pb: nat, i: nat, pixels: nat)
    requires i < pixels
    ensures Mul(8 * pb, i) / 8 == Mul(pb, i)
    ensures Mul(pb, i) + pb <= Mul(pixels, pb)
  {
    MulEight(pb, i);
    MulBelow(pb, i, pixels);
    MulFlip(pb, pixels);
  }

  lemma BytesOfBits(n: nat, pb: nat)
    ensures BitsToBytes(Mul(n, 8 * pb)) == Mul(n, pb)
  {
    MulEight(n, pb);
  }

  lemma MicroTileBytesForm(s: Surface)
    requires PlainPixels(s)
    ensures MicroTileBytes(s) == TileBytes(s)
  {
    PixelSize(s);
    BytesOfBits(64 * Thickness(s.mode), PixelBytes(s));
  }

  /** Bytes of one tile of q by r pixels. */
  function BlockBytes(s: Surface, q: nat, r: nat): nat {
    Mul(Mul(Mul(q, r), Thickness(s.mode)), PixelBytes(s))
  }

  /** A surface cut into `cols` by `rows` tiles of q by r pixels. */
  predicate Cut(s: Surface, q: nat, r: nat, cols: nat, rows: nat) {
    s.pitch == Mul(q, cols) && s.height == Mul(r, rows)
  }

  lemma SliceBytesForm(s: Surface, q: nat, r: nat, cols: nat, rows: nat)
    requires PlainPixels(s) && Mul(s.pitch, s.height) < TWO32 && Cut(s, q, r, cols, rows)
    ensures SliceBytes(s) == Mul(BlockBytes(s, q, r), Mul(cols, rows))
  {
    hide Mul;
    PixelSize(s);
    U32Id(Mul(s.pitch, s.height));
    BytesOfBits(Mul(Mul(s.pitch, s.height), Thickness(s.mode)), PixelBytes(s));
    LayerBytes(q, r, Thickness(s.mode), PixelBytes(s), cols, rows);
  }

  lemma PixelBufferForm(s: Surface, q: nat, r: nat, cols: nat, rows: nat)
    requires Cut(s, q, r, cols, rows)
    ensures PixelBufferBytes(s) == Mul(BlockBytes(s, q, r), Mul(cols, Mul(rows, Slabs(s))))
  {
    BoxBytes(q, r, Thickness(s.mode), PixelBytes(s), cols, rows, Slabs(s));
  }

  /** Tile offset and slab offset add up to the offset of the tile's number, which is inside the buffer. */
  lemma TileStart(s: Surface, q: nat, r: nat, cols: nat, rows: nat, i: nat, j: nat, k: nat, unit: nat)
    requires PlainPixels(s) && (k == 0 || Mul(s.pitch, s.height) < TWO32) && Cut(s, q, r, cols, rows)
    requires unit == BlockBytes(s, q, r) && i < cols && j < rows && k < Slabs(s)
    ensures Mul(unit, i + Mul(j, cols)) + Mul(SliceBytes(s), k) == Mul(unit, Grid(cols, rows, i, j, k))
    ensures Mul(unit, Grid(cols, rows, i, j, k)) + unit <= PixelBufferBytes(s)
  {
    hide Mul, Grid, SliceBytes, PixelBufferBytes, BlockBytes, Cut, PlainPixels;
    if k == 0 {
      MulOne(SliceBytes(s));
      MulOne(Mul(unit, Mul(cols, rows)));
    } else {
      SliceBytesForm(s, q, r, cols, rows);
    }
    PixelBufferForm(s, q, r, cols, rows);
    GridOffset(unit, cols, rows, i, j, k);
    GridBound(cols, rows, Slabs(s), i, j, k);
    MulBelow(unit, Grid(cols, rows, i, j, k), Mul(cols, Mul(rows, Slabs(s))));
  }

  // -------- micro tiling

  /** Number of a pixel's micro tile. */
  function MicroTileNumber(s: Surface, x: nat, y: nat, slice: nat): nat {
    Grid(Quot(s.pitch, 8), Quot(s.height, 8), x / 8, y / 8, Quot(slice, Thickness(s.mode)))
  }

  /** Number of a pixel in a micro-tiled surface, counted in storage order. */
  function MicroSlot(s: Surface, x: nat, y: nat, slice: nat): nat {
    PixelIndex(s.bpp, s.mode, s.isDepth, x, y, slice) + Mul(64 * Thickness(s.mode), MicroTileNumber(s, x, y, slice))
  }

  lemma MicroBlock(s: Surface)
    ensures BlockBytes(s, 8, 8) == TileBytes(s)
  {
    MulIs(8, 8);
    MulIs(64, Thickness(s.mode));
  }

  /** Tile offset and slab offset of a micro tile add up to its number in the grid. */
  lemma MicroTileStart(s: Surface, x: nat, y: nat, slice: nat)
    requires Shaped(s) && NoWrap(s) && Kind(s.mode) == Micro && InSurface(s, x, y, slice)
    ensures MicroTileOffset(s, x, y) + SlabOffset(s, slice) == Mul(TileBytes(s), MicroTileNumber(s, x, y, slice))
    ensures Mul(TileBytes(s), MicroTileNumber(s, x, y, slice)) + TileBytes(s) <= BufferBytes(s)
  {
    hide Mul, Grid, TileBytes, SliceBytes, PixelBufferBytes, BlockBytes, MicroTileBytes, Slabs, Thickness;
    QuotLess(x, s.pitch, 8);
    QuotLess(y, s.height, 8);
    SlabBound(s, slice);
    LaterSlab(s, slice);
    MicroBlock(s);
    MicroTileBytesForm(s);
    TileStart(s, 8, 8, Quot(s.pitch, 8), Quot(s.height, 8), x / 8, y / 8, Quot(slice, Thickness(s.mode)), TileBytes(s));
  }

  /** A tile offset plus a pixel offset is the offset of the pixel's slot. */
  lemma SlotOffset(pb: nat, i: nat, pixels: nat, g: nat)
    ensures Mul(pb, i) + Mul(Mul(pixels, pb), g) == Mul(pb, i + Mul(pixels, g))
  {
    MulPlus(pb, i, Mul(pixels, g));
    MulTimes(pb, pixels, g);
    MulFlip(pb, pixels);
  }

  lemma MicroAddrForm(s: Surface, x: nat, y: nat, slice: nat)
    requires Shaped(s) && NoWrap(s) && Kind(s.mode) == Micro && InSurface(s, x, y, slice)
    ensures MicroAddr(s, x, y, slice) == Mul(PixelBytes(s), MicroSlot(s, x, y, slice))
    ensures MicroAddr(s, x, y, slice) + PixelBytes(s) <= BufferBytes(s)
  {
    hide Mul, PixelIndex, PixelOffset, MicroTileOffset, SlabOffset, MicroTileNumber, BufferBytes, Aligned, PixelBytes, InSurface;
    MicroTileStart(s, x, y, slice);
    PixelOffsetForm(s, x, y, slice);
    U64Id(MicroTileOffset(s, x, y));
    U64Id(SlabOffset(s, slice));
    U64Id(PixelOffset(s, x, y, slice) / 8 + MicroTileOffset(s, x, y) + SlabOffset(s, slice));
    SlotOffset(PixelBytes(s), PixelIndex(s.bpp, s.mode, s.isDepth, x, y, slice),
               64 * Thickness(s.mode), MicroTileNumber(s, x, y, slice));
  }

  lemma MicroTileUnique(s: Surface, x: nat, y: nat, slice: nat, x': nat, y': nat, slice': nat)
    requires Kind(s.mode) == Micro && Aligned(s)
    requires InSurface(s, x, y, slice) && InSurface(s, x', y', slice')
    requires MicroTileNumber(s, x, y, slice) == MicroTileNumber(s, x', y', slice')
    ensures x / 8 == x' / 8 && y / 8 == y' / 8 && Quot(slice, Thickness(s.mode)) == Quot(slice', Thickness(s.mode))
  {
    hide Mul, Grid;
    var th := Thickness(s.mode);
    QuotLess(x, s.pitch, 8); QuotLess(y, s.height, 8);
    QuotLess(x', s.pitch, 8); QuotLess(y', s.height, 8);
    GridUnique(Quot(s.pitch, 8), Quot(s.height, 8), x / 8, y / 8, Quot(slice, th), x' / 8, y' / 8, Quot(slice', th));
  }

  lemma MicroSlotInjective(s: Surface, x: nat, y: nat, slice: nat, x': nat, y': nat, slice': nat)
    requires Kind(s.mode) == Micro && Aligned(s)
    requires InSurface(s, x, y, slice) && InSurface(s, x', y', slice')
    requires MicroSlot(s, x, y, slice) == MicroSlot(s, x', y', slice')
    ensures x == x' && y == y' && slice == slice'
  {
    hide Mul, PixelIndex, MicroTileNumber, Aligned, InSurface;
    PixelIndexBound(s.bpp, s.mode, s.isDepth, x, y, slice);
    PixelIndexBound(s.bpp, s.mode, s.isDepth, x', y', slice');
    MulUnique(64 * Thickness(s.mode),
              MicroTileNumber(s, x, y, slice), PixelIndex(s.bpp, s.mode, s.isDepth, x, y, slice),
              MicroTileNumber(s, x', y', slice'), PixelIndex(s.bpp, s.mode, s.isDepth, x', y', slice'));
    PixelIndexInjective(s.bpp, s.mode, s.isDepth, x, y, slice, x', y', slice');
    MicroTileUnique(s, x, y, slice, x', y', slice');
    DivModWhole(x, x', 8);
    DivModWhole(y, y', 8);
    QuotWhole(slice, slice', Thickness(s.mode));
  }

  // -------- macro tiling

  /** Number of a pixel's macro tile. */
  function MacroTileNumber(s: Surface, x: nat, y: nat, slice: nat): nat
    requires Kind(s.mode) == Macro
  {
    Grid(MacroColumn(s.mode, s.pitch), MacroRow(s.mode, s.height),
         MacroColumn(s.mode, x), MacroRow(s.mode, y), Quot(slice, Thickness(s.mode)))
  }

  /** Number of a pixel among the pixels of its channel. */
  function ChannelSlot(s: Surface, x: nat, y: nat, slice: nat): nat
    requires Kind(s.mode) == Macro
  {
    PixelIndex(s.bpp, s.mode, s.isDepth, x, y, slice) + Mul(64 * Thickness(s.mode), MacroTileNumber(s, x, y, slice))
  }

  /** A macro tile is 512 pixels, whatever its aspect ratio: one micro tile of each channel. */
  lemma MacroTileArea(m: TileMode)
    requires Kind(m) == Macro
    ensures Mul(MacroTilePitch(m), MacroTileHeight(m)) == 512
  {
    MulIs(MacroTilePitch(m), MacroTileHeight(m));
    assert AspectRatio(m) == 1 || AspectRatio(m) == 2 || AspectRatio(m) == 4;
  }

  lemma EightTiles(th: nat, pb: nat)
    ensures Mul(Mul(512, th), pb) == 8 * Mul(64 * th, pb)
  {
    MulIs(512, th);
    MulEight(64 * th, pb);
  }

  lemma MacroBlock(s: Surface)
    requires Kind(s.mode) == Macro
    ensures BlockBytes(s, MacroTilePitch(s.mode), MacroTileHeight(s.mode)) == 8 * TileBytes(s)
  {
    MacroTileArea(s.mode);
    EightTiles(Thickness(s.mode), PixelBytes(s));
  }

  lemma MacroTileBytesForm(s: Surface)
    requires PlainPixels(s) && Kind(s.mode) == Macro
    ensures MacroTileBytes(s) == 8 * TileBytes(s)
  {
    hide Mul;
    PixelSize(s);
    MacroBytesArith(Thickness(s.mode), PixelBytes(s), MacroTileHeight(s.mode), MacroTilePitch(s.mode)) by { MacroTileArea(s.mode); }
  }

  lemma MacroBytesArith(th: nat, pb: nat, h: nat, p: nat)
    requires Mul(p, h) == 512
    ensures BitsToBytes(Mul(Mul(Mul(th, 8 * pb), h), p)) == 8 * Mul(64 * th, pb)
  {
    calc {
      Mul(Mul(Mul(th, 8 * pb), h), p);
      { MulTimes(Mul(th, 8 * pb), h, p); MulFlip(h, p); }
      Mul(Mul(th, 8 * pb), 512);
      { MulFlip(Mul(th, 8 * pb), 512); MulTimes(512, th, 8 * pb); }
      Mul(Mul(512, th), 8 * pb);
    }
    BytesOfBits(Mul(512, th), pb);
    EightTiles(th, pb);
  }

  lemma MacroTileStart(s: Surface, x: nat, y: nat, slice: nat)
    requires Shaped(s) && NoWrap(s) && Kind(s.mode) == Macro && InSurface(s, x, y, slice)
    ensures MacroTileOffset(s, x, y) + SlabOffset(s, slice) == 8 * Mul(TileBytes(s), MacroTileNumber(s, x, y, slice))
    ensures 8 * Mul(TileBytes(s), MacroTileNumber(s, x, y, slice)) + 8 * TileBytes(s) <= PixelBufferBytes(s)
  {
    hide Mul, Quot, Grid, TileBytes, SliceBytes, PixelBufferBytes, BlockBytes, MacroTileBytes, Slabs, Thickness, MacroTilePitch, MacroTileHeight;
    var q, r := MacroTilePitch(s.mode), MacroTileHeight(s.mode);
    QuotLess(x, s.pitch, q);
    QuotLess(y, s.height, r);
    SlabBound(s, slice);
    LaterSlab(s, slice);
    MacroBlock(s);
    MacroTileBytesForm(s);
    TileStart(s, q, r, MacroColumn(s.mode, s.pitch), MacroRow(s.mode, s.height),
              MacroColumn(s.mode, x), MacroRow(s.mode, y), Quot(slice, Thickness(s.mode)), 8 * TileBytes(s));
    MulEight(TileBytes(s), MacroTileNumber(s, x, y, slice));
  }

  lemma TotalOffsetForm(s: Surface, x: nat, y: nat, slice: nat)
    requires Shaped(s) && NoWrap(s) && Kind(s.mode) == Macro && InSurface(s, x, y, slice)
    ensures TotalOffset(s, x, y, slice) == Mul(PixelBytes(s), ChannelSlot(s, x, y, slice))
    ensures 8 * TotalOffset(s, x, y, slice) + 8 * PixelBytes(s) <= PixelBufferBytes(s)
  {
    hide Mul, PixelIndex, PixelOffset, MacroTileOffset, SlabOffset, MacroTileNumber, PixelBufferBytes, Aligned, PixelBytes, InSurface;
    MacroTileStart(s, x, y, slice);
    PixelOffsetForm(s, x, y, slice);
    U64Id(MacroTileOffset(s, x, y));
    U64Id(SlabOffset(s, slice));
    U64Id(MacroTileOffset(s, x, y) + SlabOffset(s, slice));
    SlotOffset(PixelBytes(s), PixelIndex(s.bpp, s.mode, s.isDepth, x, y, slice),
               64 * Thickness(s.mode), MacroTileNumber(s, x, y, slice));
  }

  /** Interleaving keeps the offset and the channel apart, and aligned pixels inside one group. */
  lemma InterleaveUnique(t: nat, bank: nat, pipe: nat, t': nat, bank': nat, pipe': nat)
    requires bank < 4 && pipe < 2 && bank' < 4 && pipe' < 2
    requires Interleave(t, bank, pipe) == Interleave(t', bank', pipe')
    ensures t == t' && bank == bank' && pipe == pipe'
  {
    var low, low' := t % 256, t' % 256;
    DivModUnique(2048, t / 256, 256 * (2 * bank + pipe) + low, t' / 256, 256 * (2 * bank' + pipe') + low');
    DivModUnique(256, 2 * bank + pipe, low, 2 * bank' + pipe', low');
    DivModUnique(2, bank, pipe, bank', pipe');
  }

  lemma InterleaveInBuffer(t: nat, bank: nat, pipe: nat, size: nat)
    requires bank < 4 && pipe < 2 && 8 * t < size
    ensures Interleave(t, bank, pipe) < (size + 2047) / 2048 * 2048
  {
    StripeBound(t / 256, size);
  }

  lemma InterleaveBound(t: nat, bank: nat, pipe: nat, pb: nat, size: nat)
    requires bank < 4 && pipe < 2 && pb in {1, 2, 4, 8, 16} && t % pb == 0
    requires 8 * t + 8 * pb <= size
    ensures Interleave(t, bank, pipe) % pb == 0
    ensures Interleave(t, bank, pipe) + pb <= (size + 2047) / 2048 * 2048
  {
    var g, low := t / 256, t % 256;
    assert t == 256 * g + low;
    GroupAligned(g, low, pb);
    assert Interleave(t, bank, pipe) == 256 * (8 * g + 2 * bank + pipe) + low;
    GroupAligned(8 * g + 2 * bank + pipe, low, pb);
    StripeBound(g, size);
  }

  /** A multiple of the pixel size does not straddle a 256-byte group. */
  lemma GroupAligned(g: nat, low: nat, pb: nat)
    requires pb in {1, 2, 4, 8, 16} && low < 256
    ensures (256 * g + low) % pb == 0 <==> low % pb == 0
    ensures low % pb == 0 ==> low + pb <= 256
  {
    if pb == 1 {
      DivModOf(1, 256 * g + low, 0);
    } else if pb == 2 {
      DivModOf(2, 128 * g + low / 2, low % 2);
    } else if pb == 4 {
      DivModOf(4, 64 * g + low / 4, low % 4);
    } else if pb == 8 {
      DivModOf(8, 32 * g + low / 8, low % 8);
    } else {
      DivModOf(16, 16 * g + low / 16, low % 16);
    }
  }

  lemma StripeBound(g: nat, size: nat)
    requires 2048 * g < size
    ensures 2048 * g + 2048 <= (size + 2047) / 2048 * 2048
  {
  }

  /** Bank and pipe, as MacroAddr splits them. */
  function FinalBank(s: Surface, x: nat, y: nat, slice: nat): nat
    requires Kind(s.mode) == Macro && Addressable(s)
  {
    SwappedBank(s, Channel(s, x, y, slice) / 2, MacroColumn(s.mode, x))
  }

  lemma FinalBankRange(s: Surface, x: nat, y: nat, slice: nat)
    requires Kind(s.mode) == Macro && Addressable(s)
    ensures FinalBank(s, x, y, slice) < 4
  {
    var bank := Channel(s, x, y, slice) / 2;
    forall m: nat | m < 4 ensures Xor(bank, m) < 4 { Xor2Range(bank, m); }
  }

  lemma MacroAddrForm(s: Surface, x: nat, y: nat, slice: nat)
    requires Shaped(s) && NoWrap(s) && Kind(s.mode) == Macro && InSurface(s, x, y, slice)
    ensures MacroAddr(s, x, y, slice)
            == Interleave(TotalOffset(s, x, y, slice), FinalBank(s, x, y, slice), Channel(s, x, y, slice) % 2)
    ensures TotalOffset(s, x, y, slice) == Mul(PixelBytes(s), ChannelSlot(s, x, y, slice))
    ensures 8 * TotalOffset(s, x, y, slice) + 8 * PixelBytes(s) <= PixelBufferBytes(s)
  {
    hide Mul, ChannelSlot, TotalOffset, Channel, SwappedBank, MacroColumn, Aligned, PixelBufferBytes, InSurface, Interleave, PixelBytes;
    PixelSize(s);
    TotalOffsetForm(s, x, y, slice);
    FinalBankRange(s, x, y, slice);
    InterleaveInBuffer(TotalOffset(s, x, y, slice), FinalBank(s, x, y, slice), Channel(s, x, y, slice) % 2, PixelBufferBytes(s));
    U64Id(Interleave(TotalOffset(s, x, y, slice), FinalBank(s, x, y, slice), Channel(s, x, y, slice) % 2));
  }

  lemma MacroAddrBounds(s: Surface, x: nat, y: nat, slice: nat)
    requires WellFormed(s) && Kind(s.mode) == Macro && InSurface(s, x, y, slice)
    ensures MacroAddr(s, x, y, slice) % PixelBytes(s) == 0
    ensures MacroAddr(s, x, y, slice) + PixelBytes(s) <= BufferBytes(s)
  {
    hide Mul, MacroAddr, ChannelSlot, TotalOffset, Channel, SwappedBank, MacroColumn, Aligned, PixelBufferBytes, InSurface, Interleave;
    MacroAddrForm(s, x, y, slice);
    FinalBankRange(s, x, y, slice);
    MulMod(PixelBytes(s), ChannelSlot(s, x, y, slice));
    InterleaveBound(TotalOffset(s, x, y, slice), FinalBank(s, x, y, slice), Channel(s, x, y, slice) % 2,
                    PixelBytes(s), PixelBufferBytes(s));
  }

  // -------- the channel map

  lemma XorBit(a: nat, b: nat)
    requires a <= 1 && b <= 1
    ensures Xor(a, b) == if a == b then 0 else 1
  {
    XorStep(a, b);
  }

  /** The bank bits come from the same bits of y, two positions up. */
  lemma HalfBits(y: nat)
    ensures Bit4(y / 2) == Bit5(y) && Bit3(y / 2) == Bit4(y)
  {
    assert y / 2 / 16 == y / 32 && y / 2 / 8 == y / 16;
  }

  /** Pipe and bank are exclusive ors of single coordinate bits. */
  lemma RawChannelForm(x: nat, y: nat)
    ensures PipeWithoutRotation(x, y) == (if Bit3(y) == Bit3(x) then 0 else 1)
    ensures BankWithoutRotation(x, y)
            == (if Bit5(y) == Bit3(x) then 0 else 1) + 2 * (if Bit4(y) == Bit4(x) then 0 else 1)
    ensures RawChannel(x, y) < 8
  {
    hide Xor, Bit3, Bit4, Bit5;
    BitRange(x);
    BitRange(y);
    HalfBits(y);
    XorBit(Bit3(y), Bit3(x));
    XorBit(Bit5(y), Bit3(x));
    XorBit(Bit4(y), Bit4(x));
  }

  /** Inside one macro tile the raw channel determines the micro tile, for every aspect ratio. */
  lemma RawChannelUnique(m: TileMode, x: nat, y: nat, x': nat, y': nat)
    requires Kind(m) == Macro
    requires MacroColumn(m, x) == MacroColumn(m, x') && MacroRow(m, y) == MacroRow(m, y')
    requires RawChannel(x, y) == RawChannel(x', y')
    ensures x / 8 == x' / 8 && y / 8 == y' / 8
  {
    RawChannelBits(x, y, x', y');
    if AspectRatio(m) == 1 {
      Wide(x, y, x', y');
    } else if AspectRatio(m) == 2 {
      Square(x, y, x', y');
    } else {
      Tall(x, y, x', y');
    }
  }

  /** The exclusive ors that make up a channel number agree. */
  predicate SameXors(x: nat, y: nat, x': nat, y': nat) {
    && ((Bit3(y) == Bit3(x)) == (Bit3(y') == Bit3(x')))
    && ((Bit5(y) == Bit3(x)) == (Bit5(y') == Bit3(x')))
    && ((Bit4(y) == Bit4(x)) == (Bit4(y') == Bit4(x')))
  }

  lemma Wide(x: nat, y: nat, x': nat, y': nat)
    requires SameXors(x, y, x', y') && x / 32 == x' / 32 && y / 16 == y' / 16
    ensures x / 8 == x' / 8 && y / 8 == y' / 8
  {
    assert Bit5(y) == Bit5(y') by { Coarser(y, 16); Coarser(y', 16); }
    BitRange(x); BitRange(x'); BitRange(y); BitRange(y');
    Halve(x, x', 16);
    Halve(x, x', 8);
    Halve(y, y', 8);
  }

  lemma Square(x: nat, y: nat, x': nat, y': nat)
    requires SameXors(x, y, x', y') && x / 16 == x' / 16 && y / 32 == y' / 32
    ensures x / 8 == x' / 8 && y / 8 == y' / 8
  {
    BitRange(x); BitRange(x'); BitRange(y); BitRange(y');
    Halve(x, x', 8);
    Halve(y, y', 16);
    Halve(y, y', 8);
  }

  lemma Tall(x: nat, y: nat, x': nat, y': nat)
    requires SameXors(x, y, x', y') && x / 8 == x' / 8 && y / 64 == y' / 64
    ensures x / 8 == x' / 8 && y / 8 == y' / 8
  {
    assert Bit4(x) == Bit4(x') by { Coarser(x, 8); Coarser(x', 8); }
    BitRange(x); BitRange(x'); BitRange(y); BitRange(y');
    Halve(y, y', 32);
    Halve(y, y', 16);
    Halve(y, y', 8);
  }

  lemma BitRange(v: nat)
    ensures Bit3(v) <= 1 && Bit4(v) <= 1 && Bit5(v) <= 1
  {
  }

  lemma Coarser(v: nat, q: nat)
    requires q in {8, 16}
    ensures v / (2 * q) == v / q / 2
  {
  }

  /** Equal coarse coordinates and an equal next bit give equal finer coordinates. */
  lemma Halve(v: nat, v': nat, q: nat)
    requires q in {8, 16, 32} && v / (2 * q) == v' / (2 * q) && v / q % 2 == v' / q % 2
    ensures v / q == v' / q
  {
    HalveOne(v, q);
    HalveOne(v', q);
  }

  lemma HalveOne(v: nat, q: nat)
    requires q in {8, 16, 32}
    ensures v / q == 2 * (v / (2 * q)) + v / q % 2
  {
    var w := v / q;
    assert v == (2 * q) * (w / 2) + (q * (w % 2) + v % q);
    DivModOf(2 * q, w / 2, q * (w % 2) + v % q);
  }

  /** Equal channels agree on the exclusive ors they are made of. */
  lemma RawChannelBits(x: nat, y: nat, x': nat, y': nat)
    requires RawChannel(x, y) == RawChannel(x', y')
    ensures SameXors(x, y, x', y')
  {
    hide Bit3, Bit4, Bit5, PipeWithoutRotation, BankWithoutRotation;
    RawChannelForm(x, y);
    RawChannelForm(x', y');
    DivModUnique(2, BankWithoutRotation(x, y), PipeWithoutRotation(x, y), BankWithoutRotation(x', y'), PipeWithoutRotation(x', y'));
  }

  /** Swizzle, slice rotation and bank swap permute the channels of a macro tile. */
  lemma FinalChannelUnique(s: Surface, x: nat, y: nat, slice: nat, x': nat, y': nat, slice': nat)
    requires Kind(s.mode) == Macro && Addressable(s)
    requires MacroColumn(s.mode, x) == MacroColumn(s.mode, x')
    requires Quot(slice, Thickness(s.mode)) == Quot(slice', Thickness(s.mode))
    requires FinalBank(s, x, y, slice) == FinalBank(s, x', y', slice')
    requires Channel(s, x, y, slice) % 2 == Channel(s, x', y', slice') % 2
    ensures RawChannel(x, y) == RawChannel(x', y')
  {
    ChannelUnique(s, Channel(s, x, y, slice), Channel(s, x', y', slice'), MacroColumn(s.mode, x));
    KeyOfSlab(s, slice, slice');
    RawFromChannel(s, x, y, x', y', slice, slice');
  }

  lemma RawFromChannel(s: Surface, x: nat, y: nat, x': nat, y': nat, slice: nat, slice': nat)
    requires Channel(s, x, y, slice) == Channel(s, x', y', slice') && ChannelKey(s, slice) == ChannelKey(s, slice')
    ensures RawChannel(x, y) == RawChannel(x', y')
  {
    RawChannelForm(x, y);
    RawChannelForm(x', y');
    RotationUnique(RawChannel(x, y), RawChannel(x', y'), ChannelKey(s, slice));
  }

  lemma ChannelUnique(s: Surface, c: nat, c': nat, macroTileIndexX: nat)
    requires Kind(s.mode) == Macro && Addressable(s) && c < 8 && c' < 8
    requires SwappedBank(s, c / 2, macroTileIndexX) == SwappedBank(s, c' / 2, macroTileIndexX)
    requires c % 2 == c' % 2
    ensures c == c'
  {
    SwapUnique(s, c / 2, c' / 2, macroTileIndexX);
    DivModWhole(c, c', 2);
  }

  /** The slices of one slab share their swizzle and rotation. */
  lemma KeyOfSlab(s: Surface, slice: nat, slice': nat)
    requires Quot(slice, Thickness(s.mode)) == Quot(slice', Thickness(s.mode))
    ensures ChannelKey(s, slice) == ChannelKey(s, slice')
  {
    if Thickness(s.mode) == 1 {
      assert slice / 1 == slice && slice' / 1 == slice';
    }
  }

  lemma RotationUnique(c: nat, c': nat, key: nat)
    requires c < 8 && c' < 8 && Xor(c, key) % 8 == Xor(c', key) % 8
    ensures c == c'
  {
    XorLow3(c, key);
    XorLow3(c', key);
    Xor3Injective(c, c', key % 8);
  }

  lemma SwapUnique(s: Surface, bank: nat, bank': nat, macroTileIndexX: nat)
    requires Kind(s.mode) == Macro && Addressable(s)
    requires bank < 4 && bank' < 4
    requires SwappedBank(s, bank, macroTileIndexX) == SwappedBank(s, bank', macroTileIndexX)
    ensures bank == bank'
  {
    if BankSwapped(s.mode) {
      var w := FitToPitch(BankSwapWidthBase(s.bpp, s.mode), s.pitch);
      var order := BankSwapOrder(Mul(MacroTilePitch(s.mode), macroTileIndexX) / w % 4);
      Xor3Injective(bank, bank', order);
    }
  }

  lemma ChannelSlotUnique(s: Surface, x: nat, y: nat, slice: nat, x': nat, y': nat, slice': nat)
    requires Kind(s.mode) == Macro && Aligned(s)
    requires InSurface(s, x, y, slice) && InSurface(s, x', y', slice')
    requires ChannelSlot(s, x, y, slice) == ChannelSlot(s, x', y', slice')
    ensures x % 8 == x' % 8 && y % 8 == y' % 8 && slice == slice'
    ensures MacroColumn(s.mode, x) == MacroColumn(s.mode, x')
    ensures MacroRow(s.mode, y) == MacroRow(s.mode, y')
  {
    hide Mul, PixelIndex, MacroTileNumber, Aligned, InSurface, MacroColumn, MacroRow;
    var th := Thickness(s.mode);
    PixelIndexBound(s.bpp, s.mode, s.isDepth, x, y, slice);
    PixelIndexBound(s.bpp, s.mode, s.isDepth, x', y', slice');
    MulUnique(64 * th, MacroTileNumber(s, x, y, slice), PixelIndex(s.bpp, s.mode, s.isDepth, x, y, slice),
                 MacroTileNumber(s, x', y', slice'), PixelIndex(s.bpp, s.mode, s.isDepth, x', y', slice'));
    PixelIndexInjective(s.bpp, s.mode, s.isDepth, x, y, slice, x', y', slice');
    MacroTileUnique(s, x, y, slice, x', y', slice');
    QuotWhole(slice, slice', th);
  }

  lemma MacroTileUnique(s: Surface, x: nat, y: nat, slice: nat, x': nat, y': nat, slice': nat)
    requires Kind(s.mode) == Macro && Aligned(s)
    requires InSurface(s, x, y, slice) && InSurface(s, x', y', slice')
    requires MacroTileNumber(s, x, y, slice) == MacroTileNumber(s, x', y', slice')
    ensures MacroColumn(s.mode, x) == MacroColumn(s.mode, x')
    ensures MacroRow(s.mode, y) == MacroRow(s.mode, y')
    ensures Quot(slice, Thickness(s.mode)) == Quot(slice', Thickness(s.mode))
  {
    hide Mul, Quot, Grid, MacroTilePitch, MacroTileHeight;
    var q, r, th := MacroTilePitch(s.mode), MacroTileHeight(s.mode), Thickness(s.mode);
    QuotLess(x, s.pitch, q); QuotLess(y, s.height, r);
    QuotLess(x', s.pitch, q); QuotLess(y', s.height, r);
    GridUnique(MacroColumn(s.mode, s.pitch), MacroRow(s.mode, s.height), MacroColumn(s.mode, x), MacroRow(s.mode, y), Quot(slice, th),
               MacroColumn(s.mode, x'), MacroRow(s.mode, y'), Quot(slice', th));
  }

  lemma DivModWhole(a: nat, b: nat, n: nat)
    requires n > 0 && a / n == b / n && a % n == b % n
    ensures a == b
  {
    assert a == n * (a / n) + a % n && b == n * (b / n) + b % n;
  }

  lemma MacroAddrParts(s: Surface, x: nat, y: nat, slice: nat, x': nat, y': nat, slice': nat)
    requires Shaped(s) && NoWrap(s) && Kind(s.mode) == Macro
    requires InSurface(s, x, y, slice) && InSurface(s, x', y', slice')
    requires MacroAddr(s, x, y, slice) == MacroAddr(s, x', y', slice')
    ensures ChannelSlot(s, x, y, slice) == ChannelSlot(s, x', y', slice')
    ensures FinalBank(s, x, y, slice) == FinalBank(s, x', y', slice')
    ensures Channel(s, x, y, slice) % 2 == Channel(s, x', y', slice') % 2
  {
    hide Mul, MacroAddr, ChannelSlot, TotalOffset, Channel, SwappedBank, MacroColumn, Interleave, BufferBytes, Aligned, InSurface, FinalBank;
    PixelSize(s);
    MacroAddrForm(s, x, y, slice);
    MacroAddrForm(s, x', y', slice');
    FinalBankRange(s, x, y, slice);
    FinalBankRange(s, x', y', slice');
    InterleaveUnique(TotalOffset(s, x, y, slice), FinalBank(s, x, y, slice), Channel(s, x, y, slice) % 2,
                     TotalOffset(s, x', y', slice'), FinalBank(s, x', y', slice'), Channel(s, x', y', slice') % 2);
    MulCancel(PixelBytes(s), ChannelSlot(s, x, y, slice), ChannelSlot(s, x', y', slice'));
  }

  lemma MacroAddrInjective(s: Surface, x: nat, y: nat, slice: nat, x': nat, y': nat, slice': nat)
    requires Shaped(s) && NoWrap(s) && Kind(s.mode) == Macro
    requires InSurface(s, x, y, slice) && InSurface(s, x', y', slice')
    requires MacroAddr(s, x, y, slice) == MacroAddr(s, x', y', slice')
    ensures x == x' && y == y' && slice == slice'
  {
    hide MacroAddr, ChannelSlot, FinalBank, Channel, MacroColumn, MacroRow, RawChannel, BufferBytes;
    MacroAddrParts(s, x, y, slice, x', y', slice');
    ChannelSlotUnique(s, x, y, slice, x', y', slice');
    FinalChannelUnique(s, x, y, slice, x', y', slice');
    RawChannelUnique(s.mode, x, y, x', y');
    DivModWhole(x, x', 8);
    DivModWhole(y, y', 8);
  }

  // -------- linear surfaces

  lemma LinearAddrForm(s: Surface, x: nat, y: nat, slice: nat)
    requires Shaped(s) && Kind(s.mode) == Linear && InSurface(s, x, y, slice)
    ensures LinearAddr(s, x, y, slice) == Mul(PixelBytes(s), Grid(s.pitch, s.height, x, y, slice))
    ensures LinearAddr(s, x, y, slice) + PixelBytes(s) <= BufferBytes(s)
  {
    hide Mul, Grid, LinearIndex;
    var g, pb := Grid(s.pitch, s.height, x, y, slice), PixelBytes(s);
    PixelSize(s);
    assert Slabs(s) == s.numSlices;
    MulOne(s.pitch);
    MulOne(s.height);
    PixelBufferForm(s, 1, 1, s.pitch, s.height);
    MulOne(1);
    MulOne(pb);
    GridBound(s.pitch, s.height, s.numSlices, x, y, slice);
    MulBelow(pb, g, Mul(s.pitch, Mul(s.height, s.numSlices)));
    LinearArith(g, pb, BufferBytes(s));
    LinearIndexForm(s, x, y, slice);
  }

  lemma LinearArith(g: nat, pb: nat, size: nat)
    requires Mul(pb, g) + pb <= size && size * 8 < TWO64 && pb > 0
    ensures U64(Mul(g, 8 * pb)) / 8 == Mul(pb, g) && g < TWO64
  {
    MulEight(g, pb);
    MulFlip(g, pb);
    U64Id(8 * Mul(pb, g));
    MulIs(pb, g);
    MulMonotone(g, 1, pb);
  }

  lemma LinearIndexForm(s: Surface, x: nat, y: nat, slice: nat)
    requires Grid(s.pitch, s.height, x, y, slice) < TWO64
    ensures LinearIndex(s, x, y, slice) == Grid(s.pitch, s.height, x, y, slice)
  {
    GridOffset(1, s.pitch, s.height, x, y, slice);
    MulOne(x + Mul(y, s.pitch));
    MulOne(Mul(s.pitch, s.height));
    MulOne(Grid(s.pitch, s.height, x, y, slice));
    U64Id(Mul(Mul(s.pitch, s.height), slice));
  }

  // -------- all tile modes

  /** Every pixel lies inside the buffer, on a multiple of its size. */
  lemma AddrInBounds(s: Surface, x: nat, y: nat, slice: nat)
    requires WellFormed(s) && InSurface(s, x, y, slice)
    ensures Addr(s, x, y, slice) + PixelBytes(s) <= BufferBytes(s)
    ensures Addr(s, x, y, slice) % PixelBytes(s) == 0
  {
    hide LinearAddr, MicroAddr, MacroAddr, BufferBytes, PixelBytes, Grid, MicroSlot, Mul, InSurface, Aligned;
    PixelSize(s);
    match Kind(s.mode)
    case Linear =>
      LinearAddrForm(s, x, y, slice);
      MulMod(PixelBytes(s), Grid(s.pitch, s.height, x, y, slice));
    case Micro =>
      MicroAddrForm(s, x, y, slice);
      MulMod(PixelBytes(s), MicroSlot(s, x, y, slice));
    case Macro =>
      MacroAddrBounds(s, x, y, slice);
  }

  /** Distinct pixels have distinct addresses, in every tile mode. */
  lemma AddrInjective(s: Surface, x: nat, y: nat, slice: nat, x': nat, y': nat, slice': nat)
    requires Shaped(s) && NoWrap(s) && InSurface(s, x, y, slice) && InSurface(s, x', y', slice')
    requires Addr(s, x, y, slice) == Addr(s, x', y', slice')
    ensures x == x' && y == y' && slice == slice'
  {
    hide LinearAddr, MicroAddr, MacroAddr, BufferBytes, PixelBytes, Grid, MicroSlot, Mul;
    PixelSize(s);
    match Kind(s.mode)
    case Linear =>
      LinearAddrForm(s, x, y, slice);
      LinearAddrForm(s, x', y', slice');
      MulCancel(PixelBytes(s), Grid(s.pitch, s.height, x, y, slice), Grid(s.pitch, s.height, x', y', slice'));
      GridUnique(s.pitch, s.height, x, y, slice, x', y', slice');
    case Micro =>
      MicroAddrForm(s, x, y, slice);
      MicroAddrForm(s, x', y', slice');
      MulCancel(PixelBytes(s), MicroSlot(s, x, y, slice), MicroSlot(s, x', y', slice'));
      MicroSlotInjective(s, x, y, slice, x', y', slice');
    case Macro =>
      MacroAddrInjective(s, x, y, slice, x', y', slice');
  }

  lemma DistinctMultiples(a: nat, b: nat, n: nat)
    requires n > 0 && a % n == 0 && b % n == 0 && a < b
    ensures a + n <= b
  {
    assert a == n * (a / n) && b == n * (b / n);
    if b / n <= a / n {
      MulMonotone(n, b / n, a / n);
    } else {
      MulStep(n, a / n, b / n);
    }
  }

  /** Distinct pixels occupy disjoint byte ranges, in every tile mode. */
  lemma PixelsDisjoint(s: Surface, x: nat, y: nat, slice: nat, x': nat, y': nat, slice': nat)
    requires WellFormed(s) && InSurface(s, x, y, slice) && InSurface(s, x', y', slice')
    requires x != x' || y != y' || slice != slice'
    ensures || Addr(s, x, y, slice) + PixelBytes(s) <= Addr(s, x', y', slice')
            || Addr(s, x', y', slice') + PixelBytes(s) <= Addr(s, x, y, slice)
  {
    hide Addr, BufferBytes, PixelBytes, InSurface, Aligned;
    PixelSize(s);
    AddrInBounds(s, x, y, slice);
    AddrInBounds(s, x', y', slice');
    var a, b := Addr(s, x, y, slice), Addr(s, x', y', slice');
    if a == b {
      AddrInjective(s, x, y, slice, x', y', slice');
    } else if a < b {
      DistinctMultiples(a, b, PixelBytes(s));
    } else {
      DistinctMultiples(b, a, PixelBytes(s));
    }
  }
}
