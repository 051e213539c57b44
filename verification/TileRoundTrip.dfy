/** Copies of equal size move every pixel to the same coordinates, so tiling and untiling undo each other. */
module TileRoundTrip {
  import opened Machine
  import opened Products
  import opened Tiling
  import opened TilingInjective
  import opened FixedPoint
  import opened Blitting
  import opened SurfaceCopy

  /** A copy between two surfaces of the same pixel size that hold the copied parts. */
  predicate Copyable(job: Job) {
    && WellFormed(job.dst) && WellFormed(job.src) && job.dst.bpp == job.src.bpp
    && 0 < job.dstWidth <= job.dst.pitch && 0 < job.dstHeight <= job.dst.height && job.dstSlice < job.dst.numSlices
    && 0 < job.srcWidth <= job.src.pitch && 0 < job.srcHeight <= job.src.height && job.srcSlice < job.src.numSlices
  }

  /** An unscaled copy; only the general path limits its size. */
  predicate Unscaled(job: Job) {
    && Copyable(job) && job.dstWidth == job.srcWidth && job.dstHeight == job.srcHeight
    && (BothLinear(job) || (job.dstWidth <= 0x10000 && job.dstHeight <= 0x10000))
  }

  /** The last column and the step to the next row fit 32 bits. */
  predicate DstProductsFit(job: Job)
    requires job.dstWidth > 0
  {
    && Mul(job.dstWidth - 1, PixelBytes(job.dst)) < TWO32
    && (job.dstHeight > 1 ==> Mul(job.dst.pitch, PixelBytes(job.dst)) < TWO32)
  }

  /** The fast path's 32-bit products fit: the last column, the step to the next row, and the last source row. */
  predicate FastProductsFit(job: Job)
    requires job.dstWidth > 0 && job.dstHeight > 0
  {
    && DstProductsFit(job)
    && Mul(Mul(job.src.pitch, PixelBytes(job.dst)), job.dstHeight - 1) < TWO32
  }

  lemma UnscaledRunnable(job: Job)
    requires Unscaled(job)
    ensures Runnable(job)
  {
  }

  /** A pixel of a linear surface lies at its row and column. */
  lemma LinearRowColumn(s: Surface, x: nat, y: nat, slice: nat)
    requires Shaped(s) && Kind(s.mode) == Linear && InSurface(s, x, y, slice)
    ensures LinearAddr(s, x, y, slice)
            == LinearAddr(s, 0, 0, slice) + Mul(Mul(s.pitch, PixelBytes(s)), y) + Mul(x, PixelBytes(s))
  {
    hide LinearAddr, BufferBytes, Grid, Mul;
    LinearAddrForm(s, x, y, slice);
    LinearAddrForm(s, 0, 0, slice);
    RowColumnArith(PixelBytes(s), s.pitch, s.height, x, y, slice);
  }

  lemma RowColumnArith(pb: nat, pitch: nat, height: nat, x: nat, y: nat, z: nat)
    ensures Mul(pb, Grid(pitch, height, x, y, z))
            == Mul(pb, Grid(pitch, height, 0, 0, z)) + Mul(Mul(pitch, pb), y) + Mul(x, pb)
  {
    hide Mul;
    var h := Mul(height, z);
    calc {
      Mul(pb, Grid(pitch, height, x, y, z));
      { MulPlus(pitch, y, h); }
      Mul(pb, x + (Mul(pitch, y) + Mul(pitch, h)));
      { MulPlus(pb, x, Mul(pitch, y) + Mul(pitch, h)); MulPlus(pb, Mul(pitch, y), Mul(pitch, h)); }
      Mul(pb, x) + Mul(pb, Mul(pitch, y)) + Mul(pb, Mul(pitch, h));
      { MulTimes(pb, pitch, y); MulFlip(pb, pitch); MulFlip(pb, x); }
      Mul(x, pb) + Mul(Mul(pitch, pb), y) + Mul(pb, Grid(pitch, height, 0, 0, z));
    }
  }

  lemma FastDstExact(job: Job, x: nat, y: nat)
    requires Copyable(job) && BothLinear(job) && DstProductsFit(job) && x < job.dstWidth && y < job.dstHeight
    ensures FastDst(PlanOf(job), x, y) == Addr(job.dst, x, y, job.dstSlice)
  {
    hide LinearAddr, BufferBytes, Mul, PixelBytes, PlainPixels;
    LinearRowColumn(job.dst, x, y, job.dstSlice);
    ColumnFits(x, job.dstWidth - 1, PixelBytes(job.dst));
    if y == 0 {
      MulOne(Offset32(job.dst.pitch, PixelBytes(job.dst)));
      MulOne(Mul(job.dst.pitch, PixelBytes(job.dst)));
    } else {
      U32Id(Mul(job.dst.pitch, PixelBytes(job.dst)));
    }
  }

  /** Column offsets do not wrap if the last one does not. */
  lemma ColumnFits(x: nat, last: nat, pb: nat)
    requires x <= last && Mul(last, pb) < TWO32
    ensures Offset32(x, pb) == Mul(x, pb)
  {
    MulIs(x, pb);
    MulIs(last, pb);
    MulMonotone(pb, x, last);
    MulCommutes(pb, x);
    MulCommutes(pb, last);
    U32Id(x * pb);
  }

  /** Row offsets of the source do not wrap if the last one does not. */
  lemma RowFits(pitchBytes: nat, last: nat, y: nat)
    requires Mul(pitchBytes, last) < TWO32 && y <= last
    ensures Offset32(y, U32(pitchBytes)) == Mul(pitchBytes, y)
  {
    if y == 0 {
      MulOne(U32(pitchBytes));
      MulOne(pitchBytes);
    } else {
      MulIs(pitchBytes, last);
      MulIs(pitchBytes, y);
      MulMonotone(pitchBytes, y, last);
      MulMonotone(pitchBytes, 1, y);
      U32Id(pitchBytes);
      MulFlip(pitchBytes, y);
      U32Id(Mul(pitchBytes, y));
    }
  }

  /** The source pixel (u, v), by its row and column offsets. */
  lemma FastSrcAt(job: Job, u: nat, v: nat, lastColumn: nat, lastRow: nat)
    requires Copyable(job) && BothLinear(job) && u <= lastColumn < job.src.pitch && v <= lastRow < job.src.height
    requires Mul(lastColumn, PixelBytes(job.dst)) < TWO32 && Mul(Mul(job.src.pitch, PixelBytes(job.dst)), lastRow) < TWO32
    ensures var p := PlanOf(job);
            p.srcBase + Offset32(v, p.srcPitch) + Offset32(u, p.bytes) == Addr(job.src, u, v, job.srcSlice)
  {
    hide LinearAddr, BufferBytes, Mul, PixelBytes, PlainPixels, U32;
    SamePixelBytes(job);
    LinearRowColumn(job.src, u, v, job.srcSlice);
    RowFits(Mul(job.src.pitch, PixelBytes(job.dst)), lastRow, v);
    ColumnFits(u, lastColumn, PixelBytes(job.dst));
  }

  lemma FastSrcExact(job: Job, x: nat, y: nat)
    requires Unscaled(job) && BothLinear(job) && FastProductsFit(job) && x < job.dstWidth && y < job.dstHeight
    ensures FastSrc(PlanOf(job), x, y) == Addr(job.src, x, y, job.srcSlice)
  {
    hide Addr, BufferBytes, Mul, PixelBytes, PlainPixels, FastScaled, WellFormed, Offset32;
    SameSize(job.dstWidth, x);
    SameSize(job.dstHeight, y);
    FastSrcAt(job, x, y, job.dstWidth - 1, job.dstHeight - 1);
  }

  lemma SamePixelBytes(job: Job)
    requires job.dst.bpp == job.src.bpp
    ensures PixelBytes(job.dst) == PixelBytes(job.src)
  {
  }

  /** The fast path visits the same pixel in both surfaces. */
  predicate FastVisit(job: Job, x: nat, y: nat)
    requires Unscaled(job)
  {
    && FastDst(PlanOf(job), x, y) == Addr(job.dst, x, y, job.dstSlice)
    && FastSrc(PlanOf(job), x, y) == Addr(job.src, x, y, job.srcSlice)
  }

  /** The fast path visits every pixel of an unscaled copy where it lies exactly when no product wraps. */
  lemma FastPathIff(job: Job)
    requires Unscaled(job) && BothLinear(job)
    ensures (forall x: nat, y: nat :: x < job.dstWidth && y < job.dstHeight ==> FastVisit(job, x, y)) <==> FastProductsFit(job)
  {
    hide FastDst, FastSrc, Addr, WellFormed, FastVisit, Mul, PixelBytes;
    if FastProductsFit(job) {
      forall x: nat, y: nat | x < job.dstWidth && y < job.dstHeight ensures FastVisit(job, x, y) {
        FastVisits(job, x, y);
      }
    } else {
      var x, y := FastMisses(job);
    }
  }

  lemma FastVisits(job: Job, x: nat, y: nat)
    requires Unscaled(job) && BothLinear(job) && FastProductsFit(job) && x < job.dstWidth && y < job.dstHeight
    ensures FastVisit(job, x, y)
  {
    hide FastDst, FastSrc, Addr, WellFormed, DstProductsFit, Mul;
    FastDstExact(job, x, y);
    FastSrcExact(job, x, y);
  }

  /** A product that wraps misses a pixel: the last of a row, the first of the second or of the last row. */
  lemma FastMisses(job: Job) returns (x: nat, y: nat)
    requires Unscaled(job) && BothLinear(job) && !FastProductsFit(job)
    ensures x < job.dstWidth && y < job.dstHeight && !FastVisit(job, x, y)
  {
    hide FastDst, FastSrc, Addr, WellFormed, Mul, PixelBytes;
    if Mul(job.dstWidth - 1, PixelBytes(job.dst)) >= TWO32 {
      x, y := job.dstWidth - 1, 0;
      ColumnWraps(job);
    } else if job.dstHeight > 1 && Mul(job.dst.pitch, PixelBytes(job.dst)) >= TWO32 {
      x, y := 0, 1;
      DstRowWraps(job);
    } else {
      x, y := 0, job.dstHeight - 1;
      SrcRowWraps(job);
    }
  }

  lemma ColumnWraps(job: Job)
    requires Unscaled(job) && BothLinear(job) && Mul(job.dstWidth - 1, PixelBytes(job.dst)) >= TWO32
    ensures FastDst(PlanOf(job), job.dstWidth - 1, 0) < Addr(job.dst, job.dstWidth - 1, 0, job.dstSlice)
  {
    hide LinearAddr, BufferBytes, Mul, PixelBytes, PlainPixels;
    LinearRowColumn(job.dst, job.dstWidth - 1, 0, job.dstSlice);
    MulOne(Offset32(job.dst.pitch, PixelBytes(job.dst)));
    MulOne(Mul(job.dst.pitch, PixelBytes(job.dst)));
  }

  lemma DstRowWraps(job: Job)
    requires Unscaled(job) && BothLinear(job) && job.dstHeight > 1 && Mul(job.dst.pitch, PixelBytes(job.dst)) >= TWO32
    ensures FastDst(PlanOf(job), 0, 1) < Addr(job.dst, 0, 1, job.dstSlice)
  {
    hide LinearAddr, BufferBytes, Mul, PixelBytes, PlainPixels;
    LinearRowColumn(job.dst, 0, 1, job.dstSlice);
    MulOne(Offset32(job.dst.pitch, PixelBytes(job.dst)));
    MulOne(Mul(job.dst.pitch, PixelBytes(job.dst)));
    MulOne(PixelBytes(job.dst));
  }

  lemma SrcRowWraps(job: Job)
    requires Unscaled(job) && BothLinear(job)
    requires Mul(Mul(job.src.pitch, PixelBytes(job.dst)), job.dstHeight - 1) >= TWO32
    ensures FastSrc(PlanOf(job), 0, job.dstHeight - 1) < Addr(job.src, 0, job.dstHeight - 1, job.srcSlice)
  {
    hide LinearAddr, BufferBytes, Mul, PixelBytes, PlainPixels, FastScaled;
    SamePixelBytes(job);
    SameSize(job.dstWidth, 0);
    SameSize(job.dstHeight, job.dstHeight - 1);
    LinearRowColumn(job.src, 0, job.dstHeight - 1, job.srcSlice);
    MulOne(PixelBytes(job.dst));
  }

  const WIDE: Surface := Surface(LinearGeneral, 128, false, 0x1000_0000, 2, 1, 0, 0, 0, 0)

  lemma WideFits()
    ensures WellFormed(WIDE) && Kind(WIDE.mode) == Linear && PixelBytes(WIDE) == 16
  {
    MulIs(0x1000_0000, 2);
    MulIs(1, 1);
    MulIs(0x2000_0000, 1);
    MulIs(0x2000_0000, 16);
    hide Mul;
    assert Slabs(WIDE) == 1;
    assert BufferBytes(WIDE) == 0x2_0000_0000;
  }

  /** Rows of 2^28 pixels of 16 bytes are 2^32 bytes apart: the second one is written over the first. */
  lemma FastRowsCollide(job: Job)
    requires job.dst == WIDE && job.src == WIDE
    requires job.dstSlice == job.srcSlice == 0 && job.dstWidth == job.srcWidth == 1 && job.dstHeight == job.srcHeight == 2
    ensures Unscaled(job) && BothLinear(job)
    ensures FastDst(PlanOf(job), 0, 1) == FastDst(PlanOf(job), 0, 0)
  {
    hide WellFormed, LinearAddr, Mul;
    WideFits();
    MulIs(0x1000_0000, 16);
    MulOne(0);
    assert PlanOf(job).dstPitch == 0;
  }

  /** The addresses an unscaled copy visits are those of the same pixel in both surfaces. */
  lemma Visits(job: Job, x: nat, y: nat)
    requires Unscaled(job) && Runnable(job) && x < job.dstWidth && y < job.dstHeight
    requires BothLinear(job) ==> FastProductsFit(job)
    ensures JobRaster(job).at(x, y) == Addr(job.dst, x, y, job.dstSlice)
    ensures JobRaster(job).from(x, y) == Addr(job.src, x, y, job.srcSlice)
  {
    hide Addr, FastDst, FastSrc, Scaled, WellFormed, DstProductsFit, Mul;
    if BothLinear(job) {
      FastDstExact(job, x, y);
      FastSrcExact(job, x, y);
    } else {
      ScaledSmall(job.dstWidth, x);
      ScaledSmall(job.dstHeight, y);
    }
  }

  lemma GeneralVisits(job: Job, x: nat, y: nat)
    requires Unscaled(job) && x < job.dstWidth <= 0x10000 && y < job.dstHeight <= 0x10000
    ensures GeneralRaster(job).at(x, y) == Addr(job.dst, x, y, job.dstSlice)
    ensures GeneralRaster(job).from(x, y) == Addr(job.src, x, y, job.srcSlice)
  {
    hide Addr, Scaled, WellFormed;
    ScaledSmall(job.dstWidth, x);
    ScaledSmall(job.dstHeight, y);
  }

  /** For equal sizes the two paths visit the same addresses exactly when no product of the fast one wraps. */
  lemma SameVisitsIff(job: Job)
    requires Unscaled(job) && BothLinear(job) && job.dstWidth <= 0x10000 && job.dstHeight <= 0x10000
    ensures SameVisits(LinearRaster(PlanOf(job)), GeneralRaster(job)) <==> FastProductsFit(job)
  {
    hide Addr, FastDst, FastSrc, Scaled, WellFormed, PixelBytes, FastProductsFit;
    var r, q := LinearRaster(PlanOf(job)), GeneralRaster(job);
    forall x: nat, y: nat | x < job.dstWidth && y < job.dstHeight
      ensures FastVisit(job, x, y) <==> r.at(x, y) == q.at(x, y) && r.from(x, y) == q.from(x, y)
    {
      GeneralVisits(job, x, y);
    }
    FastPathIff(job);
  }

  /** Then the fast path writes what the general path writes, byte for byte. */
  lemma FastPathExact(job: Job, d: seq<byte>, src: seq<byte>)
    requires Unscaled(job) && BothLinear(job) && job.dstWidth <= 0x10000 && job.dstHeight <= 0x10000 && FastProductsFit(job)
    requires BufferBytes(job.dst) <= |d| && BufferBytes(job.src) <= |src|
    ensures Fits(LinearRaster(PlanOf(job)), |d|, |src|) && Fits(GeneralRaster(job), |d|, |src|)
    ensures Copied(d, src, LinearRaster(PlanOf(job))) == Copied(d, src, GeneralRaster(job))
  {
    hide Addr, FastDst, FastSrc, Scaled, WellFormed, Copied, PixelBytes, FastProductsFit, BufferBytes;
    var r, q := LinearRaster(PlanOf(job)), GeneralRaster(job);
    SameVisitsIff(job);
    SamePixelBytes(job);
    forall x: nat, y: nat | x < q.width && y < q.height
      ensures q.at(x, y) + q.bytes <= |d| && q.from(x, y) + q.bytes <= |src|
    {
      GeneralVisits(job, x, y);
      AddrInBounds(job.dst, x, y, job.dstSlice);
      AddrInBounds(job.src, x, y, job.srcSlice);
    }
    SameCopy(d, src, r, q);
  }

  // -------- what a copy of equal size does to the pixels

  /** The bytes of a pixel in a buffer. */
  ghost function PixelAt(buf: seq<byte>, s: Surface, x: nat, y: nat, slice: nat): (p: seq<byte>)
    requires WellFormed(s) && InSurface(s, x, y, slice) && BufferBytes(s) <= |buf|
    ensures |p| == PixelBytes(s)
  {
    AddrInBounds(s, x, y, slice);
    Bytes(buf, Addr(s, x, y, slice), PixelBytes(s))
  }

  lemma UnscaledFits(job: Job, dstLen: nat, srcLen: nat)
    requires Unscaled(job) && (BothLinear(job) ==> FastProductsFit(job))
    requires BufferBytes(job.dst) <= dstLen && BufferBytes(job.src) <= srcLen
    ensures Ready(job, dstLen, srcLen)
  {
    hide Addr, JobRaster, BufferBytes, PixelBytes, WellFormed, FastProductsFit;
    UnscaledRunnable(job);
    SamePixelBytes(job);
    var r := JobRaster(job);
    forall x: nat, y: nat | x < r.width && y < r.height
      ensures r.at(x, y) + r.bytes <= dstLen && r.from(x, y) + r.bytes <= srcLen
    {
      Visits(job, x, y);
      AddrInBounds(job.dst, x, y, job.dstSlice);
      AddrInBounds(job.src, x, y, job.srcSlice);
    }
  }

  lemma UnscaledSeparate(job: Job)
    requires Unscaled(job) && Runnable(job) && (BothLinear(job) ==> FastProductsFit(job))
    ensures Separate(JobRaster(job))
  {
    hide Addr, JobRaster, PixelBytes, WellFormed;
    var r := JobRaster(job);
    forall x: nat, y: nat, x': nat, y': nat
      | x < r.width && y < r.height && x' < r.width && y' < r.height && (x != x' || y != y')
      ensures Apart(r.at(x, y), r.at(x', y'), r.bytes)
    {
      Visits(job, x, y);
      Visits(job, x', y');
      PixelsDisjoint(job.dst, x, y, job.dstSlice, x', y', job.dstSlice);
    }
  }

  /** A copied slice holds the source's pixels. */
  lemma SlicePixels(job: Job, d: seq<byte>, src: seq<byte>, x: nat, y: nat, at: nat, from: nat)
    requires Unscaled(job) && (BothLinear(job) ==> FastProductsFit(job))
    requires Ready(job, |d|, |src|)
    requires x < job.dstWidth && y < job.dstHeight
    requires at == Addr(job.dst, x, y, job.dstSlice) && from == Addr(job.src, x, y, job.srcSlice)
    ensures at + PixelBytes(job.dst) <= |d| && from + PixelBytes(job.dst) <= |src|
    ensures Bytes(Copied(d, src, JobRaster(job)), at, PixelBytes(job.dst)) == Bytes(src, from, PixelBytes(job.dst))
  {
    hide Addr, JobRaster, PixelBytes, WellFormed, Copied, Fits, Separate, Bytes;
    UnscaledSeparate(job);
    Visits(job, x, y);
    CopiedPixelAt(d, src, JobRaster(job), x, y, at, from);
  }

  /** No copied pixel overlaps a pixel of another slice. */
  lemma OtherSliceApart(job: Job, x: nat, y: nat, z: nat, i: nat, j: nat)
    requires Unscaled(job) && Runnable(job) && (BothLinear(job) ==> FastProductsFit(job))
    requires InSurface(job.dst, x, y, z) && z != job.dstSlice && i < job.dstWidth && j < job.dstHeight
    ensures Apart(JobRaster(job).at(i, j), Addr(job.dst, x, y, z), PixelBytes(job.dst))
  {
    hide Addr, JobRaster, PixelBytes, WellFormed;
    Visits(job, i, j);
    PixelsDisjoint(job.dst, i, j, job.dstSlice, x, y, z);
  }

  /** Pixels of other slices are left alone. */
  lemma OtherSlices(job: Job, d: seq<byte>, src: seq<byte>, x: nat, y: nat, z: nat, at: nat)
    requires Unscaled(job) && (BothLinear(job) ==> FastProductsFit(job))
    requires Ready(job, |d|, |src|)
    requires InSurface(job.dst, x, y, z) && z != job.dstSlice
    requires at == Addr(job.dst, x, y, z) && at + PixelBytes(job.dst) <= |d|
    ensures Bytes(Copied(d, src, JobRaster(job)), at, PixelBytes(job.dst)) == Bytes(d, at, PixelBytes(job.dst))
  {
    hide Addr, JobRaster, PixelBytes, WellFormed, Copied, Fits, Bytes;
    var r := JobRaster(job);
    forall i: nat, j: nat | i < r.width && j < r.height ensures Apart(r.at(i, j), at, r.bytes) {
      OtherSliceApart(job, x, y, z, i, j);
    }
    CopiedRange(d, src, r, at);
  }

  /** A copy of `depth` slices of equal size between buffers that are large enough. */
  ghost predicate UnscaledSlices(job: Job, d: seq<byte>, src: seq<byte>, depth: u32) {
    && (forall z: u32 :: z < depth ==> Unscaled(SliceJob(job, z)))
    && (BothLinear(job) && job.dstWidth > 0 && job.dstHeight > 0 ==> FastProductsFit(job))
    && BufferBytes(job.dst) <= |d| && BufferBytes(job.src) <= |src|
  }

  lemma UnscaledSlicesReady(job: Job, d: seq<byte>, src: seq<byte>, depth: u32)
    requires UnscaledSlices(job, d, src, depth)
    ensures SlicesReady(job, |d|, |src|, depth)
  {
    hide JobRaster, WellFormed, Fits, BufferBytes;
    forall z: u32 | z < depth ensures Ready(SliceJob(job, z), |d|, |src|) {
      UnscaledFits(SliceJob(job, z), |d|, |src|);
    }
  }

  lemma FreshSlice(job: Job, prev: seq<byte>, src: seq<byte>, x: nat, y: nat)
    requires Unscaled(job) && (BothLinear(job) ==> FastProductsFit(job)) && Ready(job, |prev|, |src|)
    requires BufferBytes(job.dst) <= |prev| && BufferBytes(job.src) <= |src|
    requires x < job.dstWidth && y < job.dstHeight
    ensures PixelAt(Copied(prev, src, JobRaster(job)), job.dst, x, y, job.dstSlice) == PixelAt(src, job.src, x, y, job.srcSlice)
  {
    hide Addr, JobRaster, PixelBytes, WellFormed, Copied, Fits, Bytes, BufferBytes;
    SamePixelBytes(job);
    SlicePixels(job, prev, src, x, y, Addr(job.dst, x, y, job.dstSlice), Addr(job.src, x, y, job.srcSlice));
  }

  lemma KeptSlice(job: Job, prev: seq<byte>, src: seq<byte>, x: nat, y: nat, z: nat)
    requires Unscaled(job) && (BothLinear(job) ==> FastProductsFit(job)) && Ready(job, |prev|, |src|)
    requires BufferBytes(job.dst) <= |prev| && InSurface(job.dst, x, y, z) && z != job.dstSlice
    ensures PixelAt(Copied(prev, src, JobRaster(job)), job.dst, x, y, z) == PixelAt(prev, job.dst, x, y, z)
  {
    hide Addr, JobRaster, PixelBytes, WellFormed, Copied, Fits, Bytes, BufferBytes;
    AddrInBounds(job.dst, x, y, z);
    OtherSlices(job, prev, src, x, y, z, Addr(job.dst, x, y, z));
  }

  /** Copying one more slice makes that slice right and keeps the slices that already were. */
  lemma OneMoreSlice(job: Job, prev: seq<byte>, src: seq<byte>, x: nat, y: nat, z: nat)
    requires Unscaled(job) && (BothLinear(job) ==> FastProductsFit(job)) && job.dstSlice == job.srcSlice
    requires BufferBytes(job.dst) <= |prev| && BufferBytes(job.src) <= |src|
    requires x < job.dstWidth && y < job.dstHeight && z < job.dst.numSlices && z < job.src.numSlices
    requires z == job.dstSlice || PixelAt(prev, job.dst, x, y, z) == PixelAt(src, job.src, x, y, z)
    ensures Ready(job, |prev|, |src|)
    ensures PixelAt(Copied(prev, src, JobRaster(job)), job.dst, x, y, z) == PixelAt(src, job.src, x, y, z)
  {
    hide PixelAt, JobRaster, PixelBytes, WellFormed, Copied, Fits, BufferBytes;
    UnscaledFits(job, |prev|, |src|);
    if z == job.dstSlice {
      FreshSlice(job, prev, src, x, y);
    } else {
      KeptSlice(job, prev, src, x, y, z);
    }
  }

  /** The surfaces cover the copied pixels. */
  predicate Covers(job: Job, x: nat, y: nat, z: nat) {
    && WellFormed(job.dst) && WellFormed(job.src)
    && InSurface(job.dst, x, y, z) && InSurface(job.src, x, y, z)
  }

  lemma UnscaledCovers(job: Job, depth: u32, x: nat, y: nat, z: u32)
    requires (forall k: u32 :: k < depth ==> Unscaled(SliceJob(job, k))) && x < job.dstWidth && y < job.dstHeight && z < depth
    ensures Covers(job, x, y, z) && Unscaled(SliceJob(job, depth - 1))
  {
    hide WellFormed;
    assert Unscaled(SliceJob(job, z));
  }

  /** After the slice loop every pixel of every slice equals the source's. */
  lemma {:induction false} AllSlicePixels(job: Job, d: seq<byte>, src: seq<byte>, depth: u32, x: nat, y: nat, z: u32)
    requires UnscaledSlices(job, d, src, depth) && x < job.dstWidth && y < job.dstHeight && z < depth
    ensures SlicesReady(job, |d|, |src|, depth) && Covers(job, x, y, z)
    ensures PixelAt(CopiedSlices(d, src, job, depth), job.dst, x, y, z) == PixelAt(src, job.src, x, y, z)
    decreases depth
  {
    hide PixelAt, JobRaster, PixelBytes, WellFormed, Copied, Fits, BufferBytes;
    var last := SliceJob(job, depth - 1);
    assert last.dst == job.dst && last.src == job.src && last.dstSlice == last.srcSlice == depth - 1;
    UnscaledSlicesReady(job, d, src, depth);
    UnscaledCovers(job, depth, x, y, z);
    UnscaledSlicesReady(job, d, src, depth - 1);
    var prev := CopiedSlices(d, src, job, depth - 1);
    if z < depth - 1 {
      AllSlicePixels(job, d, src, depth - 1, x, y, z);
      assert PixelAt(prev, last.dst, x, y, z) == PixelAt(src, last.src, x, y, z);
    }
    OneMoreSlice(last, prev, src, x, y, z);
  }

  /** The job that copies back. */
  function Reverse(job: Job): Job {
    Job(job.src, job.srcSlice, job.srcWidth, job.srcHeight, job.dst, job.dstSlice, job.dstWidth, job.dstHeight)
  }

  /**
   * Tile then untile is the identity: whatever the two layouts, copying every slice there and back
   * restores every pixel of every slice, whatever the two destination buffers held before.
   */
  lemma RoundTrip(job: Job, original: seq<byte>, scratch: seq<byte>, result: seq<byte>, depth: u32, x: nat, y: nat, z: u32)
    requires UnscaledSlices(job, scratch, original, depth) && UnscaledSlices(Reverse(job), result, scratch, depth)
    requires x < job.dstWidth && y < job.dstHeight && z < depth
    ensures SlicesReady(job, |scratch|, |original|, depth) && SlicesReady(Reverse(job), |result|, |scratch|, depth)
    ensures Covers(job, x, y, z)
    ensures var tiled := CopiedSlices(scratch, original, job, depth);
            var back := CopiedSlices(result, tiled, Reverse(job), depth);
            PixelAt(back, job.src, x, y, z) == PixelAt(original, job.src, x, y, z)
  {
    hide PixelAt, JobRaster, PixelBytes, WellFormed, Copied, Fits, BufferBytes;
    AllSlicePixels(job, scratch, original, depth, x, y, z);
    var tiled := CopiedSlices(scratch, original, job, depth);
    AllSlicePixels(Reverse(job), result, tiled, depth, x, y, z);
    UnscaledSlicesReady(Reverse(job), result, scratch, depth);
  }
}
