/** Copies between surfaces of different sizes: which source pixel every destination pixel gets. */
module ScaledCopies {
  import opened Machine
  import opened Products
  import opened Tiling
  import opened TilingInjective
  import opened FixedPoint
  import opened Blitting
  import opened SurfaceCopy
  import opened TileRoundTrip

  /** The products of the path that is taken fit 32 bits. */
  predicate ScaledProductsFit(job: Job)
    requires Copyable(job)
  {
    if BothLinear(job) then
      DstProductsFit(job) && Mul(job.srcWidth - 1, PixelBytes(job.dst)) < TWO32
      && Mul(Mul(job.src.pitch, PixelBytes(job.dst)), job.srcHeight - 1) < TWO32
    else job.srcWidth * (job.dstWidth - 1) < TWO32 && job.srcHeight * (job.dstHeight - 1) < TWO32
  }

  /** The source coordinate of a destination coordinate: the quotient, or one less where the fast path is late. */
  function SourceOf(fast: bool, srcSize: u32, dstSize: u32, v: nat): int
    requires dstSize > 0
  {
    srcSize * v / dstSize - if fast && Late(srcSize, dstSize, v) then 1 else 0
  }

  lemma SourceInside(fast: bool, srcSize: u32, dstSize: u32, v: nat)
    requires v < dstSize && srcSize > 0
    ensures 0 <= SourceOf(fast, srcSize, dstSize, v) < srcSize
  {
    hide Late;
    ExactInImage(srcSize, dstSize, v);
    FastScaledExact(srcSize, dstSize, v);
    QuotientPositive(srcSize, dstSize, v);
  }

  lemma QuotientPositive(a: nat, d: nat, v: nat)
    requires d > 0
    ensures a * v / d >= 0
  {
    MulCommutes(a, v);
  }

  /** The general path's quotient is exact when its product fits. */
  lemma ScaledExact(srcSize: u32, dstSize: u32, v: nat)
    requires v < dstSize && srcSize * (dstSize - 1) < TWO32
    ensures Scaled(srcSize, dstSize, v) == srcSize * v / dstSize
  {
    MulMonotone(srcSize, v, dstSize - 1);
    MulIs(srcSize, v);
    U32Id(Mul(srcSize, v));
  }

  /** And only then, for a coordinate whose product does not fit. */
  lemma ScaledWrapped(srcSize: u32, dstSize: u32, v: nat)
    requires v < dstSize && srcSize * v >= TWO32
    ensures Scaled(srcSize, dstSize, v) != srcSize * v / dstSize
  {
    hide Mul;
    MulIs(srcSize, v);
    var n := Mul(srcSize, v);
    Euclid(n, TWO32);
    assert U32(n) <= n - TWO32;
    QuotientsDiffer(U32(n), n, dstSize);
  }

  lemma QuotientsDiffer(a: nat, b: nat, d: nat)
    requires a + TWO32 <= b && 0 < d < TWO32
    ensures a / d != b / d
  {
    Euclid(a, d);
    Euclid(b, d);
  }

  lemma GeneralAt(job: Job, x: nat, y: nat)
    requires Copyable(job) && !BothLinear(job) && ScaledProductsFit(job) && x < job.dstWidth && y < job.dstHeight
    ensures var u, v := SourceOf(false, job.srcWidth, job.dstWidth, x), SourceOf(false, job.srcHeight, job.dstHeight, y);
            && 0 <= u < job.srcWidth && 0 <= v < job.srcHeight
            && JobRaster(job).at(x, y) == Addr(job.dst, x, y, job.dstSlice)
            && JobRaster(job).from(x, y) == Addr(job.src, u, v, job.srcSlice)
  {
    hide Addr, WellFormed, Scaled, PixelBytes;
    ScaledExact(job.srcWidth, job.dstWidth, x);
    ScaledExact(job.srcHeight, job.dstHeight, y);
    SourceInside(false, job.srcWidth, job.dstWidth, x);
    SourceInside(false, job.srcHeight, job.dstHeight, y);
  }

  lemma FastAt(job: Job, x: nat, y: nat)
    requires Copyable(job) && BothLinear(job) && ScaledProductsFit(job) && x < job.dstWidth && y < job.dstHeight
    ensures var u, v := SourceOf(true, job.srcWidth, job.dstWidth, x), SourceOf(true, job.srcHeight, job.dstHeight, y);
            && 0 <= u < job.srcWidth && 0 <= v < job.srcHeight
            && JobRaster(job).at(x, y) == Addr(job.dst, x, y, job.dstSlice)
            && JobRaster(job).from(x, y) == Addr(job.src, u, v, job.srcSlice)
  {
    hide Addr, WellFormed, FastScaled, Late, PixelBytes, Mul, Offset32, FastDst, DstProductsFit;
    FastScaledExact(job.srcWidth, job.dstWidth, x);
    FastScaledExact(job.srcHeight, job.dstHeight, y);
    SourceInside(true, job.srcWidth, job.dstWidth, x);
    SourceInside(true, job.srcHeight, job.dstHeight, y);
    FastDstExact(job, x, y);
    FastSrcAt(job, SourceOf(true, job.srcWidth, job.dstWidth, x), SourceOf(true, job.srcHeight, job.dstHeight, y),
              job.srcWidth - 1, job.srcHeight - 1);
  }

  /** Addresses of a destination pixel and of the source pixel it gets. */
  lemma CopyAt(job: Job, x: nat, y: nat)
    requires Copyable(job) && ScaledProductsFit(job) && x < job.dstWidth && y < job.dstHeight
    ensures var fast := BothLinear(job);
            var u, v := SourceOf(fast, job.srcWidth, job.dstWidth, x), SourceOf(fast, job.srcHeight, job.dstHeight, y);
            && 0 <= u < job.srcWidth && 0 <= v < job.srcHeight
            && JobRaster(job).at(x, y) == Addr(job.dst, x, y, job.dstSlice)
            && JobRaster(job).from(x, y) == Addr(job.src, u, v, job.srcSlice)
  {
    hide Addr, JobRaster, SourceOf, WellFormed, ScaledProductsFit;
    if BothLinear(job) {
      FastAt(job, x, y);
    } else {
      GeneralAt(job, x, y);
    }
  }

  lemma CopyReady(job: Job, dstLen: nat, srcLen: nat)
    requires Copyable(job) && ScaledProductsFit(job) && BufferBytes(job.dst) <= dstLen && BufferBytes(job.src) <= srcLen
    ensures Ready(job, dstLen, srcLen) && Separate(JobRaster(job))
  {
    hide Addr, JobRaster, BufferBytes, PixelBytes, WellFormed, SourceOf, ScaledProductsFit;
    assert Runnable(job) by { BothAddressable(job); }
    SamePixelBytes(job);
    var r := JobRaster(job);
    forall x: nat, y: nat | x < r.width && y < r.height
      ensures r.at(x, y) + r.bytes <= dstLen && r.from(x, y) + r.bytes <= srcLen
    {
      CopyAt(job, x, y);
      var fast := BothLinear(job);
      AddrInBounds(job.dst, x, y, job.dstSlice);
      AddrInBounds(job.src, SourceOf(fast, job.srcWidth, job.dstWidth, x), SourceOf(fast, job.srcHeight, job.dstHeight, y),
                   job.srcSlice);
    }
    forall x: nat, y: nat, x': nat, y': nat
      | x < r.width && y < r.height && x' < r.width && y' < r.height && (x != x' || y != y')
      ensures Apart(r.at(x, y), r.at(x', y'), r.bytes)
    {
      CopyAt(job, x, y);
      CopyAt(job, x', y');
      PixelsDisjoint(job.dst, x, y, job.dstSlice, x', y', job.dstSlice);
    }
  }

  lemma BothAddressable(job: Job)
    requires Copyable(job)
    ensures Runnable(job)
  {
  }

  /**
   * A scaled copy: destination pixel (x, y) gets the source pixel at the quotients of both coordinates; the fast path may
   * be one pixel early where its fractions have summed up.
   */
  lemma ScaledPixel(job: Job, d: seq<byte>, src: seq<byte>, x: nat, y: nat)
    requires Copyable(job) && ScaledProductsFit(job) && BufferBytes(job.dst) <= |d| && BufferBytes(job.src) <= |src|
    requires x < job.dstWidth && y < job.dstHeight
    ensures Ready(job, |d|, |src|)
    ensures var fast := BothLinear(job);
            var u, v := SourceOf(fast, job.srcWidth, job.dstWidth, x), SourceOf(fast, job.srcHeight, job.dstHeight, y);
            && 0 <= u < job.srcWidth && 0 <= v < job.srcHeight
            && PixelAt(Copied(d, src, JobRaster(job)), job.dst, x, y, job.dstSlice) == PixelAt(src, job.src, u, v, job.srcSlice)
  {
    hide Addr, JobRaster, BufferBytes, PixelBytes, WellFormed, SourceOf, ScaledProductsFit, Copied, Fits, Separate, Bytes;
    CopyReady(job, |d|, |src|);
    CopyAt(job, x, y);
    SamePixelBytes(job);
    var fast := BothLinear(job);
    var u, v := SourceOf(fast, job.srcWidth, job.dstWidth, x), SourceOf(fast, job.srcHeight, job.dstHeight, y);
    CopiedPixelAt(d, src, JobRaster(job), x, y, Addr(job.dst, x, y, job.dstSlice), Addr(job.src, u, v, job.srcSlice));
  }
}
