/**
 * The loops that move pixels between two surfaces: the general one through two address maps, the
 * fixed-point one for linear surfaces, their dispatch, and the slice loop that untiles a texture.
 */
module SurfaceCopy {
  import opened Machine
  import opened Products
  import opened Tiling
  import opened TilingInjective
  import opened FixedPoint
  import opened Blitting

  /** One slice copied (and scaled, when the sizes differ) from `src` to `dst`. */
  datatype Job = Job(dst: Surface, dstSlice: u32, dstWidth: u32, dstHeight: u32,
                     src: Surface, srcSlice: u32, srcWidth: u32, srcHeight: u32)

  predicate Runnable(job: Job) {
    Addressable(job.dst) && Addressable(job.src)
  }

  predicate BothLinear(job: Job) {
    Kind(job.dst.mode) == Linear && Kind(job.src.mode) == Linear
  }

  /** Address map of one slice of a surface, as the copy loops are handed it. */
  function AddrOf(s: Surface, slice: u32): CoordFunc
    requires Addressable(s)
  {
    (x: nat, y: nat) => Addr(s, x, y, slice)
  }

  /** Address of the source pixel a destination pixel is scaled to. */
  function ScaledCoord(dstWidth: u32, dstHeight: u32, srcWidth: u32, srcHeight: u32, srcCoord: CoordFunc, x: nat, y: nat): nat {
    if dstWidth > 0 && dstHeight > 0
    then srcCoord(Scaled(srcWidth, dstWidth, x), Scaled(srcHeight, dstHeight, y)) else 0
  }

  /** Pixels the general path visits, through two address maps. */
  function ScaledRaster(bytes: nat, dstWidth: u32, dstHeight: u32, dstCoord: CoordFunc,
                        srcWidth: u32, srcHeight: u32, srcCoord: CoordFunc): Raster {
    Raster(bytes, dstWidth, dstHeight, dstCoord,
           (x: nat, y: nat) => ScaledCoord(dstWidth, dstHeight, srcWidth, srcHeight, srcCoord, x, y))
  }

  function GeneralRaster(job: Job): Raster
    requires Runnable(job)
  {
    ScaledRaster(PixelBytes(job.dst), job.dstWidth, job.dstHeight, AddrOf(job.dst, job.dstSlice),
                 job.srcWidth, job.srcHeight, AddrOf(job.src, job.srcSlice))
  }

  /** What the fast path computes before its loops: slice starts and byte pitches (32-bit products). */
  datatype LinearPlan = LinearPlan(bytes: nat, dstWidth: u32, dstHeight: u32, srcWidth: u32, srcHeight: u32,
                                   dstBase: nat, dstPitch: u32, srcBase: nat, srcPitch: u32)

  /** A byte offset computed as a 32-bit product. */
  function Offset32(count: nat, size: nat): u32 {
    U32(Mul(count, size))
  }

  function FastDst(p: LinearPlan, x: nat, y: nat): nat {
    p.dstBase + Mul(p.dstPitch, y) + Offset32(x, p.bytes)
  }

  /** Row and column offsets into the source are 32-bit products. */
  function FastSrc(p: LinearPlan, x: nat, y: nat): nat
    requires p.dstWidth > 0 && p.dstHeight > 0
  {
    p.srcBase + Offset32(FastScaled(p.srcHeight, p.dstHeight, y), p.srcPitch)
    + Offset32(FastScaled(p.srcWidth, p.dstWidth, x), p.bytes)
  }

  /** Pixels the fast path visits. */
  function LinearRaster(p: LinearPlan): Raster {
    Raster(p.bytes, p.dstWidth, p.dstHeight,
           (x: nat, y: nat) => FastDst(p, x, y),
           (x: nat, y: nat) => if p.dstWidth > 0 && p.dstHeight > 0 then FastSrc(p, x, y) else 0)
  }

  function PlanOf(job: Job): LinearPlan {
    var n := PixelBytes(job.dst);
    LinearPlan(n, job.dstWidth, job.dstHeight, job.srcWidth, job.srcHeight,
               LinearAddr(job.dst, 0, 0, job.dstSlice), Offset32(job.dst.pitch, n),
               LinearAddr(job.src, 0, 0, job.srcSlice), Offset32(job.src.pitch, n))
  }

  function JobRaster(job: Job): (r: Raster)
    requires Runnable(job)
    ensures r.width == job.dstWidth && r.height == job.dstHeight && r.bytes == PixelBytes(job.dst)
  {
    if BothLinear(job) then LinearRaster(PlanOf(job)) else GeneralRaster(job)
  }

  // -------- the loops

  method CopyBytes(dst: array<byte>, at: nat, src: array<byte>, from: nat, count: nat)
    requires dst != src && at + count <= dst.Length && from + count <= src.Length
    modifies dst
    ensures dst[..] == Blit(old(dst[..]), at, Bytes(src[..], from, count))
  {
    for i := 0 to count
      invariant forall j | 0 <= j < dst.Length :: dst[j] == if at <= j < at + i then src[from + (j - at)] else old(dst[j])
    {
      dst[at + i] := src[from + i];
    }
  }

  /** The general path: every pixel is addressed through both surfaces' maps. */
  method CopySurfacePixels6(dst: array<byte>, dstWidth: u32, dstHeight: u32, dstCoord: CoordFunc,
                            src: array<byte>, srcWidth: u32, srcHeight: u32, srcCoord: CoordFunc, bytes: nat)
    requires dst != src
    requires Fits(ScaledRaster(bytes, dstWidth, dstHeight, dstCoord, srcWidth, srcHeight, srcCoord), dst.Length, src.Length)
    modifies dst
    ensures dst[..] == Copied(old(dst[..]), src[..],
                              ScaledRaster(bytes, dstWidth, dstHeight, dstCoord, srcWidth, srcHeight, srcCoord))
  {
    hide Blit, Bytes;
    hide Scaled;
    ghost var was, r := dst[..], ScaledRaster(bytes, dstWidth, dstHeight, dstCoord, srcWidth, srcHeight, srcCoord);
    for y := 0 to dstHeight
      invariant dst[..] == CopyRows(was, src[..], r, y)
    {
      ghost var before := dst[..];
      for x := 0 to dstWidth
        invariant dst[..] == CopyRow(before, src[..], r, y, x)
      {
        var from := srcCoord(Scaled(srcWidth, dstWidth, x), Scaled(srcHeight, dstHeight, y));
        var at := dstCoord(x, y);
        assert at == r.at(x, y) && from == r.from(x, y);
        CopyBytes(dst, at, src, from, bytes);
      }
    }
  }

  /** Inner loop of the fast path: `srcXFrac` accumulates the 32.32 step. */
  method CopyRowLinear(dst: array<byte>, dstRow: nat, src: array<byte>, srcRow: nat, p: LinearPlan, ghost y: nat)
    requires dst != src && Fits(LinearRaster(p), dst.Length, src.Length) && y < p.dstHeight && p.dstWidth > 0
    requires dstRow == p.dstBase + Mul(p.dstPitch, y)
    requires srcRow == p.srcBase + Offset32(FastScaled(p.srcHeight, p.dstHeight, y), p.srcPitch)
    modifies dst
    ensures dst[..] == CopyRow(old(dst[..]), src[..], LinearRaster(p), y, p.dstWidth)
  {
    hide Blit, Bytes, U64;
    hide Mul, Increment, Offset32;
    ghost var was, r := dst[..], LinearRaster(p);
    var srcXInc := Increment(p.srcWidth, p.dstWidth);
    var srcXFrac: nat := 0;
    for x := 0 to p.dstWidth
      invariant srcXFrac == Accumulated(srcXInc, x)
      invariant dst[..] == CopyRow(was, src[..], r, y, x)
    {
      var at, from := dstRow + Offset32(x, p.bytes), srcRow + Offset32(srcXFrac / TWO32, p.bytes);
      assert at == r.at(x, y) && from == r.from(x, y);
      CopyBytes(dst, at, src, from, p.bytes);
      AccumulateStep(srcXInc, x);
      srcXFrac := U64(srcXFrac + srcXInc);
    }
  }

  /** The fast path; width and height of the destination are divisors. */
  method CopySurfacePixelsLinear(dst: array<byte>, src: array<byte>, p: LinearPlan)
    requires dst != src && Fits(LinearRaster(p), dst.Length, src.Length) && p.dstWidth > 0 && p.dstHeight > 0
    modifies dst
    ensures dst[..] == Copied(old(dst[..]), src[..], LinearRaster(p))
  {
    hide CopyRow, U64, Fits;
    hide Mul, Increment, Offset32, FastSrc, FastDst;
    MulOne(p.dstPitch);
    ghost var was, r := dst[..], LinearRaster(p);
    var srcYInc := Increment(p.srcHeight, p.dstHeight);
    var dstRow: nat, srcYFrac: nat := p.dstBase, 0;
    for y := 0 to p.dstHeight
      invariant srcYFrac == Accumulated(srcYInc, y)
      invariant dstRow == p.dstBase + Mul(p.dstPitch, y)
      invariant dst[..] == CopyRows(was, src[..], r, y)
    {
      var srcRow := p.srcBase + Offset32(srcYFrac / TWO32, p.srcPitch);
      CopyRowLinear(dst, dstRow, src, srcRow, p, y);
      MulPlus(p.dstPitch, y, 1);
      AccumulateStep(srcYInc, y);
      srcYFrac, dstRow := U64(srcYFrac + srcYInc), dstRow + p.dstPitch;
    }
  }

  // -------- dispatch and the slice loop

  /** The checks in front of a copy; anything else aborts. */
  predicate Accepted(job: Job) {
    job.dst.bpp == job.src.bpp && job.dst.isDepth == job.src.isDepth && ValidBpp(job.dst.bpp)
  }

  /** What a copy needs: defined addresses inside the buffers, and non-zero divisors on the fast path. */
  ghost predicate Ready(job: Job, dstLen: nat, srcLen: nat) {
    && Runnable(job) && Fits(JobRaster(job), dstLen, srcLen)
    && (BothLinear(job) ==> job.dstWidth > 0 && job.dstHeight > 0)
  }

  method CopySurfacePixels(dst: array<byte>, src: array<byte>, job: Job) returns (ok: bool)
    requires dst != src && (Accepted(job) ==> Ready(job, dst.Length, src.Length))
    modifies dst
    ensures ok == Accepted(job)
    ensures !ok ==> dst[..] == old(dst[..])
    ensures ok ==> dst[..] == Copied(old(dst[..]), src[..], JobRaster(job))
  {
    hide Mul, Increment, Offset32, FastSrc, FastDst, Addr, LinearAddr, Copied, Fits, PixelBytes;
    if job.dst.bpp != job.src.bpp || job.dst.isDepth != job.src.isDepth || !ValidBpp(job.dst.bpp) {
      return false;
    }
    if Kind(job.dst.mode) == Linear && Kind(job.src.mode) == Linear {
      CopySurfacePixelsLinear(dst, src, PlanOf(job));
    } else {
      CopySurfacePixels6(dst, job.dstWidth, job.dstHeight, AddrOf(job.dst, job.dstSlice),
                         src, job.srcWidth, job.srcHeight, AddrOf(job.src, job.srcSlice), PixelBytes(job.dst));
    }
    return true;
  }

  function SliceJob(job: Job, slice: u32): Job {
    job.(dstSlice := slice, srcSlice := slice)
  }

  ghost predicate SlicesReady(job: Job, dstLen: nat, srcLen: nat, depth: u32) {
    forall z: u32 :: z < depth ==> Ready(SliceJob(job, z), dstLen, srcLen)
  }

  /** The destination after the first k slices. */
  ghost function CopiedSlices(d: seq<byte>, src: seq<byte>, job: Job, k: u32): (b: seq<byte>)
    requires SlicesReady(job, |d|, |src|, k)
    ensures |b| == |d|
    decreases k
  {
    if k == 0 then d
    else
      assert Ready(SliceJob(job, k - 1), |d|, |src|);
      Copied(CopiedSlices(d, src, job, k - 1), src, JobRaster(SliceJob(job, k - 1)))
  }

  /** The slice loop; a rejected job stops at the first slice. */
  method CopySlices(dst: array<byte>, src: array<byte>, job: Job, depth: u32) returns (ok: bool)
    requires dst != src && (Accepted(job) ==> SlicesReady(job, dst.Length, src.Length, depth))
    modifies dst
    ensures ok == (depth == 0 || Accepted(job))
    ensures !ok ==> dst[..] == old(dst[..])
    ensures ok ==> dst[..] == CopiedSlices(old(dst[..]), src[..], job, depth)
  {
    hide JobRaster, Copied, Fits, PixelBytes, Runnable;
    ghost var was := dst[..];
    var slice: u32 := 0;
    while slice < depth
      invariant slice <= depth && (slice > 0 ==> Accepted(job))
      invariant dst[..] == CopiedSlices(was, src[..], job, slice)
    {
      assert Accepted(job) ==> Ready(SliceJob(job, slice), dst.Length, src.Length);
      var copied := CopySurfacePixels(dst, src, SliceJob(job, slice));
      if !copied {
        return false;
      }
      slice := slice + 1;
    }
    return true;
  }
}
