/** Untiling a texture: every pixel of the linear image is the pixel of the texture, found where the arithmetic places it. */
module Untiling {
  import opened Machine
  import opened Products
  import opened Tiling
  import opened TilingInjective
  import opened TilingReference
  import opened Blitting
  import opened SurfaceCopy
  import opened TileRoundTrip

  /** The surfaces untiling sets up: the texture and a linear image of the same height. */
  function UntileJob(outputPitch: u32, mode: TileMode, pipeSwizzle: u32, bankSwizzle: u32,
                     pitch: u32, width: u32, height: u32, depth: u32, isDepth: bool, bpp: nat): Job {
    Job(Surface(LinearGeneral, bpp, isDepth, outputPitch, height, depth, 0, 0, 0, 0), 0, width, height,
        Surface(mode, bpp, isDepth, pitch, height, depth, 0, 0, pipeSwizzle, bankSwizzle), 0, width, height)
  }

  function Image(s: Surface, outputPitch: u32): Surface {
    Surface(LinearGeneral, s.bpp, s.isDepth, outputPitch, s.height, s.numSlices, 0, 0, 0, 0)
  }

  /** The texture and its image can be addressed, the buffers are large enough and the loops' products fit. */
  predicate Untilable(outputBytes: nat, outputPitch: u32, inputBytes: nat, s: Surface, width: u32) {
    && WellFormed(s) && WellFormed(Image(s, outputPitch)) && 0 < width <= s.pitch && width <= outputPitch
    && BufferBytes(Image(s, outputPitch)) <= outputBytes && BufferBytes(s) <= inputBytes
    && (if s.mode in {LinearGeneral, LinearAligned} then
          s.bpp / 8 * (width - 1) < TWO32 && s.bpp / 8 * s.pitch * (s.height - 1) < TWO32
          && (s.height > 1 ==> s.bpp / 8 * outputPitch < TWO32)
        else width <= 0x1_0000 && s.height <= 0x1_0000)
  }

  /** Bytes of pixel (x, y, z) of the image and of the texture. */
  predicate PixelCopied(output: seq<byte>, outputPitch: u32, input: seq<byte>, s: Surface, x: nat, y: nat, z: nat)
    requires Addressable(s)
  {
    var n := s.bpp / 8;
    var at, from := n * Counted(outputPitch, s.height, x, y, z), Place(s, x, y, z);
    0 <= at && at + n <= |output| && from + n <= |input| && output[at..at + n] == input[from..from + n]
  }

  /** Every pixel of every slice of the linear image is the one of the texture. */
  ghost predicate ImageOf(output: seq<byte>, outputPitch: u32, input: seq<byte>, s: Surface, width: u32) {
    Untilable(|output|, outputPitch, |input|, s, width) ==>
      forall x: nat, y: nat, z: nat :: x < width && y < s.height && z < s.numSlices ==>
        PixelCopied(output, outputPitch, input, s, x, y, z)
  }

  /** The job that untiles a surface. */
  function JobFor(s: Surface, outputPitch: u32, width: u32): Job {
    Job(Image(s, outputPitch), 0, width, s.height, s, 0, width, s.height)
  }

  lemma ProductsFit(s: Surface, outputPitch: u32, width: u32)
    requires width > 0 && s.height > 0 && s.bpp / 8 * (width - 1) < TWO32 && s.bpp / 8 * s.pitch * (s.height - 1) < TWO32
    requires s.height > 1 ==> s.bpp / 8 * outputPitch < TWO32
    ensures FastProductsFit(JobFor(s, outputPitch, width))
  {
    hide Mul;
    var n := PixelBytes(s);
    MulIs(width - 1, n);
    MulIs(outputPitch, n);
    MulIs(s.pitch, n);
    MulIs(Mul(s.pitch, n), s.height - 1);
    MulCommutes(n, width - 1);
    MulCommutes(n, outputPitch);
    MulCommutes(n, s.pitch);
  }

  lemma UntilableSlices(d: seq<byte>, outputPitch: u32, input: seq<byte>, s: Surface, width: u32)
    requires Untilable(|d|, outputPitch, |input|, s, width)
    ensures UnscaledSlices(JobFor(s, outputPitch, width), d, input, s.numSlices)
  {
    hide WellFormed, BufferBytes, FastProductsFit;
    ModeIs(s.mode);
    if Kind(s.mode) == Linear {
      HeightPositive(s);
      ProductsFit(s, outputPitch, width);
    }
    HeightPositive(s);
  }

  lemma HeightPositive(s: Surface)
    requires WellFormed(s)
    ensures s.height > 0 && Addressable(s)
  {
  }

  lemma Imaged(d: seq<byte>, outputPitch: u32, input: seq<byte>, s: Surface, width: u32)
    requires SlicesReady(JobFor(s, outputPitch, width), |d|, |input|, s.numSlices)
    ensures ImageOf(CopiedSlices(d, input, JobFor(s, outputPitch, width), s.numSlices), outputPitch, input, s, width)
  {
    hide SlicesReady, CopiedSlices, PixelCopied, Untilable, UnscaledSlices;
    if Untilable(|d|, outputPitch, |input|, s, width) {
      assert Addressable(s) by { UntilableAddressable(|d|, outputPitch, |input|, s, width); }
      forall x: nat, y: nat, z: nat | x < width && y < s.height && z < s.numSlices
        ensures PixelCopied(CopiedSlices(d, input, JobFor(s, outputPitch, width), s.numSlices), outputPitch, input, s, x, y, z)
      {
        OnePixel(d, outputPitch, input, s, width, x, y, z);
      }
    }
  }

  lemma UntilableAddressable(outputBytes: nat, outputPitch: u32, inputBytes: nat, s: Surface, width: u32)
    requires Untilable(outputBytes, outputPitch, inputBytes, s, width)
    ensures Addressable(s) && WellFormed(s) && WellFormed(Image(s, outputPitch))
  {
  }

  lemma OnePixel(d: seq<byte>, outputPitch: u32, input: seq<byte>, s: Surface, width: u32, x: nat, y: nat, z: nat)
    requires Untilable(|d|, outputPitch, |input|, s, width) && Addressable(s) && x < width && y < s.height && z < s.numSlices
    requires SlicesReady(JobFor(s, outputPitch, width), |d|, |input|, s.numSlices)
    ensures PixelCopied(CopiedSlices(d, input, JobFor(s, outputPitch, width), s.numSlices), outputPitch, input, s, x, y, z)
  {
    hide SlicesReady, CopiedSlices, BufferBytes, Counted, Place, UnscaledSlices, WellFormed, PixelAt;
    var job := JobFor(s, outputPitch, width);
    UntilableSlices(d, outputPitch, input, s, width);
    AllSlicePixels(job, d, input, s.numSlices, x, y, z);
    ImagePlace(s, outputPitch, x, y, z);
    BytesAt(CopiedSlices(d, input, job, s.numSlices), job.dst, x, y, z);
    BytesAt(input, s, x, y, z);
  }

  /** The bytes of a pixel, by the arithmetic place. */
  lemma BytesAt(buf: seq<byte>, s: Surface, x: nat, y: nat, z: nat)
    requires WellFormed(s) && InSurface(s, x, y, z) && BufferBytes(s) <= |buf|
    ensures var at, n := Place(s, x, y, z), s.bpp / 8; at + n <= |buf| && PixelAt(buf, s, x, y, z) == buf[at..at + n]
  {
    hide Addr, BufferBytes, Place;
    AddrInBounds(s, x, y, z);
    AddrIs(s, x, y, z);
  }

  lemma ImagePlace(s: Surface, outputPitch: u32, x: nat, y: nat, z: nat)
    ensures Addressable(Image(s, outputPitch))
    ensures Place(Image(s, outputPitch), x, y, z) == s.bpp / 8 * Counted(outputPitch, s.height, x, y, z)
  {
    hide Counted;
  }

  /** Untiles a texture; several samples (`aa` not 0) or an unknown pixel size abort at the first slice. */
  method ConvertFromTiled(output: array<byte>, outputPitch: u32, input: array<byte>, mode: TileMode,
                          pipeSwizzle: u32, bankSwizzle: u32, pitch: u32, width: u32, height: u32, depth: u32,
                          aa: nat, isDepth: bool, bpp: nat) returns (ok: bool)
    requires output != input
    requires ValidBpp(bpp) && aa == 0 ==>
      SlicesReady(UntileJob(outputPitch, mode, pipeSwizzle, bankSwizzle, pitch, width, height, depth, isDepth, bpp),
                  output.Length, input.Length, depth)
    modifies output
    ensures ok == (depth == 0 || (bpp in {8, 16, 32, 64, 96, 128} && aa == 0))
    ensures !ok || depth == 0 ==> output[..] == old(output[..])
    ensures ok && depth > 0 ==>
      output[..] == CopiedSlices(old(output[..]), input[..],
                                 UntileJob(outputPitch, mode, pipeSwizzle, bankSwizzle, pitch, width, height, depth, isDepth, bpp),
                                 depth)
    ensures ok && depth > 0 ==>
      ImageOf(output[..], outputPitch, input[..], Surface(mode, bpp, isDepth, pitch, height, depth, 0, 0, pipeSwizzle, bankSwizzle),
              width)
  {
    hide ImageOf;
    hide JobRaster, CopiedSlices, Copied, Fits, PixelBytes, SlicesReady;
    if depth == 0 || aa != 0 {
      return depth == 0;
    }
    var job := UntileJob(outputPitch, mode, pipeSwizzle, bankSwizzle, pitch, width, height, depth, isDepth, bpp);
    ok := CopySlices(output, input, job, depth);
    if ok {
      Imaged(old(output[..]), outputPitch, input[..], job.src, width);
    }
  }
}
