/** Copying a raster of pixels between two buffers, for arbitrary address functions. */
module Blitting {
  import opened Machine

  type CoordFunc = (nat, nat) -> nat

  /** A raster of `width` by `height` pixels of `bytes` bytes, with their destination and source addresses. */
  datatype Raster = Raster(bytes: nat, width: nat, height: nat, at: CoordFunc, from: CoordFunc)

  /** Every pixel lies inside its buffer. */
  ghost predicate Fits(r: Raster, dstLen: nat, srcLen: nat) {
    forall x: nat, y: nat :: x < r.width && y < r.height ==> r.at(x, y) + r.bytes <= dstLen && r.from(x, y) + r.bytes <= srcLen
  }

  function Blit(d: seq<byte>, at: nat, bytes: seq<byte>): (b: seq<byte>)
    requires at + |bytes| <= |d|
    ensures |b| == |d|
  {
    d[..at] + bytes + d[at + |bytes|..]
  }

  /** The n bytes at an address. */
  function Bytes(b: seq<byte>, at: nat, n: nat): (p: seq<byte>)
    requires at + n <= |b|
    ensures |p| == n
  {
    b[at..at + n]
  }

  /** The source pixel for the destination pixel (x, y). */
  ghost function SrcPixel(src: seq<byte>, r: Raster, x: nat, y: nat): (p: seq<byte>)
    requires r.from(x, y) + r.bytes <= |src|
    ensures |p| == r.bytes
  {
    Bytes(src, r.from(x, y), r.bytes)
  }

  /** The destination after the first k pixels of row y. */
  ghost function CopyRow(d: seq<byte>, src: seq<byte>, r: Raster, y: nat, k: nat): (b: seq<byte>)
    requires Fits(r, |d|, |src|) && y < r.height && k <= r.width
    ensures |b| == |d|
  {
    if k == 0 then d
    else Blit(CopyRow(d, src, r, y, k - 1), r.at(k - 1, y), SrcPixel(src, r, k - 1, y))
  }

  /** The destination after the first k rows. */
  ghost function CopyRows(d: seq<byte>, src: seq<byte>, r: Raster, k: nat): (b: seq<byte>)
    requires Fits(r, |d|, |src|) && k <= r.height
    ensures |b| == |d|
  {
    if k == 0 then d
    else CopyRow(CopyRows(d, src, r, k - 1), src, r, k - 1, r.width)
  }

  /** The destination after the whole copy. */
  ghost function Copied(d: seq<byte>, src: seq<byte>, r: Raster): (b: seq<byte>)
    requires Fits(r, |d|, |src|)
    ensures |b| == |d|
  {
    CopyRows(d, src, r, r.height)
  }

  predicate Apart(a: nat, b: nat, n: nat) {
    a + n <= b || b + n <= a
  }

  /** Distinct destination pixels do not overlap. */
  ghost predicate Separate(r: Raster) {
    forall x: nat, y: nat, x': nat, y': nat ::
      x < r.width && y < r.height && x' < r.width && y' < r.height && (x != x' || y != y')
      ==> Apart(r.at(x, y), r.at(x', y'), r.bytes)
  }

  lemma BlitPixel(d: seq<byte>, at: nat, bytes: seq<byte>)
    requires at + |bytes| <= |d|
    ensures Bytes(Blit(d, at, bytes), at, |bytes|) == bytes
  {
  }

  lemma BlitFrame(d: seq<byte>, at: nat, bytes: seq<byte>, other: nat)
    requires at + |bytes| <= |d| && other + |bytes| <= |d| && Apart(at, other, |bytes|)
    ensures Bytes(Blit(d, at, bytes), other, |bytes|) == Bytes(d, other, |bytes|)
  {
  }

  predicate Covered(at: nat, bytes: nat, b: nat) {
    at <= b < at + bytes
  }

  /** A byte that no copied pixel of the row covers is kept. */
  lemma {:induction false} CopyRowFrame(d: seq<byte>, src: seq<byte>, r: Raster, y: nat, k: nat, b: nat)
    requires Fits(r, |d|, |src|) && y < r.height && k <= r.width && b < |d|
    requires forall x: nat :: x < k ==> !Covered(r.at(x, y), r.bytes, b)
    ensures CopyRow(d, src, r, y, k)[b] == d[b]
  {
    if k > 0 {
      CopyRowFrame(d, src, r, y, k - 1, b);
      assert !Covered(r.at(k - 1, y), r.bytes, b);
    }
  }

  lemma {:induction false} CopyRowPixel(d: seq<byte>, src: seq<byte>, r: Raster, y: nat, k: nat, x: nat)
    requires Fits(r, |d|, |src|) && Separate(r) && y < r.height && x < k <= r.width
    ensures Bytes(CopyRow(d, src, r, y, k), r.at(x, y), r.bytes) == SrcPixel(src, r, x, y)
  {
    hide Blit, Bytes;
    var prev := CopyRow(d, src, r, y, k - 1);
    if x == k - 1 {
      BlitPixel(prev, r.at(x, y), SrcPixel(src, r, x, y));
    } else {
      CopyRowPixel(d, src, r, y, k - 1, x);
      assert Apart(r.at(k - 1, y), r.at(x, y), r.bytes);
      BlitFrame(prev, r.at(k - 1, y), SrcPixel(src, r, k - 1, y), r.at(x, y));
    }
  }

  lemma {:induction false} CopyRowsFrame(d: seq<byte>, src: seq<byte>, r: Raster, k: nat, b: nat)
    requires Fits(r, |d|, |src|) && k <= r.height && b < |d|
    requires forall x: nat, y: nat :: x < r.width && y < k ==> !Covered(r.at(x, y), r.bytes, b)
    ensures CopyRows(d, src, r, k)[b] == d[b]
  {
    hide CopyRow;
    if k > 0 {
      CopyRowsFrame(d, src, r, k - 1, b);
      CopyRowFrame(CopyRows(d, src, r, k - 1), src, r, k - 1, r.width, b);
    }
  }

  lemma SameBytes(b: seq<byte>, d: seq<byte>, at: nat, n: nat)
    requires |b| == |d| && at + n <= |d| && forall i: nat :: Covered(at, n, i) ==> b[i] == d[i]
    ensures Bytes(b, at, n) == Bytes(d, at, n)
  {
    forall i: nat | i < n ensures Bytes(b, at, n)[i] == Bytes(d, at, n)[i] {
      assert Covered(at, n, at + i);
    }
  }

  lemma SeparateRow(r: Raster, row: nat, x: nat, y: nat)
    requires Separate(r) && row < r.height && x < r.width && y < r.height && row != y
    ensures forall i: nat :: i < r.width ==> Apart(r.at(i, row), r.at(x, y), r.bytes)
  {
  }

  /** Copying another row keeps the pixels of the rows before it. */
  lemma LaterRowKeeps(d: seq<byte>, src: seq<byte>, r: Raster, row: nat, x: nat, y: nat)
    requires Fits(r, |d|, |src|) && Separate(r) && x < r.width && y < row < r.height
    ensures Bytes(CopyRow(d, src, r, row, r.width), r.at(x, y), r.bytes) == Bytes(d, r.at(x, y), r.bytes)
  {
    hide CopyRow;
    SeparateRow(r, row, x, y);
    forall b: nat | Covered(r.at(x, y), r.bytes, b) ensures CopyRow(d, src, r, row, r.width)[b] == d[b] {
      CopyRowFrame(d, src, r, row, r.width, b);
    }
    SameBytes(CopyRow(d, src, r, row, r.width), d, r.at(x, y), r.bytes);
  }

  lemma {:induction false} CopyRowsPixel(d: seq<byte>, src: seq<byte>, r: Raster, k: nat, x: nat, y: nat)
    requires Fits(r, |d|, |src|) && Separate(r) && x < r.width && y < k <= r.height
    ensures Bytes(CopyRows(d, src, r, k), r.at(x, y), r.bytes) == SrcPixel(src, r, x, y)
  {
    hide Bytes, Separate, SrcPixel;
    var prev := CopyRows(d, src, r, k - 1);
    if y == k - 1 {
      CopyRowPixel(prev, src, r, y, r.width, x);
    } else {
      CopyRowsPixel(d, src, r, k - 1, x, y);
      LaterRowKeeps(prev, src, r, k - 1, x, y);
    }
  }

  /** Every destination pixel ends up holding its source pixel. */
  lemma CopiedPixel(d: seq<byte>, src: seq<byte>, r: Raster, x: nat, y: nat)
    requires Fits(r, |d|, |src|) && Separate(r) && x < r.width && y < r.height
    ensures Bytes(Copied(d, src, r), r.at(x, y), r.bytes) == SrcPixel(src, r, x, y)
  {
    CopyRowsPixel(d, src, r, r.height, x, y);
  }

  lemma CopiedPixelAt(d: seq<byte>, src: seq<byte>, r: Raster, x: nat, y: nat, at: nat, from: nat)
    requires Fits(r, |d|, |src|) && Separate(r) && x < r.width && y < r.height
    requires at == r.at(x, y) && from == r.from(x, y)
    ensures at + r.bytes <= |d| && from + r.bytes <= |src|
    ensures Bytes(Copied(d, src, r), at, r.bytes) == Bytes(src, from, r.bytes)
  {
    CopiedPixel(d, src, r, x, y);
  }

  /** A byte that no destination pixel covers is kept. */
  lemma CopiedFrame(d: seq<byte>, src: seq<byte>, r: Raster, b: nat)
    requires Fits(r, |d|, |src|) && b < |d|
    requires forall x: nat, y: nat :: x < r.width && y < r.height ==> !Covered(r.at(x, y), r.bytes, b)
    ensures Copied(d, src, r)[b] == d[b]
  {
    CopyRowsFrame(d, src, r, r.height, b);
  }

  /** So a pixel that no destination pixel overlaps keeps its bytes. */
  lemma CopiedRange(d: seq<byte>, src: seq<byte>, r: Raster, at: nat)
    requires Fits(r, |d|, |src|) && at + r.bytes <= |d|
    requires forall x: nat, y: nat :: x < r.width && y < r.height ==> Apart(r.at(x, y), at, r.bytes)
    ensures Bytes(Copied(d, src, r), at, r.bytes) == Bytes(d, at, r.bytes)
  {
    hide Copied;
    forall b: nat | Covered(at, r.bytes, b) ensures Copied(d, src, r)[b] == d[b] {
      CopiedFrame(d, src, r, b);
    }
    SameBytes(Copied(d, src, r), d, at, r.bytes);
  }

  /** Rasters that visit the same addresses. */
  ghost predicate SameVisits(r: Raster, q: Raster) {
    && r.bytes == q.bytes && r.width == q.width && r.height == q.height
    && forall x: nat, y: nat :: x < r.width && y < r.height ==> r.at(x, y) == q.at(x, y) && r.from(x, y) == q.from(x, y)
  }

  lemma {:induction false} SameRow(d: seq<byte>, src: seq<byte>, r: Raster, q: Raster, y: nat, k: nat)
    requires SameVisits(r, q) && Fits(r, |d|, |src|) && Fits(q, |d|, |src|) && y < r.height && k <= r.width
    ensures CopyRow(d, src, r, y, k) == CopyRow(d, src, q, y, k)
  {
    hide Blit, Bytes;
    if k > 0 {
      SameRow(d, src, r, q, y, k - 1);
    }
  }

  lemma {:induction false} SameRows(d: seq<byte>, src: seq<byte>, r: Raster, q: Raster, k: nat)
    requires SameVisits(r, q) && Fits(r, |d|, |src|) && Fits(q, |d|, |src|) && k <= r.height
    ensures CopyRows(d, src, r, k) == CopyRows(d, src, q, k)
  {
    hide CopyRow, Fits;
    if k > 0 {
      SameRows(d, src, r, q, k - 1);
      SameRow(CopyRows(d, src, r, k - 1), src, r, q, k - 1, r.width);
    }
  }

  /** Rasters that visit the same addresses compute the same destination. */
  lemma SameCopy(d: seq<byte>, src: seq<byte>, r: Raster, q: Raster)
    requires SameVisits(r, q) && Fits(r, |d|, |src|) && Fits(q, |d|, |src|)
    ensures Copied(d, src, r) == Copied(d, src, q)
  {
    SameRows(d, src, r, q, r.height);
  }
}
