/** The reservation list as a set of addresses: what allocating and freeing do to it, and when. */
module ReservationsExact {
  import opened Machine
  import opened Reservations

  // -------- requests

  /** Bytes a page-rounded size stands for: rounding the last page up wraps to zero. */
  function Span(size: u32): nat {
    if size == 0 then TWO32 else size
  }

  lemma LastIs(start: u32, size: u32)
    requires start + Span(size) <= TWO32
    ensures LastOf(start, size) == start + Span(size) - 1
  {
    if size == 0 {
      assert U32(size - 1) == TWO32 - 1;
    } else {
      U32Id(size - 1);
      U32Id(start + size - 1);
    }
  }

  lemma WrappedEnd(start: u32, size: u32)
    requires start + Span(size) > TWO32
    ensures 0 <= start + Span(size) - 1 - TWO32 && LastOf(start, size) == start + Span(size) - 1 - TWO32
  {
    if size == 0 {
      assert U32(size - 1) == TWO32 - 1;
      assert U32(start - 1 + TWO32) == start - 1;
    } else {
      U32Id(size - 1);
      assert U32(start + size - 1) == start + size - 1 - TWO32;
    }
  }

  ghost predicate AllFree(rs: seq<Range>, start: int, end: int) {
    forall a :: start <= a <= end ==> Covers(rs, a)
  }

  ghost predicate NoneFree(rs: seq<Range>, start: int, end: int) {
    forall a :: start <= a <= end ==> !Covers(rs, a)
  }

  /** Because the list is coalesced, one entry contains a range exactly when every address in it is free. */
  lemma HeldIffFree(rs: seq<Range>, start: u32, end: u32)
    requires Separated(rs) && start <= end
    ensures FirstHolding(rs, start, end) < |rs| <==> AllFree(rs, start, end)
  {
    if AllFree(rs, start, end) {
      assert Covers(rs, start);
      var i :| 0 <= i < |rs| && rs[i].start <= start <= rs[i].end;
      assert rs[i].end + 1 <= end ==> Covers(rs, rs[i].end + 1);
    }
  }

  // -------- replacing part of the list

  lemma CoversAppend(x: seq<Range>, y: seq<Range>, a: int)
    ensures Covers(x + y, a) <==> Covers(x, a) || Covers(y, a)
  {
    var z := x + y;
    if Covers(z, a) {
      var i :| 0 <= i < |z| && z[i].start <= a <= z[i].end;
      assert i < |x| ==> x[i] == z[i];
      assert i >= |x| ==> y[i - |x|] == z[i];
    }
    if Covers(x, a) {
      var i :| 0 <= i < |x| && x[i].start <= a <= x[i].end;
      assert z[i] == x[i];
    }
    if Covers(y, a) {
      var i :| 0 <= i < |y| && y[i].start <= a <= y[i].end;
      assert z[|x| + i] == y[i];
    }
  }

  function Replaced(rs: seq<Range>, i: nat, j: nat, mid: seq<Range>): seq<Range>
    requires i <= j <= |rs|
  {
    rs[..i] + mid + rs[j..]
  }

  lemma ReplacedCovers(rs: seq<Range>, i: nat, j: nat, mid: seq<Range>, a: int)
    requires i <= j <= |rs|
    ensures Covers(Replaced(rs, i, j, mid), a) <==> Covers(rs[..i], a) || Covers(mid, a) || Covers(rs[j..], a)
    ensures Covers(rs, a) <==> Covers(rs[..i], a) || Covers(rs[i..j], a) || Covers(rs[j..], a)
  {
    hide Covers;
    CoversAppend(rs[..i] + mid, rs[j..], a);
    CoversAppend(rs[..i], mid, a);
    CoversAppend(rs[..i] + rs[i..j], rs[j..], a);
    CoversAppend(rs[..i], rs[i..j], a);
    assert rs == rs[..i] + rs[i..j] + rs[j..];
  }

  /** The new entries lie strictly between the entries that stay. */
  predicate Between(rs: seq<Range>, i: nat, j: nat, mid: seq<Range>)
    requires i <= j <= |rs|
  {
    forall m :: 0 <= m < |mid| ==>
      (i > 0 ==> rs[i - 1].end + 1 < mid[m].start) && (j < |rs| ==> mid[m].end + 1 < rs[j].start)
  }

  lemma ReplacedSeparated(rs: seq<Range>, i: nat, j: nat, mid: seq<Range>)
    requires i <= j <= |rs| && Separated(rs) && Separated(mid) && Between(rs, i, j, mid)
    ensures Separated(Replaced(rs, i, j, mid))
  {
    var z := Replaced(rs, i, j, mid);
    forall k | 0 <= k < |z| ensures z[k].start <= z[k].end {}
    forall k, l | 0 <= k < l < |z| ensures z[k].end + 1 < z[l].start {
      var n := i + |mid|;
      if k < i {
        assert z[k] == rs[k] && rs[k].end <= rs[i - 1].end;
      }
      if l >= n {
        assert z[l] == rs[l - n + j] && rs[j].start <= rs[l - n + j].start;
      }
    }
  }

  lemma ReplacedAligned(rs: seq<Range>, i: nat, j: nat, mid: seq<Range>)
    requires i <= j <= |rs| && AllAligned(rs) && AllAligned(mid)
    ensures AllAligned(Replaced(rs, i, j, mid))
  {
    hide PageAligned;
  }

  // -------- allocation

  /** The list is canonical and lost exactly the addresses of the range. */
  ghost predicate Took(rs: seq<Range>, rs': seq<Range>, start: int, end: int) {
    Separated(rs') && forall a :: Covers(rs', a) <==> Covers(rs, a) && !(start <= a <= end)
  }

  /** What is left of the entry that contained the range. */
  function Rest(r: Range, start: u32, size: u32, end: u32): seq<Range> {
    if start == r.start && end == r.end then []
    else if start == r.start then [Range(U32(r.start + size), r.end)]
    else if end == r.end then [Range(r.start, U32(r.end - size))]
    else [Range(r.start, U32(start - 1)), Range(U32(start + size), r.end)]
  }

  lemma CarveIs(rs: seq<Range>, i: nat, start: u32, size: u32, end: u32)
    requires i < |rs|
    ensures Carve(rs, i, start, size, end) == Replaced(rs, i, i + 1, Rest(rs[i], start, size, end))
  {
    assert rs[..i] + [] + rs[i + 1..] == rs[..i] + rs[i + 1..];
  }

  lemma RestExact(r: Range, start: u32, size: u32, end: u32)
    requires r.start <= start && start + Span(size) - 1 == end <= r.end
    ensures var m := Rest(r, start, size, end);
            && Separated(m)
            && (forall k :: 0 <= k < |m| ==> r.start <= m[k].start && m[k].end <= r.end)
            && (forall a :: Covers(m, a) <==> r.start <= a <= r.end && !(start <= a <= end))
  {
    hide Covers, U32;
    var m := Rest(r, start, size, end);
    RestEnds(r, start, size, end);
    forall a ensures Covers(m, a) <==> r.start <= a <= r.end && !(start <= a <= end) {
      CoversFew(m, a);
    }
  }

  lemma RestEnds(r: Range, start: u32, size: u32, end: u32)
    requires r.start <= start && start + Span(size) - 1 == end <= r.end
    ensures start > r.start ==> U32(start - 1) == start - 1
    ensures end < r.end ==> U32(start + size) == end + 1
    ensures start == r.start && end < r.end ==> U32(r.start + size) == end + 1
    ensures start > r.start && end == r.end ==> U32(r.end - size) == start - 1
  {
  }

  lemma CoversFew(m: seq<Range>, a: int)
    requires |m| <= 2
    ensures Covers(m, a) <==> (|m| > 0 && m[0].start <= a <= m[0].end) || (|m| > 1 && m[1].start <= a <= m[1].end)
  {
  }

  lemma CarveExact(rs: seq<Range>, i: nat, start: u32, size: u32, end: u32)
    requires i < |rs| && Separated(rs) && rs[i].start <= start && start + Span(size) - 1 == end <= rs[i].end
    ensures Took(rs, Carve(rs, i, start, size, end), start, end)
  {
    hide Covers, Rest, Carve;
    var mid := Rest(rs[i], start, size, end);
    CarveIs(rs, i, start, size, end);
    RestExact(rs[i], start, size, end);
    ReplacedSeparated(rs, i, i + 1, mid);
    forall a ensures Covers(Replaced(rs, i, i + 1, mid), a) <==> Covers(rs, a) && !(start <= a <= end) {
      ReplacedCovers(rs, i, i + 1, mid, a);
      OutsideEntry(rs, i, a);
    }
  }

  /** The entry at `i`, and the entries that are not it. */
  lemma OutsideEntry(rs: seq<Range>, i: nat, a: int)
    requires i < |rs| && Separated(rs)
    ensures Covers(rs[i..i + 1], a) <==> rs[i].start <= a <= rs[i].end
    ensures rs[i].start <= a <= rs[i].end ==> !Covers(rs[..i], a) && !Covers(rs[i + 1..], a)
  {
    assert rs[i..i + 1] == [rs[i]];
    assert rs[i].start <= a <= rs[i].end ==> rs[i..i + 1][0].start <= a <= rs[i..i + 1][0].end;
  }

  /** Allocation succeeds exactly when every address asked for is free, and takes exactly those. */
  lemma AllocateExact(rs: seq<Range>, address: u32, bytes: u32)
    requires Separated(rs) && bytes > 0 && AlignPage(address) + Span(AlignPage(bytes)) <= TWO32
    ensures var start, end := AlignPage(address), AlignPage(address) + Span(AlignPage(bytes)) - 1;
            && (Allocate(rs, address, bytes).Some? <==> AllFree(rs, start, end))
            && (Allocate(rs, address, bytes).Some? ==> Took(rs, Allocate(rs, address, bytes).value, start, end))
  {
    hide AlignPage, Separated, Carve, AllFree, Took, LastOf, FirstHolding;
    var start, size := AlignPage(address), AlignPage(bytes);
    LastIs(start, size);
    var end := LastOf(start, size);
    HeldIffFree(rs, start, end);
    var i := FirstHolding(rs, start, end);
    if i < |rs| {
      CarveExact(rs, i, start, size, end);
    }
  }
}
