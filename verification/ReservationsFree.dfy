/** When freeing a range is correct, and why. */
module ReservationsFree {
  import opened Machine
  import opened Reservations
  import opened ReservationsExact

  /** The list is canonical and gained exactly the addresses of the range. */
  ghost predicate Gave(rs: seq<Range>, rs': seq<Range>, start: int, end: int) {
    Separated(rs') && forall a :: Covers(rs', a) <==> Covers(rs, a) || start <= a <= end
  }

  /** The range reaches the top of the address space while address zero is free. */
  predicate WrapsUp(rs: seq<Range>, start: u32, size: u32) {
    start + Span(size) == TWO32 && rs != [] && rs[0].start == 0
  }

  /** The range starts at address zero while the top is free and nothing free follows the range. */
  predicate WrapsDown(rs: seq<Range>, start: u32, size: u32) {
    start == 0 && rs != [] && rs[|rs| - 1].end == TWO32 - 1 && rs[0].start != size
  }

  ghost predicate Safe(rs: seq<Range>, start: u32, size: u32) {
    var end := start + Span(size) - 1;
    AllFree(rs, start, end) || (NoneFree(rs, start, end) && !WrapsUp(rs, start, size) && !WrapsDown(rs, start, size))
  }

  // -------- the safe cases

  /** Replacing entries by one that covers them and the range gives the range back. */
  lemma Joined(rs: seq<Range>, i: nat, j: nat, r: Range, start: int, end: int)
    requires i <= j <= |rs| && Separated(rs) && r.start <= r.end && Between(rs, i, j, [r])
    requires forall a :: r.start <= a <= r.end <==> Covers(rs[i..j], a) || start <= a <= end
    ensures Gave(rs, Replaced(rs, i, j, [r]), start, end)
  {
    hide Covers, Replaced;
    ReplacedSeparated(rs, i, j, [r]);
    forall a ensures Covers(Replaced(rs, i, j, [r]), a) <==> Covers(rs, a) || start <= a <= end {
      ReplacedCovers(rs, i, j, [r], a);
      CoversOne(r, a);
    }
  }

  lemma CoversOne(r: Range, a: int)
    ensures Covers([r], a) <==> r.start <= a <= r.end
  {
    assert [r][0] == r;
  }

  /** No entry meets a range none of which is free. */
  lemma Apart(rs: seq<Range>, k: nat, start: int, end: int)
    requires k < |rs| && start <= end && NoneFree(rs, start, end) && rs[k].start <= rs[k].end
    ensures rs[k].end < start || end < rs[k].start
  {
    var a := if rs[k].start < start then start else rs[k].start;
    assert rs[k].start <= a <= rs[k].end ==> Covers(rs, a);
  }

  lemma InsertGives(rs: seq<Range>, start: u32, size: u32)
    requires Separated(rs) && start + Span(size) <= TWO32 && NoneFree(rs, start, start + Span(size) - 1)
    requires FirstTouching(rs, start, size) == |rs|
    ensures Gave(rs, PutBack(rs, start, size), start, start + Span(size) - 1)
  {
    hide FirstTouching, InsertAt, NoneFree;
    LastIs(start, size);
    var k, r := InsertAt(rs, start), Range(start, LastOf(start, size));
    assert PutBack(rs, start, size) == Replaced(rs, k, k, [r]);
    if k > 0 {
      Apart(rs, k - 1, start, r.end);
      assert !Touches(rs[k - 1], start, size);
      U32Id(rs[k - 1].end + 1);
    }
    if k < |rs| {
      Apart(rs, k, start, r.end);
      assert !Touches(rs[k], start, size);
      assert size != 0;
      U32Id(start + size);
    }
    assert rs[k..k] == [];
    Joined(rs, k, k, r, start, r.end);
  }

  /** One entry grown by an adjacent range. */
  lemma JoinedOne(rs: seq<Range>, i: nat, r: Range, start: int, end: int)
    requires Separated(rs) && i < |rs| && start <= end && Between(rs, i, i + 1, [r])
    requires (r.start == start && end + 1 == rs[i].start && r.end == rs[i].end)
          || (r.start == rs[i].start && rs[i].end + 1 == start && r.end == end)
    ensures Gave(rs, Replaced(rs, i, i + 1, [r]), start, end)
  {
    hide Gave, Replaced, Between;
    var part := rs[i..i + 1];
    forall a ensures r.start <= a <= r.end <==> Covers(part, a) || start <= a <= end {
      OutsideEntry(rs, i, a);
    }
    Joined(rs, i, i + 1, r, start, end);
  }

  /** Two entries joined by the range between them. */
  lemma JoinedTwo(rs: seq<Range>, i: nat, r: Range, start: int, end: int)
    requires Separated(rs) && i + 1 < |rs| && start <= end && rs[i].end + 1 == start && end + 1 == rs[i + 1].start
    requires r == Range(rs[i].start, rs[i + 1].end)
    ensures Gave(rs, Replaced(rs, i, i + 2, [r]), start, end)
  {
    hide Gave, Replaced;
    var part := rs[i..i + 2];
    forall a ensures r.start <= a <= r.end <==> Covers(part, a) || start <= a <= end {
      CoversTwo(rs, i, a);
    }
    Joined(rs, i, i + 2, r, start, end);
  }

  lemma CoversTwo(rs: seq<Range>, i: nat, a: int)
    requires i + 1 < |rs|
    ensures Covers(rs[i..i + 2], a) <==> rs[i].start <= a <= rs[i].end || rs[i + 1].start <= a <= rs[i + 1].end
  {
    hide Covers;
    assert rs[i..i + 2] == [rs[i]] + [rs[i + 1]];
    CoversAppend([rs[i]], [rs[i + 1]], a);
    CoversOne(rs[i], a);
    CoversOne(rs[i + 1], a);
  }

  lemma GrowBackGives(rs: seq<Range>, i: nat, start: u32, size: u32)
    requires Separated(rs) && i < |rs| && 0 < size && start + size < TWO32 && NoneFree(rs, start, start + size - 1)
    requires rs[i].start == start + size
    ensures Gave(rs, GrowBack(rs, i, size), start, start + size - 1)
  {
    hide NoneFree, Gave, Covers;
    var end := start + size - 1;
    U32Id(start);
    if i > 0 {
      Apart(rs, i - 1, start, end);
      U32Id(rs[i - 1].end + 1);
    }
    if i > 0 && rs[i - 1].end + 1 == start {
      JoinedTwo(rs, i - 1, Range(rs[i - 1].start, rs[i].end), start, end);
    } else {
      JoinedOne(rs, i, Range(start, rs[i].end), start, end);
    }
  }

  lemma GrowForwardGives(rs: seq<Range>, i: nat, start: u32, size: u32)
    requires Separated(rs) && i < |rs| && 0 < size && start + size <= TWO32 && NoneFree(rs, start, start + size - 1)
    requires rs[i].end + 1 == start
    ensures Gave(rs, GrowForward(rs, i, size), start, start + size - 1)
  {
    hide NoneFree, Gave, Covers;
    var end := start + size - 1;
    U32Id(end);
    assert rs[i].end + size == end;
    if i + 1 < |rs| {
      Apart(rs, i + 1, start, end);
      U32Id(end + 1);
    }
    if i + 1 < |rs| && rs[i + 1].start == end + 1 {
      JoinedTwo(rs, i, Range(rs[i].start, rs[i + 1].end), start, end);
    } else {
      JoinedOne(rs, i, Range(rs[i].start, end), start, end);
    }
  }

  /** A safe range touches entries where it ends and where it starts, not around the address space. */
  lemma TouchesProperly(rs: seq<Range>, i: nat, start: u32, size: u32)
    requires Separated(rs) && i < |rs| && 0 < size && start + size <= TWO32 && i == FirstTouching(rs, start, size)
    requires !WrapsUp(rs, start, size) && !WrapsDown(rs, start, size)
    ensures if rs[i].start == U32(start + size) then rs[i].start == start + size else rs[i].end + 1 == start
  {
    hide FirstTouching;
    assert start + size == TWO32 ==> U32(start + size) == 0;
    assert start + size < TWO32 ==> U32(start + size) == start + size;
    assert i > 0 ==> rs[i - 1].end + 1 < rs[i].start;
    assert i + 1 < |rs| ==> rs[i].end + 1 < rs[i + 1].start;
    assert rs[i].end == TWO32 - 1 ==> U32(rs[i].end + 1) == 0;
    assert rs[i].end < TWO32 - 1 ==> U32(rs[i].end + 1) == rs[i].end + 1;
    assert rs[0].start == U32(start + size) ==> Touches(rs[0], start, size);
  }

  lemma SafeGives(rs: seq<Range>, start: u32, size: u32)
    requires Separated(rs) && start + Span(size) <= TWO32 && NoneFree(rs, start, start + Span(size) - 1)
    requires !WrapsUp(rs, start, size) && !WrapsDown(rs, start, size)
    ensures Gave(rs, PutBack(rs, start, size), start, start + Span(size) - 1)
  {
    hide FirstTouching, NoneFree, Gave, GrowBack, GrowForward, InsertAt, WrapsUp, WrapsDown;
    var i := FirstTouching(rs, start, size);
    if i == |rs| {
      InsertGives(rs, start, size);
    } else {
      Apart(rs, i, start, start + Span(size) - 1);
      assert size != 0;
      TouchesProperly(rs, i, start, size);
      if rs[i].start == U32(start + size) {
        GrowBackGives(rs, i, start, size);
      } else {
        GrowForwardGives(rs, i, start, size);
      }
    }
  }

  // -------- the unsafe cases

  /** Two entries of a separated list share no address. */
  lemma Overlap(rs: seq<Range>, i: nat, j: nat, a: int)
    requires i < j < |rs| && rs[i].start <= a <= rs[i].end && rs[j].start <= a <= rs[j].end
    ensures !Separated(rs)
  {
  }

  /** An insertion or growth that leaves another entry of the range in place breaks the list. */
  lemma LeftOver(rs: seq<Range>, i: nat, j: nat, r: Range, m: nat, a: int)
    requires i <= j <= |rs| && m < |rs| && !(i <= m < j)
    requires rs[m].start <= a <= rs[m].end && r.start <= a <= r.end
    ensures !Separated(Replaced(rs, i, j, [r]))
  {
    var z := Replaced(rs, i, j, [r]);
    assert z[i] == r;
    if m < i {
      assert z[m] == rs[m];
      Overlap(z, m, i, a);
    } else {
      assert z[m - j + i + 1] == rs[m];
      Overlap(z, i, m - j + i + 1, a);
    }
  }

  lemma Backwards(rs: seq<Range>, i: nat, r: Range)
    requires i < |rs| && r.end < r.start
    ensures !Separated(Replaced(rs, i, i + 1, [r]))
  {
    assert Replaced(rs, i, i + 1, [r])[i] == r;
  }

  /** The list as it was cannot have gained an address it does not cover. */
  lemma Unchanged(rs: seq<Range>, start: int, end: int)
    requires !AllFree(rs, start, end)
    ensures !Gave(rs, rs, start, end)
  {
    hide Covers;
    var b :| start <= b <= end && !Covers(rs, b);
  }

  lemma BackBreaks(rs: seq<Range>, start: u32, size: u32, m: nat, a: int, i: nat)
    requires Separated(rs) && start + Span(size) <= TWO32 && !AllFree(rs, start, start + Span(size) - 1)
    requires m < |rs| && rs[m].start <= a <= rs[m].end && start <= a < start + Span(size)
    requires i < |rs| && rs[i].start == U32(start + size)
    ensures !Gave(rs, GrowBack(rs, i, size), start, start + Span(size) - 1)
  {
    hide AllFree, Covers;
    assert i > 0 ==> rs[i - 1].end + 1 < rs[i].start;
    if start + Span(size) < TWO32 {
      U32Id(start + size);
      U32Id(start);
      assert i > 0 ==> U32(rs[i - 1].end + 1) == rs[i - 1].end + 1;
      LeftOver(rs, i, i + 1, Range(start, rs[i].end), m, a);
    } else {
      assert U32(start + size) == 0;
      if size == 0 {
        assert GrowBack(rs, i, size) == rs;
        Unchanged(rs, start, start + Span(size) - 1);
      } else {
        BackLoses(rs, start, size);
      }
    }
  }

  /** Growing back from address zero. */
  lemma BackLoses(rs: seq<Range>, start: u32, size: u32)
    requires Separated(rs) && rs != [] && rs[0].start == 0 && 0 < size && start + size == TWO32
    ensures !Gave(rs, GrowBack(rs, 0, size), start, TWO32 - 1)
  {
    assert 0 - size == start - TWO32;
    assert U32(0 - size) == start;
    var r := Range(start, rs[0].end);
    var z := Replaced(rs, 0, 1, [r]);
    assert GrowBack(rs, 0, size) == z;
    if rs[0].end < start {
      Backwards(rs, 0, r);
    } else {
      assert forall k :: 0 < k < |z| ==> z[k] == rs[k] && rs[0].end + 1 < rs[k].start;
      assert z[0] == r;
      assert !Covers(z, 0) && Covers(rs, 0);
    }
  }

  lemma ForwardBreaks(rs: seq<Range>, start: u32, size: u32, m: nat, a: int, i: nat)
    requires Separated(rs) && start + Span(size) <= TWO32 && !AllFree(rs, start, start + Span(size) - 1)
    requires m < |rs| && rs[m].start <= a <= rs[m].end && start <= a < start + Span(size)
    requires i < |rs| && U32(rs[i].end + 1) == start
    ensures !Gave(rs, GrowForward(rs, i, size), start, start + Span(size) - 1)
  {
    hide AllFree, Covers;
    assert i + 1 < |rs| ==> rs[i].end + 1 < rs[i + 1].start;
    if rs[i].end < TWO32 - 1 {
      U32Id(rs[i].end + 1);
      ForwardLeaves(rs, start, size, m, a, i);
    } else if size == 0 {
      assert GrowForward(rs, i, size) == rs;
      Unchanged(rs, start, start + Span(size) - 1);
    } else {
      ForwardLoses(rs, start, size);
    }
  }

  /** Growing forward over an entry that stays. */
  lemma ForwardLeaves(rs: seq<Range>, start: u32, size: u32, m: nat, a: int, i: nat)
    requires Separated(rs) && 0 < size && start + size <= TWO32
    requires m < |rs| && rs[m].start <= a <= rs[m].end && start <= a < start + size
    requires i < |rs| && rs[i].end + 1 == start
    ensures !Separated(GrowForward(rs, i, size))
  {
    assert i < m && rs[i + 1].start <= rs[m].start && 0 < rs[i + 1].start;
    hide Separated;
    GrowsAlone(rs, i, start, size);
    LeftOver(rs, i, i + 1, Range(rs[i].start, start + size - 1), m, a);
  }

  lemma GrowsAlone(rs: seq<Range>, i: nat, start: u32, size: u32)
    requires i + 1 < |rs| && rs[i].end + 1 == start && 0 < size && start + size <= TWO32
    requires 0 < rs[i + 1].start < start + size
    ensures GrowForward(rs, i, size) == Replaced(rs, i, i + 1, [Range(rs[i].start, start + size - 1)])
  {
    var end := start + size - 1;
    U32Id(end);
    assert rs[i].end + size == end;
    assert U32(end + 1) == if end + 1 < TWO32 then end + 1 else 0;
  }

  /** Growing forward from the top of the address space. */
  lemma ForwardLoses(rs: seq<Range>, start: u32, size: u32)
    requires Separated(rs) && rs != [] && rs[|rs| - 1].end == TWO32 - 1 && 0 < size
    ensures !Gave(rs, GrowForward(rs, |rs| - 1, size), 0, size - 1)
  {
    var n := |rs| - 1;
    assert rs[n].end + size == TWO32 + (size - 1);
    assert U32(rs[n].end + size) == size - 1;
    var r := Range(rs[n].start, size - 1);
    var z := Replaced(rs, n, n + 1, [r]);
    assert GrowForward(rs, n, size) == z;
    if size - 1 < rs[n].start {
      Backwards(rs, n, r);
    } else {
      assert forall k :: 0 <= k < n ==> z[k] == rs[k] && rs[k].end + 1 < rs[n].start;
      assert z[n] == r;
      assert !Covers(z, TWO32 - 1) && Covers(rs, TWO32 - 1);
    }
  }

  /** Some entry overlaps the range but the range is not all free: the result is never right. */
  lemma OverlapBreaks(rs: seq<Range>, start: u32, size: u32, m: nat, a: int)
    requires Separated(rs) && start + Span(size) <= TWO32 && !AllFree(rs, start, start + Span(size) - 1)
    requires m < |rs| && rs[m].start <= a <= rs[m].end && start <= a < start + Span(size)
    ensures !Gave(rs, PutBack(rs, start, size), start, start + Span(size) - 1)
  {
    hide FirstTouching, InsertAt, AllFree, GrowBack, GrowForward, Separated, Covers;
    var i, end := FirstTouching(rs, start, size), start + Span(size) - 1;
    LastIs(start, size);
    if i == |rs| {
      var k := InsertAt(rs, start);
      LeftOver(rs, k, k, Range(start, end), m, a);
      assert PutBack(rs, start, size) == Replaced(rs, k, k, [Range(start, end)]);
    } else if rs[i].start == U32(start + size) {
      BackBreaks(rs, start, size, m, a, i);
    } else {
      ForwardBreaks(rs, start, size, m, a, i);
    }
  }

  /** A range none of which is free, but next to itself around the address space. */
  lemma WrapBreaks(rs: seq<Range>, start: u32, size: u32)
    requires Separated(rs) && start + Span(size) <= TWO32 && NoneFree(rs, start, start + Span(size) - 1)
    requires WrapsUp(rs, start, size) || WrapsDown(rs, start, size)
    ensures !Gave(rs, PutBack(rs, start, size), start, start + Span(size) - 1)
  {
    hide FirstTouching, NoneFree, Gave, GrowBack, GrowForward;
    var n := |rs| - 1;
    Apart(rs, 0, start, start + Span(size) - 1);
    Apart(rs, n, start, start + Span(size) - 1);
    assert size != 0;
    assert start + size == TWO32 ==> U32(start + size) == 0;
    if WrapsUp(rs, start, size) {
      assert Touches(rs[0], start, size);
      BackLoses(rs, start, size);
    } else {
      U32Id(size);
      assert U32(rs[n].end + 1) == 0;
      assert Touches(rs[n], start, size);
      OnlyLastTouches(rs, size);
      ForwardLoses(rs, start, size);
    }
  }

  lemma OnlyLastTouches(rs: seq<Range>, size: u32)
    requires Separated(rs) && rs != [] && size < rs[0].start && rs[|rs| - 1].end == TWO32 - 1
    ensures FirstTouching(rs, 0, size) == |rs| - 1 && rs[|rs| - 1].start != U32(0 + size)
  {
    hide FirstTouching;
    var n := |rs| - 1;
    U32Id(size);
    assert U32(rs[n].end + 1) == 0;
    assert Touches(rs[n], 0, size);
    forall k | 0 <= k < n ensures !Touches(rs[k], 0, size) {
      assert rs[k].end + 1 < rs[n].start && rs[0].start <= rs[k].start;
      U32Id(rs[k].end + 1);
    }
  }

  /** Freeing keeps the list canonical and frees exactly the range, exactly when it is safe to. */
  lemma FreeIff(rs: seq<Range>, address: u32, bytes: u32)
    requires Separated(rs) && bytes > 0 && AlignPage(address) + Span(AlignPage(bytes)) <= TWO32
    ensures var start, size := AlignPage(address), AlignPage(bytes);
            Gave(rs, Free(rs, address, bytes), start, start + Span(size) - 1) <==> Safe(rs, start, size)
  {
    hide FirstHolding, FirstTouching, Gave, GrowBack, GrowForward, InsertAt, WrapsUp, WrapsDown, AlignPage, PutBack,
         LastOf, Separated, NoneFree, AllFree, Covers;
    var start, size := AlignPage(address), AlignPage(bytes);
    var end := start + Span(size) - 1;
    LastIs(start, size);
    HeldIffFree(rs, start, end);
    if AllFree(rs, start, end) {
      FreeAlready(rs, start, end);
    } else if NoneFree(rs, start, end) {
      if WrapsUp(rs, start, size) || WrapsDown(rs, start, size) {
        WrapBreaks(rs, start, size);
      } else {
        SafeGives(rs, start, size);
      }
    } else {
      var m, a := SomeFree(rs, start, end);
      OverlapBreaks(rs, start, size, m, a);
    }
  }

  lemma FreeAlready(rs: seq<Range>, start: int, end: int)
    requires Separated(rs) && AllFree(rs, start, end)
    ensures Gave(rs, rs, start, end)
  {
    hide Covers, Separated;
  }

  lemma SomeFree(rs: seq<Range>, start: int, end: int) returns (m: nat, a: int)
    requires !NoneFree(rs, start, end)
    ensures m < |rs| && rs[m].start <= a <= rs[m].end && start <= a <= end
  {
    a :| start <= a <= end && Covers(rs, a);
    m :| 0 <= m < |rs| && rs[m].start <= a <= rs[m].end;
  }

  // -------- freeing nothing

  /** Free space contains the address or ends before it; for address zero, also if it ends at the top. */
  predicate Beside(rs: seq<Range>, start: u32) {
    if start == 0 then rs != [] && (rs[0].start == 0 || rs[|rs| - 1].end == TWO32 - 1)
    else exists i :: 0 <= i < |rs| && rs[i].start <= start <= rs[i].end + 1
  }

  /** Freeing no bytes leaves the list as it is exactly when the address is beside free space; elsewhere it breaks the list. */
  lemma FreeNothingIff(rs: seq<Range>, address: u32)
    requires Separated(rs)
    ensures Free(rs, address, 0) == rs <==> Beside(rs, AlignPage(address))
    ensures Gave(rs, Free(rs, address, 0), 0, -1) <==> Beside(rs, AlignPage(address))
  {
    hide FirstHolding, FirstTouching, InsertAt, AlignPage, Covers, Separated;
    NothingSize();
    var start := AlignPage(address);
    NothingLast(start);
    if start == 0 {
      FreeNothingAtZero(rs);
    } else {
      FreeNothingAbove(rs, start);
    }
    if Beside(rs, start) {
      assert Gave(rs, rs, 0, -1);
    }
  }

  lemma NothingSize()
    ensures AlignPage(0) == 0
  {
  }

  lemma NothingLast(start: u32)
    ensures LastOf(start, 0) == if start == 0 then TWO32 - 1 else start - 1
  {
    assert U32(0 - 1) == TWO32 - 1;
  }

  lemma FreeNothingAbove(rs: seq<Range>, start: u32)
    requires Separated(rs) && start > 0
    ensures Beside(rs, start) ==> FirstHolding(rs, start, start - 1) < |rs|
    ensures !Beside(rs, start) ==>
              FirstHolding(rs, start, start - 1) == |rs| && PutBack(rs, start, 0) != rs && !Separated(PutBack(rs, start, 0))
  {
    hide FirstHolding, FirstTouching, InsertAt, GrowBack, GrowForward;
    if !Beside(rs, start) {
      U32Id(start);
      NothingLast(start);
      var k, rs' := InsertAt(rs, start), PutBack(rs, start, 0);
      assert rs'[k] == Range(start, start - 1);
    }
  }

  lemma FreeNothingAtZero(rs: seq<Range>)
    requires Separated(rs)
    ensures var rs' := if FirstHolding(rs, 0, TWO32 - 1) < |rs| then rs else PutBack(rs, 0, 0);
            if Beside(rs, 0) then rs' == rs else Covers(rs', 0) && !Covers(rs, 0)
  {
    hide FirstHolding, FirstTouching, PutBack, Separated, Touches, Covers;
    BesideTouches(rs);
    var i, h := FirstTouching(rs, 0, 0), FirstHolding(rs, 0, TWO32 - 1);
    if h < |rs| {
      WholeTouches(rs, h);
    } else if i < |rs| {
      NothingJoins(rs, i);
    } else {
      NothingInserted(rs);
    }
  }

  lemma WholeTouches(rs: seq<Range>, h: nat)
    requires Separated(rs) && h < |rs| && rs[h].start == 0 && rs[h].end == TWO32 - 1
    ensures Beside(rs, 0)
  {
    assert forall k :: 0 <= k < h ==> rs[k].end + 1 < rs[h].start;
  }

  /** Being beside address zero is touching it. */
  lemma BesideTouches(rs: seq<Range>)
    requires Separated(rs)
    ensures Beside(rs, 0) <==> FirstTouching(rs, 0, 0) < |rs|
  {
    hide FirstTouching;
    var i := FirstTouching(rs, 0, 0);
    if i < |rs| {
      TouchesAtZero(rs, i);
    }
    if Beside(rs, 0) {
      var last := rs[|rs| - 1];
      assert Touches(rs[0], 0, 0) || Touches(last, 0, 0) by { assert last.end == TWO32 - 1 ==> U32(last.end + 1) == 0; }
    }
  }

  lemma NothingJoins(rs: seq<Range>, i: nat)
    requires Separated(rs) && i < |rs| && i == FirstTouching(rs, 0, 0)
    ensures PutBack(rs, 0, 0) == rs
  {
    hide FirstTouching, InsertAt, LastOf, Separated;
    TouchesAtZero(rs, i);
    U32Id(rs[i].end);
    U32Id(0);
    assert rs[..i] + [rs[i]] + rs[i + 1..] == rs;
    if rs[i].start == 0 {
      assert GrowBack(rs, i, 0) == rs;
    } else {
      assert GrowForward(rs, i, 0) == rs;
    }
  }

  lemma NothingInserted(rs: seq<Range>)
    requires Separated(rs) && FirstTouching(rs, 0, 0) == |rs|
    ensures Covers(PutBack(rs, 0, 0), 0) && !Covers(rs, 0)
  {
    hide FirstTouching, InsertAt;
    NothingLast(0);
    var k, rs' := InsertAt(rs, 0), PutBack(rs, 0, 0);
    assert rs'[k] == Range(0, TWO32 - 1);
    forall i | 0 <= i < |rs| ensures rs[i].start > 0 {
      assert !Touches(rs[i], 0, 0);
    }
  }

  /** Only the first and the last entry touch address zero. */
  lemma TouchesAtZero(rs: seq<Range>, i: nat)
    requires Separated(rs) && i < |rs| && Touches(rs[i], 0, 0)
    ensures (rs[i].start == 0 && i == 0) || (rs[i].end == TWO32 - 1 && i == |rs| - 1)
  {
    assert rs[i].end < TWO32 - 1 ==> U32(rs[i].end + 1) == rs[i].end + 1;
    assert i > 0 ==> rs[0].end + 1 < rs[i].start;
    assert i < |rs| - 1 ==> rs[i].end + 1 < rs[|rs| - 1].start;
  }
}
