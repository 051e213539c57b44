/** The reservation list is a canonical form, so allocating and freeing undo each other. */
module ReservationsLaws {
  import opened Machine
  import opened Reservations
  import opened ReservationsExact
  import opened ReservationsFree
  import opened Wrappers

  ghost predicate SameCover(x: seq<Range>, y: seq<Range>) {
    forall a :: Covers(x, a) <==> Covers(y, a)
  }

  /** The first entry starts at the lowest free address and ends before the next address that is not free. */
  lemma FirstEntry(x: seq<Range>, a: int)
    requires Separated(x) && x != []
    ensures Covers(x, a) ==> x[0].start <= a
    ensures x[0].start <= a <= x[0].end ==> Covers(x, a)
    ensures !Covers(x, x[0].end + 1)
    ensures Covers(x[1..], a) <==> Covers(x, a) && x[0].end < a
  {
    if Covers(x, a) {
      var i :| 0 <= i < |x| && x[i].start <= a <= x[i].end;
      assert i > 0 ==> x[1..][i - 1] == x[i] && x[0].end + 1 < x[i].start;
    }
    if Covers(x[1..], a) {
      var i :| 0 <= i < |x| - 1 && x[1..][i].start <= a <= x[1..][i].end;
      assert x[i + 1] == x[1..][i];
    }
  }

  /** Two canonical lists that cover the same addresses are the same list. */
  lemma {:induction false} Unique(x: seq<Range>, y: seq<Range>)
    requires Separated(x) && Separated(y) && SameCover(x, y)
    ensures x == y
    decreases |x|
  {
    if x == [] {
      if y != [] {
        FirstEntry(y, y[0].start);
      }
    } else {
      FirstEntry(x, x[0].start);
      assert y != [] by { assert Covers(y, x[0].start); }
      SameFirst(x, y);
      forall a ensures Covers(x[1..], a) <==> Covers(y[1..], a) {
        FirstEntry(x, a);
        FirstEntry(y, a);
      }
      Unique(x[1..], y[1..]);
      assert x == [x[0]] + x[1..] && y == [y[0]] + y[1..];
    }
  }

  lemma SameFirst(x: seq<Range>, y: seq<Range>)
    requires Separated(x) && Separated(y) && x != [] && y != [] && SameCover(x, y)
    ensures x[0] == y[0]
  {
    hide Covers;
    FirstEntry(x, x[0].start);
    FirstEntry(x, y[0].start);
    FirstEntry(y, x[0].start);
    FirstEntry(y, y[0].start);
    FirstEntry(x, y[0].end + 1);
    FirstEntry(y, x[0].end + 1);
  }

  // -------- allocating and freeing

  predicate Fits(address: u32, bytes: u32) {
    bytes > 0 && AlignPage(address) + Span(AlignPage(bytes)) <= TWO32
  }

  /**
   * Freeing what was just allocated restores the identical list exactly when the range is not next to
   * free space around the end of the address space.
   */
  lemma AllocateThenFree(rs: seq<Range>, address: u32, bytes: u32)
    requires Separated(rs) && Fits(address, bytes) && Allocate(rs, address, bytes).Some?
    ensures var start, size, rs' := AlignPage(address), AlignPage(bytes), Allocate(rs, address, bytes).value;
            Free(rs', address, bytes) == rs <==> !WrapsUp(rs', start, size) && !WrapsDown(rs', start, size)
  {
    hide AlignPage, Allocate, Free, Covers, Separated, WrapsUp, WrapsDown;
    var start, size, rs' := AlignPage(address), AlignPage(bytes), Allocate(rs, address, bytes).value;
    var end := start + Span(size) - 1;
    AllocateExact(rs, address, bytes);
    FreeIff(rs', address, bytes);
    var back := Free(rs', address, bytes);
    assert !AllFree(rs', start, end) by { assert !Covers(rs', start); }
    if Gave(rs', back, start, end) {
      assert SameCover(back, rs);
      Unique(back, rs);
    }
    assert Gave(rs', rs, start, end);
  }

  /** Allocating what was just freed restores the identical list. */
  lemma FreeThenAllocate(rs: seq<Range>, address: u32, bytes: u32)
    requires Separated(rs) && Fits(address, bytes)
    requires var start, size := AlignPage(address), AlignPage(bytes);
             NoneFree(rs, start, start + Span(size) - 1) && Safe(rs, start, size)
    ensures Allocate(Free(rs, address, bytes), address, bytes) == Some(rs)
  {
    hide AlignPage, Allocate, Free, Covers, Separated, Safe;
    var start, size, rs' := AlignPage(address), AlignPage(bytes), Free(rs, address, bytes);
    FreeIff(rs, address, bytes);
    AllocateExact(rs', address, bytes);
    assert AllFree(rs', start, start + Span(size) - 1);
    var back := Allocate(rs', address, bytes).value;
    assert SameCover(back, rs);
    Unique(back, rs);
  }

  /** A request past the end of the address space is answered rightly exactly when no entry holds its wrapped ends. */
  lemma AllocateIff(rs: seq<Range>, address: u32, bytes: u32)
    requires Separated(rs) && bytes > 0
    ensures var start, size := AlignPage(address), AlignPage(bytes);
            var right := Allocate(rs, address, bytes).Some? <==> AllFree(rs, start, start + Span(size) - 1);
            right <==> Fits(address, bytes) || FirstHolding(rs, start, start + Span(size) - 1 - TWO32) == |rs|
  {
    hide AlignPage, Carve, FirstHolding, Separated;
    var start, size := AlignPage(address), AlignPage(bytes);
    if Fits(address, bytes) {
      AllocateExact(rs, address, bytes);
    } else {
      WrappedEnd(start, size);
      assert !Covers(rs, TWO32);
    }
  }

  /** With the whole space free, the top page can be allocated but not freed again. */
  lemma TopPageStuck(rs: seq<Range>, top: u32)
    requires rs == [Range(0, TWO32 - 1)] && top == TWO32 - PAGE
    ensures Allocate(rs, top, PAGE) == Some([Range(0, top - 1)]) && Free([Range(0, top - 1)], top, PAGE) != rs
  {
    assert AlignPage(top) == top && AlignPage(PAGE) == PAGE;
    LastIs(top, PAGE);
    assert FirstHolding(rs, top, TWO32 - 1) == 0;
    U32Id(TWO32 - 1 - PAGE);
    assert Carve(rs, 0, top, PAGE, TWO32 - 1) == [Range(0, top - 1)];
    AllocateThenFree(rs, top, PAGE);
  }

  // -------- pages

  lemma PageMultiple(x: u32)
    ensures AlignPage(x) % PAGE == 0
  {
    var q := (x + (PAGE - 1)) / PAGE;
    assert q <= 0x8000;
    assert q * PAGE == PAGE * q + 0;
    DivModOf(PAGE, q, 0);
    if q == 0x8000 {
      assert AlignPage(x) == 0;
    } else {
      U32Id(q * PAGE);
    }
  }

  lemma PageSum(x: nat, y: nat)
    requires x % PAGE == 0 && y % PAGE == 0
    ensures (x + y) % PAGE == 0
    ensures x >= y ==> (x - y) % PAGE == 0
  {
  }

  lemma AllocateAligned(rs: seq<Range>, address: u32, bytes: u32)
    requires AllAligned(rs) && Fits(address, bytes) && Allocate(rs, address, bytes).Some?
    ensures AllAligned(Allocate(rs, address, bytes).value)
  {
    hide AlignPage, FirstHolding, Carve, Rest, PageAligned;
    var start, size := AlignPage(address), AlignPage(bytes);
    LastIs(start, size);
    var end := LastOf(start, size);
    var i := FirstHolding(rs, start, end);
    PageMultiple(address);
    PageMultiple(bytes);
    CarveIs(rs, i, start, size, end);
    RestAligned(rs[i], start, size, end);
    ReplacedAligned(rs, i, i + 1, Rest(rs[i], start, size, end));
  }

  lemma RestAligned(r: Range, start: u32, size: u32, end: u32)
    requires PageAligned(r) && start % PAGE == 0 && size % PAGE == 0
    requires r.start <= start && start + Span(size) - 1 == end <= r.end
    ensures AllAligned(Rest(r, start, size, end))
  {
    RestEnds(r, start, size, end);
    PageSum(start, Span(size));
    hide U32;
  }

  /** Wrapping keeps page boundaries. */
  lemma PageWrap(x: int)
    requires x % PAGE == 0
    ensures U32(x) % PAGE == 0
  {
    PageEnd(x - 1);
    var y := x - 1;
    assert U32(x) == if U32(y) == TWO32 - 1 then 0 else U32(y) + 1;
  }

  lemma PageEnd(x: int)
    requires (x + 1) % PAGE == 0
    ensures (U32(x) + 1) % PAGE == 0
  {
    var q := x / TWO32;
    assert x + 1 == PAGE * (0x8000 * q) + (U32(x) + 1);
    assert (U32(x) + 1 + PAGE * (0x8000 * q)) % PAGE == (U32(x) + 1) % PAGE;
  }

  lemma NewEntryAligned(start: u32, size: u32)
    requires start % PAGE == 0 && size % PAGE == 0
    ensures PageAligned(Range(start, LastOf(start, size)))
  {
    PageEnd(size - 1);
    PageSum(start, U32(size - 1) + 1);
    PageEnd(start + U32(size - 1));
  }

  lemma GrownAligned(r: Range, size: u32)
    requires PageAligned(r) && size % PAGE == 0
    ensures PageAligned(Range(U32(r.start - size), r.end)) && PageAligned(Range(r.start, U32(r.end + size)))
  {
    var x: int := r.start - size;
    assert x % PAGE == 0;
    PageWrap(x);
    PageSum(r.end + 1, size);
    var y: int := r.end + size;
    PageEnd(y);
  }

  /** Freeing keeps every entry on page boundaries, whatever the range. */
  lemma FreeAligned(rs: seq<Range>, address: u32, bytes: u32)
    requires AllAligned(rs)
    ensures AllAligned(Free(rs, address, bytes))
  {
    hide AlignPage, FirstHolding, FirstTouching, InsertAt, LastOf, U32;
    var start, size := AlignPage(address), AlignPage(bytes);
    PageMultiple(address);
    PageMultiple(bytes);
    NewEntryAligned(start, size);
    forall i | 0 <= i < |rs|
      ensures PageAligned(Range(U32(rs[i].start - size), rs[i].end))
      ensures PageAligned(Range(rs[i].start, U32(rs[i].end + size)))
    {
      GrownAligned(rs[i], size);
    }
    hide PageAligned;
    var i, k := FirstTouching(rs, start, size), InsertAt(rs, start);
    if i < |rs| {
      GrowBackAligned(rs, i, size);
      GrowForwardAligned(rs, i, size);
    } else {
      ReplacedAligned(rs, k, k, [Range(start, LastOf(start, size))]);
    }
  }

  lemma GrowBackAligned(rs: seq<Range>, i: nat, size: u32)
    requires i < |rs| && AllAligned(rs) && size % PAGE == 0
    ensures AllAligned(GrowBack(rs, i, size))
  {
    hide U32;
    GrownAligned(rs[i], size);
    ReplacedAligned(rs, i, i + 1, [Range(U32(rs[i].start - size), rs[i].end)]);
    if i > 0 {
      ReplacedAligned(rs, i - 1, i + 1, [Range(rs[i - 1].start, rs[i].end)]);
    }
  }

  lemma GrowForwardAligned(rs: seq<Range>, i: nat, size: u32)
    requires i < |rs| && AllAligned(rs) && size % PAGE == 0
    ensures AllAligned(GrowForward(rs, i, size))
  {
    hide U32;
    GrownAligned(rs[i], size);
    ReplacedAligned(rs, i, i + 1, [Range(rs[i].start, U32(rs[i].end + size))]);
    if i + 1 < |rs| {
      ReplacedAligned(rs, i, i + 2, [Range(rs[i].start, rs[i + 1].end)]);
    }
  }

  // -------- runs

  datatype Call = AllocateCall(address: u32, bytes: u32) | FreeCall(address: u32, bytes: u32)

  function After(rs: seq<Range>, c: Call): seq<Range> {
    match c
    case AllocateCall(a, n) => (var r := Allocate(rs, a, n); if r.Some? then r.value else rs)
    case FreeCall(a, n) => Free(rs, a, n)
  }

  /** The caller keeps to requests within the address space and frees only what it may. */
  ghost predicate Allowed(rs: seq<Range>, c: Call) {
    match c
    case AllocateCall(a, n) => n > 0 ==> Fits(a, n)
    case FreeCall(a, n) => Fits(a, n) && Safe(rs, AlignPage(a), AlignPage(n))
  }

  function AfterAll(rs: seq<Range>, cs: seq<Call>): seq<Range>
    decreases |cs|
  {
    if cs == [] then rs else AfterAll(After(rs, cs[0]), cs[1..])
  }

  ghost predicate AllAllowed(rs: seq<Range>, cs: seq<Call>)
    decreases |cs|
  {
    cs == [] || (Allowed(rs, cs[0]) && AllAllowed(After(rs, cs[0]), cs[1..]))
  }

  /** Every run of allowed calls keeps the list sorted, disjoint, page-aligned and coalesced. */
  lemma {:induction false} RunsStayCanonical(rs: seq<Range>, cs: seq<Call>)
    requires Canonical(rs) && AllAllowed(rs, cs)
    ensures Canonical(AfterAll(rs, cs))
    decreases |cs|
  {
    hide Canonical, After, Allowed;
    if cs != [] {
      CallKeepsCanonical(rs, cs[0]);
      RunsStayCanonical(After(rs, cs[0]), cs[1..]);
    }
  }

  lemma CallKeepsCanonical(rs: seq<Range>, c: Call)
    requires Canonical(rs) && Allowed(rs, c)
    ensures Canonical(After(rs, c))
  {
    hide AlignPage, Separated, AllAligned, Free, Covers, Safe;
    match c
    case AllocateCall(a, n) =>
      if n > 0 {
        AllocateExact(rs, a, n);
        if Allocate(rs, a, n).Some? {
          AllocateAligned(rs, a, n);
        }
      }
    case FreeCall(a, n) =>
      FreeIff(rs, a, n);
      FreeAligned(rs, a, n);
  }

  /** The list the address space starts with. */
  const INITIAL: seq<Range> := [Range(0, TWO32 - 1)]

  lemma InitialCanonical()
    ensures Canonical(INITIAL)
  {
  }

  /** Every run of allowed calls from the start of the address space. */
  lemma ReservationRuns(cs: seq<Call>)
    requires AllAllowed(INITIAL, cs)
    ensures Canonical(AfterAll(INITIAL, cs))
  {
    hide Canonical;
    InitialCanonical();
    RunsStayCanonical(INITIAL, cs);
  }
}
