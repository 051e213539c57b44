/** First fit: the lowest aligned address at which a range is free. */
module ReservationsFind {
  import opened Machine
  import opened Reservations
  import opened ReservationsExact
  import opened Rounding

  lemma PagePower()
    ensures PowerOfTwo(PAGE) && PowerOfTwo(TWO32)
  {
    hide PowerOfTwo;
    PowerOne();
    Power16(1); Power16(0x10); Power16(0x100); Power16(0x1000);
    Power16(0x1_0000); Power16(0x10_0000); Power16(0x100_0000); Power16(0x1000_0000);
  }

  // -------- where a range may start

  predicate GoodAlign(align: nat) {
    PowerOfTwo(align) && align < TWO32
  }

  /** The lowest address not below `x` that is aligned to `align` and to a page. */
  function Up(x: nat, align: nat): nat
    requires align > 0
  {
    RoundUp(RoundUp(x, align), PAGE)
  }

  predicate AlignedTo(x: nat, align: nat)
    requires align > 0
  {
    x % align == 0 && x % PAGE == 0
  }

  lemma UpLeast(x: nat, align: nat, y: nat)
    requires GoodAlign(align)
    ensures align > 0 && x <= Up(x, align) && AlignedTo(Up(x, align), align)
    ensures x <= y && AlignedTo(y, align) ==> Up(x, align) <= y
  {
    hide RoundUp, PowerOfTwo;
    assert align > 0 by { Positive(align); }
    PagePower();
    PowersDivide(align, PAGE);
    var z := RoundUp(x, align);
    RoundUpLeast(x, align, y);
    RoundUpLeast(z, PAGE, y);
    if align % PAGE == 0 {
      Divides(z, align, PAGE);
      RoundUpLeast(z, PAGE, z);
    } else {
      Divides(Up(x, align), PAGE, align);
    }
  }

  // -------- the search

  /** The aligned start the search tries in an entry. */
  function Start(r: Range, align: nat): u32
    requires align > 0
  {
    AlignPage(U32(RoundUp(r.start, align)))
  }

  predicate Passes(r: Range, size: u32, align: nat)
    requires align > 0
  {
    r.start <= Start(r, align) && LastOf(Start(r, align), size) <= r.end
  }

  /** The first entry the search accepts, the length of the list if there is none. */
  function FirstPassing(rs: seq<Range>, size: u32, align: nat): (i: nat)
    requires align > 0
    ensures i <= |rs|
    ensures i < |rs| ==> Passes(rs[i], size, align)
    ensures forall k :: 0 <= k < i ==> !Passes(rs[k], size, align)
  {
    if rs == [] || Passes(rs[0], size, align) then 0 else 1 + FirstPassing(rs[1..], size, align)
  }

  /** The address and size found, both zero if nothing fits. */
  function Find(rs: seq<Range>, bytes: u32, align: nat): (u32, u32)
    requires align > 0
  {
    var size := AlignPage(bytes);
    var i := FirstPassing(rs, size, align);
    if i < |rs| then (Start(rs[i], align), size) else (0, 0)
  }

  // -------- what it finds

  /** A range of `need` bytes may be placed at `x`. */
  ghost predicate Suits(rs: seq<Range>, x: nat, need: nat, align: nat)
    requires align > 0
  {
    x + need <= TWO32 && AlignedTo(x, align) && AllFree(rs, x, x + need - 1)
  }

  /** The aligned start lies in the address space, but the range from it passes the end and seems to fit. */
  predicate Misleads(r: Range, need: nat, align: nat)
    requires align > 0
  {
    Up(r.start, align) < TWO32 < Up(r.start, align) + need && Up(r.start, align) + need - 1 - TWO32 <= r.end
  }

  lemma StartIs(r: Range, align: nat)
    requires GoodAlign(align)
    ensures align > 0 && Up(r.start, align) <= TWO32
    ensures Start(r, align) == if Up(r.start, align) == TWO32 then 0 else Up(r.start, align)
  {
    hide RoundUp, PowerOfTwo, U32;
    UpLeast(r.start, align, TWO32);
    PagePower();
    PowersDivide(align, TWO32);
    WholeAligned(align);
    var z := RoundUp(r.start, align);
    RoundUpLeast(r.start, align, TWO32);
    RoundUpLeast(z, PAGE, TWO32);
    WrapAt(z);
    AlignIs(U32(z));
    RoundUpLeast(0, PAGE, 0);
  }

  lemma WholeAligned(align: nat)
    requires GoodAlign(align)
    ensures align > 0 && TWO32 % align == 0 && TWO32 % PAGE == 0
  {
    hide PowerOfTwo;
    PagePower();
    PowersDivide(TWO32, align);
    Positive(align);
    SmallMod(align, TWO32);
  }

  lemma WrapAt(z: nat)
    requires z <= TWO32
    ensures U32(z) == if z == TWO32 then 0 else z
  {
  }

  lemma AlignIs(x: u32)
    ensures RoundUp(x, PAGE) <= TWO32 && AlignPage(x) == if RoundUp(x, PAGE) == TWO32 then 0 else RoundUp(x, PAGE)
  {
    RoundUpLeast(x, PAGE, TWO32);
    WrapAt(RoundUp(x, PAGE));
  }

  /** Which entries the search accepts. */
  lemma PassIff(r: Range, size: u32, align: nat)
    requires GoodAlign(align)
    ensures align > 0
    ensures Passes(r, size, align)
       <==> (Up(r.start, align) + Span(size) <= TWO32 && Up(r.start, align) + Span(size) - 1 <= r.end)
            || Misleads(r, Span(size), align)
  {
    hide Up, Start, PowerOfTwo;
    StartIs(r, align);
    UpLeast(r.start, align, 0);
    var u := Up(r.start, align);
    if u + Span(size) <= TWO32 {
      LastIs(u, size);
    } else if u < TWO32 {
      WrappedEnd(u, size);
    } else {
      ZeroAligned(align);
    }
  }

  lemma ZeroAligned(align: nat)
    requires align > 0
    ensures AlignedTo(0, align)
  {
  }

  /** An address that suits lies in an entry the search accepts at or below that address. */
  lemma SuitsPasses(rs: seq<Range>, x: nat, size: u32, align: nat) returns (j: nat)
    requires GoodAlign(align) && align > 0 && Separated(rs) && Suits(rs, x, Span(size), align)
    ensures j < |rs| && rs[j].start <= x && x + Span(size) - 1 <= rs[j].end
    ensures Up(rs[j].start, align) <= x && Passes(rs[j], size, align)
  {
    hide Up, Passes, FirstHolding, PowerOfTwo, AllFree;
    HeldIffFree(rs, x, x + Span(size) - 1);
    j := FirstHolding(rs, x, x + Span(size) - 1);
    UpLeast(rs[j].start, align, x);
    PassIff(rs[j], size, align);
  }

  /** An accepted entry that is not misleading gives an address that suits. */
  lemma PassesSuits(rs: seq<Range>, i: nat, size: u32, align: nat)
    requires GoodAlign(align) && align > 0 && Separated(rs) && i < |rs| && Passes(rs[i], size, align)
    requires !Misleads(rs[i], Span(size), align)
    ensures Up(rs[i].start, align) == Start(rs[i], align) && Suits(rs, Start(rs[i], align), Span(size), align)
    ensures Start(rs[i], align) + Span(size) - 1 <= rs[i].end
  {
    hide Up, Start, Passes, PowerOfTwo;
    PassIff(rs[i], size, align);
    StartIs(rs[i], align);
    UpLeast(rs[i].start, align, 0);
    var s := Start(rs[i], align);
    forall a | s <= a <= s + Span(size) - 1 ensures Covers(rs, a) {
      assert rs[i].start <= a <= rs[i].end;
    }
  }

  /** An entry is misleading only if nothing suits at or after it. */
  lemma MisleadsLate(rs: seq<Range>, i: nat, j: nat, x: nat, need: nat, align: nat)
    requires GoodAlign(align) && align > 0 && Separated(rs) && i <= j < |rs|
    requires Up(rs[j].start, align) <= x && x + need <= TWO32
    ensures !Misleads(rs[i], need, align)
  {
    hide Up, PowerOfTwo;
    UpLeast(rs[j].start, align, 0);
    UpLeast(rs[i].start, align, Up(rs[j].start, align));
    assert rs[i].start <= rs[j].start;
  }

  /** An answer is right: the lowest address that suits and the rounded size, or a pair of zeros when none does. */
  ghost predicate Right(rs: seq<Range>, answer: (u32, u32), need: nat, align: nat)
    requires align > 0
  {
    if answer == (0, 0) then forall x: nat :: !Suits(rs, x, need, align)
    else
      && answer.1 == need && Suits(rs, answer.0, need, align)
      && forall x: nat :: Suits(rs, x, need, align) ==> answer.0 <= x
  }

  /**
   * When the search answers rightly: if some address suits, unless the size rounds to the whole address space, which
   * wraps to zero; if none does, unless an entry misleads the search.
   */
  ghost predicate Answerable(rs: seq<Range>, size: u32, align: nat)
    requires align > 0
  {
    if exists x: nat :: Suits(rs, x, Span(size), align) then size != 0
    else forall r :: r in rs ==> !Misleads(r, Span(size), align)
  }

  lemma FindIff(rs: seq<Range>, bytes: u32, align: nat)
    requires GoodAlign(align) && align > 0 && Separated(rs)
    ensures Right(rs, Find(rs, bytes, align), Span(AlignPage(bytes)), align) <==> Answerable(rs, AlignPage(bytes), align)
  {
    hide Up, Start, Passes, FirstPassing, AlignPage, Misleads, Separated, Suits, PowerOfTwo, AllFree;
    var size := AlignPage(bytes);
    var i := FirstPassing(rs, size, align);
    if x: nat :| Suits(rs, x, Span(size), align) {
      if size != 0 {
        FoundLeast(rs, x, size, align);
      }
    } else if i < |rs| {
      assert rs[i] in rs;
      if Misleads(rs[i], Span(size), align) {
        MisledAnswer(rs[i], size, align);
      } else {
        PassesSuits(rs, i, size, align);
      }
    } else {
      forall r | r in rs ensures !Misleads(r, Span(size), align) {
        PassIff(r, size, align);
      }
    }
  }

  /** An entry that misleads the search gives an answer other than zeros. */
  lemma MisledAnswer(r: Range, size: u32, align: nat)
    requires GoodAlign(align) && align > 0 && Misleads(r, Span(size), align)
    ensures (Start(r, align), size) != (0, 0) && Start(r, align) + Span(size) > TWO32
  {
    hide Up, Start, PowerOfTwo;
    StartIs(r, align);
  }

  /** With the whole space free, a request that rounds to all of it is answered with zeros, although address zero suits. */
  lemma WholeSpaceLost(rs: seq<Range>, bytes: u32)
    requires rs == [Range(0, TWO32 - 1)] && bytes > TWO32 - PAGE
    ensures Suits(rs, 0, Span(AlignPage(bytes)), 1) && Find(rs, bytes, 1) == (0, 0)
  {
    hide FirstPassing;
    assert (bytes + (PAGE - 1)) / PAGE == 0x8000;
    assert AlignPage(bytes) == 0;
    LastIs(0, 0);
    assert RoundUp(0, 1) == 0;
    assert Start(rs[0], 1) == 0;
    assert Passes(rs[0], 0, 1);
    assert FirstPassing(rs, 0, 1) == 0;
    forall a | 0 <= a <= TWO32 - 1 ensures Covers(rs, a) {
      assert rs[0].start <= a <= rs[0].end;
    }
  }

  lemma FoundLeast(rs: seq<Range>, x: nat, size: u32, align: nat)
    requires GoodAlign(align) && align > 0 && Separated(rs) && Suits(rs, x, Span(size), align)
    ensures var i := FirstPassing(rs, size, align);
            && i < |rs| && Suits(rs, Start(rs[i], align), Span(size), align)
            && forall y: nat :: Suits(rs, y, Span(size), align) ==> Start(rs[i], align) <= y
  {
    hide Up, Start, Passes, FirstPassing, PowerOfTwo, AllFree, Misleads;
    var i := FirstPassing(rs, size, align);
    var j := SuitsPasses(rs, x, size, align);
    MisleadsLate(rs, i, j, x, Span(size), align);
    PassesSuits(rs, i, size, align);
    forall y: nat | Suits(rs, y, Span(size), align) ensures Start(rs[i], align) <= y {
      var k := SuitsPasses(rs, y, size, align);
      assert i < k ==> rs[i].end + 1 < rs[k].start;
    }
  }

  // -------- searching within a range

  /** An entry has addresses in the range, as the search decides it. */
  predicate Meets(r: Range, lo: u32, hi: u32) {
    !(hi < r.start || lo > r.end)
  }

  function Part(r: Range, lo: u32, hi: u32): Range {
    Range(if r.start < lo then lo else r.start, if r.end < hi then r.end else hi)
  }

  /** The parts of the entries that lie in a range. */
  function Clipped(rs: seq<Range>, lo: u32, hi: u32): seq<Range> {
    if rs == [] then []
    else
      var rest := Clipped(rs[1..], lo, hi);
      if Meets(rs[0], lo, hi) then [Part(rs[0], lo, hi)] + rest else rest
  }

  lemma {:induction false} ClippedAfter(rs: seq<Range>, lo: u32, hi: u32, b: int)
    requires forall i :: 0 <= i < |rs| ==> b < rs[i].start
    ensures forall i :: 0 <= i < |Clipped(rs, lo, hi)| ==> b < Clipped(rs, lo, hi)[i].start
  {
    if rs != [] {
      ClippedAfter(rs[1..], lo, hi, b);
    }
  }

  lemma {:induction false} ClippedSeparated(rs: seq<Range>, lo: u32, hi: u32)
    requires Separated(rs) && lo <= hi
    ensures Separated(Clipped(rs, lo, hi))
    decreases |rs|
  {
    if rs != [] {
      ClippedSeparated(rs[1..], lo, hi);
      ClippedAfter(rs[1..], lo, hi, rs[0].end + 1);
    }
  }

  /** Clipping a canonical list gives the canonical list of the free addresses in the range. */
  lemma {:induction false} ClippedExact(rs: seq<Range>, lo: u32, hi: u32, a: int)
    requires Separated(rs) && lo <= hi
    ensures Separated(Clipped(rs, lo, hi))
    ensures Covers(Clipped(rs, lo, hi), a) <==> Covers(rs, a) && lo <= a <= hi
    decreases |rs|
  {
    hide Covers;
    ClippedSeparated(rs, lo, hi);
    if rs == [] {
      CoversFew(rs, a);
    } else {
      ClippedExact(rs[1..], lo, hi, a);
      assert rs == [rs[0]] + rs[1..];
      CoversAppend([rs[0]], rs[1..], a);
      CoversFew([rs[0]], a);
      if Meets(rs[0], lo, hi) {
        var r := Clipped(rs, lo, hi)[0];
        CoversAppend([r], Clipped(rs[1..], lo, hi), a);
        CoversFew([r], a);
      }
    }
  }

  lemma {:induction false} ClippedMembers(rs: seq<Range>, lo: u32, hi: u32)
    ensures forall r :: r in rs && Meets(r, lo, hi) ==> Part(r, lo, hi) in Clipped(rs, lo, hi)
    ensures forall q :: q in Clipped(rs, lo, hi) ==> exists r :: r in rs && Meets(r, lo, hi) && q == Part(r, lo, hi)
    decreases |rs|
  {
    if rs != [] {
      ClippedMembers(rs[1..], lo, hi);
      var c, rest := Clipped(rs, lo, hi), Clipped(rs[1..], lo, hi);
      forall q | q in c ensures exists r :: r in rs && Meets(r, lo, hi) && q == Part(r, lo, hi) {
        if q in rest {
          var r :| r in rs[1..] && Meets(r, lo, hi) && q == Part(r, lo, hi);
          assert r in rs;
        } else {
          assert rs[0] in rs && q == Part(rs[0], lo, hi);
        }
      }
      forall r | r in rs && Meets(r, lo, hi) ensures Part(r, lo, hi) in c {
        assert r == rs[0] || r in rs[1..];
      }
    }
  }

  /** A range of `need` bytes may be placed at `x`, inside the range from `lo` to `hi`. */
  ghost predicate SuitsIn(rs: seq<Range>, lo: u32, hi: u32, x: nat, need: nat, align: nat)
    requires align > 0
  {
    Suits(rs, x, need, align) && lo <= x && x + need - 1 <= hi
  }

  ghost predicate RightIn(rs: seq<Range>, lo: u32, hi: u32, answer: (u32, u32), need: nat, align: nat)
    requires align > 0
  {
    if answer == (0, 0) then forall x: nat :: !SuitsIn(rs, lo, hi, x, need, align)
    else
      && answer.1 == need && SuitsIn(rs, lo, hi, answer.0, need, align)
      && forall x: nat :: SuitsIn(rs, lo, hi, x, need, align) ==> answer.0 <= x
  }

  /** When the search within a range answers rightly; what misleads it are the parts of the entries in the range. */
  ghost predicate AnswerableIn(rs: seq<Range>, lo: u32, hi: u32, size: u32, align: nat)
    requires align > 0
  {
    if exists x: nat :: SuitsIn(rs, lo, hi, x, Span(size), align) then size != 0
    else forall r :: r in rs && Meets(r, lo, hi) ==> !Misleads(Part(r, lo, hi), Span(size), align)
  }

  lemma SuitsClipped(rs: seq<Range>, lo: u32, hi: u32, x: nat, need: nat, align: nat)
    requires Separated(rs) && lo <= hi && need > 0 && align > 0
    ensures Suits(Clipped(rs, lo, hi), x, need, align) <==> SuitsIn(rs, lo, hi, x, need, align)
  {
    hide Covers, Clipped, AlignedTo, Separated;
    forall a | x <= a <= x + need - 1 ensures Covers(Clipped(rs, lo, hi), a) <==> Covers(rs, a) && lo <= a <= hi {
      ClippedExact(rs, lo, hi, a);
    }
    var c := Clipped(rs, lo, hi);
    if Suits(c, x, need, align) {
      assert Covers(c, x) && Covers(c, x + need - 1);
    }
  }

  lemma MisleadsClipped(rs: seq<Range>, lo: u32, hi: u32, need: nat, align: nat)
    requires align > 0
    ensures (forall q :: q in Clipped(rs, lo, hi) ==> !Misleads(q, need, align))
       <==> (forall r :: r in rs && Meets(r, lo, hi) ==> !Misleads(Part(r, lo, hi), need, align))
  {
    hide Clipped, Misleads, Meets, Part;
    ClippedMembers(rs, lo, hi);
  }

  /** First fit within a range is right under the same condition; a range that wraps around holds no address. */
  lemma FindInRangeIff(rs: seq<Range>, lo: u32, hi: u32, bytes: u32, align: nat)
    requires GoodAlign(align) && align > 0 && Separated(rs)
    ensures RightIn(rs, lo, hi, Find(Clipped(rs, lo, hi), bytes, align), Span(AlignPage(bytes)), align)
       <==> AnswerableIn(rs, lo, hi, AlignPage(bytes), align)
  {
    hide Clipped, Misleads, Find, PowerOfTwo, AlignPage, Suits, SuitsIn, Meets, Part, Separated;
    var c, size := Clipped(rs, lo, hi), AlignPage(bytes);
    MisleadsClipped(rs, lo, hi, Span(size), align);
    if lo <= hi {
      ClippedExact(rs, lo, hi, 0);
      FindIff(c, bytes, align);
      forall x: nat ensures Suits(c, x, Span(size), align) <==> SuitsIn(rs, lo, hi, x, Span(size), align) {
        SuitsClipped(rs, lo, hi, x, Span(size), align);
      }
    } else {
      WrappedRange(rs, lo, hi, bytes, align);
    }
  }

  /** A range that passes the end of the address space: no address is in it, so only zeros would be right. */
  lemma WrappedRange(rs: seq<Range>, lo: u32, hi: u32, bytes: u32, align: nat)
    requires GoodAlign(align) && align > 0 && hi < lo
    ensures forall x: nat :: !SuitsIn(rs, lo, hi, x, Span(AlignPage(bytes)), align)
    ensures Find(Clipped(rs, lo, hi), bytes, align) == (0, 0)
       <==> forall q :: q in Clipped(rs, lo, hi) ==> !Misleads(q, Span(AlignPage(bytes)), align)
  {
    hide Clipped, Misleads, PowerOfTwo, AlignPage, Suits, Start, Up, Passes, FirstPassing;
    var c, size := Clipped(rs, lo, hi), AlignPage(bytes);
    var i := FirstPassing(c, size, align);
    forall q | q in c ensures Passes(q, size, align) <==> Misleads(q, Span(size), align) {
      WrappedPart(rs, lo, hi, q);
      UpLeast(q.start, align, 0);
      PassIff(q, size, align);
    }
    if i < |c| {
      assert c[i] in c;
      MisledAnswer(c[i], size, align);
    }
  }

  lemma WrappedPart(rs: seq<Range>, lo: u32, hi: u32, q: Range)
    requires hi < lo && q in Clipped(rs, lo, hi)
    ensures q == Range(lo, hi)
  {
    ClippedMembers(rs, lo, hi);
  }
}
