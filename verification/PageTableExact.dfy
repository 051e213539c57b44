/** Mapping and unmapping as changes of one function from addresses to memory. */
module PageTableExact {
  import opened Machine
  import opened Reservations
  import opened ReservationsExact
  import opened PageTable
  import opened Wrappers

  lemma EndIs(m: Mapping)
    requires WellMapped(m)
    ensures MapEnd(m) == m.virtual + m.size - 1
  {
    LastIs(m.virtual, m.size);
  }

  // -------- lists

  lemma OrderedTail(ms: seq<Mapping>)
    requires Ordered(ms) && ms != []
    ensures Ordered(ms[1..]) && WellMapped(ms[0])
    ensures forall i :: 0 <= i < |ms| - 1 ==> ms[0].virtual + ms[0].size <= ms[1..][i].virtual
  {
    hide WellMapped;
  }

  predicate Above(ms: seq<Mapping>, a: int) {
    forall i :: 0 <= i < |ms| ==> a <= ms[i].virtual
  }

  lemma OrderedCons(m: Mapping, ms: seq<Mapping>)
    requires WellMapped(m) && Ordered(ms) && Above(ms, m.virtual + m.size)
    ensures Ordered([m] + ms)
  {
    hide WellMapped;
  }

  /** Addresses below every mapping translate to nothing. */
  lemma {:induction false} NothingBelow(ms: seq<Mapping>, a: int, b: int)
    requires Above(ms, b) && a < b
    ensures Lookup(ms, a) == None
    decreases |ms|
  {
    if ms != [] {
      NothingBelow(ms[1..], a, b);
    }
  }

  lemma LookupCons(m: Mapping, ms: seq<Mapping>, a: int)
    ensures Lookup([m] + ms, a)
         == if Holds(m, a) then Some(Target(U32(m.physical + (a - m.virtual)), m.permission)) else Lookup(ms, a)
  {
    hide Holds, U32;
    assert ([m] + ms)[1..] == ms;
  }

  // -------- the effect of unmapping

  /** The mapping with what lies in the range cut off or removed, in place. */
  function CutOne(m: Mapping, start: u32, end: u32): seq<Mapping> {
    match KindOf(m, start, end)
    case Head => [m.(size := U32(start - m.virtual))]
    case Outside => [m]
    case _ => []
  }

  function Cut(ms: seq<Mapping>, start: u32, end: u32): seq<Mapping> {
    if ms == [] then [] else CutOne(ms[0], start, end) + Cut(ms[1..], start, end)
  }

  predicate PageRange(start: u32, end: u32) {
    start <= end && start % PAGE == 0 && (end + 1) % PAGE == 0
  }

  /** The mapping reaches into the range and past its end. */
  predicate Extends(m: Mapping, end: u32) {
    m.virtual <= end < MapEnd(m)
  }

  predicate NoneExtends(ms: seq<Mapping>, end: u32) {
    forall i :: 0 <= i < |ms| ==> !Extends(ms[i], end)
  }

  lemma KindFacts(m: Mapping, start: u32, end: u32)
    requires WellMapped(m) && PageRange(start, end) && !Extends(m, end)
    ensures match KindOf(m, start, end)
            case Head => m.virtual < start <= MapEnd(m) <= end
            case Tail => false
            case Outside => MapEnd(m) < start || end < m.virtual
            case Inside => start <= m.virtual && MapEnd(m) <= end
  {
    EndIs(m);
  }

  lemma HeadFacts(m: Mapping, start: u32, end: u32)
    requires WellMapped(m) && start % PAGE == 0 && m.virtual < start <= MapEnd(m)
    ensures var h := m.(size := U32(start - m.virtual)); WellMapped(h) && MapEnd(h) == start - 1
  {
    EndIs(m);
    var h := m.(size := U32(start - m.virtual));
    U32Id(start - m.virtual);
    EndIs(h);
  }

  /** Cutting one mapping removes exactly the addresses of the range. */
  lemma CutOneExact(m: Mapping, start: u32, end: u32, ms: seq<Mapping>, a: int)
    requires WellMapped(m) && PageRange(start, end) && !Extends(m, end)
    ensures Lookup(CutOne(m, start, end) + ms, a)
         == if Holds(m, a) && !(start <= a <= end) then Lookup([m] + ms, a) else Lookup(ms, a)
  {
    hide WellMapped, Lookup, MapEnd, KindOf, PageRange, U32;
    KindFacts(m, start, end);
    LookupCons(m, ms, a);
    match KindOf(m, start, end)
    case Head =>
      var h := m.(size := U32(start - m.virtual));
      PageStart(start, end);
      HeadFacts(m, start, end);
      LookupCons(h, ms, a);
    case Outside =>
    case Tail =>
    case Inside => assert CutOne(m, start, end) + ms == ms;
  }

  lemma PageStart(start: u32, end: u32)
    requires PageRange(start, end)
    ensures start % PAGE == 0 && start <= end
  {
  }

  lemma {:induction false} CutExact(ms: seq<Mapping>, start: u32, end: u32, a: int)
    requires Ordered(ms) && PageRange(start, end) && NoneExtends(ms, end)
    ensures Lookup(Cut(ms, start, end), a) == if start <= a <= end then None else Lookup(ms, a)
    decreases |ms|
  {
    hide PageRange, WellMapped, CutOne, Lookup, Extends;
    if ms == [] {
      NothingAtAll(a);
    } else {
      var m, rest := ms[0], ms[1..];
      OrderedTail(ms);
      CutExact(rest, start, end, a);
      CutOneExact(m, start, end, Cut(rest, start, end), a);
      LookupCons(m, rest, a);
      LookupCons(m, Cut(rest, start, end), a);
      assert [m] + rest == ms;
    }
  }

  lemma NothingAtAll(a: int)
    ensures Lookup([], a) == None
  {
  }

  lemma {:induction false} CutOrdered(ms: seq<Mapping>, start: u32, end: u32, b: int)
    requires Ordered(ms) && PageRange(start, end) && NoneExtends(ms, end) && Above(ms, b)
    ensures Ordered(Cut(ms, start, end)) && Above(Cut(ms, start, end), b)
    decreases |ms|
  {
    hide WellMapped, KindOf, MapEnd, U32, PageRange, Extends, Ordered;
    if ms != [] {
      var m, rest := ms[0], ms[1..];
      OrderedTail(ms);
      CutOrdered(rest, start, end, m.virtual + m.size);
      PageStart(start, end);
      KindFacts(m, start, end);
      EndIs(m);
      if KindOf(m, start, end).Head? {
        HeadFacts(m, start, end);
        var h := m.(size := U32(start - m.virtual));
        EndIs(h);
        OrderedCons(h, Cut(rest, start, end));
      } else if KindOf(m, start, end).Outside? {
        OrderedCons(m, Cut(rest, start, end));
      } else {
        assert [] + Cut(rest, start, end) == Cut(rest, start, end);
      }
    }
  }

  // -------- what the loop and the remapping do is that cut

  /** Past the range, and for ranges no mapping straddles, nothing is put aside. */
  lemma {:induction false} NothingAside(ms: seq<Mapping>, start: u32, end: u32)
    requires Ordered(ms) && PageRange(start, end) && NoneExtends(ms, end) && Above(ms, start)
    ensures Remaps(ms, start, end) == [] && Kept(ms, start, end) == Cut(ms, start, end)
    decreases |ms|
  {
    hide WellMapped, KindOf, MapEnd, PageRange;
    if ms != [] {
      OrderedTail(ms);
      NothingAside(ms[1..], start, end);
      KindFacts(ms[0], start, end);
      assert [] + Cut(ms[1..], start, end) == Cut(ms[1..], start, end);
    }
  }

  lemma InsertFirst(ms: seq<Mapping>, m: Mapping)
    requires Above(ms, m.virtual + 1)
    ensures Insert(ms, m) == [m] + ms
  {
    hide Place;
    assert Place(ms, m.virtual) == 0;
  }

  lemma InsertAfter(m: Mapping, ms: seq<Mapping>, n: Mapping)
    requires m.virtual <= n.virtual
    ensures Insert([m] + ms, n) == [m] + Insert(ms, n)
  {
    assert ([m] + ms)[1..] == ms;
    var k := Place(ms, n.virtual);
    assert Place([m] + ms, n.virtual) == k + 1;
    assert ([m] + ms)[..k + 1] == [m] + ms[..k] && ([m] + ms)[k + 1..] == ms[k..];
  }

  lemma {:induction false} KeptAbove(ms: seq<Mapping>, start: u32, end: u32, b: int)
    requires Above(ms, b)
    ensures Above(Kept(ms, start, end), b)
    decreases |ms|
  {
    hide KindOf;
    if ms != [] {
      KeptAbove(ms[1..], start, end, b);
    }
  }

  /** At most one mapping is cut in two; put back at its address it is where it was. */
  ghost predicate AsideFits(ms: seq<Mapping>, start: u32, end: u32) {
    var kept, again := Kept(ms, start, end), Remaps(ms, start, end);
    if again == [] then kept == Cut(ms, start, end)
    else |again| == 1 && HeadOf(ms, start, end, again[0]) && Insert(kept, again[0]) == Cut(ms, start, end)
  }

  ghost predicate HeadOf(ms: seq<Mapping>, start: u32, end: u32, h: Mapping) {
    exists i :: 0 <= i < |ms| && KindOf(ms[i], start, end).Head? && h == ms[i].(size := U32(start - ms[i].virtual))
  }

  lemma {:induction false} AsideIsCut(ms: seq<Mapping>, start: u32, end: u32)
    requires Ordered(ms) && PageRange(start, end) && NoneExtends(ms, end)
    ensures AsideFits(ms, start, end)
    decreases |ms|
  {
    hide WellMapped, KindOf, MapEnd, PageRange, Extends, AsideFits;
    if ms == [] {
      NothingAside(ms, start, end);
      NoneFits(start, end);
    } else {
      var m, rest := ms[0], ms[1..];
      OrderedTail(ms);
      EndIs(m);
      PageStart(start, end);
      KindFacts(m, start, end);
      AsideIsCut(rest, start, end);
      if KindOf(m, start, end).Outside? {
        if end < m.virtual {
          NothingAside(rest, start, end);
        }
        OutsideFits(m, rest, start, end);
      } else {
        NothingAside(rest, start, end);
        if KindOf(m, start, end).Head? {
          KeptAbove(rest, start, end, m.virtual + 1);
          HeadFits(m, rest, start, end);
        } else {
          InsideFits(m, rest, start, end);
        }
      }
      assert [m] + rest == ms;
    }
  }

  lemma NoneFits(start: u32, end: u32)
    ensures AsideFits([], start, end)
  {
  }

  /** What the first mapping adds to each list. */
  lemma First(m: Mapping, rest: seq<Mapping>, start: u32, end: u32)
    ensures Kept([m] + rest, start, end)
         == if KindOf(m, start, end).Outside? then [m] + Kept(rest, start, end) else Kept(rest, start, end)
    ensures Remaps([m] + rest, start, end) == Remap(m, start, end) + Remaps(rest, start, end)
    ensures Cut([m] + rest, start, end) == CutOne(m, start, end) + Cut(rest, start, end)
  {
    hide KindOf, Remap, CutOne;
    assert ([m] + rest)[1..] == rest;
  }

  lemma OutsideFits(m: Mapping, rest: seq<Mapping>, start: u32, end: u32)
    requires KindOf(m, start, end).Outside? && AsideFits(rest, start, end)
    requires Remaps(rest, start, end) == [] || Above(rest, m.virtual)
    ensures AsideFits([m] + rest, start, end)
  {
    hide KindOf, Insert, U32, Kept, Remaps, Cut;
    First(m, rest, start, end);
    assert [] + Remaps(rest, start, end) == Remaps(rest, start, end);
    if Remaps(rest, start, end) != [] {
      var h := Remaps(rest, start, end)[0];
      var i :| 0 <= i < |rest| && KindOf(rest[i], start, end).Head? && h == rest[i].(size := U32(start - rest[i].virtual));
      assert ([m] + rest)[i + 1] == rest[i];
      InsertAfter(m, Kept(rest, start, end), h);
    }
  }

  lemma HeadFits(m: Mapping, rest: seq<Mapping>, start: u32, end: u32)
    requires KindOf(m, start, end).Head? && Remaps(rest, start, end) == []
    requires Kept(rest, start, end) == Cut(rest, start, end) && Above(Kept(rest, start, end), m.virtual + 1)
    ensures AsideFits([m] + rest, start, end)
  {
    hide KindOf, Insert, U32, Above, Kept, Remaps, Cut;
    var h := m.(size := U32(start - m.virtual));
    First(m, rest, start, end);
    assert ([m] + rest)[0] == m && [h] + [] == [h];
    InsertFirst(Kept(rest, start, end), h);
  }

  lemma InsideFits(m: Mapping, rest: seq<Mapping>, start: u32, end: u32)
    requires KindOf(m, start, end).Inside? && Remaps(rest, start, end) == []
    requires Kept(rest, start, end) == Cut(rest, start, end)
    ensures AsideFits([m] + rest, start, end)
  {
    hide KindOf, Insert, U32, Kept, Remaps, Cut;
    First(m, rest, start, end);
    assert [] + Cut(rest, start, end) == Cut(rest, start, end);
  }

  // -------- mapping

  lemma {:induction false} LookupAppend(x: seq<Mapping>, y: seq<Mapping>, a: int)
    ensures Lookup(x + y, a) == if Lookup(x, a).Some? then Lookup(x, a) else Lookup(y, a)
    decreases |x|
  {
    hide Holds, U32;
    if x == [] {
      assert x + y == y;
    } else {
      assert (x + y)[0] == x[0] && (x + y)[1..] == x[1..] + y;
      LookupAppend(x[1..], y, a);
    }
  }

  /** None of the addresses of a mapping is mapped already. */
  ghost predicate Unmapped(ms: seq<Mapping>, m: Mapping) {
    forall a :: Holds(m, a) ==> Lookup(ms, a) == None
  }

  /** Entries the mapping does not share an address with lie on one side of it. */
  lemma {:induction false} EntryMapped(ms: seq<Mapping>, i: nat, a: int)
    requires i < |ms| && Holds(ms[i], a)
    ensures Lookup(ms, a).Some?
    decreases |ms|
  {
    hide U32, Holds;
    if i > 0 {
      EntryMapped(ms[1..], i - 1, a);
    }
  }

  lemma ApartFrom(ms: seq<Mapping>, i: nat, m: Mapping)
    requires i < |ms| && WellMapped(ms[i]) && WellMapped(m) && Unmapped(ms, m)
    ensures ms[i].virtual + ms[i].size <= m.virtual || m.virtual + m.size <= ms[i].virtual
  {
    hide Lookup, MapEnd;
    EndIs(m);
    EndIs(ms[i]);
    var a := if m.virtual < ms[i].virtual then ms[i].virtual else m.virtual;
    if Holds(ms[i], a) {
      EntryMapped(ms, i, a);
      assert !Holds(m, a);
    }
  }

  lemma InsertOrdered(ms: seq<Mapping>, m: Mapping)
    requires Ordered(ms) && WellMapped(m) && Unmapped(ms, m)
    ensures Ordered(Insert(ms, m))
  {
    hide Unmapped, Place;
    var k := Place(ms, m.virtual);
    forall i | 0 <= i < |ms|
      ensures if i < k then ms[i].virtual + ms[i].size <= m.virtual else m.virtual + m.size <= ms[i].virtual
    {
      ApartFrom(ms, i, m);
      assert i >= k ==> ms[k].virtual <= ms[i].virtual;
    }
    hide WellMapped;
  }

  /** Mappings in front of a new one end before it starts, if its first address is not mapped. */
  lemma BeforeEnds(ms: seq<Mapping>, m: Mapping, i: nat)
    requires Ordered(ms) && Lookup(ms, m.virtual) == None && i < Place(ms, m.virtual)
    ensures MapEnd(ms[i]) < m.virtual
  {
    hide Lookup, MapEnd, Place;
    if m.virtual <= MapEnd(ms[i]) {
      EntryMapped(ms, i, m.virtual);
    }
  }

  /** Inserting a mapping adds exactly its translations, in front of any mapping it overlaps. */
  lemma InsertExact(ms: seq<Mapping>, m: Mapping, a: int)
    requires Ordered(ms) && Lookup(ms, m.virtual) == None
    ensures Lookup(Insert(ms, m), a) == if Holds(m, a) then Lookup([m], a) else Lookup(ms, a)
  {
    hide Lookup, U32, Place, MapEnd, Ordered;
    var k := Place(ms, m.virtual);
    LookupAppend(ms[..k] + [m], ms[k..], a);
    LookupAppend(ms[..k], [m], a);
    LookupAppend(ms[..k], ms[k..], a);
    assert ms == ms[..k] + ms[k..];
    LookupCons(m, [], a);
    NothingAtAll(a);
    assert [m] + [] == [m];
    if Holds(m, a) && Lookup(ms[..k], a).Some? {
      var i := MappedBy(ms[..k], a);
      BeforeEnds(ms, m, i);
    }
  }

  /** A list with an overlap in it is not ordered. */
  lemma OverlapBreaks(ms: seq<Mapping>, m: Mapping)
    requires WellMapped(m) && !Unmapped(ms, m)
    ensures !Ordered(Insert(ms, m))
  {
    hide Lookup, Place, MapEnd;
    var a :| Holds(m, a) && Lookup(ms, a) != None;
    var i := MappedBy(ms, a);
    var k, ms' := Place(ms, m.virtual), Insert(ms, m);
    if Ordered(ms') {
      assert ms'[k] == m;
      assert ms'[if i < k then i else i + 1] == ms[i];
      EndIs(m);
      EndIs(ms[i]);
    }
  }

  lemma InsertAllocated(ms: seq<Mapping>, rs: seq<Range>, m: Mapping)
    ensures InAllocated(Insert(ms, m), rs) <==> InAllocated(ms, rs) && NoneFree(rs, m.virtual, MapEnd(m))
  {
    hide Place, NoneFree, MapEnd;
    var k, ms' := Place(ms, m.virtual), Insert(ms, m);
    assert ms'[k] == m;
    forall i | 0 <= i < |ms| ensures ms'[if i < k then i else i + 1] == ms[i] {}
    if InAllocated(ms', rs) {
      forall i | 0 <= i < |ms| ensures NoneFree(rs, ms[i].virtual, MapEnd(ms[i])) {
        assert ms'[if i < k then i else i + 1] == ms[i];
      }
    }
  }

  /**
   * Mapping succeeds exactly when the first address is allocated and not mapped. It adds exactly the range; the
   * list stays ordered exactly when none of the range was mapped, and off the free list when none of it was free.
   */
  lemma MapExact(ms: seq<Mapping>, rs: seq<Range>, m: Mapping)
    requires Ordered(ms) && WellMapped(m)
    ensures Map(ms, rs, m) == if Lookup(ms, m.virtual) == None && !Covers(rs, m.virtual) then Some(Insert(ms, m)) else None
    ensures Lookup(ms, m.virtual) == None ==>
      && (forall a :: Lookup(Insert(ms, m), a) == if Holds(m, a) then Lookup([m], a) else Lookup(ms, a))
      && (Ordered(Insert(ms, m)) <==> Unmapped(ms, m))
      && (InAllocated(Insert(ms, m), rs) <==> InAllocated(ms, rs) && NoneFree(rs, m.virtual, MapEnd(m)))
  {
    hide Lookup, Insert, FirstHolding, U32, Ordered, Covers, InAllocated, NoneFree, MapEnd, Unmapped;
    OneByte(m.virtual);
    HeldIff(rs, m.virtual);
    if Lookup(ms, m.virtual) == None {
      forall a ensures Lookup(Insert(ms, m), a) == if Holds(m, a) then Lookup([m], a) else Lookup(ms, a) {
        InsertExact(ms, m, a);
      }
      if Unmapped(ms, m) {
        InsertOrdered(ms, m);
      } else {
        OverlapBreaks(ms, m);
      }
      InsertAllocated(ms, rs, m);
    }
  }

  lemma OneByte(a: u32)
    ensures LastOf(a, 1) == a
  {
  }

  lemma HeldIff(rs: seq<Range>, a: u32)
    ensures FirstHolding(rs, a, a) < |rs| <==> Covers(rs, a)
  {
    hide FirstHolding;
  }

  // -------- queries

  /** The mapping with this number holds the address. */
  predicate InMapping(ms: seq<Mapping>, i: int, a: int) {
    0 <= i < |ms| && ms[i].virtual <= a < ms[i].virtual + ms[i].size
  }

  /** Translation by the one mapping that holds the address, if there is one. */
  lemma {:induction false} LookupIs(ms: seq<Mapping>, a: int)
    requires Ordered(ms)
    ensures forall i :: InMapping(ms, i, a) ==>
              Lookup(ms, a) == Some(Target(U32(ms[i].physical + (a - ms[i].virtual)), ms[i].permission))
    ensures Lookup(ms, a).Some? ==> exists i :: InMapping(ms, i, a)
    decreases |ms|
  {
    hide U32, LastOf;
    if ms != [] {
      assert WellMapped(ms[0]);
      EndIs(ms[0]);
      LookupIs(ms[1..], a);
      forall i | InMapping(ms, i, a)
        ensures Lookup(ms, a) == Some(Target(U32(ms[i].physical + (a - ms[i].virtual)), ms[i].permission))
      {
        assert i > 0 ==> InMapping(ms[1..], i - 1, a);
      }
      if Lookup(ms, a).Some? {
        if Holds(ms[0], a) {
          assert InMapping(ms, 0, a);
        } else {
          var i :| InMapping(ms[1..], i, a);
          assert InMapping(ms, i + 1, a);
        }
      }
    }
  }

  /** The answer of a query, by what the two lists say of the address. */
  lemma QueryIff(ms: seq<Mapping>, rs: seq<Range>, a: u32)
    requires Ordered(ms)
    ensures QueryVirtual(ms, rs, a) == MappedReadOnly <==> exists i :: InMapping(ms, i, a) && ms[i].permission == ReadOnly
    ensures QueryVirtual(ms, rs, a) == MappedReadWrite <==> exists i :: InMapping(ms, i, a) && ms[i].permission == ReadWrite
    ensures QueryVirtual(ms, rs, a) == Free <==>
              (forall i :: !InMapping(ms, i, a)) && exists i :: 0 <= i < |rs| && rs[i].start <= a <= rs[i].end
    ensures QueryVirtual(ms, rs, a) == Allocated <==>
              (forall i :: !InMapping(ms, i, a)) && forall i :: 0 <= i < |rs| ==> !(rs[i].start <= a <= rs[i].end)
  {
    hide Lookup, FirstHolding, Ordered, U32, LastOf;
    LookupIs(ms, a);
    OneByte(a);
    HeldIff(rs, a);
  }

  /** Mapping succeeds exactly if the first physical address is memory and the first virtual address is allocated and not mapped. */
  lemma MapIff(ms: seq<Mapping>, rs: seq<Range>, m: Mapping)
    requires Ordered(ms)
    ensures Map(ms, rs, m).Some? <==>
      && (m.physical <= 0x01FF_FFFF || 0x1000_0000 <= m.physical <= 0x8FFF_FFFF)
      && (forall i :: !InMapping(ms, i, m.virtual))
      && forall i :: 0 <= i < |rs| ==> !(rs[i].start <= m.virtual <= rs[i].end)
  {
    hide QueryVirtual, Insert, Ordered;
    QueryIff(ms, rs, m.virtual);
  }

  // -------- unmapping

  /**
   * Unmapping makes exactly the range untranslatable: every other address keeps its target and its
   * permission, also in a mapping that is cut in two, when no mapping reaches past the end of the range.
   */
  lemma UnmapExact(ms: seq<Mapping>, rs: seq<Range>, address: u32, bytes: u32, start: u32, end: u32)
    requires Ordered(ms) && InAllocated(ms, rs)
    requires start == AlignPage(address) && end == LastOf(start, AlignPage(bytes)) && PageRange(start, end)
    requires NoneExtends(ms, end)
    ensures Ordered(Unmap(ms, rs, address, bytes))
    ensures forall a :: Lookup(Unmap(ms, rs, address, bytes), a) == if start <= a <= end then None else Lookup(ms, a)
  {
    hide Lookup, Insert, AlignPage, LastOf, PageRange, Ordered, NoneExtends, Map, Cut, Kept, Remaps, KindOf, InAllocated;
    CutOrderedAll(ms, start, end);
    AsideIsCut(ms, start, end);
    var kept, again := Kept(ms, start, end), Remaps(ms, start, end);
    if again != [] {
      var i :| 0 <= i < |ms| && KindOf(ms[i], start, end).Head? && again[0] == ms[i].(size := U32(start - ms[i].virtual));
      HeadMapsAgain(ms, rs, start, end, i);
      MapAllOne(kept, rs, again[0]);
      assert again == [again[0]];
    }
    assert Unmap(ms, rs, address, bytes) == Cut(ms, start, end);
    forall a ensures Lookup(Cut(ms, start, end), a) == if start <= a <= end then None else Lookup(ms, a) {
      CutExact(ms, start, end, a);
    }
  }

  // -------- mappings that reach past the end of the range

  lemma {:induction false} RemapsOf(ms: seq<Mapping>, start: u32, end: u32, h: Mapping) returns (k: nat)
    requires h in Remaps(ms, start, end)
    ensures k < |ms| && Remap(ms[k], start, end) == [h]
    decreases |ms|
  {
    hide Remap;
    var first := Remap(ms[0], start, end);
    if h in first {
      k := 0;
      OneRemap(ms[0], start, end);
    } else {
      k := RemapsOf(ms[1..], start, end, h);
      k := k + 1;
    }
  }

  lemma OneRemap(m: Mapping, start: u32, end: u32)
    ensures |Remap(m, start, end)| <= 1
  {
  }

  lemma InsertMaps(ms: seq<Mapping>, m: Mapping, a: int)
    ensures Lookup(Insert(ms, m), a).Some? <==> Holds(m, a) || Lookup(ms, a).Some?
  {
    hide Lookup, Holds, Place;
    var k := Place(ms, m.virtual);
    LookupAppend(ms[..k] + [m], ms[k..], a);
    LookupAppend(ms[..k], [m], a);
    LookupAppend(ms[..k], ms[k..], a);
    assert ms == ms[..k] + ms[k..];
    LookupCons(m, [], a);
    NothingAtAll(a);
    assert [m] + [] == [m];
  }

  lemma {:induction false} MapAllKeeps(ms: seq<Mapping>, rs: seq<Range>, again: seq<Mapping>, a: int)
    requires Lookup(ms, a).Some?
    ensures Lookup(MapAll(ms, rs, again), a).Some?
    decreases |again|
  {
    hide Lookup, Insert, QueryVirtual, ValidPhysical;
    if again != [] {
      InsertMaps(ms, again[0], a);
      var one := Map(ms, rs, again[0]);
      MapAllKeeps(if one.Some? then one.value else ms, rs, again[1..], a);
    }
  }

  /** An address that mapping again made translatable lies in a mapping all of which is translatable then. */
  lemma {:induction false} MapAllAdds(ms: seq<Mapping>, rs: seq<Range>, again: seq<Mapping>, b: int) returns (h: Mapping)
    requires Lookup(ms, b) == None && Lookup(MapAll(ms, rs, again), b).Some?
    ensures h in again && Holds(h, b)
    ensures forall a :: Holds(h, a) ==> Lookup(MapAll(ms, rs, again), a).Some?
    decreases |again|
  {
    hide Lookup, Insert, QueryVirtual, ValidPhysical, Holds;
    InsertMaps(ms, again[0], b);
    var one := Map(ms, rs, again[0]);
    var ms' := if one.Some? then one.value else ms;
    if one.Some? && Holds(again[0], b) {
      h := again[0];
      forall a | Holds(h, a) ensures Lookup(MapAll(ms', rs, again[1..]), a).Some? {
        InsertMaps(ms, h, a);
        MapAllKeeps(ms', rs, again[1..], a);
      }
    } else {
      h := MapAllAdds(ms', rs, again[1..], b);
    }
  }

  /** What is mapped again holds the address after the range only if it also holds the last one of the range. */
  lemma RemapReach(m: Mapping, start: u32, end: u32, h: Mapping)
    requires WellMapped(m) && PageRange(start, end) && Remap(m, start, end) == [h] && Holds(h, end + 1)
    ensures Holds(h, end)
  {
    hide MapEnd;
    EndIs(m);
    if KindOf(m, start, end).Head? {
      PageStart(start, end);
      HeadFacts(m, start, end);
    } else {
      U32Id(end - m.virtual);
      U32Id(end);
      assert h.virtual == end;
    }
  }

  /** A mapping that reaches past the end loses its tail, or leaves the end of the range mapped. */
  lemma ExtendsBreaks(ms: seq<Mapping>, rs: seq<Range>, start: u32, end: u32, i: nat)
    requires Ordered(ms) && PageRange(start, end) && i < |ms| && Extends(ms[i], end)
    ensures var after := MapAll(Kept(ms, start, end), rs, Remaps(ms, start, end));
            Lookup(ms, end + 1).Some? && (Lookup(after, end + 1) == None || Lookup(after, end).Some?)
  {
    hide Lookup, Kept, Remaps, MapAll, Remap, PageRange, MapEnd;
    var kept, again := Kept(ms, start, end), Remaps(ms, start, end);
    EntryMapped(ms, i, end + 1);
    ExtendsInside(ms[i], start, end);
    KeptWithout(ms, start, end, i, end + 1);
    if Lookup(MapAll(kept, rs, again), end + 1).Some? {
      var h := MapAllAdds(kept, rs, again, end + 1);
      var k := RemapsOf(ms, start, end, h);
      RemapReach(ms[k], start, end, h);
    }
  }

  lemma ExtendsInside(m: Mapping, start: u32, end: u32)
    requires WellMapped(m) && PageRange(start, end) && Extends(m, end)
    ensures !KindOf(m, start, end).Outside?
  {
  }

  /** Unmapping makes exactly the range untranslatable if and only if no mapping reaches into it and past its end. */
  lemma UnmapIff(ms: seq<Mapping>, rs: seq<Range>, address: u32, bytes: u32, start: u32, end: u32)
    requires Ordered(ms) && InAllocated(ms, rs)
    requires start == AlignPage(address) && end == LastOf(start, AlignPage(bytes)) && PageRange(start, end)
    ensures (forall a :: Lookup(Unmap(ms, rs, address, bytes), a) == if start <= a <= end then None else Lookup(ms, a))
       <==> NoneExtends(ms, end)
  {
    hide Lookup, AlignPage, LastOf, Ordered, Kept, Remaps, MapAll, InAllocated, Extends;
    if NoneExtends(ms, end) {
      UnmapExact(ms, rs, address, bytes, start, end);
    } else {
      var i :| 0 <= i < |ms| && Extends(ms[i], end);
      ExtendsBreaks(ms, rs, start, end, i);
    }
  }

  lemma MapAllOne(ms: seq<Mapping>, rs: seq<Range>, m: Mapping)
    requires Map(ms, rs, m).Some?
    ensures MapAll(ms, rs, [m]) == Map(ms, rs, m).value
  {
    hide Map;
  }

  lemma CutOrderedAll(ms: seq<Mapping>, start: u32, end: u32)
    requires Ordered(ms) && PageRange(start, end) && NoneExtends(ms, end)
    ensures Ordered(Cut(ms, start, end))
  {
    CutOrdered(ms, start, end, 0);
  }

  /** The head of a mapping cut in two is accepted when it is mapped again. */
  lemma HeadMapsAgain(ms: seq<Mapping>, rs: seq<Range>, start: u32, end: u32, i: nat)
    requires Ordered(ms) && InAllocated(ms, rs) && PageRange(start, end) && NoneExtends(ms, end)
    requires i < |ms| && KindOf(ms[i], start, end).Head?
    ensures var h := ms[i].(size := U32(start - ms[i].virtual));
            Map(Kept(ms, start, end), rs, h) == Some(Insert(Kept(ms, start, end), h))
  {
    hide Lookup, Insert, KindOf, FirstHolding, Covers, U32;
    var m := ms[i];
    EndIs(m);
    KeptWithout(ms, start, end, i, m.virtual);
    OneByte(m.virtual);
    HeldIff(rs, m.virtual);
  }

  /** No mapping that stays holds the first address of one that was cut. */
  lemma {:induction false} KeptWithout(ms: seq<Mapping>, start: u32, end: u32, i: nat, a: int)
    requires Ordered(ms) && i < |ms| && !KindOf(ms[i], start, end).Outside? && Holds(ms[i], a)
    ensures Lookup(Kept(ms, start, end), a) == None
    decreases |ms|
  {
    hide KindOf, U32, WellMapped, MapEnd;
    OrderedTail(ms);
    EndIs(ms[0]);
    EndIs(ms[i]);
    if i > 0 {
      KeptWithout(ms[1..], start, end, i - 1, a);
      LookupCons(ms[0], Kept(ms[1..], start, end), a);
    } else {
      assert Above(ms[1..], ms[0].virtual + ms[0].size);
      KeptAbove(ms[1..], start, end, ms[0].virtual + ms[0].size);
      NothingBelow(Kept(ms[1..], start, end), a, ms[0].virtual + ms[0].size);
    }
  }

  lemma {:induction false} MappedBy(ms: seq<Mapping>, a: int) returns (i: nat)
    requires Lookup(ms, a).Some?
    ensures i < |ms| && Holds(ms[i], a)
    decreases |ms|
  {
    hide U32, Holds;
    if Holds(ms[0], a) {
      i := 0;
    } else {
      i := MappedBy(ms[1..], a);
      i := i + 1;
    }
  }

  /** Fewer translations keep mapped memory off the free list. */
  lemma StaysAllocated(ms: seq<Mapping>, ms': seq<Mapping>, rs: seq<Range>)
    requires InAllocated(ms, rs) && forall a :: Lookup(ms', a).Some? ==> Lookup(ms, a).Some?
    ensures InAllocated(ms', rs)
  {
    hide Lookup, MapEnd, Covers;
    forall i, a | 0 <= i < |ms'| && ms'[i].virtual <= a <= MapEnd(ms'[i]) ensures !Covers(rs, a) {
      EntryMapped(ms', i, a);
      var j := MappedBy(ms, a);
    }
  }

  // -------- translating

  /** virtualToPhysicalAddress: the end of a mapping is computed in 32 bits. */
  function Translate(ms: seq<Mapping>, a: u32): Option<u32> {
    if ms == [] then None
    else if ms[0].virtual <= a && U32(ms[0].virtual + ms[0].size) > a then
      Some(U32(ms[0].physical + (a - ms[0].virtual)))
    else Translate(ms[1..], a)
  }

  /** The address is in a mapping that reaches the top of the address space. */
  predicate AtTop(ms: seq<Mapping>, a: u32) {
    exists i :: 0 <= i < |ms| && ms[i].virtual <= a && ms[i].virtual + ms[i].size == TWO32
  }

  /** An address translates as its mapping says, except in a mapping that reaches the top. */
  lemma {:induction false} TranslateIs(ms: seq<Mapping>, a: u32)
    requires Ordered(ms)
    ensures Translate(ms, a)
         == if AtTop(ms, a) || Lookup(ms, a) == None then None else Some(Lookup(ms, a).value.physical)
    decreases |ms|
  {
    hide MapEnd, WellMapped;
    if ms != [] {
      OrderedTail(ms);
      EndIs(ms[0]);
      TranslateIs(ms[1..], a);
      TopOfFirst(ms, a);
      WrapEnd(ms[0]);
    }
  }

  lemma WrapEnd(m: Mapping)
    requires WellMapped(m)
    ensures U32(m.virtual + m.size) == if m.virtual + m.size == TWO32 then 0 else m.virtual + m.size
  {
  }

  lemma TopOfFirst(ms: seq<Mapping>, a: u32)
    requires Ordered(ms) && ms != []
    ensures AtTop(ms, a) <==> (ms[0].virtual <= a && ms[0].virtual + ms[0].size == TWO32) || AtTop(ms[1..], a)
    ensures ms[0].virtual + ms[0].size == TWO32 ==> ms[1..] == []
    ensures AtTop(ms[1..], a) ==> ms[0].virtual + ms[0].size <= a
  {
    assert |ms| > 1 ==> ms[0].virtual + ms[0].size <= ms[1].virtual;
    if AtTop(ms, a) {
      var i :| 0 <= i < |ms| && ms[i].virtual <= a && ms[i].virtual + ms[i].size == TWO32;
      assert i > 0 ==> ms[1..][i - 1] == ms[i];
    }
    if AtTop(ms[1..], a) {
      var i :| 0 <= i < |ms| - 1 && ms[1..][i].virtual <= a && ms[1..][i].virtual + ms[1..][i].size == TWO32;
      assert ms[i + 1] == ms[1..][i];
    }
  }
}
