/** The memory map object: its two lists, changed in place by each call. */
module MemoryMap {
  import opened Machine
  import opened Reservations
  import opened ReservationsExact
  import Find = ReservationsFind
  import R = Rounding
  import P = PageTable
  import X = PageTableExact
  import opened Wrappers

  class MemoryMap {
    var reserved: seq<Range>
    var mapped: seq<P.Mapping>

    /** The whole virtual address space starts free. */
    constructor ()
      ensures reserved == [Range(0, TWO32 - 1)] && mapped == []
    {
      reserved, mapped := [Range(0, TWO32 - 1)], [];
    }

    method IsVirtualAddressFree(start: u32, size: u32) returns (free: bool)
      ensures free <==> FirstHolding(reserved, start, LastOf(start, size)) < |reserved|
    {
      hide LastOf, FirstHolding;
      var end := LastOf(start, size);
      for i := 0 to |reserved|
        invariant forall k :: 0 <= k < i ==> !(reserved[k].start <= start && end <= reserved[k].end)
      {
        if reserved[i].start <= start && reserved[i].end >= end {
          return true;
        }
      }
      return false;
    }

    method AllocateVirtualAddress(address: u32, bytes: u32) returns (ok: bool)
      modifies this`reserved
      ensures var result := Allocate(old(reserved), address, bytes);
              ok == result.Some? && reserved == if ok then result.value else old(reserved)
    {
      hide FirstHolding, LastOf, AlignPage, U32;
      if bytes == 0 {
        return false;
      }
      var start, size := AlignPage(address), AlignPage(bytes);
      var end := LastOf(start, size);
      var free := IsVirtualAddressFree(start, size);
      if !free {
        return false;
      }
      for i := 0 to |reserved|
        invariant reserved == old(reserved)
        invariant forall k :: 0 <= k < i ==> !(reserved[k].start <= start && end <= reserved[k].end)
      {
        var r := reserved[i];
        if start >= r.start && end <= r.end {
          assert i == FirstHolding(reserved, start, end);
          if start == r.start && end == r.end {
            reserved := reserved[..i] + reserved[i + 1..];
          } else if start == r.start {
            reserved := reserved[..i] + [Range(U32(r.start + size), r.end)] + reserved[i + 1..];
          } else if end == r.end {
            reserved := reserved[..i] + [Range(r.start, U32(r.end - size))] + reserved[i + 1..];
          } else {
            var upper := Range(U32(start + size), r.end);
            var lower := Range(r.start, U32(start - 1));
            reserved := reserved[..i] + [lower, upper] + reserved[i + 1..];
          }
          return true;
        }
      }
      return false;
    }

    method FreeVirtualAddress(address: u32, bytes: u32) returns (ok: bool)
      modifies this`reserved
      ensures ok && reserved == Free(old(reserved), address, bytes)
    {
      hide FirstHolding, FirstTouching, InsertAt, LastOf, AlignPage, U32;
      var start, size := AlignPage(address), AlignPage(bytes);
      var free := IsVirtualAddressFree(start, size);
      if free {
        return true;
      }
      for i := 0 to |reserved|
        invariant reserved == old(reserved)
        invariant forall k :: 0 <= k < i ==> !Touches(reserved[k], start, size)
      {
        if reserved[i].start == Past(start, size) {
          assert i == FirstTouching(reserved, start, size);
          var grown := Range(U32(reserved[i].start - size), reserved[i].end);
          if i > 0 && U32(reserved[i - 1].end + 1) == grown.start {
            grown := grown.(start := reserved[i - 1].start);
            reserved := reserved[..i - 1] + [grown] + reserved[i + 1..];
          } else {
            reserved := reserved[..i] + [grown] + reserved[i + 1..];
          }
          return true;
        } else if U32(reserved[i].end + 1) == start {
          assert i == FirstTouching(reserved, start, size);
          var grown := Range(reserved[i].start, U32(reserved[i].end + size));
          if i + 1 < |reserved| && reserved[i + 1].start == U32(grown.end + 1) {
            grown := grown.(end := reserved[i + 1].end);
            reserved := reserved[..i] + [grown] + reserved[i + 2..];
          } else {
            reserved := reserved[..i] + [grown] + reserved[i + 1..];
          }
          return true;
        }
      }
      var k := InsertAt(reserved, start);
      reserved := reserved[..k] + [Range(start, LastOf(start, size))] + reserved[k..];
      return true;
    }

    method FindFreeVirtualAddress(bytes: u32, align: nat) returns (start: u32, size: u32)
      requires Find.GoodAlign(align) && align > 0
      ensures (start, size) == Find.Find(reserved, bytes, align)
      ensures Separated(reserved) ==>
        (Find.Right(reserved, (start, size), Span(AlignPage(bytes)), align) <==> Find.Answerable(reserved, AlignPage(bytes), align))
    {
      if Separated(reserved) {
        Find.FindIff(reserved, bytes, align);
      }
      hide Find.Right, Find.Answerable, Separated;
      hide LastOf, AlignPage, Find.FirstPassing, R.RoundUp, U32;
      size := AlignPage(bytes);
      for i := 0 to |reserved|
        invariant forall k :: 0 <= k < i ==> !Find.Passes(reserved[k], size, align)
      {
        start := AlignPage(U32(R.RoundUp(reserved[i].start, align)));
        if reserved[i].start <= start && reserved[i].end >= LastOf(start, size) {
          assert i == Find.FirstPassing(reserved, size, align);
          return;
        }
      }
      return 0, 0;
    }

    method FindFreeVirtualAddressInRange(lo: u32, length: u32, bytes: u32, align: nat) returns (start: u32, size: u32)
      requires Find.GoodAlign(align) && align > 0
      ensures (start, size) == Find.Find(Find.Clipped(reserved, lo, LastOf(lo, length)), bytes, align)
      ensures Separated(reserved) ==>
        (Find.RightIn(reserved, lo, LastOf(lo, length), (start, size), Span(AlignPage(bytes)), align)
         <==> Find.AnswerableIn(reserved, lo, LastOf(lo, length), AlignPage(bytes), align))
    {
      var hi := LastOf(lo, length);
      if Separated(reserved) {
        Find.FindInRangeIff(reserved, lo, hi, bytes, align);
      }
      hide Find.RightIn, Find.AnswerableIn, Separated, Find.GoodAlign, Find.Find, Find.Clipped, Find.Passes, Find.Meets, Find.Part;
      hide LastOf, AlignPage, R.RoundUp, Span, U32;
      size := AlignPage(bytes);
      ghost var tried: seq<Range> := [];
      ClippedEnd(reserved, lo, hi);
      for i := 0 to |reserved|
        invariant forall k :: 0 <= k < |tried| ==> !Find.Passes(tried[k], size, align)
        invariant tried + Find.Clipped(reserved[i..], lo, hi) == Find.Clipped(reserved, lo, hi)
      {
        var r := reserved[i];
        ClippedStep(reserved, i, lo, hi);
        if !Find.Meets(r, lo, hi) {
          continue;
        }
        var part := Find.Part(r, lo, hi);
        ghost var rest := Find.Clipped(reserved[i + 1..], lo, hi);
        assert tried + ([part] + rest) == (tried + [part]) + rest;
        start := AlignPage(U32(R.RoundUp(part.start, align)));
        var passes := Find.Passes(part, size, align);
        if passes {
          FoundAt(tried, part, rest, bytes, align);
          return;
        }
        tried := tried + [part];
      }
      assert tried + [] == tried;
      FoundNone(tried, bytes, align);
      return 0, 0;
    }

    method QueryVirtualAddress(a: u32) returns (kind: P.VirtualType)
      ensures kind == P.QueryVirtual(mapped, reserved, a)
    {
      hide P.Holds, FirstHolding, LastOf, U32;
      assert mapped[0..] == mapped;
      for i := 0 to |mapped|
        invariant P.Lookup(mapped, a) == P.Lookup(mapped[i..], a)
      {
        assert mapped[i..][0] == mapped[i] && mapped[i..][1..] == mapped[i + 1..];
        if P.Holds(mapped[i], a) {
          return if mapped[i].permission == P.ReadOnly then P.MappedReadOnly else P.MappedReadWrite;
        }
      }
      assert mapped[|mapped|..] == [];
      var free := IsVirtualAddressFree(a, 1);
      return if free then P.Free else P.Allocated;
    }

    method VirtualToPhysicalAddress(a: u32) returns (out: Option<u32>)
      ensures out == X.Translate(mapped, a)
    {
      hide U32;
      assert mapped[0..] == mapped;
      for i := 0 to |mapped|
        invariant X.Translate(mapped, a) == X.Translate(mapped[i..], a)
      {
        var m := mapped[i];
        assert mapped[i..][0] == m && mapped[i..][1..] == mapped[i + 1..];
        if m.virtual <= a && U32(m.virtual + m.size) > a {
          return Some(U32(m.physical + (a - m.virtual)));
        }
      }
      assert mapped[|mapped|..] == [];
      return None;
    }

    /** mapMemory, where the host maps every view it is asked for. */
    method MapMemory(m: P.Mapping) returns (ok: bool)
      modifies this`mapped
      ensures var result := P.Map(old(mapped), reserved, m);
              ok == result.Some? && mapped == if ok then result.value else old(mapped)
    {
      hide P.QueryVirtual, P.Place;
      if !P.ValidPhysical(m.physical) {
        return false;
      }
      var kind := QueryVirtualAddress(m.virtual);
      if kind != P.Allocated {
        return false;
      }
      var k := P.Place(mapped, m.virtual);
      mapped := mapped[..k] + [m] + mapped[k..];
      return true;
    }

    method UnmapMemory(address: u32, bytes: u32) returns (ok: bool)
      modifies this`mapped
      ensures ok && mapped == P.Unmap(old(mapped), reserved, address, bytes)
    {
      hide LastOf, AlignPage, U32, P.KindOf, P.Map, P.Remap;
      var start := AlignPage(address);
      var end := LastOf(start, AlignPage(bytes));
      var remaps: seq<P.Mapping> := [];
      ghost var all := mapped;
      ghost var n := 0;
      var i := 0;
      assert mapped[0..] == all[0..] == all;
      while i < |mapped|
        invariant n <= |all| && i <= |mapped| && mapped[i..] == all[n..]
        invariant mapped[..i] + P.Kept(all[n..], start, end) == P.Kept(all, start, end)
        invariant remaps + P.Remaps(all[n..], start, end) == P.Remaps(all, start, end)
        decreases |mapped| - i
      {
        var m := mapped[i];
        assert m == mapped[i..][0] == all[n..][0] == all[n];
        assert all[n..][1..] == all[n + 1..] && mapped[i..][1..] == mapped[i + 1..];
        ghost var before := mapped[..i];
        ghost var rest := P.Kept(all[n + 1..], start, end);
        assert before + ([m] + rest) == (before + [m]) + rest;
        ghost var later := P.Remaps(all[n + 1..], start, end);
        assert remaps + (P.Remap(m, start, end) + later) == (remaps + P.Remap(m, start, end)) + later;
        remaps := remaps + P.Remap(m, start, end);
        n := n + 1;
        if P.KindOf(m, start, end) == P.Outside {
          assert mapped[..i + 1] == before + [m];
          i := i + 1;
        } else {
          mapped := mapped[..i] + mapped[i + 1..];
          assert mapped[i..] == all[n..] && mapped[..i] == before;
        }
      }
      assert all[n..] == [] && mapped[..i] == mapped;
      assert remaps + [] == remaps && mapped + [] == mapped;
      ghost var kept := mapped;
      assert remaps[0..] == remaps;
      for k := 0 to |remaps|
        invariant P.MapAll(mapped, reserved, remaps[k..]) == P.MapAll(kept, reserved, remaps)
      {
        assert remaps[k..][0] == remaps[k] && remaps[k..][1..] == remaps[k + 1..];
        var mappedAgain := MapMemory(remaps[k]);
      }
      assert remaps[|remaps|..] == [];
      return true;
    }
  }

  function Past(start: u32, size: u32): u32 {
    U32(start + size)
  }

  /** The search ends at the first part that passes. */
  lemma FoundAt(tried: seq<Range>, part: Range, rest: seq<Range>, bytes: u32, align: nat)
    requires align > 0 && Find.Passes(part, AlignPage(bytes), align)
    requires forall k :: 0 <= k < |tried| ==> !Find.Passes(tried[k], AlignPage(bytes), align)
    ensures Find.Find((tried + [part]) + rest, bytes, align) == (Find.Start(part, align), AlignPage(bytes))
  {
    hide Find.FirstPassing, Find.Passes, Find.Start, AlignPage;
    var all := (tried + [part]) + rest;
    assert all[|tried|] == part;
    assert forall k :: 0 <= k < |tried| ==> all[k] == tried[k];
    assert Find.FirstPassing(all, AlignPage(bytes), align) == |tried|;
  }

  lemma FoundNone(tried: seq<Range>, bytes: u32, align: nat)
    requires align > 0 && forall k :: 0 <= k < |tried| ==> !Find.Passes(tried[k], AlignPage(bytes), align)
    ensures Find.Find(tried, bytes, align) == (0, 0)
  {
    hide Find.FirstPassing, Find.Passes, AlignPage;
  }

  lemma ClippedStep(rs: seq<Range>, i: nat, lo: u32, hi: u32)
    requires i < |rs|
    ensures var rest := Find.Clipped(rs[i + 1..], lo, hi);
            Find.Clipped(rs[i..], lo, hi) == if Find.Meets(rs[i], lo, hi) then [Find.Part(rs[i], lo, hi)] + rest else rest
  {
    hide Find.Meets, Find.Part;
    assert rs[i..][0] == rs[i] && rs[i..][1..] == rs[i + 1..];
  }

  lemma ClippedEnd(rs: seq<Range>, lo: u32, hi: u32)
    ensures Find.Clipped(rs[|rs|..], lo, hi) == [] && rs[0..] == rs
  {
  }
}
