/** The heap object: its list of free blocks and its map of allocated ones, changed in place. */
module TeenyHeapObject {
  import opened Machine
  import opened Rounding
  import H = TeenyHeap
  import L = TeenyHeapLaws
  import opened Wrappers

  class TeenyHeap {
    const buffer: nat
    const size: nat
    var free: seq<H.Block>
    var used: map<nat, H.Block>

    ghost function Value(): H.Heap
      reads this
    {
      H.Heap(buffer, size, free, used)
    }

    constructor (buffer: nat, size: nat)
      ensures Value() == H.Heap(buffer, size, [H.Block(buffer, size)], map[])
    {
      this.buffer, this.size := buffer, size;
      free, used := [H.Block(buffer, size)], map[];
    }

    method GetTotalFreeSize() returns (total: nat)
      ensures total == L.TotalFree(free)
    {
      total := 0;
      assert free[0..] == free;
      for i := 0 to |free|
        invariant total + L.TotalFree(free[i..]) == L.TotalFree(free)
      {
        assert free[i..][0] == free[i] && free[i..][1..] == free[i + 1..];
        total := total + free[i].size;
      }
      assert free[|free|..] == [];
    }

    method GetLargestFreeSize() returns (largest: nat)
      ensures forall b :: b in free ==> b.size <= largest
      ensures largest == 0 || exists b :: b in free && b.size == largest
    {
      largest := 0;
      for i := 0 to |free|
        invariant forall k :: 0 <= k < i ==> free[k].size <= largest
        invariant largest == 0 || exists b :: b in free && b.size == largest
      {
        if free[i].size > largest {
          largest := free[i].size;
          assert free[i] in free;
        }
      }
    }

    /** A pointer to at least `size` aligned bytes, or nothing. */
    method Alloc(size: nat, align: nat) returns (p: Option<nat>)
      requires PowerOfTwo(align) && align > 0
      modifies this
      ensures var r := H.Alloc(old(Value()), size, align);
              if r.None? then p == None && Value() == old(Value())
              else p == Some(r.value.1) && Value() == r.value.0
    {
      hide RoundUp, U64, H.FirstFit, H.Pad, PowerOfTwo;
      var i := 0;
      while i < |free| && U64(free[i].size - H.Pad(free[i].start, align)) < size
        invariant i <= |free| && forall k :: 0 <= k < i ==> !H.Accepts(free[k], size, align)
      {
        i := i + 1;
      }
      assert i == H.FirstFit(free, size, align);
      if i == |free| {
        return None;
      }
      var start := free[i].start;
      var taken := U64(size + H.Pad(start, align));
      var rest := H.Block(U64(start + taken), U64(free[i].size - taken));
      if rest.size <= H.SMALL {
        taken := U64(taken + rest.size);
        free := free[..i] + free[i + 1..];
      } else {
        free := free[..i] + [rest] + free[i + 1..];
      }
      var aligned := RoundUp(start, align);
      used := H.Emplace(used, aligned, H.Block(start, taken));
      return Some(aligned);
    }

    /** Gives a block back; a pointer that was not allocated aborts. */
    method Free(p: nat) returns (ok: bool)
      modifies this
      ensures var r := H.Free(old(Value()), p);
              if r.None? then !ok && Value() == old(Value()) else ok && Value() == r.value
    {
      hide H.FirstTouching;
      if p !in used {
        return false;
      }
      var b := used[p];
      used := used - {p};
      for i := 0 to |free|
        invariant free == old(free) && used == old(used) - {p}
        invariant forall k :: 0 <= k < i ==> !H.Touching(free[k], b)
      {
        if b.start == free[i].start + free[i].size {
          assert i == H.FirstTouching(free, b);
          free := free[..i] + [H.Block(free[i].start, free[i].size + b.size)] + free[i + 1..];
          return true;
        }
        if b.start + b.size == free[i].start {
          assert i == H.FirstTouching(free, b);
          free := free[..i] + [H.Block(b.start, free[i].size + b.size)] + free[i + 1..];
          return true;
        }
      }
      free := free + [b];
      return true;
    }
  }
}
