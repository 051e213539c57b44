/** The command processor as an object that changes its registers and shadow memory in place. */
module Pm4Machine {
  import opened Machine
  import opened Pm4Stream
  import opened Pm4Packets
  import P = Pm4Processor

  /** A copy of the buffer with the bytes of every word reversed. */
  method SwapBuffer(buffer: array<u32>) returns (swapped: array<u32>)
    ensures fresh(swapped) && swapped[..] == Swapped(buffer[..])
  {
    hide Swap, Swapped;
    var n := buffer.Length;
    swapped := new u32[n];
    for i := 0 to n
      invariant forall k :: 0 <= k < i ==> swapped[k] == Swap(buffer[k])
    {
      swapped[i] := Swap(buffer[i]);
    }
    ghost var words := Swapped(buffer[..]);
    forall k | 0 <= k < n ensures words[k] == Swap(buffer[k]) { SwappedAt(buffer[..], k); }
  }

  /** runCommandBuffer: swaps a copy of the buffer, then takes packets off it one by one. */
  method RunCommandBuffer(buffer: array<u32>) returns (sent: seq<Sent>, stop: Stop)
    ensures (sent, stop) == Dispatch(Swapped(buffer[..]), 0)
  {
    hide Swap, TypeOf, SizeOf, OpcodeOf, BaseOf, Swapped;
    var n := buffer.Length;
    var swapped := SwapBuffer(buffer);
    ghost var words := Swapped(buffer[..]);
    sent := [];
    var pos := 0;
    assert [] + Dispatch(words, 0).0 == Dispatch(words, 0).0;
    while pos < n
      invariant swapped[..] == words
      invariant Dispatch(words, 0) == (sent + Dispatch(words, pos).0, Dispatch(words, pos).1)
      decreases n - pos
    {
      assert swapped[pos] == words[pos];
      assert sent + [] == sent;
      var w := swapped[pos];
      var size := SizeOf(w) + 1;
      if w == 0 {
        return sent, AtZero;
      } else if TypeOf(w) == 2 {
        pos := pos + 1;
      } else if TypeOf(w) == 1 {
        return sent, BadHeader;
      } else if pos + size > n {
        return sent, CheckFailed;
      } else if pos + size == n {
        return sent, PastEnd;
      } else {
        var payload := swapped[pos + 1..pos + 1 + size];
        assert payload == words[pos + 1..pos + 1 + size];
        var one := if TypeOf(w) == 3 then Type3(OpcodeOf(w), payload) else Type0(BaseOf(w), payload);
        ghost var rest := Dispatch(words, pos + 1 + size).0;
        assert sent + ([one] + rest) == (sent + [one]) + rest;
        sent := sent + [one];
        pos := pos + 1 + size;
      }
    }
    assert sent + [] == sent;
    stop := AtEnd;
  }

  class Processor {
    var registers: seq<u32>
    var memory: seq<u32>
    var load: set<P.Class>
    var shadow: set<P.Class>
    var base: map<P.Class, nat>

    function State(): P.State
      reads this
    {
      P.State(registers, memory, load, shadow, base)
    }

    /** A write to the semantic clear register also resets the semantics it selects. */
    method SetRegister(r: nat, v: u32)
      requires |registers| == P.REGISTERS && r < P.REGISTERS
      modifies this`registers
      ensures registers == P.SetRegister(old(registers), r, v)
      decreases if r == P.SEMANTIC_CLEAR then 1 else 0
    {
      hide P.Bit;
      registers := registers[r := v];
      if r == P.SEMANTIC_CLEAR {
        ghost var one := registers;
        for i := 0 to 32
          invariant |registers| == P.REGISTERS
          invariant P.ClearSemantics(registers, v, i) == P.ClearSemantics(one, v, 0)
        {
          if P.Bit(v, i) {
            SetRegister(P.SEMANTIC_0 + i, TWO32 - 1);
          }
        }
      }
    }

    /** One of the set handlers: first the shadow words, if shadowing is on, then the registers. */
    method SetRegisters(c: P.Class, k: nat, vs: seq<u32>)
      requires P.Fits(State()) && P.InRange(State(), P.Set(c, k, vs))
      modifies this`registers, this`memory
      ensures State() == P.Handle(old(State()), P.Set(c, k, vs))
    {
      hide P.SetRegister, P.First, P.Count;
      P.ClassesApart(c, c);
      if c in shadow && c in base {
        var a := base[c] + k;
        for i := 0 to |vs|
          invariant registers == old(registers) && |memory| == |old(memory)| && memory == P.Stored(old(memory), a, vs[..i])
        {
          StoredMore(old(memory), a, vs, i);
          memory := memory[a + i := vs[i]];
        }
        assert vs[..|vs|] == vs;
      }
      ghost var all, written := registers, memory;
      assert vs[0..] == vs;
      for i := 0 to |vs|
        invariant |registers| == P.REGISTERS && memory == written
        invariant P.SetAll(registers, P.First(c) + k + i, vs[i..]) == P.SetAll(all, P.First(c) + k, vs)
      {
        assert vs[i..][0] == vs[i] && vs[i..][1..] == vs[i + 1..];
        SetRegister(P.First(c) + k + i, vs[i]);
      }
      assert vs[|vs|..] == [];
    }

    /** One of the load handlers: remembers the shadow block and copies the listed words from it. */
    method LoadRegisters(c: P.Class, a: nat, ranges: seq<(nat, nat)>)
      requires P.Fits(State()) && P.InRange(State(), P.Load(c, a, ranges))
      modifies this`registers, this`base
      ensures State() == P.Handle(old(State()), P.Load(c, a, ranges))
    {
      hide P.SetRegister, P.First, P.Count;
      P.ClassesApart(c, c);
      if c in load {
        base := base[c := a];
        ghost var all := registers;
        assert ranges[0..] == ranges;
        for i := 0 to |ranges|
          invariant |registers| == P.REGISTERS && a + P.Count(c) <= |memory| && base == old(base)[c := a]
          invariant forall r :: r in ranges[i..] ==> r in ranges
          invariant P.LoadRanges(registers, memory, c, a, ranges[i..]) == P.LoadRanges(all, memory, c, a, ranges)
        {
          var range := ranges[i];
          assert ranges[i..][0] == range && ranges[i..][1..] == ranges[i + 1..] && range in ranges;
          assert forall r :: r in ranges[i + 1..] ==> r in ranges[i..];
          LoadOne(c, a, range.0, range.1);
        }
        assert ranges[|ranges|..] == [];
      }
    }

    method LoadOne(c: P.Class, a: nat, start: nat, count: nat)
      requires |registers| == P.REGISTERS && P.First(c) + P.Count(c) <= P.REGISTERS
      requires a + P.Count(c) <= |memory| && start + count <= P.Count(c)
      modifies this`registers
      ensures |registers| == P.REGISTERS && registers == P.LoadRange(old(registers), memory, c, a, start, count)
    {
      hide P.SetRegister, P.First, P.Count;
      for j := start to start + count
        invariant |registers| == P.REGISTERS
        invariant P.LoadRange(registers, memory, c, a, j, start + count - j)
               == P.LoadRange(old(registers), memory, c, a, start, count)
      {
        SetRegister(P.First(c) + j, memory[a + j]);
      }
    }
  }

  lemma StoredMore(memory: seq<u32>, a: nat, vs: seq<u32>, i: nat)
    requires a + |vs| <= |memory| && i < |vs|
    ensures P.Stored(memory, a, vs[..i])[a + i := vs[i]] == P.Stored(memory, a, vs[..i + 1])
  {
  }
}
