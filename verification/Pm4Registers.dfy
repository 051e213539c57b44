/** What every register packet does to every single register, context registers and their side effects included. */
module Pm4Registers {
  import opened Machine
  import opened Pm4Processor
  import opened Pm4Shadow

  /** The byte addresses at which the classes and the registers with a part of their own begin. */
  lemma ByteAddresses()
    ensures 4 * First(Config) == 0x8000 && 4 * First(Context) == 0x2_8000 && 4 * First(Alu) == 0x3_0000
    ensures 4 * First(Resource) == 0x3_8000 && 4 * First(Sampler) == 0x3_C000 && 4 * First(Control) == 0x3_CFF0
    ensures 4 * First(Loop) == 0x3_E200 && 4 * First(Bool) == 0x3_E380
    ensures 4 * SEMANTIC_0 == 0x2_8380 && 4 * SEMANTIC_CLEAR == 0x2_88E0
    ensures 4 * INDEX_TYPE == 0x2_8A7C && 4 * NUM_INSTANCES == 0x2_8A88
  {
  }

  // -------- the semantic clear register

  /** Register q is the vertex semantic that a value written to the semantic clear register resets. */
  predicate Resets(v: u32, q: nat) {
    0xA0E0 <= q < 0xA100 && v / Pow2(q - 0xA0E0) % 2 == 1
  }

  lemma {:induction false} BitIs(v: nat, i: nat)
    ensures Bit(v, i) <==> v / Pow2(i) % 2 == 1
    decreases i
  {
    if i > 0 {
      BitIs(v / 2, i - 1);
      HalfDiv(v, Pow2(i - 1));
    }
  }

  lemma HalfDiv(v: nat, n: nat)
    requires n > 0
    ensures v / 2 / n == v / (2 * n)
  {
    var q, r := v / 2 / n, v / 2 % n;
    Euclid(v / 2, n);
    assert v == 2 * (n * q + r) + v % 2 == (2 * n) * q + (2 * r + v % 2);
    DivModOf(2 * n, q, 2 * r + v % 2);
  }

  lemma {:induction false} ClearedFrom(regs: seq<u32>, v: u32, i: nat, q: nat)
    requires |regs| == REGISTERS && i <= 32 && q < REGISTERS
    ensures ClearSemantics(regs, v, i)[q] == if 0xA0E0 + i <= q && Resets(v, q) then 0xFFFF_FFFF else regs[q]
    decreases 32 - i
  {
    hide Bit, Pow2;
    if i < 32 {
      BitIs(v, i);
      ClearedFrom(if Bit(v, i) then regs[SEMANTIC_0 + i := TWO32 - 1] else regs, v, i + 1, q);
    }
  }

  /** A register write reaches its own register and, through the semantic clear register, the semantics its bits select. */
  lemma WriteIs(regs: seq<u32>, r: nat, v: u32, q: nat)
    requires |regs| == REGISTERS && r < REGISTERS && q < REGISTERS
    ensures SetRegister(regs, r, v)[q]
         == if r == 0xA238 && Resets(v, q) then 0xFFFF_FFFF else if q == r then v else regs[q]
  {
    hide ClearSemantics, Pow2;
    if r == SEMANTIC_CLEAR {
      ClearedFrom(regs[r := v], v, 0, q);
    }
  }

  /** A run of writes: the semantics come before the clear register, so a clear in the run wins over their own values. */
  lemma {:induction false} WritesAre(regs: seq<u32>, r: nat, vs: seq<u32>, q: nat)
    requires |regs| == REGISTERS && r + |vs| <= REGISTERS && q < REGISTERS
    ensures SetAll(regs, r, vs)[q]
         == if r <= 0xA238 < r + |vs| && Resets(vs[0xA238 - r], q) then 0xFFFF_FFFF
            else if r <= q < r + |vs| then vs[q - r] else regs[q]
    decreases |vs|
  {
    hide SetRegister, Pow2;
    if vs != [] {
      WriteIs(regs, r, vs[0], q);
      WritesAre(SetRegister(regs, r, vs[0]), r + 1, vs[1..], q);
    }
  }

  // -------- packets that write registers

  /** The direct writes reach one register each and nothing else. */
  lemma DirectWrites(s: State, v: u32, q: nat)
    requires Fits(s) && q < REGISTERS
    ensures Handle(s, IndexType(v)) == s.(regs := Handle(s, IndexType(v)).regs)
    ensures Handle(s, IndexType(v)).regs[q] == if 4 * q == 0x2_8A7C then v else s.regs[q]
    ensures Handle(s, NumInstances(v)) == s.(regs := Handle(s, NumInstances(v)).regs)
    ensures Handle(s, NumInstances(v)).regs[q] == if 4 * q == 0x2_8A88 then v else s.regs[q]
  {
  }

  /** A set packet for the context class, register by register. */
  lemma ContextWrites(s: State, k: nat, vs: seq<u32>, q: nat)
    requires Fits(s) && k + |vs| <= 0x400 && q < REGISTERS
    ensures Handle(s, Set(Context, k, vs)).regs[q]
         == if k <= 0x238 < k + |vs| && Resets(vs[0x238 - k], q) then 0xFFFF_FFFF
            else if 0xA000 + k <= q < 0xA000 + k + |vs| then vs[q - 0xA000 - k] else s.regs[q]
  {
    hide SetAll, Pow2, Stored, Resets;
    WritesAre(s.regs, 0xA000 + k, vs, q);
  }

  // -------- loads

  /** A range of registers loaded from a block reaches a register. */
  predicate Reaches(memory: seq<u32>, c: Class, a: nat, range: (nat, nat), q: nat)
    requires range.0 + range.1 <= Count(c) && a + Count(c) <= |memory|
  {
    || First(c) + range.0 <= q < First(c) + range.0 + range.1
    || Clears(memory, c, a, range, q)
  }

  /** The range holds the semantic clear register, and the word loaded there resets the register. */
  predicate Clears(memory: seq<u32>, c: Class, a: nat, range: (nat, nat), q: nat)
    requires range.0 + range.1 <= Count(c) && a + Count(c) <= |memory|
  {
    && First(c) + range.0 <= 0xA238 < First(c) + range.0 + range.1
    && Resets(memory[a + (0xA238 - First(c))], q)
  }

  /** What a range that reaches a register leaves there. */
  function Loaded(memory: seq<u32>, c: Class, a: nat, range: (nat, nat), q: nat): u32
    requires range.0 + range.1 <= Count(c) && a + Count(c) <= |memory| && Reaches(memory, c, a, range, q)
  {
    if Clears(memory, c, a, range, q) then 0xFFFF_FFFF else memory[a + (q - First(c))]
  }

  lemma {:induction false} RangeIs(regs: seq<u32>, memory: seq<u32>, c: Class, a: nat, j: nat, n: nat, q: nat)
    requires |regs| == REGISTERS && j + n <= Count(c) && First(c) + Count(c) <= REGISTERS && a + Count(c) <= |memory|
    requires q < REGISTERS
    ensures LoadRange(regs, memory, c, a, j, n)[q]
         == if Reaches(memory, c, a, (j, n), q) then Loaded(memory, c, a, (j, n), q) else regs[q]
    decreases n
  {
    hide SetRegister, First, Count, Pow2;
    if n > 0 {
      WriteIs(regs, First(c) + j, memory[a + j], q);
      RangeIs(SetRegister(regs, First(c) + j, memory[a + j]), memory, c, a, j + 1, n - 1, q);
    }
  }

  /** A register holds what the last range that reaches it left there, and is unchanged if none does. */
  lemma {:induction false} RangesAre(
      regs: seq<u32>, memory: seq<u32>, c: Class, a: nat, ranges: seq<(nat, nat)>, q: nat) returns (i: int)
    requires |regs| == REGISTERS && First(c) + Count(c) <= REGISTERS && a + Count(c) <= |memory|
    requires forall k :: 0 <= k < |ranges| ==> ranges[k].0 + ranges[k].1 <= Count(c)
    requires q < REGISTERS
    ensures forall r :: r in ranges ==> r.0 + r.1 <= Count(c)
    ensures -1 <= i < |ranges| && forall k :: i < k < |ranges| ==> !Reaches(memory, c, a, ranges[k], q)
    ensures i >= 0 ==> Reaches(memory, c, a, ranges[i], q)
    ensures LoadRanges(regs, memory, c, a, ranges)[q] == if i >= 0 then Loaded(memory, c, a, ranges[i], q) else regs[q]
    decreases |ranges|
  {
    hide LoadRange, First, Count, Reaches, Loaded;
    if ranges == [] {
      i := -1;
    } else {
      var r, rest := ranges[0], ranges[1..];
      RangeIs(regs, memory, c, a, r.0, r.1, q);
      i := RangesAre(LoadRange(regs, memory, c, a, r.0, r.1), memory, c, a, rest, q);
      if i >= 0 {
        i := i + 1;
      } else if Reaches(memory, c, a, r, q) {
        i := 0;
      }
    }
  }

  // -------- context registers and their shadow

  /** No packet but a set or a load of the context class itself writes the register. */
  predicate Plain(q: nat) {
    !(0xA0E0 <= q < 0xA100) && q != 0xA29F && q != 0xA2A2
  }

  lemma PlainNotReset(v: u32, q: nat)
    requires Plain(q)
    ensures !Resets(v, q)
  {
  }

  lemma ContextSet(s: State, d: Class, j: nat, vs: seq<u32>, k: nat)
    requires Fits(s) && BlocksApart(s) && Context in s.shadow && j + |vs| <= Count(d)
    requires k < Count(Context) && Matches(s, Context, k) && Plain(First(Context) + k)
    ensures Matches(Handle(s, Set(d, j, vs)), Context, k)
  {
    hide First, Count, SetAll, Stored, Resets, Plain;
    var q := First(Context) + k;
    ClassesApart(d, Context);
    WritesAre(s.regs, First(d) + j, vs, q);
    if First(d) + j <= 0xA238 < First(d) + j + |vs| {
      PlainNotReset(vs[0xA238 - (First(d) + j)], q);
    }
    if Shadowed(s, d) {
      StoredAt(s.memory, s.base[d] + j, vs, s.base[Context] + k);
    }
  }

  lemma ContextLoad(s: State, d: Class, a: nat, ranges: seq<(nat, nat)>, k: nat)
    requires Fits(s) && InRange(s, Load(d, a, ranges)) && Context in s.shadow && Context in s.base
    requires k < Count(Context) && Matches(s, Context, k) && Plain(First(Context) + k)
    requires d == Context && d in s.load ==> Listed(ranges, k) || a == s.base[Context]
    ensures Matches(Handle(s, Load(d, a, ranges)), Context, k)
  {
    hide First, Count, LoadRanges, Resets, Plain;
    if d in s.load {
      var q := First(Context) + k;
      ClassesApart(d, Context);
      forall i | 0 <= i < |ranges| ensures ranges[i].0 + ranges[i].1 <= Count(d) {
        assert ranges[i] in ranges;
      }
      var i := RangesAre(s.regs, s.memory, d, a, ranges, q);
      forall v: u32 ensures !Resets(v, q) {
        PlainNotReset(v, q);
      }
      if d == Context && Listed(ranges, k) {
        var l :| 0 <= l < |ranges| && ranges[l].0 <= k < ranges[l].0 + ranges[l].1;
        assert Reaches(s.memory, d, a, ranges[l], q);
      }
    }
  }

  /**
   * A context register that no side effect reaches stays equal to its shadow word under any allowed packet: all but the
   * 32 semantics and the two registers that are written directly.
   */
  lemma ContextKeeps(s: State, p: Packet, k: nat)
    requires Fits(s) && BlocksApart(s) && Context in s.shadow && Context in s.base && Allowed(s, p, Context)
    requires k < 0x400 && Matches(s, Context, k) && Plain(0xA000 + k)
    ensures Matches(Handle(s, p), Context, k)
  {
    hide LoadRanges, SetAll, Stored, Resets;
    match p
    case Set(d, j, vs) => ContextSet(s, d, j, vs, k);
    case Load(d, a, ranges) => ContextLoad(s, d, a, ranges, k);
    case ContextControl(l, h) =>
    case _ =>
  }

  /** The others do not: a clear resets a semantic and leaves its shadow word, and direct writes have no shadow word at all. */
  lemma ContextDiffers(s: State, v: u32, k: nat)
    requires Fits(s) && Context in s.base && Context in s.shadow && k < 0x400 && Matches(s, Context, k)
    ensures Resets(v, 0xA000 + k) ==>
              (Matches(Handle(s, Set(Context, 0x238, [v])), Context, k) <==> s.regs[0xA000 + k] == 0xFFFF_FFFF)
    ensures k == 0x29F ==> (Matches(Handle(s, IndexType(v)), Context, k) <==> s.regs[0xA000 + k] == v)
    ensures k == 0x2A2 ==> (Matches(Handle(s, NumInstances(v)), Context, k) <==> s.regs[0xA000 + k] == v)
  {
    hide SetAll, Stored, Pow2;
    ContextWrites(s, 0x238, [v], 0xA000 + k);
    StoredAt(s.memory, s.base[Context] + 0x238, [v], s.base[Context] + k);
  }
}
