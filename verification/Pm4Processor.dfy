/**
 * The register state of the command processor and its shadow copies in memory. Registers are numbered
 * in words; each class of registers is a range of them with a base address for its shadow.
 */
module Pm4Processor {
  import opened Machine
  import opened Pm4Stream

  datatype Class = Config | Context | Alu | Resource | Sampler | Control | Loop | Bool

  const REGISTERS: nat := 0x1_0000

  /** First register of a class. */
  function First(c: Class): nat {
    match c
    case Config => 0x2000
    case Context => 0xA000
    case Alu => 0xC000
    case Resource => 0xE000
    case Sampler => 0xF000
    case Control => 0xF3FC
    case Loop => 0xF880
    case Bool => 0xF8E0
  }

  /** Number of registers of a class. */
  function Count(c: Class): nat {
    match c
    case Config => 0xB00
    case Context => 0x400
    case Alu => 0x800
    case Resource => 0xD9E
    case Sampler => 0xA2
    case Control => 1
    case Loop => 0x60
    case Bool => 0
  }

  const SEMANTIC_0: nat := 0xA0E0
  const SEMANTIC_CLEAR: nat := 0xA238
  const INDEX_TYPE: nat := 0xA29F
  const NUM_INSTANCES: nat := 0xA2A2

  /** The registers of different classes are apart, and the direct writes and the semantics are context registers. */
  lemma ClassesApart(c: Class, d: Class)
    ensures c != d ==> First(c) + Count(c) <= First(d) || First(d) + Count(d) <= First(c)
    ensures First(c) + Count(c) <= REGISTERS
    ensures First(Context) <= SEMANTIC_0 && SEMANTIC_0 + 32 <= SEMANTIC_CLEAR < NUM_INSTANCES < First(Context) + Count(Context)
  {
  }

  datatype State = State(
    regs: seq<u32>,
    memory: seq<u32>,
    load: set<Class>,
    shadow: set<Class>,
    base: map<Class, nat>)

  /** The register file is complete and every shadow block lies in memory, at an address other than zero. */
  predicate Fits(s: State) {
    |s.regs| == REGISTERS && forall c :: c in s.base ==> 0 < s.base[c] && s.base[c] + Count(c) <= |s.memory|
  }

  // -------- registers

  function Bit(v: nat, i: nat): bool {
    if i == 0 then v % 2 == 1 else Bit(v / 2, i - 1)
  }

  /** The semantics whose bits are set are reset, from number `i` on. */
  function ClearSemantics(regs: seq<u32>, v: u32, i: nat): (r: seq<u32>)
    requires |regs| == REGISTERS && i <= 32
    ensures |r| == REGISTERS
    decreases 32 - i
  {
    if i == 32 then regs
    else ClearSemantics(if Bit(v, i) then regs[SEMANTIC_0 + i := TWO32 - 1] else regs, v, i + 1)
  }

  function SetRegister(regs: seq<u32>, r: nat, v: u32): (r': seq<u32>)
    requires |regs| == REGISTERS && r < REGISTERS
    ensures |r'| == REGISTERS
  {
    var one := regs[r := v];
    if r == SEMANTIC_CLEAR then ClearSemantics(one, v, 0) else one
  }

  function SetAll(regs: seq<u32>, r: nat, vs: seq<u32>): (r': seq<u32>)
    requires |regs| == REGISTERS && r + |vs| <= REGISTERS
    ensures |r'| == REGISTERS
    decreases |vs|
  {
    if vs == [] then regs else SetAll(SetRegister(regs, r, vs[0]), r + 1, vs[1..])
  }

  /** Words of memory overwritten from an address on. */
  function Stored(memory: seq<u32>, a: nat, vs: seq<u32>): (m: seq<u32>)
    requires a + |vs| <= |memory|
    ensures |m| == |memory|
  {
    memory[..a] + vs + memory[a + |vs|..]
  }

  // -------- packets

  datatype Packet =
    | Set(cls: Class, k: nat, values: seq<u32>)
    | Load(cls: Class, addr: nat, ranges: seq<(nat, nat)>)
    | ContextControl(load: set<Class>, shadow: set<Class>)
    | IndexType(value: u32)
    | NumInstances(value: u32)

  /** Registers set or loaded lie in their class, and a loaded block lies in memory. */
  predicate InRange(s: State, p: Packet) {
    match p
    case Set(c, k, vs) => k + |vs| <= Count(c)
    case Load(c, a, ranges) => 0 < a && a + Count(c) <= |s.memory| && forall r :: r in ranges ==> r.0 + r.1 <= Count(c)
    case _ => true
  }

  function Shadowed(s: State, c: Class): bool {
    c in s.shadow && c in s.base
  }

  function LoadRange(regs: seq<u32>, memory: seq<u32>, c: Class, a: nat, j: nat, n: nat): (r: seq<u32>)
    requires |regs| == REGISTERS && j + n <= Count(c) && First(c) + Count(c) <= REGISTERS && a + Count(c) <= |memory|
    ensures |r| == REGISTERS
    decreases n
  {
    if n == 0 then regs
    else LoadRange(SetRegister(regs, First(c) + j, memory[a + j]), memory, c, a, j + 1, n - 1)
  }

  function LoadRanges(regs: seq<u32>, memory: seq<u32>, c: Class, a: nat, ranges: seq<(nat, nat)>): (r: seq<u32>)
    requires |regs| == REGISTERS && First(c) + Count(c) <= REGISTERS && a + Count(c) <= |memory|
    requires forall r :: r in ranges ==> r.0 + r.1 <= Count(c)
    ensures |r| == REGISTERS
    decreases |ranges|
  {
    if ranges == [] then regs
    else
      assert ranges[0] in ranges;
      LoadRanges(LoadRange(regs, memory, c, a, ranges[0].0, ranges[0].1), memory, c, a, ranges[1..])
  }

  function Handle(s: State, p: Packet): (s': State)
    requires Fits(s) && InRange(s, p)
    ensures Fits(s')
  {
    match p
    case Set(c, k, vs) =>
      var memory := if Shadowed(s, c) then Stored(s.memory, s.base[c] + k, vs) else s.memory;
      ClassesApart(c, c);
      s.(memory := memory, regs := SetAll(s.regs, First(c) + k, vs))
    case Load(c, a, ranges) =>
      ClassesApart(c, c);
      if c in s.load then s.(base := s.base[c := a], regs := LoadRanges(s.regs, s.memory, c, a, ranges)) else s
    case ContextControl(load, shadow) => s.(load := load, shadow := shadow)
    case IndexType(v) => s.(regs := s.regs[INDEX_TYPE := v])
    case NumInstances(v) => s.(regs := s.regs[NUM_INSTANCES := v])
  }
}
