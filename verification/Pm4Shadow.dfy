/** Registers and their shadow words stay equal over every run of register packets. */
module Pm4Shadow {
  import opened Machine
  import opened Pm4Processor

  predicate ContextRegister(q: nat) {
    First(Context) <= q < First(Context) + Count(Context)
  }

  // -------- what register writes reach

  lemma {:induction false} SemanticsReach(regs: seq<u32>, v: u32, i: nat, q: nat)
    requires |regs| == REGISTERS && i <= 32 && q < REGISTERS && !ContextRegister(q)
    ensures ClearSemantics(regs, v, i)[q] == regs[q]
    decreases 32 - i
  {
    hide Bit;
    if i < 32 {
      SemanticsReach(if Bit(v, i) then regs[SEMANTIC_0 + i := TWO32 - 1] else regs, v, i + 1, q);
    }
  }

  /** Only the semantic clear register reaches further than itself, and then only context registers. */
  lemma RegisterReach(regs: seq<u32>, r: nat, v: u32, q: nat)
    requires |regs| == REGISTERS && r < REGISTERS && q < REGISTERS && (!ContextRegister(q) || r != SEMANTIC_CLEAR)
    ensures SetRegister(regs, r, v)[q] == if q == r then v else regs[q]
  {
    hide ClearSemantics, ContextRegister;
    if r == SEMANTIC_CLEAR {
      SemanticsReach(regs[r := v], v, 0, q);
    }
  }

  lemma {:induction false} SetAllReach(regs: seq<u32>, r: nat, vs: seq<u32>, q: nat)
    requires |regs| == REGISTERS && r + |vs| <= REGISTERS && q < REGISTERS
    requires !ContextRegister(q) || !(r <= SEMANTIC_CLEAR < r + |vs|)
    ensures SetAll(regs, r, vs)[q] == if r <= q < r + |vs| then vs[q - r] else regs[q]
    decreases |vs|
  {
    hide SetRegister, ContextRegister;
    if vs != [] {
      RegisterReach(regs, r, vs[0], q);
      SetAllReach(SetRegister(regs, r, vs[0]), r + 1, vs[1..], q);
    }
  }

  lemma {:induction false} LoadRangeReach(regs: seq<u32>, memory: seq<u32>, c: Class, a: nat, j: nat, n: nat, q: nat)
    requires |regs| == REGISTERS && j + n <= Count(c) && First(c) + Count(c) <= REGISTERS && a + Count(c) <= |memory|
    requires q < REGISTERS && (!ContextRegister(q) || !(First(c) <= SEMANTIC_CLEAR < First(c) + Count(c)))
    ensures LoadRange(regs, memory, c, a, j, n)[q]
         == if First(c) + j <= q < First(c) + j + n then memory[a + (q - First(c))] else regs[q]
    decreases n
  {
    hide SetRegister, ContextRegister, First, Count;
    if n > 0 {
      RegisterReach(regs, First(c) + j, memory[a + j], q);
      LoadRangeReach(SetRegister(regs, First(c) + j, memory[a + j]), memory, c, a, j + 1, n - 1, q);
    }
  }

  predicate Listed(ranges: seq<(nat, nat)>, k: int) {
    exists i :: 0 <= i < |ranges| && ranges[i].0 <= k < ranges[i].0 + ranges[i].1
  }

  lemma {:induction false} LoadRangesReach(
      regs: seq<u32>, memory: seq<u32>, c: Class, a: nat, ranges: seq<(nat, nat)>, q: nat)
    requires |regs| == REGISTERS && First(c) + Count(c) <= REGISTERS && a + Count(c) <= |memory|
    requires forall r :: r in ranges ==> r.0 + r.1 <= Count(c)
    requires q < REGISTERS && (!ContextRegister(q) || !(First(c) <= SEMANTIC_CLEAR < First(c) + Count(c)))
    ensures Listed(ranges, q - First(c)) ==> 0 <= q - First(c) < Count(c)
    ensures LoadRanges(regs, memory, c, a, ranges)[q]
         == if Listed(ranges, q - First(c)) then memory[a + (q - First(c))] else regs[q]
    decreases |ranges|
  {
    hide LoadRange, ContextRegister, First, Count;
    ListedInClass(ranges, c, q - First(c));
    if ranges != [] {
      var r, rest := ranges[0], ranges[1..];
      assert r in ranges;
      LoadRangeReach(regs, memory, c, a, r.0, r.1, q);
      LoadRangesReach(LoadRange(regs, memory, c, a, r.0, r.1), memory, c, a, rest, q);
      ListedFirst(ranges, q - First(c));
    }
  }

  lemma ListedInClass(ranges: seq<(nat, nat)>, c: Class, k: int)
    requires forall r :: r in ranges ==> r.0 + r.1 <= Count(c)
    ensures Listed(ranges, k) ==> 0 <= k < Count(c)
  {
    hide Count;
    if Listed(ranges, k) {
      var i :| 0 <= i < |ranges| && ranges[i].0 <= k < ranges[i].0 + ranges[i].1;
      assert ranges[i] in ranges;
    }
  }

  lemma ListedFirst(ranges: seq<(nat, nat)>, k: int)
    requires ranges != []
    ensures Listed(ranges, k) <==> ranges[0].0 <= k < ranges[0].0 + ranges[0].1 || Listed(ranges[1..], k)
  {
    if Listed(ranges, k) {
      var i :| 0 <= i < |ranges| && ranges[i].0 <= k < ranges[i].0 + ranges[i].1;
      assert i > 0 ==> ranges[1..][i - 1] == ranges[i];
    }
    if Listed(ranges[1..], k) {
      var i :| 0 <= i < |ranges| - 1 && ranges[1..][i].0 <= k < ranges[1..][i].0 + ranges[1..][i].1;
      assert ranges[i + 1] == ranges[1..][i];
    }
  }

  // -------- shadow consistency

  /** A register of a class equals its shadow word. */
  predicate Matches(s: State, c: Class, k: nat) {
    && First(c) + k < |s.regs| && c in s.base && s.base[c] + k < |s.memory|
    && s.regs[First(c) + k] == s.memory[s.base[c] + k]
  }

  predicate Same(s: State, c: Class) {
    Fits(s) && c in s.base && c in s.shadow && forall k :: 0 <= k < Count(c) ==> Matches(s, c, k)
  }

  predicate Disjoint(a: nat, n: nat, b: nat, m: nat) {
    a + n <= b || b + m <= a
  }

  /** Shadow blocks of different classes do not overlap. */
  predicate BlocksApart(s: State) {
    forall c, d :: c in s.base && d in s.base && c != d ==> Disjoint(s.base[c], Count(c), s.base[d], Count(d))
  }

  /** A packet within its class that places no shadow block over another and leaves this class shadowed. */
  predicate Allowed(s: State, p: Packet, c: Class) {
    && InRange(s, p)
    && (p.Load? ==> forall d :: d in s.base && d != p.cls ==> Disjoint(p.addr, Count(p.cls), s.base[d], Count(d)))
    && (p.Load? && p.cls == c && c in s.load ==> Whole(p.ranges, c) || (c in s.base && p.addr == s.base[c]))
    && (p.ContextControl? ==> c in p.shadow)
  }

  predicate Whole(ranges: seq<(nat, nat)>, c: Class) {
    forall k :: 0 <= k < Count(c) ==> Listed(ranges, k)
  }

  lemma NotContext(c: Class, k: nat)
    requires c != Context && k < Count(c)
    ensures First(c) + k < REGISTERS && !ContextRegister(First(c) + k)
  {
    ClassesApart(c, Context);
  }

  lemma StoredAt(memory: seq<u32>, a: nat, vs: seq<u32>, i: nat)
    requires a + |vs| <= |memory| && i < |memory|
    ensures Stored(memory, a, vs)[i] == if a <= i < a + |vs| then vs[i - a] else memory[i]
  {
  }

  /** Setting registers of any class keeps one register of another class, or of its own, equal to its shadow. */
  lemma SetKeepsMatch(s: State, d: Class, j: nat, vs: seq<u32>, c: Class, k: nat, memory: seq<u32>)
    requires c != Context && |s.regs| == REGISTERS && k < Count(c) && Matches(s, c, k) && j + |vs| <= Count(d)
    requires First(d) + Count(d) <= REGISTERS
    requires c != d ==> Disjoint(First(c), Count(c), First(d), Count(d))
    requires if Shadowed(s, d) then s.base[d] + Count(d) <= |s.memory| && memory == Stored(s.memory, s.base[d] + j, vs)
             else c != d && memory == s.memory
    requires Shadowed(s, d) && c != d ==> Disjoint(s.base[c], Count(c), s.base[d], Count(d))
    ensures Matches(s.(memory := memory, regs := SetAll(s.regs, First(d) + j, vs)), c, k)
  {
    hide First, Count, SetAll, Stored, ContextRegister;
    NotContext(c, k);
    SetAllReach(s.regs, First(d) + j, vs, First(c) + k);
    if Shadowed(s, d) {
      StoredAt(s.memory, s.base[d] + j, vs, s.base[c] + k);
    }
  }

  lemma SetKeepsSame(s: State, d: Class, j: nat, vs: seq<u32>, c: Class)
    requires c != Context && Same(s, c) && BlocksApart(s) && j + |vs| <= Count(d)
    ensures Same(Handle(s, Set(d, j, vs)), c)
  {
    hide First, Count, SetAll, Stored, ContextRegister, Matches;
    ClassesApart(d, c);
    var memory := if Shadowed(s, d) then Stored(s.memory, s.base[d] + j, vs) else s.memory;
    var s' := s.(memory := memory, regs := SetAll(s.regs, First(d) + j, vs));
    assert Handle(s, Set(d, j, vs)) == s';
    forall k | 0 <= k < Count(c) ensures Matches(s', c, k) {
      SetKeepsMatch(s, d, j, vs, c, k, memory);
    }
  }

  lemma LoadKeepsMatch(s: State, d: Class, a: nat, ranges: seq<(nat, nat)>, c: Class, k: nat)
    requires c != Context && |s.regs| == REGISTERS && k < Count(c) && a + Count(d) <= |s.memory|
    requires First(d) + Count(d) <= REGISTERS && forall r :: r in ranges ==> r.0 + r.1 <= Count(d)
    requires c != d ==> Disjoint(First(c), Count(c), First(d), Count(d)) && Matches(s, c, k)
    requires c == d ==> Listed(ranges, k) || (Matches(s, c, k) && a == s.base[c])
    ensures Matches(s.(base := s.base[d := a], regs := LoadRanges(s.regs, s.memory, d, a, ranges)), c, k)
  {
    hide First, Count, LoadRanges, ContextRegister, Listed;
    NotContext(c, k);
    LoadRangesReach(s.regs, s.memory, d, a, ranges, First(c) + k);
    assert First(c) + k - First(c) == k;
  }

  lemma LoadKeepsSame(s: State, d: Class, a: nat, ranges: seq<(nat, nat)>, c: Class)
    requires c != Context && Fits(s) && InRange(s, Load(d, a, ranges)) && c in s.shadow
    requires if c == d && c in s.load then Whole(ranges, c) || (Same(s, c) && a == s.base[c]) else Same(s, c)
    ensures Same(Handle(s, Load(d, a, ranges)), c)
  {
    hide First, Count, LoadRanges, ContextRegister, Listed, Matches;
    ClassesApart(d, c);
    if d in s.load {
      var s' := s.(base := s.base[d := a], regs := LoadRanges(s.regs, s.memory, d, a, ranges));
      assert Handle(s, Load(d, a, ranges)) == s';
      forall k | 0 <= k < Count(c) ensures Matches(s', c, k) {
        LoadKeepsMatch(s, d, a, ranges, c, k);
      }
    }
  }

  /** Any allowed packet keeps every register of the class equal to its shadow word. */
  lemma PacketKeepsSame(s: State, p: Packet, c: Class)
    requires c != Context && Same(s, c) && BlocksApart(s) && Allowed(s, p, c)
    ensures Same(Handle(s, p), c) && BlocksApart(Handle(s, p))
  {
    hide First, Count, LoadRanges, SetAll, Stored, Listed, Whole;
    match p
    case Set(d, j, vs) => SetKeepsSame(s, d, j, vs, c);
    case Load(d, a, ranges) => LoadKeepsSame(s, d, a, ranges, c);
    case ContextControl(l, h) => ControlKeepsSame(s, l, h, c);
    case _ => DirectKeepsSame(s, p, c);
  }

  lemma ControlKeepsSame(s: State, load: set<Class>, shadow: set<Class>, c: Class)
    requires Same(s, c) && c in shadow
    ensures Same(s.(load := load, shadow := shadow), c)
  {
    hide First, Count;
    var s' := s.(load := load, shadow := shadow);
    forall k | 0 <= k < Count(c) ensures Matches(s', c, k) {
      assert Matches(s, c, k);
    }
  }

  lemma DirectKeepsSame(s: State, p: Packet, c: Class)
    requires c != Context && Same(s, c) && (p.IndexType? || p.NumInstances?)
    ensures Same(Handle(s, p), c)
  {
    hide First, Count;
    var s' := Handle(s, p);
    forall k | 0 <= k < Count(c) ensures Matches(s', c, k) {
      NotContext(c, k);
      DirectIsContext();
      assert Matches(s, c, k);
    }
  }

  lemma DirectIsContext()
    ensures ContextRegister(INDEX_TYPE) && ContextRegister(NUM_INSTANCES)
  {
  }

  function HandleAll(s: State, ps: seq<Packet>, c: Class): State
    requires Fits(s) && AllAllowed(s, ps, c)
    decreases |ps|
  {
    if ps == [] then s else HandleAll(Handle(s, ps[0]), ps[1..], c)
  }

  predicate AllAllowed(s: State, ps: seq<Packet>, c: Class)
    requires Fits(s)
    decreases |ps|
  {
    ps == [] || (Allowed(s, ps[0], c) && AllAllowed(Handle(s, ps[0]), ps[1..], c))
  }

  /**
   * After a load of the whole class with loading and shadowing enabled, every run of allowed packets
   * keeps each register equal to its shadow word.
   */
  lemma {:induction false} RunsStaySame(s: State, ps: seq<Packet>, c: Class)
    requires c != Context && Same(s, c) && BlocksApart(s) && AllAllowed(s, ps, c)
    ensures Same(HandleAll(s, ps, c), c)
    decreases |ps|
  {
    hide BlocksApart, Handle, Whole, Matches, Disjoint;
    if ps != [] {
      PacketKeepsSame(s, ps[0], c);
      RunsStaySame(Handle(s, ps[0]), ps[1..], c);
    }
  }

  lemma LoadEstablishes(s: State, a: nat, ranges: seq<(nat, nat)>, c: Class)
    requires c != Context && Fits(s) && InRange(s, Load(c, a, ranges)) && c in s.load && c in s.shadow && Whole(ranges, c)
    ensures Same(Handle(s, Load(c, a, ranges)), c)
  {
    hide First, Count, LoadRanges, Whole;
    LoadKeepsSame(s, c, a, ranges, c);
  }

  lemma OtherClass(c: Class)
    requires c != Context
    ensures !(First(c) <= SEMANTIC_CLEAR < First(c) + Count(c))
  {
  }

  /** Loading again from the shadow changes no register, of this class or any other. */
  lemma ReloadChangesNothing(s: State, ranges: seq<(nat, nat)>, c: Class)
    requires c != Context && Same(s, c) && (forall r :: r in ranges ==> r.0 + r.1 <= Count(c))
    ensures InRange(s, Load(c, s.base[c], ranges)) && Handle(s, Load(c, s.base[c], ranges)).regs == s.regs
  {
    hide First, Count, LoadRanges, ContextRegister, Listed;
    ClassesApart(c, c);
    OtherClass(c);
    if c in s.load {
      var regs := LoadRanges(s.regs, s.memory, c, s.base[c], ranges);
      forall q | 0 <= q < REGISTERS ensures regs[q] == s.regs[q] {
        LoadRangesReach(s.regs, s.memory, c, s.base[c], ranges, q);
        if 0 <= q - First(c) < Count(c) {
          assert Matches(s, c, q - First(c));
        }
      }
      assert regs == s.regs;
    }
  }

  lemma LoadKeepsApart(s: State, a: nat, ranges: seq<(nat, nat)>, c: Class)
    requires Fits(s) && BlocksApart(s) && Allowed(s, Load(c, a, ranges), c)
    ensures BlocksApart(Handle(s, Load(c, a, ranges)))
  {
    hide First, Count, LoadRanges, Whole;
  }

  /**
   * A load of a whole class with loading and shadowing enabled, any run of allowed packets after it, and
   * another load from wherever the class is shadowed by then: the second load changes no register.
   */
  lemma LoadRunReload(s: State, a: nat, ranges: seq<(nat, nat)>, ps: seq<Packet>, again: seq<(nat, nat)>, c: Class)
    requires c != Context && Fits(s) && BlocksApart(s) && c in s.load && c in s.shadow
    requires Allowed(s, Load(c, a, ranges), c) && Whole(ranges, c) && (forall r :: r in again ==> r.0 + r.1 <= Count(c))
    requires AllAllowed(Handle(s, Load(c, a, ranges)), ps, c)
    ensures var end := HandleAll(Handle(s, Load(c, a, ranges)), ps, c);
            && Same(end, c) && InRange(end, Load(c, end.base[c], again))
            && Handle(end, Load(c, end.base[c], again)).regs == end.regs
  {
    hide BlocksApart, Handle, Whole, Disjoint, Matches;
    LoadEstablishes(s, a, ranges, c);
    LoadKeepsApart(s, a, ranges, c);
    RunsStaySame(Handle(s, Load(c, a, ranges)), ps, c);
    ReloadChangesNothing(HandleAll(Handle(s, Load(c, a, ranges)), ps, c), again, c);
  }
}
