/** Every interleaving of sets and finds behaves like one atomic map. */
module RegionMapSafety {
  import opened Machine
  import opened RegionMap
  import opened Wrappers

  // -------- every step keeps the invariant and every published pointer

  lemma HoldingGrows(s: State, s': State, pc: Pc)
    requires Grows(s, s') && Holding(s, pc)
    ensures Holding(s', pc)
  {
    hide Index1, Index2;
  }

  /** The other threads of a state whose published entries only grew. */
  lemma ThreadsKeep(s: State, o: Owners, s': State, o': Owners, t: nat, pc: Pc)
    requires ThreadsOk(s, o) && Grows(s, s') && s'.threads == s.threads[t := pc] && ThreadOk(s', o', t, pc)
    requires forall x, u :: x in o.dir && o.dir[x] == Thread(u) && u != t ==> x in o'.dir && o'.dir[x] == Thread(u)
    requires forall x, u :: x in o.leaf && o.leaf[x] == Thread(u) && u != t ==> x in o'.leaf && o'.leaf[x] == Thread(u)
    ensures ThreadsOk(s', o')
  {
    hide Index1, Index2, MyDir, MyLeaf, Holding, Grows;
    forall u | u in s'.threads ensures ThreadOk(s', o', u, s'.threads[u]) {
      if u != t {
        HoldingGrows(s, s', s.threads[u]);
      }
    }
  }

  /** A step that only moves the thread on. */
  lemma MoveKeeps(s: State, o: Owners, t: nat, pc: Pc, s': State)
    requires Valid(s, o) && Holding(s, pc) && MyDir(pc) == MyDir(At(s, t)) && MyLeaf(pc) == MyLeaf(At(s, t))
    requires s' == Moved(s, t, pc)
    ensures Valid(s', o) && Grows(s, s')
  {
    hide Index1, Index2, Holding, TablesOk, ThreadsOk, TablesUsed;
    ThisThread(s, o, t);
    MoveTables(s, o, t, pc, s');
    MoveUsed(s, o, t, pc, s');
    MoveThread(s, o, t, pc, s');
    ThreadsKeep(s, o, s', o, t, pc);
  }

  lemma MoveTables(s: State, o: Owners, t: nat, pc: Pc, s': State)
    requires TablesOk(s, o)
    requires Holding(s, pc) && MyDir(pc) == MyDir(At(s, t)) && MyLeaf(pc) == MyLeaf(At(s, t))
    requires ThreadOk(s, o, t, At(s, t))
    requires s' == Moved(s, t, pc)
    ensures TablesOk(s', o) && Grows(s, s')
  {
    hide Index1, Index2;
  }

  lemma MoveUsed(s: State, o: Owners, t: nat, pc: Pc, s': State)
    requires TablesOk(s, o) && TablesUsed(s, o) && Holding(s, pc) && MyDir(pc) == MyDir(At(s, t)) && MyLeaf(pc) == MyLeaf(At(s, t))
    requires s' == Moved(s, t, pc)
    ensures TablesUsed(s', o)
  {
    hide Index1, Index2, Holding;
  }

  lemma MoveThread(s: State, o: Owners, t: nat, pc: Pc, s': State)
    requires Holding(s, pc) && MyDir(pc) == MyDir(At(s, t)) && MyLeaf(pc) == MyLeaf(At(s, t))
    requires ThreadOk(s, o, t, At(s, t))
    requires s' == Moved(s, t, pc)
    ensures ThreadOk(s', o, t, pc)
  {
    hide Index1, Index2;
  }

  /** Allocating a directory. */
  lemma New1Keeps(s: State, o: Owners, t: nat, addr: nat, l: u32, v: nat, s': State)
    requires Valid(s, o) && addr !in s.dirs && At(s, t) == SetNew1(l, v)
    requires s' == Moved(s.(dirs := s.dirs + {addr}, links := Zeroed(s.links, addr)), t, SetSwap1(l, v, addr))
    ensures Valid(s', o.(dir := o.dir[addr := Thread(t)])) && Grows(s, s')
  {
    hide Index1, Index2, Holding, TablesOk, ThreadsOk, TablesUsed;
    ThisThread(s, o, t);
    New1Tables(s, o, t, addr, l, v, s');
    New1Used(s, o, t, addr, l, v, s');
    New1Thread(s, o, t, addr, l, v, s');
    ThreadsKeep(s, o, s', o.(dir := o.dir[addr := Thread(t)]), t, SetSwap1(l, v, addr));
  }

  lemma New1Tables(s: State, o: Owners, t: nat, addr: nat, l: u32, v: nat, s': State)
    requires TablesOk(s, o)
    requires addr !in s.dirs && At(s, t) == SetNew1(l, v)
    requires ThreadOk(s, o, t, At(s, t))
    requires s' == Moved(s.(dirs := s.dirs + {addr}, links := Zeroed(s.links, addr)), t, SetSwap1(l, v, addr))
    ensures TablesOk(s', o.(dir := o.dir[addr := Thread(t)])) && Grows(s, s')
    ensures addr !in o.dir
  {
    hide Index1, Index2;
    assert s'.links == s.links;
  }

  lemma New1Used(s: State, o: Owners, t: nat, addr: nat, l: u32, v: nat, s': State)
    requires TablesOk(s, o) && TablesUsed(s, o) && addr !in s.dirs && At(s, t) == SetNew1(l, v)
    requires s' == Moved(s.(dirs := s.dirs + {addr}, links := Zeroed(s.links, addr)), t, SetSwap1(l, v, addr))
    ensures TablesUsed(s', o.(dir := o.dir[addr := Thread(t)]))
  {
    hide Index1, Index2, Holding;
  }

  lemma New1Thread(s: State, o: Owners, t: nat, addr: nat, l: u32, v: nat, s': State)
    requires addr !in s.dirs && At(s, t) == SetNew1(l, v)
    requires ThreadOk(s, o, t, At(s, t))
    requires s' == Moved(s.(dirs := s.dirs + {addr}, links := Zeroed(s.links, addr)), t, SetSwap1(l, v, addr))
    ensures ThreadOk(s', o.(dir := o.dir[addr := Thread(t)]), t, SetSwap1(l, v, addr))
  {
    hide Index1, Index2;
  }

  /** Publishing a directory. */
  lemma Swap1Keeps(s: State, o: Owners, t: nat, i: nat, l: u32, v: nat, x: nat, s': State)
    requires Valid(s, o) && At(s, t) == SetSwap1(l, v, x) && i !in s.root && i == Index1(l)
    requires s' == Moved(s.(root := s.root[i := x]), t, SetLoad2(l, v, x))
    ensures Valid(s', o.(dir := o.dir[x := Slot(i)])) && Grows(s, s')
  {
    hide Index1, Index2, Holding, TablesOk, ThreadsOk, TablesUsed;
    ThisThread(s, o, t);
    Swap1Tables(s, o, t, i, l, v, x, s');
    Swap1Used(s, o, t, i, l, v, x, s');
    Swap1Thread(s, o, t, i, l, v, x, s');
    ThreadsKeep(s, o, s', o.(dir := o.dir[x := Slot(i)]), t, SetLoad2(l, v, x));
  }

  lemma Swap1Tables(s: State, o: Owners, t: nat, i: nat, l: u32, v: nat, x: nat, s': State)
    requires TablesOk(s, o)
    requires At(s, t) == SetSwap1(l, v, x) && i !in s.root && i == Index1(l)
    requires ThreadOk(s, o, t, At(s, t))
    requires s' == Moved(s.(root := s.root[i := x]), t, SetLoad2(l, v, x))
    ensures TablesOk(s', o.(dir := o.dir[x := Slot(i)])) && Grows(s, s')
  {
    hide Index1, Index2;
  }

  lemma Swap1Used(s: State, o: Owners, t: nat, i: nat, l: u32, v: nat, x: nat, s': State)
    requires TablesOk(s, o) && TablesUsed(s, o) && At(s, t) == SetSwap1(l, v, x) && i !in s.root && i == Index1(l)
    requires s' == Moved(s.(root := s.root[i := x]), t, SetLoad2(l, v, x))
    ensures TablesUsed(s', o.(dir := o.dir[x := Slot(i)]))
  {
    hide Index1, Index2, Holding;
  }

  lemma Swap1Thread(s: State, o: Owners, t: nat, i: nat, l: u32, v: nat, x: nat, s': State)
    requires At(s, t) == SetSwap1(l, v, x) && i !in s.root && i == Index1(l)
    requires ThreadOk(s, o, t, At(s, t))
    requires s' == Moved(s.(root := s.root[i := x]), t, SetLoad2(l, v, x))
    ensures ThreadOk(s', o.(dir := o.dir[x := Slot(i)]), t, SetLoad2(l, v, x))
  {
    hide Index1, Index2;
  }

  /** Deleting a directory that lost the race. */
  lemma Drop1Keeps(s: State, o: Owners, t: nat, l: u32, v: nat, x: nat, d: nat, s': State)
    requires Valid(s, o) && At(s, t) == SetDrop1(l, v, x, d)
    requires s' == Moved(s.(dirs := s.dirs - {x}), t, SetLoad2(l, v, d))
    ensures Valid(s', o.(dir := o.dir - {x})) && Grows(s, s')
    ensures x in s.dirs
  {
    hide Index1, Index2, Holding, TablesOk, ThreadsOk, TablesUsed;
    ThisThread(s, o, t);
    Drop1Tables(s, o, t, l, v, x, d, s');
    Drop1Used(s, o, t, l, v, x, d, s');
    Drop1Thread(s, o, t, l, v, x, d, s');
    ThreadsKeep(s, o, s', o.(dir := o.dir - {x}), t, SetLoad2(l, v, d));
  }

  lemma Drop1Tables(s: State, o: Owners, t: nat, l: u32, v: nat, x: nat, d: nat, s': State)
    requires TablesOk(s, o)
    requires At(s, t) == SetDrop1(l, v, x, d)
    requires ThreadOk(s, o, t, At(s, t))
    requires s' == Moved(s.(dirs := s.dirs - {x}), t, SetLoad2(l, v, d))
    ensures TablesOk(s', o.(dir := o.dir - {x})) && Grows(s, s')
    ensures x in s.dirs
  {
    hide Index1, Index2;
  }

  lemma Drop1Used(s: State, o: Owners, t: nat, l: u32, v: nat, x: nat, d: nat, s': State)
    requires TablesOk(s, o) && TablesUsed(s, o) && At(s, t) == SetDrop1(l, v, x, d)
    requires s' == Moved(s.(dirs := s.dirs - {x}), t, SetLoad2(l, v, d))
    ensures TablesUsed(s', o.(dir := o.dir - {x}))
  {
    hide Index1, Index2, Holding;
  }

  lemma Drop1Thread(s: State, o: Owners, t: nat, l: u32, v: nat, x: nat, d: nat, s': State)
    requires At(s, t) == SetDrop1(l, v, x, d)
    requires ThreadOk(s, o, t, At(s, t))
    requires s' == Moved(s.(dirs := s.dirs - {x}), t, SetLoad2(l, v, d))
    ensures ThreadOk(s', o.(dir := o.dir - {x}), t, SetLoad2(l, v, d))
  {
    hide Index1, Index2;
  }

  /** Allocating a leaf. */
  lemma New2Keeps(s: State, o: Owners, t: nat, addr: nat, l: u32, v: nat, d: nat, s': State)
    requires Valid(s, o) && addr !in s.leaves && At(s, t) == SetNew2(l, v, d)
    requires s' == Moved(s.(leaves := s.leaves + {addr}, cells := Zeroed(s.cells, addr)), t, SetSwap2(l, v, d, addr))
    ensures Valid(s', o.(leaf := o.leaf[addr := Thread(t)])) && Grows(s, s')
  {
    hide Index1, Index2, Holding, TablesOk, ThreadsOk, TablesUsed;
    ThisThread(s, o, t);
    New2Tables(s, o, t, addr, l, v, d, s');
    New2Used(s, o, t, addr, l, v, d, s');
    New2Thread(s, o, t, addr, l, v, d, s');
    ThreadsKeep(s, o, s', o.(leaf := o.leaf[addr := Thread(t)]), t, SetSwap2(l, v, d, addr));
  }

  lemma New2Tables(s: State, o: Owners, t: nat, addr: nat, l: u32, v: nat, d: nat, s': State)
    requires TablesOk(s, o)
    requires addr !in s.leaves && At(s, t) == SetNew2(l, v, d)
    requires ThreadOk(s, o, t, At(s, t))
    requires s' == Moved(s.(leaves := s.leaves + {addr}, cells := Zeroed(s.cells, addr)), t, SetSwap2(l, v, d, addr))
    ensures TablesOk(s', o.(leaf := o.leaf[addr := Thread(t)])) && Grows(s, s')
    ensures addr !in o.leaf
  {
    hide Index1, Index2;
    assert s'.cells == s.cells;
  }

  lemma New2Used(s: State, o: Owners, t: nat, addr: nat, l: u32, v: nat, d: nat, s': State)
    requires TablesOk(s, o) && TablesUsed(s, o) && addr !in s.leaves && At(s, t) == SetNew2(l, v, d)
    requires s' == Moved(s.(leaves := s.leaves + {addr}, cells := Zeroed(s.cells, addr)), t, SetSwap2(l, v, d, addr))
    ensures TablesUsed(s', o.(leaf := o.leaf[addr := Thread(t)]))
  {
    hide Index1, Index2, Holding;
  }

  lemma New2Thread(s: State, o: Owners, t: nat, addr: nat, l: u32, v: nat, d: nat, s': State)
    requires addr !in s.leaves && At(s, t) == SetNew2(l, v, d)
    requires ThreadOk(s, o, t, At(s, t))
    requires s' == Moved(s.(leaves := s.leaves + {addr}, cells := Zeroed(s.cells, addr)), t, SetSwap2(l, v, d, addr))
    ensures ThreadOk(s', o.(leaf := o.leaf[addr := Thread(t)]), t, SetSwap2(l, v, d, addr))
  {
    hide Index1, Index2;
  }

  /** Publishing a leaf. */
  lemma Swap2Keeps(s: State, o: Owners, t: nat, e: (nat, nat), l: u32, v: nat, x: nat, s': State)
    requires Valid(s, o) && At(s, t) == SetSwap2(l, v, e.0, x) && e !in s.links && e.1 == Index2(l)
    requires s' == Moved(s.(links := s.links[e := x]), t, SetStore(l, v, x))
    ensures Valid(s', o.(leaf := o.leaf[x := Link(e)])) && Grows(s, s')
  {
    hide Index1, Index2, Holding, TablesOk, ThreadsOk, TablesUsed;
    ThisThread(s, o, t);
    Swap2Tables(s, o, t, e, l, v, x, s');
    Swap2Used(s, o, t, e, l, v, x, s');
    Swap2Thread(s, o, t, e, l, v, x, s');
    ThreadsKeep(s, o, s', o.(leaf := o.leaf[x := Link(e)]), t, SetStore(l, v, x));
  }

  lemma Swap2Tables(s: State, o: Owners, t: nat, e: (nat, nat), l: u32, v: nat, x: nat, s': State)
    requires TablesOk(s, o)
    requires At(s, t) == SetSwap2(l, v, e.0, x) && e !in s.links && e.1 == Index2(l)
    requires ThreadOk(s, o, t, At(s, t))
    requires s' == Moved(s.(links := s.links[e := x]), t, SetStore(l, v, x))
    ensures TablesOk(s', o.(leaf := o.leaf[x := Link(e)])) && Grows(s, s')
  {
    hide Index1, Index2, Holding;
    assert MyLeaf(At(s, t)) == Some(x) && o.leaf[x] == Thread(t);
    SwapDir(s, o, l, v, e.0, x);
  }

  lemma Swap2Used(s: State, o: Owners, t: nat, e: (nat, nat), l: u32, v: nat, x: nat, s': State)
    requires TablesOk(s, o) && TablesUsed(s, o) && At(s, t) == SetSwap2(l, v, e.0, x) && e !in s.links && e.1 == Index2(l)
    requires s' == Moved(s.(links := s.links[e := x]), t, SetStore(l, v, x))
    ensures TablesUsed(s', o.(leaf := o.leaf[x := Link(e)]))
  {
    hide Index1, Index2, Holding;
  }

  lemma Swap2Thread(s: State, o: Owners, t: nat, e: (nat, nat), l: u32, v: nat, x: nat, s': State)
    requires At(s, t) == SetSwap2(l, v, e.0, x) && e !in s.links && e.1 == Index2(l)
    requires ThreadOk(s, o, t, At(s, t))
    requires s' == Moved(s.(links := s.links[e := x]), t, SetStore(l, v, x))
    ensures ThreadOk(s', o.(leaf := o.leaf[x := Link(e)]), t, SetStore(l, v, x))
  {
    hide Index1, Index2;
  }

  /** Deleting a leaf that lost the race. */
  lemma Drop2Keeps(s: State, o: Owners, t: nat, l: u32, v: nat, x: nat, f: nat, s': State)
    requires Valid(s, o) && At(s, t) == SetDrop2(l, v, x, f)
    requires s' == Moved(s.(leaves := s.leaves - {x}), t, SetStore(l, v, f))
    ensures Valid(s', o.(leaf := o.leaf - {x})) && Grows(s, s')
    ensures x in s.leaves
  {
    hide Index1, Index2, Holding, TablesOk, ThreadsOk, TablesUsed;
    ThisThread(s, o, t);
    Drop2Tables(s, o, t, l, v, x, f, s');
    Drop2Used(s, o, t, l, v, x, f, s');
    Drop2Thread(s, o, t, l, v, x, f, s');
    ThreadsKeep(s, o, s', o.(leaf := o.leaf - {x}), t, SetStore(l, v, f));
  }

  lemma Drop2Tables(s: State, o: Owners, t: nat, l: u32, v: nat, x: nat, f: nat, s': State)
    requires TablesOk(s, o)
    requires At(s, t) == SetDrop2(l, v, x, f)
    requires ThreadOk(s, o, t, At(s, t))
    requires s' == Moved(s.(leaves := s.leaves - {x}), t, SetStore(l, v, f))
    ensures TablesOk(s', o.(leaf := o.leaf - {x})) && Grows(s, s')
    ensures x in s.leaves
  {
    hide Index1, Index2;
  }

  lemma Drop2Used(s: State, o: Owners, t: nat, l: u32, v: nat, x: nat, f: nat, s': State)
    requires TablesOk(s, o) && TablesUsed(s, o) && At(s, t) == SetDrop2(l, v, x, f)
    requires s' == Moved(s.(leaves := s.leaves - {x}), t, SetStore(l, v, f))
    ensures TablesUsed(s', o.(leaf := o.leaf - {x}))
  {
    hide Index1, Index2, Holding;
  }

  lemma Drop2Thread(s: State, o: Owners, t: nat, l: u32, v: nat, x: nat, f: nat, s': State)
    requires At(s, t) == SetDrop2(l, v, x, f)
    requires ThreadOk(s, o, t, At(s, t))
    requires s' == Moved(s.(leaves := s.leaves - {x}), t, SetStore(l, v, f))
    ensures ThreadOk(s', o.(leaf := o.leaf - {x}), t, SetStore(l, v, f))
  {
    hide Index1, Index2;
  }

  /** The store into a leaf. */
  lemma StoreKeeps(s: State, o: Owners, t: nat, k: nat, l: u32, v: nat, f: nat, s': State)
    requires Valid(s, o) && At(s, t) == SetStore(l, v, f)
    requires s' == Moved(s.(cells := s.cells[(f, k) := v]), t, Idle)
    ensures Valid(s', o) && Grows(s, s')
    ensures f in s.leaves && LeafAt(s, l, f)
  {
    hide Index1, Index2, Holding, TablesOk, ThreadsOk, TablesUsed;
    ThisThread(s, o, t);
    StoreTables(s, o, t, k, l, v, f, s');
    StoreUsed(s, o, t, k, l, v, f, s');
    StoreThread(s, o, t, k, l, v, f, s');
    ThreadsKeep(s, o, s', o, t, Idle);
  }

  lemma StoreTables(s: State, o: Owners, t: nat, k: nat, l: u32, v: nat, f: nat, s': State)
    requires TablesOk(s, o)
    requires At(s, t) == SetStore(l, v, f)
    requires ThreadOk(s, o, t, At(s, t))
    requires s' == Moved(s.(cells := s.cells[(f, k) := v]), t, Idle)
    ensures TablesOk(s', o) && Grows(s, s')
    ensures f in s.leaves && LeafAt(s, l, f)
  {
    hide Index1, Index2;
  }

  lemma StoreUsed(s: State, o: Owners, t: nat, k: nat, l: u32, v: nat, f: nat, s': State)
    requires TablesOk(s, o) && TablesUsed(s, o) && At(s, t) == SetStore(l, v, f)
    requires s' == Moved(s.(cells := s.cells[(f, k) := v]), t, Idle)
    ensures TablesUsed(s', o)
  {
    hide Index1, Index2, Holding;
  }

  lemma StoreThread(s: State, o: Owners, t: nat, k: nat, l: u32, v: nat, f: nat, s': State)
    requires At(s, t) == SetStore(l, v, f)
    requires ThreadOk(s, o, t, At(s, t))
    requires s' == Moved(s.(cells := s.cells[(f, k) := v]), t, Idle)
    ensures ThreadOk(s', o, t, Idle)
  {
    hide Index1, Index2;
  }

  lemma ThisThread(s: State, o: Owners, t: nat)
    requires ThreadsOk(s, o)
    ensures ThreadOk(s, o, t, At(s, t))
  {
  }

  /** Any enabled action keeps the invariant, and never changes an entry once it is published. */
  lemma NextKeeps(s: State, o: Owners, a: Action) returns (o': Owners)
    requires Valid(s, o) && Enabled(s, a)
    ensures Valid(Next(s, a).0, o') && Grows(s, Next(s, a).0)
  {
    hide Index1, Index2, Index3, TablesOk, ThreadsOk, TablesUsed, Grows, Moved, Zeroed, At;
    var t, s' := a.thread, Next(s, a).0;
    ThisThread(s, o, t);
    o' := o;
    if a.Call? {
      MoveKeeps(s, o, t, Called(a.op), s');
    } else {
      match At(s, t)
      case SetLoad1(l, v) =>
        MoveKeeps(s, o, t, if Index1(l) in s.root then SetLoad2(l, v, s.root[Index1(l)]) else SetNew1(l, v), s');
      case SetNew1(l, v) =>
        New1Keeps(s, o, t, a.addr, l, v, s');
        o' := o.(dir := o.dir[a.addr := Thread(t)]);
      case SetSwap1(l, v, x) =>
        if Index1(l) in s.root {
          MoveKeeps(s, o, t, SetDrop1(l, v, x, s.root[Index1(l)]), s');
        } else {
          Swap1Keeps(s, o, t, Index1(l), l, v, x, s');
          o' := o.(dir := o.dir[x := Slot(Index1(l))]);
        }
      case SetDrop1(l, v, x, d) =>
        Owns(s, o, t);
        Drop1Keeps(s, o, t, l, v, x, d, s');
        o' := o.(dir := o.dir - {x});
      case SetLoad2(l, v, d) =>
        Reaches(s, o, l, d);
        var e := (d, Index2(l));
        MoveKeeps(s, o, t, if e in s.links then SetStore(l, v, s.links[e]) else SetNew2(l, v, d), s');
      case SetNew2(l, v, d) =>
        New2Keeps(s, o, t, a.addr, l, v, d, s');
        o' := o.(leaf := o.leaf[a.addr := Thread(t)]);
      case SetSwap2(l, v, d, x) =>
        Reaches(s, o, l, d);
        var e := (d, Index2(l));
        if e in s.links {
          MoveKeeps(s, o, t, SetDrop2(l, v, x, s.links[e]), s');
        } else {
          Swap2Keeps(s, o, t, e, l, v, x, s');
          o' := o.(leaf := o.leaf[x := Link(e)]);
        }
      case SetDrop2(l, v, x, f) =>
        Owns(s, o, t);
        Drop2Keeps(s, o, t, l, v, x, f, s');
        o' := o.(leaf := o.leaf - {x});
      case SetStore(l, v, f) =>
        Lands(s, o, l, f);
        StoreKeeps(s, o, t, Index3(l), l, v, f, s');
      case FindLoad1(l) =>
        MoveKeeps(s, o, t, if Index1(l) in s.root then FindLoad2(l, s.root[Index1(l)]) else Idle, s');
      case FindLoad2(l, d) =>
        Reaches(s, o, l, d);
        var e := (d, Index2(l));
        MoveKeeps(s, o, t, if e in s.links then FindLoad3(l, s.links[e]) else Idle, s');
      case FindLoad3(l, f) =>
        Lands(s, o, l, f);
        MoveKeeps(s, o, t, Idle, s');
    }
  }

  lemma SwapDir(s: State, o: Owners, l: u32, v: nat, d: nat, x: nat)
    requires TablesOk(s, o) && Holding(s, SetSwap2(l, v, d, x))
    ensures d in o.dir && o.dir[d].Slot?
  {
    hide Index1, Index2;
  }

  /** A published directory is allocated. */
  lemma Reaches(s: State, o: Owners, l: u32, d: nat)
    requires TablesOk(s, o) && DirAt(s, l, d)
    ensures d in s.dirs
  {
    hide Index1, Index2;
  }

  /** A published leaf is allocated. */
  lemma Lands(s: State, o: Owners, l: u32, f: nat)
    requires TablesOk(s, o) && LeafAt(s, l, f)
    ensures f in s.leaves
  {
    hide Index1, Index2;
  }

  lemma Owns(s: State, o: Owners, t: nat)
    requires TablesOk(s, o) && ThreadOk(s, o, t, At(s, t))
    ensures MyDir(At(s, t)).Some? ==> MyDir(At(s, t)).value in s.dirs
    ensures MyLeaf(At(s, t)).Some? ==> MyLeaf(At(s, t)).value in s.leaves
  {
  }
}
