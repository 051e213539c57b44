/**
 * A lock-free map from words of a 32-bit address space to pointers: a root of 256 entries, directory
 * tables of 256 entries and leaf tables of 16384 entries, with tables published by compare-and-exchange.
 * Threads interleave at every atomic load, exchange and store; `0` is the null pointer.
 */
module RegionMap {
  import opened Machine
  import opened Wrappers

  // -------- locations

  function Index1(loc: u32): (i: nat)
    ensures i < 0x100
  {
    loc / 0x100_0000
  }

  function Index2(loc: u32): (i: nat)
    ensures i < 0x100
  {
    loc / 0x1_0000 % 0x100
  }

  function Index3(loc: u32): (i: nat)
    ensures i < 0x4000
  {
    loc / 4 % 0x4000
  }

  /** Two locations share all three indices exactly when they lie in the same word. */
  lemma SameWord(a: u32, b: u32)
    ensures Index1(a) == Index1(b) && Index2(a) == Index2(b) && Index3(a) == Index3(b) <==> a / 4 == b / 4
  {
    WordIndices(a);
    WordIndices(b);
  }

  lemma WordIndices(a: u32)
    ensures a / 4 == 0x40_0000 * Index1(a) + 0x4000 * Index2(a) + Index3(a)
    ensures Index1(a) == a / 4 / 0x40_0000 && Index2(a) == a / 4 / 0x4000 % 0x100 && Index3(a) == a / 4 % 0x4000
  {
    assert a / 4 / 0x4000 == a / 0x1_0000;
    assert a / 0x1_0000 / 0x100 == a / 0x100_0000;
    assert a / 4 / 0x40_0000 == a / 0x100_0000;
  }

  // -------- threads

  datatype Op = Set(loc: u32, value: nat) | Find(loc: u32)

  /** Where a thread is inside set or find, with the pointers its local variables hold. */
  datatype Pc =
    | Idle
    | Aborted
    | Crashed
    | SetLoad1(loc: u32, value: nat)
    | SetNew1(loc: u32, value: nat)
    | SetSwap1(loc: u32, value: nat, mine: nat)
    | SetDrop1(loc: u32, value: nat, mine: nat, dir: nat)
    | SetLoad2(loc: u32, value: nat, dir: nat)
    | SetNew2(loc: u32, value: nat, dir: nat)
    | SetSwap2(loc: u32, value: nat, dir: nat, mine: nat)
    | SetDrop2(loc: u32, value: nat, mine: nat, leaf: nat)
    | SetStore(loc: u32, value: nat, leaf: nat)
    | FindLoad1(loc: u32)
    | FindLoad2(loc: u32, dir: nat)
    | FindLoad3(loc: u32, leaf: nat)

  /**
   * The shared memory. `dirs` and `leaves` are the allocated tables; `links` and `cells` are the entries
   * that are not null, by table and index.
   */
  datatype State = State(
    root: map<nat, nat>,
    dirs: set<nat>,
    links: map<(nat, nat), nat>,
    leaves: set<nat>,
    cells: map<(nat, nat), nat>,
    threads: map<nat, Pc>)

  datatype Event = Quiet | Stored(loc: u32, value: nat) | Returned(loc: u32, result: nat)

  datatype Action = Call(thread: nat, op: Op) | Advance(thread: nat, addr: nat)

  const INIT := State(map[], {}, map[], {}, map[], map[])

  function At(s: State, t: nat): Pc {
    if t in s.threads then s.threads[t] else Idle
  }

  function Moved(s: State, t: nat, pc: Pc): State {
    s.(threads := s.threads[t := pc])
  }

  /** A thread that is not inside an operation may call one; any thread inside one may take a step. */
  predicate Enabled(s: State, a: Action) {
    match a
    case Call(t, _) => At(s, t).Idle?
    case Advance(t, addr) =>
      var pc := At(s, t);
      !pc.Idle? && !pc.Aborted? && !pc.Crashed? && addr !in s.dirs && addr !in s.leaves
  }

  function Called(op: Op): Pc {
    match op
    case Set(loc, value) => if loc % 4 != 0 then Aborted else SetLoad1(loc, value)
    case Find(loc) => FindLoad1(loc)
  }

  /** The entries of a table that has just been zeroed are gone. */
  function Zeroed(entries: map<(nat, nat), nat>, table: nat): map<(nat, nat), nat> {
    map e | e in entries && e.0 != table :: entries[e]
  }

  /** One atomic step; touching a table that is not allocated crashes. */
  function Step(s: State, t: nat, addr: nat): (State, Event) {
    match At(s, t)
    case SetLoad1(l, v) =>
      (Moved(s, t, if Index1(l) in s.root then SetLoad2(l, v, s.root[Index1(l)]) else SetNew1(l, v)), Quiet)
    case SetNew1(l, v) =>
      (Moved(s.(dirs := s.dirs + {addr}, links := Zeroed(s.links, addr)), t, SetSwap1(l, v, addr)), Quiet)
    case SetSwap1(l, v, x) =>
      if Index1(l) in s.root then (Moved(s, t, SetDrop1(l, v, x, s.root[Index1(l)])), Quiet)
      else (Moved(s.(root := s.root[Index1(l) := x]), t, SetLoad2(l, v, x)), Quiet)
    case SetDrop1(l, v, x, d) =>
      if x !in s.dirs then (Moved(s, t, Crashed), Quiet)
      else (Moved(s.(dirs := s.dirs - {x}), t, SetLoad2(l, v, d)), Quiet)
    case SetLoad2(l, v, d) =>
      if d !in s.dirs then (Moved(s, t, Crashed), Quiet)
      else if (d, Index2(l)) in s.links then (Moved(s, t, SetStore(l, v, s.links[(d, Index2(l))])), Quiet)
      else (Moved(s, t, SetNew2(l, v, d)), Quiet)
    case SetNew2(l, v, d) =>
      (Moved(s.(leaves := s.leaves + {addr}, cells := Zeroed(s.cells, addr)), t, SetSwap2(l, v, d, addr)), Quiet)
    case SetSwap2(l, v, d, x) =>
      if d !in s.dirs then (Moved(s, t, Crashed), Quiet)
      else if (d, Index2(l)) in s.links then (Moved(s, t, SetDrop2(l, v, x, s.links[(d, Index2(l))])), Quiet)
      else (Moved(s.(links := s.links[(d, Index2(l)) := x]), t, SetStore(l, v, x)), Quiet)
    case SetDrop2(l, v, x, f) =>
      if x !in s.leaves then (Moved(s, t, Crashed), Quiet)
      else (Moved(s.(leaves := s.leaves - {x}), t, SetStore(l, v, f)), Quiet)
    case SetStore(l, v, f) =>
      if f !in s.leaves then (Moved(s, t, Crashed), Quiet)
      else (Moved(s.(cells := s.cells[(f, Index3(l)) := v]), t, Idle), Stored(l, v))
    case FindLoad1(l) =>
      if Index1(l) in s.root then (Moved(s, t, FindLoad2(l, s.root[Index1(l)])), Quiet)
      else (Moved(s, t, Idle), Returned(l, 0))
    case FindLoad2(l, d) =>
      if d !in s.dirs then (Moved(s, t, Crashed), Quiet)
      else if (d, Index2(l)) in s.links then (Moved(s, t, FindLoad3(l, s.links[(d, Index2(l))])), Quiet)
      else (Moved(s, t, Idle), Returned(l, 0))
    case FindLoad3(l, f) =>
      if f !in s.leaves then (Moved(s, t, Crashed), Quiet)
      else (Moved(s, t, Idle), Returned(l, if (f, Index3(l)) in s.cells then s.cells[(f, Index3(l))] else 0))
    case _ => (s, Quiet)
  }

  function Next(s: State, a: Action): (State, Event) {
    match a
    case Call(t, op) => (Moved(s, t, Called(op)), Quiet)
    case Advance(t, addr) => Step(s, t, addr)
  }

  // -------- what the tables mean

  /** The pointer a lookup that ran alone would find for a location. */
  function Value(s: State, loc: u32): nat {
    Lookup(s.root, s.links, s.cells, loc)
  }

  function Lookup(root: map<nat, nat>, links: map<(nat, nat), nat>, cells: map<(nat, nat), nat>, loc: u32): nat {
    if Index1(loc) !in root then 0
    else
      var link := (root[Index1(loc)], Index2(loc));
      if link !in links then 0
      else
        var cell := (links[link], Index3(loc));
        if cell in cells then cells[cell] else 0
  }

  /** The value last stored for the word of a location, null if there is none. */
  function Latest(events: seq<Event>, loc: u32): nat {
    if events == [] then 0
    else
      var e := events[|events| - 1];
      if e.Stored? && e.loc / 4 == loc / 4 then e.value else Latest(events[..|events| - 1], loc)
  }

  // -------- the invariant

  /** The directory a thread has allocated and neither published nor deleted. */
  function MyDir(pc: Pc): Option<nat> {
    match pc
    case SetSwap1(_, _, x) => Some(x)
    case SetDrop1(_, _, x, _) => Some(x)
    case _ => None
  }

  function MyLeaf(pc: Pc): Option<nat> {
    match pc
    case SetSwap2(_, _, _, x) => Some(x)
    case SetDrop2(_, _, x, _) => Some(x)
    case _ => None
  }

  predicate DirAt(s: State, loc: u32, d: nat) {
    Index1(loc) in s.root && s.root[Index1(loc)] == d
  }

  predicate LeafAt(s: State, loc: u32, f: nat) {
    Index1(loc) in s.root && (s.root[Index1(loc)], Index2(loc)) in s.links
    && s.links[(s.root[Index1(loc)], Index2(loc))] == f
  }

  /** The table pointers a thread holds are the published ones for its location. */
  predicate Holding(s: State, pc: Pc) {
    match pc
    case SetDrop1(l, _, _, d) => DirAt(s, l, d)
    case SetLoad2(l, _, d) => DirAt(s, l, d)
    case SetNew2(l, _, d) => DirAt(s, l, d)
    case SetSwap2(l, _, d, _) => DirAt(s, l, d)
    case SetDrop2(l, _, _, f) => LeafAt(s, l, f)
    case SetStore(l, _, f) => LeafAt(s, l, f)
    case FindLoad2(l, d) => DirAt(s, l, d)
    case FindLoad3(l, f) => LeafAt(s, l, f)
    case Crashed => false
    case _ => true
  }

  /** Whose a table is: the entry it is published at, or the thread that has yet to publish it. */
  datatype Owner = Slot(index: nat) | Link(entry: (nat, nat)) | Thread(id: nat)

  /** An owner for every allocated table. */
  datatype Owners = Owners(dir: map<nat, Owner>, leaf: map<nat, Owner>)

  predicate RootOk(s: State, o: Owners) {
    forall i :: i in s.root ==> i < 0x100 && s.root[i] in o.dir && o.dir[s.root[i]] == Slot(i)
  }

  /** Only published directories have entries, and entries lead to published leaves. */
  predicate LinksOk(s: State, o: Owners) {
    forall e :: e in s.links ==>
      e.1 < 0x100 && e.0 in o.dir && o.dir[e.0].Slot? && s.links[e] in o.leaf && o.leaf[s.links[e]] == Link(e)
  }

  /** Only published leaves have entries: no store lands in a table that no one can reach. */
  predicate CellsOk(s: State, o: Owners) {
    forall c :: c in s.cells ==> c.0 in o.leaf && o.leaf[c.0].Link?
  }

  /** A thread holds published tables, and owns the tables it has allocated. */
  predicate ThreadOk(s: State, o: Owners, t: nat, pc: Pc) {
    Holding(s, pc) && OwnedBy(o.dir, MyDir(pc), t) && OwnedBy(o.leaf, MyLeaf(pc), t)
  }

  predicate ThreadsOk(s: State, o: Owners) {
    forall t :: t in s.threads ==> ThreadOk(s, o, t, s.threads[t])
  }

  predicate OwnedBy(owner: map<nat, Owner>, mine: Option<nat>, t: nat) {
    mine.Some? ==> mine.value in owner && owner[mine.value] == Thread(t)
  }

  /** Every allocated directory is published, or private to a thread that will publish or delete it. */
  predicate DirsUsed(s: State, o: Owners) {
    forall d :: d in o.dir ==>
      match o.dir[d]
      case Slot(i) => i in s.root && s.root[i] == d
      case Thread(t) => t in s.threads && MyDir(s.threads[t]) == Some(d)
      case Link(_) => false
  }

  predicate LeavesUsed(s: State, o: Owners) {
    forall f :: f in o.leaf ==>
      match o.leaf[f]
      case Link(e) => e in s.links && s.links[e] == f
      case Thread(t) => t in s.threads && MyLeaf(s.threads[t]) == Some(f)
      case Slot(_) => false
  }

  predicate TablesOk(s: State, o: Owners) {
    o.dir.Keys == s.dirs && o.leaf.Keys == s.leaves && RootOk(s, o) && LinksOk(s, o) && CellsOk(s, o)
  }

  predicate TablesUsed(s: State, o: Owners) {
    DirsUsed(s, o) && LeavesUsed(s, o)
  }

  predicate Valid(s: State, o: Owners) {
    TablesOk(s, o) && ThreadsOk(s, o) && TablesUsed(s, o)
  }

  /** Published entries stay as they are. */
  predicate Grows(s: State, s': State) {
    && (forall i :: i in s.root ==> i in s'.root && s'.root[i] == s.root[i])
    && (forall e :: e in s.links ==> e in s'.links && s'.links[e] == s.links[e])
  }
}
