/** Runs of the region map: refinement to one atomic map, progress, and clearing. */
module RegionMapRuns {
  import opened Machine
  import opened RegionMap
  import opened RegionMapSafety

  /** What an atomic map holds for a location after an event. */
  function After(before: nat, e: Event, loc: u32): nat {
    if e.Stored? && e.loc / 4 == loc / 4 then e.value else before
  }

  // -------- one step

  /** Publishing a blank directory shows no new value. */
  lemma Swap1Value(s: State, o: Owners, i: nat, x: nat, t: nat, loc: u32)
    requires TablesOk(s, o) && i !in s.root && x in o.dir && o.dir[x] == Thread(t)
    ensures Value(s.(root := s.root[i := x]), loc) == Value(s, loc)
  {
    hide Index1, Index2, Index3;
  }

  /** Publishing a blank leaf shows no new value. */
  lemma Swap2Value(s: State, o: Owners, e: (nat, nat), x: nat, t: nat, loc: u32)
    requires TablesOk(s, o) && e !in s.links && x in o.leaf && o.leaf[x] == Thread(t)
    ensures Value(s.(links := s.links[e := x]), loc) == Value(s, loc)
  {
    hide Index1, Index2, Index3;
  }

  /** The leaf of a location is the leaf of another only if they share both table indices. */
  lemma LeafUnique(s: State, o: Owners, a: u32, b: u32, f: nat)
    requires TablesOk(s, o) && LeafAt(s, a, f) && LeafAt(s, b, f)
    ensures Index1(a) == Index1(b) && Index2(a) == Index2(b)
  {
    hide Index1, Index2;
  }

  /** The store changes the value of exactly one word. */
  lemma StoreValue(s: State, o: Owners, l: u32, v: nat, f: nat, loc: u32)
    requires TablesOk(s, o) && LeafAt(s, l, f)
    ensures Value(s.(cells := s.cells[(f, Index3(l)) := v]), loc) == if l / 4 == loc / 4 then v else Value(s, loc)
  {
    SameWord(l, loc);
    hide Index1, Index2, Index3;
    if LeafAt(s, loc, f) {
      LeafUnique(s, o, l, loc, f);
    }
  }

  lemma ZeroedSame(s: State, o: Owners, addr: nat)
    requires TablesOk(s, o)
    ensures addr !in s.dirs ==> Zeroed(s.links, addr) == s.links
    ensures addr !in s.leaves ==> Zeroed(s.cells, addr) == s.cells
  {
  }

  /** Each action acts on the values like its event acts on an atomic map. */
  lemma NextValue(s: State, o: Owners, a: Action, loc: u32)
    requires Valid(s, o) && Enabled(s, a)
    ensures Value(Next(s, a).0, loc) == After(Value(s, loc), Next(s, a).1, loc)
  {
    hide Index1, Index2, Index3, TablesOk, ThreadsOk, TablesUsed, Lookup, Zeroed, At;
    var t := a.thread;
    ThisThread(s, o, t);
    if a.Advance? {
      ZeroedSame(s, o, a.addr);
      match At(s, t)
      case SetSwap1(l, v, x) =>
        if Index1(l) !in s.root {
          Swap1Value(s, o, Index1(l), x, t, loc);
        }
      case SetSwap2(l, v, d, x) =>
        if (d, Index2(l)) !in s.links {
          Swap2Value(s, o, (d, Index2(l)), x, t, loc);
        }
      case SetStore(l, v, f) =>
        Lands(s, o, l, f);
        StoreValue(s, o, l, v, f, loc);
      case _ =>
    }
  }

  /** What a find returns is the value of its location at its last step. */
  lemma NextResult(s: State, o: Owners, a: Action)
    requires Valid(s, o) && Enabled(s, a) && Next(s, a).1.Returned?
    ensures Next(s, a).1.result == Value(s, Next(s, a).1.loc)
  {
    hide Index1, Index2, Index3, TablesOk, ThreadsOk, TablesUsed, Zeroed, At;
    ThisThread(s, o, a.thread);
  }

  // -------- runs

  /** The state and the events after a sequence of actions. */
  function Exec(acts: seq<Action>): (State, seq<Event>) {
    if acts == [] then (INIT, [])
    else
      var (s, es) := Exec(acts[..|acts| - 1]);
      var (s', e) := Next(s, acts[|acts| - 1]);
      (s', es + [e])
  }

  /** Every action was enabled when it was taken. */
  predicate Run(acts: seq<Action>) {
    acts == [] || (Run(acts[..|acts| - 1]) && Enabled(Exec(acts[..|acts| - 1]).0, acts[|acts| - 1]))
  }

  /** Every find returned the value last stored for its word before its last step. */
  predicate Linearized(es: seq<Event>) {
    forall k :: 0 <= k < |es| && es[k].Returned? ==> es[k].result == Latest(es[..k], es[k].loc)
  }

  predicate Matches(s: State, es: seq<Event>) {
    forall loc: u32 :: Value(s, loc) == Latest(es, loc)
  }

  lemma LatestSnoc(es: seq<Event>, e: Event, loc: u32)
    ensures Latest(es + [e], loc) == After(Latest(es, loc), e, loc)
  {
    assert (es + [e])[..|es|] == es;
  }

  /**
   * In every run of any number of threads the tables hold, for each word, the value last stored,
   * every find returns the value last stored before its last step, and no thread touches a table that
   * is not allocated.
   */
  lemma {:induction false} Linearizable(acts: seq<Action>) returns (o: Owners)
    requires Run(acts)
    ensures var (s, es) := Exec(acts); Valid(s, o) && Matches(s, es) && Linearized(es)
    ensures forall t :: !At(Exec(acts).0, t).Crashed?
    decreases |acts|
  {
    hide Next, Enabled, Valid, Value, Latest, After;
    if acts == [] {
      o := Owners(map[], map[]);
      InitValid();
    } else {
      var n := |acts| - 1;
      var a := acts[n];
      var (s, es) := Exec(acts[..n]);
      var before := Linearizable(acts[..n]);
      o := NextKeeps(s, before, a);
      var (s', e) := Next(s, a);
      forall loc: u32 ensures Value(s', loc) == Latest(es + [e], loc) {
        NextValue(s, before, a, loc);
        LatestSnoc(es, e, loc);
      }
      if e.Returned? {
        NextResult(s, before, a);
      }
      LinearizedSnoc(es, e);
    }
    NoCrash(Exec(acts).0, o);
  }

  lemma LinearizedSnoc(es: seq<Event>, e: Event)
    requires Linearized(es) && (e.Returned? ==> e.result == Latest(es, e.loc))
    ensures Linearized(es + [e])
  {
    hide Latest;
    var all := es + [e];
    forall k | 0 <= k < |all| && all[k].Returned? ensures all[k].result == Latest(all[..k], all[k].loc) {
      assert all[..k] == es[..k];
      assert es[..|es|] == es;
    }
  }

  lemma InitValid()
    ensures Valid(INIT, Owners(map[], map[])) && forall loc: u32 :: Value(INIT, loc) == Latest([], loc)
  {
  }

  lemma NoCrash(s: State, o: Owners)
    requires Valid(s, o)
    ensures forall t :: !At(s, t).Crashed?
  {
    hide TablesOk, TablesUsed;
    forall t ensures !At(s, t).Crashed? {
      ThisThread(s, o, t);
    }
  }

  /** A table pointer, once published, is the same in every later state of the run. */
  lemma {:induction false} PublishedForever(acts: seq<Action>, more: seq<Action>)
    requires Run(acts + more)
    ensures Run(acts) && Grows(Exec(acts).0, Exec(acts + more).0)
    decreases |more|
  {
    hide Next, Enabled;
    if more == [] {
      assert acts + more == acts;
    } else {
      var n := |more| - 1;
      assert (acts + more)[..|acts + more| - 1] == acts + more[..n];
      PublishedForever(acts, more[..n]);
      var o := Linearizable(acts + more[..n]);
      var o' := NextKeeps(Exec(acts + more[..n]).0, o, more[n]);
    }
  }

  // -------- progress

  /** Steps a thread still has to take, at most. */
  function Rank(pc: Pc): nat {
    match pc
    case SetLoad1(_, _) => 8
    case SetNew1(_, _) => 7
    case SetSwap1(_, _, _) => 6
    case SetDrop1(_, _, _, _) => 5
    case SetLoad2(_, _, _) => 4
    case SetNew2(_, _, _) => 3
    case SetSwap2(_, _, _, _) => 2
    case SetDrop2(_, _, _, _) => 1
    case SetStore(_, _, _) => 0
    case FindLoad1(_) => 2
    case FindLoad2(_, _) => 1
    case FindLoad3(_, _) => 0
    case _ => 0
  }

  lemma StepAdvances(s: State, t: nat, addr: nat)
    requires Enabled(s, Advance(t, addr))
    ensures var pc := At(Next(s, Advance(t, addr)).0, t);
            pc.Idle? || pc.Crashed? || Rank(pc) < Rank(At(s, t))
  {
    hide Index1, Index2, Index3, Zeroed;
  }

  /**
   * After any run, a step of a thread ends its operation or leaves it fewer steps to take, whatever the other
   * threads did; it never touches a table that is not allocated.
   */
  lemma WaitFree(acts: seq<Action>, t: nat, addr: nat)
    requires Run(acts) && Enabled(Exec(acts).0, Advance(t, addr))
    ensures var s := Exec(acts).0;
            var pc := At(Next(s, Advance(t, addr)).0, t);
            !pc.Crashed? && (pc.Idle? || Rank(pc) < Rank(At(s, t)))
  {
    hide Next, Enabled, Rank, Valid;
    var s := Exec(acts).0;
    StepAdvances(s, t, addr);
    var o := Linearizable(acts);
    var o' := NextKeeps(s, o, Advance(t, addr));
    NoCrash(Next(s, Advance(t, addr)).0, o');
  }
}
