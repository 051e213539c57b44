/** What the events of a run have to do with the calls that were made: every operation does what its caller asked for. */
module RegionMapCalls {
  import opened Machine
  import opened Wrappers
  import opened RegionMap
  import opened RegionMapSafety
  import opened RegionMapRuns

  /** The number of the latest call of a thread. */
  function LastCall(acts: seq<Action>, t: nat): (k: Option<nat>)
    ensures k.Some? ==> k.value < |acts| && acts[k.value].Call? && acts[k.value].thread == t
    ensures forall i :: 0 <= i < |acts| && acts[i].Call? && acts[i].thread == t ==> k.Some? && i <= k.value
  {
    if acts == [] then None
    else
      var n := |acts| - 1;
      if acts[n].Call? && acts[n].thread == t then Some(n) else LastCall(acts[..n], t)
  }

  /** The thread is inside the operation, with the arguments it was called with. */
  predicate Carries(pc: Pc, op: Op) {
    match op
    case Set(l, v) =>
      && (pc.SetLoad1? || pc.SetNew1? || pc.SetSwap1? || pc.SetDrop1? || pc.SetLoad2? || pc.SetNew2? || pc.SetSwap2?
          || pc.SetDrop2? || pc.SetStore?)
      && pc.loc == l && pc.value == v
    case Find(l) => (pc.FindLoad1? || pc.FindLoad2? || pc.FindLoad3?) && pc.loc == l
  }

  /** The event that ends an operation. */
  predicate Ends(e: Event, op: Op) {
    match op
    case Set(l, v) => e == Stored(l, v)
    case Find(l) => e.Returned? && e.loc == l
  }

  predicate Speaks(acts: seq<Action>, es: seq<Event>, i: nat, t: nat)
    requires |es| == |acts|
  {
    i < |acts| && acts[i].thread == t && !es[i].Quiet?
  }

  predicate Silent(acts: seq<Action>, es: seq<Event>, from: nat, t: nat)
    requires |es| == |acts|
  {
    forall i :: from <= i < |acts| ==> !Speaks(acts, es, i, t)
  }

  /** Exactly one event of the thread since its call, and it ends the operation. */
  ghost predicate EndedOnce(acts: seq<Action>, es: seq<Event>, k: nat, t: nat, op: Op)
    requires |es| == |acts|
  {
    exists j :: k < j < |acts| && Speaks(acts, es, j, t) && Ends(es[j], op)
                && forall i :: k < i < |acts| && Speaks(acts, es, i, t) ==> i == j
  }

  /** Set does nothing but abort for a location that is not a multiple of four. */
  predicate Aborts(op: Op) {
    op.Set? && op.loc % 4 != 0
  }

  ghost predicate Tracked(acts: seq<Action>, s: State, es: seq<Event>, t: nat)
    requires |es| == |acts|
  {
    var k := LastCall(acts, t);
    if k.None? then At(s, t).Idle? && Silent(acts, es, 0, t)
    else
      var op := acts[k.value].op;
      if Aborts(op) then At(s, t).Aborted? && Silent(acts, es, k.value, t)
      else if At(s, t).Idle? then EndedOnce(acts, es, k.value, t, op)
      else Carries(At(s, t), op) && Silent(acts, es, k.value, t)
  }

  lemma {:induction false} ExecLength(acts: seq<Action>)
    ensures |Exec(acts).1| == |acts|
  {
    hide Next;
    if acts != [] {
      ExecLength(acts[..|acts| - 1]);
    }
  }

  lemma StepCarries(s: State, t: nat, addr: nat, op: Op)
    requires Carries(At(s, t), op)
    ensures var (s', e) := Step(s, t, addr);
            At(s', t).Crashed? || (e.Quiet? && Carries(At(s', t), op)) || (Ends(e, op) && At(s', t).Idle?)
  {
    hide Index1, Index2, Index3, Zeroed;
  }

  lemma MovedOthers(s: State, t: nat, u: nat)
    requires t != u
    ensures forall x: State, pc :: x.threads == s.threads ==> At(Moved(x, t, pc), u) == At(s, u)
  {
  }

  lemma StepOthers(s: State, a: Action, t: nat)
    requires t != a.thread
    ensures At(Next(s, a).0, t) == At(s, t)
  {
    hide Index1, Index2, Index3, Zeroed, Moved, At, Called;
    MovedOthers(s, a.thread, t);
  }

  lemma CalledCarries(op: Op)
    ensures if Aborts(op) then Called(op).Aborted? else Carries(Called(op), op)
  {
  }

  lemma StepTracked(acts: seq<Action>, s: State, es: seq<Event>, a: Action, t: nat)
    requires |es| == |acts| && Tracked(acts, s, es, t) && Enabled(s, a) && !At(Next(s, a).0, a.thread).Crashed?
    ensures var (s', e) := Next(s, a); Tracked(acts + [a], s', es + [e], t)
  {
    hide Step, Carries, Ends;
    var (s', e) := Next(s, a);
    var all, events := acts + [a], es + [e];
    assert all[..|all| - 1] == acts;
    assert forall i :: 0 <= i < |acts| ==> Speaks(all, events, i, t) == Speaks(acts, es, i, t);
    if a.thread != t {
      hide Next;
      StepOthers(s, a, t);
      assert !Speaks(all, events, |acts|, t);
    } else if a.Call? {
      CalledCarries(a.op);
    } else {
      var k := LastCall(acts, t).value;
      var op := acts[k].op;
      StepCarries(s, t, a.addr, op);
      assert LastCall(all, t) == Some(k) && all[k].op == op;
      assert Silent(acts, es, k, t);
      if At(s', t).Idle? {
        CarriesInside(At(s', t), op);
        SpeaksWhenEnds(e, op);
        assert Speaks(all, events, |acts|, t) && Ends(events[|acts|], op);
        assert EndedOnce(all, events, k, t, op);
      } else {
        assert !Speaks(all, events, |acts|, t);
      }
    }
  }

  lemma CarriesInside(pc: Pc, op: Op)
    ensures Carries(pc, op) ==> !pc.Idle?
  {
  }

  lemma SpeaksWhenEnds(e: Event, op: Op)
    requires Ends(e, op)
    ensures !e.Quiet?
  {
  }

  lemma {:induction false} AllTracked(acts: seq<Action>, t: nat)
    requires Run(acts)
    ensures var (s, es) := Exec(acts); |es| == |acts| && Tracked(acts, s, es, t)
    decreases |acts|
  {
    hide Next, Enabled, Tracked;
    if acts == [] {
      NoneTracked(t);
    } else {
      var n := |acts| - 1;
      AllTracked(acts[..n], t);
      var o := Linearizable(acts);
      var (s, es) := Exec(acts[..n]);
      StepTracked(acts[..n], s, es, acts[n], t);
      assert acts[..n] + [acts[n]] == acts;
    }
  }

  lemma NoneTracked(t: nat)
    ensures Tracked([], INIT, [], t)
  {
  }

  // -------- events and calls

  /** Event j is that of action j, taken in the state after the actions before it. */
  lemma {:induction false} EventAt(acts: seq<Action>, j: nat)
    requires Run(acts) && j < |acts|
    ensures |Exec(acts).1| == |acts| && Exec(acts[..j]).1 == Exec(acts).1[..j]
    ensures Run(acts[..j]) && Enabled(Exec(acts[..j]).0, acts[j])
    ensures Exec(acts).1[j] == Next(Exec(acts[..j]).0, acts[j]).1
    ensures Exec(acts[..j + 1]).0 == Next(Exec(acts[..j]).0, acts[j]).0
    decreases |acts|
  {
    hide Next, Enabled;
    var n := |acts| - 1;
    ExecLength(acts);
    ExecLength(acts[..n]);
    if j == n {
      assert acts[..j + 1] == acts;
    } else {
      EventAt(acts[..n], j);
      assert acts[..n][..j] == acts[..j] && acts[..n][..j + 1] == acts[..j + 1];
    }
  }

  /**
   * Every event is the last step of an operation: of the latest call of its thread, with the arguments of that call,
   * and the first event since.
   */
  lemma EventsOfCalls(acts: seq<Action>, j: nat) returns (k: nat)
    requires Run(acts) && j < |acts| && |Exec(acts).1| == |acts| && !Exec(acts).1[j].Quiet?
    ensures var t, es := acts[j].thread, Exec(acts).1;
            && acts[j].Advance? && LastCall(acts[..j], t) == Some(k)
            && (es[j].Stored? ==> acts[k].op == Set(es[j].loc, es[j].value))
            && (es[j].Returned? ==> acts[k].op == Find(es[j].loc))
            && (forall i :: k < i < j ==> !Speaks(acts, es, i, t))
            && At(Exec(acts[..j + 1]).0, t).Idle?
  {
    hide Step, Enabled;
    var t := acts[j].thread;
    EventAt(acts, j);
    AllTracked(acts[..j], t);
    PrefixRuns(acts, j + 1);
    var o := Linearizable(acts[..j + 1]);
    var s := Exec(acts[..j]).0;
    EnabledInside(s, acts[j]);
    k := LastCall(acts[..j], t).value;
    StepCarries(s, t, acts[j].addr, acts[..j][k].op);
    ghost var es := Exec(acts).1;
    assert Silent(acts[..j], es[..j], k, t);
    assert forall i :: k < i < j ==> Speaks(acts[..j], es[..j], i, t) == Speaks(acts, es, i, t);
  }

  lemma EnabledInside(s: State, a: Action)
    requires Enabled(s, a) && a.Advance?
    ensures !At(s, a.thread).Idle? && !At(s, a.thread).Aborted?
  {
  }

  lemma PrefixRuns(acts: seq<Action>, n: nat)
    requires Run(acts) && n <= |acts|
    ensures Run(acts[..n])
  {
    if n < |acts| {
      EventAt(acts, n);
    } else {
      assert acts[..n] == acts;
    }
  }

  /** No call of the thread of call k between k and end, where it calls again unless the run ends there. */
  predicate Until(acts: seq<Action>, k: nat, end: nat) {
    && k < end <= |acts| && acts[k].Call?
    && (forall i :: k < i < end ==> !(acts[i].Call? && acts[i].thread == acts[k].thread))
    && (end < |acts| ==> acts[end].Call? && acts[end].thread == acts[k].thread)
  }

  lemma LastIs(acts: seq<Action>, k: nat, t: nat)
    requires k < |acts| && acts[k].Call? && acts[k].thread == t
    requires forall i :: k < i < |acts| ==> !(acts[i].Call? && acts[i].thread == t)
    ensures LastCall(acts, t) == Some(k)
  {
  }

  /**
   * A call for a location that is not a multiple of four aborts, and its thread does nothing more. Any other call has
   * exactly one event when its thread is idle again, with the arguments of the call, and none before.
   */
  lemma CallsEndOnce(acts: seq<Action>, k: nat, end: nat)
    requires Run(acts) && Until(acts, k, end)
    ensures |Exec(acts).1| == |acts|
    ensures var t, op := acts[k].thread, acts[k].op;
            var before, es := acts[..end], Exec(acts).1[..end];
            if op.Set? && op.loc % 4 != 0 then
              end == |acts| && At(Exec(acts).0, t).Aborted? && Silent(before, es, k, t)
            else if end < |acts| || At(Exec(acts).0, t).Idle? then EndedOnce(before, es, k, t, op)
            else Silent(before, es, k, t) && !At(Exec(acts).0, t).Aborted?
  {
    hide Next, Carries, Ends;
    var t := acts[k].thread;
    var before := acts[..end];
    ExecLength(acts);
    PrefixRuns(acts, end);
    LastIs(before, k, t);
    AllTracked(before, t);
    if end < |acts| {
      EventAt(acts, end);
    } else {
      assert before == acts && Exec(acts).1[..end] == Exec(acts).1;
    }
    assert before[k].op == acts[k].op;
    CarriesNotAborted(At(Exec(before).0, t), acts[k].op);
  }

  lemma CarriesNotAborted(pc: Pc, op: Op)
    ensures Carries(pc, op) ==> !pc.Aborted?
  {
  }

  /** Set aborts its thread if and only if the location is not a multiple of four; nothing else ever does. */
  lemma AbortsIff(acts: seq<Action>, t: nat)
    requires Run(acts)
    ensures At(Exec(acts).0, t).Aborted?
       <==> (LastCall(acts, t).Some? && acts[LastCall(acts, t).value].op.Set?
             && acts[LastCall(acts, t).value].op.loc % 4 != 0)
  {
    hide Exec, Carries, Silent, EndedOnce;
    AllTracked(acts, t);
    if LastCall(acts, t).Some? {
      CarriesNotAborted(At(Exec(acts).0, t), acts[LastCall(acts, t).value].op);
    }
  }

  // -------- results of calls

  predicate Stores(e: Event, loc: u32) {
    e.Stored? && e.loc / 4 == loc / 4
  }

  /** The value last stored was stored by some event with no other to that word behind it, or there is no such event. */
  lemma {:induction false} LatestEvent(es: seq<Event>, loc: u32) returns (i: int)
    ensures i == -1 ==> Latest(es, loc) == 0 && forall m :: 0 <= m < |es| ==> !Stores(es[m], loc)
    ensures i != -1 ==> 0 <= i < |es| && Stores(es[i], loc) && es[i].value == Latest(es, loc)
                        && forall m :: i < m < |es| ==> !Stores(es[m], loc)
    decreases |es|
  {
    if es == [] {
      i := -1;
    } else {
      var n := |es| - 1;
      if Stores(es[n], loc) {
        i := n;
      } else {
        i := LatestEvent(es[..n], loc);
      }
    }
  }

  /**
   * The result of a find call is null if no set call of its word has stored before the find's last step; otherwise it
   * is the value that was passed to the set call that stored last.
   */
  lemma ResultsOfCalls(acts: seq<Action>, j: nat) returns (finder: nat, i: int, setter: nat)
    requires Run(acts) && j < |acts| && |Exec(acts).1| == |acts| && Exec(acts).1[j].Returned?
    ensures var es, loc := Exec(acts).1, Exec(acts).1[j].loc;
            && LastCall(acts[..j], acts[j].thread) == Some(finder) && acts[finder].op == Find(loc)
            && (i == -1 ==> es[j].result == 0 && forall m :: 0 <= m < j ==> !Stores(es[m], loc))
            && (i != -1 ==>
                  && 0 <= i < j && Stores(es[i], loc) && (forall m :: i < m < j ==> !Stores(es[m], loc))
                  && LastCall(acts[..i], acts[i].thread) == Some(setter) && acts[setter].op == Set(es[i].loc, es[j].result))
  {
    hide Exec, Run, LastCall;
    var es := Exec(acts).1;
    finder := EventsOfCalls(acts, j);
    var o := Linearizable(acts);
    i := LatestEvent(es[..j], es[j].loc);
    setter := 0;
    if i != -1 {
      setter := EventsOfCalls(acts, i);
    }
  }
}
