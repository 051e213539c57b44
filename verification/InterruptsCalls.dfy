/** What the events of a run have to do with the calls that were made, and with the timer's own steps. */
module InterruptsCalls {
  import opened Interrupts
  import opened InterruptsSafety
  import opened InterruptsRuns
  import opened Wrappers

  /** The action is a call or a step of the thread. */
  predicate Of(a: Action, t: Tid) {
    !a.Tick? && a.thread == t
  }

  /** The number of the latest call of a thread. */
  function LastCall(acts: seq<Action>, t: Tid): (k: Option<nat>)
    ensures k.Some? ==> k.value < |acts| && acts[k.value].Call? && acts[k.value].thread == t
    ensures forall i :: 0 <= i < |acts| && acts[i].Call? && acts[i].thread == t ==> k.Some? && i <= k.value
  {
    if acts == [] then None
    else
      var n := |acts| - 1;
      if acts[n].Call? && acts[n].thread == t then Some(n) else LastCall(acts[..n], t)
  }

  predicate Speaks(acts: seq<Action>, es: seq<Event>, i: nat, t: Tid)
    requires |es| == |acts|
  {
    i < |acts| && Of(acts[i], t) && !es[i].Quiet?
  }

  predicate Silent(acts: seq<Action>, es: seq<Event>, from: nat, t: Tid)
    requires |es| == |acts|
  {
    forall i :: from <= i < |acts| ==> !Speaks(acts, es, i, t)
  }

  /** The event an operation is called for. */
  predicate Ends(e: Event, op: Op, t: Tid) {
    match op
    case Interrupt(c, f) => e == Raised(c, f)
    case SetAlarm(time) => t.CoreThread? && e == Armed(t.index, time)
    case Check => t.CoreThread? && e.Handled? && e.core == t.index
    case Wait => t.CoreThread? && e.Handled? && e.core == t.index
    case Clear(f) => t.CoreThread? && e == Cleared(t.index, f)
    case SetMask(_) => false
  }

  /** Exactly one event of the thread since its call, and it is the one the operation is called for. */
  ghost predicate EndedOnce(acts: seq<Action>, es: seq<Event>, k: nat, t: Tid, op: Op)
    requires |es| == |acts|
  {
    exists j :: k <= j < |acts| && Speaks(acts, es, j, t) && Ends(es[j], op, t)
                && forall i :: k <= i < |acts| && Speaks(acts, es, i, t) ==> i == j
  }

  /** The thread is inside the operation, before its event, with the arguments it was called with. */
  predicate Carries(pc: Pc, op: Op) {
    match op
    case Interrupt(c, f) => pc == IntLock(c, f) || pc == IntOr(c, f)
    case SetAlarm(time) => pc == AlarmLock(time) || pc == AlarmSet(time)
    case Check => pc.CheckTake? || pc.CheckCall?
    case Wait => pc.WaitLock? || pc.WaitTake? || pc.WaitSleep? || pc.WaitCall? || pc.Aborted?
    case _ => false
  }

  /** The thread is behind the event of the operation. */
  predicate Past(pc: Pc, op: Op) {
    pc.Out? || (op.Interrupt? && pc.IntNotify?) || (op.SetAlarm? && pc.AlarmNotify?)
  }

  /** The event has happened exactly once; a check that found nothing to do and a change of the mask have none. */
  ghost predicate Done(acts: seq<Action>, es: seq<Event>, k: nat, t: Tid, op: Op)
    requires |es| == |acts|
  {
    if op.SetMask? then Silent(acts, es, k, t)
    else EndedOnce(acts, es, k, t, op) || (op.Check? && Silent(acts, es, k, t))
  }

  ghost predicate Tracked(acts: seq<Action>, s: State, es: seq<Event>, t: Tid)
    requires |es| == |acts|
  {
    var k := LastCall(acts, t);
    if k.None? then At(s, t).Out? && Silent(acts, es, 0, t)
    else
      var op := acts[k.value].op;
      || (Carries(At(s, t), op) && Silent(acts, es, k.value, t))
      || (Past(At(s, t), op) && Done(acts, es, k.value, t, op))
  }

  // -------- one step

  lemma CallCarries(s: State, t: Tid, op: Op)
    requires MayCall(s, t, op)
    ensures var (s', e) := Begin(s, t, op);
            || (Carries(At(s', t), op) && e.Quiet?)
            || (op.Clear? && At(s', t).Out? && Ends(e, op, t))
            || (op.SetMask? && At(s', t).Out? && e.Quiet?)
  {
  }

  lemma StepCarries(s: State, t: Tid, op: Op)
    requires Enabled(s, Advance(t)) && Placed(At(s, t), t, |s.cores|) && Carries(At(s, t), op)
    ensures var (s', e) := Next(s, Advance(t));
            || (e.Quiet? && Carries(At(s', t), op))
            || (op.Check? && e.Quiet? && At(s', t).Out?)
            || (Ends(e, op, t) && Past(At(s', t), op))
  {
    hide WakeCores, WakeTimer;
  }

  lemma StepPast(s: State, t: Tid, op: Op)
    requires Enabled(s, Advance(t)) && Placed(At(s, t), t, |s.cores|) && Past(At(s, t), op)
    ensures var (s', e) := Next(s, Advance(t)); e.Quiet? && At(s', t).Out?
  {
    hide WakeCores, WakeTimer;
  }

  lemma IntOthers(s: State, t: Tid, u: Tid)
    requires u != t
    ensures Alike(At(s, u), At(IntStep(s, t).0, u))
  {
    hide WakeCores;
    WokenAt(s, u);
  }

  lemma TimerOthers(s: State, u: Tid)
    requires u != TimerThread
    ensures Alike(At(s, u), At(TimerStep(s).0, u))
  {
    hide WakeCores;
    WokenAt(s, u);
  }

  /** A step leaves other threads where they are, or wakes them. */
  lemma NextOthers(s: State, a: Action, u: Tid)
    requires Enabled(s, a) && !Of(a, u)
    ensures Alike(At(s, u), At(Next(s, a).0, u))
  {
    hide IntStep, TimerStep, CoreStep, Begin, Ready, MayCall, Alike;
    match a
    case Tick(_) => assert Alike(At(s, u), At(s, u)) by { AlikeSelf(At(s, u)); }
    case Call(t, op) => CallOthers(s, t, op);
    case Advance(t) =>
      IntOthers(s, t, u);
      AlikeSelf(At(s, u));
      if t.TimerThread? {
        TimerOthers(s, u);
      }
      if t.CoreThread? {
        CoreOthers(s, t.index);
      }
  }

  lemma AlikeSelf(pc: Pc)
    ensures Alike(pc, pc)
  {
  }

  lemma AlikeTracked(pc: Pc, pc': Pc, op: Op)
    requires Alike(pc, pc')
    ensures Carries(pc, op) ==> Carries(pc', op)
    ensures Past(pc, op) ==> Past(pc', op)
    ensures pc.Out? ==> pc'.Out?
  {
  }

  lemma StepTracked(acts: seq<Action>, s: State, es: seq<Event>, a: Action, t: Tid)
    requires |es| == |acts| && Enabled(s, a) && Placed(At(s, t), t, |s.cores|) && !t.TimerThread? && Tracked(acts, s, es, t)
    ensures var (s', e) := Next(s, a); Tracked(acts + [a], s', es + [e], t)
  {
    hide Next, Carries, Past, Ends, Alike, Enabled, Placed;
    var k := LastCall(acts, t);
    if !Of(a, t) {
      OthersTracked(acts, s, es, a, t);
    } else if a.Call? {
      CallTracked(acts, s, es, a, t);
    } else {
      if k.None? {
        OutNotReady(s, t);
      } else {
        var op := acts[k.value].op;
        if Carries(At(s, t), op) && Silent(acts, es, k.value, t) {
          CarriesTracked(acts, s, es, a, t);
        } else {
          PastTracked(acts, s, es, a, t);
        }
      }
    }
  }

  lemma SameSpeaks(acts: seq<Action>, es: seq<Event>, a: Action, e: Event, t: Tid)
    requires |es| == |acts|
    ensures forall i :: 0 <= i < |acts| ==> Speaks(acts + [a], es + [e], i, t) == Speaks(acts, es, i, t)
    ensures Speaks(acts + [a], es + [e], |acts|, t) <==> Of(a, t) && !e.Quiet?
  {
  }

  lemma StaysSilent(acts: seq<Action>, es: seq<Event>, a: Action, e: Event, k: nat, t: Tid)
    requires |es| == |acts| && Silent(acts, es, k, t) && !(Of(a, t) && !e.Quiet?)
    ensures Silent(acts + [a], es + [e], k, t)
  {
    hide Speaks;
    SameSpeaks(acts, es, a, e, t);
  }

  lemma StaysEnded(acts: seq<Action>, es: seq<Event>, a: Action, e: Event, k: nat, t: Tid, op: Op)
    requires |es| == |acts| && EndedOnce(acts, es, k, t, op) && !(Of(a, t) && !e.Quiet?)
    ensures EndedOnce(acts + [a], es + [e], k, t, op)
  {
    hide Speaks, Ends;
    SameSpeaks(acts, es, a, e, t);
    var j :| k <= j < |acts| && Speaks(acts, es, j, t) && Ends(es[j], op, t)
             && forall i :: k <= i < |acts| && Speaks(acts, es, i, t) ==> i == j;
    assert Speaks(acts + [a], es + [e], j, t) && Ends((es + [e])[j], op, t);
  }

  lemma NowEnded(acts: seq<Action>, es: seq<Event>, a: Action, e: Event, k: nat, t: Tid, op: Op)
    requires |es| == |acts| && k < |acts| && Silent(acts, es, k, t) && Of(a, t) && !e.Quiet? && Ends(e, op, t)
    ensures EndedOnce(acts + [a], es + [e], k, t, op)
  {
    hide Speaks, Ends;
    SameSpeaks(acts, es, a, e, t);
    assert Speaks(acts + [a], es + [e], |acts|, t) && Ends((es + [e])[|acts|], op, t);
  }

  /** What more actions do to the events of a thread. */
  lemma MoreEvents(acts: seq<Action>, es: seq<Event>, a: Action, e: Event, k: nat, t: Tid, op: Op)
    requires |es| == |acts| && k < |acts|
    ensures var all, events := acts + [a], es + [e];
            && (!(Of(a, t) && !e.Quiet?) && Silent(acts, es, k, t) ==> Silent(all, events, k, t))
            && (!(Of(a, t) && !e.Quiet?) && EndedOnce(acts, es, k, t, op) ==> EndedOnce(all, events, k, t, op))
            && (Of(a, t) && !e.Quiet? && Ends(e, op, t) && Silent(acts, es, k, t) ==> EndedOnce(all, events, k, t, op))
  {
    hide Ends, Silent, EndedOnce, Of;
    if Of(a, t) && !e.Quiet? {
      if Ends(e, op, t) && Silent(acts, es, k, t) {
        NowEnded(acts, es, a, e, k, t, op);
      }
    } else {
      if Silent(acts, es, k, t) {
        StaysSilent(acts, es, a, e, k, t);
      }
      if EndedOnce(acts, es, k, t, op) {
        StaysEnded(acts, es, a, e, k, t, op);
      }
    }
  }

  lemma OthersTracked(acts: seq<Action>, s: State, es: seq<Event>, a: Action, t: Tid)
    requires |es| == |acts| && Enabled(s, a) && !Of(a, t) && Tracked(acts, s, es, t)
    ensures Tracked(acts + [a], Next(s, a).0, es + [Next(s, a).1], t)
  {
    hide Next, Carries, Past, Ends, Alike, Enabled, Silent, EndedOnce, At;
    var (s', e) := Next(s, a);
    var all, events := acts + [a], es + [e];
    assert all[..|all| - 1] == acts;
    NextOthers(s, a, t);
    var k := LastCall(acts, t);
    if k.Some? {
      var op := acts[k.value].op;
      AlikeTracked(At(s, t), At(s', t), op);
      MoreEvents(acts, es, a, e, k.value, t, op);
      assert all[k.value].op == op;
    } else {
      AlikeTracked(At(s, t), At(s', t), Check);
      StaysSilent(acts, es, a, e, 0, t);
    }
  }

  lemma CallTracked(acts: seq<Action>, s: State, es: seq<Event>, a: Action, t: Tid)
    requires |es| == |acts| && Enabled(s, a) && a.Call? && a.thread == t
    ensures Tracked(acts + [a], Next(s, a).0, es + [Next(s, a).1], t)
  {
    hide Carries, Ends, Begin, MayCall;
    var (s', e) := Next(s, a);
    var all, events := acts + [a], es + [e];
    CallCarries(s, t, a.op);
    assert LastCall(all, t) == Some(|acts|) && all[|acts|].op == a.op;
    if a.op.Clear? {
      ClearSpeaks(e, a.op, t);
      assert Carries(At(s', t), a.op) || Speaks(all, events, |acts|, t);
    }
  }

  lemma ClearSpeaks(e: Event, op: Op, t: Tid)
    requires op.Clear?
    ensures Ends(e, op, t) ==> !e.Quiet?
    ensures forall pc :: !Carries(pc, op)
  {
  }

  lemma OutNotReady(s: State, t: Tid)
    requires At(s, t).Out?
    ensures !Enabled(s, Advance(t))
  {
  }

  lemma CarriesTracked(acts: seq<Action>, s: State, es: seq<Event>, a: Action, t: Tid)
    requires |es| == |acts| && Enabled(s, a) && a == Advance(t) && Placed(At(s, t), t, |s.cores|) && LastCall(acts, t).Some?
    requires var k := LastCall(acts, t).value; Carries(At(s, t), acts[k].op) && Silent(acts, es, k, t)
    ensures Tracked(acts + [a], Next(s, a).0, es + [Next(s, a).1], t)
  {
    hide Next, Carries, Past, Ends, Enabled, Silent, EndedOnce, At, Placed;
    var (s', e) := Next(s, a);
    var all := acts + [a];
    assert all[..|all| - 1] == acts;
    var k := LastCall(acts, t).value;
    var op := acts[k].op;
    assert LastCall(all, t) == Some(k) && all[k].op == op;
    StepCarries(s, t, op);
    MoreEvents(acts, es, a, e, k, t, op);
    EndsSpeaks(e, op, t);
    OutPast(op);
  }

  lemma EndsSpeaks(e: Event, op: Op, t: Tid)
    ensures Ends(e, op, t) ==> !e.Quiet? && !op.SetMask?
  {
  }

  lemma OutPast(op: Op)
    ensures Past(Out, op)
  {
  }

  lemma PastTracked(acts: seq<Action>, s: State, es: seq<Event>, a: Action, t: Tid)
    requires |es| == |acts| && Enabled(s, a) && a == Advance(t) && Placed(At(s, t), t, |s.cores|) && LastCall(acts, t).Some?
    requires var k := LastCall(acts, t).value; Past(At(s, t), acts[k].op) && Done(acts, es, k, t, acts[k].op)
    ensures Tracked(acts + [a], Next(s, a).0, es + [Next(s, a).1], t)
  {
    hide Next, Carries, Past, Ends, Enabled, Silent, EndedOnce, At, Placed;
    var (s', e) := Next(s, a);
    var all := acts + [a];
    assert all[..|all| - 1] == acts;
    var k := LastCall(acts, t).value;
    var op := acts[k].op;
    assert LastCall(all, t) == Some(k) && all[k].op == op;
    StepPast(s, t, op);
    MoreEvents(acts, es, a, e, k, t, op);
    OutPast(op);
  }

  // -------- runs

  lemma {:induction false} AllTracked(from: State, acts: seq<Action>, to: State, es: seq<Event>, t: Tid)
    requires Init(from) && Run(from, acts, to, es) && !t.TimerThread?
    ensures |es| == |acts| && Tracked(acts, to, es, t)
    decreases |acts|
  {
    hide Next, Enabled, Tracked, Valid, Init;
    if acts == [] {
      NoneTracked(from, t);
    } else {
      var n := |acts| - 1;
      var s, before, a := LastStep(from, acts, to, es);
      AllTracked(from, acts[..n], s, before, t);
      RunsStayValid(from, acts[..n], s, before);
      ValidPlace(s, t);
      StepTracked(acts[..n], s, before, a, t);
      assert acts[..n] + [a] == acts;
    }
  }

  lemma NoneTracked(s: State, t: Tid)
    requires Init(s) && !t.TimerThread?
    ensures Tracked([], s, [], t)
  {
  }

  lemma ValidPlace(s: State, t: Tid)
    requires Valid(s)
    ensures Placed(At(s, t), t, |s.cores|) && |s.cores| == CORES
  {
    hide MutexesOk, SleepOk, TimerOk;
  }

  /** Action j was taken in the state after the actions before it, and event j is its event. */
  lemma {:induction false} EventAt(from: State, acts: seq<Action>, to: State, es: seq<Event>, j: nat) returns (s: State)
    requires Run(from, acts, to, es) && j < |acts|
    ensures |es| == |acts| && Run(from, acts[..j], s, es[..j]) && Enabled(s, acts[j])
    ensures es[j] == Next(s, acts[j]).1 && Run(from, acts[..j + 1], Next(s, acts[j]).0, es[..j + 1])
    decreases |acts|
  {
    hide Next, Enabled;
    var n := |acts| - 1;
    var last, before, a := LastStep(from, acts, to, es);
    RunLength(from, acts[..n], last, before);
    if j == n {
      s := last;
      assert es[..j] == before && es[..j + 1] == es && acts[..j + 1] == acts;
    } else {
      s := EventAt(from, acts[..n], last, before, j);
      assert acts[..n][..j] == acts[..j] && acts[..n][..j + 1] == acts[..j + 1];
      assert es[..j] == before[..j] && es[..j + 1] == before[..j + 1];
    }
  }

  lemma {:induction false} RunLength(from: State, acts: seq<Action>, to: State, es: seq<Event>)
    requires Run(from, acts, to, es)
    ensures |es| == |acts|
    decreases |acts|
  {
    hide Next, Enabled;
    if acts != [] {
      var s, before, a := LastStep(from, acts, to, es);
      RunLength(from, acts[..|acts| - 1], s, before);
    }
  }

  /**
   * An event of a thread other than the timer belongs to the latest call of the thread and carries its arguments: what
   * is raised, armed and cleared is what was asked for, and only a core that checks or waits calls the handler.
   */
  lemma EventsOfCalls(from: State, acts: seq<Action>, to: State, es: seq<Event>, j: nat, t: Tid) returns (k: nat)
    requires Init(from) && Run(from, acts, to, es) && |es| == |acts| && Speaks(acts, es, j, t) && !t.TimerThread?
    ensures LastCall(acts[..j + 1], t) == Some(k)
    ensures match es[j]
            case Raised(c, f) => acts[k].op == Interrupt(c, f)
            case Armed(i, time) => t == CoreThread(i) && acts[k].op == SetAlarm(time)
            case Cleared(i, f) => t == CoreThread(i) && acts[k].op == Clear(f) && k == j
            case Handled(i, _) => t == CoreThread(i) && (acts[k].op == Check || acts[k].op == Wait)
            case _ => false
    ensures forall i :: k <= i < j ==> !Speaks(acts, es, i, t)
  {
    hide Carries, Past, Enabled, Next, Tracked;
    var s := EventAt(from, acts, to, es, j);
    var upTo, sofar := acts[..j + 1], es[..j + 1];
    AllTracked(from, upTo, Next(s, acts[j]).0, sofar, t);
    k := TrackedEvent(upTo, Next(s, acts[j]).0, sofar, t, j);
    assert forall i :: 0 <= i <= j ==> Speaks(upTo, sofar, i, t) == Speaks(acts, es, i, t);
    if es[j].Cleared? {
      ClearedNow(s, acts[j]);
      assert upTo[j].Call? && upTo[j].thread == t;
    }
  }

  /** If the last event is the thread's, it is the one of its latest call. */
  lemma TrackedEvent(acts: seq<Action>, s: State, es: seq<Event>, t: Tid, j: nat) returns (k: nat)
    requires |es| == |acts| && Tracked(acts, s, es, t) && j == |acts| - 1 && Speaks(acts, es, j, t)
    ensures LastCall(acts, t) == Some(k) && Ends(es[j], acts[k].op, t)
    ensures forall i :: k <= i < j ==> !Speaks(acts, es, i, t)
  {
    hide Carries, Past, Ends;
    assert !Silent(acts, es, 0, t);
    k := LastCall(acts, t).value;
    assert !Silent(acts, es, k, t);
  }

  lemma ClearedNow(s: State, a: Action)
    requires Enabled(s, a) && Next(s, a).1.Cleared?
    ensures a.Call?
  {
    hide WakeCores, WakeTimer;
  }

  /** No call of the thread of call k between k and end, where it calls again unless the run ends there. */
  predicate Until(acts: seq<Action>, k: nat, end: nat) {
    && k < end <= |acts| && acts[k].Call?
    && (forall i :: k < i < end ==> !(acts[i].Call? && acts[i].thread == acts[k].thread))
    && (end < |acts| ==> acts[end].Call? && acts[end].thread == acts[k].thread)
  }

  lemma LastIs(acts: seq<Action>, k: nat, t: Tid)
    requires k < |acts| && acts[k].Call? && acts[k].thread == t
    requires forall i :: k < i < |acts| ==> !(acts[i].Call? && acts[i].thread == t)
    ensures LastCall(acts, t) == Some(k)
  {
  }

  /**
   * Once a thread is back from a call, there has been exactly one event of it since the call, with the arguments of the
   * call: raised bits, the armed time, cleared bits, or a handler call for a core that waited. A check may also find
   * nothing to hand over, and setting the mask has no event.
   */
  lemma CallsDone(from: State, acts: seq<Action>, to: State, es: seq<Event>, k: nat, end: nat)
    requires Init(from) && Run(from, acts, to, es) && Until(acts, k, end)
    requires end < |acts| || At(to, acts[k].thread).Out?
    ensures |es| == |acts| && Done(acts[..end], es[..end], k, acts[k].thread, acts[k].op)
  {
    hide Next, Ends, Past, Carries, Silent, EndedOnce;
    var t := acts[k].thread;
    RunLength(from, acts, to, es);
    var s := to;
    if end < |acts| {
      s := EventAt(from, acts, to, es, end);
      OutCalls(s, acts[end]);
    } else {
      assert acts[..end] == acts && es[..end] == es;
    }
    TimerNeverCalls(from, acts, to, es, k);
    LastIs(acts[..end], k, t);
    AllTracked(from, acts[..end], s, es[..end], t);
    NotInside(acts[k].op);
    assert acts[..end][k].op == acts[k].op;
  }

  lemma NotInside(op: Op)
    ensures !Carries(Out, op)
  {
  }

  lemma OutCalls(s: State, a: Action)
    requires Enabled(s, a) && a.Call?
    ensures At(s, a.thread).Out? && !a.thread.TimerThread?
  {
  }

  lemma TimerNeverCalls(from: State, acts: seq<Action>, to: State, es: seq<Event>, k: nat)
    requires Run(from, acts, to, es) && k < |acts| && acts[k].Call?
    ensures !acts[k].thread.TimerThread?
  {
    hide Next;
    var s := EventAt(from, acts, to, es, k);
    OutCalls(s, acts[k]);
  }

  /** A thread that is back from interrupting a core has raised exactly those bits there, since the call. */
  lemma InterruptRaises(from: State, acts: seq<Action>, to: State, es: seq<Event>, t: Tid, k: nat, c: nat, f: set<nat>)
      returns (j: nat)
    requires Init(from) && Run(from, acts, to, es) && |es| == |acts| && At(to, t).Out?
    requires k < |acts| && acts[k] == Call(t, Interrupt(c, f))
    requires forall i :: k < i < |acts| ==> !(acts[i].Call? && acts[i].thread == t)
    ensures k < j < |acts| && acts[j] == Advance(t) && es[j] == Raised(c, f)
  {
    hide Next, Enabled, Tracked, Init, Run;
    CallsDone(from, acts, to, es, k, |acts|);
    assert acts[..|acts|] == acts && es[..|acts|] == es;
    j :| k <= j < |acts| && Speaks(acts, es, j, t) && Ends(es[j], Interrupt(c, f), t);
    var s := EventAt(from, acts, to, es, j);
    RaisedNow(s, acts[j]);
  }

  lemma RaisedNow(s: State, a: Action)
    requires Enabled(s, a) && Next(s, a).1.Raised?
    ensures a.Advance?
  {
    hide WakeCores, WakeTimer;
  }
}
