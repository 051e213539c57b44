/** Whole runs of the interrupt protocol: no lost wakeups, no lost bits, no early or repeated alarms. */
module InterruptsRuns {
  import opened Interrupts
  import opened InterruptsSafety
  import opened Wrappers

  /** The state and the events after a sequence of actions, if each was enabled in its turn. */
  function Exec(from: State, acts: seq<Action>): Option<(State, seq<Event>)>
    decreases |acts|
  {
    if acts == [] then Some((from, []))
    else
      match Exec(from, acts[..|acts| - 1])
      case None => None
      case Some((s, es)) =>
        var a := acts[|acts| - 1];
        if Enabled(s, a) then Some((Next(s, a).0, es + [Next(s, a).1])) else None
  }

  predicate Run(from: State, acts: seq<Action>, to: State, es: seq<Event>) {
    Exec(from, acts) == Some((to, es))
  }

  /** The last action of a run. */
  lemma LastStep(from: State, acts: seq<Action>, to: State, es: seq<Event>) returns (s: State, before: seq<Event>, a: Action)
    requires Run(from, acts, to, es) && acts != []
    ensures Run(from, acts[..|acts| - 1], s, before) && a == acts[|acts| - 1] && Enabled(s, a)
    ensures to == Next(s, a).0 && es == before + [Next(s, a).1]
  {
    hide Enabled, Next;
    var r := Exec(from, acts[..|acts| - 1]).value;
    s, before, a := r.0, r.1, acts[|acts| - 1];
  }

  lemma {:induction false} RunsStayValid(from: State, acts: seq<Action>, to: State, es: seq<Event>)
    requires Init(from) && Run(from, acts, to, es)
    ensures Valid(to)
    decreases |acts|
  {
    hide Valid, Init, Enabled, Next;
    if acts == [] {
      InitValid(from);
    } else {
      var s, before, a := LastStep(from, acts, to, es);
      RunsStayValid(from, acts[..|acts| - 1], s, before);
      NextKeeps(s, a);
    }
  }

  // -------- wakeups and deadlines

  /** The thread is about to notify the sleeping cores, and its next step wakes this one. */
  predicate WakesCore(s: State, u: Tid, i: nat) {
    Notifying(At(s, u)) && Enabled(s, Advance(u)) && At(Next(s, Advance(u)).0, CoreThread(i)) == WaitSleep(true)
  }

  /**
   * A core asleep and not notified has no deliverable bit, unless the thread that raised one still holds the
   * mutex and its next step wakes the core.
   */
  lemma NoLostWakeup(from: State, acts: seq<Action>, to: State, es: seq<Event>, i: nat)
    requires Init(from) && Run(from, acts, to, es)
    requires i < |to.cores| && At(to, CoreThread(i)) == WaitSleep(false)
    ensures || to.cores[i].interrupt * (to.cores[i].mask + NONMASKABLE) == {}
            || (to.interruptMutex.Some? && WakesCore(to, to.interruptMutex.value, i))
  {
    hide Run;
    RunsStayValid(from, acts, to, es);
    if Deliverable(to.cores[i]) {
      NotifierWakes(to, to.interruptMutex.value, i);
    }
  }

  lemma NotifierWakes(s: State, u: Tid, i: nat)
    requires Valid(s) && Notifying(At(s, u)) && At(s, CoreThread(i)) == WaitSleep(false)
    ensures WakesCore(s, u, i)
  {
    hide MutexesOk, SleepOk, TimerOk;
    Place(s, u);
  }

  /** The thread is about to notify the timer, and its next step wakes it. */
  predicate WakesTimer(s: State, u: Tid, next: Option<nat>) {
    At(s, u).AlarmNotify? && Enabled(s, Advance(u)) && At(Next(s, Advance(u)).0, TimerThread) == TimerSleep(next, true)
  }

  /** A sleeping timer that was not notified wakes by every alarm, unless the thread that set one is about to wake it. */
  lemma DeadlineCoversAlarms(from: State, acts: seq<Action>, to: State, es: seq<Event>, i: nat, next: Option<nat>)
    requires Init(from) && Run(from, acts, to, es)
    requires i < |to.cores| && At(to, TimerThread) == TimerSleep(next, false) && to.cores[i].alarm.Some?
    ensures || (next.Some? && next.value <= to.cores[i].alarm.value)
            || (to.timerMutex.Some? && WakesTimer(to, to.timerMutex.value, next))
  {
    hide Run, MutexesOk, PlacesOk, SleepOk;
    RunsStayValid(from, acts, to, es);
    if AlarmsFrom(to, |to.cores|, next) {
      assert NotBefore(to.cores[i].alarm, next);
    } else {
      SetterWakes(to, to.timerMutex.value, next);
    }
  }

  lemma SetterWakes(s: State, u: Tid, next: Option<nat>)
    requires Valid(s) && At(s, u).AlarmNotify? && At(s, TimerThread) == TimerSleep(next, false)
    ensures WakesTimer(s, u, next)
  {
    hide MutexesOk, SleepOk, TimerOk;
    Place(s, u);
  }

  /** A thread that waits for a mutex waits for a thread that can go on, at most one mutex further. */
  lemma NoDeadlock(from: State, acts: seq<Action>, to: State, es: seq<Event>, t: Tid)
    requires Init(from) && Run(from, acts, to, es) && forall u :: !At(to, u).Aborted?
    requires !At(to, t).Out? && !Ready(to, t)
    ensures exists u :: Ready(to, u) && (to.interruptMutex == Some(u) || to.timerMutex == Some(u))
  {
    hide Run, SleepOk, TimerOk;
    RunsStayValid(from, acts, to, es);
    if to.interruptMutex.Some? {
      var u := to.interruptMutex.value;
      Place(to, u);
      assert Ready(to, u);
    } else {
      var u := to.timerMutex.value;
      Place(to, u);
      assert Ready(to, u);
    }
  }

  // -------- bits

  /** Bits a core has taken and is about to hand to its handler. */
  function InFlight(s: State, i: nat): set<nat> {
    match At(s, CoreThread(i))
    case CheckCall(f) => f
    case WaitCall(f) => f
    case _ => {}
  }

  predicate Present(s: State, i: nat, b: nat) {
    i < |s.cores| && (b in s.cores[i].interrupt || b in InFlight(s, i))
  }

  /** The event clears the bit or hands it to the handler. */
  predicate Gone(e: Event, i: nat, b: nat) {
    (e.Cleared? || e.Handled?) && e.core == i && b in e.flags
  }

  lemma BitStays(s: State, a: Action, i: nat, b: nat)
    requires Valid(s) && Enabled(s, a) && Present(s, i, b)
    ensures Present(Next(s, a).0, i, b) || Gone(Next(s, a).1, i, b)
  {
    hide MutexesOk, SleepOk, TimerOk, Present, Begin, IntStep, CoreStep, TimerStep;
    match a
    case Tick(_) => BitStaysTick(s, a.passed, i, b);
    case Call(t, op) => BitStaysCall(s, t, op, i, b);
    case Advance(t) =>
      Place(s, t);
      BitStaysOther(s, t, i, b);
      if t.CoreThread? {
        BitStaysCore(s, t.index, i, b);
      }
  }

  lemma BitStaysTick(s: State, d: nat, i: nat, b: nat)
    requires Present(s, i, b)
    ensures Present(s.(clock := s.clock + d), i, b)
  {
  }

  lemma BitStaysCall(s: State, t: Tid, op: Op, i: nat, b: nat)
    requires MayCall(s, t, op) && Present(s, i, b)
    ensures Present(Begin(s, t, op).0, i, b) || Gone(Begin(s, t, op).1, i, b)
  {
  }

  /** A core loses a bit only by taking it, which puts it in flight, or by handing it over. */
  lemma BitStaysCore(s: State, j: nat, i: nat, b: nat)
    requires j < |s.cores| && Present(s, i, b)
    ensures Present(CoreStep(s, j).0, i, b) || Gone(CoreStep(s, j).1, i, b)
  {
  }

  lemma BitStaysOther(s: State, t: Tid, i: nat, b: nat)
    requires Present(s, i, b) && Placed(At(s, t), t, |s.cores|)
    ensures At(s, t).IntLock? || At(s, t).IntOr? || At(s, t).IntNotify? ==> Present(IntStep(s, t).0, i, b)
    ensures t.TimerThread? ==> Present(TimerStep(s).0, i, b)
  {
    WokenAt(s, CoreThread(i));
    hide WakeCores;
  }

  lemma RaisedIsPresent(s: State, a: Action)
    requires Valid(s) && Enabled(s, a) && Next(s, a).1.Raised?
    ensures forall b :: b in Next(s, a).1.flags ==> Present(Next(s, a).0, Next(s, a).1.core, b)
  {
    hide MutexesOk, SleepOk, TimerOk, WakeCores, InFlight;
    if a.Advance? {
      Place(s, a.thread);
    }
  }

  /** A raised bit is pending or on its way to the handler, or was cleared or handled since. */
  ghost predicate Accounted(s: State, es: seq<Event>) {
    forall k, b :: 0 <= k < |es| && es[k].Raised? && b in es[k].flags ==>
      Present(s, es[k].core, b) || exists j :: k < j < |es| && Gone(es[j], es[k].core, b)
  }

  /** Over every run, no raised bit is lost. */
  lemma {:induction false} NoLostBits(from: State, acts: seq<Action>, to: State, es: seq<Event>)
    requires Init(from) && Run(from, acts, to, es)
    ensures Accounted(to, es)
    decreases |acts|
  {
    hide Valid, Init, Enabled, Next, Present, Gone;
    if acts != [] {
      var s, before, a := LastStep(from, acts, to, es);
      NoLostBits(from, acts[..|acts| - 1], s, before);
      RunsStayValid(from, acts[..|acts| - 1], s, before);
      var n := |before|;
      forall k, b | 0 <= k < |es| && es[k].Raised? && b in es[k].flags
        ensures Present(to, es[k].core, b) || exists j :: k < j < |es| && Gone(es[j], es[k].core, b)
      {
        if k == n {
          RaisedIsPresent(s, a);
        } else {
          assert before[k] == es[k];
          if Present(s, es[k].core, b) {
            BitStays(s, a, es[k].core, b);
            assert es[n] == Next(s, a).1;
          } else {
            var j :| k < j < |before| && Gone(before[j], es[k].core, b);
            assert es[j] == before[j];
          }
        }
      }
    }
  }

  // -------- alarms

  /** The alarm the events leave armed. */
  function Due(es: seq<Event>, i: nat): Option<nat> {
    if es == [] then None
    else
      var e := es[|es| - 1];
      if e.Armed? && e.core == i then e.time
      else if e.Fired? && e.core == i then None
      else Due(es[..|es| - 1], i)
  }

  lemma AlarmFollows(s: State, a: Action, i: nat)
    requires Valid(s) && Enabled(s, a) && i < |s.cores|
    ensures i < |Next(s, a).0.cores|
    ensures var e, after := Next(s, a).1, Next(s, a).0.cores[i].alarm;
            after == if e.Armed? && e.core == i then e.time
                     else if e.Fired? && e.core == i then None else s.cores[i].alarm
    ensures var e := Next(s, a).1;
            e.Fired? && e.core == i ==> s.cores[i].alarm == Some(e.due) && e.due <= e.at == s.clock
  {
    hide MutexesOk, SleepOk, WakeCores;
    if a.Advance? {
      Place(s, a.thread);
    }
  }

  /** Every alarm fires for the setting that is still armed, at or after its time. */
  predicate FiresRightly(es: seq<Event>) {
    forall k :: 0 <= k < |es| && es[k].Fired? ==> Due(es[..k], es[k].core) == Some(es[k].due) && es[k].due <= es[k].at
  }

  /** Over every run each setting of an alarm fires at most once and never early. */
  lemma {:induction false} AlarmsFireRightly(from: State, acts: seq<Action>, to: State, es: seq<Event>)
    requires Init(from) && Run(from, acts, to, es)
    ensures FiresRightly(es) && forall i :: 0 <= i < |to.cores| ==> to.cores[i].alarm == Due(es, i)
    decreases |acts|
  {
    hide Valid, Enabled, Next;
    if acts != [] {
      var s, before, a := LastStep(from, acts, to, es);
      AlarmsFireRightly(from, acts[..|acts| - 1], s, before);
      RunsStayValid(from, acts[..|acts| - 1], s, before);
      SameCount(s, a);
      var n, e := |before|, Next(s, a).1;
      assert es[..n] == before && es[n] == e;
      forall i | 0 <= i < |to.cores| ensures to.cores[i].alarm == Due(es, i) {
        AlarmFollows(s, a, i);
      }
      forall k | 0 <= k < |es| && es[k].Fired?
        ensures Due(es[..k], es[k].core) == Some(es[k].due) && es[k].due <= es[k].at
      {
        if k == n {
          FiredCore(s, a);
          AlarmFollows(s, a, e.core);
        } else {
          assert es[k] == before[k] && es[..k] == before[..k];
        }
      }
    }
  }

  lemma SameCount(s: State, a: Action)
    requires Enabled(s, a)
    ensures |Next(s, a).0.cores| == |s.cores|
  {
    hide WakeCores;
  }

  lemma FiredCore(s: State, a: Action)
    requires Enabled(s, a) && Next(s, a).1.Fired?
    ensures Next(s, a).1.core < |s.cores|
  {
    hide WakeCores;
  }
}
