/** What every interleaving of interrupts, waits and alarms keeps. */
module InterruptsSafety {
  import opened Interrupts
  import opened Wrappers

  // -------- the invariant

  predicate HoldsInterrupt(pc: Pc) {
    pc.IntOr? || pc.IntNotify? || pc.WaitTake? || pc.TimerIntOr? || pc.TimerIntNotify? || pc.Aborted?
  }

  predicate HoldsTimer(pc: Pc) {
    pc.AlarmSet? || pc.AlarmNotify? || pc.TimerNow? || pc.TimerScan? || pc.TimerIntLock? || pc.TimerIntOr? || pc.TimerIntNotify?
  }

  /** Each mutex belongs to the one thread whose program counter is inside its section. */
  ghost predicate MutexesOk(s: State) {
    forall t :: (HoldsInterrupt(At(s, t)) <==> s.interruptMutex == Some(t))
                && (HoldsTimer(At(s, t)) <==> s.timerMutex == Some(t))
  }

  predicate OfTimer(pc: Pc) {
    pc.TimerLock? || pc.TimerNow? || pc.TimerScan? || pc.TimerIntLock? || pc.TimerIntOr? || pc.TimerIntNotify? || pc.TimerSleep?
  }

  predicate OfCore(pc: Pc) {
    pc.CheckTake? || pc.CheckCall? || pc.WaitLock? || pc.WaitTake? || pc.WaitCall? || pc.WaitSleep? || pc.AlarmLock?
    || pc.AlarmSet? || pc.AlarmNotify? || pc.Aborted?
  }

  /** A program counter that its thread may have. */
  predicate Placed(pc: Pc, t: Tid, n: nat) {
    && (OfTimer(pc) <==> t.TimerThread?)
    && (OfCore(pc) ==> t.CoreThread?)
    && (t.CoreThread? && !pc.Out? ==> t.index < n)
    && (pc.IntLock? || pc.IntOr? ==> pc.core < n)
  }

  /** Threads run only their own code. */
  ghost predicate PlacesOk(s: State) {
    |s.cores| == CORES && forall t :: Placed(At(s, t), t, |s.cores|)
  }

  predicate Notifying(pc: Pc) {
    pc.IntNotify? || pc.TimerIntNotify?
  }

  predicate Deliverable(c: Core) {
    c.interrupt * Passing(c) != {}
  }

  /** A core asleep and not notified has nothing deliverable, unless a notification is on its way. */
  predicate SleepOk(s: State) {
    forall i :: 0 <= i < |s.cores| && At(s, CoreThread(i)) == WaitSleep(false) && Deliverable(s.cores[i]) ==>
      s.interruptMutex.Some? && Notifying(At(s, s.interruptMutex.value))
  }

  predicate NotBefore(alarm: Option<nat>, next: Option<nat>) {
    alarm.Some? ==> next.Some? && next.value <= alarm.value
  }

  predicate AlarmsFrom(s: State, n: nat, next: Option<nat>) {
    forall k :: 0 <= k < n && k < |s.cores| ==> NotBefore(s.cores[k].alarm, next)
  }

  /** The timer's deadline is never later than an alarm it has looked at. */
  predicate TimerOk(s: State) {
    match At(s, TimerThread)
    case TimerScan(i, now, next) => now <= s.clock && AlarmsFrom(s, i, next)
    case TimerIntLock(i, now, next) => i < |s.cores| && now <= s.clock && AlarmsFrom(s, i + 1, next)
    case TimerIntOr(i, now, next) => i < |s.cores| && now <= s.clock && AlarmsFrom(s, i + 1, next)
    case TimerIntNotify(i, now, next) => i < |s.cores| && now <= s.clock && AlarmsFrom(s, i + 1, next)
    case TimerSleep(next, notified) =>
      notified || AlarmsFrom(s, |s.cores|, next) || (s.timerMutex.Some? && At(s, s.timerMutex.value).AlarmNotify?)
    case _ => true
  }

  ghost predicate Valid(s: State) {
    MutexesOk(s) && PlacesOk(s) && SleepOk(s) && TimerOk(s)
  }

  // -------- what a step of one thread leaves alone

  /** A thread that was at most woken. */
  predicate Alike(pc: Pc, pc': Pc) {
    pc' == pc || (pc.WaitSleep? && pc' == WaitSleep(true)) || (pc.TimerSleep? && pc' == TimerSleep(pc.next, true))
  }

  ghost predicate Others(s: State, s': State, t: Tid) {
    forall u :: u != t ==> Alike(At(s, u), At(s', u))
  }

  /** How a mutex passes from and to the thread that moves. */
  predicate Passed(before: Option<Tid>, after: Option<Tid>, t: Tid, held: bool, holds: bool) {
    if holds then after == Some(t) && (held || before == None)
    else after == if held then None else before
  }

  lemma MutexFrame(s: State, s': State, t: Tid)
    requires MutexesOk(s) && Others(s, s', t)
    requires Passed(s.interruptMutex, s'.interruptMutex, t, HoldsInterrupt(At(s, t)), HoldsInterrupt(At(s', t)))
    requires Passed(s.timerMutex, s'.timerMutex, t, HoldsTimer(At(s, t)), HoldsTimer(At(s', t)))
    ensures MutexesOk(s')
  {
    hide At;
    forall u ensures (HoldsInterrupt(At(s', u)) <==> s'.interruptMutex == Some(u))
                     && (HoldsTimer(At(s', u)) <==> s'.timerMutex == Some(u))
    {
      assert (HoldsInterrupt(At(s, u)) <==> s.interruptMutex == Some(u)) && (HoldsTimer(At(s, u)) <==> s.timerMutex == Some(u));
      assert (HoldsInterrupt(At(s, t)) <==> s.interruptMutex == Some(t)) && (HoldsTimer(At(s, t)) <==> s.timerMutex == Some(t));
      assert u != t ==> Alike(At(s, u), At(s', u));
    }
  }

  lemma PlacesFrame(s: State, s': State, t: Tid)
    requires PlacesOk(s) && Others(s, s', t) && |s'.cores| == |s.cores| && Placed(At(s', t), t, |s.cores|)
    ensures PlacesOk(s')
  {
    hide At;
    forall u ensures Placed(At(s', u), u, |s.cores|) {
      assert u != t ==> Alike(At(s, u), At(s', u));
    }
  }

  /** A step that raises nothing and does not notify. */
  lemma SleepFrame(s: State, s': State, t: Tid)
    requires SleepOk(s) && Others(s, s', t) && |s'.cores| == |s.cores| && !Notifying(At(s, t))
    requires s.interruptMutex.Some? && Notifying(At(s, s.interruptMutex.value)) ==> s'.interruptMutex == s.interruptMutex
    requires forall i :: 0 <= i < |s.cores| && CoreThread(i) != t && Deliverable(s'.cores[i]) ==> Deliverable(s.cores[i])
    requires At(s', t) == WaitSleep(false) && t.CoreThread? && t.index < |s.cores| ==> !Deliverable(s'.cores[t.index])
    ensures SleepOk(s')
  {
    hide At, Deliverable;
    forall i | 0 <= i < |s'.cores| && At(s', CoreThread(i)) == WaitSleep(false) && Deliverable(s'.cores[i])
      ensures s'.interruptMutex.Some? && Notifying(At(s', s'.interruptMutex.value))
    {
      assert CoreThread(i) != t;
      assert Alike(At(s, CoreThread(i)), At(s', CoreThread(i)));
      var owner := s.interruptMutex.value;
      assert Alike(At(s, owner), At(s', owner));
    }
  }

  /** A step of a thread other than the timer that sets no alarm. */
  lemma TimerFrame(s: State, s': State, t: Tid)
    requires TimerOk(s) && Others(s, s', t) && !t.TimerThread? && |s'.cores| == |s.cores| && s.clock <= s'.clock
    requires forall i :: 0 <= i < |s.cores| ==> s'.cores[i].alarm == s.cores[i].alarm
    requires At(s, t).AlarmNotify? ==> forall next :: At(s', TimerThread) != TimerSleep(next, false)
    requires s'.timerMutex == s.timerMutex || !(s.timerMutex.Some? && At(s, s.timerMutex.value).AlarmNotify?) || At(s, t).AlarmNotify?
    ensures TimerOk(s')
  {
    hide At;
    assert Alike(At(s, TimerThread), At(s', TimerThread));
    if s.timerMutex.Some? {
      var owner := s.timerMutex.value;
      assert owner != t ==> Alike(At(s, owner), At(s', owner));
    }
  }

  // -------- every action keeps the invariant

  lemma InitValid(s: State)
    requires Init(s)
    ensures Valid(s)
  {
  }

  lemma MovedAt(s: State, t: Tid, pc: Pc)
    ensures Others(s, Moved(s, t, pc), t) && At(Moved(s, t, pc), t) == pc
  {
  }

  lemma CallKeeps(s: State, t: Tid, op: Op)
    requires Valid(s) && MayCall(s, t, op)
    ensures Valid(Begin(s, t, op).0)
  {
    hide MutexesOk, PlacesOk, SleepOk, TimerOk, Others;
    var s' := Begin(s, t, op).0;
    assert Others(s, s', t) by { CallOthers(s, t, op); }
    MutexFrame(s, s', t);
    PlacesFrame(s, s', t);
    SleepFrame(s, s', t);
    TimerFrame(s, s', t);
  }

  lemma CallOthers(s: State, t: Tid, op: Op)
    requires MayCall(s, t, op)
    ensures Others(s, Begin(s, t, op).0, t)
  {
  }

  lemma WokenAt(s: State, t: Tid)
    ensures At(WakeCores(s), t) == Woken(At(s, t))
  {
  }

  /** The mutex is held by a thread about to notify. */
  lemma NotifyingNow(s: State, t: Tid)
    requires s.interruptMutex == Some(t) && Notifying(At(s, t))
    ensures SleepOk(s)
  {
  }

  /** Everyone has just been woken. */
  lemma AllAwake(s: State, t: Tid, pc: Pc)
    requires !pc.WaitSleep?
    ensures var s' := Moved(WakeCores(s).(interruptMutex := None), t, pc);
            SleepOk(s') && Others(s, s', t) && At(s', t) == pc
  {
    hide Deliverable;
    var s' := Moved(WakeCores(s).(interruptMutex := None), t, pc);
    forall u | u != t ensures At(s', u) == Woken(At(s, u)) {
      WokenAt(s, u);
    }
  }

  lemma IntKeeps(s: State, t: Tid)
    requires Valid(s) && Ready(s, t) && (At(s, t).IntLock? || At(s, t).IntOr? || At(s, t).IntNotify?)
    ensures Valid(IntStep(s, t).0)
  {
    hide MutexesOk, PlacesOk, SleepOk, TimerOk, Others, WakeCores, Deliverable;
    var s' := IntStep(s, t).0;
    Place(s, t);
    if At(s, t).IntNotify? {
      AllAwake(s, t, Out);
    } else {
      MovedAt(s, t, At(s', t));
      SameThreads(s, s', t);
      if At(s, t).IntOr? {
        NotifyingNow(s', t);
      } else {
        SleepFrame(s, s', t);
      }
    }
    MutexFrame(s, s', t);
    PlacesFrame(s, s', t);
    TimerFrame(s, s', t);
  }

  lemma Place(s: State, t: Tid)
    requires PlacesOk(s) && MutexesOk(s)
    ensures Placed(At(s, t), t, |s.cores|)
    ensures HoldsInterrupt(At(s, t)) <==> s.interruptMutex == Some(t)
    ensures HoldsTimer(At(s, t)) <==> s.timerMutex == Some(t)
  {
  }

  lemma SameThreads(s: State, s': State, t: Tid)
    requires s'.threads == s.threads[t := At(s', t)]
    ensures Others(s, s', t)
  {
  }

  lemma CoreKeeps(s: State, i: nat)
    requires Valid(s) && i < |s.cores| && Ready(s, CoreThread(i)) && OfCore(At(s, CoreThread(i)))
    ensures Valid(CoreStep(s, i).0)
  {
    hide MutexesOk, PlacesOk, SleepOk, TimerOk, Others;
    var s', t := CoreStep(s, i).0, CoreThread(i);
    Place(s, t);
    CoreOthers(s, i);
    MutexFrame(s, s', t);
    PlacesFrame(s, s', t);
    SleepFrame(s, s', t);
    if At(s, t).AlarmSet? {
      AlarmWaits(s, s', t);
    } else {
      TimerFrame(s, s', t);
    }
  }

  lemma CoreOthers(s: State, i: nat)
    requires i < |s.cores|
    ensures Others(s, CoreStep(s, i).0, CoreThread(i))
  {
    var s' := CoreStep(s, i).0;
    forall u | u != CoreThread(i) ensures Alike(At(s, u), At(s', u)) {
      hide Passing;
      if At(s, CoreThread(i)).AlarmNotify? {
        assert At(s', u) == At(WakeTimer(s), u);
      } else {
        assert At(s', u) == At(s, u);
      }
    }
  }

  /** A newly set alarm is about to be notified. */
  lemma AlarmWaits(s: State, s': State, t: Tid)
    requires MutexesOk(s) && s.timerMutex == Some(t) && !t.TimerThread? && At(s', TimerThread) == At(s, TimerThread)
    requires s'.timerMutex == Some(t) && At(s', t).AlarmNotify?
    ensures TimerOk(s')
  {
  }

  lemma TimerKeeps(s: State)
    requires Valid(s) && Ready(s, TimerThread)
    ensures Valid(TimerStep(s).0)
  {
    hide MutexesOk, PlacesOk, SleepOk, TimerOk, Others, WakeCores, Deliverable;
    var s', t, pc := TimerStep(s).0, TimerThread, At(s, TimerThread);
    Place(s, t);
    CoreCount(s);
    TimerInRange(s);
    if pc.TimerIntNotify? {
      AllAwake(s, t, TimerScan(pc.i + 1, pc.now, pc.next));
    } else {
      SameThreads(s, s', t);
      if pc.TimerIntOr? {
        NotifyingNow(s', t);
      } else {
        SameFlags(s, s');
        SleepFrame(s, s', t);
      }
    }
    MutexFrame(s, s', t);
    PlacesFrame(s, s', t);
    TimerGoesOn(s);
  }

  lemma SameFlags(s: State, s': State)
    requires |s'.cores| == |s.cores|
    requires forall i :: 0 <= i < |s.cores| ==>
               s'.cores[i].interrupt == s.cores[i].interrupt && s'.cores[i].mask == s.cores[i].mask
    ensures forall i :: 0 <= i < |s.cores| ==> Deliverable(s'.cores[i]) == Deliverable(s.cores[i])
  {
  }

  lemma CoreCount(s: State)
    requires PlacesOk(s)
    ensures |s.cores| == CORES
  {
  }

  lemma TimerInRange(s: State)
    requires TimerOk(s)
    ensures At(s, TimerThread).TimerIntOr? ==> At(s, TimerThread).i < |s.cores|
  {
  }

  /** The scan keeps its deadline at or before every alarm it has passed. */
  lemma TimerGoesOn(s: State)
    requires TimerOk(s) && OfTimer(At(s, TimerThread))
    ensures TimerOk(TimerStep(s).0)
  {
    hide WakeCores;
  }

  /** Any enabled action keeps the invariant. */
  lemma NextKeeps(s: State, a: Action)
    requires Valid(s) && Enabled(s, a)
    ensures Valid(Next(s, a).0)
  {
    hide MutexesOk, PlacesOk, SleepOk, TimerOk, Begin, IntStep, CoreStep, TimerStep, At;
    match a
    case Tick(d) => TickKeeps(s, d);
    case Call(t, op) => CallKeeps(s, t, op);
    case Advance(t) =>
      Place(s, t);
      var pc := At(s, t);
      if pc.IntLock? || pc.IntOr? || pc.IntNotify? {
        IntKeeps(s, t);
      } else if t.TimerThread? {
        TimerKeeps(s);
      } else if t.CoreThread? {
        CoreKeeps(s, t.index);
      }
  }

  lemma TickKeeps(s: State, d: nat)
    requires Valid(s)
    ensures Valid(s.(clock := s.clock + d))
  {
    hide Deliverable;
    var s' := s.(clock := s.clock + d);
    assert forall t :: At(s', t) == At(s, t);
  }
}
