/**
 * Inter-processor interrupts and alarms: threads that take two mutexes, sleep on two condition
 * variables and change per-core flags, interleaved at every atomic access.
 */
module Interrupts {
  import opened Wrappers

  const CORES: nat := 3

  /** Interrupt words are sets of bit numbers. */
  const NONMASKABLE: set<nat> := {0}
  const ALARM: set<nat> := {2}

  /** A core's pending bits, its mask and its next alarm; no alarm is the far end of time. */
  datatype Core = Core(interrupt: set<nat>, mask: set<nat>, alarm: Option<nat>)

  datatype Tid = CoreThread(index: nat) | TimerThread | Device(id: nat)

  /** Where a thread is. */
  datatype Pc =
    | Out
    // interrupt
    | IntLock(core: nat, flags: set<nat>)
    | IntOr(core: nat, flags: set<nat>)
    | IntNotify
    // checkInterrupts
    | CheckTake
    | CheckCall(taken: set<nat>)
    // waitForInterrupt
    | WaitLock
    | WaitTake
    | WaitCall(taken: set<nat>)
    | WaitSleep(notified: bool)
    // setNextAlarm
    | AlarmLock(time: Option<nat>)
    | AlarmSet(time: Option<nat>)
    | AlarmNotify
    // the timer thread
    | TimerLock
    | TimerNow
    | TimerScan(i: nat, now: nat, next: Option<nat>)
    | TimerIntLock(i: nat, now: nat, next: Option<nat>)
    | TimerIntOr(i: nat, now: nat, next: Option<nat>)
    | TimerIntNotify(i: nat, now: nat, next: Option<nat>)
    | TimerSleep(next: Option<nat>, notified: bool)
    | Aborted

  datatype State = State(
    cores: seq<Core>,
    clock: nat,
    interruptMutex: Option<Tid>,
    timerMutex: Option<Tid>,
    threads: map<Tid, Pc>)

  datatype Op =
    | Interrupt(core: nat, flags: set<nat>)
    | Check
    | Wait
    | Clear(flags: set<nat>)
    | SetMask(mask: set<nat>)
    | SetAlarm(time: Option<nat>)

  datatype Action = Tick(passed: nat) | Call(thread: Tid, op: Op) | Advance(thread: Tid)

  datatype Event =
    | Quiet
    | Raised(core: nat, flags: set<nat>)
    | Cleared(core: nat, flags: set<nat>)
    | Handled(core: nat, flags: set<nat>)
    | Armed(core: nat, time: Option<nat>)
    | Fired(core: nat, due: nat, at: nat)

  /** Nothing pending, no alarm set, and only the timer thread running. */
  predicate Init(s: State) {
    && |s.cores| == CORES && (forall i :: 0 <= i < |s.cores| ==> s.cores[i].interrupt == {} && s.cores[i].alarm == None)
    && s.interruptMutex == None && s.timerMutex == None && s.threads == map[TimerThread := TimerLock]
  }

  function At(s: State, t: Tid): Pc {
    if t in s.threads then s.threads[t] else Out
  }

  function Moved(s: State, t: Tid, pc: Pc): State {
    s.(threads := s.threads[t := pc])
  }

  function WithCore(s: State, i: nat, c: Core): State
    requires i < |s.cores|
  {
    s.(cores := s.cores[i := c])
  }

  /** Bits that a core acts on: those its mask lets through and those no mask stops. */
  function Passing(c: Core): set<nat> {
    c.mask + NONMASKABLE
  }

  // -------- notify_all

  function Woken(pc: Pc): Pc {
    match pc
    case WaitSleep(_) => WaitSleep(true)
    case _ => pc
  }

  function WakeCores(s: State): (r: State)
    ensures r == s.(threads := r.threads)
  {
    s.(threads := map t | t in s.threads :: Woken(s.threads[t]))
  }

  function WakeTimer(s: State): State {
    match At(s, TimerThread)
    case TimerSleep(next, _) => Moved(s, TimerThread, TimerSleep(next, true))
    case _ => s
  }

  // -------- steps

  /** What a thread may call, and when. */
  predicate MayCall(s: State, t: Tid, op: Op) {
    At(s, t).Out? && !t.TimerThread? && (t.CoreThread? ==> t.index < |s.cores|)
    && match op
       case Interrupt(c, _) => c < |s.cores|
       case _ => t.CoreThread?
  }

  /** A thread that asks for a mutex can go on only while it is free. */
  predicate Ready(s: State, t: Tid) {
    match At(s, t)
    case Out => false
    case Aborted => false
    case IntLock(_, _) => s.interruptMutex.None?
    case WaitLock => s.interruptMutex.None?
    case WaitSleep(_) => s.interruptMutex.None?
    case TimerIntLock(_, _, _) => s.interruptMutex.None?
    case AlarmLock(_) => s.timerMutex.None?
    case TimerLock => s.timerMutex.None?
    case TimerSleep(_, _) => s.timerMutex.None?
    case _ => true
  }

  predicate Enabled(s: State, a: Action) {
    match a
    case Tick(_) => true
    case Call(t, op) => MayCall(s, t, op)
    case Advance(t) => Ready(s, t) && (t.CoreThread? ==> t.index < |s.cores|)
  }

  function Begin(s: State, t: Tid, op: Op): (State, Event)
    requires MayCall(s, t, op)
  {
    match op
    case Interrupt(c, f) => (Moved(s, t, IntLock(c, f)), Quiet)
    case Check => (Moved(s, t, CheckTake), Quiet)
    case Wait => (Moved(s, t, WaitLock), Quiet)
    case SetAlarm(time) => (Moved(s, t, AlarmLock(time)), Quiet)
    case Clear(f) =>
      var c := s.cores[t.index];
      (WithCore(s, t.index, c.(interrupt := c.interrupt - f)), Cleared(t.index, f))
    case SetMask(m) => (WithCore(s, t.index, s.cores[t.index].(mask := m)), Quiet)
  }

  /**
   * The step of a core inside checkInterrupts, waitForInterrupt or setNextAlarm. With the handler called a core is out of
   * the operation: what the handler does, and its return into the waiting loop, are calls of their own.
   */
  function CoreStep(s: State, i: nat): (State, Event)
    requires i < |s.cores|
  {
    var t, c := CoreThread(i), s.cores[i];
    var pending := c.interrupt;
    var left := WithCore(s, i, c.(interrupt := pending - Passing(c)));
    match At(s, t)
    case CheckTake => (Moved(left, t, if pending * Passing(c) != {} then CheckCall(pending) else Out), Quiet)
    case CheckCall(f) => (Moved(s, t, Out), Handled(i, f))
    case WaitLock => (Moved(s.(interruptMutex := Some(t)), t, WaitTake), Quiet)
    case WaitTake =>
      if c.mask - NONMASKABLE == {} then (Moved(s, t, Aborted), Quiet)
      else if pending * Passing(c) != {} then (Moved(left.(interruptMutex := None), t, WaitCall(pending)), Quiet)
      else (Moved(left.(interruptMutex := None), t, WaitSleep(false)), Quiet)
    case WaitCall(f) => (Moved(s, t, Out), Handled(i, f))
    case WaitSleep(_) => (Moved(s.(interruptMutex := Some(t)), t, WaitTake), Quiet)
    case AlarmLock(time) => (Moved(s.(timerMutex := Some(t)), t, AlarmSet(time)), Quiet)
    case AlarmSet(time) => (Moved(WithCore(s, i, c.(alarm := time)), t, AlarmNotify), Armed(i, time))
    case AlarmNotify => (Moved(WakeTimer(s).(timerMutex := None), t, Out), Quiet)
    case _ => (s, Quiet)
  }

  function TimerStep(s: State): (State, Event) {
    var t := TimerThread;
    match At(s, t)
    case TimerLock => (Moved(s.(timerMutex := Some(t)), t, TimerNow), Quiet)
    case TimerNow => (Moved(s, t, TimerScan(0, s.clock, None)), Quiet)
    case TimerScan(i, now, next) =>
      if i >= |s.cores| then (Moved(s.(timerMutex := None), t, TimerSleep(next, false)), Quiet)
      else
        var c := s.cores[i];
        if c.alarm.Some? && c.alarm.value <= now then
          (Moved(WithCore(s, i, c.(alarm := None)), t, TimerIntLock(i, now, next)), Fired(i, c.alarm.value, s.clock))
        else (Moved(s, t, TimerScan(i + 1, now, Earlier(c.alarm, next))), Quiet)
    case TimerIntLock(i, now, next) => (Moved(s.(interruptMutex := Some(t)), t, TimerIntOr(i, now, next)), Quiet)
    case TimerIntOr(i, now, next) =>
      if i >= |s.cores| then (s, Quiet)
      else
        var c := s.cores[i];
        (Moved(WithCore(s, i, c.(interrupt := c.interrupt + ALARM)), t, TimerIntNotify(i, now, next)), Raised(i, ALARM))
    case TimerIntNotify(i, now, next) =>
      (Moved(WakeCores(s).(interruptMutex := None), t, TimerScan(i + 1, now, next)), Quiet)
    case TimerSleep(_, _) => (Moved(s, t, TimerLock), Quiet)
    case _ => (s, Quiet)
  }

  function Earlier(a: Option<nat>, next: Option<nat>): Option<nat> {
    if a.Some? && (next.None? || a.value < next.value) then a else next
  }

  function IntStep(s: State, t: Tid): (State, Event) {
    match At(s, t)
    case IntLock(c, f) => (Moved(s.(interruptMutex := Some(t)), t, IntOr(c, f)), Quiet)
    case IntOr(c, f) =>
      if c >= |s.cores| then (s, Quiet)
      else
        (Moved(WithCore(s, c, s.cores[c].(interrupt := s.cores[c].interrupt + f)), t, IntNotify), Raised(c, f))
    case IntNotify => (Moved(WakeCores(s).(interruptMutex := None), t, Out), Quiet)
    case _ => (s, Quiet)
  }

  function Next(s: State, a: Action): (State, Event)
    requires Enabled(s, a)
  {
    match a
    case Tick(d) => (s.(clock := s.clock + d), Quiet)
    case Call(t, op) => Begin(s, t, op)
    case Advance(t) =>
      var pc := At(s, t);
      if pc.IntLock? || pc.IntOr? || pc.IntNotify? then IntStep(s, t)
      else if t.TimerThread? then TimerStep(s)
      else if t.CoreThread? then CoreStep(s, t.index)
      else (s, Quiet)
  }
}
