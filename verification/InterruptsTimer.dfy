/** The timer over whole runs: every alarm it fires is raised, every due alarm fires, and it sleeps until the next one. */
module InterruptsTimer {
  import opened Interrupts
  import opened InterruptsSafety
  import opened InterruptsRuns
  import opened InterruptsCalls
  import opened Wrappers

  // -------- fired alarms are raised

  /** The timer is about to raise the alarm bit of a core. */
  predicate AboutTo(pc: Pc, i: nat) {
    (pc.TimerIntLock? || pc.TimerIntOr?) && pc.i == i
  }

  /** The next event of the timer after event j raises the alarm bit of core i. */
  ghost predicate RaisedNext(acts: seq<Action>, es: seq<Event>, j: nat, i: nat)
    requires |es| == |acts|
  {
    exists m :: j < m < |acts| && Speaks(acts, es, m, TimerThread) && es[m] == Raised(i, {2})
                && forall n :: j < n < m ==> !Speaks(acts, es, n, TimerThread)
  }

  /** Every alarm the timer fired has been raised next, or it is about to be. */
  ghost predicate FiredTracked(acts: seq<Action>, s: State, es: seq<Event>)
    requires |es| == |acts|
  {
    forall j :: 0 <= j < |acts| && es[j].Fired? ==>
      || RaisedNext(acts, es, j, es[j].core)
      || (AboutTo(At(s, TimerThread), es[j].core) && Silent(acts, es, j + 1, TimerThread))
  }

  /** A step of the timer: one that is about to raise an alarm goes on to do so, and only another one fires an alarm. */
  lemma TimerStepFired(s: State, i: nat)
    requires Enabled(s, Advance(TimerThread)) && AboutTo(At(s, TimerThread), i) && i < |s.cores|
    ensures var (s', e) := Next(s, Advance(TimerThread));
            (e.Quiet? && AboutTo(At(s', TimerThread), i)) || e == Raised(i, {2})
  {
    hide WakeCores;
  }

  lemma FiredBy(s: State, a: Action)
    requires Enabled(s, a) && Next(s, a).1.Fired?
    ensures a == Advance(TimerThread) && At(s, TimerThread).TimerScan?
    ensures AboutTo(At(Next(s, a).0, TimerThread), Next(s, a).1.core) && Next(s, a).1.core < |s.cores|
  {
    hide WakeCores, WakeTimer;
  }

  lemma AlikeAbout(pc: Pc, pc': Pc, i: nat)
    requires Alike(pc, pc') && AboutTo(pc, i)
    ensures AboutTo(pc', i)
  {
  }

  lemma StepFired(acts: seq<Action>, s: State, es: seq<Event>, a: Action)
    requires |es| == |acts| && Valid(s) && Enabled(s, a) && FiredTracked(acts, s, es)
    ensures FiredTracked(acts + [a], Next(s, a).0, es + [Next(s, a).1])
  {
    hide Next, Enabled, Valid, AboutTo, Alike;
    var (s', e) := Next(s, a);
    var all, events := acts + [a], es + [e];
    assert forall i :: 0 <= i < |acts| ==> Speaks(all, events, i, TimerThread) == Speaks(acts, es, i, TimerThread);
    forall j | 0 <= j < |all| && events[j].Fired?
      ensures || RaisedNext(all, events, j, events[j].core)
              || (AboutTo(At(s', TimerThread), events[j].core) && Silent(all, events, j + 1, TimerThread))
    {
      if j == |acts| {
        FiredBy(s, a);
      } else if RaisedNext(acts, es, j, es[j].core) {
        var m :| j < m < |acts| && Speaks(acts, es, m, TimerThread) && es[m] == Raised(es[j].core, {2})
                 && forall n :: j < n < m ==> !Speaks(acts, es, n, TimerThread);
        assert Speaks(all, events, m, TimerThread) && events[m] == es[m];
      } else {
        StepAbout(s, a, es[j].core);
        if a == Advance(TimerThread) && !e.Quiet? {
          assert Speaks(all, events, |acts|, TimerThread) && events[|acts|] == Raised(es[j].core, {2});
        } else {
          assert !Speaks(all, events, |acts|, TimerThread);
        }
      }
    }
  }

  lemma StepAbout(s: State, a: Action, i: nat)
    requires Valid(s) && Enabled(s, a) && AboutTo(At(s, TimerThread), i)
    ensures var (s', e) := Next(s, a);
            || (a == Advance(TimerThread) && e == Raised(i, {2}))
            || (AboutTo(At(s', TimerThread), i) && (Of(a, TimerThread) ==> e.Quiet?))
  {
    hide Next;
    if Of(a, TimerThread) {
      TimerAdvances(s, a);
      AboutInRange(s, i);
      TimerStepFired(s, i);
    } else {
      NextOthers(s, a, TimerThread);
      AlikeAbout(At(s, TimerThread), At(Next(s, a).0, TimerThread), i);
    }
  }

  lemma TimerAdvances(s: State, a: Action)
    requires Enabled(s, a) && Of(a, TimerThread)
    ensures a == Advance(TimerThread)
  {
  }

  lemma AboutInRange(s: State, i: nat)
    requires Valid(s) && AboutTo(At(s, TimerThread), i)
    ensures i < |s.cores|
  {
    hide MutexesOk, SleepOk, PlacesOk;
  }

  lemma {:induction false} AllFired(from: State, acts: seq<Action>, to: State, es: seq<Event>)
    requires Init(from) && Run(from, acts, to, es)
    ensures |es| == |acts| && FiredTracked(acts, to, es)
    decreases |acts|
  {
    hide Next, Enabled, FiredTracked, Valid, Init;
    RunLength(from, acts, to, es);
    if acts == [] {
      assert FiredTracked([], from, []) by { NoneFired(from); }
    } else {
      var n := |acts| - 1;
      var s, before, a := LastStep(from, acts, to, es);
      AllFired(from, acts[..n], s, before);
      RunsStayValid(from, acts[..n], s, before);
      StepFired(acts[..n], s, before, a);
      assert acts[..n] + [a] == acts;
    }
  }

  lemma NoneFired(s: State)
    ensures FiredTracked([], s, [])
  {
  }

  /** Whenever the timer is asleep, every alarm it has fired so far was raised by the next event of the timer. */
  lemma FiredThenRaised(from: State, acts: seq<Action>, to: State, es: seq<Event>, j: nat) returns (m: nat)
    requires Init(from) && Run(from, acts, to, es) && |es| == |acts| && j < |acts| && es[j].Fired?
    requires At(to, TimerThread).TimerSleep?
    ensures j < m < |acts| && acts[m] == Advance(TimerThread) && es[m] == Raised(es[j].core, {2})
    ensures forall n :: j < n < m ==> !Speaks(acts, es, n, TimerThread)
  {
    hide Run, Init;
    AllFired(from, acts, to, es);
    assert RaisedNext(acts, es, j, es[j].core);
    m :| j < m < |acts| && Speaks(acts, es, m, TimerThread) && es[m] == Raised(es[j].core, {2})
         && forall n :: j < n < m ==> !Speaks(acts, es, n, TimerThread);
    var s := EventAt(from, acts, to, es, m);
    TimerAdvances(s, acts[m]);
  }

  // -------- due alarms fire, and the timer sleeps until the first that is not

  /** The scan has left no due alarm behind it among the first n cores, and its deadline is the first of theirs. */
  predicate Scanned(cores: seq<Core>, n: nat, now: nat, next: Option<nat>) {
    && n <= |cores|
    && (forall k :: 0 <= k < n && cores[k].alarm.Some? ==>
          cores[k].alarm.value > now && next.Some? && next.value <= cores[k].alarm.value)
    && (next.Some? ==> exists k :: 0 <= k < n && cores[k].alarm == next)
  }

  predicate ScanOk(s: State) {
    match At(s, TimerThread)
    case TimerScan(i, now, next) => Scanned(s.cores, i, now, next)
    case TimerIntLock(i, now, next) => i < |s.cores| && s.cores[i].alarm == None && Scanned(s.cores, i, now, next)
    case TimerIntOr(i, now, next) => i < |s.cores| && s.cores[i].alarm == None && Scanned(s.cores, i, now, next)
    case TimerIntNotify(i, now, next) => i < |s.cores| && s.cores[i].alarm == None && Scanned(s.cores, i, now, next)
    case _ => true
  }

  lemma ScanSteps(s: State)
    requires ScanOk(s) && Enabled(s, Advance(TimerThread)) && OfTimer(At(s, TimerThread))
    ensures ScanOk(Next(s, Advance(TimerThread)).0)
  {
    hide WakeCores;
    var s' := Next(s, Advance(TimerThread)).0;
    var pc := At(s, TimerThread);
    if pc.TimerScan? && pc.i < |s.cores| {
      ScanOne(s.cores, pc.i, pc.now, pc.next);
      ScanFires(s.cores, pc.i, pc.now, pc.next);
    } else if pc.TimerIntOr? {
      SameAlarms(s.cores, s'.cores, pc.i, pc.now, pc.next);
    } else if pc.TimerIntNotify? {
      ScanOne(s.cores, pc.i, pc.now, pc.next);
    }
  }

  lemma ScanOne(cores: seq<Core>, i: nat, now: nat, next: Option<nat>)
    requires i < |cores| && Scanned(cores, i, now, next)
    ensures !(cores[i].alarm.Some? && cores[i].alarm.value <= now) ==> Scanned(cores, i + 1, now, Earlier(cores[i].alarm, next))
  {
    var e := Earlier(cores[i].alarm, next);
    if !(cores[i].alarm.Some? && cores[i].alarm.value <= now) && e.Some? {
      if e == next {
        var k :| 0 <= k < i && cores[k].alarm == next;
        assert cores[k].alarm == e;
      } else {
        assert cores[i].alarm == e;
      }
    }
  }

  lemma ScanFires(cores: seq<Core>, i: nat, now: nat, next: Option<nat>)
    requires i < |cores| && Scanned(cores, i, now, next)
    ensures Scanned(cores[i := cores[i].(alarm := None)], i, now, next)
  {
    var after := cores[i := cores[i].(alarm := None)];
    if next.Some? {
      var k :| 0 <= k < i && cores[k].alarm == next;
      assert after[k].alarm == next;
    }
  }

  lemma SameAlarms(cores: seq<Core>, after: seq<Core>, i: nat, now: nat, next: Option<nat>)
    requires Scanned(cores, i, now, next) && |after| == |cores|
    requires forall k :: 0 <= k < |cores| ==> after[k].alarm == cores[k].alarm
    ensures Scanned(after, i, now, next)
  {
    if next.Some? {
      var k :| 0 <= k < i && cores[k].alarm == next;
      assert after[k].alarm == next;
    }
  }

  /** While the timer scans, it holds its mutex, so nobody else changes an alarm. */
  lemma OthersScan(s: State, a: Action)
    requires Valid(s) && ScanOk(s) && Enabled(s, a) && !Of(a, TimerThread)
    ensures ScanOk(Next(s, a).0)
  {
    hide Next, Scanned, Enabled;
    var s' := Next(s, a).0;
    NextOthers(s, a, TimerThread);
    var pc := At(s, TimerThread);
    if pc.TimerScan? || pc.TimerIntLock? || pc.TimerIntOr? || pc.TimerIntNotify? {
      NoArming(s, a);
      SameAlarms(s.cores, s'.cores, pc.i, pc.now, pc.next);
    }
  }

  lemma NoArming(s: State, a: Action)
    requires Valid(s) && Enabled(s, a) && !Of(a, TimerThread) && HoldsTimer(At(s, TimerThread))
    ensures |Next(s, a).0.cores| == |s.cores|
    ensures forall k :: 0 <= k < |s.cores| ==> Next(s, a).0.cores[k].alarm == s.cores[k].alarm
  {
    hide SleepOk, TimerOk, WakeCores, WakeTimer;
    Place(s, TimerThread);
    if !a.Tick? {
      Place(s, a.thread);
    }
  }

  lemma {:induction false} AllScan(from: State, acts: seq<Action>, to: State, es: seq<Event>)
    requires Init(from) && Run(from, acts, to, es)
    ensures ScanOk(to)
    decreases |acts|
  {
    hide Next, Enabled, Valid, ScanOk;
    if acts == [] {
      InitScan(from);
    } else {
      var s, before, a := LastStep(from, acts, to, es);
      AllScan(from, acts[..|acts| - 1], s, before);
      RunsStayValid(from, acts[..|acts| - 1], s, before);
      if Of(a, TimerThread) {
        TimerAdvances(s, a);
        ValidPlace(s, TimerThread);
        ScanSteps(s);
      } else {
        OthersScan(s, a);
      }
    }
  }

  lemma InitScan(s: State)
    requires Init(s)
    ensures ScanOk(s)
  {
  }

  // -------- the time the scan compares with

  /** Action n is the timer's reading of the clock. */
  predicate Reads(from: State, acts: seq<Action>, n: nat, now: nat) {
    n < |acts| && acts[n] == Advance(TimerThread)
    && match Exec(from, acts[..n])
       case Some((s, _)) => At(s, TimerThread).TimerNow? && s.clock == now
       case None => false
  }

  /** The timer's latest reading of the clock gave `now`. */
  ghost predicate LastRead(from: State, acts: seq<Action>, n: nat, now: nat) {
    Reads(from, acts, n, now) && forall m, later :: n < m < |acts| ==> !Reads(from, acts, m, later)
  }

  function NowOf(pc: Pc): Option<nat> {
    if pc.TimerScan? || pc.TimerIntLock? || pc.TimerIntOr? || pc.TimerIntNotify? then Some(pc.now) else None
  }

  lemma NowSteps(s: State, a: Action)
    requires Enabled(s, a) && OfTimer(At(s, TimerThread))
    ensures var now := NowOf(At(Next(s, a).0, TimerThread));
            if a == Advance(TimerThread) && At(s, TimerThread).TimerNow? then now == Some(s.clock)
            else now.Some? ==> now == NowOf(At(s, TimerThread))
  {
    hide Next;
    if a == Advance(TimerThread) {
      NowAdvances(s);
    } else {
      NextOthers(s, a, TimerThread);
    }
  }

  lemma NowAdvances(s: State)
    requires Enabled(s, Advance(TimerThread)) && OfTimer(At(s, TimerThread))
    ensures var now := NowOf(At(Next(s, Advance(TimerThread)).0, TimerThread));
            if At(s, TimerThread).TimerNow? then now == Some(s.clock)
            else now.Some? ==> now == NowOf(At(s, TimerThread))
  {
    hide WakeCores;
  }

  /** While the timer scans, it compares with its latest reading of the clock. */
  lemma {:induction false} NowIsRead(from: State, acts: seq<Action>, to: State, es: seq<Event>) returns (n: nat)
    requires Init(from) && Run(from, acts, to, es) && NowOf(At(to, TimerThread)).Some?
    ensures LastRead(from, acts, n, NowOf(At(to, TimerThread)).value)
    decreases |acts|
  {
    hide Next, Enabled, Valid, NowOf;
    if acts == [] {
      InitReads(from);
      assert false;
    } else {
      var last := |acts| - 1;
      var s, before, a := LastStep(from, acts, to, es);
      RunsStayValid(from, acts[..last], s, before);
      ValidPlace(s, TimerThread);
      NowSteps(s, a);
      if a == Advance(TimerThread) && At(s, TimerThread).TimerNow? {
        n := last;
      } else {
        n := NowIsRead(from, acts[..last], s, before);
        assert forall m :: 0 <= m < last ==> acts[..last][..m] == acts[..m];
        forall m, later | n < m < |acts| ensures !Reads(from, acts, m, later) {
          assert m < last ==> !Reads(from, acts[..last], m, later);
        }
      }
    }
  }

  lemma InitReads(s: State)
    requires Init(s)
    ensures NowOf(At(s, TimerThread)).None?
  {
  }

  /**
   * When the timer goes to sleep, no core has an alarm that was due when the timer last read the clock, and it sleeps
   * until the first alarm of any core, or for good if no core has one.
   */
  lemma SleepsRightly(from: State, acts: seq<Action>, to: State, es: seq<Event>) returns (n: nat, now: nat)
    requires Init(from) && Run(from, acts, to, es) && acts != [] && acts[|acts| - 1] == Advance(TimerThread)
    requires At(to, TimerThread).TimerSleep?
    ensures LastRead(from, acts, n, now)
    ensures var next := At(to, TimerThread).next;
            && (forall k :: 0 <= k < |to.cores| && to.cores[k].alarm.Some? ==>
                  to.cores[k].alarm.value > now && next.Some? && next.value <= to.cores[k].alarm.value)
            && (next.Some? ==> exists k :: 0 <= k < |to.cores| && to.cores[k].alarm == next)
  {
    hide Run, Init, Next, Enabled;
    var last := |acts| - 1;
    var s, before, a := LastStep(from, acts, to, es);
    AllScan(from, acts[..last], s, before);
    RunsStayValid(from, acts[..last], s, before);
    ValidPlace(s, TimerThread);
    FallsAsleep(s);
    now := At(s, TimerThread).now;
    n := NowIsRead(from, acts[..last], s, before);
    assert forall m :: 0 <= m < last ==> acts[..last][..m] == acts[..m];
    forall m, later | n < m < |acts| ensures !Reads(from, acts, m, later) {
      NotReading(from, acts, s, before, later);
      assert m < last ==> !Reads(from, acts[..last], m, later);
    }
  }

  lemma NotReading(from: State, acts: seq<Action>, s: State, before: seq<Event>, later: nat)
    requires acts != [] && Run(from, acts[..|acts| - 1], s, before) && !At(s, TimerThread).TimerNow?
    ensures !Reads(from, acts, |acts| - 1, later)
  {
  }

  lemma FallsAsleep(s: State)
    requires ScanOk(s) && Enabled(s, Advance(TimerThread)) && OfTimer(At(s, TimerThread))
    requires At(Next(s, Advance(TimerThread)).0, TimerThread).TimerSleep?
    ensures At(s, TimerThread).TimerScan? && At(s, TimerThread).i == |s.cores|
    ensures Next(s, Advance(TimerThread)).0.cores == s.cores
    ensures At(Next(s, Advance(TimerThread)).0, TimerThread).next == At(s, TimerThread).next
  {
    hide WakeCores;
  }
}
