/** Pending bits and masks over whole runs: what changes them, and that no bit comes from nowhere. */
module InterruptsBits {
  import opened Interrupts
  import opened InterruptsSafety
  import opened InterruptsRuns
  import opened InterruptsCalls
  import opened Wrappers

  // -------- masks

  /** The mask a core last set, or the one it started with. */
  function MaskOf(from: State, acts: seq<Action>, i: nat): set<nat>
    requires i < |from.cores|
  {
    if acts == [] then from.cores[i].mask
    else
      var a := acts[|acts| - 1];
      if a.Call? && a.thread == CoreThread(i) && a.op.SetMask? then a.op.mask
      else MaskOf(from, acts[..|acts| - 1], i)
  }

  lemma MaskFollows(s: State, a: Action, i: nat)
    requires Enabled(s, a) && i < |s.cores|
    ensures |Next(s, a).0.cores| == |s.cores|
    ensures Next(s, a).0.cores[i].mask
         == if a.Call? && a.thread == CoreThread(i) && a.op.SetMask? then a.op.mask else s.cores[i].mask
  {
    hide IntStep, TimerStep, CoreStep, Begin, Ready, MayCall;
    match a
    case Tick(_) =>
    case Call(t, op) => CallMasks(s, t, op, i);
    case Advance(t) =>
      IntMasks(s, t, i);
      TimerMasks(s, i);
      if t.CoreThread? {
        CoreMasks(s, t.index, i);
      }
  }

  lemma CallMasks(s: State, t: Tid, op: Op, i: nat)
    requires MayCall(s, t, op) && i < |s.cores|
    ensures |Begin(s, t, op).0.cores| == |s.cores|
    ensures Begin(s, t, op).0.cores[i].mask == if t == CoreThread(i) && op.SetMask? then op.mask else s.cores[i].mask
  {
  }

  lemma IntMasks(s: State, t: Tid, i: nat)
    requires i < |s.cores|
    ensures |IntStep(s, t).0.cores| == |s.cores| && IntStep(s, t).0.cores[i].mask == s.cores[i].mask
  {
    hide WakeCores;
  }

  lemma TimerMasks(s: State, i: nat)
    requires i < |s.cores|
    ensures |TimerStep(s).0.cores| == |s.cores| && TimerStep(s).0.cores[i].mask == s.cores[i].mask
  {
    hide WakeCores;
  }

  lemma CoreMasks(s: State, j: nat, i: nat)
    requires i < |s.cores| && j < |s.cores|
    ensures |CoreStep(s, j).0.cores| == |s.cores| && CoreStep(s, j).0.cores[i].mask == s.cores[i].mask
  {
  }

  /** Over every run the mask of a core is the one that core set last. */
  lemma {:induction false} MaskIs(from: State, acts: seq<Action>, to: State, es: seq<Event>, i: nat)
    requires Run(from, acts, to, es) && i < |from.cores|
    ensures |to.cores| == |from.cores| && to.cores[i].mask == MaskOf(from, acts, i)
    decreases |acts|
  {
    hide Next, Enabled;
    if acts != [] {
      var s, before, a := LastStep(from, acts, to, es);
      MaskIs(from, acts[..|acts| - 1], s, before, i);
      MaskFollows(s, a, i);
    }
  }

  // -------- what changes pending bits

  /** The step takes the pending bits of the core: it checks, or waits with some maskable interrupt allowed. */
  predicate Takes(s: State, a: Action, i: nat)
    requires i < |s.cores|
  {
    && a == Advance(CoreThread(i))
    && (At(s, CoreThread(i)).CheckTake? || (At(s, CoreThread(i)).WaitTake? && !(s.cores[i].mask <= {0})))
  }

  /**
   * The pending bits of a core change only by the events that name it and by its own taking. Taking removes the bits the
   * mask lets through and bit 0; if there are any, all that were pending go to the handler, masked ones included.
   */
  lemma BitsFollow(s: State, a: Action, i: nat)
    requires Valid(s) && Enabled(s, a) && i < |s.cores|
    ensures |Next(s, a).0.cores| == |s.cores|
    ensures var (s', e) := Next(s, a);
            var before, after, passing := s.cores[i].interrupt, s'.cores[i].interrupt, s.cores[i].mask + {0};
            if e.Raised? && e.core == i then after == before + e.flags && InFlight(s', i) == InFlight(s, i)
            else if e.Cleared? && e.core == i then after == before - e.flags && InFlight(s', i) == InFlight(s, i)
            else if e.Handled? && e.core == i then after == before && InFlight(s, i) == e.flags && InFlight(s', i) == {}
            else if Takes(s, a, i) then
              after == before - passing && InFlight(s', i) == if before * passing == {} then {} else before
            else after == before && InFlight(s', i) == InFlight(s, i)
  {
    hide Next, Begin, IntStep, TimerStep, CoreStep, MutexesOk, SleepOk, TimerOk, Ready, MayCall, InFlight;
    match a
    case Tick(_) => TickBits(s, a, i);
    case Call(t, op) =>
      CallBits(s, t, op, i);
      NextCall(s, t, op);
    case Advance(t) =>
      Place(s, t);
      NextAdvance(s, t);
      var pc := At(s, t);
      if pc.IntLock? || pc.IntOr? || pc.IntNotify? {
        IntBits(s, t, i);
      } else if t.TimerThread? {
        TimerBits(s, i);
      } else if t.CoreThread? {
        CoreBits(s, t.index, i);
      }
  }

  lemma NextCall(s: State, t: Tid, op: Op)
    requires Enabled(s, Call(t, op))
    ensures Next(s, Call(t, op)) == Begin(s, t, op)
  {
    hide Begin;
  }

  lemma NextAdvance(s: State, t: Tid)
    requires Enabled(s, Advance(t))
    ensures var pc, r := At(s, t), Next(s, Advance(t));
            r == if pc.IntLock? || pc.IntOr? || pc.IntNotify? then IntStep(s, t)
                 else if t.TimerThread? then TimerStep(s)
                 else if t.CoreThread? then CoreStep(s, t.index)
                 else (s, Quiet)
  {
    hide IntStep, TimerStep, CoreStep;
  }

  lemma TickBits(s: State, a: Action, i: nat)
    requires Enabled(s, a) && a.Tick? && i < |s.cores|
    ensures Next(s, a).0.cores == s.cores && InFlight(Next(s, a).0, i) == InFlight(s, i) && Next(s, a).1.Quiet?
  {
  }

  lemma CallBits(s: State, t: Tid, op: Op, i: nat)
    requires MayCall(s, t, op) && i < |s.cores|
    ensures var (s', e) := Begin(s, t, op);
            && |s'.cores| == |s.cores| && InFlight(s', i) == InFlight(s, i) && (e.Cleared? || e.Quiet?)
            && s'.cores[i].interrupt == if e.Cleared? && e.core == i then s.cores[i].interrupt - e.flags else s.cores[i].interrupt
  {
  }

  lemma IntBits(s: State, t: Tid, i: nat)
    requires i < |s.cores| && Placed(At(s, t), t, |s.cores|) && (At(s, t).IntLock? || At(s, t).IntOr? || At(s, t).IntNotify?)
    ensures var (s', e) := IntStep(s, t);
            && |s'.cores| == |s.cores| && InFlight(s', i) == InFlight(s, i) && (e.Raised? || e.Quiet?)
            && s'.cores[i].interrupt == if e.Raised? && e.core == i then s.cores[i].interrupt + e.flags else s.cores[i].interrupt
    ensures !Takes(s, Advance(t), i)
  {
    hide WakeCores;
    WokenAt(s, CoreThread(i));
  }

  lemma TimerBits(s: State, i: nat)
    requires i < |s.cores|
    ensures var (s', e) := TimerStep(s);
            && |s'.cores| == |s.cores| && InFlight(s', i) == InFlight(s, i) && (e.Raised? || e.Quiet? || e.Fired?)
            && s'.cores[i].interrupt == if e.Raised? && e.core == i then s.cores[i].interrupt + e.flags else s.cores[i].interrupt
  {
    hide WakeCores;
    WokenAt(s, CoreThread(i));
  }

  lemma CoreBits(s: State, j: nat, i: nat)
    requires i < |s.cores| && j < |s.cores|
    ensures var (s', e) := CoreStep(s, j);
            var before, after, passing := s.cores[i].interrupt, s'.cores[i].interrupt, s.cores[i].mask + {0};
            && |s'.cores| == |s.cores| && (e.Handled? || e.Armed? || e.Quiet?)
            && (e.Handled? && e.core == i ==> after == before && InFlight(s, i) == e.flags && InFlight(s', i) == {})
            && (!(e.Handled? && e.core == i) && Takes(s, Advance(CoreThread(j)), i) ==>
                  after == before - passing && InFlight(s', i) == if before * passing == {} then {} else before)
            && (!(e.Handled? && e.core == i) && !Takes(s, Advance(CoreThread(j)), i) ==>
                  after == before && InFlight(s', i) == InFlight(s, i))
  {
    hide WakeTimer;
    WakeTimerAt(s, CoreThread(i));
  }

  lemma WakeTimerAt(s: State, t: Tid)
    ensures WakeTimer(s).cores == s.cores && (!t.TimerThread? ==> At(WakeTimer(s), t) == At(s, t))
  {
  }

  // -------- no bit from nowhere

  /** The bit was raised for the core and has not been cleared since. */
  ghost predicate StillRaised(es: seq<Event>, i: nat, b: nat) {
    exists k :: 0 <= k < |es| && es[k].Raised? && es[k].core == i && b in es[k].flags
                && forall j :: k < j < |es| && es[j].Cleared? && es[j].core == i ==> b !in es[j].flags
  }

  ghost predicate WasRaised(es: seq<Event>, i: nat, b: nat) {
    exists k :: 0 <= k < |es| && es[k].Raised? && es[k].core == i && b in es[k].flags
  }

  /** Pending bits are still raised, and the bits on their way to the handler were raised. */
  ghost predicate Genuine(s: State, es: seq<Event>, i: nat)
    requires i < |s.cores|
  {
    && (forall b :: b in s.cores[i].interrupt ==> StillRaised(es, i, b))
    && (forall b :: b in InFlight(s, i) ==> WasRaised(es, i, b))
  }

  lemma RaisedStays(es: seq<Event>, e: Event, i: nat, b: nat)
    ensures WasRaised(es, i, b) ==> WasRaised(es + [e], i, b)
    ensures StillRaised(es, i, b) && !(e.Cleared? && e.core == i && b in e.flags) ==> StillRaised(es + [e], i, b)
    ensures e.Raised? && e.core == i && b in e.flags ==> StillRaised(es + [e], i, b)
  {
    var all := es + [e];
    if WasRaised(es, i, b) {
      var k :| 0 <= k < |es| && es[k].Raised? && es[k].core == i && b in es[k].flags;
      assert all[k].Raised? && all[k].core == i && b in all[k].flags;
    }
    if StillRaised(es, i, b) && !(e.Cleared? && e.core == i && b in e.flags) {
      var k :| 0 <= k < |es| && es[k].Raised? && es[k].core == i && b in es[k].flags
               && forall j :: k < j < |es| && es[j].Cleared? && es[j].core == i ==> b !in es[j].flags;
      assert all[k].Raised? && all[k].core == i && b in all[k].flags;
    }
    if e.Raised? && e.core == i && b in e.flags {
      assert all[|es|].Raised? && all[|es|].core == i && b in all[|es|].flags;
    }
  }

  lemma StepGenuine(s: State, es: seq<Event>, a: Action, i: nat)
    requires Valid(s) && Enabled(s, a) && i < |s.cores| && Genuine(s, es, i)
    ensures i < |Next(s, a).0.cores| && Genuine(Next(s, a).0, es + [Next(s, a).1], i)
  {
    hide Next, Enabled, Valid, InFlight, StillRaised, WasRaised, Takes;
    var (s', e) := Next(s, a);
    BitsFollow(s, a, i);
    forall b | b in s'.cores[i].interrupt ensures StillRaised(es + [e], i, b) {
      RaisedStays(es, e, i, b);
    }
    forall b | b in InFlight(s', i) ensures WasRaised(es + [e], i, b) {
      RaisedStays(es, e, i, b);
      StillWas(es, i, b);
    }
  }

  lemma StillWas(es: seq<Event>, i: nat, b: nat)
    ensures StillRaised(es, i, b) ==> WasRaised(es, i, b)
  {
  }

  /** Over every run, a bit that is pending or handed to the handler was raised for that core, and a pending one not cleared since. */
  lemma {:induction false} NoSpuriousBits(from: State, acts: seq<Action>, to: State, es: seq<Event>, i: nat)
    requires Init(from) && Run(from, acts, to, es) && i < CORES
    ensures |to.cores| == CORES && Genuine(to, es, i)
    ensures forall j, b :: 0 <= j < |es| && es[j].Handled? && es[j].core == i && b in es[j].flags ==> WasRaised(es[..j], i, b)
    decreases |acts|
  {
    hide Next, Enabled, Valid, InFlight, StillRaised, WasRaised, Genuine;
    if acts == [] {
      InitGenuine(from, i);
    } else {
      var s, before, a := LastStep(from, acts, to, es);
      NoSpuriousBits(from, acts[..|acts| - 1], s, before, i);
      RunsStayValid(from, acts[..|acts| - 1], s, before);
      StepGenuine(s, before, a, i);
      SameCount(s, a);
      var n := |before|;
      forall j, b | 0 <= j < |es| && es[j].Handled? && es[j].core == i && b in es[j].flags ensures WasRaised(es[..j], i, b) {
        assert j < n ==> es[j] == before[j] && es[..j] == before[..j];
        if j == n {
          assert es[..n] == before;
          HandledWas(s, before, a, i, b);
        }
      }
    }
  }

  lemma HandledWas(s: State, es: seq<Event>, a: Action, i: nat, b: nat)
    requires Valid(s) && Enabled(s, a) && i < |s.cores| && Genuine(s, es, i)
    requires Next(s, a).1.Handled? && Next(s, a).1.core == i && b in Next(s, a).1.flags
    ensures WasRaised(es, i, b)
  {
    hide Next, Enabled, Valid, InFlight, StillRaised, WasRaised, Takes;
    BitsFollow(s, a, i);
  }

  lemma InitGenuine(s: State, i: nat)
    requires Init(s) && i < CORES
    ensures |s.cores| == CORES && Genuine(s, [], i)
  {
  }

  // -------- masks of cores inside a call

  /** A core in the handler has a bit its mask lets through; a core asleep lets some maskable bit through, an aborted one none. */
  predicate MaskOk(s: State, i: nat)
    requires i < |s.cores|
  {
    match At(s, CoreThread(i))
    case CheckCall(f) => f * (s.cores[i].mask + {0}) != {}
    case WaitCall(f) => f * (s.cores[i].mask + {0}) != {} && !(s.cores[i].mask <= {0})
    case WaitSleep(_) => !(s.cores[i].mask <= {0})
    case Aborted => s.cores[i].mask <= {0}
    case _ => true
  }

  lemma OwnMask(s: State, i: nat)
    requires Enabled(s, Advance(CoreThread(i))) && i < |s.cores| && MaskOk(s, i) && !OfTimer(At(s, CoreThread(i)))
    ensures |Next(s, Advance(CoreThread(i))).0.cores| == |s.cores| && MaskOk(Next(s, Advance(CoreThread(i))).0, i)
  {
    hide WakeCores, WakeTimer;
    WakeTimerAt(s, CoreThread(i));
    WokenAt(s, CoreThread(i));
  }

  lemma CallMask(s: State, t: Tid, op: Op, i: nat)
    requires MayCall(s, t, op) && i < |s.cores| && MaskOk(s, i)
    ensures |Begin(s, t, op).0.cores| == |s.cores| && MaskOk(Begin(s, t, op).0, i)
  {
  }

  lemma OtherMask(s: State, a: Action, i: nat)
    requires Enabled(s, a) && i < |s.cores| && MaskOk(s, i) && !Of(a, CoreThread(i))
    ensures |Next(s, a).0.cores| == |s.cores| && MaskOk(Next(s, a).0, i)
  {
    hide Next, Enabled;
    MaskFollows(s, a, i);
    NextOthers(s, a, CoreThread(i));
  }

  lemma {:induction false} AllMasks(from: State, acts: seq<Action>, to: State, es: seq<Event>, i: nat)
    requires Init(from) && Run(from, acts, to, es) && i < CORES
    ensures |to.cores| == CORES && MaskOk(to, i)
    decreases |acts|
  {
    hide Next, Enabled, Valid, MaskOk;
    if acts == [] {
      InitMask(from, i);
    } else {
      var s, before, a := LastStep(from, acts, to, es);
      AllMasks(from, acts[..|acts| - 1], s, before, i);
      RunsStayValid(from, acts[..|acts| - 1], s, before);
      ValidPlace(s, CoreThread(i));
      if !Of(a, CoreThread(i)) {
        OtherMask(s, a, i);
        SameCount(s, a);
      } else if a.Advance? {
        OwnMask(s, i);
      } else {
        MayCallNow(s, a);
        NextCall(s, a.thread, a.op);
        CallMask(s, a.thread, a.op, i);
      }
    }
  }

  lemma MayCallNow(s: State, a: Action)
    requires Enabled(s, a) && a.Call?
    ensures MayCall(s, a.thread, a.op)
  {
  }

  lemma InitMask(s: State, i: nat)
    requires Init(s) && i < CORES
    ensures |s.cores| == CORES && MaskOk(s, i)
  {
  }

  /**
   * Over every run the handler is called only with a bit that the core's mask lets through, or bit 0; and a core that
   * waits aborts exactly if its mask stops every bit but bit 0.
   */
  lemma HandlerMasks(from: State, acts: seq<Action>, to: State, es: seq<Event>, a: Action, i: nat)
    requires Init(from) && Run(from, acts, to, es) && Enabled(to, a) && i < CORES
    ensures |to.cores| == CORES
    ensures var e := Next(to, a).1; e.Handled? && e.core == i ==> e.flags * (to.cores[i].mask + {0}) != {}
    ensures At(to, CoreThread(i)).Aborted? ==> to.cores[i].mask <= {0}
    ensures At(to, CoreThread(i)).WaitTake? && a == Advance(CoreThread(i)) ==>
              (At(Next(to, a).0, CoreThread(i)).Aborted? <==> to.cores[i].mask <= {0})
  {
    hide Run, Init, Valid, Enabled;
    AllMasks(from, acts, to, es, i);
    RunsStayValid(from, acts, to, es);
    HandledMask(to, a, i);
    if At(to, CoreThread(i)).WaitTake? {
      WaitAborts(to, i);
    }
  }

  lemma HandledMask(s: State, a: Action, i: nat)
    requires Valid(s) && Enabled(s, a) && i < |s.cores| && MaskOk(s, i)
    ensures var e := Next(s, a).1; e.Handled? && e.core == i ==> e.flags * (s.cores[i].mask + {0}) != {}
  {
    hide Next, Enabled, Valid;
    if Next(s, a).1.Handled? {
      HandledBy(s, a);
    }
  }

  lemma HandledBy(s: State, a: Action)
    requires Enabled(s, a) && Next(s, a).1.Handled?
    ensures var e := Next(s, a).1;
            var pc := At(s, CoreThread(e.core));
            pc == CheckCall(e.flags) || pc == WaitCall(e.flags)
  {
    hide WakeCores, WakeTimer;
  }

  lemma WaitAborts(s: State, i: nat)
    requires i < |s.cores| && At(s, CoreThread(i)).WaitTake?
    ensures Enabled(s, Advance(CoreThread(i)))
    ensures At(Next(s, Advance(CoreThread(i))).0, CoreThread(i)).Aborted? <==> s.cores[i].mask <= {0}
  {
    var mask := s.cores[i].mask;
    assert mask - NONMASKABLE == {} <==> mask <= {0};
  }
}
