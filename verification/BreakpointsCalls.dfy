/**
 * Changes of the breakpoint list and the calls that asked for them: each call publishes its change once, or found nothing
 * to change.
 */
module BreakpointsCalls {
  import opened Machine
  import opened Wrappers
  import opened Breakpoints
  import opened BreakpointsRace

  /** The number of the latest call of a thread. */
  function LastCall(acts: seq<Action>, t: nat): (k: Option<nat>)
    ensures k.Some? ==> k.value < |acts| && acts[k.value].Call? && acts[k.value].thread == t
    ensures forall i :: 0 <= i < |acts| && acts[i].Call? && acts[i].thread == t ==> k.Some? && i <= k.value
  {
    if acts == [] then None
    else
      var n := |acts| - 1;
      if acts[n].Call? && acts[n].thread == t then Some(n) else LastCall(acts[..n], t)
  }

  predicate Speaks(acts: seq<Action>, es: seq<Event>, i: nat, t: nat)
    requires |es| == |acts|
  {
    i < |acts| && acts[i].thread == t && es[i].Published?
  }

  predicate Silent(acts: seq<Action>, es: seq<Event>, from: nat, t: nat)
    requires |es| == |acts|
  {
    forall i :: from <= i < |acts| ==> !Speaks(acts, es, i, t)
  }

  /** The thread has published the change of its call, once. */
  ghost predicate PublishedOnce(acts: seq<Action>, es: seq<Event>, k: nat, t: nat, c: Change)
    requires |es| == |acts|
  {
    exists j :: k < j < |acts| && Speaks(acts, es, j, t) && es[j].change == c
                && forall i :: k <= i < |acts| && Speaks(acts, es, i, t) ==> i == j
  }

  /** The list had these contents at some time since the call. */
  predicate SeenSince(es: seq<Event>, k: nat, list: List) {
    exists j :: k < j <= |es| && Folded(es[..j]) == list
  }

  /** At some time since the call the list was such that there was nothing to change. */
  predicate Needless(es: seq<Event>, k: nat, c: Change) {
    exists j :: k < j <= |es| && Apply(c, Folded(es[..j])) == None
  }

  ghost predicate Tracked(acts: seq<Action>, s: State, es: seq<Event>, t: nat)
    requires |es| == |acts|
  {
    var k, pc := LastCall(acts, t), At(s, t);
    if k.None? then pc.Idle? && Silent(acts, es, 0, t)
    else
      var c := acts[k.value].change;
      if pc.Idle? then
        PublishedOnce(acts, es, k.value, t, c) || (Silent(acts, es, k.value, t) && Needless(es, k.value, c))
      else pc.change == c && Silent(acts, es, k.value, t) && SeenSince(es, k.value, Content(s, pc.seen))
  }

  // -------- one step

  /** What a step of the thread itself can be. */
  lemma OwnStep(s: State, t: nat)
    requires !At(s, t).Idle?
    ensures var (s', e) := Next(s, Advance(t));
            var c, pc, pc' := At(s, t).change, At(s, t), At(s', t);
            || (pc.Copying? && e.Quiet? && pc'.Idle? && Apply(c, Content(s, pc.seen)) == None)
            || (e.Quiet? && !pc'.Idle? && pc'.change == c && (pc'.seen == pc.seen || pc'.seen == s.active))
            || (pc.Swapping? && e.Published? && e.change == c && pc'.Idle?)
  {
    hide Apply, Content;
  }

  lemma OtherStep(s: State, a: Action, t: nat)
    requires a.thread != t
    ensures At(Next(s, a).0, t) == At(s, t)
  {
    hide Apply, Content;
  }

  /** What a thread has seen stays as it was. */
  lemma SeenStays(s: State, a: Action, p: nat)
    requires Valid(s) && Enabled(s, a) && (p == 0 || p in s.published)
    ensures Content(Next(s, a).0, p) == Content(s, p)
  {
    hide Next, ThreadOk, Enabled;
    NextKeeps(s, a);
    PublishedListed(s);
    PublishedListed(Next(s, a).0);
  }

  lemma PublishedListed(s: State)
    requires Valid(s)
    ensures forall p :: p in s.published ==> p in s.lists
  {
    hide ThreadOk;
  }

  lemma SeenMore(es: seq<Event>, e: Event, k: nat, list: List, c: Change)
    ensures SeenSince(es, k, list) ==> SeenSince(es + [e], k, list)
    ensures Needless(es, k, c) ==> Needless(es + [e], k, c)
    ensures k <= |es| && Folded(es + [e]) == list ==> SeenSince(es + [e], k, list)
    ensures SeenSince(es, k, list) && Apply(c, list) == None ==> Needless(es, k, c)
  {
    hide Folded, Apply;
    var all := es + [e];
    if SeenSince(es, k, list) {
      var j :| k < j <= |es| && Folded(es[..j]) == list;
      assert all[..j] == es[..j];
    }
    if Needless(es, k, c) {
      var j :| k < j <= |es| && Apply(c, Folded(es[..j])) == None;
      assert all[..j] == es[..j];
    }
    assert all[..|all|] == all;
  }

  lemma SameSpeaks(acts: seq<Action>, es: seq<Event>, a: Action, e: Event, t: nat)
    requires |es| == |acts|
    ensures forall i :: 0 <= i < |acts| ==> Speaks(acts + [a], es + [e], i, t) == Speaks(acts, es, i, t)
    ensures Speaks(acts + [a], es + [e], |acts|, t) <==> a.thread == t && e.Published?
  {
  }

  lemma MoreEvents(acts: seq<Action>, es: seq<Event>, a: Action, e: Event, k: nat, t: nat, c: Change)
    requires |es| == |acts| && k <= |acts|
    ensures var all, events, now := acts + [a], es + [e], a.thread == t && e.Published?;
            && (!now && Silent(acts, es, k, t) ==> Silent(all, events, k, t))
            && (!now && PublishedOnce(acts, es, k, t, c) ==> PublishedOnce(all, events, k, t, c))
            && (now && e.change == c && k < |acts| && Silent(acts, es, k, t) ==> PublishedOnce(all, events, k, t, c))
  {
    var all, events := acts + [a], es + [e];
    SameSpeaks(acts, es, a, e, t);
    if !(a.thread == t && e.Published?) && PublishedOnce(acts, es, k, t, c) {
      var j :| k < j < |acts| && Speaks(acts, es, j, t) && es[j].change == c
               && forall i :: k <= i < |acts| && Speaks(acts, es, i, t) ==> i == j;
      assert Speaks(all, events, j, t) && events[j].change == c;
    }
    if a.thread == t && e.Published? && e.change == c && k < |acts| && Silent(acts, es, k, t) {
      assert Speaks(all, events, |acts|, t) && events[|acts|].change == c;
    }
  }

  lemma OthersTracked(acts: seq<Action>, s: State, es: seq<Event>, a: Action, t: nat)
    requires |es| == |acts| && Valid(s) && Enabled(s, a) && Tracked(acts, s, es, t) && a.thread != t
    ensures Tracked(acts + [a], Next(s, a).0, es + [Next(s, a).1], t)
  {
    hide Next, Content, Silent, PublishedOnce, SeenSince, Needless, Valid, Enabled;
    var (s', e) := Next(s, a);
    var all := acts + [a];
    assert all[..|all| - 1] == acts;
    OtherStep(s, a, t);
    var k := LastCall(acts, t);
    if k.None? {
      MoreEvents(acts, es, a, e, 0, t, Removing(0));
    } else {
      var c := acts[k.value].change;
      assert LastCall(all, t) == k && all[k.value].change == c;
      MoreEvents(acts, es, a, e, k.value, t, c);
      if At(s, t).Idle? {
        SeenMore(es, e, k.value, [], c);
      } else {
        SawPublished(s, t);
        SeenStays(s, a, At(s, t).seen);
        SeenMore(es, e, k.value, Content(s, At(s, t).seen), c);
      }
    }
  }

  lemma SawPublished(s: State, t: nat)
    requires Valid(s)
    ensures !At(s, t).Idle? ==> At(s, t).seen == 0 || At(s, t).seen in s.published
    ensures s.active == 0 || s.active in s.published
  {
    OwnThread(s, t);
  }

  lemma CallTracked(acts: seq<Action>, s: State, es: seq<Event>, a: Action, t: nat)
    requires |es| == |acts| && Valid(s) && Enabled(s, a) && a.Call? && a.thread == t
    requires Folded(es + [Next(s, a).1]) == Content(Next(s, a).0, Next(s, a).0.active)
    ensures Tracked(acts + [a], Next(s, a).0, es + [Next(s, a).1], t)
  {
    hide Content, SeenSince, Needless, Folded, Valid, PublishedOnce;
    var (s', e) := Next(s, a);
    assert LastCall(acts + [a], t) == Some(|acts|) && (acts + [a])[|acts|].change == a.change;
    assert At(s', t).seen == s'.active;
    SeenMore(es, e, |acts|, Content(s', s'.active), a.change);
  }

  lemma StepTracked(acts: seq<Action>, s: State, es: seq<Event>, a: Action, t: nat)
    requires |es| == |acts| && Valid(s) && Enabled(s, a) && Tracked(acts, s, es, t) && a == Advance(t)
    requires Folded(es) == Content(s, s.active)
    ensures Tracked(acts + [a], Next(s, a).0, es + [Next(s, a).1], t)
  {
    hide Next, Content, Silent, PublishedOnce, SeenSince, Needless, Folded, Valid, Apply;
    var (s', e) := Next(s, a);
    var all := acts + [a];
    assert all[..|all| - 1] == acts;
    var k := LastCall(acts, t).value;
    var c, pc, pc' := acts[k].change, At(s, t), At(s', t);
    assert LastCall(all, t) == Some(k) && all[k].change == c;
    MoreEvents(acts, es, a, e, k, t, c);
    OwnStep(s, t);
    SeenMore(es, e, k, Content(s, pc.seen), c);
    if !pc'.Idle? {
      SawPublished(s, t);
      SeenStays(s, a, pc'.seen);
      NowSeen(es, k, Content(s, s.active));
      SeenMore(es, e, k, Content(s, s.active), c);
    }
  }

  lemma NowSeen(es: seq<Event>, k: nat, list: List)
    requires k < |es| && Folded(es) == list
    ensures SeenSince(es, k, list)
  {
    hide Folded;
    assert es[..|es|] == es;
  }

  lemma {:induction false} AllTracked(acts: seq<Action>, t: nat)
    requires Exec(acts).Some?
    ensures var (s, es) := Exec(acts).value; |es| == |acts| && Tracked(acts, s, es, t)
    decreases |acts|
  {
    hide Next, Enabled, Tracked, Valid, Folded, Content, Faithful;
    if acts == [] {
      NoneTracked(t);
    } else {
      var n := |acts| - 1;
      AllTracked(acts[..n], t);
      ChangesAreAtomic(acts[..n]);
      ChangesAreAtomic(acts);
      var (s, es) := Exec(acts[..n]).value;
      var a := acts[n];
      if a.thread != t {
        OthersTracked(acts[..n], s, es, a, t);
      } else if a.Call? {
        CallTracked(acts[..n], s, es, a, t);
      } else {
        StepTracked(acts[..n], s, es, a, t);
      }
      assert acts[..n] + [a] == acts;
    }
  }

  lemma NoneTracked(t: nat)
    ensures Tracked([], INIT, [], t)
  {
  }

  // -------- runs

  /**
   * In every interleaving a thread that is back from its latest call has published the change it was called with,
   * exactly once, or the list was at some time during the call such that the change had nothing to do. Before that it
   * has published nothing.
   */
  lemma CallsAnswered(acts: seq<Action>, t: nat, k: nat)
    requires Exec(acts).Some? && LastCall(acts, t) == Some(k)
    ensures |Exec(acts).value.1| == |acts|
    ensures var (s, es) := Exec(acts).value;
            if At(s, t).Idle? then
              PublishedOnce(acts, es, k, t, acts[k].change)
              || (Silent(acts, es, k, t) && Needless(es, k, acts[k].change))
            else Silent(acts, es, k, t)
  {
    hide Exec, Silent, PublishedOnce, Needless, SeenSince;
    AllTracked(acts, t);
  }

  /** A published change is that of the latest call of the thread that publishes it. */
  lemma {:induction false} ChangesOfCalls(acts: seq<Action>, j: nat) returns (k: nat)
    requires Exec(acts).Some? && |Exec(acts).value.1| == |acts| && j < |acts| && Exec(acts).value.1[j].Published?
    ensures LastCall(acts[..j], acts[j].thread) == Some(k) && acts[k].change == Exec(acts).value.1[j].change
    decreases |acts|
  {
    hide Next, Enabled, Tracked;
    var n := |acts| - 1;
    var (s, es) := Exec(acts[..n]).value;
    AllTracked(acts[..n], acts[j].thread);
    if j == n {
      k := PublishesOwn(acts[..n], s, es, acts[n]);
    } else {
      assert acts[..n][..j] == acts[..j];
      k := ChangesOfCalls(acts[..n], j);
    }
  }

  lemma PublishesOwn(acts: seq<Action>, s: State, es: seq<Event>, a: Action) returns (k: nat)
    requires |es| == |acts| && Tracked(acts, s, es, a.thread) && Enabled(s, a) && Next(s, a).1.Published?
    ensures LastCall(acts, a.thread) == Some(k) && acts[k].change == Next(s, a).1.change
  {
    hide Next, PublishedOnce, Silent, SeenSince, Needless, Content;
    CallsQuiet(s, a);
    OwnStep(s, a.thread);
    k := LastCall(acts, a.thread).value;
  }

  lemma CallsQuiet(s: State, a: Action)
    ensures a.Call? ==> Next(s, a).1.Quiet?
  {
    hide Apply, Content;
  }
}
