/**
 * Several threads changing the breakpoint list at once: each copies the list it saw, changes the copy and
 * publishes it with a compare-and-exchange of the list pointer, trying again when another thread was first.
 */
module BreakpointsRace {
  import opened Machine
  import opened Breakpoints
  import opened Wrappers

  /** The change a thread wants to make: the function passed to updateBreakpointList. */
  datatype Change = Adding(address: nat, kind: Kind, savedCode: u32) | Removing(address: nat)

  function Apply(c: Change, list: List): Option<List> {
    match c
    case Adding(a, kind, savedCode) => Add(list, a, kind, savedCode)
    case Removing(a) => Remove(list, a)
  }

  /** Inside the update loop: the pointer last seen and the thread's own new list object. */
  datatype Pc =
    | Idle
    | Copying(change: Change, seen: nat, mine: nat)
    | Swapping(change: Change, seen: nat, mine: nat)

  /** List objects by address; the null pointer is zero and stands for no list. */
  datatype State = State(active: nat, lists: map<nat, List>, threads: map<nat, Pc>, published: set<nat>)

  datatype Action = Call(thread: nat, change: Change, addr: nat) | Advance(thread: nat)

  datatype Event = Quiet | Published(change: Change, before: List, after: List)

  const INIT := State(0, map[], map[], {})

  function At(s: State, t: nat): Pc {
    if t in s.threads then s.threads[t] else Idle
  }

  function Content(s: State, p: nat): List {
    if p != 0 && p in s.lists then s.lists[p] else []
  }

  predicate Enabled(s: State, a: Action) {
    match a
    case Call(t, _, addr) => At(s, t).Idle? && addr != 0 && addr !in s.lists
    case Advance(t) => !At(s, t).Idle?
  }

  function Moved(s: State, t: nat, pc: Pc): State {
    s.(threads := s.threads[t := pc])
  }

  function Next(s: State, a: Action): (State, Event) {
    match a
    case Call(t, c, addr) => (Moved(s.(lists := s.lists[addr := []]), t, Copying(c, s.active, addr)), Quiet)
    case Advance(t) =>
      match At(s, t)
      case Idle => (s, Quiet)
      case Copying(c, seen, mine) =>
        var changed := Apply(c, Content(s, seen));
        if changed.None? then (Moved(s, t, Idle), Quiet)
        else (Moved(s.(lists := s.lists[mine := changed.value]), t, Swapping(c, seen, mine)), Quiet)
      case Swapping(c, seen, mine) =>
        if s.active == seen then
          (Moved(s.(active := mine, published := s.published + {mine}), t, Idle),
           Published(c, Content(s, seen), Content(s, mine)))
        else (Moved(s, t, Copying(c, s.active, mine)), Quiet)
  }

  // -------- the invariant

  /** A thread's own list is not published and not another thread's; what it saw is published or null. */
  predicate ThreadOk(s: State, t: nat, pc: Pc) {
    pc.Idle? ||
    (&& pc.mine != 0 && pc.mine in s.lists && pc.mine !in s.published
     && (pc.seen == 0 || pc.seen in s.published)
     && (pc.Swapping? ==> Apply(pc.change, Content(s, pc.seen)) == Some(s.lists[pc.mine])))
  }

  predicate Valid(s: State) {
    && (s.active == 0 || s.active in s.published)
    && s.published <= s.lists.Keys && 0 !in s.lists
    && (forall t :: t in s.threads ==> ThreadOk(s, t, s.threads[t]))
    && (forall t, u :: t in s.threads && u in s.threads && t != u && !s.threads[t].Idle? && !s.threads[u].Idle?
                       ==> s.threads[t].mine != s.threads[u].mine)
  }

  /** Published lists are never changed. */
  predicate Frozen(s: State, s': State) {
    s.published <= s'.published && forall p :: p in s.published && p in s.lists ==> p in s'.lists && s'.lists[p] == s.lists[p]
  }

  lemma ThreadStays(s: State, s': State, t: nat, pc: Pc)
    requires Valid(s) && Frozen(s, s') && ThreadOk(s, t, pc)
    requires !pc.Idle? ==> pc.mine in s'.lists && s'.lists[pc.mine] == s.lists[pc.mine] && pc.mine !in s'.published
    ensures ThreadOk(s', t, pc)
  {
    hide Apply;
  }

  lemma NextKeeps(s: State, a: Action)
    requires Valid(s) && Enabled(s, a)
    ensures Valid(Next(s, a).0) && Frozen(s, Next(s, a).0)
  {
    hide Apply, ThreadOk;
    var s', t := Next(s, a).0, a.thread;
    OwnThread(s, t);
    forall u | u in s.threads && !s.threads[u].Idle?
      ensures s.threads[u].mine in s.lists && s.threads[u].mine !in s.published
    {
      OwnThread(s, u);
    }
    forall u | u in s'.threads ensures ThreadOk(s', u, s'.threads[u]) {
      if u != t {
        OwnThread(s, u);
        ThreadStays(s, s', u, s.threads[u]);
      } else {
        StepOk(s, a);
      }
    }
  }

  lemma OwnThread(s: State, t: nat)
    requires Valid(s)
    ensures ThreadOk(s, t, At(s, t))
    ensures !At(s, t).Idle? ==> At(s, t).mine in s.lists && At(s, t).mine != 0 && At(s, t).mine !in s.published
  {
    hide Apply;
  }

  lemma StepOk(s: State, a: Action)
    requires Valid(s) && Enabled(s, a)
    ensures ThreadOk(Next(s, a).0, a.thread, At(Next(s, a).0, a.thread))
  {
    hide Apply;
  }

  // -------- runs

  function Exec(acts: seq<Action>): Option<(State, seq<Event>)> {
    if acts == [] then Some((INIT, []))
    else
      match Exec(acts[..|acts| - 1])
      case None => None
      case Some((s, es)) =>
        var a := acts[|acts| - 1];
        if Enabled(s, a) then Some((Next(s, a).0, es + [Next(s, a).1])) else None
  }

  /** The list after all published changes, each applied to the list the one before it left. */
  function Folded(es: seq<Event>): List {
    if es == [] then []
    else
      var e, before := es[|es| - 1], Folded(es[..|es| - 1]);
      match e
      case Quiet => before
      case Published(c, _, _) => (var r := Apply(c, before); if r.Some? then r.value else before)
  }

  /** Each published list is its change applied to the list it replaced. */
  predicate Faithful(es: seq<Event>) {
    forall k :: 0 <= k < |es| && es[k].Published? ==>
      es[k].before == Folded(es[..k]) && Apply(es[k].change, es[k].before) == Some(es[k].after)
  }

  lemma PublishesFaithfully(s: State, a: Action)
    requires Valid(s) && Enabled(s, a)
    ensures var (s', e) := Next(s, a);
            if e.Quiet? then Content(s', s'.active) == Content(s, s.active)
            else e.before == Content(s, s.active) && Apply(e.change, e.before) == Some(e.after)
                 && Content(s', s'.active) == e.after
  {
    hide Apply;
    OwnThread(s, a.thread);
  }

  /**
   * In every interleaving the list is what the published changes make of it one after another: no change
   * is lost or applied twice, and each was computed from the list it replaced.
   */
  lemma {:induction false} ChangesAreAtomic(acts: seq<Action>)
    requires Exec(acts).Some?
    ensures var (s, es) := Exec(acts).value; Valid(s) && Faithful(es) && Content(s, s.active) == Folded(es)
    decreases |acts|
  {
    hide Next, Enabled, Apply, Content, Valid, Faithful, Folded;
    if acts == [] {
      NothingYet();
    } else {
      var n := |acts| - 1;
      ChangesAreAtomic(acts[..n]);
      var (s, es) := Exec(acts[..n]).value;
      NextKeeps(s, acts[n]);
      PublishesFaithfully(s, acts[n]);
      FaithfulMore(es, Next(s, acts[n]).1);
    }
  }

  lemma FaithfulMore(es: seq<Event>, e: Event)
    requires Faithful(es)
    requires e.Published? ==> e.before == Folded(es) && Apply(e.change, e.before) == Some(e.after)
    ensures Faithful(es + [e]) && Folded(es + [e]) == if e.Quiet? then Folded(es) else e.after
  {
    hide Apply;
    var all := es + [e];
    assert all[..|es|] == es;
    forall k | 0 <= k < |all| && all[k].Published?
      ensures all[k].before == Folded(all[..k]) && Apply(all[k].change, all[k].before) == Some(all[k].after)
    {
      assert k < |es| ==> all[..k] == es[..k];
    }
  }

  lemma NothingYet()
    ensures Valid(INIT) && Faithful([]) && Content(INIT, INIT.active) == Folded([])
  {
  }
}
