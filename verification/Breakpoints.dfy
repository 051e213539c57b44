/**
 * Debugger breakpoints: a list of addresses with the code they replaced, and guest memory patched with
 * a trap at each of them. Memory is numbered in words.
 */
module Breakpoints {
  import opened Machine
  import opened Wrappers

  datatype Kind = SingleFire | MultiFire

  datatype Breakpoint = Breakpoint(kind: Kind, address: nat, savedCode: u32)

  type List = seq<Breakpoint>

  // -------- the update functions

  /** The first breakpoint at an address, the length of the list if there is none. */
  function Find(list: List, a: nat): (i: nat)
    ensures i <= |list|
    ensures i < |list| ==> list[i].address == a
    ensures forall k :: 0 <= k < i ==> list[k].address != a
  {
    if list == [] || list[0].address == a then 0 else 1 + Find(list[1..], a)
  }

  predicate Has(list: List, a: nat) {
    Find(list, a) < |list|
  }

  /** What adding does to a copy of the list; nothing if the list need not change. */
  function Add(list: List, a: nat, kind: Kind, savedCode: u32): Option<List> {
    var i := Find(list, a);
    if i < |list| then
      if list[i].kind == kind || (kind == SingleFire && list[i].kind == MultiFire) then None
      else Some(list[i := list[i].(kind := kind)])
    else Some(list + [Breakpoint(kind, a, savedCode)])
  }

  function Remove(list: List, a: nat): Option<List> {
    var i := Find(list, a);
    if i < |list| then Some(list[..i] + list[i + 1..]) else None
  }

  // -------- one thread

  /** Every listed address keeps the guest's own code. */
  predicate Saves(list: List, code: map<nat, u32>) {
    forall i :: 0 <= i < |list| ==> list[i].address in code && list[i].savedCode == code[list[i].address]
  }

  /** Memory holds the trap exactly at listed addresses and the guest's own code elsewhere. */
  predicate Patched(list: List, memory: map<nat, u32>, code: map<nat, u32>) {
    && memory.Keys == code.Keys && Unique(list) && Saves(list, code)
    && forall a :: a in code ==> memory[a] == if Has(list, a) then TRAP else code[a]
  }

  const TRAP: u32 := 0x7FE0_0008

  class Debugger {
    /** No list until the first change; an emptied list stays. */
    var active: Option<List>
    var memory: map<nat, u32>
    /** The code of the guest before any breakpoint. */
    ghost const code: map<nat, u32>

    ghost function Listed(): List
      reads this
    {
      if active.Some? then active.value else []
    }

    ghost predicate Valid()
      reads this
    {
      Patched(Listed(), memory, code)
    }

    constructor (memory: map<nat, u32>)
      ensures Valid() && active == None && this.memory == memory && code == memory
    {
      active, this.memory, code := None, memory, memory;
    }

    method AddBreakpoint(a: nat, kind: Kind)
      requires Valid() && a in memory
      modifies this
      ensures Valid() && active.Some? && (Listed(), memory) == After(old(Listed()), old(memory), AddOp(a, kind))
      ensures forall b :: Has(Listed(), b) <==> Has(old(Listed()), b) || b == a
    {
      hide Find, Add, Patched, Has;
      var savedCode := memory[a];
      var list := if active.Some? then active.value else [];
      var changed := Add(list, a, kind, savedCode);
      AddPatches(list, memory, code, a, kind);
      AddPublishes(list, a, kind, savedCode);
      if changed.Some? {
        active := changed;
      }
      memory := memory[a := TRAP];
    }

    method RemoveBreakpoint(a: nat)
      requires Valid()
      modifies this
      ensures Valid() && active.Some? == old(active.Some?)
      ensures (Listed(), memory) == After(old(Listed()), old(memory), RemoveOp(a))
      ensures forall b :: Has(Listed(), b) <==> Has(old(Listed()), b) && b != a
    {
      hide Find, Remove, Patched;
      var list := if active.Some? then active.value else [];
      var i := Find(list, a);
      RemovePatches(list, memory, code, a);
      if i < |list| {
        memory := memory[a := list[i].savedCode];
        active := Remove(list, a);
      }
    }

    /** Whether a breakpoint is hit; one that fires once is gone afterwards. */
    method TestBreakpoint(a: nat) returns (hit: bool)
      requires Valid()
      modifies this
      ensures Valid() && hit == Has(old(Listed()), a) && active.Some? == old(active.Some?)
      ensures (Listed(), memory) == After(old(Listed()), old(memory), TestOp(a))
      ensures forall b :: Has(Listed(), b) <==>
                Has(old(Listed()), b) && !(b == a && old(Listed())[Find(old(Listed()), a)].kind == SingleFire)
    {
      hide Find, Remove, Patched;
      if active.None? {
        return false;
      }
      var i := Find(active.value, a);
      if i == |active.value| {
        return false;
      }
      if active.value[i].kind == SingleFire {
        RemoveBreakpoint(a);
      }
      return true;
    }

    method HasBreakpoint(a: nat) returns (b: bool)
      ensures b == Has(Listed(), a)
    {
      return active.Some? && Find(active.value, a) < |active.value|;
    }

    /** Tells whether any list was ever published, which is not whether it holds anything. */
    method HasBreakpoints() returns (b: bool)
      ensures Listed() != [] ==> b
      ensures b == active.Some?
    {
      return active.Some?;
    }

    /** The guest's own instruction at any address, whatever breakpoints are set. */
    method GetBreakpointSavedCode(a: nat) returns (word: u32)
      requires Valid() && a in memory
      ensures word == code[a]
    {
      if active.Some? {
        var i := Find(active.value, a);
        if i < |active.value| {
          return active.value[i].savedCode;
        }
      }
      return memory[a];
    }
  }

  // -------- what the updates keep

  predicate Unique(list: List) {
    forall i, j :: 0 <= i < j < |list| ==> list[i].address != list[j].address
  }

  lemma HasIff(list: List, a: nat)
    ensures Has(list, a) <==> exists i :: 0 <= i < |list| && list[i].address == a
  {
    hide Find;
    if Find(list, a) < |list| {
      assert list[Find(list, a)].address == a;
    }
  }

  /** Adding keeps addresses unique and the saved code of every breakpoint that was there. */
  lemma AddKeeps(list: List, a: nat, kind: Kind, savedCode: u32)
    requires Unique(list)
    ensures Add(list, a, kind, savedCode).None? ==> Has(list, a)
    ensures Add(list, a, kind, savedCode).Some? ==>
              var to := Add(list, a, kind, savedCode).value;
              && Unique(to) && (forall b :: Has(to, b) <==> Has(list, b) || b == a)
              && (forall i :: 0 <= i < |to| ==>
                    (i < |list| && to[i].address == list[i].address && to[i].savedCode == list[i].savedCode)
                    || (!Has(list, a) && to[i] == Breakpoint(kind, a, savedCode)))
  {
    hide Find;
    if Add(list, a, kind, savedCode).Some? {
      var to := Add(list, a, kind, savedCode).value;
      forall b ensures Has(to, b) <==> Has(list, b) || b == a {
        HasIff(to, b);
        HasIff(list, b);
        if Has(list, b) {
          assert to[Find(list, b)].address == b;
        }
        assert b == a && !Has(list, a) ==> to[|list|].address == a;
      }
    }
  }

  /** Only a list that has the address can be left as it is. */
  lemma AddPublishes(list: List, a: nat, kind: Kind, savedCode: u32)
    ensures Add(list, a, kind, savedCode).None? ==> list != []
  {
  }

  /** Removing takes out the one breakpoint at the address. */
  lemma RemoveKeeps(list: List, a: nat)
    requires Unique(list)
    ensures Remove(list, a).Some? <==> Has(list, a)
    ensures Remove(list, a).Some? ==>
              var to := Remove(list, a).value;
              && Unique(to) && (forall b :: Has(to, b) <==> Has(list, b) && b != a)
              && (forall i :: 0 <= i < |to| ==> to[i] in list)
  {
    hide Find;
    if Remove(list, a).Some? {
      var i, to := Find(list, a), Remove(list, a).value;
      assert forall k :: 0 <= k < |to| ==> to[k] == list[if k < i then k else k + 1];
      forall b ensures Has(to, b) <==> Has(list, b) && b != a {
        HasIff(to, b);
        HasIff(list, b);
        if Has(list, b) && b != a {
          var k := Find(list, b);
          assert to[if k < i then k else k - 1].address == b;
        }
      }
    }
  }

  /** Adding a breakpoint and patching its address. */
  lemma AddPatches(list: List, memory: map<nat, u32>, code: map<nat, u32>, a: nat, kind: Kind)
    requires Patched(list, memory, code) && a in memory
    ensures var r := Add(list, a, kind, memory[a]);
            var to := if r.Some? then r.value else list;
            && Patched(to, memory[a := TRAP], code) && (forall b :: Has(to, b) <==> Has(list, b) || b == a)
  {
    hide Find, Add, Has;
    AddKeeps(list, a, kind, memory[a]);
    var r := Add(list, a, kind, memory[a]);
    var to := if r.Some? then r.value else list;
    assert (memory[a := TRAP]).Keys == code.Keys;
    assert Saves(to, code);
  }

  /** Removing a breakpoint and restoring its address. */
  lemma RemovePatches(list: List, memory: map<nat, u32>, code: map<nat, u32>, a: nat)
    requires Patched(list, memory, code)
    ensures Remove(list, a).Some? <==> Find(list, a) < |list|
    ensures if Remove(list, a).None? then !Has(list, a)
            else var to := Remove(list, a).value;
                 && Patched(to, memory[a := list[Find(list, a)].savedCode], code)
                 && (forall b :: Has(to, b) <==> Has(list, b) && b != a)
  {
    hide Find, Remove;
    RemoveKeeps(list, a);
    if Remove(list, a).Some? {
      var to, i := Remove(list, a).value, Find(list, a);
      hide Has;
      assert list[i].address == a && list[i].savedCode == code[a];
      assert (memory[a := code[a]]).Keys == code.Keys;
      assert Saves(to, code) by {
        forall k | 0 <= k < |to| ensures to[k].address in code && to[k].savedCode == code[to[k].address] {
          var j :| 0 <= j < |list| && list[j] == to[k];
        }
      }
    }
  }

  // -------- runs of one thread

  datatype Op = AddOp(address: nat, kind: Kind) | RemoveOp(address: nat) | TestOp(address: nat)

  function Removed(list: List, memory: map<nat, u32>, a: nat): (List, map<nat, u32>) {
    if Has(list, a) then (Remove(list, a).value, memory[a := list[Find(list, a)].savedCode]) else (list, memory)
  }

  /** The list and the memory after a call; breakpoints are set on mapped words only. */
  function After(list: List, memory: map<nat, u32>, op: Op): (List, map<nat, u32>) {
    match op
    case AddOp(a, kind) =>
      if a !in memory then (list, memory)
      else
        var r := Add(list, a, kind, memory[a]);
        (if r.Some? then r.value else list, memory[a := TRAP])
    case RemoveOp(a) => Removed(list, memory, a)
    case TestOp(a) =>
      if Has(list, a) && list[Find(list, a)].kind == SingleFire then Removed(list, memory, a) else (list, memory)
  }

  function AfterAll(list: List, memory: map<nat, u32>, ops: seq<Op>): (List, map<nat, u32>)
    decreases |ops|
  {
    if ops == [] then (list, memory)
    else
      var (l, m) := After(list, memory, ops[0]);
      AfterAll(l, m, ops[1..])
  }

  /** What getBreakpointSavedCode answers. */
  function SavedCode(list: List, memory: map<nat, u32>, a: nat): Option<u32> {
    if Has(list, a) then Some(list[Find(list, a)].savedCode)
    else if a in memory then Some(memory[a]) else None
  }

  lemma CallKeepsPatched(list: List, memory: map<nat, u32>, code: map<nat, u32>, op: Op)
    requires Patched(list, memory, code)
    ensures var (l, m) := After(list, memory, op); Patched(l, m, code)
  {
    hide Find, Add, Remove, Patched;
    match op
    case AddOp(a, kind) =>
      if a in memory {
        AddPatches(list, memory, code, a, kind);
      }
    case RemoveOp(a) => RemovePatches(list, memory, code, a);
    case TestOp(a) => RemovePatches(list, memory, code, a);
  }

  // -------- kinds

  /** The kind of the breakpoint at an address. */
  function KindAt(list: List, a: nat): Option<Kind> {
    if Has(list, a) then Some(list[Find(list, a)].kind) else None
  }

  lemma KindIs(list: List, i: nat)
    requires Unique(list) && i < |list|
    ensures KindAt(list, list[i].address) == Some(list[i].kind)
  {
    hide Find;
  }

  /** After adding, the breakpoint fires every time if the old or the new one did, and no other breakpoint changes. */
  lemma AddKinds(list: List, a: nat, kind: Kind, savedCode: u32, b: nat)
    requires Unique(list)
    ensures var r := Add(list, a, kind, savedCode);
            KindAt(if r.Some? then r.value else list, b) ==
              if b != a then KindAt(list, b)
              else Some(if kind == MultiFire || KindAt(list, a) == Some(MultiFire) then MultiFire else SingleFire)
  {
    hide Find;
    AddKeeps(list, a, kind, savedCode);
    var r := Add(list, a, kind, savedCode);
    if r.Some? {
      var to := r.value;
      var i := Find(to, b);
      if i < |to| {
        KindIs(to, i);
        if i < |list| {
          KindIs(list, i);
        }
      }
    }
  }

  lemma RemoveKinds(list: List, a: nat, b: nat)
    requires Unique(list)
    ensures var r := Remove(list, a);
            KindAt(if r.Some? then r.value else list, b) == if b == a then None else KindAt(list, b)
  {
    hide Find;
    RemoveKeeps(list, a);
    var r := Remove(list, a);
    if r.Some? {
      var to := r.value;
      var i := Find(to, b);
      if i < |to| {
        assert to[i] in list;
        var k :| 0 <= k < |list| && list[k] == to[i];
        KindIs(list, k);
      }
    }
  }

  /** What one call means for the breakpoint at one address, if the address is mapped. */
  function KindAfter(k: Option<Kind>, op: Op, b: nat): Option<Kind> {
    if op.address != b then k
    else
      match op
      case AddOp(_, kind) => Some(if kind == MultiFire || k == Some(MultiFire) then MultiFire else SingleFire)
      case RemoveOp(_) => None
      case TestOp(_) => if k == Some(SingleFire) then None else k
  }

  function KindAfterAll(k: Option<Kind>, ops: seq<Op>, b: nat): Option<Kind>
    decreases |ops|
  {
    if ops == [] then k else KindAfterAll(KindAfter(k, ops[0], b), ops[1..], b)
  }

  lemma CallKinds(list: List, memory: map<nat, u32>, op: Op, b: nat)
    requires Unique(list) && b in memory
    ensures KindAt(After(list, memory, op).0, b) == KindAfter(KindAt(list, b), op, b)
  {
    hide Find, Add, Remove;
    match op
    case AddOp(a, kind) =>
      if a in memory {
        AddKinds(list, a, kind, memory[a], b);
      }
    case RemoveOp(a) =>
      RemoveKinds(list, a, b);
      RemoveKeeps(list, a);
    case TestOp(a) =>
      RemoveKinds(list, a, b);
      RemoveKeeps(list, a);
  }

  /** Over every run each mapped address has the breakpoint that the calls for it make, one after another. */
  lemma {:induction false} RunsKinds(list: List, memory: map<nat, u32>, code: map<nat, u32>, ops: seq<Op>, b: nat)
    requires Patched(list, memory, code) && b in memory
    ensures KindAt(AfterAll(list, memory, ops).0, b) == KindAfterAll(KindAt(list, b), ops, b)
    decreases |ops|
  {
    hide KindAt, KindAfter, After;
    if ops != [] {
      var (l, m) := After(list, memory, ops[0]);
      CallKeepsPatched(list, memory, code, ops[0]);
      CallKinds(list, memory, ops[0], b);
      RunsKinds(l, m, code, ops[1..], b);
    }
  }

  /** Over every run the guest's own instruction can be read back at every address. */
  lemma {:induction false} RunsTransparent(list: List, memory: map<nat, u32>, code: map<nat, u32>, ops: seq<Op>, a: nat)
    requires Patched(list, memory, code) && a in code
    ensures var (l, m) := AfterAll(list, memory, ops); Patched(l, m, code) && SavedCode(l, m, a) == Some(code[a])
    decreases |ops|
  {
    if ops != [] {
      hide After, Patched, SavedCode;
      CallKeepsPatched(list, memory, code, ops[0]);
      var (l, m) := After(list, memory, ops[0]);
      RunsTransparent(l, m, code, ops[1..], a);
    }
  }
}
