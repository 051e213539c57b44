/** Clearing the region map while no thread is inside it. */
module RegionMapClear {
  import opened RegionMap

  /** The root entry through which a directory or a leaf is reached. */
  ghost function DirIndex(o: Owners, d: nat): nat {
    if d in o.dir && o.dir[d].Slot? then o.dir[d].index else 0
  }

  ghost function LeafIndex(o: Owners, f: nat): nat {
    if f in o.leaf && o.leaf[f].Link? then DirIndex(o, o.leaf[f].entry.0) else 0
  }

  /** Everything reached through root entries from `i` on is still there, and nothing else is. */
  ghost predicate Left(s: State, all: State, o: Owners, i: nat) {
    && s.root == all.root
    && (forall d :: d in s.dirs <==> d in all.dirs && i <= DirIndex(o, d))
    && (forall f :: f in s.leaves <==> f in all.leaves && i <= LeafIndex(o, f))
    && (forall e :: e in s.links <==> e in all.links && i <= DirIndex(o, e.0))
    && (forall e :: e in s.links ==> s.links[e] == all.links[e])
    && (forall c :: c in s.cells <==> c in all.cells && i <= LeafIndex(o, c.0))
  }

  /** The leaf is one of the first `j` of the directory. */
  ghost predicate Among(o: Owners, f: nat, d: nat, j: nat) {
    f in o.leaf && o.leaf[f].Link? && o.leaf[f].entry.0 == d && o.leaf[f].entry.1 < j
  }

  /** The shared memory of a map, as fields. */
  class Tables {
    var root: map<nat, nat>
    var dirs: set<nat>
    var links: map<(nat, nat), nat>
    var leaves: set<nat>
    var cells: map<(nat, nat), nat>

    ghost function Memory(): State
      reads this
    {
      State(root, dirs, links, leaves, cells, map[])
    }

    method DeleteLeaf(f: nat)
      requires f in leaves
      modifies this`leaves, this`cells
      ensures leaves == old(leaves) - {f} && cells == Zeroed(old(cells), f)
    {
      leaves, cells := leaves - {f}, Zeroed(cells, f);
    }

    method DeleteDir(d: nat)
      requires d in dirs
      modifies this`dirs, this`links
      ensures dirs == old(dirs) - {d} && links == Zeroed(old(links), d)
    {
      dirs, links := dirs - {d}, Zeroed(links, d);
    }

    /** The inner loop: deletes the leaves of one directory. */
    method ClearLeaves(d: nat, ghost all: State, ghost o: Owners, ghost i: nat)
      requires Valid(all, o) && all.threads == map[] && Left(Memory(), all, o, i) && d in o.dir && o.dir[d] == Slot(i)
      modifies this`leaves, this`cells
      ensures forall f :: f in leaves <==> f in old(leaves) && !Among(o, f, d, 0x100)
      ensures forall c :: c in cells <==> c in old(cells) && !Among(o, c.0, d, 0x100)
    {
      hide Valid;
      for j := 0 to 0x100
        invariant forall f :: f in leaves <==> f in old(leaves) && !Among(o, f, d, j)
        invariant forall c :: c in cells <==> c in old(cells) && !Among(o, c.0, d, j)
      {
        if (d, j) in links {
          OnlyLeaf(all, o, (d, j));
          assert LeafIndex(o, links[(d, j)]) == i;
          DeleteLeaf(links[(d, j)]);
        } else {
          NoSuchLeaf(all, o, d, j);
        }
      }
    }

    /** Deletes every table, each once and while it is allocated, and leaves none behind. */
    method Clear(ghost o: Owners)
      requires Valid(Memory(), o)
      modifies this
      ensures Memory() == INIT
    {
      hide Valid, Zeroed;
      ghost var all := Memory();
      LeftAll(all, o);
      for i := 0 to 0x100
        invariant Left(Memory(), all, o, i)
      {
        if i in root {
          var d := root[i];
          DirOf(all, o, i);
          ghost var before := Memory();
          ClearLeaves(d, all, o, i);
          DeleteDir(d);
          LeftNext(before, Memory(), all, o, i, d);
        } else {
          NoSuchDir(all, o, i);
        }
      }
      LeftNothing(Memory(), all, o);
      root := map[];
    }
  }

  lemma LeftAll(all: State, o: Owners)
    ensures Left(all, all, o, 0)
  {
  }

  lemma DirOf(all: State, o: Owners, i: nat)
    requires Valid(all, o) && i in all.root
    ensures all.root[i] in all.dirs && all.root[i] in o.dir && o.dir[all.root[i]] == Slot(i)
  {
    hide ThreadsOk, LinksOk, CellsOk, TablesUsed;
  }

  lemma LeftNext(before: State, s: State, all: State, o: Owners, i: nat, d: nat)
    requires Valid(all, o) && all.threads == map[] && Left(before, all, o, i) && i in all.root && all.root[i] == d
    requires s.root == before.root && s.dirs == before.dirs - {d} && s.links == Zeroed(before.links, d)
    requires forall f :: f in s.leaves <==> f in before.leaves && !Among(o, f, d, 0x100)
    requires forall c :: c in s.cells <==> c in before.cells && !Among(o, c.0, d, 0x100)
    ensures Left(s, all, o, i + 1)
  {
    hide Valid, DirIndex, LeafIndex, Among;
    IndexOf(all, o, i);
  }

  /** What is reached through one root entry. */
  lemma IndexOf(all: State, o: Owners, i: nat)
    requires Valid(all, o) && all.threads == map[] && i in all.root
    ensures forall d :: d in all.dirs ==> (DirIndex(o, d) == i <==> d == all.root[i])
    ensures forall f :: f in all.leaves ==> (LeafIndex(o, f) == i <==> Among(o, f, all.root[i], 0x100))
    ensures forall e :: e in all.links ==> e.0 in all.dirs
    ensures forall c :: c in all.cells ==> c.0 in all.leaves
  {
    hide ThreadsOk;
    forall f | f in all.leaves ensures LeafIndex(o, f) == i <==> Among(o, f, all.root[i], 0x100) {
      assert o.leaf[f].Link? && o.leaf[f].entry in all.links;
    }
  }

  lemma NoSuchDir(all: State, o: Owners, i: nat)
    requires Valid(all, o) && all.threads == map[] && i !in all.root
    ensures forall s :: Left(s, all, o, i) ==> Left(s, all, o, i + 1)
  {
    hide ThreadsOk;
  }

  lemma LeftNothing(s: State, all: State, o: Owners)
    requires Valid(all, o) && all.threads == map[] && Left(s, all, o, 0x100)
    ensures s.dirs == {} && s.leaves == {} && s.links == map[] && s.cells == map[]
  {
    hide ThreadsOk;
  }

  lemma OnlyLeaf(all: State, o: Owners, e: (nat, nat))
    requires Valid(all, o) && all.threads == map[] && e in all.links
    ensures all.links[e] in all.leaves && all.links[e] in o.leaf && o.leaf[all.links[e]] == Link(e)
    ensures forall f :: f in o.leaf ==> (o.leaf[f] == Link(e) <==> f == all.links[e])
  {
    hide ThreadsOk, RootOk, CellsOk, DirsUsed;
  }

  lemma NoSuchLeaf(all: State, o: Owners, d: nat, j: nat)
    requires Valid(all, o) && all.threads == map[] && (d, j) !in all.links
    ensures forall f :: f in o.leaf ==> o.leaf[f] != Link((d, j))
  {
    hide ThreadsOk, TablesOk, DirsUsed;
  }
}
