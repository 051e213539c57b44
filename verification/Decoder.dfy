/**
 * The instruction decoder: a table of definitions, each a list of field tests, turned into a trie whose
 * nodes are named by the tests that lead to them.
 */
module Decoder {
  import opened Machine
  import opened InstructionBits
  import opened Wrappers

  datatype Test = Test(field: Field, value: nat)

  type Definition = seq<Test>
  type Path = seq<Test>

  /** A node: the definition that ends here, and the fields its children are told apart by. */
  datatype Node = Node(instr: Option<nat>, fields: seq<Field>)

  type Table = map<Path, Node>

  function At(t: Table, p: Path): Node {
    if p in t then t[p] else Node(None, [])
  }

  /** Definitions with at least one test, on fields of the word, for values the fields can hold. */
  predicate GoodTest(x: Test) {
    WellPlaced(x.field) && x.value < Pow2(WidthOf(x.field))
  }

  predicate Good(d: Definition) {
    d != [] && forall i :: 0 <= i < |d| ==> GoodTest(d[i])
  }

  predicate AllGood(defs: seq<Definition>) {
    forall k :: 0 <= k < |defs| ==> Good(defs[k])
  }

  // -------- the linear scan

  predicate Passes(x: Test, w: nat) {
    GoodTest(x) && ValueOf(x.field, w) == x.value
  }

  /** isA: every test of the definition holds. */
  predicate IsA(d: Definition, w: nat) {
    forall i :: 0 <= i < |d| ==> Passes(d[i], w)
  }

  // -------- building the trie

  function AddTable(t: Table, p: Path, f: Field): Table {
    var n := At(t, p);
    if f in n.fields then t else t[p := n.(fields := n.fields + [f])]
  }

  function AddInstruction(t: Table, p: Path, id: nat): Table {
    t[p := At(t, p).(instr := Some(id))]
  }

  /** The nodes along a definition from test `i` on, then the definition itself. */
  function Insert(t: Table, d: Definition, id: nat, i: nat): Table
    requires i <= |d|
    decreases |d| - i
  {
    if i == |d| then AddInstruction(t, d, id) else Insert(AddTable(t, d[..i], d[i].field), d, id, i + 1)
  }

  function Build(defs: seq<Definition>): Table {
    if defs == [] then map[]
    else Insert(Build(defs[..|defs| - 1]), defs[|defs| - 1], |defs| - 1, 0)
  }

  // -------- decoding

  function Child(p: Path, f: Field, w: nat): Path {
    if WellPlaced(f) then p + [Test(f, ValueOf(f, w))] else p
  }

  predicate Blank(n: Node) {
    n.instr == None && n.fields == []
  }

  /** The first child that is not blank, the last one tried if all are. */
  function Pick(t: Table, p: Path, fields: seq<Field>, w: nat): Path
    requires fields != []
  {
    var c := Child(p, fields[0], w);
    if !Blank(At(t, c)) || |fields| == 1 then c else Pick(t, p, fields[1..], w)
  }

  /** Only nodes above the given depth have children, and their fields lie in the word. */
  predicate Shallow(t: Table, depth: nat) {
    forall p :: p in t && t[p].fields != [] ==> |p| < depth && forall f :: f in t[p].fields ==> WellPlaced(f)
  }

  function Walk(t: Table, p: Path, w: nat, depth: nat): Option<nat>
    requires Shallow(t, depth)
    decreases depth - |p|
  {
    if At(t, p).fields == [] then At(t, p).instr
    else
      PickDeeper(t, p, At(t, p).fields, w);
      Walk(t, Pick(t, p, At(t, p).fields, w), w, depth)
  }

  lemma {:induction false} PickDeeper(t: Table, p: Path, fields: seq<Field>, w: nat)
    requires fields != [] && forall f :: f in fields ==> WellPlaced(f)
    ensures |Pick(t, p, fields, w)| == |p| + 1
    ensures exists f :: f in fields && Pick(t, p, fields, w) == Child(p, f, w)
    decreases |fields|
  {
    hide ValueOf, Blank;
    assert fields[0] in fields;
    if !(!Blank(At(t, Child(p, fields[0], w))) || |fields| == 1) {
      PickDeeper(t, p, fields[1..], w);
    }
  }

  // -------- encoding

  function Encode(d: Definition, i: nat): nat
    requires Good(d) && i <= |d|
  {
    if i == 0 then 0 else Or(Encode(d, i - 1), d[i - 1].value * Pow2(StartOf(d[i - 1].field)))
  }
}
