/** The instruction table as an object that is filled definition by definition and then walked. */
module DecoderObject {
  import opened Machine
  import opened InstructionBits
  import opened Decoder
  import L = DecoderLaws
  import opened Wrappers

  class InstructionTable {
    var nodes: Table

    constructor ()
      ensures nodes == Build([])
    {
      nodes := map[];
    }

    method AddTable(p: Path, f: Field)
      modifies this
      ensures nodes == Decoder.AddTable(old(nodes), p, f)
    {
      var n := At(nodes, p);
      for i := 0 to |n.fields|
        invariant nodes == old(nodes) && forall k :: 0 <= k < i ==> n.fields[k] != f
      {
        if n.fields[i] == f {
          return;
        }
      }
      nodes := nodes[p := n.(fields := n.fields + [f])];
    }

    /** initialiseInstructionTable: a node for every test, then the definition at the last one. */
    method Initialise(defs: seq<Definition>)
      requires AllGood(defs) && nodes == map[]
      modifies this
      ensures nodes == Build(defs)
    {
      hide Decoder.AddTable, AddInstruction;
      for k := 0 to |defs|
        invariant nodes == Build(defs[..k])
      {
        var d := defs[k];
        var table: Path := [];
        ghost var before := nodes;
        for i := 0 to |d|
          invariant table == d[..i] && Insert(nodes, d, k, i) == Insert(before, d, k, 0)
        {
          AddTable(table, d[i].field);
          table := table + [d[i]];
        }
        assert table == d;
        nodes := AddInstruction(nodes, table, k);
        assert defs[..k + 1][..k] == defs[..k];
      }
      assert defs[..|defs|] == defs;
    }

    /** decodeInstruction: from each node to the first child that holds something. */
    method DecodeInstruction(w: nat, ghost defs: seq<Definition>) returns (found: Option<nat>)
      requires AllGood(defs) && nodes == Build(defs)
      ensures found == L.Decode(defs, w)
    {
      hide Build, ValueOf, Pick, Walk, Blank, L.MaxLength, Child;
      L.BuildShallow(defs);
      ghost var depth := L.MaxLength(defs);
      var table: Path := [];
      while At(nodes, table).fields != []
        invariant Walk(nodes, table, w, depth) == L.Decode(defs, w)
        decreases depth - |table|
      {
        L.WalkStep(nodes, table, w, depth);
        PickDeeper(nodes, table, At(nodes, table).fields, w);
        table := Choose(table, At(nodes, table).fields, w);
      }
      L.WalkStep(nodes, table, w, depth);
      found := At(nodes, table).instr;
    }

    /** The loop over the field maps of one node. */
    method Choose(p: Path, fields: seq<Field>, w: nat) returns (table: Path)
      requires fields != []
      ensures table == Pick(nodes, p, fields, w)
    {
      hide Child, Blank, At;
      table := p;
      assert fields[0..] == fields;
      for i := 0 to |fields|
        invariant i > 0 && i == |fields| ==> table == Pick(nodes, p, fields, w)
        invariant i < |fields| ==> Pick(nodes, p, fields, w) == Pick(nodes, p, fields[i..], w)
      {
        assert fields[i..][0] == fields[i] && fields[i..][1..] == fields[i + 1..];
        table := Child(p, fields[i], w);
        if !Blank(At(nodes, table)) {
          return;
        }
      }
    }
  }

  /** encodeInstruction: the values of all tests or-ed together. */
  method EncodeInstruction(d: Definition) returns (w: nat)
    requires Good(d)
    ensures w == Encode(d, |d|)
  {
    hide Or, Pow2;
    w := 0;
    for i := 0 to |d|
      invariant w == Encode(d, i)
    {
      w := Or(w, d[i].value * Pow2(StartOf(d[i].field)));
    }
  }
}
