/** The trie decodes what the linear scan would find. */
module DecoderLaws {
  import opened Machine
  import opened InstructionBits
  import opened Decoder
  import opened Wrappers

  // -------- what the table holds

  function Added(fields: seq<Field>, f: Field): seq<Field> {
    if f in fields then fields else fields + [f]
  }

  /** What inserting a definition changes at each node. */
  lemma {:induction false} InsertedAt(t: Table, d: Definition, id: nat, i: nat, p: Path)
    requires i <= |d|
    ensures At(Insert(t, d, id, i), p).instr == if p == d then Some(id) else At(t, p).instr
    ensures At(Insert(t, d, id, i), p).fields
         == if i <= |p| < |d| && p == d[..|p|] then Added(At(t, p).fields, d[|p|].field) else At(t, p).fields
    decreases |d| - i
  {
    if i < |d| {
      var t' := AddTable(t, d[..i], d[i].field);
      assert At(t', p) == if p == d[..i] then Node(At(t, p).instr, Added(At(t, p).fields, d[i].field)) else At(t, p);
      InsertedAt(t', d, id, i + 1, p);
    }
  }

  /** The definition at a node, the latest if several are the same. */
  ghost predicate InstrOk(t: Table, defs: seq<Definition>) {
    && (forall p :: At(t, p).instr.Some? ==> At(t, p).instr.value < |defs| && defs[At(t, p).instr.value] == p)
    && (forall k :: 0 <= k < |defs| ==> At(t, defs[k]).instr.Some?)
  }

  /** Some definition goes through the node and tests the field there. */
  predicate Through(defs: seq<Definition>, p: Path, f: Field) {
    exists k :: 0 <= k < |defs| && |p| < |defs[k]| && defs[k][..|p|] == p && defs[k][|p|].field == f
  }

  ghost predicate FieldsOk(t: Table, defs: seq<Definition>) {
    forall p, f :: f in At(t, p).fields <==> Through(defs, p, f)
  }

  lemma {:induction false} BuildOk(defs: seq<Definition>)
    ensures InstrOk(Build(defs), defs) && FieldsOk(Build(defs), defs)
  {
    hide Insert, At;
    if defs == [] {
      NothingBuilt();
    } else {
      var n := |defs| - 1;
      var first, d := defs[..n], defs[n];
      var t, t' := Build(first), Build(defs);
      BuildOk(first);
      forall p ensures At(t', p).instr == if p == d then Some(n) else At(t, p).instr { InsertedAt(t, d, n, 0, p); }
      forall p, f ensures f in At(t', p).fields <==> Through(defs, p, f) {
        InsertedAt(t, d, n, 0, p);
        ThroughMore(defs, p, f);
      }
    }
  }

  lemma NothingBuilt()
    ensures InstrOk(Build([]), []) && FieldsOk(Build([]), [])
  {
  }

  lemma ThroughMore(defs: seq<Definition>, p: Path, f: Field)
    requires defs != []
    ensures var n := |defs| - 1;
            Through(defs, p, f)
            <==> Through(defs[..n], p, f) || (|p| < |defs[n]| && defs[n][..|p|] == p && defs[n][|p|].field == f)
  {
    var n := |defs| - 1;
    if Through(defs, p, f) {
      var k :| 0 <= k < |defs| && |p| < |defs[k]| && defs[k][..|p|] == p && defs[k][|p|].field == f;
      assert k < n ==> defs[..n][k] == defs[k];
    }
    if Through(defs[..n], p, f) {
      var k :| 0 <= k < n && |p| < |defs[..n][k]| && defs[..n][k][..|p|] == p && defs[..n][k][|p|].field == f;
      assert defs[k] == defs[..n][k];
    }
  }

  // -------- decoding

  function MaxLength(defs: seq<Definition>): (n: nat)
    ensures forall k :: 0 <= k < |defs| ==> |defs[k]| <= n
  {
    if defs == [] then 0
    else
      var rest := MaxLength(defs[1..]);
      assert forall k :: 0 < k < |defs| ==> defs[k] == defs[1..][k - 1];
      if |defs[0]| > rest then |defs[0]| else rest
  }

  lemma NodePlaced(defs: seq<Definition>, p: Path, f: Field)
    requires AllGood(defs) && Through(defs, p, f)
    ensures |p| < MaxLength(defs) && WellPlaced(f)
  {
    hide MaxLength;
    var k :| 0 <= k < |defs| && |p| < |defs[k]| && defs[k][..|p|] == p && defs[k][|p|].field == f;
    assert GoodTest(defs[k][|p|]);
  }

  lemma BuildShallow(defs: seq<Definition>)
    requires AllGood(defs)
    ensures Shallow(Build(defs), MaxLength(defs))
  {
    hide MaxLength, Build, WellPlaced, Through;
    var t := Build(defs);
    BuildOk(defs);
    forall p | p in t && t[p].fields != [] ensures |p| < MaxLength(defs) && forall f :: f in t[p].fields ==> WellPlaced(f) {
      forall f | f in t[p].fields ensures |p| < MaxLength(defs) && WellPlaced(f) {
        assert f in At(t, p).fields;
        NodePlaced(defs, p, f);
      }
      assert t[p].fields[0] in t[p].fields;
    }
  }

  function Decode(defs: seq<Definition>, w: nat): Option<nat>
    requires AllGood(defs)
  {
    BuildShallow(defs);
    Walk(Build(defs), [], w, MaxLength(defs))
  }

  lemma ValueFits(f: Field, w: nat)
    requires WellPlaced(f)
    ensures Passes(Test(f, ValueOf(f, w)), w)
  {
  }

  lemma {:induction false} WalkSound(t: Table, defs: seq<Definition>, p: Path, w: nat, depth: nat)
    requires Shallow(t, depth) && InstrOk(t, defs) && IsA(p, w)
    ensures Walk(t, p, w, depth).Some? ==>
              Walk(t, p, w, depth).value < |defs| && IsA(defs[Walk(t, p, w, depth).value], w)
    decreases depth - |p|
  {
    hide ValueOf, Pick;
    var fields := At(t, p).fields;
    if fields != [] {
      PickDeeper(t, p, fields, w);
      var f :| f in fields && Pick(t, p, fields, w) == Child(p, f, w);
      ValueFits(f, w);
      WalkSound(t, defs, Pick(t, p, fields, w), w, depth);
    }
  }

  /** Whatever the trie decodes a word to, the word passes every test of that definition. */
  lemma DecodeSound(defs: seq<Definition>, w: nat)
    requires AllGood(defs)
    ensures Decode(defs, w).Some? ==> Decode(defs, w).value < |defs| && IsA(defs[Decode(defs, w).value], w)
  {
    hide Build, MaxLength, Walk;
    BuildOk(defs);
    BuildShallow(defs);
    WalkSound(Build(defs), defs, [], w, MaxLength(defs));
  }

  // -------- completeness

  predicate DisjointFields(f: Field, g: Field) {
    WellPlaced(f) && WellPlaced(g) && (StartOf(f) + WidthOf(f) <= StartOf(g) || StartOf(g) + WidthOf(g) <= StartOf(f))
  }

  predicate BitDisjoint(d: Definition) {
    forall i, j :: 0 <= i < j < |d| ==> DisjointFields(d[i].field, d[j].field)
  }

  /** All definitions test the same field first and at most one more. */
  predicate TwoLevels(defs: seq<Definition>, first: Field) {
    forall k :: 0 <= k < |defs| ==> 1 <= |defs[k]| <= 2 && defs[k][0].field == first
  }

  predicate AllBitDisjoint(defs: seq<Definition>) {
    forall k :: 0 <= k < |defs| ==> BitDisjoint(defs[k])
  }

  /** No definition begins another one. */
  predicate PrefixFree(defs: seq<Definition>) {
    forall j, k :: 0 <= j < |defs| && 0 <= k < |defs| ==> !(defs[k] < defs[j])
  }

  /** Every word that passes a definition decodes to it. */
  ghost predicate Complete(defs: seq<Definition>)
    requires AllGood(defs)
  {
    forall w: nat, k: nat :: k < |defs| && IsA(defs[k], w) ==> Decode(defs, w) == Some(k)
  }

  ghost predicate Exclusive(defs: seq<Definition>) {
    forall w: nat, j, k :: 0 <= j < |defs| && 0 <= k < |defs| && IsA(defs[j], w) && IsA(defs[k], w) ==> j == k
  }

  lemma {:induction false} PickFull(t: Table, p: Path, fields: seq<Field>, w: nat, g: Field)
    requires g in fields && !Blank(At(t, Child(p, g, w)))
    ensures !Blank(At(t, Pick(t, p, fields, w)))
    decreases |fields|
  {
    hide Child, Blank, At;
    if g != fields[0] && Blank(At(t, Child(p, fields[0], w))) {
      PickFull(t, p, fields[1..], w, g);
    }
  }

  /** Or-ing in the tests one by one sets each field and leaves the others. */
  lemma {:induction false} EncodeSets(d: Definition, i: nat, j: nat)
    requires Good(d) && BitDisjoint(d) && i <= |d| && j < |d|
    ensures ValueOf(d[j].field, Encode(d, i)) == if j < i then d[j].value else 0
    decreases i
  {
    hide Or, Pow2, Bits;
    var f := d[j].field;
    if i == 0 {
      NoBits(StartOf(f), WidthOf(f));
    } else {
      var x, a := d[i - 1], Encode(d, i - 1);
      var s, w := StartOf(x.field), WidthOf(x.field);
      EncodeSets(d, i - 1, i - 1);
      EncodeSets(d, i - 1, j);
      OrAdds(a, x.value, s, w);
      if j == i - 1 {
        AddedHere(a, x.value, s, w);
      } else {
        assert DisjointFields(f, x.field);
        if s + w <= StartOf(f) {
          AddedBelow(a, x.value, s, w, StartOf(f), WidthOf(f));
        } else {
          AddedAbove(a, x.value, s, StartOf(f), WidthOf(f));
        }
      }
    }
  }

  lemma NoBits(s: nat, w: nat)
    ensures Bits(0, s, w) == 0
  {
    SmallDiv(0, Pow2(s));
  }

  /** A definition whose fields do not overlap encodes to a word that passes all its tests. */
  lemma EncodePasses(d: Definition)
    requires Good(d) && BitDisjoint(d)
    ensures IsA(d, Encode(d, |d|))
  {
    hide Encode, ValueOf;
    forall j | 0 <= j < |d| ensures Passes(d[j], Encode(d, |d|)) {
      EncodeSets(d, |d|, j);
    }
  }

  lemma RootStep(defs: seq<Definition>, first: Field, w: nat, k: nat)
    requires AllGood(defs) && TwoLevels(defs, first) && k < |defs| && IsA(defs[k], w)
    ensures At(Build(defs), []).fields != []
    ensures Pick(Build(defs), [], At(Build(defs), []).fields, w) == defs[k][..1]
  {
    hide Build, ValueOf, Pick, BitDisjoint, At;
    BuildOk(defs);
    var t := Build(defs);
    var x, fields := defs[k][0], At(t, []).fields;
    assert defs[k][..0] == [];
    assert Through(defs, [], x.field);
    assert x.field in fields;
    forall f | f in fields ensures f == x.field {
      assert Through(defs, [], f);
    }
    assert Passes(x, w);
    PickDeeper(t, [], fields, w);
    assert Child([], x.field, w) == [x] == defs[k][..1];
  }

  /** A word that passes a definition decodes to it, when no word passes two. */
  lemma DecodeComplete(defs: seq<Definition>, first: Field, w: nat, k: nat)
    requires AllGood(defs) && TwoLevels(defs, first) && Exclusive(defs) && PrefixFree(defs) && k < |defs| && IsA(defs[k], w)
    ensures Decode(defs, w) == Some(k)
  {
    hide Build, ValueOf, Pick, BitDisjoint, MaxLength, Blank, IsA, Child, Walk;
    BuildOk(defs);
    BuildShallow(defs);
    RootStep(defs, first, w, k);
    var t, c, n := Build(defs), defs[k][..1], MaxLength(defs);
    WalkStep(t, [], w, n);
    WalkStep(t, c, w, n);
    if |defs[k]| == 1 {
      assert defs[k] == c;
      LeafWithout(defs, w, k);
    } else {
      SecondStep(defs, first, w, k);
      WalkStep(t, Pick(t, c, At(t, c).fields, w), w, n);
    }
  }

  lemma WalkStep(t: Table, p: Path, w: nat, depth: nat)
    requires Shallow(t, depth)
    ensures Walk(t, p, w, depth)
         == if At(t, p).fields == [] then At(t, p).instr else Walk(t, Pick(t, p, At(t, p).fields, w), w, depth)
  {
  }

  lemma NothingThrough(defs: seq<Definition>, k: nat, f: Field)
    requires PrefixFree(defs) && k < |defs|
    ensures !Through(defs, defs[k], f)
  {
  }

  /** A definition that begins no other one ends at a leaf. */
  lemma LeafWithout(defs: seq<Definition>, w: nat, k: nat)
    requires Exclusive(defs) && PrefixFree(defs) && k < |defs| && IsA(defs[k], w)
    ensures At(Build(defs), defs[k]).fields == [] && At(Build(defs), defs[k]).instr == Some(k)
  {
    hide Build, IsA, At, Through, PrefixFree;
    BuildOk(defs);
    var n := At(Build(defs), defs[k]);
    assert n.instr.Some? && defs[n.instr.value] == defs[k];
    assert n.fields != [] ==> n.fields[0] in n.fields && Through(defs, defs[k], n.fields[0]);
    if n.fields != [] {
      NothingThrough(defs, k, n.fields[0]);
    }
  }

  lemma SecondStep(defs: seq<Definition>, first: Field, w: nat, k: nat)
    requires AllGood(defs) && TwoLevels(defs, first) && Exclusive(defs) && k < |defs| && IsA(defs[k], w) && |defs[k]| == 2
    ensures var t, c := Build(defs), defs[k][..1];
            && At(t, c).fields != [] && (forall f :: f in At(t, c).fields ==> WellPlaced(f))
            && At(t, Pick(t, c, At(t, c).fields, w)) == Node(Some(k), [])
  {
    hide Build, ValueOf, Pick, BitDisjoint, MaxLength;
    BuildOk(defs);
    var t, c, x := Build(defs), defs[k][..1], defs[k][1];
    var fields := At(t, c).fields;
    assert Through(defs, c, x.field);
    assert x.field in fields;
    forall f | f in fields ensures WellPlaced(f) { FieldPlaced(defs, c, f); }
    assert Passes(x, w);
    assert Child(c, x.field, w) == defs[k];
    PickFull(t, c, fields, w, x.field);
    PickDeeper(t, c, fields, w);
    var f :| f in fields && Pick(t, c, fields, w) == Child(c, f, w);
    var q := Child(c, f, w);
    NoThird(defs, first, q);
    ValueFits(f, w);
    assert IsA(q, w) by { assert Passes(defs[k][0], w) && q[0] == defs[k][0] && Passes(q[1], w); }
  }

  lemma FieldPlaced(defs: seq<Definition>, p: Path, f: Field)
    requires AllGood(defs) && Through(defs, p, f)
    ensures WellPlaced(f)
  {
    var k :| 0 <= k < |defs| && |p| < |defs[k]| && defs[k][..|p|] == p && defs[k][|p|].field == f;
    assert GoodTest(defs[k][|p|]);
  }

  lemma NoThird(defs: seq<Definition>, first: Field, q: Path)
    requires TwoLevels(defs, first) && |q| == 2
    ensures At(Build(defs), q).fields == []
  {
    hide Build, BitDisjoint;
    BuildOk(defs);
    var fields := At(Build(defs), q).fields;
    assert fields != [] ==> fields[0] in fields && Through(defs, q, fields[0]);
  }

  /** The trie refines the linear scan: it decodes to a definition exactly when the word passes it. */
  lemma DecodeIff(defs: seq<Definition>, first: Field, w: nat, k: nat)
    requires AllGood(defs) && TwoLevels(defs, first) && Exclusive(defs) && PrefixFree(defs) && k < |defs|
    ensures Decode(defs, w) == Some(k) <==> IsA(defs[k], w)
  {
    hide Decode, IsA;
    DecodeSound(defs, w);
    if IsA(defs[k], w) {
      DecodeComplete(defs, first, w, k);
    }
  }

  /** When every definition can be passed, one that begins another shares a word with it. */
  lemma ExclusivePrefixFree(defs: seq<Definition>)
    requires AllGood(defs) && AllBitDisjoint(defs) && Exclusive(defs)
    ensures PrefixFree(defs)
  {
    hide Encode, BitDisjoint, IsA;
    forall j, k | 0 <= j < |defs| && 0 <= k < |defs| ensures !(defs[k] < defs[j]) {
      if defs[k] < defs[j] {
        EncodePasses(defs[j]);
        PrefixPasses(defs[j], defs[k], Encode(defs[j], |defs[j]|));
      }
    }
  }

  lemma PrefixPasses(d: Definition, c: Definition, w: nat)
    requires c < d && IsA(d, w)
    ensures IsA(c, w)
  {
    forall i | 0 <= i < |c| ensures Passes(c[i], w) {
      assert c[i] == d[i] && Passes(d[i], w);
    }
  }

  /** Decoding an encoded definition gives it back. */
  lemma DecodeEncode(defs: seq<Definition>, first: Field, k: nat)
    requires AllGood(defs) && AllBitDisjoint(defs) && TwoLevels(defs, first) && Exclusive(defs) && k < |defs|
    ensures Decode(defs, Encode(defs[k], |defs[k]|)) == Some(k)
  {
    hide Decode, IsA, Encode, BitDisjoint;
    ExclusivePrefixFree(defs);
    EncodePasses(defs[k]);
    DecodeComplete(defs, first, Encode(defs[k], |defs[k]|), k);
  }

  // -------- definitions that begin another one

  /** A walk ends at a leaf. */
  lemma {:induction false} WalkEnds(t: Table, p: Path, w: nat, depth: nat) returns (q: Path)
    requires Shallow(t, depth)
    ensures At(t, q).fields == [] && Walk(t, p, w, depth) == At(t, q).instr
    decreases depth - |p|
  {
    hide At, Pick;
    WalkStep(t, p, w, depth);
    var fields := At(t, p).fields;
    if fields == [] {
      q := p;
    } else {
      NodeDepth(t, p, depth);
      PickDeeper(t, p, fields, w);
      q := WalkEnds(t, Pick(t, p, fields, w), w, depth);
    }
  }

  lemma NodeDepth(t: Table, p: Path, depth: nat)
    requires Shallow(t, depth) && At(t, p).fields != []
    ensures |p| < depth && forall f :: f in At(t, p).fields ==> WellPlaced(f)
  {
  }

  /** In any table, a definition that begins another one is never found, whatever the word. */
  lemma PrefixHidden(defs: seq<Definition>, j: nat, k: nat, w: nat)
    requires AllGood(defs) && j < |defs| && k < |defs| && defs[k] < defs[j]
    ensures Decode(defs, w) != Some(k)
  {
    hide Build, Walk, MaxLength, At;
    BuildOk(defs);
    BuildShallow(defs);
    var t := Build(defs);
    var q := WalkEnds(t, [], w, MaxLength(defs));
    var p, f := defs[k], defs[j][|defs[k]|].field;
    assert Through(defs, p, f);
    assert f in At(t, p).fields;
  }

  lemma CompleteExclusive(defs: seq<Definition>)
    requires AllGood(defs) && Complete(defs)
    ensures Exclusive(defs)
  {
    hide Decode, IsA;
    forall w: nat, j, k | 0 <= j < |defs| && 0 <= k < |defs| && IsA(defs[j], w) && IsA(defs[k], w) ensures j == k {
      assert Decode(defs, w) == Some(j) && Decode(defs, w) == Some(k);
    }
  }

  /** Completeness holds exactly when no word passes two definitions and no definition begins another. */
  lemma CompleteIff(defs: seq<Definition>, first: Field)
    requires AllGood(defs) && TwoLevels(defs, first)
    ensures Complete(defs) <==> Exclusive(defs) && PrefixFree(defs)
  {
    hide Decode, IsA;
    if Exclusive(defs) && PrefixFree(defs) {
      forall w: nat, k: nat | k < |defs| && IsA(defs[k], w) ensures Decode(defs, w) == Some(k) {
        DecodeComplete(defs, first, w, k);
      }
    } else if Complete(defs) {
      CompleteExclusive(defs);
      var j, k :| 0 <= j < |defs| && 0 <= k < |defs| && defs[k] < defs[j];
      assert Good(defs[k]) && |defs[k]| == 1;
      EncodePasses(defs[k]);
      var w := Encode(defs[k], |defs[k]|);
      PrefixHidden(defs, j, k, w);
    }
  }
}
