/** Uniform variables: the writer leaves out a word the reader expects, so files that have them come back changed. */
module GfdUniformVars {
  import opened Machine
  import opened GfdBytes
  import opened GfdBlock
  import opened GfdBlockRoundTrip
  import opened GfdFile
  import opened GfdRoundTrip
  import opened Wrappers

  // -------- in one block

  lemma {:induction false} ReadWordsAt(d: seq<byte>, pos: nat, n: nat, i: nat)
    requires pos + 4 * n < TWO32 && i < n && ReadWords(d, pos, n).Ok?
    ensures pos + 4 * i + 4 <= |d| && ReadWords(d, pos, n).value[i] == Get32(d, pos + 4 * i)
    decreases n
  {
    hide Get32, U32;
    U32Id(pos + 4);
    if i > 0 {
      ReadWordsAt(d, pos + 4, n - 1, i - 1);
    }
  }

  /** The table entry and the records of a block's second list. */
  lemma SecondSection(d: seq<byte>, base: nat, b: Block) returns (text: nat)
    requires |b.sections| > 1
    requires Holds(d, base + 4 * |b.head|, Words(Table(b.sections, HeaderSize(b))))
    requires Holds(d, base + HeaderSize(b), Words(Linked(Flat(b.sections), TextOffset(b))))
    ensures var at := HeaderSize(b) + Size(b.sections[0]);
            && at <= TextOffset(b)
            && Holds(d, base + 4 * |b.head| + 8, Words(Entry(b.sections[1], at)))
            && Holds(d, base + at, Words(Linked(b.sections[1], text)))
  {
    hide Holds, Words, Linked, Size, Entry, Text;
    var s0, s1, rest := b.sections[0], b.sections[1], Flat(b.sections[2..]);
    var at := HeaderSize(b) + Size(s0);
    text := TextOffset(b) + |Text(s0)|;
    assert b.sections[1..][0] == s1 && b.sections[1..][1..] == b.sections[2..];
    var e0, e1, more := Entry(s0, HeaderSize(b)), Entry(s1, at), Table(b.sections[2..], at + Size(s1));
    WordsAppend(e0, e1 + more);
    WordsAppend(e1, more);
    HoldsPart(d, base + 4 * |b.head|, Words(e0), Words(e1 + more));
    HoldsPart(d, base + 4 * |b.head| + 8, Words(e1), Words(more));
    var l0, l1, l2 := Linked(s0, TextOffset(b)), Linked(s1, text), Linked(rest, text + |Text(s1)|);
    LinkedAppend(s0, s1 + rest, TextOffset(b));
    LinkedAppend(s1, rest, text);
    TextAppend(s0, s1 + rest);
    WordsAppend(l0, l1 + l2);
    WordsAppend(l1, l2);
    HoldsPart(d, base + HeaderSize(b), Words(l0), Words(l1 + l2));
    HoldsPart(d, base + at, Words(l1), Words(l2));
  }

  /** The words that follow a uniform variable's name and kind are its offset and its block. */
  lemma OffsetWord(d: seq<byte>, pos: nat, vars: seq<UniformVar>, text: nat)
    requires vars != [] && Holds(d, pos, Words(Linked(Map(PutUniformVar, vars), text)))
    ensures pos + 16 <= |d| && Get32(d, pos + 8) == vars[0].offset && Get32(d, pos + 12) == vars[0].block
  {
    hide Holds, Words, Tag, Get32;
    WordAt(d, pos, Linked(Map(PutUniformVar, vars), text), 2);
    WordAt(d, pos, Linked(Map(PutUniformVar, vars), text), 3);
  }

  lemma MisreadSection(
      d: seq<byte>, base: nat, patches: seq<u32>, spot: nat, at: nat, text: nat, vars: seq<UniformVar>)
    requires base + at + 20 < TWO32 && |d| < TWO32 && 0 < at < LOW && vars != []
    requires Holds(d, base + spot, Words(Entry(Map(PutUniformVar, vars), at)))
    requires Holds(d, base + at, Words(Linked(Map(PutUniformVar, vars), text)))
    requires base + spot < TWO32 && ReadSection(d, base, patches, base + spot, UNIFORM_VAR).Ok?
    ensures var got := ReadSection(d, base, patches, base + spot, UNIFORM_VAR).value;
            got != [] && GetUniformVar(got[0]).count == vars[0].offset && GetUniformVar(got[0]).offset == vars[0].block
  {
    hide Holds, Words, ReadWords, Linked, Tag, Untag, U32, Map, Relocated, CString, Get32;
    var s := Map(PutUniformVar, vars);
    OffsetWord(d, base + at, vars, text);
    HoldsFits(d, base + at, Words(Linked(s, text)));
    MapFits(PutUniformVar, Shape(true, 3), vars);
    CountBound(Shape(true, 3), s);
    U32Id(|s|);
    U32Id(base + at);
    U32Id(base + at + 4);
    ReadWordsOf(d, base + spot, Entry(s, at));
    UntagTag(at, PATCH_DATA);
    var words := ReadWords(d, base + at + 4, 4);
    assert ReadRecord(d, base, patches, base + at, UNIFORM_VAR).Ok?;
    ReadWordsAt(d, base + at + 4, 4, 1);
    ReadWordsAt(d, base + at + 4, 4, 2);
  }

  /** The first uniform variable comes back with its offset where its count should be, and its block where its offset should. */
  lemma BlockMisread(d: seq<byte>, base: nat, b: Block, layout: Layout, vars: seq<UniformVar>)
    requires |d| < TWO32 && Holds(d, base, Encode(b)) && PatchOffset(b) < LOW
    requires |b.head| == layout.head && 1 < |b.sections| == |layout.shapes| && layout.shapes[1] == UNIFORM_VAR
    requires vars != [] && b.sections[1] == Map(PutUniformVar, vars)
    requires ReadBlock(d, base, |Encode(b)|, layout).Ok?
    ensures var got := ReadBlock(d, base, |Encode(b)|, layout).value;
            && got.sections[1] != [] && GetUniformVar(got.sections[1][0]).count == vars[0].offset
            && GetUniformVar(got.sections[1][0]).offset == vars[0].block
  {
    hide Holds, Words, Encode, PatchTable, Body, Text, ReadWords, ReadSection, ReadSections, ReadPatches, Table, Linked,
         Size, U32, Map, Entry, TextOffset, Flat, GetUniformVar;
    ReadPatchesOf(d, base, b);
    EncodedParts(d, base, b);
    BodyParts(d, base, b);
    var spot, at := 4 * |b.head| + 8, HeaderSize(b) + Size(b.sections[0]);
    var text := SecondSection(d, base, b);
    RoomBehind(d, base, b);
    HoldsFits(d, base + spot, Words(Entry(b.sections[1], at)));
    U32Id(base + 4 * |b.head|);
    U32Id(base + spot);
    SecondRead(d, base, PatchTable(b), base + 4 * |b.head|, layout.shapes);
    MisreadSection(d, base, PatchTable(b), spot, at, text, vars);
  }

  lemma SecondRead(d: seq<byte>, base: u32, patches: seq<u32>, pos: u32, shapes: seq<Shape>)
    requires |shapes| > 1 && ReadSections(d, base, patches, pos, shapes).Ok?
    ensures var second := ReadSection(d, base, patches, U32(pos + 8), shapes[1]);
            second.Ok? && ReadSections(d, base, patches, pos, shapes).value[1] == second.value
  {
    hide ReadSection, U32;
  }

  /** The relocation header lies behind everything else. */
  lemma RoomBehind(d: seq<byte>, base: nat, b: Block)
    requires Holds(d, base, Encode(b))
    ensures base + TextOffset(b) + 40 <= |d|
  {
    hide Holds, Words, Body, Text, PatchTable, RelocationHeader;
    HoldsFits(d, base, Encode(b));
  }

  // -------- what was read once stays

  predicate SameVariables<T>(xs: seq<T>, ys: seq<T>, variables: T -> Variables) {
    |xs| <= |ys| && forall i :: 0 <= i < |xs| ==> variables(ys[i]) == variables(xs[i])
  }

  function VertexVariables(v: VertexShader): Variables { v.variables }
  function PixelVariables(p: PixelShader): Variables { p.variables }
  function GeometryVariables(g: GeometryShader): Variables { g.variables }

  /** Later blocks add shaders and fill in programs; the variables of a shader that was read do not change. */
  predicate KeepsVariables(f: File, g: File) {
    && SameVariables(f.vertexShaders, g.vertexShaders, VertexVariables)
    && SameVariables(f.pixelShaders, g.pixelShaders, PixelVariables)
    && SameVariables(f.geometryShaders, g.geometryShaders, GeometryVariables)
  }

  lemma ReadDataKeeps(d: seq<byte>, pos: u32, major: u32, kind: u32, size: u32, st: State)
    requires ReadData(d, pos, major, kind, size, st).Ok?
    ensures KeepsVariables(st.file, ReadData(d, pos, major, kind, size, st).value.file)
  {
    hide ReadBlock, ReadBinary, ReadWords, GetVariables, GetStreamOut, GetBuffer, Map;
  }

  lemma {:induction false} ReadBlocksKeeps(d: seq<byte>, pos: u32, st: State)
    requires ReadBlocks(d, pos, st).Ok?
    ensures KeepsVariables(st.file, ReadBlocks(d, pos, st).value)
    decreases if pos < |d| then |d| - pos else 0
  {
    hide ReadData, ReadWords, U32;
    if pos < |d| {
      var h := ReadWords(d, pos, 8).value;
      if h[4] != EOF {
        var st' := ReadData(d, U32(pos + 32), h[2], h[4], h[5], st).value;
        ReadDataKeeps(d, U32(pos + 32), h[2], h[4], h[5], st);
        ReadBlocksKeeps(d, U32(pos + 32 + h[5]), st');
      }
    }
  }

  // -------- shader by shader

  /** Variables with which a misread first uniform variable shows. */
  predicate Telling(v: Variables) {
    v.uniformVars != [] && !(v.uniformVars[0].count == v.uniformVars[0].offset == v.uniformVars[0].block)
  }

  /** The list of uniform variables was read with the first one misread. */
  predicate Misread(v: Variables, got: Variables) {
    && v.uniformVars != [] && got.uniformVars != []
    && got.uniformVars[0].count == v.uniformVars[0].offset && got.uniformVars[0].offset == v.uniformVars[0].block
  }

  lemma MisreadShows(v: Variables, got: Variables)
    requires Misread(v, got) && Telling(v)
    ensures got != v
  {
  }

  lemma VariablesMisread(s: seq<seq<Record>>, v: Variables)
    requires |s| >= 5 && s[1] != [] && v.uniformVars != []
    requires GetUniformVar(s[1][0]).count == v.uniformVars[0].offset && GetUniformVar(s[1][0]).offset == v.uniformVars[0].block
    ensures Misread(v, GetVariables(s))
  {
    hide GetUniformVar, GetUniformBlock, GetInitialValue, GetLoopVar, GetSamplerVar;
    assert Map(GetUniformVar, s[1])[0] == GetUniformVar(s[1][0]);
  }

  lemma VertexMisread(d: seq<byte>, pos: nat, v: VertexShader, st: State)
    requires |d| < TWO32 && VertexShaderTyped(v) && Writable(VertexShaderBlock(v)) && v.variables.uniformVars != []
    requires Holds(d, pos, Encode(VertexShaderBlock(v))) && pos < TWO32 && |Encode(VertexShaderBlock(v))| < TWO32
    ensures var r := ReadVertexHeader(d, pos, 1, |Encode(VertexShaderBlock(v))|, st);
            r.Ok? ==> var vs := r.value.file.vertexShaders;
                      |vs| == |st.file.vertexShaders| + 1 && Misread(v.variables, Last(vs).variables)
  {
    hide Holds, Encode, ReadBlock, PatchOffset, GetVariables, GetStreamOut, GetBuffer, PutStreamOut, PutBuffer, Map, U32, Misread;
    var b := VertexShaderBlock(v);
    var r := ReadBlock(d, pos, |Encode(b)|, VertexLayout());
    if r.Ok? {
      BlockMisread(d, pos, b, VertexLayout(), v.variables.uniformVars);
      VariablesMisread(r.value.sections, v.variables);
    }
  }

  lemma PixelMisread(d: seq<byte>, pos: nat, p: PixelShader, st: State)
    requires |d| < TWO32 && PixelShaderTyped(p) && Writable(PixelShaderBlock(p)) && p.variables.uniformVars != []
    requires Holds(d, pos, Encode(PixelShaderBlock(p))) && pos < TWO32 && |Encode(PixelShaderBlock(p))| < TWO32
    ensures var r := ReadPixelHeader(d, pos, 1, |Encode(PixelShaderBlock(p))|, st);
            r.Ok? ==> var ps := r.value.file.pixelShaders;
                      |ps| == |st.file.pixelShaders| + 1 && Misread(p.variables, Last(ps).variables)
  {
    hide Holds, Encode, ReadBlock, PatchOffset, GetVariables, GetBuffer, PutBuffer, Map, U32, Misread;
    var b := PixelShaderBlock(p);
    var r := ReadBlock(d, pos, |Encode(b)|, PixelLayout(1));
    if r.Ok? {
      BlockMisread(d, pos, b, PixelLayout(1), p.variables.uniformVars);
      VariablesMisread(r.value.sections, p.variables);
    }
  }

  lemma GeometryMisread(d: seq<byte>, pos: nat, g: GeometryShader, st: State)
    requires |d| < TWO32 && GeometryShaderTyped(g) && Writable(GeometryShaderBlock(g)) && g.variables.uniformVars != []
    requires Holds(d, pos, Encode(GeometryShaderBlock(g))) && pos < TWO32 && |Encode(GeometryShaderBlock(g))| < TWO32
    ensures var r := ReadGeometryHeader(d, pos, 1, |Encode(GeometryShaderBlock(g))|, st);
            r.Ok? ==> var gs := r.value.file.geometryShaders;
                      |gs| == |st.file.geometryShaders| + 1 && Misread(g.variables, Last(gs).variables)
  {
    hide Holds, Encode, ReadBlock, PatchOffset, GetVariables, GetStreamOut, GetBuffer, PutStreamOut, PutBuffer, Map, U32, Misread;
    var b := GeometryShaderBlock(g);
    var r := ReadBlock(d, pos, |Encode(b)|, GeometryLayout());
    if r.Ok? {
      BlockMisread(d, pos, b, GeometryLayout(), g.variables.uniformVars);
      VariablesMisread(r.value.sections, g.variables);
    }
  }

  /** A typed shader whose block offsets fit and with which a misread first uniform variable shows. */
  predicate VertexTells(x: VertexShader) {
    VertexShaderTyped(x) && Writable(VertexShaderBlock(x)) && Telling(x.variables)
  }

  predicate PixelTells(x: PixelShader) {
    PixelShaderTyped(x) && Writable(PixelShaderBlock(x)) && Telling(x.variables)
  }

  predicate GeometryTells(x: GeometryShader) {
    GeometryShaderTyped(x) && Writable(GeometryShaderBlock(x)) && Telling(x.variables)
  }

  lemma VertexShaderMisread(d: seq<byte>, pos: nat, x: VertexShader, i: nat, id: nat, st: State)
    requires |d| < TWO32 && VertexTells(x)
    requires Holds(d, pos, EncodeChunks(VertexShaderChunks(x, i), id)) && pos < TWO32 && ReadBlocks(d, pos, st).Ok?
    ensures var ys, m := ReadBlocks(d, pos, st).value.vertexShaders, |st.file.vertexShaders|;
            m < |ys| && ys[m].variables != x.variables
  {
    hide Holds, Encode, EncodeChunks, ReadBlocks, VertexShaderBlock, ReadVertexHeader, U32, Misread;
    var cs := VertexShaderChunks(x, i);
    FirstStep(d, pos, cs, id, st);
    var next, r := pos + 32 + |cs[0].data|, ReadVertexHeader(d, pos + 32, 1, |cs[0].data|, st);
    VertexMisread(d, pos + 32, x, st);
    ReadBlocksKeeps(d, next, r.value);
    MisreadShows(x.variables, Last(r.value.file.vertexShaders).variables);
    assert VertexVariables(Last(r.value.file.vertexShaders)) != x.variables;
  }

  lemma PixelShaderMisread(d: seq<byte>, pos: nat, x: PixelShader, i: nat, id: nat, st: State)
    requires |d| < TWO32 && PixelTells(x)
    requires Holds(d, pos, EncodeChunks(PixelShaderChunks(x, i), id)) && pos < TWO32 && ReadBlocks(d, pos, st).Ok?
    ensures var ys, m := ReadBlocks(d, pos, st).value.pixelShaders, |st.file.pixelShaders|;
            m < |ys| && ys[m].variables != x.variables
  {
    hide Holds, Encode, EncodeChunks, ReadBlocks, PixelShaderBlock, ReadPixelHeader, U32, Misread;
    var cs := PixelShaderChunks(x, i);
    FirstStep(d, pos, cs, id, st);
    var next, r := pos + 32 + |cs[0].data|, ReadPixelHeader(d, pos + 32, 1, |cs[0].data|, st);
    PixelMisread(d, pos + 32, x, st);
    ReadBlocksKeeps(d, next, r.value);
    MisreadShows(x.variables, Last(r.value.file.pixelShaders).variables);
    assert PixelVariables(Last(r.value.file.pixelShaders)) != x.variables;
  }

  lemma GeometryShaderMisread(d: seq<byte>, pos: nat, x: GeometryShader, i: nat, id: nat, st: State)
    requires |d| < TWO32 && GeometryTells(x)
    requires Holds(d, pos, EncodeChunks(GeometryShaderChunks(x, i), id)) && pos < TWO32 && ReadBlocks(d, pos, st).Ok?
    ensures var ys, m := ReadBlocks(d, pos, st).value.geometryShaders, |st.file.geometryShaders|;
            m < |ys| && ys[m].variables != x.variables
  {
    hide Holds, Encode, EncodeChunks, ReadBlocks, GeometryShaderBlock, ReadGeometryHeader, U32, Misread, DataChunks, CopyChunks;
    var cs := GeometryShaderChunks(x, i);
    FirstStep(d, pos, cs, id, st);
    var next, r := pos + 32 + |cs[0].data|, ReadGeometryHeader(d, pos + 32, 1, |cs[0].data|, st);
    GeometryMisread(d, pos + 32, x, st);
    ReadBlocksKeeps(d, next, r.value);
    MisreadShows(x.variables, Last(r.value.file.geometryShaders).variables);
    assert GeometryVariables(Last(r.value.file.geometryShaders)) != x.variables;
  }

  // -------- any blocks before it are passed, however they are read

  datatype Counts = Counts(vertex: nat, pixel: nat, geometry: nat)

  function Plus(a: Counts, b: Counts): Counts {
    Counts(a.vertex + b.vertex, a.pixel + b.pixel, a.geometry + b.geometry)
  }

  function CountsOf(f: File): Counts {
    Counts(|f.vertexShaders|, |f.pixelShaders|, |f.geometryShaders|)
  }

  /** Shaders that a block of a kind adds. */
  function AddedBy(kind: u32): Counts {
    Counts(if kind == VERTEX_SHADER_HEADER then 1 else 0, if kind == PIXEL_SHADER_HEADER then 1 else 0,
           if kind == GEOMETRY_SHADER_HEADER then 1 else 0)
  }

  function AddedByAll(cs: seq<Chunk>): Counts {
    if cs == [] then Counts(0, 0, 0) else Plus(AddedBy(cs[0].kind), AddedByAll(cs[1..]))
  }

  lemma DataCounts(d: seq<byte>, pos: u32, major: u32, kind: u32, size: u32, st: State)
    requires ReadData(d, pos, major, kind, size, st).Ok?
    ensures CountsOf(ReadData(d, pos, major, kind, size, st).value.file) == Plus(CountsOf(st.file), AddedBy(kind))
  {
    hide ReadBlock, ReadBinary, ReadWords, GetVariables, GetStreamOut, GetBuffer, Map;
  }

  predicate NoEof(cs: seq<Chunk>) {
    forall i :: 0 <= i < |cs| ==> cs[i].kind != EOF
  }

  /** If a file is read at all, blocks in it are passed one by one, and each adds what its kind adds. */
  lemma {:induction false} ChunksPass(d: seq<byte>, pos: nat, cs: seq<Chunk>, id: nat, st: State) returns (st': State)
    requires |d| < TWO32 && pos < TWO32 && NoEof(cs) && Holds(d, pos, EncodeChunks(cs, id)) && ReadBlocks(d, pos, st).Ok?
    ensures var next := pos + |EncodeChunks(cs, id)|;
            next <= |d| && ReadBlocks(d, next, st') == ReadBlocks(d, pos, st)
    ensures CountsOf(st'.file) == Plus(CountsOf(st.file), AddedByAll(cs))
    decreases |cs|
  {
    hide Holds, EncodeChunks, ReadBlocks, ReadData, AddedBy;
    HoldsFits(d, pos, EncodeChunks(cs, id));
    if cs == [] {
      NoChunks(id);
      st' := st;
    } else {
      FirstStep(d, pos, cs, id, st);
      var c := cs[0];
      var one := ReadData(d, pos + 32, 1, c.kind, |c.data|, st);
      DataCounts(d, pos + 32, 1, c.kind, |c.data|, st);
      st' := ChunksPass(d, pos + 32 + |c.data|, cs[1..], id + 1, one.value);
    }
  }

  lemma {:induction false} AddedByAppend(x: seq<Chunk>, y: seq<Chunk>)
    ensures AddedByAll(x + y) == Plus(AddedByAll(x), AddedByAll(y))
    decreases |x|
  {
    hide AddedBy;
    if x == [] {
      assert x + y == y;
    } else {
      assert (x + y)[0] == x[0] && (x + y)[1..] == x[1..] + y;
      AddedByAppend(x[1..], y);
    }
  }

  lemma FewAdd(c: Chunk, e: Chunk)
    ensures AddedByAll([]) == Counts(0, 0, 0) && AddedByAll([c]) == AddedBy(c.kind)
    ensures AddedByAll([c, e]) == Plus(AddedBy(c.kind), AddedBy(e.kind))
  {
    assert [c][1..] == [] && [c, e][1..] == [e] && [e][1..] == [];
  }

  lemma {:induction false} VertexChunksAdd(xs: seq<VertexShader>, i: nat)
    ensures var cs := Each(VertexShaderChunks, xs, i); NoEof(cs) && AddedByAll(cs) == Counts(|xs|, 0, 0)
    decreases |xs|
  {
    hide Encode, AddedByAll, VertexShaderBlock, PixelShaderBlock;
    if xs == [] {
      FewAdd(Chunk(0, 0, []), Chunk(0, 0, []));
    } else {
      var cs := VertexShaderChunks(xs[0], i);
      FewAdd(cs[0], cs[1]);
      assert cs == [cs[0], cs[1]];
      AddedByAppend(cs, Each(VertexShaderChunks, xs[1..], i + 1));
      VertexChunksAdd(xs[1..], i + 1);
    }
  }

  lemma {:induction false} PixelChunksAdd(xs: seq<PixelShader>, i: nat)
    ensures var cs := Each(PixelShaderChunks, xs, i); NoEof(cs) && AddedByAll(cs) == Counts(0, |xs|, 0)
    decreases |xs|
  {
    hide Encode, AddedByAll, VertexShaderBlock, PixelShaderBlock;
    if xs == [] {
      FewAdd(Chunk(0, 0, []), Chunk(0, 0, []));
    } else {
      var cs := PixelShaderChunks(xs[0], i);
      FewAdd(cs[0], cs[1]);
      assert cs == [cs[0], cs[1]];
      AddedByAppend(cs, Each(PixelShaderChunks, xs[1..], i + 1));
      PixelChunksAdd(xs[1..], i + 1);
    }
  }

  lemma {:induction false} GeometryChunksAdd(xs: seq<GeometryShader>, i: nat)
    ensures var cs := Each(GeometryShaderChunks, xs, i); NoEof(cs) && AddedByAll(cs) == Counts(0, 0, |xs|)
    decreases |xs|
  {
    hide AddedByAll, GeometryShaderChunks;
    if xs == [] {
      FewAdd(Chunk(0, 0, []), Chunk(0, 0, []));
    } else {
      var cs := GeometryShaderChunks(xs[0], i);
      OneGeometryAdds(xs[0], i);
      AddedByAppend(cs, Each(GeometryShaderChunks, xs[1..], i + 1));
      GeometryChunksAdd(xs[1..], i + 1);
    }
  }

  lemma OneGeometryAdds(x: GeometryShader, i: nat)
    ensures var cs := GeometryShaderChunks(x, i); NoEof(cs) && AddedByAll(cs) == Counts(0, 0, 1)
  {
    hide Encode, AddedByAll, GeometryShaderBlock, NoEof;
    var c := Chunk(GEOMETRY_SHADER_HEADER, i, Encode(GeometryShaderBlock(x)));
    ProgramAddsNone(DataChunks(x, i), GEOMETRY_SHADER_PROGRAM);
    ProgramAddsNone(CopyChunks(x, i), GEOMETRY_SHADER_COPY_PROGRAM);
    HeaderAdds(c, DataChunks(x, i), CopyChunks(x, i));
  }

  lemma ProgramAddsNone(cs: seq<Chunk>, kind: u32)
    requires (kind == GEOMETRY_SHADER_PROGRAM || kind == GEOMETRY_SHADER_COPY_PROGRAM)
    requires |cs| <= 1 && (|cs| == 1 ==> cs[0].kind == kind)
    ensures NoEof(cs) && AddedByAll(cs) == Counts(0, 0, 0)
  {
    if cs != [] {
      FewAdd(cs[0], cs[0]);
      assert cs == [cs[0]];
    }
  }

  lemma HeaderAdds(c: Chunk, ds: seq<Chunk>, cs: seq<Chunk>)
    requires c.kind == GEOMETRY_SHADER_HEADER && NoEof(ds) && NoEof(cs)
    requires AddedByAll(ds) == Counts(0, 0, 0) && AddedByAll(cs) == Counts(0, 0, 0)
    ensures NoEof([c] + ds + cs) && AddedByAll([c] + ds + cs) == Counts(0, 0, 1)
  {
    hide AddedByAll, NoEof;
    AddedByAppend([c] + ds, cs);
    AddedByAppend([c], ds);
    FewAdd(c, c);
    assert NoEof([c]) by { OneNoEof(c); }
    NoEofAppend([c], ds);
    NoEofAppend([c] + ds, cs);
  }

  lemma OneNoEof(c: Chunk)
    requires c.kind != EOF
    ensures NoEof([c])
  {
  }

  lemma NoEofAppend(x: seq<Chunk>, y: seq<Chunk>)
    requires NoEof(x) && NoEof(y)
    ensures NoEof(x + y)
  {
  }

  /** The blocks of one list element, between those before and those after it. */
  lemma {:induction false} EachSplit<T>(chunks: (T, nat) -> seq<Chunk>, xs: seq<T>, i: nat, k: nat)
    requires k < |xs|
    ensures Each(chunks, xs, i) == Each(chunks, xs[..k], i) + (chunks(xs[k], i + k) + Each(chunks, xs[k + 1..], i + k + 1))
    decreases k
  {
    if k > 0 {
      EachSplit(chunks, xs[1..], i + 1, k - 1);
      assert xs[1..][..k - 1] == xs[..k][1..] && xs[1..][k..] == xs[k + 1..];
      Assoc(chunks(xs[0], i), Each(chunks, xs[..k][1..], i + 1), chunks(xs[k], i + k) + Each(chunks, xs[k + 1..], i + k + 1));
    }
  }

  // -------- the file

  /** Some shader of the file tells. */
  predicate SomeTells(f: File) {
    || (exists k :: 0 <= k < |f.vertexShaders| && VertexTells(f.vertexShaders[k]))
    || (exists k :: 0 <= k < |f.pixelShaders| && PixelTells(f.pixelShaders[k]))
    || (exists k :: 0 <= k < |f.geometryShaders| && GeometryTells(f.geometryShaders[k]))
  }

  /** Passes the blocks in front of a shader's own, and gives the position they end at. */
  lemma PassTo(d: seq<byte>, pos: nat, before: seq<Chunk>, own: seq<Chunk>, after: seq<Chunk>)
    returns (at: nat, st: State)
    requires |d| < TWO32 && pos < TWO32 && NoEof(before) && ReadBlocks(d, pos, EMPTY).Ok?
    requires Holds(d, pos, EncodeChunks(before + (own + after), 0))
    ensures at <= |d| && Holds(d, at, EncodeChunks(own, |before|)) && ReadBlocks(d, at, st) == ReadBlocks(d, pos, EMPTY)
    ensures CountsOf(st.file) == AddedByAll(before)
  {
    hide Holds, EncodeChunks, ReadBlocks, AddedByAll;
    EncodeChunksAppend(before, own + after, 0);
    EncodeChunksAppend(own, after, |before|);
    HoldsPart(d, pos, EncodeChunks(before, 0), EncodeChunks(own + after, |before|));
    at := pos + |EncodeChunks(before, 0)|;
    HoldsPart(d, at, EncodeChunks(own, |before|), EncodeChunks(after, |before| + |own|));
    st := ChunksPass(d, pos, before, 0, EMPTY);
  }

  lemma VertexTold(d: seq<byte>, pos: nat, f: File, k: nat)
    requires |d| < TWO32 && pos < TWO32 && k < |f.vertexShaders| && VertexTells(f.vertexShaders[k])
    requires Holds(d, pos, EncodeChunks(FileChunks(f), 0))
    ensures ReadBlocks(d, pos, EMPTY) != Ok(f)
  {
    hide Holds, EncodeChunks, ReadBlocks, Each, VertexTells, VertexShaderChunks;
    var xs := f.vertexShaders;
    EachSplit(VertexShaderChunks, xs, 0, k);
    VertexChunksAdd(xs[..k], 0);
    var before, own := Each(VertexShaderChunks, xs[..k], 0), VertexShaderChunks(xs[k], k);
    var rest := Each(VertexShaderChunks, xs[k + 1..], k + 1);
    var ps, gs := Each(PixelShaderChunks, f.pixelShaders, 0), Each(GeometryShaderChunks, f.geometryShaders, 0);
    var ts := Each(TextureChunks, f.textures, 0);
    assert FileChunks(f) == before + (own + (rest + ps + gs + ts));
    if ReadBlocks(d, pos, EMPTY).Ok? {
      var at, st := PassTo(d, pos, before, own, rest + ps + gs + ts);
      VertexShaderMisread(d, at, xs[k], k, |before|, st);
    }
  }

  lemma PixelTold(d: seq<byte>, pos: nat, f: File, k: nat)
    requires |d| < TWO32 && pos < TWO32 && k < |f.pixelShaders| && PixelTells(f.pixelShaders[k])
    requires Holds(d, pos, EncodeChunks(FileChunks(f), 0))
    ensures ReadBlocks(d, pos, EMPTY) != Ok(f)
  {
    hide Holds, EncodeChunks, ReadBlocks, Each, PixelTells, PixelShaderChunks, AddedByAll;
    var vs, xs := Each(VertexShaderChunks, f.vertexShaders, 0), f.pixelShaders;
    EachSplit(PixelShaderChunks, xs, 0, k);
    VertexChunksAdd(f.vertexShaders, 0);
    PixelChunksAdd(xs[..k], 0);
    var before, own := Each(PixelShaderChunks, xs[..k], 0), PixelShaderChunks(xs[k], k);
    var rest := Each(PixelShaderChunks, xs[k + 1..], k + 1);
    var gs, ts := Each(GeometryShaderChunks, f.geometryShaders, 0), Each(TextureChunks, f.textures, 0);
    AddedByAppend(vs, before);
    assert FileChunks(f) == (vs + before) + (own + (rest + gs + ts));
    if ReadBlocks(d, pos, EMPTY).Ok? {
      var at, st := PassTo(d, pos, vs + before, own, rest + gs + ts);
      PixelShaderMisread(d, at, xs[k], k, |vs + before|, st);
    }
  }

  lemma GeometryTold(d: seq<byte>, pos: nat, f: File, k: nat)
    requires |d| < TWO32 && pos < TWO32 && k < |f.geometryShaders| && GeometryTells(f.geometryShaders[k])
    requires Holds(d, pos, EncodeChunks(FileChunks(f), 0))
    ensures ReadBlocks(d, pos, EMPTY) != Ok(f)
  {
    hide Holds, EncodeChunks, ReadBlocks, Each, GeometryTells, GeometryShaderChunks, AddedByAll;
    var vs, ps, xs := Each(VertexShaderChunks, f.vertexShaders, 0), Each(PixelShaderChunks, f.pixelShaders, 0), f.geometryShaders;
    EachSplit(GeometryShaderChunks, xs, 0, k);
    VertexChunksAdd(f.vertexShaders, 0);
    PixelChunksAdd(f.pixelShaders, 0);
    GeometryChunksAdd(xs[..k], 0);
    var before, own := Each(GeometryShaderChunks, xs[..k], 0), GeometryShaderChunks(xs[k], k);
    var rest, ts := Each(GeometryShaderChunks, xs[k + 1..], k + 1), Each(TextureChunks, f.textures, 0);
    AddedByAppend(vs + ps, before);
    AddedByAppend(vs, ps);
    assert FileChunks(f) == (vs + ps + before) + (own + (rest + ts));
    if ReadBlocks(d, pos, EMPTY).Ok? {
      var at, st := PassTo(d, pos, vs + ps + before, own, rest + ts);
      GeometryShaderMisread(d, at, xs[k], k, |vs + ps + before|, st);
    }
  }

  /** A file with such a shader, whatever else is in it, does not come back. */
  lemma UniformVarsMisread(f: File, u: Unset)
    requires |EncodeFile(f, u)| < TWO32 && SomeTells(f)
    ensures ReadFile(EncodeFile(f, u)) != Ok(f)
  {
    hide Holds, Words, ReadWords, ReadBlocks, EncodeChunks, FileChunks, VertexTells, PixelTells, GeometryTells;
    var d := EncodeFile(f, u);
    var header, chunks, eof := Words(FILE_HEADER), EncodeChunks(FileChunks(f), 0), Words(EofHeader(u));
    HoldsAll(d);
    HoldsPart(d, 0, header + chunks, eof);
    HoldsPart(d, 0, header, chunks);
    ReadWordsOf(d, 0, FILE_HEADER);
    if k: nat :| k < |f.vertexShaders| && VertexTells(f.vertexShaders[k]) {
      VertexTold(d, 32, f, k);
    } else if k: nat :| k < |f.pixelShaders| && PixelTells(f.pixelShaders[k]) {
      PixelTold(d, 32, f, k);
    } else {
      var k: nat :| k < |f.geometryShaders| && GeometryTells(f.geometryShaders[k]);
      GeometryTold(d, 32, f, k);
    }
  }

  /** A typed file whose block offsets fit. */
  predicate FileTyped(f: File) {
    && (forall x :: x in f.vertexShaders ==> VertexShaderTyped(x) && Writable(VertexShaderBlock(x)))
    && (forall x :: x in f.pixelShaders ==> PixelShaderTyped(x) && Writable(PixelShaderBlock(x)))
    && (forall x :: x in f.geometryShaders ==> GeometryShaderTyped(x) && Writable(GeometryShaderBlock(x)))
    && (forall x :: x in f.textures ==> TextureTyped(x))
  }

  predicate NoUniformVars(f: File) {
    && (forall x :: x in f.vertexShaders ==> x.variables.uniformVars == [])
    && (forall x :: x in f.pixelShaders ==> x.variables.uniformVars == [])
    && (forall x :: x in f.geometryShaders ==> x.variables.uniformVars == [])
  }

  lemma TypedOk(f: File)
    requires FileTyped(f) && NoUniformVars(f)
    ensures FileOk(f)
  {
    hide Writable;
  }

  /**
   * A written file reads back unchanged exactly when it is clean and has no uniform variables. The one case left
   * open is a file with uniform variables where the first one of every shader has equal count, offset and block.
   */
  lemma RoundTripIff(f: File, u: Unset)
    requires FileTyped(f) && |EncodeFile(f, u)| < TWO32 && (NoUniformVars(f) || SomeTells(f))
    ensures ReadFile(EncodeFile(f, u)) == Ok(f) <==> Clean(f) && NoUniformVars(f)
  {
    hide ReadFile, EncodeFile, FileTyped, Clean, NoUniformVars, FileOk, SomeTells;
    if NoUniformVars(f) {
      TypedOk(f);
      CleanIff(f, u);
    } else {
      UniformVarsMisread(f, u);
    }
  }

  // -------- an input

  /** A pixel shader with one uniform variable `u` of one element, at offset 0 of block 0. */
  predicate OneUniform(p: PixelShader) {
    && PixelShaderTyped(p) && p.data == []
    && p.variables == Variables([], [UniformVar([117], 0, 1, 0, 0)], [], [], [])
  }

  lemma OneUniformFlat(p: PixelShader)
    requires OneUniform(p)
    ensures var b, r := PixelShaderBlock(p), Record(Some([117]), [0, 0, 0]);
            |b.head| == 44 && |b.tail| == 4 && b.sections == [[], [r], [], [], []] && Flat(b.sections) == [r]
  {
    var b, r := PixelShaderBlock(p), PutUniformVar(p.variables.uniformVars[0]);
    assert Map(PutUniformVar, p.variables.uniformVars) == [r];
    assert b.sections == [[], [r], [], [], []];
    assert b.sections[2..] == [[], [], []];
    NothingFlat(b.sections[2..]);
    assert Flat(b.sections[1..]) == [r] + Flat(b.sections[1..][1..]);
    assert b.sections[1..][1..] == b.sections[2..];
  }

  lemma NothingFlat(s: seq<seq<Record>>)
    requires s == [[], [], []]
    ensures Flat(s) == []
  {
    assert s[1..] == [[], []] && s[1..][1..] == [[]] && s[1..][1..][1..] == [];
    assert Flat(s[1..][1..]) == [] + Flat(s[1..][1..][1..]);
  }

  lemma OneUniformSize(p: PixelShader)
    requires OneUniform(p)
    ensures PatchOffset(PixelShaderBlock(p)) == 250 && |Encode(PixelShaderBlock(p))| == 298
  {
    var b, r := PixelShaderBlock(p), Record(Some([117]), [0, 0, 0]);
    OneUniformFlat(p);
    hide PixelShaderBlock, Tag, Words;
    assert UpToNul([117]) == [117];
    assert Text([r]) == NameText(r) + Text([]) && |NameText(r)| == 2;
    assert Size([r]) == 16;
    assert TextSpots([r], HeaderSize(b)) == [HeaderSize(b)];
    var s := b.sections;
    assert s[1..][1..] == [[], [], []] && s[1..][0] == [r];
    OneSpot(s[1..][1..], 4 * |b.head| + 16);
    assert DataSpots(s, 4 * |b.head|) == [] + ([4 * |b.head| + 12] + DataSpots(s[1..][1..], 4 * |b.head| + 16));
  }

  lemma OneSpot(s: seq<seq<Record>>, at: nat)
    requires s == [[], [], []]
    ensures DataSpots(s, at) == []
  {
    assert s[1..] == [[], []] && s[1..][1..] == [[]] && s[1..][1..][1..] == [];
    assert DataSpots(s[1..][1..], at + 16) == [];
  }

  /** The file with just that shader is written, and does not come back. */
  lemma OneUniformLost(p: PixelShader, u: Unset)
    requires OneUniform(p)
    ensures |EncodeFile(File([], [p], [], []), u)| == 32 + 32 + 298 + 32 + 32
    ensures ReadFile(EncodeFile(File([], [p], [], []), u)) != Ok(File([], [p], [], []))
  {
    hide ReadFile, Encode, Words, PatchOffset, PixelShaderBlock;
    var f := File([], [p], [], []);
    OneUniformSize(p);
    var cs := PixelShaderChunks(p, 0);
    assert f.pixelShaders[1..] == [];
    assert Each(PixelShaderChunks, f.pixelShaders, 0) == cs + Each(PixelShaderChunks, f.pixelShaders[1..], 1) == cs;
    assert [] + cs + [] + [] == cs;
    assert FileChunks(f) == cs;
    assert cs[1..][1..] == [];
    assert |EncodeChunks(cs, 0)| == |EncodeChunk(cs[0], 0)| + |EncodeChunks(cs[1..], 1)|;
    assert |EncodeChunks(cs[1..], 1)| == |EncodeChunk(cs[1], 1)| + |EncodeChunks(cs[1..][1..], 2)|;
    assert PixelTells(f.pixelShaders[0]);
    UniformVarsMisread(f, u);
  }
}
