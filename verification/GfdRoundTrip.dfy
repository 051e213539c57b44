/** Reading a written GFD file gives back the file, up to exactly what the format loses. */
module GfdRoundTrip {
  import opened Machine
  import opened GfdBytes
  import opened GfdBlock
  import opened GfdBlockRoundTrip
  import opened GfdFile
  import opened Wrappers

  // -------- what reading back gives

  function CutUniformBlock(v: UniformBlock): UniformBlock { v.(name := UpToNul(v.name)) }
  function CutUniformVar(v: UniformVar): UniformVar { v.(name := UpToNul(v.name)) }
  function CutSamplerVar(v: SamplerVar): SamplerVar { v.(name := UpToNul(v.name)) }
  function CutAttribVar(v: AttribVar): AttribVar { v.(name := UpToNul(v.name)) }
  function Same<T>(x: T): T { x }

  function CutVariables(v: Variables): Variables {
    Variables(Map(CutUniformBlock, v.uniformBlocks), Map(CutUniformVar, v.uniformVars), v.initialValues, v.loopVars,
              Map(CutSamplerVar, v.samplerVars))
  }

  function CutBuffer(b: Gx2rBuffer): Gx2rBuffer { b.(buffer := []) }

  function CutVertexShader(v: VertexShader): VertexShader {
    v.(variables := CutVariables(v.variables), attribVars := Map(CutAttribVar, v.attribVars),
       gx2rData := CutBuffer(v.gx2rData))
  }

  function CutPixelShader(p: PixelShader): PixelShader {
    p.(variables := CutVariables(p.variables), gx2rData := CutBuffer(p.gx2rData))
  }

  function CutGeometryShader(g: GeometryShader): GeometryShader {
    g.(variables := CutVariables(g.variables), gx2rData := CutBuffer(g.gx2rData),
       gx2rVertexShaderData := CutBuffer(g.gx2rVertexShaderData))
  }

  /** A mipmap comes back in place of the image. */
  function CutTexture(t: Texture): Texture {
    if t.mipmap == [] then t else t.(image := t.mipmap, mipmap := [])
  }

  function AsRead(f: File): File {
    File(Map(CutVertexShader, f.vertexShaders), Map(CutPixelShader, f.pixelShaders),
         Map(CutGeometryShader, f.geometryShaders), Map(CutTexture, f.textures))
  }

  /** The reader accepts the second image block only when it is as long as the first. */
  predicate MipmapFits(t: Texture) { t.mipmap == [] || |t.mipmap| == |t.image| }

  predicate AllMipmapsFit(ts: seq<Texture>) { forall t :: t in ts ==> MipmapFits(t) }

  // -------- records of the variable lists

  lemma {:induction false} MapFits<T(!new)>(put: T -> Record, shape: Shape, xs: seq<T>)
    requires forall x :: put(x).name.Some? == shape.named && |put(x).words| == shape.width
    ensures Fits(shape, Map(put, xs))
    decreases |xs|
  {
    if xs != [] {
      MapFits(put, shape, xs[1..]);
    }
  }

  lemma {:induction false} MapSeen<T(!new)>(put: T -> Record, get: Record -> T, cut: T -> T, xs: seq<T>)
    requires forall x :: get(Seen(put(x))) == cut(x)
    ensures Map(get, SeenAll(Map(put, xs))) == Map(cut, xs)
    decreases |xs|
  {
    if xs != [] {
      var ys := Map(put, xs);
      assert ys[1..] == Map(put, xs[1..]);
      MapSeen(put, get, cut, xs[1..]);
      var ss := SeenAll(ys);
      assert ss[1..] == SeenAll(ys[1..]) && ss[0] == Seen(put(xs[0]));
    }
  }

  lemma {:induction false} MapSame<T>(xs: seq<T>)
    ensures Map(Same<T>, xs) == xs
    decreases |xs|
  {
    if xs != [] {
      MapSame(xs[1..]);
      assert xs == [xs[0]] + xs[1..];
    }
  }

  lemma {:induction false} SeenAt(sections: seq<seq<Record>>, i: nat)
    requires i < |sections|
    ensures |SeenSections(sections)| == |sections| && SeenSections(sections)[i] == SeenAll(sections[i])
    decreases |sections|
  {
    hide SeenAll;
    if |sections| > 1 {
      SeenAt(sections[1..], if i == 0 then 0 else i - 1);
    }
  }

  lemma VariablesFit(v: Variables, more: seq<seq<Record>>, shapes: seq<Shape>)
    requires v.uniformVars == [] && AllFit(shapes, more)
    ensures AllFit(VariableShapes() + shapes, PutVariables(v) + more)
  {
    hide Fits, Map;
    MapFits(PutUniformBlock, UNIFORM_BLOCK, v.uniformBlocks);
    MapFits(PutInitialValue, INITIAL_VALUE, v.initialValues);
    MapFits(PutLoopVar, LOOP_VAR, v.loopVars);
    MapFits(PutSamplerVar, SAMPLER_VAR, v.samplerVars);
    NoneFit(UNIFORM_VAR);
  }

  lemma NoneFit(shape: Shape)
    ensures Fits(shape, Map(PutUniformVar, []))
  {
  }

  lemma VariablesSeen(v: Variables, more: seq<seq<Record>>)
    requires v.uniformVars == []
    ensures |SeenSections(PutVariables(v) + more)| == 5 + |more|
    ensures GetVariables(SeenSections(PutVariables(v) + more)) == CutVariables(v)
  {
    hide SeenAll, Map, UpToNul, SeenSections;
    var s := PutVariables(v) + more;
    SeenAt(s, 0); SeenAt(s, 1); SeenAt(s, 2); SeenAt(s, 3); SeenAt(s, 4);
    MapSeen(PutUniformBlock, GetUniformBlock, CutUniformBlock, v.uniformBlocks);
    MapSeen(PutInitialValue, GetInitialValue, Same<InitialValue>, v.initialValues);
    MapSame(v.initialValues);
    MapSeen(PutLoopVar, GetLoopVar, Same<LoopVar>, v.loopVars);
    MapSame(v.loopVars);
    MapSeen(PutSamplerVar, GetSamplerVar, CutSamplerVar, v.samplerVars);
    NoneSeen();
  }

  lemma NoneSeen()
    ensures Map(GetUniformVar, SeenAll(Map(PutUniformVar, []))) == Map(CutUniformVar, [])
  {
  }

  // -------- headers of shaders and textures

  predicate Writable(b: Block) {
    PatchOffset(b) < LOW
  }

  predicate VertexShaderOk(v: VertexShader) {
    VertexShaderTyped(v) && v.variables.uniformVars == [] && Writable(VertexShaderBlock(v))
  }

  predicate PixelShaderOk(p: PixelShader) {
    PixelShaderTyped(p) && p.variables.uniformVars == [] && Writable(PixelShaderBlock(p))
  }

  predicate GeometryShaderOk(g: GeometryShader) {
    GeometryShaderTyped(g) && g.variables.uniformVars == [] && Writable(GeometryShaderBlock(g))
  }

  lemma StreamOutSame(s: StreamOut)
    requires |s.strides| == 4
    ensures GetStreamOut(PutStreamOut(s)) == s
  {
    assert PutStreamOut(s)[2..] == s.strides;
  }

  function AddVertexShader(st: State, v: VertexShader, data: seq<byte>): State {
    st.(file := st.file.(vertexShaders := st.file.vertexShaders + [CutVertexShader(v).(data := data)]),
        vertexRoom := U32(|v.data|))
  }

  function AddPixelShader(st: State, p: PixelShader, data: seq<byte>): State {
    st.(file := st.file.(pixelShaders := st.file.pixelShaders + [CutPixelShader(p).(data := data)]),
        pixelRoom := U32(|p.data|))
  }

  function AddGeometryShader(st: State, g: GeometryShader, data: seq<byte>, copy: seq<byte>): State {
    st.(file := st.file.(geometryShaders :=
            st.file.geometryShaders + [CutGeometryShader(g).(data := data, vertexShaderData := copy)]),
        geometryRoom := U32(|g.data|), copyRoom := U32(|g.vertexShaderData|))
  }

  function AddTexture(st: State, t: Texture, image: seq<byte>): State {
    st.(file := st.file.(textures := st.file.textures + [Texture(t.surface, image, [], t.rest)]),
        imageRoom := U32(|t.image|), mipmapRoom := U32(|t.mipmap|))
  }

  lemma VertexHeaderOf(d: seq<byte>, pos: nat, v: VertexShader, st: State)
    requires |d| < TWO32 && |v.data| < TWO32 && VertexShaderOk(v) && Holds(d, pos, Encode(VertexShaderBlock(v)))
    ensures pos + |Encode(VertexShaderBlock(v))| <= |d|
    ensures ReadVertexHeader(d, pos, 1, |Encode(VertexShaderBlock(v))|, st) == Ok(AddVertexShader(st, v, []))
  {
    hide Holds, Encode, ReadBlock, PatchOffset, Map, PutVariables, GetVariables, CutVariables, PutStreamOut,
         GetStreamOut, SeenSections, SeenAll, U32, AllFit, VariableShapes;
    var b := VertexShaderBlock(v);
    var attribs := Map(PutAttribVar, v.attribVars);
    AttribsFit(v.attribVars);
    VariablesFit(v.variables, [attribs], [ATTRIB_VAR]);
    BlockRoundTrip(d, pos, b, VertexLayout());
    VariablesSeen(v.variables, [attribs]);
    SeenAt(b.sections, 5);
    MapSeenAttribs(v.attribVars);
    U32Id(|v.data|);
    StreamOutSame(v.streamOut);
    assert b.head[..52] == v.regs && b.head[52] == |v.data| && b.head[53] == 0 && b.head[54] == v.mode;
    assert b.tail[..6] == PutStreamOut(v.streamOut) && b.tail[6..] == PutBuffer(v.gx2rData);
    assert b.tail[9] == b.tail[6..][3];
  }

  lemma AttribsFit(vs: seq<AttribVar>)
    ensures AllFit([ATTRIB_VAR], [Map(PutAttribVar, vs)])
  {
    MapFits(PutAttribVar, ATTRIB_VAR, vs);
  }

  lemma MapSeenAttribs(vs: seq<AttribVar>)
    ensures Map(GetAttribVar, SeenAll(Map(PutAttribVar, vs))) == Map(CutAttribVar, vs)
  {
    hide Map, SeenAll, UpToNul;
    MapSeen(PutAttribVar, GetAttribVar, CutAttribVar, vs);
  }

  lemma PixelHeaderOf(d: seq<byte>, pos: nat, p: PixelShader, st: State)
    requires |d| < TWO32 && |p.data| < TWO32 && PixelShaderOk(p) && Holds(d, pos, Encode(PixelShaderBlock(p)))
    ensures pos + |Encode(PixelShaderBlock(p))| <= |d|
    ensures ReadPixelHeader(d, pos, 1, |Encode(PixelShaderBlock(p))|, st) == Ok(AddPixelShader(st, p, []))
  {
    hide Holds, Encode, ReadBlock, PatchOffset, Map, PutVariables, GetVariables, CutVariables, SeenSections, SeenAll,
         U32, AllFit, VariableShapes;
    var b := PixelShaderBlock(p);
    NoMore(p.variables);
    VariablesFit(p.variables, [], []);
    BlockRoundTrip(d, pos, b, PixelLayout(1));
    VariablesSeen(p.variables, []);
    U32Id(|p.data|);
    assert b.head[..41] == p.regs && b.head[41] == |p.data| && b.head[42] == 0 && b.head[43] == p.mode;
  }

  lemma NoMore(v: Variables)
    ensures AllFit([], []) && PutVariables(v) + [] == PutVariables(v) && VariableShapes() + [] == VariableShapes()
  {
  }

  lemma GeometryHeaderOf(d: seq<byte>, pos: nat, g: GeometryShader, st: State)
    requires |d| < TWO32 && |g.data| < TWO32 && |g.vertexShaderData| < TWO32
    requires GeometryShaderOk(g) && Holds(d, pos, Encode(GeometryShaderBlock(g)))
    ensures pos + |Encode(GeometryShaderBlock(g))| <= |d|
    ensures ReadGeometryHeader(d, pos, 1, |Encode(GeometryShaderBlock(g))|, st)
         == Ok(AddGeometryShader(st, g, [], []))
  {
    hide Holds, Encode, ReadBlock, PatchOffset, Map, PutVariables, GetVariables, CutVariables, PutStreamOut,
         GetStreamOut, SeenSections, SeenAll, U32, AllFit, VariableShapes;
    var b := GeometryShaderBlock(g);
    NoMore(g.variables);
    VariablesFit(g.variables, [], []);
    BlockRoundTrip(d, pos, b, GeometryLayout());
    VariablesSeen(g.variables, []);
    U32Id(|g.data|);
    U32Id(|g.vertexShaderData|);
    StreamOutSame(g.streamOut);
    assert b.head[..19] == g.regs && b.head[19] == |g.data| && b.head[20] == 0 && b.head[21] == |g.vertexShaderData|;
    assert b.head[22] == 0 && b.head[23] == g.mode;
    assert b.tail[..6] == PutStreamOut(g.streamOut);
    assert b.tail[6..10] == PutBuffer(g.gx2rData) && b.tail[10..] == PutBuffer(g.gx2rVertexShaderData);
    assert b.tail[9] == b.tail[6..10][3] && b.tail[13] == b.tail[10..][3];
  }

  lemma TextureHeaderOf(d: seq<byte>, pos: nat, t: Texture, st: State)
    requires |d| < TWO32 && |t.image| < TWO32 && |t.mipmap| < TWO32 && TextureTyped(t)
    requires Holds(d, pos, Words(TextureHeader(t)))
    ensures pos + 156 <= |d|
    ensures ReadTextureHeader(d, pos, 1, st) == Ok(AddTexture(st, t, []))
  {
    hide Holds, Words, ReadWords, U32;
    var ws := TextureHeader(t);
    HoldsFits(d, pos, Words(ws));
    ReadWordsOf(d, pos, ws);
    U32Id(|t.image|);
    U32Id(|t.mipmap|);
    assert ws[..8] == t.surface && ws[12..] == t.rest;
    assert ws[8] == |t.image| && ws[9] == 0 && ws[10] == |t.mipmap| && ws[11] == 0;
  }

  // -------- block by block

  /** What the block loop does from one block on. */
  function Then(d: seq<byte>, next: u32, r: Result<State>): Result<File> {
    match r
    case Fail => Fail
    case Ok(st) => ReadBlocks(d, next, st)
  }

  lemma StepOf(d: seq<byte>, pos: nat, c: Chunk, id: nat, st: State)
    requires |d| < TWO32 && c.kind != EOF && Holds(d, pos, EncodeChunk(c, id))
    ensures pos + 32 + |c.data| <= |d|
    ensures Holds(d, pos + 32, c.data)
    ensures ReadBlocks(d, pos, st) == Then(d, pos + 32 + |c.data|, ReadData(d, pos + 32, 1, c.kind, |c.data|, st))
  {
    hide Holds, Words, ReadWords, ReadData, U32;
    var h := ChunkHeader(c, id);
    HoldsPart(d, pos, Words(h), c.data);
    HoldsFits(d, pos + 32, c.data);
    ReadWordsOf(d, pos, h);
    U32Id(|c.data|);
    U32Id(pos + 32);
    U32Id(pos + 32 + |c.data|);
  }

  /** The first of several blocks. */
  lemma FirstStep(d: seq<byte>, pos: nat, cs: seq<Chunk>, id: nat, st: State)
    requires cs != [] && |d| < TWO32 && cs[0].kind != EOF && Holds(d, pos, EncodeChunks(cs, id))
    ensures var c := cs[0];
            var next := pos + 32 + |c.data|;
            && next <= |d| && Holds(d, pos + 32, c.data) && Holds(d, next, EncodeChunks(cs[1..], id + 1))
            && |EncodeChunks(cs, id)| == 32 + |c.data| + |EncodeChunks(cs[1..], id + 1)|
            && ReadBlocks(d, pos, st) == Then(d, next, ReadData(d, pos + 32, 1, c.kind, |c.data|, st))
  {
    hide Holds, ReadBlocks, ReadData, EncodeChunk, Then;
    HoldsPart(d, pos, EncodeChunk(cs[0], id), EncodeChunks(cs[1..], id + 1));
    StepOf(d, pos, cs[0], id, st);
  }

  lemma ReadBinaryOf(d: seq<byte>, pos: nat, s: seq<byte>)
    requires |d| < TWO32 && Holds(d, pos, s)
    ensures pos + |s| <= |d| && ReadBinary(d, pos, |s|) == Ok(s)
  {
    U32Id(pos + |s|);
  }

  lemma LastOf<T>(xs: seq<T>, x: T, y: T)
    ensures Last(xs + [x]) == x && SetLast(xs + [x], y) == xs + [y]
  {
    assert (xs + [x])[..|xs|] == xs;
  }

  lemma {:induction false} NoChunks(id: nat)
    ensures EncodeChunks([], id) == []
  {
  }

  lemma VertexShaderRead(d: seq<byte>, pos: nat, v: VertexShader, i: nat, id: nat, st: State)
    requires |d| < TWO32 && VertexShaderOk(v) && Holds(d, pos, EncodeChunks(VertexShaderChunks(v, i), id))
    ensures var next := pos + |EncodeChunks(VertexShaderChunks(v, i), id)|;
            next <= |d| && ReadBlocks(d, pos, st) == ReadBlocks(d, next, AddVertexShader(st, v, v.data))
  {
    hide Holds, Encode, EncodeChunks, ReadBlocks, VertexShaderOk, VertexShaderBlock, ReadVertexHeader, ReadBinary, U32,
         CutVertexShader, Last, SetLast;
    var cs := VertexShaderChunks(v, i);
    FirstStep(d, pos, cs, id, st);
    var mid := pos + 32 + |cs[0].data|;
    FirstStep(d, mid, cs[1..], id + 1, AddVertexShader(st, v, []));
    NoChunks(id + 2);
    assert cs[1..][1..] == [];
    VertexHeaderOf(d, pos + 32, v, st);
    ReadBinaryOf(d, mid + 32, v.data);
    U32Id(|v.data|);
    LastOf(st.file.vertexShaders, CutVertexShader(v).(data := []), CutVertexShader(v).(data := v.data));
    assert CutVertexShader(v).(data := []).(data := v.data) == CutVertexShader(v).(data := v.data);
  }

  lemma PixelShaderRead(d: seq<byte>, pos: nat, p: PixelShader, i: nat, id: nat, st: State)
    requires |d| < TWO32 && PixelShaderOk(p) && Holds(d, pos, EncodeChunks(PixelShaderChunks(p, i), id))
    ensures var next := pos + |EncodeChunks(PixelShaderChunks(p, i), id)|;
            next <= |d| && ReadBlocks(d, pos, st) == ReadBlocks(d, next, AddPixelShader(st, p, p.data))
  {
    hide Holds, Encode, EncodeChunks, ReadBlocks, PixelShaderOk, PixelShaderBlock, ReadPixelHeader, ReadBinary, U32,
         CutPixelShader, Last, SetLast;
    var cs := PixelShaderChunks(p, i);
    FirstStep(d, pos, cs, id, st);
    var mid := pos + 32 + |cs[0].data|;
    FirstStep(d, mid, cs[1..], id + 1, AddPixelShader(st, p, []));
    NoChunks(id + 2);
    assert cs[1..][1..] == [];
    PixelHeaderOf(d, pos + 32, p, st);
    ReadBinaryOf(d, mid + 32, p.data);
    U32Id(|p.data|);
    LastOf(st.file.pixelShaders, CutPixelShader(p).(data := []), CutPixelShader(p).(data := p.data));
  }

  lemma GeometryCopyRead(d: seq<byte>, pos: nat, g: GeometryShader, i: nat, id: nat, st: State)
    requires |d| < TWO32 && Holds(d, pos, EncodeChunks(CopyChunks(g, i), id))
    ensures var next := pos + |EncodeChunks(CopyChunks(g, i), id)|;
            next <= |d| && ReadBlocks(d, pos, AddGeometryShader(st, g, g.data, []))
                           == ReadBlocks(d, next, AddGeometryShader(st, g, g.data, g.vertexShaderData))
  {
    hide Holds, EncodeChunks, ReadBlocks, ReadBinary, U32, CutGeometryShader, Last, SetLast;
    if g.vertexShaderData == [] {
      NoChunks(id);
      HoldsFits(d, pos, []);
    } else {
      FirstStep(d, pos, CopyChunks(g, i), id, AddGeometryShader(st, g, g.data, []));
      NoChunks(id + 1);
      assert CopyChunks(g, i)[1..] == [];
      ReadBinaryOf(d, pos + 32, g.vertexShaderData);
      U32Id(|g.vertexShaderData|);
      LastOf(st.file.geometryShaders, CutGeometryShader(g).(data := g.data, vertexShaderData := []),
             CutGeometryShader(g).(data := g.data, vertexShaderData := g.vertexShaderData));
    }
  }

  lemma GeometryDataRead(d: seq<byte>, pos: nat, g: GeometryShader, i: nat, id: nat, st: State)
    requires |d| < TWO32 && Holds(d, pos, EncodeChunks(DataChunks(g, i), id))
    ensures var next := pos + |EncodeChunks(DataChunks(g, i), id)|;
            next <= |d| && ReadBlocks(d, pos, AddGeometryShader(st, g, [], []))
                           == ReadBlocks(d, next, AddGeometryShader(st, g, g.data, []))
  {
    hide Holds, EncodeChunks, ReadBlocks, ReadBinary, U32, CutGeometryShader, Last, SetLast;
    if g.data == [] {
      NoChunks(id);
      HoldsFits(d, pos, []);
    } else {
      FirstStep(d, pos, DataChunks(g, i), id, AddGeometryShader(st, g, [], []));
      NoChunks(id + 1);
      assert DataChunks(g, i)[1..] == [];
      ReadBinaryOf(d, pos + 32, g.data);
      U32Id(|g.data|);
      LastOf(st.file.geometryShaders, CutGeometryShader(g).(data := [], vertexShaderData := []),
             CutGeometryShader(g).(data := g.data, vertexShaderData := []));
    }
  }

  lemma GeometryShaderRead(d: seq<byte>, pos: nat, g: GeometryShader, i: nat, id: nat, st: State)
    requires |d| < TWO32 && GeometryShaderOk(g) && Holds(d, pos, EncodeChunks(GeometryShaderChunks(g, i), id))
    ensures var next := pos + |EncodeChunks(GeometryShaderChunks(g, i), id)|;
            next <= |d|
            && ReadBlocks(d, pos, st) == ReadBlocks(d, next, AddGeometryShader(st, g, g.data, g.vertexShaderData))
  {
    hide Holds, Encode, EncodeChunks, ReadBlocks, GeometryShaderOk, GeometryShaderBlock, ReadGeometryHeader, U32,
         AddGeometryShader, DataChunks, CopyChunks;
    var header := [Chunk(GEOMETRY_SHADER_HEADER, i, Encode(GeometryShaderBlock(g)))];
    var ds, cs := DataChunks(g, i), CopyChunks(g, i);
    var more := header + ds;
    EncodeChunksAppend(more, cs, id);
    HoldsPart(d, pos, EncodeChunks(more, id), EncodeChunks(cs, id + |more|));
    EncodeChunksAppend(header, ds, id);
    HoldsPart(d, pos, EncodeChunks(header, id), EncodeChunks(ds, id + 1));
    FirstStep(d, pos, header, id, st);
    NoChunks(id + 1);
    assert header[1..] == [];
    GeometrySizes(d, pos + |EncodeChunks(header, id)|, g, i, id + 1, id + |more|, pos + |EncodeChunks(more, id)|);
    GeometryHeaderOf(d, pos + 32, g, st);
    GeometryDataRead(d, pos + |EncodeChunks(header, id)|, g, i, id + 1, st);
    GeometryCopyRead(d, pos + |EncodeChunks(more, id)|, g, i, id + |more|, st);
  }

  lemma GeometrySizes(d: seq<byte>, pos: nat, g: GeometryShader, i: nat, id: nat, id': nat, pos': nat)
    requires |d| < TWO32
    requires Holds(d, pos, EncodeChunks(DataChunks(g, i), id)) && Holds(d, pos', EncodeChunks(CopyChunks(g, i), id'))
    ensures |g.data| < TWO32 && |g.vertexShaderData| < TWO32
  {
    hide Holds, EncodeChunk;
    HoldsFits(d, pos, EncodeChunks(DataChunks(g, i), id));
    HoldsFits(d, pos', EncodeChunks(CopyChunks(g, i), id'));
  }

  lemma TextureRead(d: seq<byte>, pos: nat, t: Texture, i: nat, id: nat, st: State)
    requires |d| < TWO32 && TextureTyped(t) && Holds(d, pos, EncodeChunks(TextureChunks(t, i), id))
    ensures var next := pos + |EncodeChunks(TextureChunks(t, i), id)|;
            next <= |d|
            && ReadBlocks(d, pos, st)
               == if MipmapFits(t) then ReadBlocks(d, next, AddTexture(st, t, CutTexture(t).image)) else Fail
  {
    hide Holds, Words, TextureHeader, EncodeChunks, ReadBlocks, ReadTextureHeader, ReadBinary, U32, Last, SetLast;
    var cs := TextureChunks(t, i);
    var header, image := AddTexture(st, t, []), AddTexture(st, t, t.image);
    FirstStep(d, pos, cs, id, st);
    var at := pos + 32 + |cs[0].data|;
    FirstStep(d, at, cs[1..], id + 1, header);
    var next := at + 32 + |t.image|;
    TextureSizes(d, next, t, i, id + 2);
    TextureHeaderOf(d, pos + 32, t, st);
    ReadBinaryOf(d, at + 32, t.image);
    U32Id(|t.image|);
    LastOf(st.file.textures, Texture(t.surface, [], [], t.rest), Texture(t.surface, t.image, [], t.rest));
    assert cs[1..][1..] == MipmapChunks(t, i);
    assert ReadBlocks(d, pos, st) == ReadBlocks(d, next, image);
    if t.mipmap == [] {
      NoChunks(id + 2);
    } else {
      FirstStep(d, next, MipmapChunks(t, i), id + 2, image);
      NoChunks(id + 3);
      assert MipmapChunks(t, i)[1..] == [];
      ReadBinaryOf(d, next + 32, t.mipmap);
      LastOf(st.file.textures, Texture(t.surface, t.image, [], t.rest), Texture(t.surface, t.mipmap, [], t.rest));
    }
  }

  lemma TextureSizes(d: seq<byte>, pos: nat, t: Texture, i: nat, id: nat)
    requires |d| < TWO32 && Holds(d, pos, EncodeChunks(MipmapChunks(t, i), id))
    ensures |t.mipmap| < TWO32
  {
    hide Holds, EncodeChunk;
    HoldsFits(d, pos, EncodeChunks(MipmapChunks(t, i), id));
  }

  // -------- list by list

  function AddVertexShaders(st: State, xs: seq<VertexShader>): State
    decreases |xs|
  {
    if xs == [] then st else AddVertexShaders(AddVertexShader(st, xs[0], xs[0].data), xs[1..])
  }

  lemma {:induction false} AddedVertexShaders(st: State, xs: seq<VertexShader>)
    ensures AddVertexShaders(st, xs).file == st.file.(vertexShaders := st.file.vertexShaders + Map(CutVertexShader, xs))
    decreases |xs|
  {
    hide CutVertexShader, U32;
    if xs != [] {
      var one := AddVertexShader(st, xs[0], xs[0].data);
      AddedVertexShaders(one, xs[1..]);
      Assoc(st.file.vertexShaders, [CutVertexShader(xs[0])], Map(CutVertexShader, xs[1..]));
      assert CutVertexShader(xs[0]) == one.file.vertexShaders[|st.file.vertexShaders|] by { CutKeepsVertexShader(xs[0]); }
    }
  }

  lemma {:induction false} VertexShadersRead(d: seq<byte>, pos: nat, xs: seq<VertexShader>, i: nat, id: nat, st: State)
    requires |d| < TWO32 && forall x :: x in xs ==> VertexShaderOk(x)
    requires Holds(d, pos, EncodeChunks(Each(VertexShaderChunks, xs, i), id))
    ensures var next := pos + |EncodeChunks(Each(VertexShaderChunks, xs, i), id)|;
            next <= |d| && ReadBlocks(d, pos, st) == ReadBlocks(d, next, AddVertexShaders(st, xs))
    decreases |xs|
  {
    hide Holds, EncodeChunks, ReadBlocks, VertexShaderOk, AddVertexShader, VertexShaderChunks;
    HoldsFits(d, pos, EncodeChunks(Each(VertexShaderChunks, xs, i), id));
    if xs == [] {
      NoChunks(id);
    } else {
      var first, more := VertexShaderChunks(xs[0], i), Each(VertexShaderChunks, xs[1..], i + 1);
      EncodeChunksAppend(first, more, id);
      HoldsPart(d, pos, EncodeChunks(first, id), EncodeChunks(more, id + |first|));
      VertexShaderRead(d, pos, xs[0], i, id, st);
      VertexShadersRead(d, pos + |EncodeChunks(first, id)|, xs[1..], i + 1, id + |first|,
        AddVertexShader(st, xs[0], xs[0].data));
    }
  }

  function AddPixelShaders(st: State, xs: seq<PixelShader>): State
    decreases |xs|
  {
    if xs == [] then st else AddPixelShaders(AddPixelShader(st, xs[0], xs[0].data), xs[1..])
  }

  lemma {:induction false} AddedPixelShaders(st: State, xs: seq<PixelShader>)
    ensures AddPixelShaders(st, xs).file == st.file.(pixelShaders := st.file.pixelShaders + Map(CutPixelShader, xs))
    decreases |xs|
  {
    hide CutPixelShader, U32;
    if xs != [] {
      var one := AddPixelShader(st, xs[0], xs[0].data);
      AddedPixelShaders(one, xs[1..]);
      Assoc(st.file.pixelShaders, [CutPixelShader(xs[0])], Map(CutPixelShader, xs[1..]));
      assert CutPixelShader(xs[0]) == one.file.pixelShaders[|st.file.pixelShaders|] by { CutKeepsPixelShader(xs[0]); }
    }
  }

  lemma {:induction false} PixelShadersRead(d: seq<byte>, pos: nat, xs: seq<PixelShader>, i: nat, id: nat, st: State)
    requires |d| < TWO32 && forall x :: x in xs ==> PixelShaderOk(x)
    requires Holds(d, pos, EncodeChunks(Each(PixelShaderChunks, xs, i), id))
    ensures var next := pos + |EncodeChunks(Each(PixelShaderChunks, xs, i), id)|;
            next <= |d| && ReadBlocks(d, pos, st) == ReadBlocks(d, next, AddPixelShaders(st, xs))
    decreases |xs|
  {
    hide Holds, EncodeChunks, ReadBlocks, PixelShaderOk, AddPixelShader, PixelShaderChunks;
    HoldsFits(d, pos, EncodeChunks(Each(PixelShaderChunks, xs, i), id));
    if xs == [] {
      NoChunks(id);
    } else {
      var first, more := PixelShaderChunks(xs[0], i), Each(PixelShaderChunks, xs[1..], i + 1);
      EncodeChunksAppend(first, more, id);
      HoldsPart(d, pos, EncodeChunks(first, id), EncodeChunks(more, id + |first|));
      PixelShaderRead(d, pos, xs[0], i, id, st);
      PixelShadersRead(d, pos + |EncodeChunks(first, id)|, xs[1..], i + 1, id + |first|,
        AddPixelShader(st, xs[0], xs[0].data));
    }
  }

  function AddGeometryShaders(st: State, xs: seq<GeometryShader>): State
    decreases |xs|
  {
    if xs == [] then st else AddGeometryShaders(AddGeometryShader(st, xs[0], xs[0].data, xs[0].vertexShaderData), xs[1..])
  }

  lemma {:induction false} AddedGeometryShaders(st: State, xs: seq<GeometryShader>)
    ensures AddGeometryShaders(st, xs).file == st.file.(geometryShaders := st.file.geometryShaders + Map(CutGeometryShader, xs))
    decreases |xs|
  {
    hide CutGeometryShader, U32;
    if xs != [] {
      var one := AddGeometryShader(st, xs[0], xs[0].data, xs[0].vertexShaderData);
      AddedGeometryShaders(one, xs[1..]);
      Assoc(st.file.geometryShaders, [CutGeometryShader(xs[0])], Map(CutGeometryShader, xs[1..]));
      assert CutGeometryShader(xs[0]) == one.file.geometryShaders[|st.file.geometryShaders|] by { CutKeepsGeometryShader(xs[0]); }
    }
  }

  lemma {:induction false} GeometryShadersRead(d: seq<byte>, pos: nat, xs: seq<GeometryShader>, i: nat, id: nat, st: State)
    requires |d| < TWO32 && forall x :: x in xs ==> GeometryShaderOk(x)
    requires Holds(d, pos, EncodeChunks(Each(GeometryShaderChunks, xs, i), id))
    ensures var next := pos + |EncodeChunks(Each(GeometryShaderChunks, xs, i), id)|;
            next <= |d| && ReadBlocks(d, pos, st) == ReadBlocks(d, next, AddGeometryShaders(st, xs))
    decreases |xs|
  {
    hide Holds, EncodeChunks, ReadBlocks, GeometryShaderOk, AddGeometryShader, GeometryShaderChunks;
    HoldsFits(d, pos, EncodeChunks(Each(GeometryShaderChunks, xs, i), id));
    if xs == [] {
      NoChunks(id);
    } else {
      var first, more := GeometryShaderChunks(xs[0], i), Each(GeometryShaderChunks, xs[1..], i + 1);
      EncodeChunksAppend(first, more, id);
      HoldsPart(d, pos, EncodeChunks(first, id), EncodeChunks(more, id + |first|));
      GeometryShaderRead(d, pos, xs[0], i, id, st);
      GeometryShadersRead(d, pos + |EncodeChunks(first, id)|, xs[1..], i + 1, id + |first|,
        AddGeometryShader(st, xs[0], xs[0].data, xs[0].vertexShaderData));
    }
  }

  lemma CutKeepsVertexShader(v: VertexShader)
    ensures CutVertexShader(v).(data := v.data) == CutVertexShader(v)
  {
  }

  lemma CutKeepsPixelShader(p: PixelShader)
    ensures CutPixelShader(p).(data := p.data) == CutPixelShader(p)
  {
  }

  lemma CutKeepsGeometryShader(g: GeometryShader)
    ensures CutGeometryShader(g).(data := g.data, vertexShaderData := g.vertexShaderData) == CutGeometryShader(g)
  {
  }

  function AddTextures(st: State, xs: seq<Texture>): State
    decreases |xs|
  {
    if xs == [] then st else AddTextures(AddTexture(st, xs[0], CutTexture(xs[0]).image), xs[1..])
  }

  lemma {:induction false} AddedTextures(st: State, xs: seq<Texture>)
    ensures AddTextures(st, xs).file == st.file.(textures := st.file.textures + Map(CutTexture, xs))
    decreases |xs|
  {
    hide U32;
    if xs != [] {
      AddedTextures(AddTexture(st, xs[0], CutTexture(xs[0]).image), xs[1..]);
      assert Texture(xs[0].surface, CutTexture(xs[0]).image, [], xs[0].rest) == CutTexture(xs[0]);
      Assoc(st.file.textures, [CutTexture(xs[0])], Map(CutTexture, xs[1..]));
    }
  }

  lemma {:induction false} TexturesRead(d: seq<byte>, pos: nat, xs: seq<Texture>, i: nat, id: nat, st: State)
    requires |d| < TWO32 && forall x :: x in xs ==> TextureTyped(x)
    requires Holds(d, pos, EncodeChunks(Each(TextureChunks, xs, i), id))
    ensures var next := pos + |EncodeChunks(Each(TextureChunks, xs, i), id)|;
            next <= |d|
            && ReadBlocks(d, pos, st) == if AllMipmapsFit(xs) then ReadBlocks(d, next, AddTextures(st, xs)) else Fail
    decreases |xs|
  {
    hide Holds, EncodeChunks, ReadBlocks, TextureTyped, AddTexture, TextureChunks, MipmapFits;
    HoldsFits(d, pos, EncodeChunks(Each(TextureChunks, xs, i), id));
    if xs == [] {
      NoChunks(id);
    } else {
      var first, more := TextureChunks(xs[0], i), Each(TextureChunks, xs[1..], i + 1);
      EncodeChunksAppend(first, more, id);
      HoldsPart(d, pos, EncodeChunks(first, id), EncodeChunks(more, id + |first|));
      TextureRead(d, pos, xs[0], i, id, st);
      TexturesRead(d, pos + |EncodeChunks(first, id)|, xs[1..], i + 1, id + |first|,
        AddTexture(st, xs[0], CutTexture(xs[0]).image));
      assert xs == [xs[0]] + xs[1..];
      assert AllMipmapsFit(xs) <==> MipmapFits(xs[0]) && AllMipmapsFit(xs[1..]);
    }
  }

  // -------- the file

  predicate FileOk(f: File) {
    && (forall x :: x in f.vertexShaders ==> VertexShaderOk(x))
    && (forall x :: x in f.pixelShaders ==> PixelShaderOk(x))
    && (forall x :: x in f.geometryShaders ==> GeometryShaderOk(x))
    && (forall x :: x in f.textures ==> TextureTyped(x))
  }

  /** Adding every part of a file to an empty one gives the file as read. */
  function AddAll(f: File): State {
    AddTextures(AddGeometryShaders(AddPixelShaders(AddVertexShaders(EMPTY, f.vertexShaders), f.pixelShaders),
                                   f.geometryShaders), f.textures)
  }

  lemma AddedAll(f: File)
    ensures AddAll(f).file == AsRead(f)
  {
    hide AddVertexShaders, AddPixelShaders, AddGeometryShaders, AddTextures, Map;
    var a := AddVertexShaders(EMPTY, f.vertexShaders);
    var b := AddPixelShaders(a, f.pixelShaders);
    var c := AddGeometryShaders(b, f.geometryShaders);
    AddedVertexShaders(EMPTY, f.vertexShaders);
    AddedPixelShaders(a, f.pixelShaders);
    AddedGeometryShaders(b, f.geometryShaders);
    AddedTextures(c, f.textures);
  }

  lemma ChunksRead(d: seq<byte>, pos: nat, f: File)
    requires |d| < TWO32 && FileOk(f) && Holds(d, pos, EncodeChunks(FileChunks(f), 0))
    ensures var next := pos + |EncodeChunks(FileChunks(f), 0)|;
            next <= |d|
            && ReadBlocks(d, pos, EMPTY)
               == if AllMipmapsFit(f.textures) then ReadBlocks(d, next, AddAll(f)) else Fail
  {
    hide Holds, EncodeChunks, ReadBlocks, Each, VertexShaderOk, PixelShaderOk, GeometryShaderOk, TextureTyped,
         AddVertexShaders, AddPixelShaders, AddGeometryShaders, AddTextures, AllMipmapsFit;
    var vs, ps := Each(VertexShaderChunks, f.vertexShaders, 0), Each(PixelShaderChunks, f.pixelShaders, 0);
    var gs, ts := Each(GeometryShaderChunks, f.geometryShaders, 0), Each(TextureChunks, f.textures, 0);
    var a := AddVertexShaders(EMPTY, f.vertexShaders);
    var b := AddPixelShaders(a, f.pixelShaders);
    var c := AddGeometryShaders(b, f.geometryShaders);
    EncodeChunksAppend(vs + ps + gs, ts, 0);
    EncodeChunksAppend(vs + ps, gs, 0);
    EncodeChunksAppend(vs, ps, 0);
    var n1, n2, n3 := |vs|, |vs + ps|, |vs + ps + gs|;
    HoldsPart(d, pos, EncodeChunks(vs + ps + gs, 0), EncodeChunks(ts, n3));
    HoldsPart(d, pos, EncodeChunks(vs + ps, 0), EncodeChunks(gs, n2));
    HoldsPart(d, pos, EncodeChunks(vs, 0), EncodeChunks(ps, n1));
    var p1 := pos + |EncodeChunks(vs, 0)|;
    var p2 := p1 + |EncodeChunks(ps, n1)|;
    var p3 := p2 + |EncodeChunks(gs, n2)|;
    VertexShadersRead(d, pos, f.vertexShaders, 0, 0, EMPTY);
    PixelShadersRead(d, p1, f.pixelShaders, 0, n1, a);
    GeometryShadersRead(d, p2, f.geometryShaders, 0, n2, b);
    TexturesRead(d, p3, f.textures, 0, n3, c);
  }

  lemma EofRead(d: seq<byte>, pos: nat, u: Unset, st: State)
    requires |d| < TWO32 && Holds(d, pos, Words(EofHeader(u)))
    ensures pos < TWO32 && ReadBlocks(d, pos, st) == Ok(st.file)
  {
    hide Holds, Words, ReadWords, ReadData;
    HoldsFits(d, pos, Words(EofHeader(u)));
    ReadWordsOf(d, pos, EofHeader(u));
  }

  /**
   * Parsing the bytes of a written file gives the file as the format can carry it, and is refused
   * exactly when some mipmap is not as long as its image.
   */
  lemma RoundTrip(f: File, u: Unset)
    requires FileOk(f) && |EncodeFile(f, u)| < TWO32
    ensures ReadFile(EncodeFile(f, u)) == if AllMipmapsFit(f.textures) then Ok(AsRead(f)) else Fail
  {
    hide Holds, Words, ReadWords, ReadBlocks, EncodeChunks, FileChunks, FileOk, AllMipmapsFit, AsRead, AddAll;
    var d := EncodeFile(f, u);
    var header, chunks, eof := Words(FILE_HEADER), EncodeChunks(FileChunks(f), 0), Words(EofHeader(u));
    HoldsAll(d);
    HoldsPart(d, 0, header + chunks, eof);
    HoldsPart(d, 0, header, chunks);
    ReadWordsOf(d, 0, FILE_HEADER);
    ChunksRead(d, 32, f);
    EofRead(d, 32 + |chunks|, u, AddAll(f));
    AddedAll(f);
  }

  lemma HoldsAll(d: seq<byte>)
    ensures Holds(d, 0, d)
  {
  }

  // -------- when nothing is lost

  predicate CleanVariables(v: Variables) {
    && (forall x :: x in v.uniformBlocks ==> 0 !in x.name)
    && (forall x :: x in v.uniformVars ==> 0 !in x.name)
    && (forall x :: x in v.samplerVars ==> 0 !in x.name)
  }

  predicate CleanVertexShader(v: VertexShader) {
    CleanVariables(v.variables) && (forall x :: x in v.attribVars ==> 0 !in x.name) && v.gx2rData.buffer == []
  }

  predicate CleanPixelShader(p: PixelShader) {
    CleanVariables(p.variables) && p.gx2rData.buffer == []
  }

  predicate CleanGeometryShader(g: GeometryShader) {
    CleanVariables(g.variables) && g.gx2rData.buffer == [] && g.gx2rVertexShaderData.buffer == []
  }

  /** Names free of NUL, no GX2R buffer contents, no mipmaps. */
  predicate Clean(f: File) {
    && (forall x :: x in f.vertexShaders ==> CleanVertexShader(x))
    && (forall x :: x in f.pixelShaders ==> CleanPixelShader(x))
    && (forall x :: x in f.geometryShaders ==> CleanGeometryShader(x))
    && (forall x :: x in f.textures ==> x.mipmap == [])
  }

  lemma {:induction false} MapFixed<T>(cut: T -> T, xs: seq<T>)
    ensures Map(cut, xs) == xs <==> forall x :: x in xs ==> cut(x) == x
    decreases |xs|
  {
    if xs != [] {
      MapFixed(cut, xs[1..]);
      assert xs == [xs[0]] + xs[1..];
      assert Map(cut, xs)[0] == cut(xs[0]) && Map(cut, xs)[1..] == Map(cut, xs[1..]);
    }
  }

  lemma VariablesKept(v: Variables)
    ensures CutVariables(v) == v <==> CleanVariables(v)
  {
    hide Map, UpToNul;
    MapFixed(CutUniformBlock, v.uniformBlocks);
    MapFixed(CutUniformVar, v.uniformVars);
    MapFixed(CutSamplerVar, v.samplerVars);
  }

  lemma VertexShaderKept(v: VertexShader)
    ensures CutVertexShader(v) == v <==> CleanVertexShader(v)
  {
    hide Map, UpToNul, CutVariables, CleanVariables;
    VariablesKept(v.variables);
    MapFixed(CutAttribVar, v.attribVars);
  }

  lemma PixelShaderKept(p: PixelShader)
    ensures CutPixelShader(p) == p <==> CleanPixelShader(p)
  {
    hide CutVariables, CleanVariables;
    VariablesKept(p.variables);
  }

  lemma GeometryShaderKept(g: GeometryShader)
    ensures CutGeometryShader(g) == g <==> CleanGeometryShader(g)
  {
    hide CutVariables, CleanVariables;
    VariablesKept(g.variables);
  }

  lemma FileKept(f: File)
    ensures AsRead(f) == f <==> Clean(f)
  {
    hide Map, CutVertexShader, CutPixelShader, CutGeometryShader, CleanVertexShader, CleanPixelShader,
         CleanGeometryShader;
    MapFixed(CutVertexShader, f.vertexShaders);
    MapFixed(CutPixelShader, f.pixelShaders);
    MapFixed(CutGeometryShader, f.geometryShaders);
    MapFixed(CutTexture, f.textures);
    forall x | x in f.vertexShaders ensures CutVertexShader(x) == x <==> CleanVertexShader(x) { VertexShaderKept(x); }
    forall x | x in f.pixelShaders ensures CutPixelShader(x) == x <==> CleanPixelShader(x) { PixelShaderKept(x); }
    forall x | x in f.geometryShaders ensures CutGeometryShader(x) == x <==> CleanGeometryShader(x) {
      GeometryShaderKept(x);
    }
  }

  /** A written file without uniform variables reads back unchanged exactly when it is clean. */
  lemma CleanIff(f: File, u: Unset)
    requires FileOk(f) && |EncodeFile(f, u)| < TWO32
    ensures ReadFile(EncodeFile(f, u)) == Ok(f) <==> Clean(f)
  {
    hide ReadFile, EncodeFile, FileOk, AsRead, CleanVertexShader, CleanPixelShader, CleanGeometryShader;
    RoundTrip(f, u);
    FileKept(f);
  }
}
