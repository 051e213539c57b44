/** GFD files: shaders and textures, the blocks they are written as, and how blocks are read back. */
module GfdFile {
  import opened Machine
  import opened GfdBytes
  import opened GfdBlock
  import opened Wrappers

  // -------- shader variables

  datatype UniformBlock = UniformBlock(name: seq<byte>, offset: u32, size: u32)
  datatype UniformVar = UniformVar(name: seq<byte>, kind: u32, count: u32, offset: u32, block: u32)
  datatype InitialValue = InitialValue(x: u32, y: u32, z: u32, w: u32, offset: u32)
  datatype LoopVar = LoopVar(offset: u32, value: u32)
  datatype SamplerVar = SamplerVar(name: seq<byte>, kind: u32, location: u32)
  datatype AttribVar = AttribVar(name: seq<byte>, kind: u32, count: u32, location: u32)

  /** The variable lists every kind of shader has. */
  datatype Variables = Variables(
    uniformBlocks: seq<UniformBlock>,
    uniformVars: seq<UniformVar>,
    initialValues: seq<InitialValue>,
    loopVars: seq<LoopVar>,
    samplerVars: seq<SamplerVar>)

  function Map<T, U>(f: T -> U, xs: seq<T>): (ys: seq<U>)
    ensures |ys| == |xs|
  {
    if xs == [] then [] else [f(xs[0])] + Map(f, xs[1..])
  }

  function PutUniformBlock(v: UniformBlock): Record { Record(Some(v.name), [v.offset, v.size]) }
  /** The writer leaves the count of a uniform variable out. */
  function PutUniformVar(v: UniformVar): Record { Record(Some(v.name), [v.kind, v.offset, v.block]) }
  function PutInitialValue(v: InitialValue): Record { Record(None, [v.x, v.y, v.z, v.w, v.offset]) }
  function PutLoopVar(v: LoopVar): Record { Record(None, [v.offset, v.value]) }
  function PutSamplerVar(v: SamplerVar): Record { Record(Some(v.name), [v.kind, v.location]) }
  function PutAttribVar(v: AttribVar): Record { Record(Some(v.name), [v.kind, v.count, v.location]) }

  function Name(r: Record): seq<byte> { if r.name.Some? then r.name.value else [] }
  function Word(r: Record, i: nat): u32 { if i < |r.words| then r.words[i] else 0 }

  function GetUniformBlock(r: Record): UniformBlock { UniformBlock(Name(r), Word(r, 0), Word(r, 1)) }
  function GetUniformVar(r: Record): UniformVar { UniformVar(Name(r), Word(r, 0), Word(r, 1), Word(r, 2), Word(r, 3)) }
  function GetInitialValue(r: Record): InitialValue {
    InitialValue(Word(r, 0), Word(r, 1), Word(r, 2), Word(r, 3), Word(r, 4))
  }
  function GetLoopVar(r: Record): LoopVar { LoopVar(Word(r, 0), Word(r, 1)) }
  function GetSamplerVar(r: Record): SamplerVar { SamplerVar(Name(r), Word(r, 0), Word(r, 1)) }
  function GetAttribVar(r: Record): AttribVar { AttribVar(Name(r), Word(r, 0), Word(r, 1), Word(r, 2)) }

  const UNIFORM_BLOCK := Shape(true, 2)
  const UNIFORM_VAR := Shape(true, 4)
  const INITIAL_VALUE := Shape(false, 5)
  const LOOP_VAR := Shape(false, 2)
  const SAMPLER_VAR := Shape(true, 2)
  const ATTRIB_VAR := Shape(true, 3)

  function VariableShapes(): (s: seq<Shape>)
    ensures |s| == 5
  {
    [UNIFORM_BLOCK, UNIFORM_VAR, INITIAL_VALUE, LOOP_VAR, SAMPLER_VAR]
  }

  function PutVariables(v: Variables): (s: seq<seq<Record>>)
    ensures |s| == 5
  {
    [Map(PutUniformBlock, v.uniformBlocks), Map(PutUniformVar, v.uniformVars), Map(PutInitialValue, v.initialValues),
     Map(PutLoopVar, v.loopVars), Map(PutSamplerVar, v.samplerVars)]
  }

  function GetVariables(s: seq<seq<Record>>): Variables
    requires |s| >= 5
  {
    Variables(Map(GetUniformBlock, s[0]), Map(GetUniformVar, s[1]), Map(GetInitialValue, s[2]),
              Map(GetLoopVar, s[3]), Map(GetSamplerVar, s[4]))
  }

  // -------- shaders and textures; register words and other plain fields in file order

  datatype Gx2rBuffer = Gx2rBuffer(flags: u32, elemSize: u32, elemCount: u32, buffer: seq<byte>)

  datatype StreamOut = StreamOut(ringItemSize: u32, hasStreamOut: bool, strides: seq<u32>)

  datatype VertexShader = VertexShader(
    regs: seq<u32>, data: seq<byte>, mode: u32, variables: Variables, attribVars: seq<AttribVar>,
    streamOut: StreamOut, gx2rData: Gx2rBuffer)

  datatype PixelShader = PixelShader(
    regs: seq<u32>, data: seq<byte>, mode: u32, variables: Variables, gx2rData: Gx2rBuffer)

  datatype GeometryShader = GeometryShader(
    regs: seq<u32>, data: seq<byte>, vertexShaderData: seq<byte>, mode: u32, variables: Variables,
    streamOut: StreamOut, gx2rData: Gx2rBuffer, gx2rVertexShaderData: Gx2rBuffer)

  /** Words before and after the image and mipmap sizes of a texture header. */
  datatype Texture = Texture(surface: seq<u32>, image: seq<byte>, mipmap: seq<byte>, rest: seq<u32>)

  datatype File = File(
    vertexShaders: seq<VertexShader>, pixelShaders: seq<PixelShader>, geometryShaders: seq<GeometryShader>,
    textures: seq<Texture>)

  predicate VertexShaderTyped(v: VertexShader) { |v.regs| == 52 && |v.streamOut.strides| == 4 }
  predicate PixelShaderTyped(p: PixelShader) { |p.regs| == 41 }
  predicate GeometryShaderTyped(g: GeometryShader) { |g.regs| == 19 && |g.streamOut.strides| == 4 }
  predicate TextureTyped(t: Texture) { |t.surface| == 8 && |t.rest| == 27 }

  function PutBuffer(b: Gx2rBuffer): (ws: seq<u32>)
    ensures |ws| == 4
  {
    [b.flags, b.elemSize, b.elemCount, 0]
  }

  function GetBuffer(ws: seq<u32>): Gx2rBuffer
    requires |ws| == 4
  {
    Gx2rBuffer(ws[0], ws[1], ws[2], [])
  }

  function PutStreamOut(s: StreamOut): (ws: seq<u32>)
    ensures |ws| == 2 + |s.strides|
  {
    [s.ringItemSize, if s.hasStreamOut then 1 else 0] + s.strides
  }

  function GetStreamOut(ws: seq<u32>): StreamOut
    requires |ws| == 6
  {
    StreamOut(ws[0], ws[1] != 0, ws[2..])
  }

  function VertexShaderBlock(v: VertexShader): Block {
    Block(v.regs + [U32(|v.data|), 0, v.mode],
          PutVariables(v.variables) + [Map(PutAttribVar, v.attribVars)],
          PutStreamOut(v.streamOut) + PutBuffer(v.gx2rData))
  }

  function PixelShaderBlock(p: PixelShader): Block {
    Block(p.regs + [U32(|p.data|), 0, p.mode], PutVariables(p.variables), PutBuffer(p.gx2rData))
  }

  function GeometryShaderBlock(g: GeometryShader): Block {
    Block(g.regs + [U32(|g.data|), 0, U32(|g.vertexShaderData|), 0, g.mode],
          PutVariables(g.variables),
          PutStreamOut(g.streamOut) + PutBuffer(g.gx2rData) + PutBuffer(g.gx2rVertexShaderData))
  }

  function TextureHeader(t: Texture): (ws: seq<u32>)
    ensures |ws| == |t.surface| + 4 + |t.rest|
  {
    t.surface + [U32(|t.image|), 0, U32(|t.mipmap|), 0] + t.rest
  }

  // -------- the blocks of a file

  const EOF: u32 := 1
  const VERTEX_SHADER_HEADER: u32 := 3
  const VERTEX_SHADER_PROGRAM: u32 := 5
  const PIXEL_SHADER_HEADER: u32 := 6
  const PIXEL_SHADER_PROGRAM: u32 := 7
  const GEOMETRY_SHADER_HEADER: u32 := 8
  const GEOMETRY_SHADER_PROGRAM: u32 := 9
  const GEOMETRY_SHADER_COPY_PROGRAM: u32 := 10
  const TEXTURE_HEADER: u32 := 11
  const TEXTURE_IMAGE: u32 := 12
  const TEXTURE_MIPMAP: u32 := 13

  const FILE_MAGIC: u32 := 0x4766_7832
  const BLOCK_MAGIC: u32 := 0x424C_4B7B
  const HEADER_SIZE: u32 := 32

  datatype Chunk = Chunk(kind: u32, index: nat, data: seq<byte>)

  function VertexShaderChunks(v: VertexShader, i: nat): seq<Chunk> {
    [Chunk(VERTEX_SHADER_HEADER, i, Encode(VertexShaderBlock(v))), Chunk(VERTEX_SHADER_PROGRAM, i, v.data)]
  }

  function PixelShaderChunks(p: PixelShader, i: nat): seq<Chunk> {
    [Chunk(PIXEL_SHADER_HEADER, i, Encode(PixelShaderBlock(p))), Chunk(PIXEL_SHADER_PROGRAM, i, p.data)]
  }

  function GeometryShaderChunks(g: GeometryShader, i: nat): seq<Chunk> {
    [Chunk(GEOMETRY_SHADER_HEADER, i, Encode(GeometryShaderBlock(g)))] + DataChunks(g, i) + CopyChunks(g, i)
  }

  function DataChunks(g: GeometryShader, i: nat): seq<Chunk> {
    if g.data == [] then [] else [Chunk(GEOMETRY_SHADER_PROGRAM, i, g.data)]
  }

  function CopyChunks(g: GeometryShader, i: nat): seq<Chunk> {
    if g.vertexShaderData == [] then [] else [Chunk(GEOMETRY_SHADER_COPY_PROGRAM, i, g.vertexShaderData)]
  }

  function TextureChunks(t: Texture, i: nat): seq<Chunk> {
    [Chunk(TEXTURE_HEADER, i, Words(TextureHeader(t))), Chunk(TEXTURE_IMAGE, i, t.image)] + MipmapChunks(t, i)
  }

  /** A mipmap is written as a second image block. */
  function MipmapChunks(t: Texture, i: nat): seq<Chunk> {
    if t.mipmap == [] then [] else [Chunk(TEXTURE_IMAGE, i, t.mipmap)]
  }

  function Each<T>(chunks: (T, nat) -> seq<Chunk>, xs: seq<T>, i: nat): seq<Chunk>
    decreases |xs|
  {
    if xs == [] then [] else chunks(xs[0], i) + Each(chunks, xs[1..], i + 1)
  }

  function FileChunks(f: File): seq<Chunk> {
    Each(VertexShaderChunks, f.vertexShaders, 0) + Each(PixelShaderChunks, f.pixelShaders, 0)
    + Each(GeometryShaderChunks, f.geometryShaders, 0) + Each(TextureChunks, f.textures, 0)
  }

  function ChunkHeader(c: Chunk, id: nat): (ws: seq<u32>)
    ensures |ws| == 8
  {
    [BLOCK_MAGIC, HEADER_SIZE, 1, 0, c.kind, U32(|c.data|), U32(id), U32(c.index)]
  }

  function EncodeChunks(cs: seq<Chunk>, id: nat): seq<byte>
    decreases |cs|
  {
    if cs == [] then [] else EncodeChunk(cs[0], id) + EncodeChunks(cs[1..], id + 1)
  }

  function EncodeChunk(c: Chunk, id: nat): (s: seq<byte>)
    ensures |s| == 32 + |c.data|
  {
    Words(ChunkHeader(c, id)) + c.data
  }

  lemma EncodeChunksFirst(c: Chunk, cs: seq<Chunk>, id: nat)
    ensures EncodeChunks([c] + cs, id) == EncodeChunk(c, id) + EncodeChunks(cs, id + 1)
  {
    hide EncodeChunk;
    assert ([c] + cs)[1..] == cs;
  }

  lemma {:induction false} EncodeChunksAppend(x: seq<Chunk>, y: seq<Chunk>, id: nat)
    ensures EncodeChunks(x + y, id) == EncodeChunks(x, id) + EncodeChunks(y, id + |x|)
    decreases |x|
  {
    if x == [] {
      assert x + y == y;
    } else {
      hide EncodeChunk, EncodeChunks;
      var c, xs := x[0], x[1..];
      assert x == [c] + xs;
      Assoc([c], xs, y);
      EncodeChunksFirst(c, xs, id);
      EncodeChunksFirst(c, xs + y, id);
      EncodeChunksAppend(xs, y, id + 1);
      Assoc(EncodeChunk(c, id), EncodeChunks(xs, id + 1), EncodeChunks(y, id + |x|));
    }
  }

  const FILE_HEADER: seq<u32> := [FILE_MAGIC, HEADER_SIZE, 7, 1, 2, 1, 0, 0]

  /** The fields of the end-of-file header that the writer leaves unset. */
  datatype Unset = Unset(major: u32, minor: u32, id: u32, index: u32)

  function EofHeader(u: Unset): (ws: seq<u32>)
    ensures |ws| == 8
  {
    [BLOCK_MAGIC, HEADER_SIZE, u.major, u.minor, EOF, 0, u.id, u.index]
  }

  function EncodeFile(f: File, u: Unset): seq<byte> {
    Words(FILE_HEADER) + EncodeChunks(FileChunks(f), 0) + Words(EofHeader(u))
  }

  // -------- reading

  /**
   * What has been read so far, and the capacity last reserved for each kind of data that a later
   * block must match.
   */
  datatype State = State(
    file: File, vertexRoom: u32, pixelRoom: u32, geometryRoom: u32, copyRoom: u32, imageRoom: u32, mipmapRoom: u32)

  function VertexLayout(): Layout { Layout(55, VariableShapes() + [ATTRIB_VAR], 10) }
  function PixelLayout(major: u32): Layout { Layout(44, VariableShapes(), if major == 0 then 0 else 4) }
  function GeometryLayout(): Layout { Layout(24, VariableShapes(), 14) }

  function VertexHeader(b: Block, major: u32, st: State): Result<State>
    requires |b.head| == 55 && |b.sections| == 6 && |b.tail| == 10
  {
    if major != 1 || b.head[53] != 0 || b.tail[9] != 0 then Fail
    else
      var v := VertexShader(b.head[..52], [], b.head[54], GetVariables(b.sections), Map(GetAttribVar, b.sections[5]),
                            GetStreamOut(b.tail[..6]), GetBuffer(b.tail[6..]));
      Ok(st.(file := st.file.(vertexShaders := st.file.vertexShaders + [v]), vertexRoom := b.head[52]))
  }

  function ReadVertexHeader(d: seq<byte>, pos: u32, major: u32, size: u32, st: State): Result<State> {
    var b :- ReadBlock(d, pos, size, VertexLayout());
    VertexHeader(b, major, st)
  }

  function PixelHeader(b: Block, major: u32, st: State): Result<State>
    requires |b.head| == 44 && |b.sections| == 5 && |b.tail| == if major == 0 then 0 else 4
  {
    if (major != 0 && major != 1) || b.head[42] != 0 || (major == 1 && b.tail[3] != 0) then Fail
    else
      var buffer := if major == 0 then Gx2rBuffer(0, 0, 0, []) else GetBuffer(b.tail);
      var p := PixelShader(b.head[..41], [], b.head[43], GetVariables(b.sections), buffer);
      Ok(st.(file := st.file.(pixelShaders := st.file.pixelShaders + [p]), pixelRoom := b.head[41]))
  }

  function ReadPixelHeader(d: seq<byte>, pos: u32, major: u32, size: u32, st: State): Result<State> {
    var b :- ReadBlock(d, pos, size, PixelLayout(major));
    PixelHeader(b, major, st)
  }

  function GeometryHeader(b: Block, major: u32, st: State): Result<State>
    requires |b.head| == 24 && |b.sections| == 5 && |b.tail| == 14
  {
    if major != 1 || b.head[20] != 0 || b.head[22] != 0 || b.tail[9] != 0 || b.tail[13] != 0 then Fail
    else
      var g := GeometryShader(b.head[..19], [], [], b.head[23], GetVariables(b.sections), GetStreamOut(b.tail[..6]),
                              GetBuffer(b.tail[6..10]), GetBuffer(b.tail[10..]));
      Ok(st.(file := st.file.(geometryShaders := st.file.geometryShaders + [g]),
             geometryRoom := b.head[19], copyRoom := b.head[21]))
  }

  function ReadGeometryHeader(d: seq<byte>, pos: u32, major: u32, size: u32, st: State): Result<State> {
    var b :- ReadBlock(d, pos, size, GeometryLayout());
    GeometryHeader(b, major, st)
  }

  function ReadTextureHeader(d: seq<byte>, pos: u32, major: u32, st: State): Result<State> {
    var ws :- ReadWords(d, pos, 39);
    if major != 1 || ws[9] != 0 || ws[11] != 0 then Fail
    else
      var t := Texture(ws[..8], [], [], ws[12..]);
      Ok(st.(file := st.file.(textures := st.file.textures + [t]), imageRoom := ws[8], mipmapRoom := ws[10]))
  }

  /** Bytes of a program or image block; the bounds check adds in 32 bits. */
  function ReadBinary(d: seq<byte>, pos: u32, size: u32): Result<seq<byte>> {
    if U32(pos + size) > |d| || pos + size > |d| then Fail else Ok(d[pos..pos + size])
  }

  function SetLast<T>(xs: seq<T>, x: T): seq<T>
    requires xs != []
  {
    xs[..|xs| - 1] + [x]
  }

  function Last<T>(xs: seq<T>): T
    requires xs != []
  {
    xs[|xs| - 1]
  }

  function ReadProgram(d: seq<byte>, pos: u32, kind: u32, size: u32, st: State): Result<State> {
    var f := st.file;
    if kind == VERTEX_SHADER_PROGRAM then
      if f.vertexShaders == [] || size != st.vertexRoom then Fail else
        var b :- ReadBinary(d, pos, size);
        Ok(st.(file := f.(vertexShaders := SetLast(f.vertexShaders, Last(f.vertexShaders).(data := b)))))
    else if kind == PIXEL_SHADER_PROGRAM then
      if f.pixelShaders == [] || size != st.pixelRoom then Fail else
        var b :- ReadBinary(d, pos, size);
        Ok(st.(file := f.(pixelShaders := SetLast(f.pixelShaders, Last(f.pixelShaders).(data := b)))))
    else if kind == GEOMETRY_SHADER_PROGRAM then
      if f.geometryShaders == [] || size != st.geometryRoom then Fail else
        var b :- ReadBinary(d, pos, size);
        Ok(st.(file := f.(geometryShaders := SetLast(f.geometryShaders, Last(f.geometryShaders).(data := b)))))
    else if kind == GEOMETRY_SHADER_COPY_PROGRAM then
      if f.geometryShaders == [] || size != st.copyRoom then Fail else
        var b :- ReadBinary(d, pos, size);
        Ok(st.(file := f.(geometryShaders :=
               SetLast(f.geometryShaders, Last(f.geometryShaders).(vertexShaderData := b)))))
    else if kind == TEXTURE_IMAGE then
      if f.textures == [] || size != st.imageRoom then Fail else
        var b :- ReadBinary(d, pos, size);
        Ok(st.(file := f.(textures := SetLast(f.textures, Last(f.textures).(image := b)))))
    else if kind == TEXTURE_MIPMAP then
      if f.textures == [] || size != st.mipmapRoom then Fail else
        var b :- ReadBinary(d, pos, size);
        Ok(st.(file := f.(textures := SetLast(f.textures, Last(f.textures).(mipmap := b)))))
    else Ok(st)
  }

  /** The data of one block, at `pos`. */
  function ReadData(d: seq<byte>, pos: u32, major: u32, kind: u32, size: u32, st: State): Result<State> {
    if kind == VERTEX_SHADER_HEADER then ReadVertexHeader(d, pos, major, size, st)
    else if kind == PIXEL_SHADER_HEADER then ReadPixelHeader(d, pos, major, size, st)
    else if kind == GEOMETRY_SHADER_HEADER then ReadGeometryHeader(d, pos, major, size, st)
    else if kind == TEXTURE_HEADER then ReadTextureHeader(d, pos, major, st)
    else ReadProgram(d, pos, kind, size, st)
  }

  /** The block loop. A block whose end wraps past 2^32 is refused here. */
  function ReadBlocks(d: seq<byte>, pos: u32, st: State): Result<File>
    decreases if pos < |d| then |d| - pos else 0
  {
    if pos >= |d| then Ok(st.file)
    else
      var h :- ReadWords(d, pos, 8);
      if h[0] != BLOCK_MAGIC || h[1] != HEADER_SIZE then Fail
      else if h[4] == EOF then Ok(st.file)
      else
        var st' :- ReadData(d, U32(pos + 32), h[2], h[4], h[5], st);
        var next := U32(pos + 32 + h[5]);
        if next <= pos then Fail else ReadBlocks(d, next, st')
  }

  /** Kinds of block the loop skips. */
  predicate Skipped(kind: u32) {
    kind < VERTEX_SHADER_HEADER || kind == 4 || kind > TEXTURE_MIPMAP
  }

  /** A skipped block leads the source's loop back to its own header, with nothing changed, exactly if its size is 2^32 - 32. */
  lemma WrappedBlockRepeats(d: seq<byte>, pos: u32, major: u32, kind: u32, size: u32, st: State)
    requires Skipped(kind)
    ensures ReadData(d, U32(pos + 32), major, kind, size, st) == Ok(st)
    ensures U32(pos + 32 + size) == pos <==> size == TWO32 - 32
  {
    var n := pos + 32 + size;
    assert n < 3 * TWO32;
    assert U32(n) == if n < TWO32 then n else if n < 2 * TWO32 then n - TWO32 else n - 2 * TWO32;
  }

  const EMPTY := State(File([], [], [], []), 0, 0, 0, 0, 0, 0)

  function ReadFile(d: seq<byte>): Result<File> {
    var h :- ReadWords(d, 0, 8);
    if h[0] != FILE_MAGIC || h[1] != HEADER_SIZE || h[2] != 7 then Fail
    else ReadBlocks(d, 32, EMPTY)
  }
}
