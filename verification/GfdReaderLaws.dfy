/**
 * What the GFD reader makes of any sequence of blocks, including those the writer never emits: headers of other
 * versions, records with all their words, mipmap blocks, repeated or missing data blocks, blocks of no known kind.
 */
module GfdReaderLaws {
  import opened Machine
  import opened GfdBytes
  import opened GfdBlock
  import opened GfdBlockRoundTrip
  import opened GfdFile
  import opened GfdRoundTrip
  import opened Wrappers

  /**
   * The contents of a block. `links` are the pointer words of a header, which a file must leave zero; the data of a
   * shader or texture in a header item only stands for the size the header announces.
   */
  datatype Item =
    | VertexItem(v: VertexShader, links: seq<u32>)
    | PixelItem(p: PixelShader, links: seq<u32>)
    | GeometryItem(g: GeometryShader, links: seq<u32>)
    | TextureItem(t: Texture, links: seq<u32>)
    | DataItem(kind: u32, bytes: seq<byte>)

  /** A block with the remaining words of its header. */
  datatype Piece = Piece(item: Item, major: u32, minor: u32, id: u32, index: u32)

  function Kind(x: Item): u32 {
    match x
    case VertexItem(_, _) => 3
    case PixelItem(_, _) => 6
    case GeometryItem(_, _) => 8
    case TextureItem(_, _) => 11
    case DataItem(kind, _) => kind
  }

  // -------- the bytes of a block

  // The records of the variable lists, word by word as a file has them; unlike the writer's, with all their words.

  function UniformBlockRecord(v: UniformBlock): Record { Record(Some(v.name), [v.offset, v.size]) }
  function UniformVarRecord(v: UniformVar): Record { Record(Some(v.name), [v.kind, v.count, v.offset, v.block]) }
  function InitialValueRecord(v: InitialValue): Record { Record(None, [v.x, v.y, v.z, v.w, v.offset]) }
  function LoopVarRecord(v: LoopVar): Record { Record(None, [v.offset, v.value]) }
  function SamplerVarRecord(v: SamplerVar): Record { Record(Some(v.name), [v.kind, v.location]) }
  function AttribVarRecord(v: AttribVar): Record { Record(Some(v.name), [v.kind, v.count, v.location]) }

  function WholeVariables(v: Variables): (s: seq<seq<Record>>)
    ensures |s| == 5
  {
    [Map(UniformBlockRecord, v.uniformBlocks), Map(UniformVarRecord, v.uniformVars),
     Map(InitialValueRecord, v.initialValues), Map(LoopVarRecord, v.loopVars), Map(SamplerVarRecord, v.samplerVars)]
  }

  /** Stream-out words: ring item size, whether there is any, and the strides. */
  function StreamOutWords(s: StreamOut): (ws: seq<u32>)
    ensures |ws| == 2 + |s.strides|
  {
    [s.ringItemSize, if s.hasStreamOut then 1 else 0] + s.strides
  }

  function LinkedBuffer(b: Gx2rBuffer, link: u32): (ws: seq<u32>)
    ensures |ws| == 4
  {
    [b.flags, b.elemSize, b.elemCount, link]
  }

  function VertexBlock(v: VertexShader, links: seq<u32>): Block
    requires |links| == 2
  {
    Block(v.regs + [U32(|v.data|), links[0], v.mode], WholeVariables(v.variables) + [Map(AttribVarRecord, v.attribVars)],
          StreamOutWords(v.streamOut) + LinkedBuffer(v.gx2rData, links[1]))
  }

  /** A version 0 header ends before the GX2R buffer. */
  function PixelBlock(p: PixelShader, links: seq<u32>, major: u32): Block
    requires |links| == 2
  {
    Block(p.regs + [U32(|p.data|), links[0], p.mode], WholeVariables(p.variables),
          if major == 0 then [] else LinkedBuffer(p.gx2rData, links[1]))
  }

  function GeometryBlock(g: GeometryShader, links: seq<u32>): Block
    requires |links| == 4
  {
    Block(g.regs + [U32(|g.data|), links[0], U32(|g.vertexShaderData|), links[1], g.mode], WholeVariables(g.variables),
          StreamOutWords(g.streamOut) + LinkedBuffer(g.gx2rData, links[2]) + LinkedBuffer(g.gx2rVertexShaderData, links[3]))
  }

  function TextureWords(t: Texture, links: seq<u32>): (ws: seq<u32>)
    requires |links| == 2
  {
    t.surface + [U32(|t.image|), links[0], U32(|t.mipmap|), links[1]] + t.rest
  }

  predicate VertexTyped(v: VertexShader, links: seq<u32>) {
    VertexShaderTyped(v) && |links| == 2 && |v.data| < TWO32 && Writable(VertexBlock(v, links))
  }

  predicate PixelTyped(p: PixelShader, links: seq<u32>, major: u32) {
    PixelShaderTyped(p) && |links| == 2 && |p.data| < TWO32 && Writable(PixelBlock(p, links, major))
  }

  predicate GeometryTyped(g: GeometryShader, links: seq<u32>) {
    && GeometryShaderTyped(g) && |links| == 4 && |g.data| < TWO32 && |g.vertexShaderData| < TWO32
    && Writable(GeometryBlock(g, links))
  }

  /** The header fits its format; other blocks are of any kind but end of file and headers. */
  predicate Typed(x: Piece) {
    match x.item
    case VertexItem(v, links) => VertexTyped(v, links)
    case PixelItem(p, links) => PixelTyped(p, links, x.major)
    case GeometryItem(g, links) => GeometryTyped(g, links)
    case TextureItem(t, links) => TextureTyped(t) && |links| == 2 && |t.image| < TWO32 && |t.mipmap| < TWO32
    case DataItem(kind, _) => kind != 1 && kind != 3 && kind != 6 && kind != 8 && kind != 11
  }

  function Contents(x: Piece): seq<byte>
    requires Typed(x)
  {
    match x.item
    case VertexItem(v, links) => Encode(VertexBlock(v, links))
    case PixelItem(p, links) => Encode(PixelBlock(p, links, x.major))
    case GeometryItem(g, links) => Encode(GeometryBlock(g, links))
    case TextureItem(t, links) => Words(TextureWords(t, links))
    case DataItem(_, bytes) => bytes
  }

  function PieceHeader(x: Piece): (ws: seq<u32>)
    requires Typed(x)
    ensures |ws| == 8
  {
    [0x424C_4B7B, 32, x.major, x.minor, Kind(x.item), U32(|Contents(x)|), x.id, x.index]
  }

  predicate AllTyped(xs: seq<Piece>) {
    forall k :: 0 <= k < |xs| ==> Typed(xs[k])
  }

  /** The bytes of the blocks from number n on. */
  function EncodeFrom(xs: seq<Piece>, n: nat): seq<byte>
    requires AllTyped(xs) && n <= |xs|
    decreases |xs| - n
  {
    if n == |xs| then [] else Words(PieceHeader(xs[n])) + Contents(xs[n]) + EncodeFrom(xs, n + 1)
  }

  // -------- what a sequence of blocks stands for

  /** The kind of header that a kind of data belongs to; 0 for kinds the reader skips. */
  function HeaderOf(kind: u32): u32 {
    if kind == 5 then 3
    else if kind == 7 then 6
    else if kind == 9 || kind == 10 then 8
    else if kind == 12 || kind == 13 then 11
    else 0
  }

  /** How many bytes of a kind of data a header announces. */
  function Announced(x: Item, kind: u32): nat {
    match x
    case VertexItem(v, _) => |v.data|
    case PixelItem(p, _) => |p.data|
    case GeometryItem(g, _) => if kind == 9 then |g.data| else |g.vertexShaderData|
    case TextureItem(t, _) => if kind == 12 then |t.image| else |t.mipmap|
    case DataItem(_, _) => 0
  }

  /** The blocks of one kind among the first n, by number. */
  function Heads(xs: seq<Piece>, kind: u32, n: nat): (hs: seq<nat>)
    requires n <= |xs|
    ensures forall i :: 0 <= i < |hs| ==> hs[i] < n && Kind(xs[hs[i]].item) == kind
    ensures forall i, j :: 0 <= i < j < |hs| ==> hs[i] < hs[j]
  {
    if n == 0 then [] else Heads(xs, kind, n - 1) + if Kind(xs[n - 1].item) == kind then [n - 1] else []
  }

  /** Block k is data of this kind, and block j the latest header before it that it can belong to. */
  predicate Belongs(xs: seq<Piece>, k: nat, kind: u32, j: nat)
    requires k < |xs|
  {
    var hs := Heads(xs, HeaderOf(kind), k);
    xs[k].item.DataItem? && xs[k].item.kind == kind && hs != [] && Last(hs) == j
  }

  /** The bytes of the last block of a kind that belongs to header j, among the first n; nothing without one. */
  function Given(xs: seq<Piece>, j: nat, kind: u32, n: nat): seq<byte>
    requires n <= |xs|
  {
    if n <= j + 1 then []
    else if Belongs(xs, n - 1, kind, j) then xs[n - 1].item.bytes
    else Given(xs, j, kind, n - 1)
  }

  const NO_BUFFER := Gx2rBuffer(0, 0, 0, [])

  function VertexAt(xs: seq<Piece>, j: nat, n: nat): VertexShader
    requires j < n <= |xs| && Kind(xs[j].item) == 3 && AllTyped(xs)
  {
    CutVertexShader(xs[j].item.v).(data := Given(xs, j, 5, n))
  }

  function PixelAt(xs: seq<Piece>, j: nat, n: nat): PixelShader
    requires j < n <= |xs| && Kind(xs[j].item) == 6 && AllTyped(xs)
  {
    var p := CutPixelShader(xs[j].item.p).(data := Given(xs, j, 7, n));
    if xs[j].major == 0 then p.(gx2rData := NO_BUFFER) else p
  }

  function GeometryAt(xs: seq<Piece>, j: nat, n: nat): GeometryShader
    requires j < n <= |xs| && Kind(xs[j].item) == 8 && AllTyped(xs)
  {
    CutGeometryShader(xs[j].item.g).(data := Given(xs, j, 9, n), vertexShaderData := Given(xs, j, 10, n))
  }

  function TextureAt(xs: seq<Piece>, j: nat, n: nat): Texture
    requires j < n <= |xs| && Kind(xs[j].item) == 11 && AllTyped(xs)
  {
    Texture(xs[j].item.t.surface, Given(xs, j, 12, n), Given(xs, j, 13, n), xs[j].item.t.rest)
  }

  function VerticesOf(xs: seq<Piece>, n: nat): (vs: seq<VertexShader>)
    requires n <= |xs| && AllTyped(xs)
  {
    var hs := Heads(xs, 3, n);
    seq(|hs|, i requires 0 <= i < |hs| => VertexAt(xs, hs[i], n))
  }

  function PixelsOf(xs: seq<Piece>, n: nat): (ps: seq<PixelShader>)
    requires n <= |xs| && AllTyped(xs)
  {
    var hs := Heads(xs, 6, n);
    seq(|hs|, i requires 0 <= i < |hs| => PixelAt(xs, hs[i], n))
  }

  function GeometriesOf(xs: seq<Piece>, n: nat): (gs: seq<GeometryShader>)
    requires n <= |xs| && AllTyped(xs)
  {
    var hs := Heads(xs, 8, n);
    seq(|hs|, i requires 0 <= i < |hs| => GeometryAt(xs, hs[i], n))
  }

  function TexturesOf(xs: seq<Piece>, n: nat): (ts: seq<Texture>)
    requires n <= |xs| && AllTyped(xs)
  {
    var hs := Heads(xs, 11, n);
    seq(|hs|, i requires 0 <= i < |hs| => TextureAt(xs, hs[i], n))
  }

  /** One shader or texture for each header, with the data that belongs to it. */
  function FileOf(xs: seq<Piece>, n: nat): File
    requires n <= |xs| && AllTyped(xs)
  {
    File(VerticesOf(xs, n), PixelsOf(xs, n), GeometriesOf(xs, n), TexturesOf(xs, n))
  }

  /** What the latest header announced for a kind of data. */
  function Room(xs: seq<Piece>, kind: u32, n: nat): nat
    requires n <= |xs|
  {
    var hs := Heads(xs, HeaderOf(kind), n);
    if hs == [] then 0 else Announced(xs[Last(hs)].item, kind)
  }

  predicate AllZero(ws: seq<u32>) {
    forall i :: 0 <= i < |ws| ==> ws[i] == 0
  }

  /**
   * Block k is of a version the reader supports and has no pointers, or it is data of the size that the latest header
   * it can belong to announced, or it is of a kind the reader skips.
   */
  predicate Accepted(xs: seq<Piece>, k: nat)
    requires k < |xs|
  {
    var x := xs[k];
    match x.item
    case PixelItem(_, links) => (x.major == 0 && |links| > 0 && links[0] == 0) || (x.major == 1 && AllZero(links))
    case DataItem(kind, bytes) =>
      HeaderOf(kind) != 0 ==> Heads(xs, HeaderOf(kind), k) != [] && |bytes| == Room(xs, kind, k)
    case VertexItem(_, links) => x.major == 1 && AllZero(links)
    case GeometryItem(_, links) => x.major == 1 && AllZero(links)
    case TextureItem(_, links) => x.major == 1 && AllZero(links)
  }

  predicate AllAccepted(xs: seq<Piece>) {
    forall k :: 0 <= k < |xs| ==> Accepted(xs, k)
  }

  // -------- the reader's state after n blocks

  function StateOf(xs: seq<Piece>, n: nat): State
    requires n <= |xs| && AllTyped(xs)
  {
    State(FileOf(xs, n), U32(Room(xs, 5, n)), U32(Room(xs, 7, n)), U32(Room(xs, 9, n)), U32(Room(xs, 10, n)),
          U32(Room(xs, 12, n)), U32(Room(xs, 13, n)))
  }

  /** Block n changes the data of a header only if it belongs to it. */
  lemma GivenStep(xs: seq<Piece>, j: nat, kind: u32, n: nat)
    requires j < n < |xs|
    ensures Given(xs, j, kind, n + 1) == if Belongs(xs, n, kind, j) then xs[n].item.bytes else Given(xs, j, kind, n)
  {
  }

  lemma HeadsStep(xs: seq<Piece>, kind: u32, n: nat)
    requires n < |xs|
    ensures Heads(xs, kind, n + 1) == Heads(xs, kind, n) + if Kind(xs[n].item) == kind then [n] else []
  {
  }

  lemma GivenEmpty(xs: seq<Piece>, n: nat, kind: u32)
    requires n < |xs|
    ensures Given(xs, n, kind, n + 1) == []
  {
  }

  lemma HeaderKinds(x: Piece)
    requires Typed(x)
    ensures Kind(x.item) == 3 <==> x.item.VertexItem?
    ensures Kind(x.item) == 6 <==> x.item.PixelItem?
    ensures Kind(x.item) == 8 <==> x.item.GeometryItem?
    ensures Kind(x.item) == 11 <==> x.item.TextureItem?
  {
  }

  lemma Extended<T>(old1: seq<T>, new1: seq<T>, x: T)
    requires |new1| == |old1| + 1 && new1[|old1|] == x && forall i :: 0 <= i < |old1| ==> new1[i] == old1[i]
    ensures new1 == old1 + [x]
  {
  }

  lemma Replaced<T>(old1: seq<T>, new1: seq<T>, x: T)
    requires old1 != [] && |new1| == |old1| && Last(new1) == x && forall i :: 0 <= i < |old1| - 1 ==> new1[i] == old1[i]
    ensures new1 == SetLast(old1, x)
  {
  }

  /** Data belongs to the last of the headers before it, and to no other. */
  lemma BelongsLast(xs: seq<Piece>, n: nat, kind: u32, i: nat)
    requires n < |xs| && i < |Heads(xs, HeaderOf(kind), n)| && Typed(xs[n]) && HeaderOf(kind) != 0
    ensures Belongs(xs, n, kind, Heads(xs, HeaderOf(kind), n)[i])
       <==> Kind(xs[n].item) == kind && i == |Heads(xs, HeaderOf(kind), n)| - 1
  {
    hide Heads, Typed;
  }

  lemma VertexAtStep(xs: seq<Piece>, i: nat, n: nat)
    requires n < |xs| && AllTyped(xs) && i < |Heads(xs, 3, n)|
    ensures var j, x := Heads(xs, 3, n)[i], xs[n].item;
            var here := i == |Heads(xs, 3, n)| - 1;
            VertexAt(xs, j, n + 1) ==
              if here && Kind(x) == 5 then VertexAt(xs, j, n).(data := x.bytes)
              else VertexAt(xs, j, n)
  {
    hide Heads, Given, Belongs, Typed, CutVertexShader;
    var j := Heads(xs, 3, n)[i];
    GivenStep(xs, j, 5, n);
    BelongsLast(xs, n, 5, i);
  }

  lemma VerticesStep(xs: seq<Piece>, n: nat)
    requires n < |xs| && AllTyped(xs)
    ensures var vs, x := VerticesOf(xs, n), xs[n].item;
            VerticesOf(xs, n + 1) ==
              if x.VertexItem? then vs + [CutVertexShader(x.v).(data := [])]
              else if Kind(x) == 5 && vs != [] then SetLast(vs, Last(vs).(data := x.bytes))
              else vs
  {
    hide Heads, Given, VertexAt, Typed, CutVertexShader;
    var hs := Heads(xs, 3, n);
    HeadsStep(xs, 3, n);
    forall i | 0 <= i < |hs|
      ensures VertexAt(xs, hs[i], n + 1) ==
              if i == |hs| - 1 && Kind(xs[n].item) == 5 then VertexAt(xs, hs[i], n).(data := xs[n].item.bytes)
              else VertexAt(xs, hs[i], n)
    {
      VertexAtStep(xs, i, n);
    }
    var x, before, after := xs[n].item, VerticesOf(xs, n), VerticesOf(xs, n + 1);
    HeaderKinds(xs[n]);
    if x.VertexItem? {
      NewVertexAt(xs, n);
      Extended(before, after, CutVertexShader(x.v).(data := []));
    } else if Kind(x) == 5 && hs != [] {
      Replaced(before, after, Last(before).(data := x.bytes));
    } else {
      assert after == before;
    }
  }

  lemma NewVertexAt(xs: seq<Piece>, n: nat)
    requires n < |xs| && AllTyped(xs) && xs[n].item.VertexItem?
    ensures var x := xs[n].item; VertexAt(xs, n, n + 1) == CutVertexShader(x.v).(data := [])
  {
    hide Given, CutVertexShader;
    GivenEmpty(xs, n, 5);
  }

  function NewPixel(p: PixelShader, major: u32): PixelShader {
    var q := CutPixelShader(p).(data := []);
    if major == 0 then q.(gx2rData := NO_BUFFER) else q
  }

  lemma PixelAtStep(xs: seq<Piece>, i: nat, n: nat)
    requires n < |xs| && AllTyped(xs) && i < |Heads(xs, 6, n)|
    ensures var j, x := Heads(xs, 6, n)[i], xs[n].item;
            var here := i == |Heads(xs, 6, n)| - 1;
            PixelAt(xs, j, n + 1) ==
              if here && Kind(x) == 7 then PixelAt(xs, j, n).(data := x.bytes)
              else PixelAt(xs, j, n)
  {
    hide Heads, Given, Belongs, Typed, CutPixelShader;
    var j := Heads(xs, 6, n)[i];
    GivenStep(xs, j, 7, n);
    BelongsLast(xs, n, 7, i);
  }

  lemma PixelsStep(xs: seq<Piece>, n: nat)
    requires n < |xs| && AllTyped(xs)
    ensures var ps, x := PixelsOf(xs, n), xs[n].item;
            PixelsOf(xs, n + 1) ==
              if x.PixelItem? then ps + [NewPixel(x.p, xs[n].major)]
              else if Kind(x) == 7 && ps != [] then SetLast(ps, Last(ps).(data := x.bytes))
              else ps
  {
    hide Heads, Given, PixelAt, Typed, CutPixelShader;
    var hs := Heads(xs, 6, n);
    HeadsStep(xs, 6, n);
    forall i | 0 <= i < |hs|
      ensures PixelAt(xs, hs[i], n + 1) ==
              if i == |hs| - 1 && Kind(xs[n].item) == 7 then PixelAt(xs, hs[i], n).(data := xs[n].item.bytes)
              else PixelAt(xs, hs[i], n)
    {
      PixelAtStep(xs, i, n);
    }
    var x, before, after := xs[n].item, PixelsOf(xs, n), PixelsOf(xs, n + 1);
    HeaderKinds(xs[n]);
    if x.PixelItem? {
      NewPixelAt(xs, n);
      Extended(before, after, NewPixel(x.p, xs[n].major));
    } else if Kind(x) == 7 && hs != [] {
      Replaced(before, after, Last(before).(data := x.bytes));
    } else {
      assert after == before;
    }
  }

  lemma NewPixelAt(xs: seq<Piece>, n: nat)
    requires n < |xs| && AllTyped(xs) && xs[n].item.PixelItem?
    ensures var x := xs[n].item; PixelAt(xs, n, n + 1) == NewPixel(x.p, xs[n].major)
  {
    hide Given, CutPixelShader;
    GivenEmpty(xs, n, 7);
  }

  lemma GeometryAtStep(xs: seq<Piece>, i: nat, n: nat)
    requires n < |xs| && AllTyped(xs) && i < |Heads(xs, 8, n)|
    ensures var j, x := Heads(xs, 8, n)[i], xs[n].item;
            var here := i == |Heads(xs, 8, n)| - 1;
            GeometryAt(xs, j, n + 1) ==
              if here && Kind(x) == 9 then GeometryAt(xs, j, n).(data := x.bytes)
              else if here && Kind(x) == 10 then GeometryAt(xs, j, n).(vertexShaderData := x.bytes)
              else GeometryAt(xs, j, n)
  {
    hide Heads, Given, Belongs, Typed, CutGeometryShader;
    var j := Heads(xs, 8, n)[i];
    GivenStep(xs, j, 9, n);
    BelongsLast(xs, n, 9, i);
    GivenStep(xs, j, 10, n);
    BelongsLast(xs, n, 10, i);
  }

  lemma GeometriesStep(xs: seq<Piece>, n: nat)
    requires n < |xs| && AllTyped(xs)
    ensures var gs, x := GeometriesOf(xs, n), xs[n].item;
            GeometriesOf(xs, n + 1) ==
              if x.GeometryItem? then gs + [CutGeometryShader(x.g).(data := [], vertexShaderData := [])]
              else if Kind(x) == 9 && gs != [] then SetLast(gs, Last(gs).(data := x.bytes))
              else if Kind(x) == 10 && gs != [] then SetLast(gs, Last(gs).(vertexShaderData := x.bytes))
              else gs
  {
    hide Heads, Given, GeometryAt, Typed, CutGeometryShader;
    var hs := Heads(xs, 8, n);
    HeadsStep(xs, 8, n);
    forall i | 0 <= i < |hs|
      ensures GeometryAt(xs, hs[i], n + 1) ==
              if i == |hs| - 1 && Kind(xs[n].item) == 9 then GeometryAt(xs, hs[i], n).(data := xs[n].item.bytes)
              else if i == |hs| - 1 && Kind(xs[n].item) == 10 then GeometryAt(xs, hs[i], n).(vertexShaderData := xs[n].item.bytes)
              else GeometryAt(xs, hs[i], n)
    {
      GeometryAtStep(xs, i, n);
    }
    var x, before, after := xs[n].item, GeometriesOf(xs, n), GeometriesOf(xs, n + 1);
    HeaderKinds(xs[n]);
    if x.GeometryItem? {
      NewGeometryAt(xs, n);
      Extended(before, after, CutGeometryShader(x.g).(data := [], vertexShaderData := []));
    } else if Kind(x) == 9 && hs != [] {
      Replaced(before, after, Last(before).(data := x.bytes));
    } else if Kind(x) == 10 && hs != [] {
      Replaced(before, after, Last(before).(vertexShaderData := x.bytes));
    } else {
      assert after == before;
    }
  }

  lemma NewGeometryAt(xs: seq<Piece>, n: nat)
    requires n < |xs| && AllTyped(xs) && xs[n].item.GeometryItem?
    ensures var x := xs[n].item; GeometryAt(xs, n, n + 1) == CutGeometryShader(x.g).(data := [], vertexShaderData := [])
  {
    hide Given, CutGeometryShader;
    GivenEmpty(xs, n, 9);
    GivenEmpty(xs, n, 10);
  }

  lemma TextureAtStep(xs: seq<Piece>, i: nat, n: nat)
    requires n < |xs| && AllTyped(xs) && i < |Heads(xs, 11, n)|
    ensures var j, x := Heads(xs, 11, n)[i], xs[n].item;
            var here := i == |Heads(xs, 11, n)| - 1;
            TextureAt(xs, j, n + 1) ==
              if here && Kind(x) == 12 then TextureAt(xs, j, n).(image := x.bytes)
              else if here && Kind(x) == 13 then TextureAt(xs, j, n).(mipmap := x.bytes)
              else TextureAt(xs, j, n)
  {
    hide Heads, Given, Belongs, Typed;
    var j := Heads(xs, 11, n)[i];
    GivenStep(xs, j, 12, n);
    BelongsLast(xs, n, 12, i);
    GivenStep(xs, j, 13, n);
    BelongsLast(xs, n, 13, i);
  }

  lemma TexturesStep(xs: seq<Piece>, n: nat)
    requires n < |xs| && AllTyped(xs)
    ensures var ts, x := TexturesOf(xs, n), xs[n].item;
            TexturesOf(xs, n + 1) ==
              if x.TextureItem? then ts + [Texture(x.t.surface, [], [], x.t.rest)]
              else if Kind(x) == 12 && ts != [] then SetLast(ts, Last(ts).(image := x.bytes))
              else if Kind(x) == 13 && ts != [] then SetLast(ts, Last(ts).(mipmap := x.bytes))
              else ts
  {
    hide Heads, Given, TextureAt, Typed;
    var hs := Heads(xs, 11, n);
    HeadsStep(xs, 11, n);
    forall i | 0 <= i < |hs|
      ensures TextureAt(xs, hs[i], n + 1) ==
              if i == |hs| - 1 && Kind(xs[n].item) == 12 then TextureAt(xs, hs[i], n).(image := xs[n].item.bytes)
              else if i == |hs| - 1 && Kind(xs[n].item) == 13 then TextureAt(xs, hs[i], n).(mipmap := xs[n].item.bytes)
              else TextureAt(xs, hs[i], n)
    {
      TextureAtStep(xs, i, n);
    }
    var x, before, after := xs[n].item, TexturesOf(xs, n), TexturesOf(xs, n + 1);
    HeaderKinds(xs[n]);
    if x.TextureItem? {
      NewTextureAt(xs, n);
      Extended(before, after, Texture(x.t.surface, [], [], x.t.rest));
    } else if Kind(x) == 12 && hs != [] {
      Replaced(before, after, Last(before).(image := x.bytes));
    } else if Kind(x) == 13 && hs != [] {
      Replaced(before, after, Last(before).(mipmap := x.bytes));
    } else {
      assert after == before;
    }
  }

  lemma NewTextureAt(xs: seq<Piece>, n: nat)
    requires n < |xs| && AllTyped(xs) && xs[n].item.TextureItem?
    ensures var x := xs[n].item; TextureAt(xs, n, n + 1) == Texture(x.t.surface, [], [], x.t.rest)
  {
    hide Given;
    GivenEmpty(xs, n, 12);
    GivenEmpty(xs, n, 13);
  }

  // -------- reading one block

  lemma WholeFit(v: Variables, more: seq<seq<Record>>, shapes: seq<Shape>)
    requires AllFit(shapes, more)
    ensures AllFit(VariableShapes() + shapes, WholeVariables(v) + more)
  {
    hide Fits, Map;
    MapFits(UniformBlockRecord, UNIFORM_BLOCK, v.uniformBlocks);
    MapFits(UniformVarRecord, UNIFORM_VAR, v.uniformVars);
    MapFits(InitialValueRecord, INITIAL_VALUE, v.initialValues);
    MapFits(LoopVarRecord, LOOP_VAR, v.loopVars);
    MapFits(SamplerVarRecord, SAMPLER_VAR, v.samplerVars);
  }

  lemma WholeSeen(v: Variables, more: seq<seq<Record>>)
    ensures |SeenSections(WholeVariables(v) + more)| == 5 + |more|
    ensures GetVariables(SeenSections(WholeVariables(v) + more)) == CutVariables(v)
  {
    hide SeenAll, Map, UpToNul, SeenSections;
    var s := WholeVariables(v) + more;
    SeenAt(s, 0); SeenAt(s, 1); SeenAt(s, 2); SeenAt(s, 3); SeenAt(s, 4);
    MapSeen(UniformBlockRecord, GetUniformBlock, CutUniformBlock, v.uniformBlocks);
    MapSeen(UniformVarRecord, GetUniformVar, CutUniformVar, v.uniformVars);
    MapSeen(InitialValueRecord, GetInitialValue, Same<InitialValue>, v.initialValues);
    MapSame(v.initialValues);
    MapSeen(LoopVarRecord, GetLoopVar, Same<LoopVar>, v.loopVars);
    MapSame(v.loopVars);
    MapSeen(SamplerVarRecord, GetSamplerVar, CutSamplerVar, v.samplerVars);
  }

  lemma NoneMore(v: Variables)
    ensures AllFit([], []) && WholeVariables(v) + [] == WholeVariables(v) && VariableShapes() + [] == VariableShapes()
  {
  }

  lemma AttribsSeen(vs: seq<AttribVar>)
    ensures Map(GetAttribVar, SeenAll(Map(AttribVarRecord, vs))) == Map(CutAttribVar, vs)
  {
    hide Map, SeenAll, UpToNul;
    MapSeen(AttribVarRecord, GetAttribVar, CutAttribVar, vs);
  }

  lemma AttribsListed(vs: seq<AttribVar>)
    ensures AllFit([ATTRIB_VAR], [Map(AttribVarRecord, vs)])
  {
    MapFits(AttribVarRecord, ATTRIB_VAR, vs);
  }

  lemma StreamOutRead(s: StreamOut)
    requires |s.strides| == 4
    ensures GetStreamOut(StreamOutWords(s)) == s
  {
    assert StreamOutWords(s)[2..] == s.strides;
  }

  lemma VertexRead(d: seq<byte>, pos: nat, v: VertexShader, links: seq<u32>, major: u32, st: State)
    requires |d| < TWO32 && VertexTyped(v, links) && Holds(d, pos, Encode(VertexBlock(v, links)))
    ensures pos + |Encode(VertexBlock(v, links))| <= |d|
    ensures ReadVertexHeader(d, pos, major, |Encode(VertexBlock(v, links))|, st)
         == if major == 1 && AllZero(links) then Ok(AddVertexShader(st, v, [])) else Fail
  {
    hide Holds, Encode, ReadBlock, PatchOffset, Map, WholeVariables, GetVariables, CutVariables, StreamOutWords,
         GetStreamOut, SeenSections, SeenAll, U32, AllFit, VariableShapes;
    var b := VertexBlock(v, links);
    var attribs := Map(AttribVarRecord, v.attribVars);
    AttribsListed(v.attribVars);
    WholeFit(v.variables, [attribs], [ATTRIB_VAR]);
    BlockRoundTrip(d, pos, b, VertexLayout());
    WholeSeen(v.variables, [attribs]);
    SeenAt(b.sections, 5);
    AttribsSeen(v.attribVars);
    U32Id(|v.data|);
    StreamOutRead(v.streamOut);
    assert b.head[..52] == v.regs && b.head[52] == |v.data| && b.head[53] == links[0] && b.head[54] == v.mode;
    assert b.tail[..6] == StreamOutWords(v.streamOut) && b.tail[6..] == LinkedBuffer(v.gx2rData, links[1]);
    assert b.tail[9] == b.tail[6..][3];
  }

  lemma PixelRead(d: seq<byte>, pos: nat, p: PixelShader, links: seq<u32>, major: u32, st: State)
    requires |d| < TWO32 && PixelTyped(p, links, major) && Holds(d, pos, Encode(PixelBlock(p, links, major)))
    ensures pos + |Encode(PixelBlock(p, links, major))| <= |d|
    ensures ReadPixelHeader(d, pos, major, |Encode(PixelBlock(p, links, major))|, st)
         == if (major == 0 && links[0] == 0) || (major == 1 && AllZero(links)) then
              Ok(st.(file := st.file.(pixelShaders := st.file.pixelShaders + [NewPixel(p, major)]), pixelRoom := |p.data|))
            else Fail
  {
    hide Holds, Encode, ReadBlock, PatchOffset, Map, WholeVariables, GetVariables, CutVariables, SeenSections, SeenAll,
         U32, AllFit, VariableShapes;
    var b := PixelBlock(p, links, major);
    NoneMore(p.variables);
    WholeFit(p.variables, [], []);
    BlockRoundTrip(d, pos, b, PixelLayout(major));
    WholeSeen(p.variables, []);
    U32Id(|p.data|);
    assert b.head[..41] == p.regs && b.head[41] == |p.data| && b.head[42] == links[0] && b.head[43] == p.mode;
  }

  lemma GeometryRead(d: seq<byte>, pos: nat, g: GeometryShader, links: seq<u32>, major: u32, st: State)
    requires |d| < TWO32 && GeometryTyped(g, links) && Holds(d, pos, Encode(GeometryBlock(g, links)))
    ensures pos + |Encode(GeometryBlock(g, links))| <= |d|
    ensures ReadGeometryHeader(d, pos, major, |Encode(GeometryBlock(g, links))|, st)
         == if major == 1 && AllZero(links) then Ok(AddGeometryShader(st, g, [], [])) else Fail
  {
    hide Holds, Encode, ReadBlock, PatchOffset, Map, WholeVariables, GetVariables, CutVariables, StreamOutWords,
         GetStreamOut, SeenSections, SeenAll, U32, AllFit, VariableShapes;
    var b := GeometryBlock(g, links);
    NoneMore(g.variables);
    WholeFit(g.variables, [], []);
    BlockRoundTrip(d, pos, b, GeometryLayout());
    WholeSeen(g.variables, []);
    U32Id(|g.data|);
    U32Id(|g.vertexShaderData|);
    StreamOutRead(g.streamOut);
    assert b.head[..19] == g.regs && b.head[19] == |g.data| && b.head[20] == links[0];
    assert b.head[21] == |g.vertexShaderData| && b.head[22] == links[1] && b.head[23] == g.mode;
    assert b.tail[..6] == StreamOutWords(g.streamOut);
    assert b.tail[6..10] == LinkedBuffer(g.gx2rData, links[2]) && b.tail[10..] == LinkedBuffer(g.gx2rVertexShaderData, links[3]);
    assert b.tail[9] == b.tail[6..10][3] && b.tail[13] == b.tail[10..][3];
  }

  lemma TextureRead(d: seq<byte>, pos: nat, t: Texture, links: seq<u32>, major: u32, st: State)
    requires |d| < TWO32 && |t.image| < TWO32 && |t.mipmap| < TWO32 && TextureTyped(t) && |links| == 2
    requires Holds(d, pos, Words(TextureWords(t, links)))
    ensures ReadTextureHeader(d, U32(pos), major, st)
         == if major == 1 && AllZero(links) then Ok(AddTexture(st, t, [])) else Fail
  {
    hide Holds, Words, ReadWords, U32;
    var ws := TextureWords(t, links);
    HoldsFits(d, pos, Words(ws));
    U32Id(pos);
    ReadWordsOf(d, pos, ws);
    U32Id(|t.image|);
    U32Id(|t.mipmap|);
    assert ws[..8] == t.surface && ws[12..] == t.rest;
    assert ws[8] == |t.image| && ws[9] == links[0] && ws[10] == |t.mipmap| && ws[11] == links[1];
  }

  // -------- reading block n

  lemma RoomStep(xs: seq<Piece>, kind: u32, n: nat)
    requires n < |xs|
    ensures Room(xs, kind, n + 1)
         == if Kind(xs[n].item) == HeaderOf(kind) then Announced(xs[n].item, kind) else Room(xs, kind, n)
  {
    hide Heads;
    HeadsStep(xs, HeaderOf(kind), n);
  }

  lemma RoomsStep(xs: seq<Piece>, n: nat)
    requires n < |xs| && AllTyped(xs)
    ensures var x := xs[n].item;
            && Room(xs, 5, n + 1) == (if x.VertexItem? then |x.v.data| else Room(xs, 5, n))
            && Room(xs, 7, n + 1) == (if x.PixelItem? then |x.p.data| else Room(xs, 7, n))
            && Room(xs, 9, n + 1) == (if x.GeometryItem? then |x.g.data| else Room(xs, 9, n))
            && Room(xs, 10, n + 1) == (if x.GeometryItem? then |x.g.vertexShaderData| else Room(xs, 10, n))
            && Room(xs, 12, n + 1) == (if x.TextureItem? then |x.t.image| else Room(xs, 12, n))
            && Room(xs, 13, n + 1) == (if x.TextureItem? then |x.t.mipmap| else Room(xs, 13, n))
  {
    hide Room, Typed;
    HeaderKinds(xs[n]);
    RoomStep(xs, 5, n); RoomStep(xs, 7, n); RoomStep(xs, 9, n); RoomStep(xs, 10, n); RoomStep(xs, 12, n); RoomStep(xs, 13, n);
  }

  /** The sizes the reader has reserved are those announced, none of which is cut off. */
  lemma {:induction false} RoomFits(xs: seq<Piece>, kind: u32, n: nat)
    requires n <= |xs| && AllTyped(xs)
    ensures Room(xs, kind, n) < TWO32
  {
    hide Heads, Writable, VertexBlock, PixelBlock, GeometryBlock;
  }

  /** Everything in the state after n + 1 blocks. */
  lemma StateStep(xs: seq<Piece>, n: nat)
    requires n < |xs| && AllTyped(xs)
    ensures var st, x := StateOf(xs, n), xs[n].item;
            StateOf(xs, n + 1) ==
              match x
              case VertexItem(v, _) => AddVertexShader(st, v, [])
              case PixelItem(p, _) =>
                st.(file := st.file.(pixelShaders := st.file.pixelShaders + [NewPixel(p, xs[n].major)]), pixelRoom := U32(|p.data|))
              case GeometryItem(g, _) => AddGeometryShader(st, g, [], [])
              case TextureItem(t, _) => AddTexture(st, t, [])
              case DataItem(kind, bytes) =>
                var f := st.file;
                st.(file := File(
                      if kind == 5 && f.vertexShaders != [] then SetLast(f.vertexShaders, Last(f.vertexShaders).(data := bytes))
                      else f.vertexShaders,
                      if kind == 7 && f.pixelShaders != [] then SetLast(f.pixelShaders, Last(f.pixelShaders).(data := bytes))
                      else f.pixelShaders,
                      if kind == 9 && f.geometryShaders != [] then SetLast(f.geometryShaders, Last(f.geometryShaders).(data := bytes))
                      else if kind == 10 && f.geometryShaders != [] then
                        SetLast(f.geometryShaders, Last(f.geometryShaders).(vertexShaderData := bytes))
                      else f.geometryShaders,
                      if kind == 12 && f.textures != [] then SetLast(f.textures, Last(f.textures).(image := bytes))
                      else if kind == 13 && f.textures != [] then SetLast(f.textures, Last(f.textures).(mipmap := bytes))
                      else f.textures))
  {
    hide Room, VerticesOf, PixelsOf, GeometriesOf, TexturesOf, AllTyped, U32, SetLast, Last, NewPixel, CutVertexShader,
         CutGeometryShader;
    assert Typed(xs[n]) by { TypedAt(xs, n); }
    HeaderKinds(xs[n]);
    RoomsStep(xs, n);
    VerticesStep(xs, n);
    PixelsStep(xs, n);
    GeometriesStep(xs, n);
    TexturesStep(xs, n);
  }

  lemma TypedAt(xs: seq<Piece>, n: nat)
    requires n < |xs| && AllTyped(xs)
    ensures Typed(xs[n])
  {
    hide Typed;
  }

  lemma SomeHeads(xs: seq<Piece>, n: nat)
    requires n <= |xs| && AllTyped(xs)
    ensures VerticesOf(xs, n) == [] <==> Heads(xs, 3, n) == []
    ensures PixelsOf(xs, n) == [] <==> Heads(xs, 6, n) == []
    ensures GeometriesOf(xs, n) == [] <==> Heads(xs, 8, n) == []
    ensures TexturesOf(xs, n) == [] <==> Heads(xs, 11, n) == []
  {
    hide Heads, VertexAt, PixelAt, GeometryAt, TextureAt, Typed;
  }

  lemma DataRead(d: seq<byte>, pos: nat, xs: seq<Piece>, n: nat)
    requires |d| < TWO32 && AllTyped(xs) && n < |xs| && xs[n].item.DataItem? && Holds(d, pos, xs[n].item.bytes)
    ensures var x := xs[n].item;
            pos + |x.bytes| <= |d|
            && ReadProgram(d, pos, x.kind, |x.bytes|, StateOf(xs, n)) == if Accepted(xs, n) then Ok(StateOf(xs, n + 1)) else Fail
  {
    hide Holds, ReadBinary, VerticesOf, PixelsOf, GeometriesOf, TexturesOf, Typed, SetLast, Last, Room, Heads, U32;
    var bytes := xs[n].item.bytes;
    ReadBinaryOf(d, pos, bytes);
    StateStep(xs, n);
    SomeHeads(xs, n);
    RoomFits(xs, xs[n].item.kind, n);
    U32Id(Room(xs, xs[n].item.kind, n));
  }

  /** What the reader makes of the contents of block n. */
  lemma ContentsRead(d: seq<byte>, pos: nat, xs: seq<Piece>, n: nat)
    requires |d| < TWO32 && AllTyped(xs) && n < |xs| && Holds(d, pos, Contents(xs[n]))
    ensures pos + |Contents(xs[n])| <= |d|
    ensures pos < TWO32 && |Contents(xs[n])| < TWO32
    ensures ReadData(d, pos, xs[n].major, Kind(xs[n].item), |Contents(xs[n])|, StateOf(xs, n))
         == if Accepted(xs, n) then Ok(StateOf(xs, n + 1)) else Fail
  {
    hide Holds, Encode, Words, ReadVertexHeader, ReadPixelHeader, ReadGeometryHeader, ReadTextureHeader, ReadProgram,
         StateOf, AllTyped, U32, AllZero, Room, Heads, VertexTyped, PixelTyped, GeometryTyped, VertexBlock, PixelBlock,
         GeometryBlock, TextureWords, AddVertexShader, AddGeometryShader, AddTexture, NewPixel;
    TypedAt(xs, n);
    var x, st := xs[n], StateOf(xs, n);
    HoldsFits(d, pos, Contents(x));
    StateStep(xs, n);
    match x.item
    case VertexItem(v, links) => VertexRead(d, pos, v, links, x.major, st);
    case PixelItem(p, links) =>
      PixelRead(d, pos, p, links, x.major, st);
      PixelLinks(p, links, x.major);
    case GeometryItem(g, links) => GeometryRead(d, pos, g, links, x.major, st);
    case TextureItem(t, links) =>
      TextureRead(d, pos, t, links, x.major, st);
      U32Id(pos);
    case DataItem(kind, bytes) => DataRead(d, pos, xs, n);
  }

  lemma PixelLinks(p: PixelShader, links: seq<u32>, major: u32)
    requires PixelTyped(p, links, major)
    ensures |links| == 2 && U32(|p.data|) == |p.data|
  {
    hide Writable, PixelBlock;
  }

  // -------- reading all blocks

  lemma PieceRead(d: seq<byte>, pos: nat, xs: seq<Piece>, n: nat)
    requires |d| < TWO32 && AllTyped(xs) && n < |xs| && Holds(d, pos, EncodeFrom(xs, n))
    ensures var next := pos + 32 + |Contents(xs[n])|;
            && next <= |d| && Holds(d, next, EncodeFrom(xs, n + 1))
            && |EncodeFrom(xs, n)| == 32 + |Contents(xs[n])| + |EncodeFrom(xs, n + 1)|
            && ReadBlocks(d, pos, StateOf(xs, n))
               == if Accepted(xs, n) then ReadBlocks(d, next, StateOf(xs, n + 1)) else Fail
  {
    hide Holds, Words, Contents, ReadWords, ReadData, StateOf, Accepted, Typed, U32;
    var h, data := PieceHeader(xs[n]), Contents(xs[n]);
    HoldsPart(d, pos, Words(h) + data, EncodeFrom(xs, n + 1));
    HoldsPart(d, pos, Words(h), data);
    HoldsFits(d, pos + 32, data);
    ReadWordsOf(d, pos, h);
    U32Id(|data|);
    U32Id(pos + 32);
    U32Id(pos + 32 + |data|);
    NotEof(xs[n]);
    ContentsRead(d, pos + 32, xs, n);
  }

  lemma NotEof(x: Piece)
    requires Typed(x)
    ensures Kind(x.item) != EOF
  {
  }

  ghost predicate AcceptedFrom(xs: seq<Piece>, n: nat) {
    forall k :: n <= k < |xs| ==> Accepted(xs, k)
  }

  lemma {:induction false} PiecesRead(d: seq<byte>, pos: nat, xs: seq<Piece>, n: nat)
    requires |d| < TWO32 && AllTyped(xs) && n <= |xs| && Holds(d, pos, EncodeFrom(xs, n))
    ensures var next := pos + |EncodeFrom(xs, n)|;
            && next <= |d|
            && ReadBlocks(d, pos, StateOf(xs, n))
               == if AcceptedFrom(xs, n) then ReadBlocks(d, next, StateOf(xs, |xs|)) else Fail
    decreases |xs| - n
  {
    hide Holds, ReadBlocks, StateOf, Accepted, Typed, Contents;
    HoldsFits(d, pos, EncodeFrom(xs, n));
    if n < |xs| {
      hide EncodeFrom;
      PieceRead(d, pos, xs, n);
      PiecesRead(d, pos + 32 + |Contents(xs[n])|, xs, n + 1);
    }
  }

  /** The header of a file: its magic, its size and version, and words nobody looks at. */
  function FileHeader(rest: seq<u32>): (ws: seq<u32>)
    requires |rest| == 5
    ensures |ws| == 8
  {
    [0x4766_7832, 32, 7] + rest
  }

  /** A file ends with its last block, or anywhere behind an end-of-file block. */
  datatype Ending = LastBlock | Eof(major: u32, minor: u32, size: u32, id: u32, index: u32, junk: seq<byte>)

  function EofWords(end: Ending): (ws: seq<u32>)
    requires end.Eof?
    ensures |ws| == 8
  {
    [0x424C_4B7B, 32, end.major, end.minor, 1, end.size, end.id, end.index]
  }

  function EndBytes(end: Ending): seq<byte> {
    if end.Eof? then Words(EofWords(end)) + end.junk else []
  }

  lemma EndRead(d: seq<byte>, pos: nat, end: Ending, st: State)
    requires |d| < TWO32 && Holds(d, pos, EndBytes(end)) && pos + |EndBytes(end)| == |d|
    ensures pos < TWO32 && ReadBlocks(d, pos, st) == Ok(st.file)
  {
    hide Holds, Words, ReadWords, ReadData;
    if end.Eof? {
      HoldsPart(d, pos, Words(EofWords(end)), end.junk);
      ReadWordsOf(d, pos, EofWords(end));
    }
  }

  function WholeFile(rest: seq<u32>, xs: seq<Piece>, end: Ending): seq<byte>
    requires |rest| == 5 && AllTyped(xs)
  {
    Words(FileHeader(rest)) + EncodeFrom(xs, 0) + EndBytes(end)
  }

  lemma StateOfNone(xs: seq<Piece>)
    requires AllTyped(xs)
    ensures StateOf(xs, 0) == EMPTY
  {
  }

  /**
   * The reader accepts a file exactly if it accepts each block, and then it gives one shader or texture for every
   * header block, each with the bytes of the last blocks of its kinds of data that came before the next such header.
   */
  lemma FileRead(rest: seq<u32>, xs: seq<Piece>, end: Ending)
    requires |rest| == 5 && AllTyped(xs) && |WholeFile(rest, xs, end)| < TWO32
    ensures ReadFile(WholeFile(rest, xs, end)) == if AllAccepted(xs) then Ok(FileOf(xs, |xs|)) else Fail
  {
    hide Holds, Words, ReadWords, ReadBlocks, EncodeFrom, EndBytes, Typed, Accepted, FileOf;
    var h, blocks, d := FileHeader(rest), EncodeFrom(xs, 0), WholeFile(rest, xs, end);
    HoldsAll(d);
    HoldsPart(d, 0, Words(h) + blocks, EndBytes(end));
    HoldsPart(d, 0, Words(h), blocks);
    ReadWordsOf(d, 0, h);
    StateOfNone(xs);
    PiecesRead(d, 32, xs, 0);
    EndRead(d, 32 + |blocks|, end, StateOf(xs, |xs|));
  }

  /** A file with another magic, header size or version is refused. */
  lemma FileRefused(h: seq<u32>, rest: seq<byte>)
    requires |h| == 8 && |Words(h) + rest| < TWO32 && h[..3] != [0x4766_7832, 32, 7]
    ensures ReadFile(Words(h) + rest) == Fail
  {
    hide Holds, Words, ReadWords, ReadBlocks;
    var d := Words(h) + rest;
    HoldsAll(d);
    HoldsPart(d, 0, Words(h), rest);
    ReadWordsOf(d, 0, h);
    assert h[..3] == [h[0], h[1], h[2]];
  }

  // -------- textures and version 0 pixel shaders

  function Plain(x: Item, major: u32): Piece { Piece(x, major, 0, 0, 0) }

  function TexturePieces(t: Texture, image: seq<byte>, mipmap: seq<byte>): seq<Piece> {
    [Plain(TextureItem(t, [0, 0]), 1), Plain(DataItem(12, image), 1), Plain(DataItem(13, mipmap), 1)]
  }

  lemma NoHeads(xs: seq<Piece>, kind: u32)
    ensures Heads(xs, kind, 0) == []
  {
  }

  lemma TextureHeads(t: Texture, image: seq<byte>, mipmap: seq<byte>, kind: u32)
    requires kind == 3 || kind == 6 || kind == 8 || kind == 11
    ensures var xs := TexturePieces(t, image, mipmap);
            var hs := if kind == 11 then [0] else [];
            Heads(xs, kind, 1) == hs && Heads(xs, kind, 2) == hs && Heads(xs, kind, 3) == hs
  {
    hide Heads;
    var xs := TexturePieces(t, image, mipmap);
    NoHeads(xs, kind);
    HeadsStep(xs, kind, 0);
    HeadsStep(xs, kind, 1);
    HeadsStep(xs, kind, 2);
  }

  lemma TextureGiven(t: Texture, image: seq<byte>, mipmap: seq<byte>)
    ensures var xs := TexturePieces(t, image, mipmap);
            Given(xs, 0, 12, 3) == image && Given(xs, 0, 13, 3) == mipmap
  {
    hide Heads, Given;
    var xs := TexturePieces(t, image, mipmap);
    TextureHeads(t, image, mipmap, 11);
    GivenStep(xs, 0, 12, 1);
    GivenStep(xs, 0, 12, 2);
    GivenStep(xs, 0, 13, 2);
  }

  /** The three blocks stand for one texture. */
  lemma TextureFile(t: Texture, image: seq<byte>, mipmap: seq<byte>)
    requires AllTyped(TexturePieces(t, image, mipmap))
    ensures FileOf(TexturePieces(t, image, mipmap), 3) == File([], [], [], [t.(image := image, mipmap := mipmap)])
  {
    hide Heads, Given, VertexAt, PixelAt, GeometryAt, AllTyped;
    var xs := TexturePieces(t, image, mipmap);
    TextureHeads(t, image, mipmap, 3);
    TextureHeads(t, image, mipmap, 6);
    TextureHeads(t, image, mipmap, 8);
    TextureHeads(t, image, mipmap, 11);
    TextureGiven(t, image, mipmap);
    assert TexturesOf(xs, 3) == [TextureAt(xs, 0, 3)];
  }

  lemma TextureAccepted(t: Texture, image: seq<byte>, mipmap: seq<byte>)
    ensures AllAccepted(TexturePieces(t, image, mipmap)) <==> |image| == |t.image| && |mipmap| == |t.mipmap|
  {
    hide Heads;
    var xs := TexturePieces(t, image, mipmap);
    TextureHeads(t, image, mipmap, 11);
    assert Accepted(xs, 0);
    assert Accepted(xs, 1) <==> |image| == |t.image|;
    assert Accepted(xs, 2) <==> |mipmap| == |t.mipmap|;
  }

  /** A texture with an image and a mipmap block comes back with both, exactly if they are as long as announced. */
  lemma TextureBack(t: Texture, image: seq<byte>, mipmap: seq<byte>, rest: seq<u32>, end: Ending)
    requires TextureTyped(t) && |t.image| < TWO32 && |t.mipmap| < TWO32 && |rest| == 5
    requires |WholeFile(rest, TexturePieces(t, image, mipmap), end)| < TWO32
    ensures ReadFile(WholeFile(rest, TexturePieces(t, image, mipmap), end))
         == if |image| == |t.image| && |mipmap| == |t.mipmap| then Ok(File([], [], [], [t.(image := image, mipmap := mipmap)]))
            else Fail
  {
    hide WholeFile, ReadFile, FileOf, AllAccepted;
    FileRead(rest, TexturePieces(t, image, mipmap), end);
    TextureFile(t, image, mipmap);
    TextureAccepted(t, image, mipmap);
  }

  function PixelPieces(p: PixelShader, link: u32, data: seq<byte>): seq<Piece> {
    [Plain(PixelItem(p, [0, link]), 0), Plain(DataItem(7, data), 0)]
  }

  lemma PixelHeads(p: PixelShader, link: u32, data: seq<byte>, kind: u32)
    requires kind == 3 || kind == 6 || kind == 8 || kind == 11
    ensures var xs := PixelPieces(p, link, data);
            var hs := if kind == 6 then [0] else [];
            Heads(xs, kind, 1) == hs && Heads(xs, kind, 2) == hs
  {
    hide Heads;
    var xs := PixelPieces(p, link, data);
    NoHeads(xs, kind);
    HeadsStep(xs, kind, 0);
    HeadsStep(xs, kind, 1);
  }

  lemma PixelFile(p: PixelShader, link: u32, data: seq<byte>)
    requires AllTyped(PixelPieces(p, link, data))
    ensures FileOf(PixelPieces(p, link, data), 2)
         == File([], [p.(data := data, variables := CutVariables(p.variables), gx2rData := Gx2rBuffer(0, 0, 0, []))], [], [])
  {
    hide Heads, Given, VertexAt, GeometryAt, TextureAt, AllTyped, CutVariables;
    var xs := PixelPieces(p, link, data);
    PixelHeads(p, link, data, 3);
    PixelHeads(p, link, data, 6);
    PixelHeads(p, link, data, 8);
    PixelHeads(p, link, data, 11);
    GivenStep(xs, 0, 7, 1);
    assert PixelsOf(xs, 2) == [PixelAt(xs, 0, 2)];
  }

  lemma PixelAccepted(p: PixelShader, link: u32, data: seq<byte>)
    ensures AllAccepted(PixelPieces(p, link, data)) <==> |data| == |p.data|
  {
    hide Heads;
    var xs := PixelPieces(p, link, data);
    PixelHeads(p, link, data, 6);
    assert Accepted(xs, 0);
    assert Accepted(xs, 1) <==> |data| == |p.data|;
  }

  /** A version 0 pixel shader comes back with an empty GX2R buffer, whatever that of the shader was. */
  lemma OldPixelBack(p: PixelShader, link: u32, data: seq<byte>, rest: seq<u32>, end: Ending)
    requires |rest| == 5 && AllTyped(PixelPieces(p, link, data)) && |WholeFile(rest, PixelPieces(p, link, data), end)| < TWO32
    ensures ReadFile(WholeFile(rest, PixelPieces(p, link, data), end))
         == if |data| == |p.data| then
              Ok(File([], [p.(data := data, variables := CutVariables(p.variables), gx2rData := Gx2rBuffer(0, 0, 0, []))], [], []))
            else Fail
  {
    hide WholeFile, ReadFile, FileOf, AllAccepted, AllTyped, CutVariables;
    FileRead(rest, PixelPieces(p, link, data), end);
    PixelFile(p, link, data);
    PixelAccepted(p, link, data);
  }
}
