/** The reader: a byte vector and a position that every read moves. */
module GfdReader {
  import opened Machine
  import opened GfdBytes
  import opened GfdBlock
  import F = GfdFile
  import opened Wrappers

  lemma U32Add(x: int, y: int)
    ensures U32(U32(x) + y) == U32(x + y)
  {
    var q := x / TWO32;
    assert x == TWO32 * q + U32(x);
    assert (U32(x) + y + TWO32 * q) % TWO32 == (U32(x) + y) % TWO32;
  }

  lemma NameOffset(pos: u32, base: u32)
    ensures U32(U32(pos + 4) - 4 - base) == U32(pos - base)
  {
    hide U32;
    var x: int, y: int := pos + 4, -4 - base;
    U32Add(x, y);
    assert x + y == pos - base;
  }

  lemma NextBlock(pos: u32, size: u32)
    ensures U32(U32(pos + 32) + size) == U32(pos + 32 + size)
  {
    hide U32;
    var x: int := pos + 32;
    U32Add(x, size);
  }

  lemma U32Same(x: u32)
    ensures U32(x) == x
  {
  }

  class MemoryFile {
    const data: seq<byte>
    var pos: u32

    constructor (bytes: seq<byte>)
      ensures data == bytes && pos == 0
    {
      data, pos := bytes, 0;
    }

    method Read() returns (r: Result<u32>)
      modifies this
      ensures r == if old(pos) + 4 > |data| then Fail else Ok(Get32(data, old(pos)))
      ensures r.Ok? ==> pos == U32(old(pos) + 4)
    {
      if pos + 4 > |data| {
        return Fail;
      }
      r := Ok(Get32(data, pos));
      pos := U32(pos + 4);
    }

    /** Several reads in a row. */
    method ReadMany(n: nat) returns (r: Result<seq<u32>>)
      modifies this
      ensures r == ReadWords(data, old(pos), n)
      ensures r.Ok? ==> pos == U32(old(pos) + 4 * n)
    {
      hide Get32, U32;
      var ws: seq<u32> := [];
      U32Same(pos);
      PrefixedNone(ReadWords(data, pos, n));
      for i := 0 to n
        invariant pos == U32(old(pos) + 4 * i)
        invariant ReadWords(data, old(pos), n) == Prefixed(ws, ReadWords(data, pos, n - i))
      {
        var w :- Read();
        U32Add(old(pos) + 4 * i, 4);
        PrefixedMore(ws, w, ReadWords(data, pos, n - i - 1));
        ws := ws + [w];
      }
      r := Ok(ws);
      assert ws + [] == ws;
    }

    method CheckRelocation(patches: seq<u32>, offset: nat) returns (found: bool)
      ensures found == Relocated(patches, offset)
    {
      hide Untag;
      for i := 0 to |patches|
        invariant forall k :: 0 <= k < i ==> Untag(patches[k]) != offset
      {
        if Untag(patches[i]) == offset {
          return true;
        }
      }
      return false;
    }

    method ReadName(base: u32, patches: seq<u32>) returns (r: Result<seq<byte>>)
      modifies this
      ensures r == ReadNameAt(data, base, patches, old(pos))
      ensures r.Ok? ==> pos == U32(old(pos) + 4)
    {
      hide ReadWords, Relocated, CString, U32, Untag;
      NameOffset(pos, base);
      var links :- ReadMany(1);
      var found := CheckRelocation(patches, U32(pos - 4 - base));
      if !found {
        return Ok([]);
      }
      r := CString(data, base + Untag(links[0]));
    }

    method ReadOne(base: u32, patches: seq<u32>, shape: Shape) returns (r: Result<Record>)
      modifies this
      ensures r == ReadRecord(data, base, patches, old(pos), shape)
      ensures r.Ok? ==> pos == U32(old(pos) + ShapeSize(shape))
    {
      hide ReadWords, Relocated, CString, U32;
      if shape.named {
        var name :- ReadName(base, patches);
        var words :- ReadMany(shape.width);
        U32Add(old(pos) + 4, 4 * shape.width);
        r := Ok(Record(Some(name), words));
      } else {
        var words :- ReadMany(shape.width);
        r := Ok(Record(None, words));
      }
    }

    /** One of the read*Vars functions: follows a table entry to its records and comes back. */
    method ReadList(base: u32, patches: seq<u32>, shape: Shape) returns (r: Result<seq<Record>>)
      modifies this
      ensures r == ReadSection(data, base, patches, old(pos), shape)
      ensures r.Ok? ==> pos == U32(old(pos) + 8)
    {
      hide ReadWords, Relocated, ReadRecord, U32, Untag, ShapeSize;
      var start := pos;
      var entry :- ReadMany(2);
      var count, offset := entry[0], Untag(entry[1]);
      if count == 0 {
        return Ok([]);
      }
      var known := CheckRelocation(patches, U32(start + 4 - base));
      if offset == 0 || !known {
        return Fail;
      }
      pos := U32(base + offset);
      ghost var from := pos;
      var rs: seq<Record> := [];
      PrefixedNone(ReadRecords(data, base, patches, pos, shape, count));
      for i := 0 to count
        invariant ReadRecords(data, base, patches, from, shape, count)
               == Prefixed(rs, ReadRecords(data, base, patches, pos, shape, count - i))
      {
        var one :- ReadOne(base, patches, shape);
        PrefixedMore(rs, one, ReadRecords(data, base, patches, pos, shape, count - i - 1));
        rs := rs + [one];
      }
      assert rs + [] == rs;
      pos := U32(start + 8);
      r := Ok(rs);
    }

    method ReadBlockRelocations(base: u32, size: u32) returns (r: Result<seq<u32>>)
      modifies this
      ensures r == ReadPatches(data, base, size)
    {
      hide ReadWords, U32, Untag;
      pos := U32(base + size - RELOCATION_SIZE);
      var h :- ReadMany(10);
      if h[0] != RELOCATION_MAGIC || h[1] != RELOCATION_SIZE {
        return Fail;
      }
      pos := U32(base + Untag(h[9]));
      r := ReadMany(h[8]);
    }

    method ReadLists(base: u32, patches: seq<u32>, shapes: seq<Shape>) returns (r: Result<seq<seq<Record>>>)
      modifies this
      ensures r == ReadSections(data, base, patches, old(pos), shapes)
      ensures r.Ok? ==> pos == U32(old(pos) + 8 * |shapes|)
    {
      hide ReadSection, U32;
      var ss: seq<seq<Record>> := [];
      U32Same(pos);
      assert shapes[0..] == shapes;
      PrefixedNone(ReadSections(data, base, patches, pos, shapes));
      for i := 0 to |shapes|
        invariant pos == U32(old(pos) + 8 * i)
        invariant ReadSections(data, base, patches, old(pos), shapes)
               == Prefixed(ss, ReadSections(data, base, patches, pos, shapes[i..]))
      {
        assert shapes[i..][0] == shapes[i] && shapes[i..][1..] == shapes[i + 1..];
        var one :- ReadList(base, patches, shapes[i]);
        U32Add(old(pos) + 8 * i, 8);
        PrefixedMore(ss, one, ReadSections(data, base, patches, pos, shapes[i + 1..]));
        ss := ss + [one];
      }
      assert shapes[|shapes|..] == [] && ss + [] == ss;
      r := Ok(ss);
    }

    /** A shader header: relocations first, then head, lists and tail in file order. */
    method ReadHeader(size: u32, layout: Layout) returns (r: Result<Block>)
      modifies this
      ensures r == ReadBlock(data, old(pos), size, layout)
      ensures r.Ok? ==> pos == U32(old(pos) + size)
    {
      hide ReadWords, ReadPatches, ReadSections, U32;
      var base := pos;
      var patches :- ReadBlockRelocations(base, size);
      pos := base;
      var head :- ReadMany(layout.head);
      var sections :- ReadLists(base, patches, layout.shapes);
      U32Add(base + 4 * layout.head, 8 * |layout.shapes|);
      var tail :- ReadMany(layout.tail);
      pos := U32(base + size);
      r := Ok(Block(head, sections, tail));
    }

    method ReadBytes(size: u32) returns (r: Result<seq<byte>>)
      modifies this
      ensures r == F.ReadBinary(data, old(pos), size)
      ensures r.Ok? ==> pos == U32(old(pos) + size)
    {
      if U32(pos + size) > |data| || pos + size > |data| {
        return Fail;
      }
      r := Ok(data[pos..pos + size]);
      pos := U32(pos + size);
    }

    /** The data of one block; every kind leaves the position at the end of the block. */
    method ReadBlockData(major: u32, kind: u32, size: u32, st: F.State) returns (r: Result<F.State>)
      modifies this
      ensures r == F.ReadData(data, old(pos), major, kind, size, st)
      ensures r.Ok? ==> pos == U32(old(pos) + size)
    {
      hide ReadBlock, U32, F.GetVariables, F.Map, F.GetStreamOut, F.GetBuffer, F.VertexLayout, F.PixelLayout,
           F.GeometryLayout, F.ReadProgram, F.ReadTextureHeader;
      if kind == F.VERTEX_SHADER_HEADER {
        LayoutSizes();
        var b :- ReadHeader(size, F.VertexLayout());
        r := F.VertexHeader(b, major, st);
      } else if kind == F.PIXEL_SHADER_HEADER {
        LayoutSizes();
        var b :- ReadHeader(size, F.PixelLayout(major));
        r := F.PixelHeader(b, major, st);
      } else if kind == F.GEOMETRY_SHADER_HEADER {
        LayoutSizes();
        var b :- ReadHeader(size, F.GeometryLayout());
        r := F.GeometryHeader(b, major, st);
      } else if kind == F.TEXTURE_HEADER {
        r := ReadTexture(major, size, st);
      } else {
        r := ReadProgramData(kind, size, st);
      }
    }

    method ReadTexture(major: u32, size: u32, st: F.State) returns (r: Result<F.State>)
      modifies this
      ensures r == F.ReadTextureHeader(data, old(pos), major, st)
      ensures r.Ok? ==> pos == U32(old(pos) + size)
    {
      hide ReadWords, U32;
      var base := pos;
      var ws :- ReadMany(39);
      if major != 1 || ws[9] != 0 || ws[11] != 0 {
        return Fail;
      }
      var t := F.Texture(ws[..8], [], [], ws[12..]);
      r := Ok(st.(file := st.file.(textures := st.file.textures + [t]), imageRoom := ws[8], mipmapRoom := ws[10]));
      pos := U32(base + size);
    }

    method ReadProgramData(kind: u32, size: u32, st: F.State) returns (r: Result<F.State>)
      modifies this
      ensures r == F.ReadProgram(data, old(pos), kind, size, st)
      ensures r.Ok? ==> pos == U32(old(pos) + size)
    {
      hide U32, F.ReadBinary, F.Last, F.SetLast;
      var f := st.file;
      if kind == F.VERTEX_SHADER_PROGRAM {
        if |f.vertexShaders| == 0 || size != st.vertexRoom { return Fail; }
        var b :- ReadBytes(size);
        var last := F.Last(f.vertexShaders).(data := b);
        r := Ok(st.(file := f.(vertexShaders := F.SetLast(f.vertexShaders, last))));
      } else if kind == F.PIXEL_SHADER_PROGRAM {
        if |f.pixelShaders| == 0 || size != st.pixelRoom { return Fail; }
        var b :- ReadBytes(size);
        var last := F.Last(f.pixelShaders).(data := b);
        r := Ok(st.(file := f.(pixelShaders := F.SetLast(f.pixelShaders, last))));
      } else if kind == F.GEOMETRY_SHADER_PROGRAM {
        if |f.geometryShaders| == 0 || size != st.geometryRoom { return Fail; }
        var b :- ReadBytes(size);
        var last := F.Last(f.geometryShaders).(data := b);
        r := Ok(st.(file := f.(geometryShaders := F.SetLast(f.geometryShaders, last))));
      } else if kind == F.GEOMETRY_SHADER_COPY_PROGRAM {
        if |f.geometryShaders| == 0 || size != st.copyRoom { return Fail; }
        var b :- ReadBytes(size);
        var last := F.Last(f.geometryShaders).(vertexShaderData := b);
        r := Ok(st.(file := f.(geometryShaders := F.SetLast(f.geometryShaders, last))));
      } else if kind == F.TEXTURE_IMAGE {
        if |f.textures| == 0 || size != st.imageRoom { return Fail; }
        var b :- ReadBytes(size);
        var last := F.Last(f.textures).(image := b);
        r := Ok(st.(file := f.(textures := F.SetLast(f.textures, last))));
      } else if kind == F.TEXTURE_MIPMAP {
        if |f.textures| == 0 || size != st.mipmapRoom { return Fail; }
        var b :- ReadBytes(size);
        var last := F.Last(f.textures).(mipmap := b);
        r := Ok(st.(file := f.(textures := F.SetLast(f.textures, last))));
      } else {
        pos := U32(pos + size);
        r := Ok(st);
      }
    }

    /** readFile after the bytes are loaded. */
    method ReadAll() returns (r: Result<F.File>)
      requires pos == 0
      modifies this
      ensures r == F.ReadFile(data)
    {
      hide ReadWords, F.ReadData;
      var h :- ReadMany(8);
      if h[0] != F.FILE_MAGIC || h[1] != F.HEADER_SIZE || h[2] != 7 {
        return Fail;
      }
      var st := F.EMPTY;
      while pos < |data|
        invariant F.ReadFile(data) == F.ReadBlocks(data, pos, st)
        decreases |data| - pos
      {
        var start := pos;
        var b :- ReadMany(8);
        if b[0] != F.BLOCK_MAGIC || b[1] != F.HEADER_SIZE {
          return Fail;
        }
        if b[4] == F.EOF {
          return Ok(st.file);
        }
        NextBlock(start, b[5]);
        st :- ReadBlockData(b[2], b[4], b[5], st);
        if pos <= start {
          return Fail;
        }
      }
      r := Ok(st.file);
    }
  }

  lemma LayoutSizes()
    ensures F.VertexLayout().head == 55 && |F.VertexLayout().shapes| == 6 && F.VertexLayout().tail == 10
    ensures F.GeometryLayout().head == 24 && |F.GeometryLayout().shapes| == 5 && F.GeometryLayout().tail == 14
    ensures forall major :: F.PixelLayout(major).head == 44 && |F.PixelLayout(major).shapes| == 5
                            && F.PixelLayout(major).tail == if major == 0 then 0 else 4
  {
  }

  /** A result with what was read before it put in front. */
  function Prefixed<T>(xs: seq<T>, r: Result<seq<T>>): Result<seq<T>> {
    match r
    case Fail => Fail
    case Ok(ys) => Ok(xs + ys)
  }

  lemma PrefixedNone<T>(r: Result<seq<T>>)
    ensures Prefixed([], r) == r
  {
    if r.Ok? {
      assert [] + r.value == r.value;
    }
  }

  lemma PrefixedMore<T>(xs: seq<T>, x: T, r: Result<seq<T>>)
    ensures Prefixed(xs + [x], r) == match r case Fail => Fail case Ok(ys) => Prefixed(xs, Ok([x] + ys))
  {
    if r.Ok? {
      Assoc(xs, [x], r.value);
    }
  }
}
