/** writeFile: the file header, the blocks of every shader and texture, and the end-of-file block. */
module GfdFileWriter {
  import opened Machine
  import opened GfdBytes
  import opened GfdBlock
  import opened GfdFile
  import GfdWriter

  /** The header sizes the writer and the reader both check. */
  lemma HeaderSizes(v: VertexShader, p: PixelShader, g: GeometryShader, t: Texture)
    requires VertexShaderTyped(v) && PixelShaderTyped(p) && GeometryShaderTyped(g) && TextureTyped(t)
    ensures HeaderSize(VertexShaderBlock(v)) == 0x134 == 4 * (55 + 2 * 6 + 10)
    ensures HeaderSize(PixelShaderBlock(p)) == 0xE8
    ensures HeaderSize(GeometryShaderBlock(g)) == 0xC0
    ensures |Words(TextureHeader(t))| == 0x9C
  {
    hide PutVariables, Map, U32, Words;
  }

  class FileWriter {
    var fh: seq<byte>
    var blockID: nat

    constructor ()
      ensures fh == [] && blockID == 0
    {
      fh, blockID := [], 0;
    }

    /** Appends one block and numbers it. */
    method WriteBlock(c: Chunk)
      modifies this
      ensures fh == old(fh) + EncodeChunk(c, old(blockID)) && blockID == old(blockID) + 1
    {
      fh := fh + (Words(ChunkHeader(c, blockID)) + c.data);
      blockID := blockID + 1;
    }

    /** Appends several blocks in order. */
    method WriteBlocks(cs: seq<Chunk>)
      modifies this
      ensures fh == old(fh) + EncodeChunks(cs, old(blockID)) && blockID == old(blockID) + |cs|
    {
      hide EncodeChunk;
      for i := 0 to |cs|
        invariant blockID == old(blockID) + i
        invariant fh + EncodeChunks(cs[i..], blockID) == old(fh) + EncodeChunks(cs, old(blockID))
      {
        assert cs[i..][0] == cs[i] && cs[i..][1..] == cs[i + 1..];
        Assoc(fh, EncodeChunk(cs[i], blockID), EncodeChunks(cs[i + 1..], blockID + 1));
        WriteBlock(cs[i]);
      }
      assert cs[|cs|..] == [];
    }

    method WriteVertexShaders(xs: seq<VertexShader>)
      modifies this
      ensures fh == old(fh) + EncodeChunks(Each(VertexShaderChunks, xs, 0), old(blockID))
      ensures blockID == old(blockID) + |Each(VertexShaderChunks, xs, 0)|
    {
      hide EncodeChunks, VertexShaderBlock, Encode;
      for i := 0 to |xs|
        invariant blockID + |Each(VertexShaderChunks, xs[i..], i)| == old(blockID) + |Each(VertexShaderChunks, xs, 0)|
        invariant fh + EncodeChunks(Each(VertexShaderChunks, xs[i..], i), blockID)
               == old(fh) + EncodeChunks(Each(VertexShaderChunks, xs, 0), old(blockID))
      {
        var header := GfdWriter.WriteBlock(VertexShaderBlock(xs[i]));
        var cs := [Chunk(VERTEX_SHADER_HEADER, i, header), Chunk(VERTEX_SHADER_PROGRAM, i, xs[i].data)];
        assert xs[i..][0] == xs[i] && xs[i..][1..] == xs[i + 1..];
        Ahead(fh, cs, Each(VertexShaderChunks, xs[i + 1..], i + 1), blockID);
        WriteBlocks(cs);
      }
      Done(fh, blockID);
      assert xs[|xs|..] == [];
    }

    method WritePixelShaders(xs: seq<PixelShader>)
      modifies this
      ensures fh == old(fh) + EncodeChunks(Each(PixelShaderChunks, xs, 0), old(blockID))
      ensures blockID == old(blockID) + |Each(PixelShaderChunks, xs, 0)|
    {
      hide EncodeChunks, PixelShaderBlock, Encode;
      for i := 0 to |xs|
        invariant blockID + |Each(PixelShaderChunks, xs[i..], i)| == old(blockID) + |Each(PixelShaderChunks, xs, 0)|
        invariant fh + EncodeChunks(Each(PixelShaderChunks, xs[i..], i), blockID)
               == old(fh) + EncodeChunks(Each(PixelShaderChunks, xs, 0), old(blockID))
      {
        var header := GfdWriter.WriteBlock(PixelShaderBlock(xs[i]));
        var cs := [Chunk(PIXEL_SHADER_HEADER, i, header), Chunk(PIXEL_SHADER_PROGRAM, i, xs[i].data)];
        assert xs[i..][0] == xs[i] && xs[i..][1..] == xs[i + 1..];
        Ahead(fh, cs, Each(PixelShaderChunks, xs[i + 1..], i + 1), blockID);
        WriteBlocks(cs);
      }
      Done(fh, blockID);
      assert xs[|xs|..] == [];
    }

    method WriteGeometryShaders(xs: seq<GeometryShader>)
      modifies this
      ensures fh == old(fh) + EncodeChunks(Each(GeometryShaderChunks, xs, 0), old(blockID))
      ensures blockID == old(blockID) + |Each(GeometryShaderChunks, xs, 0)|
    {
      hide EncodeChunks, GeometryShaderBlock, Encode;
      for i := 0 to |xs|
        invariant blockID + |Each(GeometryShaderChunks, xs[i..], i)|
               == old(blockID) + |Each(GeometryShaderChunks, xs, 0)|
        invariant fh + EncodeChunks(Each(GeometryShaderChunks, xs[i..], i), blockID)
               == old(fh) + EncodeChunks(Each(GeometryShaderChunks, xs, 0), old(blockID))
      {
        var header := GfdWriter.WriteBlock(GeometryShaderBlock(xs[i]));
        var cs := [Chunk(GEOMETRY_SHADER_HEADER, i, header)];
        if |xs[i].data| > 0 {
          cs := cs + [Chunk(GEOMETRY_SHADER_PROGRAM, i, xs[i].data)];
        }
        if |xs[i].vertexShaderData| > 0 {
          cs := cs + [Chunk(GEOMETRY_SHADER_COPY_PROGRAM, i, xs[i].vertexShaderData)];
        }
        assert cs == GeometryShaderChunks(xs[i], i);
        assert xs[i..][0] == xs[i] && xs[i..][1..] == xs[i + 1..];
        Ahead(fh, cs, Each(GeometryShaderChunks, xs[i + 1..], i + 1), blockID);
        WriteBlocks(cs);
      }
      Done(fh, blockID);
      assert xs[|xs|..] == [];
    }

    method WriteTextures(xs: seq<Texture>)
      modifies this
      ensures fh == old(fh) + EncodeChunks(Each(TextureChunks, xs, 0), old(blockID))
      ensures blockID == old(blockID) + |Each(TextureChunks, xs, 0)|
    {
      hide EncodeChunks, TextureHeader, Words;
      for i := 0 to |xs|
        invariant blockID + |Each(TextureChunks, xs[i..], i)| == old(blockID) + |Each(TextureChunks, xs, 0)|
        invariant fh + EncodeChunks(Each(TextureChunks, xs[i..], i), blockID)
               == old(fh) + EncodeChunks(Each(TextureChunks, xs, 0), old(blockID))
      {
        var cs := [Chunk(TEXTURE_HEADER, i, Words(TextureHeader(xs[i]))), Chunk(TEXTURE_IMAGE, i, xs[i].image)];
        if |xs[i].mipmap| > 0 {
          cs := cs + [Chunk(TEXTURE_IMAGE, i, xs[i].mipmap)];
        }
        assert cs == TextureChunks(xs[i], i);
        assert xs[i..][0] == xs[i] && xs[i..][1..] == xs[i + 1..];
        Ahead(fh, cs, Each(TextureChunks, xs[i + 1..], i + 1), blockID);
        WriteBlocks(cs);
      }
      Done(fh, blockID);
      assert xs[|xs|..] == [];
    }
  }

  /** Writing a file yields its closed form. */
  method WriteFile(f: File, u: Unset) returns (bytes: seq<byte>)
    ensures bytes == EncodeFile(f, u)
  {
    hide Words, EncodeChunks, Each, EofHeader;
    var w := new FileWriter();
    w.fh := Words(FILE_HEADER);
    w.WriteVertexShaders(f.vertexShaders);
    w.WritePixelShaders(f.pixelShaders);
    w.WriteGeometryShaders(f.geometryShaders);
    w.WriteTextures(f.textures);
    var vs, ps := Each(VertexShaderChunks, f.vertexShaders, 0), Each(PixelShaderChunks, f.pixelShaders, 0);
    var gs, ts := Each(GeometryShaderChunks, f.geometryShaders, 0), Each(TextureChunks, f.textures, 0);
    EncodeChunksAppend(vs, ps, 0);
    EncodeChunksAppend(vs + ps, gs, 0);
    EncodeChunksAppend(vs + ps + gs, ts, 0);
    assert w.fh == Words(FILE_HEADER) + EncodeChunks(FileChunks(f), 0);
    bytes := w.fh + Words(EofHeader(u));
  }

  lemma Ahead(fh: seq<byte>, cs: seq<Chunk>, more: seq<Chunk>, id: nat)
    ensures (fh + EncodeChunks(cs, id)) + EncodeChunks(more, id + |cs|) == fh + EncodeChunks(cs + more, id)
  {
    hide EncodeChunks;
    EncodeChunksAppend(cs, more, id);
    Assoc(fh, EncodeChunks(cs, id), EncodeChunks(more, id + |cs|));
  }

  lemma Done(fh: seq<byte>, id: nat)
    ensures fh + EncodeChunks([], id) == fh
  {
  }
}
