/** Where things lie in a written GFD file: what no reader of this project looks at, but other tools do. */
module GfdLayout {
  import opened Machine
  import InstructionBits
  import opened GfdBytes
  import opened GfdBlock
  import opened GfdBlockRoundTrip
  import opened GfdFile
  import opened Wrappers

  // -------- the start of a file

  /** A file starts with "Gfx2", in that order whatever the host, and its version. */
  lemma FileStarts(f: File, u: Unset)
    ensures var e := EncodeFile(f, u);
            && |e| >= 32 && e[..4] == [0x47, 0x66, 0x78, 0x32]
            && Holds(e, 0, Words([0x4766_7832, 32, 7, 1, 2, 1, 0, 0]))
  {
    hide FileChunks, EncodeChunks, EofHeader;
    var e, h := EncodeFile(f, u), Words(FILE_HEADER);
    var more := EncodeChunks(FileChunks(f), 0) + Words(EofHeader(u));
    assert e == h + more by { Assoc(h, EncodeChunks(FileChunks(f), 0), Words(EofHeader(u))); }
    assert e[..32] == h;
    assert h[..4] == Be32(0x4766_7832);
    assert e[..4] == e[..32][..4];
  }

  // -------- blocks

  /** Where block k starts, counted from the first. */
  function At(cs: seq<Chunk>, k: nat): nat
    requires k <= |cs|
  {
    if k == 0 then 0 else At(cs, k - 1) + 32 + |cs[k - 1].data|
  }

  lemma {:induction false} AtShifted(cs: seq<Chunk>, k: nat)
    requires 0 < k <= |cs|
    ensures At(cs, k) == 32 + |cs[0].data| + At(cs[1..], k - 1)
  {
    if k > 1 {
      AtShifted(cs, k - 1);
    }
  }

  lemma {:induction false} NumberedFrom(d: seq<byte>, pos: nat, cs: seq<Chunk>, id: nat, k: nat)
    requires k < |cs| && Holds(d, pos, EncodeChunks(cs, id))
    ensures Holds(d, pos + At(cs, k),
                  Words([0x424C_4B7B, 32, 1, 0, cs[k].kind, U32(|cs[k].data|), U32(id + k), U32(cs[k].index)]) + cs[k].data)
    decreases k
  {
    hide Holds, Words, U32, At;
    HoldsPart(d, pos, EncodeChunk(cs[0], id), EncodeChunks(cs[1..], id + 1));
    if k == 0 {
      AtFirst(cs);
    } else {
      AtShifted(cs, k);
      NumberedFrom(d, pos + 32 + |cs[0].data|, cs[1..], id + 1, k - 1);
    }
  }

  lemma AtFirst(cs: seq<Chunk>)
    ensures At(cs, 0) == 0
  {
  }

  /** Block k of a file carries the number k, its kind, its size and its index, and then its data. */
  lemma BlockNumbered(f: File, u: Unset, k: nat)
    requires k < |FileChunks(f)|
    ensures var c := FileChunks(f)[k];
            Holds(EncodeFile(f, u), 32 + At(FileChunks(f), k),
                  Words([0x424C_4B7B, 32, 1, 0, c.kind, U32(|c.data|), U32(k), U32(c.index)]) + c.data)
  {
    hide Holds, Words, FileChunks, EncodeChunks, At, U32;
    var d, blocks, end := EncodeFile(f, u), EncodeChunks(FileChunks(f), 0), Words(EofHeader(u));
    Whole(d);
    HoldsPart(d, 0, Words(FILE_HEADER) + blocks, end);
    HoldsPart(d, 0, Words(FILE_HEADER), blocks);
    NumberedFrom(d, 32, FileChunks(f), 0, k);
  }

  lemma Whole(d: seq<byte>)
    ensures Holds(d, 0, d)
  {
  }

  // -------- indices

  /** The kind of header that starts the blocks of a shader or texture. */
  function HeaderKind(kind: u32): u32 {
    if kind == 5 then 3
    else if kind == 7 then 6
    else if kind == 9 || kind == 10 then 8
    else if kind == 12 || kind == 13 then 11
    else kind
  }

  /** How many of the first n blocks are of a kind. */
  function Count(cs: seq<Chunk>, kind: u32, n: nat): nat
    requires n <= |cs|
  {
    if n == 0 then 0 else Count(cs, kind, n - 1) + if cs[n - 1].kind == kind then 1 else 0
  }

  lemma {:induction false} CountPrefix(x: seq<Chunk>, y: seq<Chunk>, kind: u32, n: nat)
    requires n <= |x|
    ensures Count(x + y, kind, n) == Count(x, kind, n)
  {
    if n > 0 {
      CountPrefix(x, y, kind, n - 1);
    }
  }

  /** No further block of the kind. */
  lemma {:induction false} CountStays(cs: seq<Chunk>, kind: u32, m: nat, n: nat)
    requires m <= n <= |cs| && forall k :: m <= k < n ==> cs[k].kind != kind
    ensures Count(cs, kind, n) == Count(cs, kind, m)
    decreases n
  {
    if m < n {
      CountStays(cs, kind, m, n - 1);
    }
  }

  /** The blocks of one shader or texture: its header first, all with its index. */
  predicate Group(cs: seq<Chunk>, kind: u32, i: nat) {
    && cs != [] && cs[0].kind == kind
    && forall k :: 0 <= k < |cs| ==> cs[k].index == i && HeaderKind(cs[k].kind) == kind && (k > 0 ==> cs[k].kind != kind)
  }

  lemma GroupCounts(before: seq<Chunk>, cs: seq<Chunk>, kind: u32, i: nat, k: nat)
    requires Group(cs, kind, i) && Count(before, kind, |before|) == i && k < |cs|
    ensures Count(before + cs, kind, |before| + k + 1) == i + 1
  {
    hide Count, HeaderKind;
    var all := before + cs;
    CountPrefix(before, cs, kind, |before|);
    CountNext(all, kind, |before|);
    CountStays(all, kind, |before| + 1, |before| + k + 1);
  }

  lemma CountNext(cs: seq<Chunk>, kind: u32, n: nat)
    requires n < |cs|
    ensures Count(cs, kind, n + 1) == Count(cs, kind, n) + if cs[n].kind == kind then 1 else 0
  {
  }

  /** Block k carries the index of its shader or texture: how many headers of its kind came before its own. */
  predicate Indexed(cs: seq<Chunk>, k: nat)
    requires k < |cs|
  {
    cs[k].index + 1 == Count(cs, HeaderKind(cs[k].kind), k + 1)
  }

  lemma {:induction false} EachIndexed<T(!new)>(
      chunks: (T, nat) -> seq<Chunk>, kind: u32, xs: seq<T>, i: nat, before: seq<Chunk>, k: nat)
    requires forall x, n :: Group(chunks(x, n), kind, n)
    requires Count(before, kind, |before|) == i && |before| <= k < |before + Each(chunks, xs, i)|
    ensures var cs := before + Each(chunks, xs, i); HeaderKind(cs[k].kind) == kind && Indexed(cs, k)
    decreases |xs|
  {
    hide Count, HeaderKind;
    var first, more := chunks(xs[0], i), Each(chunks, xs[1..], i + 1);
    assert Group(first, kind, i);
    assert before + Each(chunks, xs, i) == before + first + more;
    if k < |before + first| {
      GroupCounts(before, first, kind, i, k - |before|);
      CountPrefix(before + first, more, kind, k + 1);
    } else {
      GroupCounts(before, first, kind, i, |first| - 1);
      EachIndexed(chunks, kind, xs[1..], i + 1, before + first, k);
    }
  }

  lemma VertexShaderGroups()
    ensures forall x, n :: Group(VertexShaderChunks(x, n), 3, n)
  {
    hide Encode, VertexShaderBlock;
  }

  lemma PixelShaderGroups()
    ensures forall x, n :: Group(PixelShaderChunks(x, n), 6, n)
  {
    hide Encode, PixelShaderBlock;
  }

  lemma GeometryShaderGroups()
    ensures forall x, n :: Group(GeometryShaderChunks(x, n), 8, n)
  {
    hide Encode, GeometryShaderBlock;
  }

  lemma TextureGroups()
    ensures forall x, n :: Group(TextureChunks(x, n), 11, n)
  {
    hide Words, TextureHeader;
  }

  lemma IndexedPrefix(x: seq<Chunk>, y: seq<Chunk>, k: nat)
    requires k < |x| && Indexed(x, k)
    ensures Indexed(x + y, k)
  {
    CountPrefix(x, y, HeaderKind(x[k].kind), k + 1);
  }

  /** Blocks of other kinds do not count. */
  lemma NoneOf<T(!new)>(chunks: (T, nat) -> seq<Chunk>, kind: u32, xs: seq<T>, before: seq<Chunk>, other: u32)
    requires forall x, n :: Group(chunks(x, n), kind, n)
    requires Count(before, kind, |before|) == 0 && HeaderKind(other) == other != kind
    ensures var cs := before + Each(chunks, xs, 0); Count(cs, other, |cs|) == Count(before, other, |before|)
  {
    hide Count, HeaderKind, Indexed;
    var cs := before + Each(chunks, xs, 0);
    forall k | |before| <= k < |cs| ensures cs[k].kind != other {
      EachIndexed(chunks, kind, xs, 0, before, k);
    }
    CountStays(cs, other, |before|, |cs|);
    CountPrefix(before, Each(chunks, xs, 0), other, |before|);
  }

  lemma NoBlocks(kind: u32)
    ensures Count([], kind, 0) == 0 && HeaderKind(3) == 3 && HeaderKind(6) == 6 && HeaderKind(8) == 8 && HeaderKind(11) == 11
  {
  }

  /** Every block of a file carries the index of its shader or texture among those of its kind. */
  lemma BlockIndexed(f: File, k: nat)
    requires k < |FileChunks(f)|
    ensures FileChunks(f)[k].index + 1 == Count(FileChunks(f), HeaderKind(FileChunks(f)[k].kind), k + 1)
  {
    hide Count, HeaderKind, Each, Group;
    var vs, ps := Each(VertexShaderChunks, f.vertexShaders, 0), Each(PixelShaderChunks, f.pixelShaders, 0);
    var gs, ts := Each(GeometryShaderChunks, f.geometryShaders, 0), Each(TextureChunks, f.textures, 0);
    VertexShaderGroups();
    PixelShaderGroups();
    GeometryShaderGroups();
    TextureGroups();
    NoBlocks(3); NoBlocks(6); NoBlocks(8); NoBlocks(11);
    assert [] + vs == vs;
    NoneOf(VertexShaderChunks, 3, f.vertexShaders, [], 6);
    NoneOf(VertexShaderChunks, 3, f.vertexShaders, [], 8);
    NoneOf(VertexShaderChunks, 3, f.vertexShaders, [], 11);
    NoneOf(PixelShaderChunks, 6, f.pixelShaders, vs, 8);
    NoneOf(PixelShaderChunks, 6, f.pixelShaders, vs, 11);
    NoneOf(GeometryShaderChunks, 8, f.geometryShaders, vs + ps, 11);
    if k < |vs| {
      EachIndexed(VertexShaderChunks, 3, f.vertexShaders, 0, [], k);
      IndexedPrefix(vs, ps, k);
      IndexedPrefix(vs + ps, gs, k);
      IndexedPrefix(vs + ps + gs, ts, k);
    } else if k < |vs + ps| {
      EachIndexed(PixelShaderChunks, 6, f.pixelShaders, 0, vs, k);
      IndexedPrefix(vs + ps, gs, k);
      IndexedPrefix(vs + ps + gs, ts, k);
    } else if k < |vs + ps + gs| {
      EachIndexed(GeometryShaderChunks, 8, f.geometryShaders, 0, vs + ps, k);
      IndexedPrefix(vs + ps + gs, ts, k);
    } else {
      EachIndexed(TextureChunks, 11, f.textures, 0, vs + ps + gs, k);
    }
  }

  // -------- marks and the relocation header

  /** A marked offset below 2^20 is the sum of offset and mark. */
  lemma TagIs(x: nat, mark: u32)
    requires x < 0x10_0000 && (mark == PATCH_DATA || mark == PATCH_TEXT)
    ensures Tag(x, mark) == mark + x
  {
    hide Or, Pow2, InstructionBits.Bits;
    U32Id(x);
    PowAt20();
    var v := mark / 0x10_0000;
    assert mark == v * 0x10_0000 && v < 4096;
    PowAt12();
    NoHighBits(x);
    InstructionBits.OrAdds(x, v, 20, 12);
  }

  lemma PowAt12()
    ensures Pow2(12) == 4096
  {
    assert Pow2(6) == 64;
    assert Pow2(12) == 64 * Pow2(6);
  }

  lemma NoHighBits(x: nat)
    requires x < 0x10_0000
    ensures InstructionBits.Bits(x, 20, 12) == 0
  {
    hide Pow2;
    PowAt20();
    PowAt12();
  }

  /**
   * A written block ends with a relocation header, which says where the text and the patch table lie: the text directly
   * before the patch table, the patch table directly before the header.
   */
  lemma RelocationDelimits(b: Block)
    requires PatchOffset(b) < 0x10_0000 && |Encode(b)| < TWO32
    ensures var e, text, patches := Encode(b), Text(Flat(b.sections)), PatchTable(b);
            var textAt := TextOffset(b);
            var end := textAt + |text|;
            && Holds(e, textAt, text)
            && Holds(e, end, Words(patches))
            && |e| == end + 4 * |patches| + 40
            && Holds(e, |e| - 40,
                     Words([0x7D42_4C4B, 40, 0, end, 0xD060_0000, |text|, 0xD060_0000 + textAt, 0, |patches|, 0xD060_0000 + end]))
  {
    hide Holds, Words, Body, Text, Flat, PatchTable, TextOffset, Tag, U32;
    var e := Encode(b);
    Whole(e);
    EncodedParts(e, 0, b);
    TagIs(0, PATCH_DATA);
    TagIs(TextOffset(b), PATCH_DATA);
    TagIs(PatchOffset(b), PATCH_DATA);
    U32Id(PatchOffset(b));
    U32Id(|Text(Flat(b.sections))|);
    HoldsFits(e, PatchOffset(b), Words(PatchTable(b)));
    U32Id(|PatchTable(b)|);
  }

  /** Each patch is the offset of a pointer or of a name, marked as such. */
  lemma PatchMarks(b: Block, k: nat)
    requires PatchOffset(b) < 0x10_0000 && k < |PatchTable(b)|
    ensures var data, names := DataSpots(b.sections, 4 * |b.head|), TextSpots(Flat(b.sections), HeaderSize(b));
            && |PatchTable(b)| == |data| + |names|
            && PatchTable(b)[k] == if k < |data| then 0xD060_0000 + data[k] else 0xCA70_0000 + names[k - |data|]
  {
    hide DataSpots, TextSpots, Size, Flat, Text, Tag;
    var data, names := DataSpots(b.sections, 4 * |b.head|), TextSpots(Flat(b.sections), HeaderSize(b));
    if k < |data| {
      DataSpotsBelow(b.sections, 4 * |b.head|, data[k]);
      TagIs(data[k], PATCH_DATA);
    } else {
      TextSpotsBelow(Flat(b.sections), HeaderSize(b), names[k - |data|]);
      TagIs(names[k - |data|], PATCH_TEXT);
    }
  }

  // -------- the parts of a block, one by one

  /** Size and text of a run of records, record by record. */
  lemma PartFirst(rs: seq<Record>, m: nat)
    requires 0 < m <= |rs|
    ensures Size(rs[..m]) == RecordSize(rs[0]) + Size(rs[1..][..m - 1])
    ensures Text(rs[..m]) == NameText(rs[0]) + Text(rs[1..][..m - 1])
  {
    hide NameText, RecordSize;
    assert rs[..m][0] == rs[0] && rs[..m][1..] == rs[1..][..m - 1];
  }

  lemma {:induction false} RecordFrom(d: seq<byte>, off: nat, rs: seq<Record>, text: nat, m: nat)
    requires m < |rs| && Holds(d, off, Words(Linked(rs, text))) && Holds(d, text, Text(rs))
    ensures var t := text + |Text(rs[..m])|;
            && Holds(d, off + Size(rs[..m]), Words(NameWord(rs[m], t) + rs[m].words))
            && Holds(d, t, NameText(rs[m]))
    decreases m
  {
    hide Holds, Words, NameWord, NameText, Linked, Text, Size, RecordSize;
    FirstRecord(d, 0, off, rs, text);
    if m == 0 {
      NoRecords();
      assert rs[..0] == [];
    } else {
      PartFirst(rs, m);
      RecordFrom(d, off + RecordSize(rs[0]), rs[1..], text + |NameText(rs[0])|, m - 1);
    }
  }

  lemma NoRecords()
    ensures Size([]) == 0 && Text([]) == []
  {
  }

  lemma TextBefore(rs: seq<Record>, m: nat)
    requires m <= |rs|
    ensures |Text(rs[..m])| <= |Text(rs)|
  {
    hide Text;
    TextAppend(rs[..m], rs[m..]);
    assert rs[..m] + rs[m..] == rs;
  }

  /**
   * Record m of a block lies behind the records before it: the marked place of its name, if it has one, and its words;
   * and at that place is its name up to the first NUL, with a NUL behind it.
   */
  lemma RecordLies(b: Block, m: nat)
    requires PatchOffset(b) < 0x10_0000 && m < |Flat(b.sections)|
    ensures var r, before := Flat(b.sections)[m], Flat(b.sections)[..m];
            var at, text := HeaderSize(b) + Size(before), TextOffset(b) + |Text(before)|;
            match r.name
            case None => Holds(Encode(b), at, Words(r.words))
            case Some(name) =>
              && Holds(Encode(b), at, Words([U32(0xCA70_0000 + text)] + r.words))
              && Holds(Encode(b), text, UpToNul(name) + [0])
  {
    hide Holds, Words, Body, Text, Flat, PatchTable, TextOffset, HeaderSize, Tag, Linked, UpToNul, Size, U32;
    var e, rs := Encode(b), Flat(b.sections);
    Whole(e);
    EncodedParts(e, 0, b);
    BodyParts(e, 0, b);
    RecordFrom(e, HeaderSize(b), rs, TextOffset(b), m);
    TextBefore(rs, m);
    var text := TextOffset(b) + |Text(rs[..m])|;
    TagIs(text, PATCH_TEXT);
    U32Id(0xCA70_0000 + text);
    assert [] + rs[m].words == rs[m].words;
  }

  lemma FirstEntry(d: seq<byte>, off: nat, sections: seq<seq<Record>>, at: nat)
    requires sections != [] && Holds(d, off, Words(Table(sections, at)))
    ensures Holds(d, off, Words(Entry(sections[0], at)))
    ensures Holds(d, off + 8, Words(Table(sections[1..], at + Size(sections[0]))))
  {
    hide Holds, Words, Entry, Size;
    var first, more := Entry(sections[0], at), Table(sections[1..], at + Size(sections[0]));
    WordsAppend(first, more);
    HoldsPart(d, off, Words(first), Words(more));
  }

  lemma {:induction false} EntryFrom(d: seq<byte>, off: nat, sections: seq<seq<Record>>, at: nat, i: nat)
    requires i < |sections| && Holds(d, off, Words(Table(sections, at)))
    ensures Holds(d, off + 8 * i, Words(Entry(sections[i], at + Size(Flat(sections[..i])))))
    decreases i
  {
    hide Holds, Words, Entry, Flat, Size;
    hide Table;
    FirstEntry(d, off, sections, at);
    if i == 0 {
      NoSections();
      assert sections[..0] == [];
    } else {
      var rest, at1 := sections[1..], at + Size(sections[0]);
      EntryFrom(d, off + 8, rest, at1, i - 1);
      SizeFirst(sections, i);
      assert rest[i - 1] == sections[i];
      assert off + 8 + 8 * (i - 1) == off + 8 * i;
      assert at1 + Size(Flat(rest[..i - 1])) == at + Size(Flat(sections[..i]));
    }
  }

  lemma SizeFirst(sections: seq<seq<Record>>, i: nat)
    requires 0 < i <= |sections|
    ensures Size(Flat(sections[..i])) == Size(sections[0]) + Size(Flat(sections[1..][..i - 1]))
  {
    hide Size, Flat;
    FlatFirst(sections, i);
    TextAppend(sections[0], Flat(sections[1..][..i - 1]));
  }

  lemma NoSections()
    ensures Size(Flat([])) == 0
  {
  }

  lemma FlatFirst(sections: seq<seq<Record>>, i: nat)
    requires 0 < i <= |sections|
    ensures Flat(sections[..i]) == sections[0] + Flat(sections[1..][..i - 1])
  {
    assert sections[..i][0] == sections[0] && sections[..i][1..] == sections[1..][..i - 1];
  }

  lemma {:induction false} FlatAppend(x: seq<seq<Record>>, y: seq<seq<Record>>)
    ensures Flat(x + y) == Flat(x) + Flat(y)
    decreases |x|
  {
    if x == [] {
      assert x + y == y;
    } else {
      assert (x + y)[0] == x[0] && (x + y)[1..] == x[1..] + y;
      FlatAppend(x[1..], y);
      Assoc(x[0], Flat(x[1..]), Flat(y));
    }
  }

  lemma SizeBefore(sections: seq<seq<Record>>, i: nat)
    requires i <= |sections|
    ensures Size(Flat(sections[..i])) <= Size(Flat(sections))
  {
    hide Size, Flat;
    assert sections[..i] + sections[i..] == sections;
    FlatAppend(sections[..i], sections[i..]);
    TextAppend(Flat(sections[..i]), Flat(sections[i..]));
  }

  /**
   * A block starts with its head; entry i of the table says how many records list i has, and for a list that is not
   * empty where its first record lies, marked; behind the table comes the tail.
   */
  lemma EntryLies(b: Block, i: nat)
    requires PatchOffset(b) < 0x10_0000 && i < |b.sections|
    ensures var e, at := Encode(b), HeaderSize(b) + Size(Flat(b.sections[..i]));
            && Holds(e, 0, Words(b.head))
            && Holds(e, 4 * |b.head| + 8 * i, Words([U32(|b.sections[i]|), if b.sections[i] == [] then 0 else U32(0xD060_0000 + at)]))
            && Holds(e, 4 * |b.head| + 8 * |b.sections|, Words(b.tail))
  {
    hide Holds, Words, Body, Text, Flat, PatchTable, HeaderSize, Tag, Table, Size, U32, Linked;
    var e := Encode(b);
    Whole(e);
    EncodedParts(e, 0, b);
    BodyParts(e, 0, b);
    EntryFrom(e, 4 * |b.head|, b.sections, HeaderSize(b), i);
    SizeBefore(b.sections, i);
    var at := HeaderSize(b) + Size(Flat(b.sections[..i]));
    TagIs(at, PATCH_DATA);
    U32Id(0xD060_0000 + at);
  }
}
