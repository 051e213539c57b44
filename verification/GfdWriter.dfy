/**
 * The writer: appends to a byte vector with zeros where a pointer belongs, remembers those places,
 * and fills them in once every target is known.
 */
module GfdWriter {
  import opened Machine
  import opened GfdBytes
  import opened GfdBlock
  import opened GfdLinking

  class BlockWriter {
    var data: seq<byte>
    var dataPatches: seq<DataPatch>
    var textPatches: seq<TextPatch>

    constructor ()
      ensures data == [] && dataPatches == [] && textPatches == []
    {
      data, dataPatches, textPatches := [], [], [];
    }

    method Write(v: u32)
      modifies this`data
      ensures data == old(data) + Be32(v)
    {
      data := data + Be32(v);
    }

    method WriteAt(pos: nat, v: u32)
      requires pos + 4 <= |data|
      modifies this`data
      ensures data == PutAt(old(data), pos, v)
    {
      data := data[..pos] + Be32(v) + data[pos + 4..];
    }

    method WriteNullTerminatedString(s: seq<byte>)
      modifies this`data
      ensures data == old(data) + (UpToNul(s) + [0])
    {
      data := data + (UpToNul(s) + [0]);
    }

    method WriteWords(ws: seq<u32>)
      modifies this`data
      ensures data == old(data) + Words(ws)
    {
      hide Be32;
      for i := 0 to |ws|
        invariant data + Words(ws[i..]) == old(data) + Words(ws)
      {
        assert ws[i..][0] == ws[i] && ws[i..][1..] == ws[i + 1..];
        Assoc(data, Be32(ws[i]), Words(ws[i + 1..]));
        Write(ws[i]);
      }
      assert ws[|ws|..] == [];
    }

    /** One of the write*Data functions: the records of a list, and the patches they need. */
    method WriteSection(patchOffset: nat, records: seq<Record>)
      modifies this
      ensures data == old(data) + Words(Blank(records))
      ensures dataPatches
           == old(dataPatches) + if records == [] then [] else [DataPatch(patchOffset, |old(data)|)]
      ensures textPatches == old(textPatches) + TextPatches(records, |old(data)|)
    {
      hide Words, Be32, BlankRecord;
      if |records| > 0 {
        dataPatches := dataPatches + [DataPatch(patchOffset, |data|)];
      }
      for i := 0 to |records|
        invariant dataPatches == old(dataPatches) + if records == [] then [] else [DataPatch(patchOffset, |old(data)|)]
        invariant data + Words(Blank(records[i..])) == old(data) + Words(Blank(records))
        invariant textPatches + TextPatches(records[i..], |data|) == old(textPatches) + TextPatches(records, |old(data)|)
      {
        var r := records[i];
        assert records[i..][0] == r && records[i..][1..] == records[i + 1..];
        WordsAppend(BlankRecord(r), Blank(records[i + 1..]));
        Assoc(data, Words(BlankRecord(r)), Words(Blank(records[i + 1..])));
        if r.name.Some? {
          var t := TextPatch(|data|, 0, r.name.value);
          Assoc(textPatches, [t], TextPatches(records[i + 1..], |data| + RecordSize(r)));
        }
        WriteRecord(r);
      }
      assert records[|records|..] == [];
      WordsNone();
    }

    method WriteRecord(r: Record)
      modifies this`data, this`textPatches
      ensures data == old(data) + Words(BlankRecord(r))
      ensures textPatches == old(textPatches)
           + if r.name.Some? then [TextPatch(|old(data)|, 0, r.name.value)] else []
    {
      hide Words, Be32;
      if r.name.Some? {
        textPatches := textPatches + [TextPatch(|data|, 0, r.name.value)];
        WriteWords([0]);
      }
      WriteWords(r.words);
      WordsAppend([0], r.words);
      assert [] + r.words == r.words;
    }

    /** Writes the text pool and aims every name at its string. */
    method WriteText()
      modifies this`data, this`textPatches
      ensures data == old(data) + Pool(old(textPatches))
      ensures |textPatches| == |old(textPatches)|
      ensures Offsets(textPatches) == Aimed(old(textPatches), |old(data)|)
    {
      hide UpToNul, Pool, Aimed, Offsets;
      ghost var ts := textPatches;
      AllTexts(ts, data);
      for i := 0 to |textPatches|
        invariant |textPatches| == |ts|
        invariant data + Pool(ts[i..]) == old(data) + Pool(ts)
        invariant textPatches[i..] == ts[i..]
        invariant Offsets(textPatches[..i]) + Aimed(ts[i..], |data|) == Aimed(ts, |old(data)|)
      {
        var t := textPatches[i];
        assert ts[i] == ts[i..][0] == textPatches[i..][0] == t;
        TextStep(Offsets(textPatches[..i]), data, ts, i);
        var aimed := t.(target := |data|);
        OffsetsSnoc(textPatches[..i], aimed);
        textPatches := textPatches[i := aimed];
        assert textPatches[..i + 1] == textPatches[..i] + [aimed];
        assert textPatches[i + 1..] == ts[i + 1..];
        WriteNullTerminatedString(t.text);
      }
      NoTexts(Offsets(textPatches), data, ts[|ts|..]);
      assert textPatches[..|ts|] == textPatches;
    }

    /** Fills in one list of patches and appends its part of the patch table. */
    method WritePatches(ps: seq<DataPatch>, mark: u32, ghost n: nat)
      requires (mark == PATCH_DATA || mark == PATCH_TEXT) && n <= |data| && InRange(ps, n)
      modifies this`data
      ensures data == Patched(old(data[..n]), ps, mark) + old(data[n..]) + Words(OffsetTags(ps, mark))
    {
      hide Words, Be32, PutAt, Tag, OffsetTags;
      ghost var block, table := data[..n], data[n..];
      SameSplit(data, n);
      NoneLeft(mark);
      for i := 0 to |ps|
        invariant |block| == n && InRange(ps[i..], n)
        invariant data == block + table
        invariant Patched(block, ps[i..], mark) == Patched(old(data[..n]), ps, mark)
        invariant table + Words(OffsetTags(ps[i..], mark)) == old(data[n..]) + Words(OffsetTags(ps, mark))
      {
        var p := ps[i];
        assert ps[i..][0] == p && ps[i..][1..] == ps[i + 1..] && p in ps[i..];
        PutInFront(block, table, p.offset, Tag(p.target, mark));
        WriteAt(p.offset, Tag(p.target, mark));
        block := PutAt(block, p.offset, Tag(p.target, mark));
        TagsAhead(ps[i..], mark);
        Assoc(table, Be32(Tag(p.offset, mark)), Words(OffsetTags(ps[i + 1..], mark)));
        Assoc(block, table, Be32(Tag(p.offset, mark)));
        Write(Tag(p.offset, mark));
        table := table + Be32(Tag(p.offset, mark));
      }
      assert ps[|ps|..] == [];
      LinkNothing(block, n, mark);
      assert table + [] == table;
      Assoc(block, old(data[n..]), Words(OffsetTags(ps, mark)));
    }

    /** Text pool, pointers, patch table and relocation header of a block whose other bytes are written. */
    method WriteRelocationData()
      requires InRange(dataPatches, |data|) && InRange(Aimed(textPatches, |data|), |data|)
      modifies this
      ensures data == Finished(old(data), old(dataPatches), old(textPatches))
    {
      hide Words, InRange, Patched, OffsetTags, Aimed, Pool, RelocationHeader, Offsets;
      ghost var pool := Pool(textPatches);
      var textOffset := |data|;
      WriteText();
      var textSize := |data| - textOffset;
      var patchOffset := |data|;
      ghost var text := data;
      RangeGrows(dataPatches, textOffset, patchOffset);
      RangeGrows(Offsets(textPatches), textOffset, patchOffset);
      assert data[..patchOffset] == data && data[patchOffset..] == [];
      WritePatches(dataPatches, PATCH_DATA, patchOffset);
      ghost var linked := Patched(text, dataPatches, PATCH_DATA);
      ghost var dataTags := Words(OffsetTags(dataPatches, PATCH_DATA));
      assert data == linked + dataTags;
      assert data[..patchOffset] == linked && data[patchOffset..] == dataTags;
      WritePatches(Offsets(textPatches), PATCH_TEXT, patchOffset);
      WriteWords(RelocationHeader(patchOffset, textSize, textOffset, |dataPatches| + |textPatches|));
    }

    /** Writes the counts of the lists, and zeros where their pointers go. */
    method WriteTable(sections: seq<seq<Record>>) returns (patchOffsets: seq<nat>)
      modifies this`data
      ensures data == old(data) + Words(BlankTable(sections))
      ensures |patchOffsets| == |sections|
      ensures forall i :: 0 <= i < |sections| ==> patchOffsets[i] == |old(data)| + 8 * i + 4
    {
      hide Words, U32;
      patchOffsets := [];
      for i := 0 to |sections|
        invariant |data| == |old(data)| + 8 * i && |patchOffsets| == i
        invariant forall k :: 0 <= k < i ==> patchOffsets[k] == |old(data)| + 8 * k + 4
        invariant data + Words(BlankTable(sections[i..])) == old(data) + Words(BlankTable(sections))
      {
        patchOffsets := patchOffsets + [|data| + 4];
        assert sections[i..][0] == sections[i] && sections[i..][1..] == sections[i + 1..];
        var entry := [U32(|sections[i]|), 0];
        WordsAppend(entry, BlankTable(sections[i + 1..]));
        Assoc(data, Words(entry), Words(BlankTable(sections[i + 1..])));
        WriteWords(entry);
      }
      assert sections[|sections|..] == [];
      NoTable(0, 0);
      NoWords();
      assert data + [] == data;
    }

    /** Writes the records of every list. */
    method WriteSections(sections: seq<seq<Record>>, patchOffsets: seq<nat>, ghost spot: nat)
      requires |patchOffsets| == |sections| && forall i :: 0 <= i < |sections| ==> patchOffsets[i] == spot + 8 * i + 4
      modifies this
      ensures data == old(data) + Words(Blank(Flat(sections)))
      ensures dataPatches == old(dataPatches) + DataPatches(sections, spot, |old(data)|)
      ensures textPatches == old(textPatches) + TextPatches(Flat(sections), |old(data)|)
    {
      hide Words, Blank, TextPatches, Size, DataPatches;
      for i := 0 to |sections|
        invariant data + Words(Blank(Flat(sections[i..]))) == old(data) + Words(Blank(Flat(sections)))
        invariant dataPatches + DataPatches(sections[i..], spot + 8 * i, |data|)
               == old(dataPatches) + DataPatches(sections, spot, |old(data)|)
        invariant textPatches + TextPatches(Flat(sections[i..]), |data|)
               == old(textPatches) + TextPatches(Flat(sections), |old(data)|)
      {
        var s := sections[i];
        ghost var more := Flat(sections[i + 1..]);
        assert sections[i..][0] == s && sections[i..][1..] == sections[i + 1..];
        BlankAppend(s, more);
        WordsAppend(Blank(s), Blank(more));
        Assoc(data, Words(Blank(s)), Words(Blank(more)));
        TextPatchesAppend(s, more, |data|);
        Assoc(textPatches, TextPatches(s, |data|), TextPatches(more, |data| + Size(s)));
        DataPatchesFirst(sections[i..], spot + 8 * i, |data|);
        ghost var first := if s == [] then [] else [DataPatch(patchOffsets[i], |data|)];
        ghost var ps := DataPatches(sections[i + 1..], spot + 8 * (i + 1), |data| + Size(s));
        assert DataPatches(sections[i..], spot + 8 * i, |data|) == first + ps;
        Assoc(dataPatches, first, ps);
        WriteSection(patchOffsets[i], s);
      }
      assert sections[|sections|..] == [];
      NoTable(spot + 8 * |sections|, |data|);
      WordsNone();
      assert data + [] == data && dataPatches + [] == dataPatches && textPatches + [] == textPatches;
    }
  }

  /** A shader header block, as writeVertexShader and its siblings build it. */
  method WriteBlock(b: Block) returns (bytes: seq<byte>)
    ensures bytes == Encode(b)
  {
    hide Words, BlankTable, Blank, Flat, DataPatches, TextPatches, Encode, Finished, Aimed, InRange, Size;
    var w := new BlockWriter();
    w.WriteWords(b.head);
    var patchOffsets := w.WriteTable(b.sections);
    w.WriteWords(b.tail);
    w.WriteSections(b.sections, patchOffsets, 4 * |b.head|);
    WordsAppend(b.head, BlankTable(b.sections));
    WordsAppend(b.head + BlankTable(b.sections), b.tail);
    WordsAppend(b.head + BlankTable(b.sections) + b.tail, Blank(Flat(b.sections)));
    assert w.data == Words(BlankBody(b));
    assert w.dataPatches == DataPatches(b.sections, 4 * |b.head|, HeaderSize(b));
    assert w.textPatches == TextPatches(Flat(b.sections), HeaderSize(b));
    LinkBlock(b);
    w.WriteRelocationData();
    bytes := w.data;
  }

  // -------- the facts about sequences the loops use

  function Offsets(ts: seq<TextPatch>): (ps: seq<DataPatch>)
    ensures |ps| == |ts|
  {
    if ts == [] then [] else Offsets(ts[..|ts| - 1]) + [DataPatch(ts[|ts| - 1].offset, ts[|ts| - 1].target)]
  }

  /** One string more in the pool, and one name more aimed at it. */
  lemma TextStep(done: seq<DataPatch>, data: seq<byte>, ts: seq<TextPatch>, i: nat)
    requires i < |ts|
    ensures data + Pool(ts[i..]) == (data + CText(ts[i])) + Pool(ts[i + 1..])
    ensures done + Aimed(ts[i..], |data|)
         == (done + [DataPatch(ts[i].offset, |data|)]) + Aimed(ts[i + 1..], |data + CText(ts[i])|)
  {
    hide CText;
    assert ts[i..][0] == ts[i] && ts[i..][1..] == ts[i + 1..];
    Assoc(data, CText(ts[i]), Pool(ts[i + 1..]));
    Assoc(done, [DataPatch(ts[i].offset, |data|)], Aimed(ts[i + 1..], |data + CText(ts[i])|));
  }

  lemma AllTexts(ts: seq<TextPatch>, data: seq<byte>)
    ensures ts[0..] == ts && Offsets([]) + Aimed(ts, |data|) == Aimed(ts, |data|)
  {
  }

  lemma NoTexts(done: seq<DataPatch>, data: seq<byte>, none: seq<TextPatch>)
    requires none == []
    ensures data + Pool(none) == data && done + Aimed(none, |data|) == done
  {
  }

  lemma OffsetsSnoc(ts: seq<TextPatch>, t: TextPatch)
    ensures Offsets(ts + [t]) == Offsets(ts) + [DataPatch(t.offset, t.target)]
  {
    assert (ts + [t])[..|ts|] == ts;
  }

  lemma RangeGrows(ps: seq<DataPatch>, n: nat, m: nat)
    requires InRange(ps, n) && n <= m
    ensures InRange(ps, m)
  {
  }

  lemma NoWords()
    ensures Words([]) == []
  {
  }

  lemma {:induction false} BlankAppend(x: seq<Record>, y: seq<Record>)
    ensures Blank(x + y) == Blank(x) + Blank(y)
    decreases |x|
  {
    hide BlankRecord;
    if x == [] {
      assert x + y == y;
    } else {
      assert (x + y)[0] == x[0] && (x + y)[1..] == x[1..] + y;
      BlankAppend(x[1..], y);
      Assoc(BlankRecord(x[0]), Blank(x[1..]), Blank(y));
    }
  }

  lemma {:induction false} TextPatchesAppend(x: seq<Record>, y: seq<Record>, at: nat)
    ensures TextPatches(x + y, at) == TextPatches(x, at) + TextPatches(y, at + Size(x))
    decreases |x|
  {
    hide RecordSize;
    if x == [] {
      assert x + y == y;
    } else {
      assert (x + y)[0] == x[0] && (x + y)[1..] == x[1..] + y;
      var next := at + RecordSize(x[0]);
      TextPatchesAppend(x[1..], y, next);
      if x[0].name.Some? {
        Assoc([TextPatch(at, 0, x[0].name.value)], TextPatches(x[1..], next), TextPatches(y, at + Size(x)));
      }
    }
  }

  lemma WordsNone()
    ensures Flat([]) == [] && Words(Blank([])) == [] && forall at :: TextPatches([], at) == []
  {
  }

  lemma SameSplit(d: seq<byte>, n: nat)
    requires n <= |d|
    ensures d == d[..n] + d[n..]
  {
  }

  lemma NoneLeft(mark: u32)
    requires mark == PATCH_DATA || mark == PATCH_TEXT
    ensures Words(OffsetTags([], mark)) == []
  {
  }

  lemma TagsAhead(ps: seq<DataPatch>, mark: u32)
    requires ps != [] && (mark == PATCH_DATA || mark == PATCH_TEXT)
    ensures Words(OffsetTags(ps, mark)) == Be32(Tag(ps[0].offset, mark)) + Words(OffsetTags(ps[1..], mark))
  {
    hide Be32, Tag;
    var more := OffsetTags(ps[1..], mark);
    assert ([Tag(ps[0].offset, mark)] + more)[1..] == more;
  }

  lemma PutInFront(x: seq<byte>, y: seq<byte>, pos: nat, v: u32)
    requires pos + 4 <= |x|
    ensures PutAt(x + y, pos, v) == PutAt(x, pos, v) + y
  {
    hide Be32;
    assert (x + y)[..pos] == x[..pos] && (x + y)[pos + 4..] == x[pos + 4..] + y;
  }
}
