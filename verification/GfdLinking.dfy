/**
 * Back-patching: what a block looks like while zeros stand for its pointers, the patches remembered
 * for them, and why filling them in gives the block's closed form.
 */
module GfdLinking {
  import opened Machine
  import opened GfdBytes
  import opened GfdBlock

  datatype DataPatch = DataPatch(offset: nat, target: nat)
  datatype TextPatch = TextPatch(offset: nat, target: nat, text: seq<byte>)

  // -------- what the passes leave behind

  /** The records before linking: a zero stands for every name. */
  function Blank(rs: seq<Record>): (ws: seq<u32>)
    ensures 4 * |ws| == Size(rs)
  {
    if rs == [] then [] else BlankRecord(rs[0]) + Blank(rs[1..])
  }

  function BlankRecord(r: Record): (ws: seq<u32>)
    ensures 4 * |ws| == RecordSize(r)
  {
    (if r.name.Some? then [0] else []) + r.words
  }

  function BlankTable(sections: seq<seq<Record>>): (ws: seq<u32>)
    ensures |ws| == 2 * |sections|
  {
    if sections == [] then [] else [U32(|sections[0]|), 0] + BlankTable(sections[1..])
  }

  /** The pointers of the table at byte `spot`, aimed at records that start at `at`. */
  function DataPatches(sections: seq<seq<Record>>, spot: nat, at: nat): seq<DataPatch> {
    if sections == [] then []
    else
      var more := DataPatches(sections[1..], spot + 8, at + Size(sections[0]));
      if sections[0] == [] then more else [DataPatch(spot + 4, at)] + more
  }

  /** The names of the records at byte `at`, not aimed yet. */
  function TextPatches(rs: seq<Record>, at: nat): seq<TextPatch> {
    if rs == [] then []
    else
      var more := TextPatches(rs[1..], at + RecordSize(rs[0]));
      if rs[0].name.Some? then [TextPatch(at, 0, rs[0].name.value)] + more else more
  }

  function CText(t: TextPatch): seq<byte> {
    UpToNul(t.text) + [0]
  }

  function Pool(ts: seq<TextPatch>): seq<byte> {
    if ts == [] then [] else CText(ts[0]) + Pool(ts[1..])
  }

  /** Names aimed at consecutive strings of a text pool that goes on at `at`. */
  function Aimed(ts: seq<TextPatch>, at: nat): (ps: seq<DataPatch>)
    ensures |ps| == |ts|
  {
    if ts == [] then [] else [DataPatch(ts[0].offset, at)] + Aimed(ts[1..], at + |CText(ts[0])|)
  }

  predicate InRange(ps: seq<DataPatch>, n: nat) {
    forall p :: p in ps ==> p.offset + 4 <= n
  }

  /** Back-patching: every offset gets its marked target, in order. */
  function Patched(d: seq<byte>, ps: seq<DataPatch>, mark: u32): (r: seq<byte>)
    requires InRange(ps, |d|) && (mark == PATCH_DATA || mark == PATCH_TEXT)
    ensures |r| == |d|
    decreases |ps|
  {
    if ps == [] then d
    else
      assert ps[0] in ps;
      Patched(PutAt(d, ps[0].offset, Tag(ps[0].target, mark)), ps[1..], mark)
  }

  function OffsetTags(ps: seq<DataPatch>, mark: u32): seq<u32>
    requires mark == PATCH_DATA || mark == PATCH_TEXT
  {
    if ps == [] then [] else [Tag(ps[0].offset, mark)] + OffsetTags(ps[1..], mark)
  }

  /** A block once its pointers are filled in and its patch table and relocation header follow. */
  function Finished(d: seq<byte>, dps: seq<DataPatch>, tps: seq<TextPatch>): seq<byte>
    requires InRange(dps, |d|) && InRange(Aimed(tps, |d|), |d|)
  {
    var pool := Pool(tps);
    var names := Aimed(tps, |d|);
    Patched(Patched(d + pool, dps, PATCH_DATA), names, PATCH_TEXT)
    + Words(OffsetTags(dps, PATCH_DATA)) + Words(OffsetTags(names, PATCH_TEXT))
    + Words(RelocationHeader(|d| + |pool|, |pool|, |d|, |dps| + |tps|))
  }

  // -------- linking the placeholders gives the closed form

  /** Back-patching one placeholder of a run of words, then the rest. */
  lemma PatchFirst(ws: seq<u32>, post: seq<byte>, i: nat, target: nat, more: seq<DataPatch>, mark: u32)
    requires i < |ws| && InRange(more, 4 * |ws|) && (mark == PATCH_DATA || mark == PATCH_TEXT)
    ensures var ps := [DataPatch(4 * i, target)] + more;
            InRange(ps, 4 * |ws|)
            && Patched(Words(ws) + post, ps, mark) == Patched(Words(ws[i := Tag(target, mark)]) + post, more, mark)
  {
    hide Words, Tag, PutAt;
    var ps := [DataPatch(4 * i, target)] + more;
    assert ps[1..] == more;
    PutWord(ws, i, Tag(target, mark), post);
  }

  lemma TableFirst(pre: seq<u32>, sections: seq<seq<Record>>, at: nat)
    requires sections != []
    ensures var entry := Entry(sections[0], at);
            pre + Table(sections, at) == (pre + entry) + Table(sections[1..], at + Size(sections[0]))
  {
    hide Tag, U32, Size;
    Assoc(pre, Entry(sections[0], at), Table(sections[1..], at + Size(sections[0])));
  }

  lemma BlankTableFirst(pre: seq<u32>, sections: seq<seq<Record>>, at: nat)
    requires sections != []
    ensures (pre + Entry(sections[0], at)) + BlankTable(sections[1..])
            == if sections[0] == [] then pre + BlankTable(sections)
               else (pre + BlankTable(sections))[|pre| + 1 := Tag(at, PATCH_DATA)]
  {
    hide Tag, U32, Size;
    var blank, more := [U32(|sections[0]|), 0], BlankTable(sections[1..]);
    if sections[0] == [] {
      Assoc(pre, blank, more);
    } else {
      Splice(pre, blank, more, 1, Tag(at, PATCH_DATA));
    }
  }

  lemma {:induction false} LinkTable(pre: seq<u32>, sections: seq<seq<Record>>, post: seq<byte>, at: nat)
    ensures InRange(DataPatches(sections, 4 * |pre|, at), 4 * (|pre| + 2 * |sections|))
    ensures Patched(Words(pre + BlankTable(sections)) + post, DataPatches(sections, 4 * |pre|, at), PATCH_DATA)
            == Words(pre + Table(sections, at)) + post
    decreases |sections|
  {
    hide Words, Tag, Size, Patched, InRange, Table, BlankTable, Entry, DataPatches;
    if sections == [] {
      NoTable(4 * |pre|, at);
      assert pre + BlankTable(sections) == pre == pre + Table(sections, at);
      LinkNothing(Words(pre) + post, 4 * |pre|, PATCH_DATA);
    } else {
      var s, rest := sections[0], sections[1..];
      TableFirst(pre, sections, at);
      BlankTableFirst(pre, sections, at);
      DataPatchesFirst(sections, 4 * |pre|, at);
      LinkTable(pre + Entry(s, at), rest, post, at + Size(s));
      if s != [] {
        var more := DataPatches(rest, 4 * |pre| + 8, at + Size(s));
        PatchFirst(pre + BlankTable(sections), post, |pre| + 1, at, more, PATCH_DATA);
      }
    }
  }

  lemma NoTable(spot: nat, at: nat)
    ensures BlankTable([]) == [] && Table([], at) == [] && DataPatches([], spot, at) == []
  {
  }

  lemma DataPatchesFirst(sections: seq<seq<Record>>, spot: nat, at: nat)
    requires sections != []
    ensures var more := DataPatches(sections[1..], spot + 8, at + Size(sections[0]));
            DataPatches(sections, spot, at) == if sections[0] == [] then more else [DataPatch(spot + 4, at)] + more
  {
  }

  lemma LinkNothing(d: seq<byte>, n: nat, mark: u32)
    requires mark == PATCH_DATA || mark == PATCH_TEXT
    ensures InRange([], n) && Patched(d, [], mark) == d
  {
  }

  lemma {:induction false} LinkNames(pre: seq<u32>, rs: seq<Record>, post: seq<byte>, text: nat)
    ensures InRange(Aimed(TextPatches(rs, 4 * |pre|), text), 4 * |pre| + Size(rs))
    ensures Patched(Words(pre + Blank(rs)) + post, Aimed(TextPatches(rs, 4 * |pre|), text), PATCH_TEXT)
            == Words(pre + Linked(rs, text)) + post
    decreases |rs|
  {
    hide Words, Tag, Patched, InRange, NameText, Aimed, TextPatches, Linked, Blank, NameWord;
    if rs == [] {
      NoRecords(4 * |pre|, text);
      LinkNothing(Words(pre) + post, 4 * |pre|, PATCH_TEXT);
      assert pre + Blank(rs) == pre == pre + Linked(rs, text);
    } else {
      var r, more := rs[0], rs[1..];
      var next := text + |NameText(r)|;
      var entry := NameWord(r, text) + r.words;
      LinkFirst(pre, rs, text);
      BlankFirst(pre, rs, text);
      LinkNames(pre + entry, more, post, next);
      AimedFirst(rs, 4 * |pre|, text);
      if r.name.Some? {
        var ps := Aimed(TextPatches(more, 4 * |pre| + RecordSize(r)), next);
        PatchFirst(pre + Blank(rs), post, |pre|, text, ps, PATCH_TEXT);
      }
    }
  }

  lemma NoRecords(at: nat, text: nat)
    ensures Blank([]) == [] && Linked([], text) == [] && Aimed(TextPatches([], at), text) == []
  {
  }

  /** Linking the first record, with what precedes it done already. */
  lemma LinkFirst(pre: seq<u32>, rs: seq<Record>, text: nat)
    requires rs != []
    ensures var entry := NameWord(rs[0], text) + rs[0].words;
            && 4 * |pre + entry| == 4 * |pre| + RecordSize(rs[0])
            && pre + Linked(rs, text) == (pre + entry) + Linked(rs[1..], text + |NameText(rs[0])|)
  {
    hide Tag, UpToNul, NameText;
    Assoc(pre, NameWord(rs[0], text) + rs[0].words, Linked(rs[1..], text + |NameText(rs[0])|));
  }

  lemma BlankFirst(pre: seq<u32>, rs: seq<Record>, text: nat)
    requires rs != []
    ensures var entry := NameWord(rs[0], text) + rs[0].words;
            (pre + entry) + Blank(rs[1..])
            == if rs[0].name.Some? then (pre + Blank(rs))[|pre| := Tag(text, PATCH_TEXT)] else pre + Blank(rs)
  {
    hide Tag, Linked;
    var blank, more := BlankRecord(rs[0]), Blank(rs[1..]);
    if rs[0].name.Some? {
      Splice(pre, blank, more, 0, Tag(text, PATCH_TEXT));
      assert blank[0 := Tag(text, PATCH_TEXT)] == NameWord(rs[0], text) + rs[0].words;
    } else {
      Assoc(pre, blank, more);
    }
  }

  lemma AimedFirst(rs: seq<Record>, at: nat, text: nat)
    requires rs != []
    ensures var r := rs[0];
            var rest := Aimed(TextPatches(rs[1..], at + RecordSize(r)), text + |NameText(r)|);
            Aimed(TextPatches(rs, at), text) == if r.name.Some? then [DataPatch(at, text)] + rest else rest
  {
    hide UpToNul;
    var ts := TextPatches(rs[1..], at + RecordSize(rs[0]));
    if rs[0].name.Some? {
      var t := TextPatch(at, 0, rs[0].name.value);
      assert ([t] + ts)[1..] == ts;
      assert CText(t) == NameText(rs[0]);
    }
  }

  // -------- the patch table the passes write

  lemma TagsFirst(o: nat, spots: seq<nat>, mark: u32)
    requires mark == PATCH_DATA || mark == PATCH_TEXT
    ensures Tags([o] + spots, mark) == [Tag(o, mark)] + Tags(spots, mark)
  {
    hide Tag;
    var l, r := Tags([o] + spots, mark), [Tag(o, mark)] + Tags(spots, mark);
    assert |l| == |r|;
    forall i | 0 <= i < |l| ensures l[i] == r[i] {}
  }

  lemma {:induction false} DataTags(sections: seq<seq<Record>>, spot: nat, at: nat)
    ensures OffsetTags(DataPatches(sections, spot, at), PATCH_DATA) == Tags(DataSpots(sections, spot), PATCH_DATA)
    decreases |sections|
  {
    hide Tag, Size, Tags;
    if sections == [] {
      NoTags(PATCH_DATA);
    } else {
      var ps := DataPatches(sections[1..], spot + 8, at + Size(sections[0]));
      var spots := DataSpots(sections[1..], spot + 8);
      DataTags(sections[1..], spot + 8, at + Size(sections[0]));
      if sections[0] == [] {
        assert [] + spots == spots;
      } else {
        TagsFirst(spot + 4, spots, PATCH_DATA);
        assert ([DataPatch(spot + 4, at)] + ps)[1..] == ps;
      }
    }
  }

  lemma NoTags(mark: u32)
    requires mark == PATCH_DATA || mark == PATCH_TEXT
    ensures Tags([], mark) == []
  {
  }

  lemma {:induction false} TextTags(rs: seq<Record>, at: nat, text: nat)
    ensures OffsetTags(Aimed(TextPatches(rs, at), text), PATCH_TEXT) == Tags(TextSpots(rs, at), PATCH_TEXT)
    decreases |rs|
  {
    hide Tag, Tags, NameText, Aimed, TextPatches;
    if rs == [] {
      NoRecords(at, text);
      NoTags(PATCH_TEXT);
    } else {
      var r := rs[0];
      var spots := TextSpots(rs[1..], at + RecordSize(r));
      var ps := Aimed(TextPatches(rs[1..], at + RecordSize(r)), text + |NameText(r)|);
      TextTags(rs[1..], at + RecordSize(r), text + |NameText(r)|);
      AimedFirst(rs, at, text);
      if r.name.Some? {
        TagsFirst(at, spots, PATCH_TEXT);
        assert ([DataPatch(at, text)] + ps)[1..] == ps;
      } else {
        assert [] + spots == spots;
      }
    }
  }

  lemma {:induction false} PoolIs(rs: seq<Record>, at: nat)
    ensures Pool(TextPatches(rs, at)) == Text(rs)
    decreases |rs|
  {
    hide UpToNul;
    if rs != [] {
      var ts := TextPatches(rs[1..], at + RecordSize(rs[0]));
      PoolIs(rs[1..], at + RecordSize(rs[0]));
      if rs[0].name.Some? {
        var t := TextPatch(at, 0, rs[0].name.value);
        assert ([t] + ts)[1..] == ts && CText(t) == NameText(rs[0]);
      } else {
        assert NameText(rs[0]) + Text(rs[1..]) == Text(rs[1..]);
      }
    }
  }

  // -------- the whole block

  /** What the passes before relocation append. */
  function BlankBody(b: Block): (ws: seq<u32>)
    ensures 4 * |ws| == TextOffset(b)
  {
    b.head + BlankTable(b.sections) + b.tail + Blank(Flat(b.sections))
  }

  lemma LinkBody(b: Block, text: seq<byte>)
    ensures var dps := DataPatches(b.sections, 4 * |b.head|, HeaderSize(b));
            var names := Aimed(TextPatches(Flat(b.sections), HeaderSize(b)), TextOffset(b));
            && InRange(dps, TextOffset(b)) && InRange(names, TextOffset(b))
            && Patched(Patched(Words(BlankBody(b)) + text, dps, PATCH_DATA), names, PATCH_TEXT)
               == Words(Body(b)) + text
  {
    hide Words, Patched, DataPatches, Aimed, TextPatches, Table, Blank, BlankTable, Linked, Flat, Size;
    var rs, at := Flat(b.sections), HeaderSize(b);
    var dps, names := DataPatches(b.sections, 4 * |b.head|, at), Aimed(TextPatches(rs, at), TextOffset(b));
    var after := Words(b.tail + Blank(rs));
    LinkTable(b.head, b.sections, after + text, at);
    assert BlankBody(b) == (b.head + BlankTable(b.sections)) + (b.tail + Blank(rs));
    WordsAppend(b.head + BlankTable(b.sections), b.tail + Blank(rs));
    Assoc(Words(b.head + BlankTable(b.sections)), after, text);
    var mid := b.head + Table(b.sections, at) + b.tail;
    assert mid + Blank(rs) == (b.head + Table(b.sections, at)) + (b.tail + Blank(rs));
    WordsAppend(b.head + Table(b.sections, at), b.tail + Blank(rs));
    Assoc(Words(b.head + Table(b.sections, at)), after, text);
    assert 4 * |mid| == at;
    LinkNames(mid, rs, text, TextOffset(b));
  }

  /** Back-patching turns the placeholders into the closed form of the block. */
  lemma LinkBlock(b: Block)
    ensures var dps := DataPatches(b.sections, 4 * |b.head|, HeaderSize(b));
            var tps := TextPatches(Flat(b.sections), HeaderSize(b));
            && InRange(dps, TextOffset(b)) && InRange(Aimed(tps, TextOffset(b)), TextOffset(b))
            && Finished(Words(BlankBody(b)), dps, tps) == Encode(b)
  {
    hide Words, Patched, DataPatches, Aimed, TextPatches, Flat, Size, BlankBody, Body, Text, Pool, InRange, Tags,
         RelocationHeader, OffsetTags;
    var rs, at := Flat(b.sections), HeaderSize(b);
    var dps, tps := DataPatches(b.sections, 4 * |b.head|, at), TextPatches(rs, at);
    PoolIs(rs, at);
    LinkBody(b, Text(rs));
    DataTags(b.sections, 4 * |b.head|, at);
    TextTags(rs, at, TextOffset(b));
    var dt, tt := OffsetTags(dps, PATCH_DATA), OffsetTags(Aimed(tps, TextOffset(b)), PATCH_TEXT);
    TagsLength(dps, PATCH_DATA);
    TagsLength(Aimed(tps, TextOffset(b)), PATCH_TEXT);
    WordsAppend(dt, tt);
    Assoc(Words(Body(b)) + Text(rs), Words(dt), Words(tt));
  }

  lemma {:induction false} TagsLength(ps: seq<DataPatch>, mark: u32)
    requires mark == PATCH_DATA || mark == PATCH_TEXT
    ensures |OffsetTags(ps, mark)| == |ps|
  {
    hide Tag;
    if ps != [] {
      TagsLength(ps[1..], mark);
    }
  }
}
