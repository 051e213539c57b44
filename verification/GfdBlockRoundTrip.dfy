/** Parsing an encoded block gives back the block, with every name cut at its first NUL. */
module GfdBlockRoundTrip {
  import opened Machine
  import opened GfdBytes
  import opened GfdBlock
  import opened Wrappers

  /** A record as a reader sees it: C strings end at the first NUL. */
  function Seen(r: Record): Record {
    Record(if r.name.Some? then Some(UpToNul(r.name.value)) else None, r.words)
  }

  function SeenAll(rs: seq<Record>): (ss: seq<Record>)
    ensures |ss| == |rs|
  {
    if rs == [] then [] else [Seen(rs[0])] + SeenAll(rs[1..])
  }

  function SeenSections(sections: seq<seq<Record>>): seq<seq<Record>> {
    if sections == [] then [] else [SeenAll(sections[0])] + SeenSections(sections[1..])
  }

  predicate AllRelocated(patches: seq<u32>, spots: seq<nat>) {
    forall o :: o in spots ==> Relocated(patches, o)
  }

  // -------- records

  lemma ReadRecordOf(d: seq<byte>, base: nat, patches: seq<u32>, off: nat, r: Record, text: nat, shape: Shape)
    requires |d| < TWO32 && Fits(shape, [r]) && text < LOW
    requires Holds(d, base + off, Words(NameWord(r, text) + r.words))
    requires Holds(d, base + text, NameText(r))
    requires r.name.Some? ==> Relocated(patches, off)
    ensures ReadRecord(d, base, patches, base + off, shape) == Ok(Seen(r))
  {
    hide Holds, Words, ReadWords, CString, Relocated, Tag, Untag, UpToNul, U32;
    HoldsFits(d, base + off, Words(NameWord(r, text) + r.words));
    assert r in [r];
    if r.name.Some? {
      var link := [Tag(text, PATCH_TEXT)];
      WordsAppend(link, r.words);
      HoldsPart(d, base + off, Words(link), Words(r.words));
      HoldsFits(d, base + off, Words(link));
      HoldsFits(d, base + off + 4, Words(r.words));
      U32Id(base + off + 4);
      U32Id(off);
      ReadWordsOf(d, base + off, link);
      ReadWordsOf(d, base + off + 4, r.words);
      UntagTag(text, PATCH_TEXT);
      CStringOf(d, base + text, UpToNul(r.name.value));
    } else {
      assert NameWord(r, text) + r.words == r.words;
      ReadWordsOf(d, base + off, r.words);
    }
  }

  lemma HoldsFits(d: seq<byte>, pos: nat, s: seq<byte>)
    requires Holds(d, pos, s)
    ensures pos + |s| <= |d|
  {
  }

  lemma {:induction false} ReadRecordsOf(
      d: seq<byte>, base: nat, patches: seq<u32>, off: nat, rs: seq<Record>, text: nat, shape: Shape)
    requires |d| < TWO32 && Fits(shape, rs)
    requires Holds(d, base + off, Words(Linked(rs, text)))
    requires Holds(d, base + text, Text(rs)) && text + |Text(rs)| < LOW
    requires AllRelocated(patches, TextSpots(rs, off))
    ensures base + off < TWO32
    ensures ReadRecords(d, base, patches, base + off, shape, |rs|) == Ok(SeenAll(rs))
    decreases |rs|
  {
    hide Holds, Words, Relocated, ReadRecord, Seen, NameWord, NameText, U32, Linked, Text, TextSpots, AllRelocated;
    HoldsFits(d, base + off, Words(Linked(rs, text)));
    if rs != [] {
      var r, more := rs[0], rs[1..];
      FirstRecord(d, base, off, rs, text);
      SpotsSplit(patches, rs, off);
      assert r in rs;
      ReadRecordOf(d, base, patches, off, r, text, shape);
      ReadRecordsOf(d, base, patches, off + RecordSize(r), more, text + |NameText(r)|, shape);
      assert ShapeSize(shape) == RecordSize(r);
      U32Id(base + off + RecordSize(r));
    }
  }

  /** The first of a run of records, and the run after it. */
  lemma FirstRecord(d: seq<byte>, base: nat, off: nat, rs: seq<Record>, text: nat)
    requires rs != [] && Holds(d, base + off, Words(Linked(rs, text))) && Holds(d, base + text, Text(rs))
    ensures var r, more, next := rs[0], rs[1..], text + |NameText(rs[0])|;
            && Holds(d, base + off, Words(NameWord(r, text) + r.words))
            && Holds(d, base + text, NameText(r))
            && Holds(d, base + off + RecordSize(r), Words(Linked(more, next)))
            && Holds(d, base + next, Text(more))
            && |Text(rs)| == |NameText(r)| + |Text(more)|
  {
    hide Holds, Words, NameWord, NameText;
    var r, more, next := rs[0], rs[1..], text + |NameText(rs[0])|;
    var ws := NameWord(r, text) + r.words;
    WordsAppend(ws, Linked(more, next));
    HoldsPart(d, base + off, Words(ws), Words(Linked(more, next)));
    HoldsPart(d, base + text, NameText(r), Text(more));
    RecordWords(r, text);
  }

  lemma RecordWords(r: Record, text: nat)
    ensures |Words(NameWord(r, text) + r.words)| == RecordSize(r)
  {
  }

  lemma SpotsSplit(patches: seq<u32>, rs: seq<Record>, off: nat)
    requires rs != [] && AllRelocated(patches, TextSpots(rs, off))
    ensures rs[0].name.Some? ==> Relocated(patches, off)
    ensures AllRelocated(patches, TextSpots(rs[1..], off + RecordSize(rs[0])))
  {
    hide Relocated;
    var here := if rs[0].name.Some? then [off] else [];
    var more := TextSpots(rs[1..], off + RecordSize(rs[0]));
    assert TextSpots(rs, off) == here + more;
    assert forall o :: o in here ==> o in here + more;
    if rs[0].name.Some? {
      assert off in here;
    }
    assert forall o :: o in more ==> o in here + more;
  }

  // -------- lists of records one after another

  lemma {:induction false} TextAppend(x: seq<Record>, y: seq<Record>)
    ensures Text(x + y) == Text(x) + Text(y)
    ensures Size(x + y) == Size(x) + Size(y)
    decreases |x|
  {
    hide NameText;
    if x == [] {
      assert x + y == y;
    } else {
      assert (x + y)[0] == x[0] && (x + y)[1..] == x[1..] + y;
      TextAppend(x[1..], y);
      assert NameText(x[0]) + (Text(x[1..]) + Text(y)) == Text(x) + Text(y);
    }
  }

  lemma LinkedFirst(r: Record, rs: seq<Record>, text: nat)
    ensures Linked([r] + rs, text) == NameWord(r, text) + r.words + Linked(rs, text + |NameText(r)|)
    ensures Text([r] + rs) == NameText(r) + Text(rs)
  {
    hide NameWord, NameText, Size;
    assert ([r] + rs)[1..] == rs;
  }

  lemma {:induction false} LinkedAppend(x: seq<Record>, y: seq<Record>, text: nat)
    ensures Linked(x + y, text) == Linked(x, text) + Linked(y, text + |Text(x)|)
    decreases |x|
  {
    hide NameWord, NameText, Size, Linked, Text;
    if x == [] {
      assert x + y == y;
      LinkedNone(text);
      assert [] + Linked(y, text) == Linked(y, text);
    } else {
      var r, xs := x[0], x[1..];
      assert x == [r] + xs;
      Assoc([r], xs, y);
      LinkedFirst(r, xs, text);
      LinkedFirst(r, xs + y, text);
      var next := text + |NameText(r)|;
      LinkedAppend(xs, y, next);
      assert next + |Text(xs)| == text + |Text(x)|;
      Assoc(NameWord(r, text) + r.words, Linked(xs, next), Linked(y, next + |Text(xs)|));
    }
  }

  lemma LinkedNone(text: nat)
    ensures Linked([], text) == [] && Text([]) == []
  {
  }

  lemma {:induction false} SpotsAppend(x: seq<Record>, y: seq<Record>, at: nat)
    ensures TextSpots(x + y, at) == TextSpots(x, at) + TextSpots(y, at + Size(x))
    decreases |x|
  {
    if x == [] {
      assert x + y == y;
    } else {
      assert (x + y)[0] == x[0] && (x + y)[1..] == x[1..] + y;
      SpotsAppend(x[1..], y, at + RecordSize(x[0]));
      var here := if x[0].name.Some? then [at] else [];
      var sx, sy := TextSpots(x[1..], at + RecordSize(x[0])), TextSpots(y, at + Size(x));
      assert TextSpots(x + y, at) == here + (sx + sy) == (here + sx) + sy;
    }
  }

  lemma RelocatedParts(patches: seq<u32>, x: seq<nat>, y: seq<nat>)
    requires AllRelocated(patches, x + y)
    ensures AllRelocated(patches, x) && AllRelocated(patches, y)
  {
    hide Relocated;
    assert forall o :: o in x || o in y ==> o in x + y;
  }

  lemma FirstRelocated(patches: seq<u32>, o: nat)
    requires AllRelocated(patches, [o])
    ensures Relocated(patches, o)
  {
    hide Relocated;
    assert o in [o];
  }

  lemma {:induction false} CountBound(shape: Shape, s: seq<Record>)
    requires ShapeSize(shape) > 0 && Fits(shape, s)
    ensures 4 * |s| <= Size(s)
  {
    if s != [] {
      assert s[0] in s;
      CountBound(shape, s[1..]);
    }
  }

  // -------- one section, then all of them

  lemma ReadSectionOf(
      d: seq<byte>, base: nat, patches: seq<u32>, spot: nat, at: nat, s: seq<Record>, text: nat, shape: Shape)
    requires |d| < TWO32 && Fits(shape, s) && |s| < TWO32 && 0 < at < LOW
    requires Holds(d, base + spot, Words(Entry(s, at)))
    requires s != [] ==> Relocated(patches, spot + 4)
    requires Holds(d, base + at, Words(Linked(s, text)))
    requires Holds(d, base + text, Text(s)) && text + |Text(s)| < LOW
    requires AllRelocated(patches, TextSpots(s, at))
    ensures ReadSection(d, base, patches, base + spot, shape) == Ok(SeenAll(s))
  {
    hide Holds, Words, Relocated, ReadRecords, ReadWords, Linked, Text, TextSpots, Tag, Untag, U32;
    var entry := Entry(s, at);
    HoldsFits(d, base + spot, Words(entry));
    U32Id(|s|);
    ReadWordsOf(d, base + spot, entry);
    if s != [] {
      UntagTag(at, PATCH_DATA);
      U32Id(spot + 4);
      assert base + spot + 4 - base == spot + 4;
      HoldsFits(d, base + at, Words(Linked(s, text)));
      U32Id(base + at);
      ReadRecordsOf(d, base, patches, at, s, text, shape);
    }
  }

  lemma {:induction false} ReadSectionsOf(
      d: seq<byte>, base: nat, patches: seq<u32>, spot: nat, at: nat, sections: seq<seq<Record>>, text: nat,
      shapes: seq<Shape>)
    requires |d| < TWO32 && AllFit(shapes, sections) && 0 < at && at + Size(Flat(sections)) < LOW
    requires Holds(d, base + spot, Words(Table(sections, at)))
    requires AllRelocated(patches, DataSpots(sections, spot))
    requires Holds(d, base + at, Words(Linked(Flat(sections), text)))
    requires Holds(d, base + text, Text(Flat(sections))) && text + |Text(Flat(sections))| < LOW
    requires AllRelocated(patches, TextSpots(Flat(sections), at))
    ensures base + spot < TWO32
    ensures ReadSections(d, base, patches, base + spot, shapes) == Ok(SeenSections(sections))
    decreases |sections|
  {
    hide Holds, Words, Relocated, ReadSection, Linked, Text, TextSpots, Fits, Entry, Size, U32, AllRelocated, SeenAll;
    HoldsFits(d, base + spot, Words(Table(sections, at)));
    if sections != [] {
      var s, rest := sections[0], sections[1..];
      var more := Flat(rest);
      var entry := Entry(s, at);
      TextAppend(s, more);
      LinkedAppend(s, more, text);
      SpotsAppend(s, more, at);
      WordsAppend(entry, Table(rest, at + Size(s)));
      WordsAppend(Linked(s, text), Linked(more, text + |Text(s)|));
      HoldsPart(d, base + spot, Words(entry), Words(Table(rest, at + Size(s))));
      HoldsPart(d, base + at, Words(Linked(s, text)), Words(Linked(more, text + |Text(s)|)));
      HoldsPart(d, base + text, Text(s), Text(more));
      RelocatedParts(patches, TextSpots(s, at), TextSpots(more, at + Size(s)));
      RelocatedParts(patches, if s == [] then [] else [spot + 4], DataSpots(rest, spot + 8));
      if s != [] {
        FirstRelocated(patches, spot + 4);
      }
      CountBound(shapes[0], s);
      ReadSectionOf(d, base, patches, spot, at, s, text, shapes[0]);
      ReadSectionsOf(d, base, patches, spot + 8, at + Size(s), rest, text + |Text(s)|, shapes[1..]);
      U32Id(base + spot + 8);
    }
  }

  // -------- the patch table

  lemma {:induction false} DataSpotsBelow(sections: seq<seq<Record>>, at: nat, o: nat)
    requires o in DataSpots(sections, at)
    ensures o < at + 8 * |sections|
    decreases |sections|
  {
    if sections != [] && o in DataSpots(sections[1..], at + 8) {
      DataSpotsBelow(sections[1..], at + 8, o);
    }
  }

  lemma {:induction false} TextSpotsBelow(rs: seq<Record>, at: nat, o: nat)
    requires o in TextSpots(rs, at)
    ensures o < at + Size(rs)
    decreases |rs|
  {
    if rs != [] && o in TextSpots(rs[1..], at + RecordSize(rs[0])) {
      TextSpotsBelow(rs[1..], at + RecordSize(rs[0]), o);
    }
  }

  lemma TagsRelocate(spots: seq<nat>, mark: u32, patches: seq<u32>)
    requires mark == PATCH_DATA || mark == PATCH_TEXT
    requires forall o :: o in spots ==> o < LOW
    requires forall p :: p in Tags(spots, mark) ==> p in patches
    ensures AllRelocated(patches, spots)
  {
    hide Tag, Untag;
    forall o | o in spots ensures Relocated(patches, o) {
      var i :| 0 <= i < |spots| && spots[i] == o;
      var p := Tags(spots, mark)[i];
      assert p in Tags(spots, mark);
      UntagTag(o, mark);
      assert p in patches && Untag(p) == o;
    }
  }

  /** The patch table a block is written with covers every pointer and every name in it. */
  lemma PatchTableCovers(b: Block)
    requires PatchOffset(b) < LOW
    ensures AllRelocated(PatchTable(b), DataSpots(b.sections, 4 * |b.head|))
    ensures AllRelocated(PatchTable(b), TextSpots(Flat(b.sections), HeaderSize(b)))
  {
    hide Tags, DataSpots, TextSpots, Size, Flat, Text, AllRelocated;
    var data, text := DataSpots(b.sections, 4 * |b.head|), TextSpots(Flat(b.sections), HeaderSize(b));
    forall o | o in data ensures o < LOW { DataSpotsBelow(b.sections, 4 * |b.head|, o); }
    forall o | o in text ensures o < LOW { TextSpotsBelow(Flat(b.sections), HeaderSize(b), o); }
    TagsRelocate(data, PATCH_DATA, PatchTable(b));
    TagsRelocate(text, PATCH_TEXT, PatchTable(b));
  }

  /** The four parts of an encoded block, each where the writer put it. */
  lemma EncodedParts(d: seq<byte>, base: nat, b: Block)
    requires Holds(d, base, Encode(b))
    ensures Holds(d, base, Words(Body(b)))
    ensures Holds(d, base + TextOffset(b), Text(Flat(b.sections)))
    ensures Holds(d, base + PatchOffset(b), Words(PatchTable(b)))
    ensures var h := RelocationHeader(PatchOffset(b), |Text(Flat(b.sections))|, TextOffset(b), |PatchTable(b)|);
            |Encode(b)| >= 40 && Holds(d, base + |Encode(b)| - 40, Words(h))
  {
    hide Holds, Words, Body, PatchTable, RelocationHeader, Text, Flat;
    var body, text, table := Words(Body(b)), Text(Flat(b.sections)), Words(PatchTable(b));
    var h := Words(RelocationHeader(PatchOffset(b), |text|, TextOffset(b), |PatchTable(b)|));
    HoldsPart(d, base, body + text + table, h);
    HoldsPart(d, base, body + text, table);
    HoldsPart(d, base, body, text);
  }

  lemma ReadPatchesOf(d: seq<byte>, base: nat, b: Block)
    requires |d| < TWO32 && Holds(d, base, Encode(b)) && PatchOffset(b) < LOW
    ensures base + |Encode(b)| <= |d|
    ensures ReadPatches(d, base, |Encode(b)|) == Ok(PatchTable(b))
  {
    hide Holds, Words, Encode, PatchTable, PatchOffset, TextOffset, Text, Flat, ReadWords, Tag, Untag, U32;
    EncodedParts(d, base, b);
    HoldsFits(d, base, Encode(b));
    HoldsFits(d, base + PatchOffset(b), Words(PatchTable(b)));
    var h := RelocationHeader(PatchOffset(b), |Text(Flat(b.sections))|, TextOffset(b), |PatchTable(b)|);
    U32Id(base + |Encode(b)| - RELOCATION_SIZE);
    ReadWordsOf(d, base + |Encode(b)| - RELOCATION_SIZE, h);
    UntagTag(PatchOffset(b), PATCH_DATA);
    U32Id(base + PatchOffset(b));
    U32Id(|PatchTable(b)|);
    ReadWordsOf(d, base + PatchOffset(b), PatchTable(b));
  }

  /** The parts of a block's body, each where the writer put it. */
  lemma BodyParts(d: seq<byte>, base: nat, b: Block)
    requires Holds(d, base, Words(Body(b)))
    ensures Holds(d, base, Words(b.head))
    ensures Holds(d, base + 4 * |b.head|, Words(Table(b.sections, HeaderSize(b))))
    ensures Holds(d, base + 4 * (|b.head| + 2 * |b.sections|), Words(b.tail))
    ensures Holds(d, base + HeaderSize(b), Words(Linked(Flat(b.sections), TextOffset(b))))
  {
    hide Holds, Words, TextOffset, Linked, Flat, Table;
    var table, linked := Table(b.sections, HeaderSize(b)), Linked(Flat(b.sections), TextOffset(b));
    WordsAppend(b.head + table + b.tail, linked);
    WordsAppend(b.head + table, b.tail);
    WordsAppend(b.head, table);
    HoldsPart(d, base, Words(b.head + table + b.tail), Words(linked));
    HoldsPart(d, base, Words(b.head + table), Words(b.tail));
    HoldsPart(d, base, Words(b.head), Words(table));
  }

  /** Parsing what a block was encoded as gives the block a reader can see. */
  lemma BlockRoundTrip(d: seq<byte>, base: nat, b: Block, layout: Layout)
    requires |d| < TWO32 && Holds(d, base, Encode(b)) && 0 < HeaderSize(b) && PatchOffset(b) < LOW
    requires AllFit(layout.shapes, b.sections) && |b.head| == layout.head && |b.tail| == layout.tail
    ensures base + |Encode(b)| <= |d|
    ensures ReadBlock(d, base, |Encode(b)|, layout) == Ok(Block(b.head, SeenSections(b.sections), b.tail))
  {
    hide Holds, Words, Encode, PatchTable, Body, Text, Flat, ReadWords, ReadSections, ReadPatches, AllRelocated,
         DataSpots, TextSpots, Table, Linked, Size, U32, AllFit;
    ReadPatchesOf(d, base, b);
    PatchTableCovers(b);
    EncodedParts(d, base, b);
    BodyParts(d, base, b);
    ReadWordsOf(d, base, b.head);
    var tailAt := base + 4 * (|b.head| + 2 * |b.sections|);
    HoldsFits(d, tailAt, Words(b.tail));
    HoldsFits(d, base + 4 * |b.head|, Words(Table(b.sections, HeaderSize(b))));
    U32Id(base + 4 * |b.head|);
    U32Id(tailAt);
    ReadWordsOf(d, tailAt, b.tail);
    assert |layout.shapes| == |b.sections| by { SameLength(layout.shapes, b.sections); }
    ReadSectionsOf(d, base, PatchTable(b), 4 * |b.head|, HeaderSize(b), b.sections, TextOffset(b), layout.shapes);
  }

  lemma SameLength(shapes: seq<Shape>, sections: seq<seq<Record>>)
    requires AllFit(shapes, sections)
    ensures |shapes| == |sections|
  {
  }
}
