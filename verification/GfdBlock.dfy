/**
 * A relocated GFD block: a head of words, a table of (count, pointer) pairs, a tail of words, the
 * records the pointers lead to, the text pool of their names, the patch table and a relocation header.
 * The six kinds of shader variable are the six record shapes of such a block.
 */
module GfdBlock {
  import opened Machine
  import opened GfdBytes
  import opened Wrappers

  /** One entry of a shader variable list: a name, where the kind has one, and its words. */
  datatype Record = Record(name: Option<seq<byte>>, words: seq<u32>)

  datatype Block = Block(head: seq<u32>, sections: seq<seq<Record>>, tail: seq<u32>)

  datatype Shape = Shape(named: bool, width: nat)

  predicate Fits(shape: Shape, rs: seq<Record>) {
    forall r :: r in rs ==> r.name.Some? == shape.named && |r.words| == shape.width
  }

  predicate AllFit(shapes: seq<Shape>, sections: seq<seq<Record>>) {
    |shapes| == |sections|
    && forall i :: 0 <= i < |sections| ==> ShapeSize(shapes[i]) > 0 && Fits(shapes[i], sections[i])
  }

  // -------- patch tags

  const PATCH_DATA: u32 := 0xD060_0000
  const PATCH_TEXT: u32 := 0xCA70_0000
  const LOW: nat := 0x10_0000

  lemma {:induction false} OrBound(a: nat, b: nat, k: nat)
    requires a < Pow2(k) && b < Pow2(k)
    ensures Or(a, b) < Pow2(k)
    decreases k
  {
    if k > 0 {
      OrBound(a / 2, b / 2, k - 1);
    }
  }

  /** Or-ing a mask whose low k bits are clear keeps the low k bits. */
  lemma {:induction false} OrKeepsLow(a: nat, b: nat, k: nat, q: nat)
    requires b == Pow2(k) * q
    ensures Or(a, b) % Pow2(k) == a % Pow2(k)
    decreases k
  {
    if k > 0 {
      var n := Pow2(k - 1);
      assert b == 2 * (n * q);
      assert b % 2 == 0 && b / 2 == n * q;
      OrKeepsLow(a / 2, b / 2, k - 1, q);
      assert Or(a, b) == a % 2 + 2 * Or(a / 2, b / 2);
      DoubleMod(Or(a / 2, b / 2), a % 2, n);
      DoubleMod(a / 2, a % 2, n);
    }
  }

  lemma DoubleMod(z: nat, bit: nat, n: nat)
    requires bit < 2 && n > 0
    ensures (2 * z + bit) % (2 * n) == 2 * (z % n) + bit
  {
    Euclid(z, n);
    var q, r := z / n, z % n;
    assert 2 * z + bit == (2 * n) * q + (2 * r + bit) by {
      assert 2 * (n * q) == (2 * n) * q;
    }
    DivModOf(2 * n, q, 2 * r + bit);
  }

  /** A block offset marked with the kind of patch it is. */
  function Tag(x: nat, mark: u32): (t: u32)
    requires mark == PATCH_DATA || mark == PATCH_TEXT
    ensures t % LOW == x % LOW
  {
    TagFacts(x, mark);
    Or(U32(x), mark)
  }

  lemma TagFacts(x: nat, mark: u32)
    requires mark == PATCH_DATA || mark == PATCH_TEXT
    ensures Or(U32(x), mark) < TWO32 && Or(U32(x), mark) % LOW == x % LOW
  {
    hide Or, Pow2, U32;
    PowAt20();
    OrBound(U32(x), mark, 32);
    OrKeepsLow(U32(x), mark, 20, mark / LOW);
    LowOfU32(x);
  }

  lemma LowOfU32(x: nat)
    ensures U32(x) % LOW == x % LOW
  {
    Euclid(x, TWO32);
    var q, r := x / TWO32, x % TWO32;
    Euclid(r, LOW);
    assert x == LOW * (4096 * q + r / LOW) + r % LOW;
    DivModOf(LOW, 4096 * q + r / LOW, r % LOW);
  }

  lemma PowAt20()
    ensures Pow2(20) == LOW && Pow2(32) == TWO32
  {
    assert Pow2(5) == 32;
    assert Pow2(10) == 32 * Pow2(5);
    assert Pow2(15) == 32 * Pow2(10);
    assert Pow2(20) == 32 * Pow2(15);
    assert Pow2(25) == 32 * Pow2(20);
    assert Pow2(30) == 32 * Pow2(25);
  }

  /** The block offset of a marked word. */
  function Untag(w: u32): nat {
    w % LOW
  }

  lemma UntagTag(x: nat, mark: u32)
    requires x < LOW && (mark == PATCH_DATA || mark == PATCH_TEXT)
    ensures Untag(Tag(x, mark)) == x
  {
    hide Or;
  }

  // -------- what a block is encoded as

  function RecordSize(r: Record): nat {
    (if r.name.Some? then 4 else 0) + 4 * |r.words|
  }

  /** What a record adds to the text pool: its name as a C string. */
  function NameText(r: Record): seq<byte> {
    match r.name
    case None => []
    case Some(s) => UpToNul(s) + [0]
  }

  function Text(rs: seq<Record>): seq<byte> {
    if rs == [] then [] else NameText(rs[0]) + Text(rs[1..])
  }

  /** The records with every name replaced by its place in the text pool, which goes on at `text`. */
  function Linked(rs: seq<Record>, text: nat): (ws: seq<u32>)
    ensures 4 * |ws| == Size(rs)
  {
    if rs == [] then []
    else NameWord(rs[0], text) + rs[0].words + Linked(rs[1..], text + |NameText(rs[0])|)
  }

  function NameWord(r: Record, text: nat): seq<u32> {
    if r.name.Some? then [Tag(text, PATCH_TEXT)] else []
  }

  function Size(rs: seq<Record>): nat {
    if rs == [] then 0 else RecordSize(rs[0]) + Size(rs[1..])
  }

  function Flat(sections: seq<seq<Record>>): seq<Record> {
    if sections == [] then [] else sections[0] + Flat(sections[1..])
  }

  /** The table of counts and pointers, where the records of the first section lie at `at`. */
  function Table(sections: seq<seq<Record>>, at: nat): (ws: seq<u32>)
    ensures |ws| == 2 * |sections|
  {
    if sections == [] then []
    else Entry(sections[0], at) + Table(sections[1..], at + Size(sections[0]))
  }

  function Entry(s: seq<Record>, at: nat): (ws: seq<u32>)
    ensures |ws| == 2
  {
    [U32(|s|), if s == [] then 0 else Tag(at, PATCH_DATA)]
  }

  /** Where the table, from byte `at` on, holds a pointer. */
  function DataSpots(sections: seq<seq<Record>>, at: nat): seq<nat> {
    if sections == [] then []
    else (if sections[0] == [] then [] else [at + 4]) + DataSpots(sections[1..], at + 8)
  }

  /** Where the records, from byte `at` on, hold a name. */
  function TextSpots(rs: seq<Record>, at: nat): seq<nat> {
    if rs == [] then []
    else (if rs[0].name.Some? then [at] else []) + TextSpots(rs[1..], at + RecordSize(rs[0]))
  }

  function Tags(spots: seq<nat>, mark: u32): seq<u32>
    requires mark == PATCH_DATA || mark == PATCH_TEXT
  {
    seq(|spots|, i requires 0 <= i < |spots| => Tag(spots[i], mark))
  }

  /** Byte offset of the first record. */
  function HeaderSize(b: Block): nat {
    4 * (|b.head| + 2 * |b.sections| + |b.tail|)
  }

  function TextOffset(b: Block): nat {
    HeaderSize(b) + Size(Flat(b.sections))
  }

  function PatchOffset(b: Block): nat {
    TextOffset(b) + |Text(Flat(b.sections))|
  }

  function Body(b: Block): (ws: seq<u32>)
    ensures 4 * |ws| == TextOffset(b)
  {
    b.head + Table(b.sections, HeaderSize(b)) + b.tail + Linked(Flat(b.sections), TextOffset(b))
  }

  function PatchTable(b: Block): seq<u32> {
    Tags(DataSpots(b.sections, 4 * |b.head|), PATCH_DATA) + Tags(TextSpots(Flat(b.sections), HeaderSize(b)), PATCH_TEXT)
  }

  const RELOCATION_MAGIC: u32 := 0x7D42_4C4B
  const RELOCATION_SIZE: u32 := 40

  function RelocationHeader(dataSize: nat, textSize: nat, textOffset: nat, patchCount: nat): (ws: seq<u32>)
    ensures |ws| == 10
  {
    [RELOCATION_MAGIC, RELOCATION_SIZE, 0, U32(dataSize), Tag(0, PATCH_DATA), U32(textSize),
     Tag(textOffset, PATCH_DATA), 0, U32(patchCount), Tag(dataSize, PATCH_DATA)]
  }

  function Encode(b: Block): seq<byte> {
    Words(Body(b)) + Text(Flat(b.sections)) + Words(PatchTable(b))
    + Words(RelocationHeader(PatchOffset(b), |Text(Flat(b.sections))|, TextOffset(b), |PatchTable(b)|))
  }

  // -------- how a block is parsed

  /** Some patch is about the given block offset. */
  predicate Relocated(patches: seq<u32>, offset: nat) {
    exists p :: p in patches && Untag(p) == offset
  }

  /** The string a marked word points to; a word without a patch stands for no name. */
  function ReadNameAt(d: seq<byte>, base: u32, patches: seq<u32>, pos: u32): Result<seq<byte>> {
    var link :- ReadWords(d, pos, 1);
    if Relocated(patches, U32(pos - base)) then CString(d, base + Untag(link[0])) else Ok([])
  }

  function ReadRecord(d: seq<byte>, base: u32, patches: seq<u32>, pos: u32, shape: Shape): Result<Record> {
    if shape.named then
      var name :- ReadNameAt(d, base, patches, pos);
      var words :- ReadWords(d, U32(pos + 4), shape.width);
      Ok(Record(Some(name), words))
    else
      var words :- ReadWords(d, pos, shape.width);
      Ok(Record(None, words))
  }

  function ShapeSize(shape: Shape): nat {
    (if shape.named then 4 else 0) + 4 * shape.width
  }

  function ReadRecords(d: seq<byte>, base: u32, patches: seq<u32>, pos: u32, shape: Shape, count: nat): Result<seq<Record>>
    decreases count
  {
    if count == 0 then Ok([])
    else
      var r :- ReadRecord(d, base, patches, pos, shape);
      var rest :- ReadRecords(d, base, patches, U32(pos + ShapeSize(shape)), shape, count - 1);
      Ok([r] + rest)
  }

  /** A list read through its table entry at `pos`. */
  function ReadSection(d: seq<byte>, base: u32, patches: seq<u32>, pos: u32, shape: Shape): Result<seq<Record>> {
    var entry :- ReadWords(d, pos, 2);
    if entry[0] == 0 then Ok([])
    else if Untag(entry[1]) == 0 || !Relocated(patches, U32(pos + 4 - base)) then Fail
    else ReadRecords(d, base, patches, U32(base + Untag(entry[1])), shape, entry[0])
  }

  function ReadSections(d: seq<byte>, base: u32, patches: seq<u32>, pos: u32, shapes: seq<Shape>)
    : (r: Result<seq<seq<Record>>>)
    ensures r.Ok? ==> |r.value| == |shapes|
    decreases |shapes|
  {
    if shapes == [] then Ok([])
    else
      var s :- ReadSection(d, base, patches, pos, shapes[0]);
      var rest :- ReadSections(d, base, patches, U32(pos + 8), shapes[1..]);
      Ok([s] + rest)
  }

  function ReadPatches(d: seq<byte>, base: u32, size: u32): Result<seq<u32>> {
    var h :- ReadWords(d, U32(base + size - RELOCATION_SIZE), 10);
    if h[0] != RELOCATION_MAGIC || h[1] != RELOCATION_SIZE then Fail
    else ReadWords(d, U32(base + Untag(h[9])), h[8])
  }

  datatype Layout = Layout(head: nat, shapes: seq<Shape>, tail: nat)

  function ReadBlock(d: seq<byte>, base: u32, size: u32, layout: Layout): (r: Result<Block>)
    ensures r.Ok? ==> |r.value.head| == layout.head && |r.value.tail| == layout.tail
                      && |r.value.sections| == |layout.shapes|
  {
    var patches :- ReadPatches(d, base, size);
    var head :- ReadWords(d, base, layout.head);
    var sections :- ReadSections(d, base, patches, U32(base + 4 * layout.head), layout.shapes);
    var tail :- ReadWords(d, U32(base + 4 * (layout.head + 2 * |layout.shapes|)), layout.tail);
    Ok(Block(head, sections, tail))
  }
}
