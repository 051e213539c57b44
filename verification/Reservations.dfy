/**
 * The list of free virtual address ranges: which addresses it covers, how allocation carves a range out
 * of it and how freeing puts one back, in 32-bit arithmetic.
 */
module Reservations {
  import opened Machine
  import opened Wrappers

  const PAGE: nat := 0x2_0000

  /** A range of free addresses; both ends are inclusive. */
  datatype Range = Range(start: u32, end: u32)

  /** Rounds up to a page, wrapping to zero past the last page. */
  function AlignPage(x: u32): u32 {
    U32((x + (PAGE - 1)) / PAGE * PAGE)
  }

  /** The last address of `size` bytes from `start`. */
  function LastOf(start: u32, size: u32): u32 {
    U32(start + U32(size - 1))
  }

  // -------- what the list means

  predicate Covers(rs: seq<Range>, a: int) {
    exists i :: 0 <= i < |rs| && rs[i].start <= a <= rs[i].end
  }

  /** Sorted, disjoint, each entry non-empty, and never two entries that could be one. */
  predicate Separated(rs: seq<Range>) {
    && (forall i :: 0 <= i < |rs| ==> rs[i].start <= rs[i].end)
    && (forall i, j :: 0 <= i < j < |rs| ==> rs[i].end + 1 < rs[j].start)
  }

  predicate PageAligned(r: Range) {
    r.start % PAGE == 0 && (r.end + 1) % PAGE == 0
  }

  predicate AllAligned(rs: seq<Range>) {
    forall i :: 0 <= i < |rs| ==> PageAligned(rs[i])
  }

  predicate Canonical(rs: seq<Range>) {
    Separated(rs) && AllAligned(rs)
  }

  // -------- the operations

  /** The first entry that contains both addresses, the length of the list if none does. */
  function FirstHolding(rs: seq<Range>, start: u32, end: u32): (i: nat)
    ensures i <= |rs|
    ensures i < |rs| ==> rs[i].start <= start && end <= rs[i].end
    ensures forall k :: 0 <= k < i ==> !(rs[k].start <= start && end <= rs[k].end)
  {
    if rs == [] || (rs[0].start <= start && end <= rs[0].end) then 0
    else 1 + FirstHolding(rs[1..], start, end)
  }

  /** The list without the range that entry `i` contains. */
  function Carve(rs: seq<Range>, i: nat, start: u32, size: u32, end: u32): seq<Range>
    requires i < |rs|
  {
    var r := rs[i];
    if start == r.start && end == r.end then rs[..i] + rs[i + 1..]
    else if start == r.start then rs[..i] + [Range(U32(r.start + size), r.end)] + rs[i + 1..]
    else if end == r.end then rs[..i] + [Range(r.start, U32(r.end - size))] + rs[i + 1..]
    else rs[..i] + [Range(r.start, U32(start - 1)), Range(U32(start + size), r.end)] + rs[i + 1..]
  }

  function Allocate(rs: seq<Range>, address: u32, bytes: u32): Option<seq<Range>> {
    if bytes == 0 then None
    else
      var start, size := AlignPage(address), AlignPage(bytes);
      var end := LastOf(start, size);
      var i := FirstHolding(rs, start, end);
      if i == |rs| then None else Some(Carve(rs, i, start, size, end))
  }

  predicate Touches(r: Range, start: u32, size: u32) {
    r.start == U32(start + size) || U32(r.end + 1) == start
  }

  /** The first entry the range is adjacent to, the length of the list if there is none. */
  function FirstTouching(rs: seq<Range>, start: u32, size: u32): (i: nat)
    ensures i <= |rs|
    ensures i < |rs| ==> Touches(rs[i], start, size)
    ensures forall k :: 0 <= k < i ==> !Touches(rs[k], start, size)
  {
    if rs == [] || Touches(rs[0], start, size) then 0 else 1 + FirstTouching(rs[1..], start, size)
  }

  /** The first entry that starts after the address: where a new entry is inserted. */
  function InsertAt(rs: seq<Range>, start: u32): (i: nat)
    ensures i <= |rs|
    ensures i < |rs| ==> start < rs[i].start
    ensures forall k :: 0 <= k < i ==> rs[k].start <= start
  {
    if rs == [] || start < rs[0].start then 0 else 1 + InsertAt(rs[1..], start)
  }

  /** Entry `i` grown backward, merged with the entry before it if they now meet. */
  function GrowBack(rs: seq<Range>, i: nat, size: u32): seq<Range>
    requires i < |rs|
  {
    var start := U32(rs[i].start - size);
    if i > 0 && U32(rs[i - 1].end + 1) == start then
      rs[..i - 1] + [Range(rs[i - 1].start, rs[i].end)] + rs[i + 1..]
    else rs[..i] + [Range(start, rs[i].end)] + rs[i + 1..]
  }

  /** Entry `i` grown forward, merged with the entry after it if they now meet. */
  function GrowForward(rs: seq<Range>, i: nat, size: u32): seq<Range>
    requires i < |rs|
  {
    var end := U32(rs[i].end + size);
    if i + 1 < |rs| && rs[i + 1].start == U32(end + 1) then
      rs[..i] + [Range(rs[i].start, rs[i + 1].end)] + rs[i + 2..]
    else rs[..i] + [Range(rs[i].start, end)] + rs[i + 1..]
  }

  function PutBack(rs: seq<Range>, start: u32, size: u32): seq<Range> {
    var i := FirstTouching(rs, start, size);
    if i == |rs| then
      var k := InsertAt(rs, start);
      rs[..k] + [Range(start, LastOf(start, size))] + rs[k..]
    else if rs[i].start == U32(start + size) then GrowBack(rs, i, size)
    else GrowForward(rs, i, size)
  }

  function Free(rs: seq<Range>, address: u32, bytes: u32): seq<Range> {
    var start, size := AlignPage(address), AlignPage(bytes);
    if FirstHolding(rs, start, LastOf(start, size)) < |rs| then rs else PutBack(rs, start, size)
  }
}
