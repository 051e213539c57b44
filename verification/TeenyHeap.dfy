/** A first-fit heap over one buffer, kept as a list of free blocks and a map of allocated blocks. */
module TeenyHeap {
  import opened Machine
  import opened Rounding
  import opened Wrappers

  datatype Block = Block(start: nat, size: nat)

  datatype Heap = Heap(buffer: nat, size: nat, free: seq<Block>, used: map<nat, Block>)

  /** A remainder no longer than this goes to the allocation it was left by: sizeof(MemoryBlock) + 4. */
  const SMALL: nat := 20

  // -------- the operations

  function Pad(start: nat, align: nat): nat
    requires align > 0
  {
    RoundUpLeast(start, align, 0);
    RoundUp(start, align) - start
  }

  /** The test of the search, in `size_t` arithmetic. */
  predicate Accepts(b: Block, size: nat, align: nat)
    requires align > 0
  {
    U64(b.size - Pad(b.start, align)) >= size
  }

  function FirstFit(free: seq<Block>, size: nat, align: nat): (i: nat)
    requires align > 0
    ensures i <= |free|
    ensures i < |free| ==> Accepts(free[i], size, align)
    ensures forall k :: 0 <= k < i ==> !Accepts(free[k], size, align)
  {
    if free == [] || Accepts(free[0], size, align) then 0 else 1 + FirstFit(free[1..], size, align)
  }

  /** `emplace` leaves an entry that is already there alone. */
  function Emplace(used: map<nat, Block>, p: nat, b: Block): map<nat, Block> {
    if p in used then used else used[p := b]
  }

  /** The heap after an allocation and the pointer it returns. */
  function Alloc(h: Heap, size: nat, align: nat): Option<(Heap, nat)>
    requires align > 0
  {
    var i := FirstFit(h.free, size, align);
    if i == |h.free| then None
    else
      var b := h.free[i];
      var taken := U64(size + Pad(b.start, align));
      var rest := Block(U64(b.start + taken), U64(b.size - taken));
      var p := RoundUp(b.start, align);
      if rest.size <= SMALL then
        Some((h.(free := h.free[..i] + h.free[i + 1..], used := Emplace(h.used, p, Block(b.start, U64(taken + rest.size)))), p))
      else
        Some((h.(free := h.free[..i] + [rest] + h.free[i + 1..], used := Emplace(h.used, p, Block(b.start, taken))), p))
  }

  predicate Touching(f: Block, b: Block) {
    b.start == f.start + f.size || b.start + b.size == f.start
  }

  function FirstTouching(free: seq<Block>, b: Block): (i: nat)
    ensures i <= |free|
    ensures i < |free| ==> Touching(free[i], b)
    ensures forall k :: 0 <= k < i ==> !Touching(free[k], b)
  {
    if free == [] || Touching(free[0], b) then 0 else 1 + FirstTouching(free[1..], b)
  }

  function Joined(f: Block, b: Block): Block {
    if b.start == f.start + f.size then Block(f.start, f.size + b.size) else Block(b.start, f.size + b.size)
  }

  /** The block joins the first free block it touches, on that side only. */
  function Release(free: seq<Block>, b: Block): seq<Block> {
    var i := FirstTouching(free, b);
    if i < |free| then free[..i] + [Joined(free[i], b)] + free[i + 1..] else free + [b]
  }

  function Free(h: Heap, p: nat): Option<Heap> {
    if p !in h.used then None else Some(h.(free := Release(h.free, h.used[p]), used := h.used - {p}))
  }

  // -------- the partition

  predicate In(b: Block, a: int) {
    b.start <= a < b.start + b.size
  }

  function One(b: Block, a: int): nat {
    if In(b, a) then 1 else 0
  }

  /** How many free blocks hold an address. */
  function FreeCount(free: seq<Block>, a: int): nat {
    if free == [] then 0 else One(free[0], a) + FreeCount(free[1..], a)
  }

  /** The allocated blocks that hold an address. */
  function UsedAt(used: map<nat, Block>, a: int): set<nat> {
    set p | p in used && In(used[p], a)
  }

  /** Every byte of the buffer is in exactly one block, and no block holds anything else. */
  ghost predicate Partition(h: Heap) {
    forall a :: FreeCount(h.free, a) + |UsedAt(h.used, a)| == if h.buffer <= a < h.buffer + h.size then 1 else 0
  }

  /** Every returned pointer lies in the block it stands for. */
  predicate Keyed(h: Heap) {
    forall p :: p in h.used ==> In(h.used[p], p)
  }

  ghost predicate Valid(h: Heap) {
    h.buffer + h.size < TWO64 && Partition(h) && Keyed(h)
  }

  lemma {:induction false} FreeCountAppend(x: seq<Block>, y: seq<Block>, a: int)
    ensures FreeCount(x + y, a) == FreeCount(x, a) + FreeCount(y, a)
    decreases |x|
  {
    hide One;
    if x == [] {
      assert x + y == y;
    } else {
      assert (x + y)[0] == x[0] && (x + y)[1..] == x[1..] + y;
      FreeCountAppend(x[1..], y, a);
    }
  }

  /** Replacing one free block. */
  lemma FreeCountReplace(free: seq<Block>, i: nat, mid: seq<Block>, a: int)
    requires i < |free|
    ensures FreeCount(free[..i] + mid + free[i + 1..], a) + One(free[i], a) == FreeCount(free, a) + FreeCount(mid, a)
  {
    hide FreeCount;
    FreeCountAppend(free[..i] + mid, free[i + 1..], a);
    FreeCountAppend(free[..i], mid, a);
    FreeCountAppend(free[..i] + [free[i]], free[i + 1..], a);
    FreeCountAppend(free[..i], [free[i]], a);
    assert free == free[..i] + [free[i]] + free[i + 1..];
    CountOne(free[i], a);
  }

  lemma CountOne(b: Block, a: int)
    ensures FreeCount([b], a) == One(b, a) && FreeCount([], a) == 0
  {
    assert [b][1..] == [];
  }

  lemma UsedAdd(used: map<nat, Block>, p: nat, b: Block, a: int)
    requires p !in used
    ensures |UsedAt(used[p := b], a)| == |UsedAt(used, a)| + One(b, a)
  {
    if In(b, a) {
      assert UsedAt(used[p := b], a) == UsedAt(used, a) + {p};
    } else {
      assert UsedAt(used[p := b], a) == UsedAt(used, a);
    }
  }

  lemma UsedDrop(used: map<nat, Block>, p: nat, a: int)
    requires p in used
    ensures |UsedAt(used, a)| == |UsedAt(used - {p}, a)| + One(used[p], a)
  {
    UsedAdd(used - {p}, p, used[p], a);
    assert (used - {p})[p := used[p]] == used;
  }

  /** A free block lies in the buffer, and none of it is allocated. */
  lemma FreeInside(h: Heap, i: nat, a: int)
    requires Partition(h) && i < |h.free| && In(h.free[i], a)
    ensures h.buffer <= a < h.buffer + h.size && UsedAt(h.used, a) == {}
  {
    hide UsedAt, FreeCount;
    FreeCountReplace(h.free, i, [], a);
    CountOne(h.free[i], a);
    assert FreeCount(h.free, a) + |UsedAt(h.used, a)| == if h.buffer <= a < h.buffer + h.size then 1 else 0;
  }
}
