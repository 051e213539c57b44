/** What allocation and release keep, when, and what they return. */
module TeenyHeapLaws {
  import opened Machine
  import opened Rounding
  import opened TeenyHeap
  import opened Wrappers

  // -------- allocation

  /** The entry an allocation takes from. */
  function Chosen(h: Heap, size: nat, align: nat): Block
    requires align > 0 && FirstFit(h.free, size, align) < |h.free|
  {
    h.free[FirstFit(h.free, size, align)]
  }

  lemma BlockInside(h: Heap, i: nat)
    requires Valid(h) && i < |h.free| && h.free[i].size > 0
    ensures h.buffer <= h.free[i].start && h.free[i].start + h.free[i].size <= h.buffer + h.size
  {
    hide Partition;
    var b := h.free[i];
    FreeInside(h, i, b.start);
    FreeInside(h, i, b.start + b.size - 1);
  }

  /** Which bytes an accepted block gives up: everything fits when the padding does. */
  lemma Splits(h: Heap, i: nat, size: nat, align: nat)
    requires Valid(h) && align > 0 && i < |h.free| && Accepts(h.free[i], size, align)
    requires Pad(h.free[i].start, align) <= h.free[i].size && h.free[i].size > 0
    ensures var b := h.free[i];
            var taken := size + Pad(b.start, align);
            && taken <= b.size && U64(taken) == taken
            && U64(b.start + taken) == b.start + taken && U64(b.size - taken) == b.size - taken
            && U64(taken + (b.size - taken)) == b.size
  {
    hide Partition, Pad;
    var b := h.free[i];
    BlockSmall(h, i);
    U64Id(b.size - Pad(b.start, align));
    var taken := size + Pad(b.start, align);
    BlockInside(h, i);
    U64Id(taken);
    U64Id(b.start + taken);
    U64Id(b.size - taken);
    U64Id(b.size);
  }

  lemma BlockSmall(h: Heap, i: nat)
    requires Valid(h) && i < |h.free|
    ensures h.free[i].size < TWO64
  {
    hide Partition;
    if h.free[i].size > 0 {
      BlockInside(h, i);
    }
  }

  /** A pointer into a free block is not an allocated pointer. */
  lemma NewPointer(h: Heap, i: nat, p: nat)
    requires Valid(h) && i < |h.free| && In(h.free[i], p)
    ensures p !in h.used
  {
    hide Partition;
    assert p in h.used ==> p in UsedAt(h.used, p);
    FreeInside(h, i, p);
  }

  /** Taking a block out of a free one leaves the partition as it was. */
  lemma TakePartition(h: Heap, h': Heap, i: nat, mid: seq<Block>, p: nat, b: Block)
    requires Partition(h) && i < |h.free| && p !in h.used
    requires h' == h.(free := h.free[..i] + mid + h.free[i + 1..], used := h.used[p := b])
    requires forall a :: One(h.free[i], a) == FreeCount(mid, a) + One(b, a)
    ensures Partition(h')
  {
    hide UsedAt, FreeCount, One;
    forall a ensures FreeCount(h'.free, a) + |UsedAt(h'.used, a)| == if h.buffer <= a < h.buffer + h.size then 1 else 0 {
      FreeCountReplace(h.free, i, mid, a);
      UsedAdd(h.used, p, b, a);
      assert One(h.free[i], a) == FreeCount(mid, a) + One(b, a);
    }
  }

  /** The block is as long as its padding; for an empty allocation, longer by at most a small remainder. */
  predicate Roomy(b: Block, size: nat, align: nat)
    requires align > 0
  {
    if size > 0 then Pad(b.start, align) <= b.size
    else Pad(b.start, align) < b.size <= Pad(b.start, align) + SMALL
  }

  lemma RoomyHolds(h: Heap, i: nat, size: nat, align: nat)
    requires Valid(h) && align > 0 && i < |h.free| && Accepts(h.free[i], size, align) && Roomy(h.free[i], size, align)
    ensures h.free[i].size >= Pad(h.free[i].start, align) + size && h.free[i].size > 0
    ensures size == 0 ==> h.free[i].size - Pad(h.free[i].start, align) <= SMALL
  {
    hide Partition, Pad;
    BlockSmall(h, i);
    U64Id(h.free[i].size - Pad(h.free[i].start, align));
  }

  /**
   * An allocation returns an aligned pointer to `size` bytes of a new block, all of which were free, and
   * changes no other allocation; free and allocated blocks still partition the buffer.
   */
  lemma AllocKeeps(h: Heap, size: nat, align: nat)
    requires Valid(h) && PowerOfTwo(align) && align > 0
    requires FirstFit(h.free, size, align) < |h.free| && Roomy(Chosen(h, size, align), size, align)
    ensures var (h', p) := Alloc(h, size, align).value;
            var b := Chosen(h, size, align);
            && Valid(h') && p % align == 0 && p !in h.used
            && h'.used.Keys == h.used.Keys + {p} && (forall q :: q in h.used ==> h'.used[q] == h.used[q])
            && h'.used[p].start == b.start <= p && p + size <= b.start + h'.used[p].size
            && (forall a :: In(h'.used[p], a) ==> In(b, a))
  {
    hide Partition, PowerOfTwo, FirstFit, U64, RoundUp;
    var i, b := FirstFit(h.free, size, align), Chosen(h, size, align);
    RoomyHolds(h, i, size, align);
    Splits(h, i, size, align);
    RoundUpLeast(b.start, align, 0);
    var taken, p := size + Pad(b.start, align), RoundUp(b.start, align);
    NewPointer(h, i, p);
    var (h', q) := Alloc(h, size, align).value;
    var left := b.size - taken;
    if left <= SMALL {
      WholeTaken(b);
      assert h.free[..i] + [] + h.free[i + 1..] == h.free[..i] + h.free[i + 1..];
      TakePartition(h, h', i, [], p, Block(b.start, b.size));
    } else {
      PartTaken(b, taken);
      TakePartition(h, h', i, [Block(b.start + taken, left)], p, Block(b.start, taken));
    }
  }

  lemma WholeTaken(b: Block)
    ensures forall a :: One(b, a) == FreeCount([], a) + One(Block(b.start, b.size), a)
  {
  }

  lemma PartTaken(b: Block, taken: nat)
    requires taken <= b.size
    ensures var rest := [Block(b.start + taken, b.size - taken)];
            forall a :: One(b, a) == FreeCount(rest, a) + One(Block(b.start, taken), a)
  {
    var rest := Block(b.start + taken, b.size - taken);
    forall a ensures One(b, a) == FreeCount([rest], a) + One(Block(b.start, taken), a) {
      CountOne(rest, a);
    }
  }

  /** Nothing fits exactly when the search finds nothing, as long as no block is shorter than its padding. */
  lemma AllocFailsIff(h: Heap, size: nat, align: nat)
    requires Valid(h) && align > 0
    requires forall i :: 0 <= i < |h.free| ==> Pad(h.free[i].start, align) <= h.free[i].size
    ensures Alloc(h, size, align).None?
       <==> forall i :: 0 <= i < |h.free| ==> h.free[i].size < Pad(h.free[i].start, align) + size
  {
    hide Partition, Pad, FirstFit;
    forall i | 0 <= i < |h.free|
      ensures Accepts(h.free[i], size, align) <==> h.free[i].size >= Pad(h.free[i].start, align) + size
    {
      BlockSmall(h, i);
      U64Id(h.free[i].size - Pad(h.free[i].start, align));
    }
  }

  /** A block shorter than its padding is accepted by wrapping, and the heap is broken from then on. */
  lemma ShortBlockBreaks(h: Heap, size: nat, align: nat)
    requires Valid(h) && align > 0 && FirstFit(h.free, size, align) < |h.free|
    requires Chosen(h, size, align).size < Pad(Chosen(h, size, align).start, align)
    requires Chosen(h, size, align).start + Pad(Chosen(h, size, align).start, align) + size + SMALL < TWO64
    ensures !Valid(Alloc(h, size, align).value.0)
  {
    hide Pad, FirstFit, RoundUp;
    var i, b := FirstFit(h.free, size, align), Chosen(h, size, align);
    var taken := size + Pad(b.start, align);
    U64Id(taken);
    U64Id(b.start + taken);
    var over := b.size - taken;
    assert U64(over) == TWO64 + over;
    var rest := Block(b.start + taken, TWO64 + over);
    var h' := Alloc(h, size, align).value.0;
    assert h'.free == h.free[..i] + [rest] + h.free[i + 1..];
    assert h'.free[i] == rest;
    if Valid(h') {
      BlockInside(h', i);
    }
  }

  /** The search for no bytes takes the first block, whatever it is. */
  lemma EmptyTakesFirst(h: Heap, align: nat)
    requires align > 0 && h.free != []
    ensures FirstFit(h.free, 0, align) == 0
  {
    assert Accepts(h.free[0], 0, align);
  }

  /** An empty allocation from a block that is all padding is recorded outside its block, or loses the block. */
  lemma AllPaddingBreaks(h: Heap, align: nat)
    requires Valid(h) && PowerOfTwo(align) && align > 0 && h.free != [] && h.free[0].size > 0
    requires Pad(h.free[0].start, align) == h.free[0].size
    ensures !Valid(Alloc(h, 0, align).value.0)
  {
    hide Partition, PowerOfTwo, FirstFit, U64, RoundUp, Accepts, FreeCount, UsedAt;
    EmptyTakesFirst(h, align);
    var b := h.free[0];
    Splits(h, 0, 0, align);
    RoundUpLeast(b.start, align, 0);
    var (h', p) := Alloc(h, 0, align).value;
    assert p == b.start + b.size;
    if p in h.used {
      assert h'.free == h.free[..0] + [] + h.free[1..] && h'.used == h.used;
      FreeCountReplace(h.free, 0, [], b.start);
      CountOne(b, b.start);
      if Valid(h') {
        SameCount(h, h', b.start);
      }
    } else {
      assert !In(h'.used[p], p);
    }
  }

  /** An empty allocation from a block with more than a small remainder is recorded as an empty block. */
  lemma LargeRestBreaks(h: Heap, align: nat)
    requires Valid(h) && PowerOfTwo(align) && align > 0 && h.free != []
    requires Pad(h.free[0].start, align) + SMALL < h.free[0].size
    ensures !Valid(Alloc(h, 0, align).value.0)
  {
    hide Partition, PowerOfTwo, FirstFit, U64, RoundUp, Accepts, FreeCount, UsedAt;
    EmptyTakesFirst(h, align);
    var b := h.free[0];
    Splits(h, 0, 0, align);
    RoundUpLeast(b.start, align, 0);
    var (h', p) := Alloc(h, 0, align).value;
    NewPointer(h, 0, p);
    assert !In(h'.used[p], p);
  }

  lemma SameCount(h: Heap, h': Heap, a: int)
    requires Partition(h) && Partition(h') && h.buffer == h'.buffer && h.size == h'.size && h.used == h'.used
    ensures FreeCount(h.free, a) == FreeCount(h'.free, a)
  {
    hide UsedAt, FreeCount;
    assert FreeCount(h.free, a) + |UsedAt(h.used, a)| == if h.buffer <= a < h.buffer + h.size then 1 else 0;
    assert FreeCount(h'.free, a) + |UsedAt(h'.used, a)| == if h.buffer <= a < h.buffer + h.size then 1 else 0;
  }

  /** An empty allocation from an empty free block drops that block, and records the pointer unless it is known. */
  lemma EmptyFromEmpty(h: Heap, align: nat)
    requires Valid(h) && PowerOfTwo(align) && align > 0 && h.free != [] && h.free[0] == Block(h.free[0].start, 0)
    requires Pad(h.free[0].start, align) == 0
    ensures var (h', p) := Alloc(h, 0, align).value;
            p == h.free[0].start && h'.free == h.free[1..] && h'.used == Emplace(h.used, p, Block(p, 0))
    ensures Valid(Alloc(h, 0, align).value.0) <==> h.free[0].start in h.used
    ensures Alloc(h, 0, align).value.0 == h.(free := h.free[1..], used := Alloc(h, 0, align).value.0.used)
  {
    hide Partition, PowerOfTwo, FirstFit, RoundUp;
    EmptyTakesFirst(h, align);
    var b := h.free[0];
    U64Id(0);
    var (h', p) := Alloc(h, 0, align).value;
    assert h.free[..0] + h.free[1..] == h.free[1..];
    if p in h.used {
      DropEmpty(h, h');
    } else {
      assert !In(h'.used[p], p);
    }
  }

  lemma DropEmpty(h: Heap, h': Heap)
    requires Valid(h) && h.free != [] && h.free[0].size == 0 && h' == h.(free := h.free[1..])
    ensures Valid(h')
  {
    forall a ensures FreeCount(h'.free, a) + |UsedAt(h'.used, a)| == if h.buffer <= a < h.buffer + h.size then 1 else 0 {
      assert FreeCount(h.free, a) == FreeCount(h'.free, a);
    }
  }

  /** When an allocation that finds a block keeps the heap valid. */
  predicate Sound(h: Heap, size: nat, align: nat)
    requires align > 0 && FirstFit(h.free, size, align) < |h.free|
  {
    var b := Chosen(h, size, align);
    if size == 0 && b.size == 0 && Pad(b.start, align) == 0 then b.start in h.used else Roomy(b, size, align)
  }

  /** An allocation that finds a block keeps the heap valid exactly when it is sound; empty ones are included. */
  lemma AllocIff(h: Heap, size: nat, align: nat)
    requires Valid(h) && PowerOfTwo(align) && align > 0 && FirstFit(h.free, size, align) < |h.free|
    requires var b := Chosen(h, size, align);
             b.size < Pad(b.start, align) ==> b.start + Pad(b.start, align) + size + SMALL < TWO64
    ensures Valid(Alloc(h, size, align).value.0) <==> Sound(h, size, align)
  {
    hide Valid, PowerOfTwo, FirstFit, Pad, Alloc;
    var b := Chosen(h, size, align);
    if size == 0 {
      EmptyTakesFirst(h, align);
    }
    if size == 0 && b.size == 0 && Pad(b.start, align) == 0 {
      EmptyFromEmpty(h, align);
    } else if Roomy(b, size, align) {
      AllocKeeps(h, size, align);
    } else if b.size < Pad(b.start, align) {
      ShortBlockBreaks(h, size, align);
    } else {
      if Pad(b.start, align) == b.size {
        AllPaddingBreaks(h, align);
      } else {
        LargeRestBreaks(h, align);
      }
    }
  }

  lemma AllocFromOne(h: Heap, b: Block, size: nat)
    requires h.free == [b] && b.start + b.size < TWO64 && size + SMALL < b.size
    ensures Alloc(h, size, 1)
         == Some((h.(free := [Block(b.start + size, b.size - size)], used := Emplace(h.used, b.start, Block(b.start, size))),
                  b.start))
  {
    hide FirstFit, Emplace;
    assert RoundUp(b.start, 1) == b.start;
    hide RoundUp;
    U64Id(b.size);
    U64Id(size);
    U64Id(b.start + size);
    U64Id(b.size - size);
    assert Pad(b.start, 1) == 0 && Accepts(h.free[0], size, 1);
    assert FirstFit(h.free, size, 1) == 0;
    var rest := Block(b.start + size, b.size - size);
    assert h.free[..0] + [rest] + h.free[1..] == [rest];
  }

  /** After an allocation of no bytes, the next allocation from the same block is never recorded. */
  lemma EmptyAllocLoses(h: Heap, b: Block, size: nat)
    requires h.free == [b] && b.start + b.size < TWO64 && 0 < size && size + SMALL < b.size
    ensures Alloc(h, 0, 1).Some? && Alloc(Alloc(h, 0, 1).value.0, size, 1).Some?
    ensures var (h1, p) := Alloc(h, 0, 1).value;
            var (h2, q) := Alloc(h1, size, 1).value;
            p == q == b.start && h2.used == h1.used && h2.free == [Block(b.start + size, b.size - size)]
  {
    hide Alloc;
    AllocFromOne(h, b, 0);
    AllocFromOne(Alloc(h, 0, 1).value.0, b, size);
  }

  // -------- release

  lemma JoinedCounts(f: Block, b: Block, a: int)
    requires Touching(f, b) && !(In(f, a) && In(b, a))
    ensures One(Joined(f, b), a) == One(f, a) + One(b, a)
  {
  }

  /** Free and allocated blocks do not overlap. */
  lemma UsedApart(h: Heap, i: nat, p: nat, a: int)
    requires Partition(h) && i < |h.free| && p in h.used
    ensures !(In(h.free[i], a) && In(h.used[p], a))
  {
    hide Partition;
    assert In(h.used[p], a) ==> p in UsedAt(h.used, a);
    if In(h.free[i], a) {
      FreeInside(h, i, a);
    }
  }

  /** Freeing an allocated pointer keeps the partition and every other allocation. */
  lemma FreeKeeps(h: Heap, p: nat)
    requires Valid(h) && p in h.used
    ensures Valid(Free(h, p).value) && Free(h, p).value.used == h.used - {p}
  {
    hide FirstTouching, UsedAt, FreeCount;
    var b, h' := h.used[p], Free(h, p).value;
    var i := FirstTouching(h.free, b);
    forall a ensures FreeCount(h'.free, a) + |UsedAt(h'.used, a)| == if h.buffer <= a < h.buffer + h.size then 1 else 0 {
      UsedDrop(h.used, p, a);
      if i < |h.free| {
        FreeCountReplace(h.free, i, [Joined(h.free[i], b)], a);
        CountOne(Joined(h.free[i], b), a);
        UsedApart(h, i, p, a);
        JoinedCounts(h.free[i], b, a);
      } else {
        FreeCountAppend(h.free, [b], a);
        CountOne(b, a);
      }
    }
  }

  // -------- what exactly an allocation and a release leave

  /** The block can hold the padding and the bytes. */
  predicate Holds(b: Block, size: nat, align: nat)
    requires align > 0
  {
    b.size >= Pad(b.start, align) + size
  }

  /**
   * The first block that can hold padding and bytes is taken from its start; what is left stays in its place, unless
   * that is 20 bytes or less, which go to the allocation. The pointer is the first aligned address of the block.
   */
  lemma AllocTakes(h: Heap, size: nat, align: nat, i: nat)
    requires Valid(h) && PowerOfTwo(align) && align > 0 && 0 < size && i < |h.free| && Holds(h.free[i], size, align)
    requires forall k :: 0 <= k < i ==> !Holds(h.free[k], size, align) && Pad(h.free[k].start, align) <= h.free[k].size
    ensures Alloc(h, size, align).Some?
    ensures var (h', p) := Alloc(h, size, align).value;
            var b := h.free[i];
            var left := b.size - (p - b.start) - size;
            && b.start <= p && p % align == 0 && (forall q: nat :: b.start <= q < p ==> q % align != 0)
            && p !in h.used && h'.buffer == h.buffer && h'.size == h.size
            && (if left <= 20 then h'.free == h.free[..i] + h.free[i + 1..] && h'.used == h.used[p := b]
                else h'.free == h.free[i := Block(p + size, left)] && h'.used == h.used[p := Block(b.start, p + size - b.start)])
  {
    hide Partition, PowerOfTwo, FirstFit, U64, RoundUp;
    forall k | 0 <= k <= i ensures Accepts(h.free[k], size, align) <==> Holds(h.free[k], size, align) {
      AcceptsIff(h, k, size, align);
    }
    assert FirstFit(h.free, size, align) == i;
    var b := h.free[i];
    Splits(h, i, size, align);
    var p := RoundUp(b.start, align);
    RoundUpLeast(b.start, align, 0);
    forall q: nat | b.start <= q < p ensures q % align != 0 {
      RoundUpLeast(b.start, align, q);
    }
    NewPointer(h, i, p);
    assert h.free[..i] + [Block(p + size, b.size - (p - b.start) - size)] + h.free[i + 1..]
        == h.free[i := Block(p + size, b.size - (p - b.start) - size)];
  }

  lemma AcceptsIff(h: Heap, k: nat, size: nat, align: nat)
    requires Valid(h) && align > 0 && k < |h.free| && Pad(h.free[k].start, align) <= h.free[k].size
    ensures Accepts(h.free[k], size, align) <==> Holds(h.free[k], size, align)
  {
    hide Partition, Pad;
    BlockSmall(h, k);
    U64Id(h.free[k].size - Pad(h.free[k].start, align));
  }

  /** A free block that ends where the freed one starts, or starts where it ends. */
  predicate Adjacent(f: Block, b: Block) {
    f.start + f.size == b.start || b.start + b.size == f.start
  }

  /** Both blocks as one. */
  function Together(f: Block, b: Block): Block {
    Block(if f.start < b.start then f.start else b.start, f.size + b.size)
  }

  /**
   * A freed block becomes one with the first free block it is adjacent to, in that block's place, and the list gets no
   * longer; without one it is added at the end.
   */
  lemma FreeMerges(h: Heap, p: nat)
    requires Valid(h) && p in h.used
    ensures var b, after := h.used[p], Free(h, p).value.free;
            && (forall i :: 0 <= i < |h.free| && Adjacent(h.free[i], b) && (forall k :: 0 <= k < i ==> !Adjacent(h.free[k], b)) ==>
                  after == h.free[i := Together(h.free[i], b)])
            && ((forall i :: 0 <= i < |h.free| ==> !Adjacent(h.free[i], b)) ==> after == h.free + [b])
            && (|after| == |h.free| || |after| == |h.free| + 1)
            && (|after| == |h.free| <==> exists i :: 0 <= i < |h.free| && Adjacent(h.free[i], b))
  {
    hide FirstTouching, Partition;
    var b := h.used[p];
    var j := FirstTouching(h.free, b);
    assert forall k :: 0 <= k < |h.free| ==> (Touching(h.free[k], b) <==> Adjacent(h.free[k], b));
    if j < |h.free| {
      assert Adjacent(h.free[j], b);
      assert Joined(h.free[j], b) == Together(h.free[j], b) by { assert b.size > 0; }
      assert h.free[..j] + [Joined(h.free[j], b)] + h.free[j + 1..] == h.free[j := Joined(h.free[j], b)];
    }
  }

  /** Every byte of both blocks, and no other, is in the merged one. */
  lemma TogetherHolds(f: Block, b: Block, a: int)
    requires Adjacent(f, b)
    ensures In(Together(f, b), a) <==> In(f, a) || In(b, a)
  {
  }

  lemma AcceptedAllocates(h: Heap, i: nat, size: nat, align: nat)
    requires align > 0 && i < |h.free| && Accepts(h.free[i], size, align)
    ensures Alloc(h, size, align).Some?
  {
    hide Accepts, Pad;
  }

  /** The free block that a release leaves in the place of the first neighbour. */
  lemma MergedAt(h: Heap, p: nat, i: nat)
    requires Valid(h) && p in h.used && i < |h.free| && Adjacent(h.free[i], h.used[p])
    requires forall k :: 0 <= k < i ==> !Adjacent(h.free[k], h.used[p])
    ensures i < |Free(h, p).value.free| && Free(h, p).value.free[i] == Together(h.free[i], h.used[p])
  {
    hide Valid, Free, Adjacent, Together;
    FreeMerges(h, p);
  }

  /** So an allocation that fits the freed block and its first neighbour together succeeds. */
  lemma FreedIsUsable(h: Heap, p: nat, i: nat, size: nat, align: nat)
    requires Valid(h) && p in h.used && align > 0 && i < |h.free| && Adjacent(h.free[i], h.used[p])
    requires forall k :: 0 <= k < i ==> !Adjacent(h.free[k], h.used[p])
    requires Holds(Together(h.free[i], h.used[p]), size, align)
    ensures Alloc(Free(h, p).value, size, align).Some?
  {
    hide Adjacent, Pad, Valid, Together, Alloc, Accepts, Release;
    MergedAt(h, p, i);
    FreeKeeps(h, p);
    AcceptsIff(Free(h, p).value, i, size, align);
    AcceptedAllocates(Free(h, p).value, i, size, align);
  }

  /** Two allocations that fill a heap, freed again in either order, leave it whole. */
  lemma FreedBothWays(h: Heap, p: nat, q: nat, firstFreed: nat)
    requires Valid(h) && h.free == [] && p != q && h.used.Keys == {p, q} && h.used[p].start + h.used[p].size == h.used[q].start
    requires firstFreed == p || firstFreed == q
    ensures Free(h, firstFreed).Some?
    ensures var second := if firstFreed == p then q else p;
            var h1 := Free(h, firstFreed).value;
            Free(h1, second).Some? && Free(h1, second).value.free == [Together(h.used[p], h.used[q])]
  {
    hide Partition;
    var second := if firstFreed == p then q else p;
    FreeMerges(h, firstFreed);
    FreeKeeps(h, firstFreed);
    var h1 := Free(h, firstFreed).value;
    assert h1.free == [h.used[firstFreed]];
    assert h1.used == h.used - {firstFreed} && second in h1.used;
    FreeMerges(h1, second);
    assert Adjacent(h1.free[0], h1.used[second]);
  }

  // -------- sizes

  function TotalFree(free: seq<Block>): nat {
    if free == [] then 0 else free[0].size + TotalFree(free[1..])
  }

  ghost function TotalUsed(used: map<nat, Block>): nat
    decreases used.Keys
  {
    if used == map[] then 0
    else
      var p :| p in used;
      assert (used - {p}).Keys < used.Keys;
      used[p].size + TotalUsed(used - {p})
  }

  lemma {:induction false} TotalUsedAny(used: map<nat, Block>, p: nat)
    requires p in used
    ensures TotalUsed(used) == used[p].size + TotalUsed(used - {p})
    decreases used.Keys
  {
    var q :| q in used && TotalUsed(used) == used[q].size + TotalUsed(used - {q});
    if q != p {
      assert (used - {q}).Keys < used.Keys && (used - {p}).Keys < used.Keys;
      TotalUsedAny(used - {q}, p);
      TotalUsedAny(used - {p}, q);
      assert used - {q} - {p} == used - {p} - {q};
    }
  }

  lemma {:induction false} TotalFreeAppend(x: seq<Block>, y: seq<Block>)
    ensures TotalFree(x + y) == TotalFree(x) + TotalFree(y)
    decreases |x|
  {
    if x == [] {
      assert x + y == y;
    } else {
      assert (x + y)[0] == x[0] && (x + y)[1..] == x[1..] + y;
      TotalFreeAppend(x[1..], y);
    }
  }

  lemma TotalFreeReplace(free: seq<Block>, i: nat, mid: seq<Block>)
    requires i < |free|
    ensures TotalFree(free[..i] + mid + free[i + 1..]) + free[i].size == TotalFree(free) + TotalFree(mid)
  {
    hide TotalFree;
    TotalFreeAppend(free[..i] + mid, free[i + 1..]);
    TotalFreeAppend(free[..i], mid);
    TotalFreeAppend(free[..i] + [free[i]], free[i + 1..]);
    TotalFreeAppend(free[..i], [free[i]]);
    assert free == free[..i] + [free[i]] + free[i + 1..];
    TotalOne(free[i]);
  }

  lemma TotalOne(b: Block)
    ensures TotalFree([b]) == b.size && TotalFree([]) == 0
  {
  }

  ghost predicate Conserved(h: Heap) {
    TotalFree(h.free) + TotalUsed(h.used) == h.size
  }

  /** No byte is lost or made up by a sound allocation, small remainders included. */
  lemma AllocConserves(h: Heap, size: nat, align: nat)
    requires Valid(h) && Conserved(h) && PowerOfTwo(align) && align > 0
    requires FirstFit(h.free, size, align) < |h.free| && Sound(h, size, align)
    ensures Conserved(Alloc(h, size, align).value.0)
  {
    hide Valid, PowerOfTwo, FirstFit, Alloc, Pad;
    var b := Chosen(h, size, align);
    if Roomy(b, size, align) {
      RoomyConserves(h, size, align);
    } else {
      EmptyTakesFirst(h, align);
      EmptyFromEmpty(h, align);
    }
  }

  lemma RoomyConserves(h: Heap, size: nat, align: nat)
    requires Valid(h) && Conserved(h) && PowerOfTwo(align) && align > 0
    requires FirstFit(h.free, size, align) < |h.free| && Roomy(Chosen(h, size, align), size, align)
    ensures Conserved(Alloc(h, size, align).value.0)
  {
    hide Partition, PowerOfTwo, FirstFit, U64, RoundUp, TotalFree, Accepts;
    var i, b := FirstFit(h.free, size, align), Chosen(h, size, align);
    RoomyHolds(h, i, size, align);
    Splits(h, i, size, align);
    RoundUpLeast(b.start, align, 0);
    var (h', p) := Alloc(h, size, align).value;
    NewPointer(h, i, p);
    var taken := size + Pad(b.start, align);
    var rest := Block(b.start + taken, b.size - taken);
    var mid := if rest.size <= SMALL then [] else [rest];
    TotalFreeReplace(h.free, i, mid);
    TotalOne(rest);
    TotalUsedAny(h'.used, p);
    assert h'.used - {p} == h.used;
    assert h.free[..i] + [] + h.free[i + 1..] == h.free[..i] + h.free[i + 1..];
  }

  lemma FreeConserves(h: Heap, p: nat)
    requires Conserved(h) && p in h.used
    ensures Conserved(Free(h, p).value)
  {
    hide FirstTouching, TotalFree;
    var b := h.used[p];
    var i := FirstTouching(h.free, b);
    TotalUsedAny(h.used, p);
    if i < |h.free| {
      TotalFreeReplace(h.free, i, [Joined(h.free[i], b)]);
      TotalOne(Joined(h.free[i], b));
    } else {
      TotalFreeAppend(h.free, [b]);
      TotalOne(b);
    }
  }

  // -------- runs

  datatype Call = AllocCall(size: nat, align: nat) | FreeCall(p: nat)

  /** The heap a call leaves; freeing an unknown pointer aborts, which leaves it as it was. */
  function After(h: Heap, c: Call): Heap {
    match c
    case AllocCall(size, align) =>
      if align == 0 then h else (var r := Alloc(h, size, align); if r.Some? then r.value.0 else h)
    case FreeCall(p) => (var r := Free(h, p); if r.Some? then r.value else h)
  }

  /** An allocation finds no block, or a sound one; any pointer may be freed. */
  predicate Allowed(h: Heap, c: Call) {
    c.AllocCall? ==>
      && PowerOfTwo(c.align) && c.align > 0
      && (FirstFit(h.free, c.size, c.align) < |h.free| ==> Sound(h, c.size, c.align))
  }

  ghost predicate AllAllowed(h: Heap, cs: seq<Call>)
    decreases |cs|
  {
    cs == [] || (Allowed(h, cs[0]) && AllAllowed(After(h, cs[0]), cs[1..]))
  }

  ghost function AfterAll(h: Heap, cs: seq<Call>): Heap
    requires AllAllowed(h, cs)
    decreases |cs|
  {
    if cs == [] then h else AfterAll(After(h, cs[0]), cs[1..])
  }

  lemma SoundKeeps(h: Heap, size: nat, align: nat)
    requires Valid(h) && PowerOfTwo(align) && align > 0 && FirstFit(h.free, size, align) < |h.free| && Sound(h, size, align)
    ensures Valid(Alloc(h, size, align).value.0)
  {
    hide Valid, PowerOfTwo, FirstFit, Pad, Alloc;
    if size == 0 {
      EmptyTakesFirst(h, align);
    }
    AllocIff(h, size, align);
  }

  lemma CallKeeps(h: Heap, c: Call)
    requires Valid(h) && Conserved(h) && Allowed(h, c)
    ensures Valid(After(h, c)) && Conserved(After(h, c))
  {
    hide Valid, Conserved, Free, FirstFit, PowerOfTwo, Pad;
    match c
    case AllocCall(size, align) =>
      if FirstFit(h.free, size, align) < |h.free| {
        SoundKeeps(h, size, align);
        AllocConserves(h, size, align);
      }
    case FreeCall(p) =>
      FreeIfKnown(h, p);
      if p in h.used {
        FreeKeeps(h, p);
        FreeConserves(h, p);
      }
  }

  lemma FreeIfKnown(h: Heap, p: nat)
    ensures Free(h, p).Some? <==> p in h.used
  {
  }

  /** Over every run free and allocated blocks partition the buffer and their sizes add up to it. */
  lemma {:induction false} RunsPartition(h: Heap, cs: seq<Call>)
    requires Valid(h) && Conserved(h) && AllAllowed(h, cs)
    ensures Valid(AfterAll(h, cs)) && Conserved(AfterAll(h, cs))
    decreases |cs|
  {
    hide Valid, Conserved, Allowed, After;
    if cs != [] {
      CallKeeps(h, cs[0]);
      RunsPartition(After(h, cs[0]), cs[1..]);
    }
  }

  function Start(buffer: nat, size: nat): Heap {
    Heap(buffer, size, [Block(buffer, size)], map[])
  }

  lemma StartsPartitioned(buffer: nat, size: nat)
    requires buffer + size < TWO64
    ensures Valid(Start(buffer, size)) && Conserved(Start(buffer, size))
  {
    var h := Start(buffer, size);
    forall a ensures FreeCount(h.free, a) + |UsedAt(h.used, a)| == if h.buffer <= a < h.buffer + h.size then 1 else 0 {
      CountOne(Block(buffer, size), a);
      assert UsedAt(h.used, a) == {};
    }
  }

  /** Every run from a new heap: the blocks partition the buffer, and no byte is lost or made up. */
  lemma HeapRuns(buffer: nat, size: nat, cs: seq<Call>)
    requires buffer + size < TWO64 && AllAllowed(Start(buffer, size), cs)
    ensures Valid(AfterAll(Start(buffer, size), cs)) && Conserved(AfterAll(Start(buffer, size), cs))
  {
    hide Valid, Conserved;
    StartsPartitioned(buffer, size);
    RunsPartition(Start(buffer, size), cs);
  }
}
