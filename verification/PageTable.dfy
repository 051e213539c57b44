/** Virtual memory mappings: a sorted list that acts as a function from addresses to memory. */
module PageTable {
  import opened Machine
  import opened Reservations
  import opened ReservationsExact
  import opened ReservationsFree
  import opened Wrappers

  datatype Permission = ReadOnly | ReadWrite

  datatype Mapping = Mapping(virtual: u32, physical: u32, size: u32, permission: Permission)

  /** The physical address and permission of a mapped address. */
  datatype Target = Target(physical: u32, permission: Permission)

  predicate ValidPhysical(p: u32) {
    p <= 0x01FF_FFFF || 0x1000_0000 <= p <= 0x8FFF_FFFF
  }

  function MapEnd(m: Mapping): u32 {
    LastOf(m.virtual, m.size)
  }

  predicate Holds(m: Mapping, a: int) {
    m.virtual <= a <= MapEnd(m)
  }

  /** What an address translates to: the meaning of the list. */
  function Lookup(ms: seq<Mapping>, a: int): Option<Target> {
    if ms == [] then None
    else if Holds(ms[0], a) then Some(Target(U32(ms[0].physical + (a - ms[0].virtual)), ms[0].permission))
    else Lookup(ms[1..], a)
  }

  /** A mapping on page boundaries within the address space. */
  predicate WellMapped(m: Mapping) {
    && 0 < m.size && m.virtual + m.size <= TWO32 && ValidPhysical(m.physical)
    && m.virtual % PAGE == 0 && m.size % PAGE == 0
  }

  /** Sorted by address and disjoint. */
  predicate Ordered(ms: seq<Mapping>) {
    && (forall i :: 0 <= i < |ms| ==> WellMapped(ms[i]))
    && (forall i, j :: 0 <= i < j < |ms| ==> ms[i].virtual + ms[i].size <= ms[j].virtual)
  }

  /** No mapped address is on the free list. */
  ghost predicate InAllocated(ms: seq<Mapping>, rs: seq<Range>) {
    forall i :: 0 <= i < |ms| ==> NoneFree(rs, ms[i].virtual, MapEnd(ms[i]))
  }

  // -------- mapMemory

  datatype VirtualType = Free | Allocated | MappedReadOnly | MappedReadWrite

  function QueryVirtual(ms: seq<Mapping>, rs: seq<Range>, a: u32): VirtualType {
    match Lookup(ms, a)
    case Some(t) => if t.permission == ReadOnly then MappedReadOnly else MappedReadWrite
    case None => if FirstHolding(rs, a, LastOf(a, 1)) < |rs| then Free else Allocated
  }

  /** Where a mapping goes: before the first one with a higher address. */
  function Place(ms: seq<Mapping>, a: u32): (k: nat)
    ensures k <= |ms|
    ensures k < |ms| ==> a < ms[k].virtual
    ensures forall i :: 0 <= i < k ==> ms[i].virtual <= a
  {
    if ms == [] || a < ms[0].virtual then 0 else 1 + Place(ms[1..], a)
  }

  function Insert(ms: seq<Mapping>, m: Mapping): seq<Mapping> {
    ms[..Place(ms, m.virtual)] + [m] + ms[Place(ms, m.virtual)..]
  }

  /** mapMemory: only the first physical and the first virtual address are examined. */
  function Map(ms: seq<Mapping>, rs: seq<Range>, m: Mapping): Option<seq<Mapping>> {
    if ValidPhysical(m.physical) && QueryVirtual(ms, rs, m.virtual).Allocated? then Some(Insert(ms, m)) else None
  }

  // -------- unmapMemory

  datatype Kind = Head | Tail | Outside | Inside

  /** How a mapping lies to the range to unmap, by the tests of the loop in their order. */
  function KindOf(m: Mapping, start: u32, end: u32): Kind {
    if m.virtual < start && MapEnd(m) > start then Head
    else if m.virtual < end && MapEnd(m) > end then Tail
    else if m.virtual > end || MapEnd(m) < start then Outside
    else Inside
  }

  /** What the loop puts aside to map again: the tail branch subtracts from a size that is still zero. */
  function Remap(m: Mapping, start: u32, end: u32): seq<Mapping> {
    match KindOf(m, start, end)
    case Head => [m.(size := U32(start - m.virtual))]
    case Tail =>
      var offset := U32(end - m.virtual);
      [Mapping(U32(m.virtual + offset), U32(m.physical + offset), U32(0 - offset), m.permission)]
    case _ => []
  }

  function Kept(ms: seq<Mapping>, start: u32, end: u32): seq<Mapping> {
    if ms == [] then []
    else
      var rest := Kept(ms[1..], start, end);
      if KindOf(ms[0], start, end).Outside? then [ms[0]] + rest else rest
  }

  function Remaps(ms: seq<Mapping>, start: u32, end: u32): seq<Mapping> {
    if ms == [] then [] else Remap(ms[0], start, end) + Remaps(ms[1..], start, end)
  }

  /** Mapping again what was put aside; a mapping that is refused is dropped. */
  function MapAll(ms: seq<Mapping>, rs: seq<Range>, again: seq<Mapping>): seq<Mapping>
    decreases |again|
  {
    if again == [] then ms
    else
      var one := Map(ms, rs, again[0]);
      MapAll(if one.Some? then one.value else ms, rs, again[1..])
  }

  function Unmap(ms: seq<Mapping>, rs: seq<Range>, address: u32, bytes: u32): seq<Mapping> {
    var start := AlignPage(address);
    var end := LastOf(start, AlignPage(bytes));
    MapAll(Kept(ms, start, end), rs, Remaps(ms, start, end))
  }
}
