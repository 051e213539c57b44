/** From a list of commands through a buffer to the processor and back: what is submitted is what arrives. */
module Pm4RoundTrip {
  import opened Machine
  import opened Pm4Stream
  import opened Pm4Packets
  import opened Pm4Machine
  import opened Wrappers

  /** What goes into a command buffer: padding words and commands, field by field. */
  datatype Emission = Padding(word: u32) | Command(opcode: nat, fields: seq<Field>)

  predicate Emittable(e: Emission) {
    match e
    case Padding(w) => TypeOf(w) == 2
    case Command(op, fs) => op < 0x100 && SpanLast(fs) && 1 <= |Payload(fs)| <= 0x4000
  }

  predicate AllEmittable(es: seq<Emission>) {
    forall k :: 0 <= k < |es| ==> Emittable(es[k])
  }

  function ItemOf(e: Emission): (i: Item)
    requires Emittable(e)
    ensures Good(i)
  {
    match e
    case Padding(w) => Filler(w)
    case Command(op, fs) => Packet(op, Payload(fs))
  }

  function Items(es: seq<Emission>): (items: seq<Item>)
    requires AllEmittable(es)
    ensures |items| == |es| && AllGood(items)
  {
    if es == [] then [] else [ItemOf(es[0])] + Items(es[1..])
  }

  /** The words of a buffer that holds the emissions, before they are swapped. */
  function BufferWords(es: seq<Emission>): seq<u32>
    requires AllEmittable(es)
  {
    Stream(Items(es))
  }

  lemma BufferStep(es: seq<Emission>)
    requires AllEmittable(es) && es != []
    ensures BufferWords(es) == ItemWords(ItemOf(es[0])) + BufferWords(es[1..])
  {
    hide ItemWords, Emittable;
    assert Items(es)[0] == ItemOf(es[0]) && Items(es)[1..] == Items(es[1..]);
  }

  lemma BufferDone(es: seq<Emission>)
    requires es == []
    ensures BufferWords(es) == []
  {
  }

  method Emit(buffer: array<u32>, curSize: nat, e: Emission) returns (newSize: nat)
    requires Emittable(e) && curSize + |ItemWords(ItemOf(e))| <= buffer.Length
    modifies buffer
    ensures newSize == curSize + |ItemWords(ItemOf(e))| && buffer[curSize..newSize] == Swapped(ItemWords(ItemOf(e)))
    ensures buffer[..curSize] == old(buffer[..curSize])
  {
    hide Swap, Header, TypeOf, Payload;
    match e
    case Padding(w) =>
      buffer[curSize] := Swap(w);
      newSize := curSize + 1;
    case Command(op, fs) =>
      newSize := WriteCommand(buffer, curSize, op, fs);
  }

  /** Emissions written one after the other fill the buffer with their words, each one swapped. */
  method EmitAll(buffer: array<u32>, es: seq<Emission>) returns (newSize: nat)
    requires AllEmittable(es) && |BufferWords(es)| <= buffer.Length
    modifies buffer
    ensures newSize == |BufferWords(es)| && buffer[..newSize] == Swapped(BufferWords(es))
  {
    hide BufferWords, ItemWords, ItemOf, Emittable, Swapped;
    newSize := 0;
    ghost var done: seq<u32> := [];
    assert es[0..] == es && [] + BufferWords(es) == BufferWords(es);
    NothingSwapped();
    for i := 0 to |es|
      invariant newSize == |done| && done + BufferWords(es[i..]) == BufferWords(es)
      invariant newSize <= buffer.Length && buffer[..newSize] == Swapped(done)
    {
      assert es[i..][0] == es[i] && es[i..][1..] == es[i + 1..];
      BufferStep(es[i..]);
      ghost var part := ItemWords(ItemOf(es[i]));
      assert done + (part + BufferWords(es[i + 1..])) == (done + part) + BufferWords(es[i + 1..]);
      var next := Emit(buffer, newSize, es[i]);
      assert buffer[..next] == buffer[..newSize] + buffer[newSize..next];
      SwappedAppend(done, part);
      newSize, done := next, done + part;
    }
    BufferDone(es[|es|..]);
    assert done + [] == done;
  }

  lemma NothingSwapped()
    ensures Swapped([]) == []
  {
  }

  /** Swapping in the writer and in the processor cancel out: the packets arrive, in order, up to the end of the buffer. */
  lemma BufferRoundTrip(es: seq<Emission>)
    requires AllEmittable(es)
    ensures Dispatch(Swapped(Swapped(BufferWords(es))), 0) == (Packets(Items(es)), AtEnd)
  {
    hide Dispatch, Stream, Swapped;
    SwappedTwice(BufferWords(es));
    StreamRoundTrip(Items(es));
  }

  /** Submitting a buffer dispatches exactly the emitted commands and ends at the end of the buffer. */
  method Submit(buffer: array<u32>, es: seq<Emission>) returns (sent: seq<Sent>, stop: Stop)
    requires AllEmittable(es) && |BufferWords(es)| == buffer.Length
    modifies buffer
    ensures sent == Packets(Items(es)) && stop == AtEnd
  {
    hide Dispatch, Swapped, BufferWords, Packets, Items, Emittable;
    var size := EmitAll(buffer, es);
    assert buffer[..size] == buffer[..];
    sent, stop := RunCommandBuffer(buffer);
    BufferRoundTrip(es);
  }

  function Commands(es: seq<Emission>): seq<Emission> {
    if es == [] then []
    else if es[0].Command? then [es[0]] + Commands(es[1..]) else Commands(es[1..])
  }

  /** The packets that arrive are those of the commands, in order. */
  lemma {:induction false} PacketOf(es: seq<Emission>, k: nat)
    requires AllEmittable(es) && k < |Commands(es)|
    ensures |Packets(Items(es))| == |Commands(es)| && Commands(es)[k].Command? && SpanLast(Commands(es)[k].fields)
    ensures Packets(Items(es))[k] == Type3(Commands(es)[k].opcode, Payload(Commands(es)[k].fields))
    decreases |es|
  {
    hide Payload, TypeOf, SpanLast;
    var rest := es[1..];
    SameCount(rest);
    assert Items(es)[1..] == Items(rest);
    if !es[0].Command? {
      PacketOf(rest, k);
    } else if k > 0 {
      PacketOf(rest, k - 1);
    }
  }

  /** Every command of a submitted buffer arrives, and all of its fields come back exactly if all are recoverable. */
  lemma CommandsBack(es: seq<Emission>, k: nat)
    requires AllEmittable(es) && k < |Commands(es)|
    ensures |Packets(Items(es))| == |Commands(es)| && Commands(es)[k].Command?
    ensures var c, p := Commands(es)[k], Packets(Items(es))[k];
            && p == Type3(c.opcode, Payload(c.fields))
            && (ReadFields(c.fields, p.payload) == Ok(c.fields) <==> forall j :: 0 <= j < |c.fields| ==> Recoverable(c.fields[j]))
  {
    hide Payload, Recoverable, ReadFields, Packets, Items, Commands, Emittable;
    PacketOf(es, k);
    CommandBack(Commands(es)[k].fields);
  }

  lemma {:induction false} SameCount(es: seq<Emission>)
    requires AllEmittable(es)
    ensures |Packets(Items(es))| == |Commands(es)|
    decreases |es|
  {
    hide Payload, TypeOf;
    if es != [] {
      assert Items(es)[1..] == Items(es[1..]);
      SameCount(es[1..]);
    }
  }
}
