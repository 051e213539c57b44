/** PM4 command streams: packets as a writer emits them and as the command processor takes them apart. */
module Pm4Stream {
  import opened Machine

  // -------- big-endian words

  /** Reverses the bytes of a word. */
  function Swap(x: u32): u32 {
    var m, h := x / 0x100, x / 0x1_0000;
    0x100_0000 * (x % 0x100) + 0x1_0000 * (m % 0x100) + 0x100 * (h % 0x100) + h / 0x100
  }

  lemma Bytes(b0: nat, b1: nat, b2: nat, b3: nat)
    requires b0 < 0x100 && b1 < 0x100 && b2 < 0x100 && b3 < 0x100
    ensures Swap(0x100_0000 * b0 + 0x1_0000 * b1 + 0x100 * b2 + b3) == 0x100_0000 * b3 + 0x1_0000 * b2 + 0x100 * b1 + b0
  {
    var x := 0x100_0000 * b0 + 0x1_0000 * b1 + 0x100 * b2 + b3;
    DivModOf(0x100, 0x1_0000 * b0 + 0x100 * b1 + b2, b3);
    DivModOf(0x100, 0x100 * b0 + b1, b2);
    DivModOf(0x1_0000, 0x100 * b0 + b1, 0x100 * b2 + b3);
    DivModOf(0x100, b0, b1);
  }

  lemma SwapTwice(x: u32)
    ensures Swap(Swap(x)) == x
  {
    var m, h := x / 0x100, x / 0x1_0000;
    assert m / 0x100 == h;
    Bytes(x % 0x100, m % 0x100, h % 0x100, h / 0x100);
    assert x == 0x100_0000 * (h / 0x100) + 0x1_0000 * (h % 0x100) + 0x100 * (m % 0x100) + x % 0x100;
  }

  // -------- headers

  function TypeOf(w: u32): nat { w / 0x4000_0000 }
  function SizeOf(w: u32): nat { w / 0x1_0000 % 0x4000 }
  function OpcodeOf(w: u32): nat { w / 0x100 % 0x100 }
  function BaseOf(w: u32): nat { w % 0x1_0000 }

  /** The header of a type 3 packet with `n` payload words. */
  function Header(opcode: nat, n: nat): u32
    requires opcode < 0x100 && 1 <= n <= 0x4000
  {
    0xC000_0000 + 0x1_0000 * (n - 1) + 0x100 * opcode
  }

  lemma HeaderFields(opcode: nat, n: nat)
    requires opcode < 0x100 && 1 <= n <= 0x4000
    ensures var h := Header(opcode, n); h != 0 && TypeOf(h) == 3 && SizeOf(h) == n - 1 && OpcodeOf(h) == opcode
  {
    var h := Header(opcode, n);
    assert h / 0x100 == 0x100 * (0xC000 + (n - 1)) + opcode;
    assert h / 0x1_0000 == 0xC000 + (n - 1) == 0x4000 * 3 + (n - 1);
    DivModOf(0x4000, 3, n - 1);
    DivModOf(0x100, 0xC000 + (n - 1), opcode);
  }

  // -------- what a stream is made of

  datatype Item = Filler(word: u32) | Packet(opcode: nat, payload: seq<u32>)

  predicate Good(i: Item) {
    match i
    case Filler(w) => TypeOf(w) == 2
    case Packet(op, payload) => op < 0x100 && 1 <= |payload| <= 0x4000
  }

  predicate AllGood(items: seq<Item>) {
    forall k :: 0 <= k < |items| ==> Good(items[k])
  }

  function ItemWords(i: Item): seq<u32>
    requires Good(i)
  {
    match i
    case Filler(w) => [w]
    case Packet(op, payload) => [Header(op, |payload|)] + payload
  }

  function Stream(items: seq<Item>): seq<u32>
    requires AllGood(items)
  {
    if items == [] then [] else ItemWords(items[0]) + Stream(items[1..])
  }

  // -------- what the processor does with words

  datatype Sent = Type3(opcode: nat, payload: seq<u32>) | Type0(base: nat, payload: seq<u32>)

  /**
   * How a run ends: at the end of the buffer, at a zero word, at an invalid header, at a failed length
   * check, or with a packet that passes the check and still reaches one word past the buffer.
   */
  datatype Stop = AtEnd | AtZero | BadHeader | CheckFailed | PastEnd

  function Dispatch(words: seq<u32>, pos: nat): (seq<Sent>, Stop)
    decreases |words| - pos
  {
    if pos >= |words| then ([], AtEnd)
    else if words[pos] == 0 then ([], AtZero)
    else
      var w := words[pos];
      var size := SizeOf(w) + 1;
      if TypeOf(w) == 2 then Dispatch(words, pos + 1)
      else if TypeOf(w) == 1 then ([], BadHeader)
      else if pos + size > |words| then ([], CheckFailed)
      else if pos + size == |words| then ([], PastEnd)
      else
        var payload := words[pos + 1..pos + 1 + size];
        var sent := if TypeOf(w) == 3 then Type3(OpcodeOf(w), payload) else Type0(BaseOf(w), payload);
        var (rest, stop) := Dispatch(words, pos + 1 + size);
        ([sent] + rest, stop)
  }

  // -------- the round trip

  function Packets(items: seq<Item>): seq<Sent> {
    if items == [] then []
    else
      var rest := Packets(items[1..]);
      if items[0].Filler? then rest else [Type3(items[0].opcode, items[0].payload)] + rest
  }

  lemma PacketSent(words: seq<u32>, pos: nat, p: Item)
    requires p.Packet? && Good(p) && pos + |ItemWords(p)| <= |words|
    requires words[pos..pos + |ItemWords(p)|] == ItemWords(p)
    ensures var next := pos + |ItemWords(p)|;
            Dispatch(words, pos) == ([Type3(p.opcode, p.payload)] + Dispatch(words, next).0, Dispatch(words, next).1)
  {
    hide TypeOf, SizeOf, OpcodeOf, Header, BaseOf;
    var n := |p.payload|;
    var part := words[pos..pos + 1 + n];
    HeaderFields(p.opcode, n);
    assert words[pos] == part[0] == Header(p.opcode, n);
    assert words[pos + 1..pos + 1 + n] == part[1..] == p.payload;
  }

  lemma FillerSkipped(words: seq<u32>, pos: nat)
    requires pos < |words| && TypeOf(words[pos]) == 2
    ensures Dispatch(words, pos) == Dispatch(words, pos + 1)
  {
  }

  lemma {:induction false} DispatchFrom(before: seq<u32>, items: seq<Item>)
    requires AllGood(items)
    ensures Dispatch(before + Stream(items), |before|) == (Packets(items), AtEnd)
    decreases |items|
  {
    hide Good, ItemWords, Stream, Dispatch;
    if items == [] {
      NoWords();
      assert before + [] == before;
      AtTheEnd(before);
    } else {
      var i, rest := items[0], items[1..];
      var words := before + Stream(items);
      FirstWords(items);
      Segment(before, ItemWords(i), Stream(rest));
      DispatchFrom(before + ItemWords(i), rest);
      if i.Packet? {
        PacketSent(words, |before|, i);
      } else {
        FillerOne(i);
        FillerSkipped(words, |before|);
      }
    }
  }

  lemma NoWords()
    ensures Stream([]) == []
  {
  }

  lemma FirstWords(items: seq<Item>)
    requires AllGood(items) && items != []
    ensures Stream(items) == ItemWords(items[0]) + Stream(items[1..])
  {
  }

  lemma FillerOne(i: Item)
    requires i.Filler? && Good(i)
    ensures ItemWords(i) == [i.word] && TypeOf(i.word) == 2
  {
  }

  lemma Segment<T>(x: seq<T>, y: seq<T>, z: seq<T>)
    ensures x + (y + z) == (x + y) + z && (x + (y + z))[|x|..|x| + |y|] == y
    ensures y != [] ==> (x + (y + z))[|x|] == y[0]
  {
  }

  lemma AtTheEnd(words: seq<u32>)
    ensures Dispatch(words, |words|) == ([], AtEnd)
  {
  }

  /** Packets and fillers in any order are dispatched exactly, in order, up to the end of the buffer. */
  lemma StreamRoundTrip(items: seq<Item>)
    requires AllGood(items)
    ensures Dispatch(Stream(items), 0) == (Packets(items), AtEnd)
  {
    hide Dispatch, Stream;
    DispatchFrom([], items);
    assert [] + Stream(items) == Stream(items);
  }

  /** The length check lets a packet through that lacks its last word, and no shorter one. */
  lemma CutPacket(p: Item, k: nat)
    requires p.Packet? && Good(p) && 1 <= k <= |p.payload|
    ensures Dispatch(ItemWords(p)[..k], 0) == ([], if k == |p.payload| then PastEnd else CheckFailed)
  {
    hide TypeOf, SizeOf, OpcodeOf, Header, BaseOf;
    HeaderFields(p.opcode, |p.payload|);
  }
}
