/** Sizing, writing and reading back one command, field by field. */
module Pm4Packets {
  import opened Machine
  import opened Pm4Stream
  import opened Wrappers

  /** What a command's serialise function passes on: words, register offsets, constants, sizes and spans. */
  datatype Field =
    | Word(value: u32)
    | RegOffset(reg: u32, base: u32)
    | ConstOffset(value: u32)
    | Size(value: u32)
    | Span(words: seq<u32>)

  function Offset(reg: u32, base: u32): u32 {
    U32(reg - base)
  }

  function FieldWords(f: Field): seq<u32> {
    match f
    case Word(v) => [v]
    case RegOffset(reg, base) => [Offset(reg, base) / 4]
    case ConstOffset(v) => [v]
    case Size(v) => [U32(v - 1)]
    case Span(ws) => ws
  }

  function Payload(fs: seq<Field>): seq<u32> {
    if fs == [] then [] else FieldWords(fs[0]) + Payload(fs[1..])
  }

  /** A span takes the rest of the packet, so only the last field may be one. */
  predicate SpanLast(fs: seq<Field>) {
    forall k :: 0 <= k < |fs| - 1 ==> !fs[k].Span?
  }

  // -------- sizing

  class PacketSizer {
    var payloadSize: nat

    constructor ()
      ensures payloadSize == 0
    {
      payloadSize := 0;
    }

    method Put(f: Field)
      modifies this
      ensures payloadSize == old(payloadSize) + |FieldWords(f)|
    {
      match f
      case Span(ws) => payloadSize := payloadSize + (|ws| * 4 + 3) / 4;
      case _ => payloadSize := payloadSize + 1;
    }
  }

  method SizeOfCommand(fs: seq<Field>) returns (size: nat)
    ensures size == |Payload(fs)|
  {
    hide FieldWords;
    var sizer := new PacketSizer();
    for i := 0 to |fs|
      invariant sizer.payloadSize + |Payload(fs[i..])| == |Payload(fs)|
    {
      assert fs[i..][0] == fs[i] && fs[i..][1..] == fs[i + 1..];
      sizer.Put(fs[i]);
    }
    assert fs[|fs|..] == [];
    size := sizer.payloadSize;
  }

  // -------- writing

  /** The words as they lie in memory. */
  function Swapped(ws: seq<u32>): (r: seq<u32>)
    ensures |r| == |ws|
  {
    if ws == [] then [] else [Swap(ws[0])] + Swapped(ws[1..])
  }

  lemma {:induction false} SwappedAppend(x: seq<u32>, y: seq<u32>)
    ensures Swapped(x + y) == Swapped(x) + Swapped(y)
    decreases |x|
  {
    hide Swap;
    if x == [] {
      assert x + y == y;
    } else {
      assert (x + y)[0] == x[0] && (x + y)[1..] == x[1..] + y;
      SwappedAppend(x[1..], y);
    }
  }

  lemma {:induction false} SwappedTwice(ws: seq<u32>)
    ensures Swapped(Swapped(ws)) == ws
    decreases |ws|
  {
    hide Swap;
    if ws != [] {
      SwapTwice(ws[0]);
      var s := Swapped(ws);
      assert s[1..] == Swapped(ws[1..]);
      SwappedTwice(ws[1..]);
    }
  }

  lemma {:induction false} SwappedAt(ws: seq<u32>, k: nat)
    requires k < |ws|
    ensures Swapped(ws)[k] == Swap(ws[k])
    decreases |ws|
  {
    hide Swap;
    if k > 0 {
      SwappedAt(ws[1..], k - 1);
    }
  }

  class PacketWriter {
    const buffer: array<u32>
    var curSize: nat
    const saveSize: nat
    const totalSize: nat

    ghost predicate Valid()
      reads this
    {
      saveSize <= curSize <= buffer.Length
    }

    /** What this writer has put into the buffer. */
    ghost function Written(): seq<u32>
      requires Valid()
      reads this, buffer
    {
      buffer[saveSize..curSize]
    }

    constructor (buffer: array<u32>, curSize: nat, opcode: nat, totalSize: nat)
      requires opcode < 0x100 && 2 <= totalSize <= 0x4001 && curSize < buffer.Length
      modifies buffer
      ensures this.buffer == buffer && this.saveSize == curSize && this.totalSize == totalSize && Valid()
      ensures this.curSize == curSize + 1 && Written() == [Swap(Header(opcode, totalSize - 1))]
      ensures buffer[..curSize] == old(buffer[..curSize])
    {
      this.buffer, this.saveSize, this.totalSize := buffer, curSize, totalSize;
      this.curSize := curSize + 1;
      new;
      hide Swap, Header;
      buffer[curSize] := Swap(Header(opcode, totalSize - 1));
    }

    method PutWord(v: u32)
      requires Valid() && curSize < buffer.Length
      modifies buffer, this`curSize
      ensures Valid() && curSize == old(curSize) + 1
      ensures Written() == old(Written()) + [Swap(v)] && buffer[..saveSize] == old(buffer[..saveSize])
    {
      hide Swap;
      buffer[curSize] := Swap(v);
      curSize := curSize + 1;
    }

    /** Copies a span of words and swaps them where they lie. */
    method PutSpan(ws: seq<u32>)
      requires Valid() && curSize + |ws| <= buffer.Length
      modifies buffer, this`curSize
      ensures Valid() && curSize == old(curSize) + |ws|
      ensures Written() == old(Written()) + Swapped(ws) && buffer[..saveSize] == old(buffer[..saveSize])
    {
      hide Swap;
      var n, c := |ws|, curSize;
      forall i | 0 <= i < n { buffer[c + i] := ws[i]; }
      for i := 0 to n
        invariant curSize == c
        invariant forall k :: 0 <= k < c ==> buffer[k] == old(buffer[k])
        invariant forall k :: 0 <= k < n ==> buffer[c + k] == if k < i then Swap(ws[k]) else ws[k]
      {
        buffer[c + i] := Swap(buffer[c + i]);
      }
      curSize := curSize + n;
      forall k | 0 <= k < n ensures Swapped(ws)[k] == Swap(ws[k]) { SwappedAt(ws, k); }
    }

    method Put(f: Field)
      requires Valid() && curSize + |FieldWords(f)| <= buffer.Length
      modifies buffer, this`curSize
      ensures Valid() && curSize == old(curSize) + |FieldWords(f)|
      ensures Written() == old(Written()) + Swapped(FieldWords(f)) && buffer[..saveSize] == old(buffer[..saveSize])
    {
      hide Swap;
      match f
      case Word(v) => PutWord(v);
      case RegOffset(reg, base) => PutWord(Offset(reg, base) / 4);
      case ConstOffset(v) => PutWord(v);
      case Size(v) => PutWord(U32(v - 1));
      case Span(ws) => PutSpan(ws);
    }
  }

  /**
   * writePM4: sizes a command, then writes header and fields at `curSize`. The size the sizer found is
   * the number of words written, which is what the writer's destructor checks.
   */
  method WriteCommand(buffer: array<u32>, curSize: nat, opcode: nat, fs: seq<Field>) returns (newSize: nat)
    requires opcode < 0x100 && 1 <= |Payload(fs)| <= 0x4000 && curSize + 1 + |Payload(fs)| <= buffer.Length
    modifies buffer
    ensures newSize == curSize + 1 + |Payload(fs)|
    ensures buffer[curSize..newSize] == Swapped(ItemWords(Packet(opcode, Payload(fs))))
    ensures buffer[..curSize] == old(buffer[..curSize])
  {
    hide Swap, FieldWords, Header;
    var size := SizeOfCommand(fs);
    var w := new PacketWriter(buffer, curSize, opcode, size + 1);
    ghost var head := [Header(opcode, size)];
    assert Swapped(head) == w.Written();
    ghost var done: seq<u32> := [];
    for i := 0 to |fs|
      invariant w.Valid() && w.buffer == buffer && w.saveSize == curSize && w.totalSize == size + 1
      invariant w.curSize == curSize + 1 + |done| && done + Payload(fs[i..]) == Payload(fs)
      invariant w.Written() == Swapped(head + done) && buffer[..curSize] == old(buffer[..curSize])
    {
      assert fs[i..][0] == fs[i] && fs[i..][1..] == fs[i + 1..];
      ghost var part := FieldWords(fs[i]);
      assert done + (part + Payload(fs[i + 1..])) == (done + part) + Payload(fs[i + 1..]);
      SwappedAppend(head + done, part);
      assert head + (done + part) == (head + done) + part;
      w.Put(fs[i]);
      done := done + part;
    }
    assert fs[|fs|..] == [] && done == Payload(fs);
    assert w.curSize - w.saveSize == w.totalSize;
    newSize := w.curSize;
  }

  // -------- reading back

  /** Reads one field of the kind of `f`; a register field knows its base. */
  function ReadField(f: Field, words: seq<u32>): Result<Field> {
    if f.Span? then Ok(Span(words))
    else if words == [] then Fail
    else
      var w: int := words[0];
      match f
      case Word(_) => Ok(Word(w))
      case RegOffset(_, base) => Ok(RegOffset(U32(w % 0x1_0000 * 4 + base), base))
      case ConstOffset(_) => Ok(ConstOffset(w % 0x1_0000))
      case Size(_) => Ok(Size(U32(w + 1)))
  }

  /** Reads the fields of a command in order from the words of a packet. */
  function ReadFields(fs: seq<Field>, words: seq<u32>): Result<seq<Field>>
    decreases |fs|
  {
    if fs == [] then Ok([])
    else
      match ReadField(fs[0], words)
      case Fail => Fail
      case Ok(f) =>
        var rest := if f.Span? then [] else words[1..];
        match ReadFields(fs[1..], rest)
        case Fail => Fail
        case Ok(more) => Ok([f] + more)
  }

  /** Register offsets are aligned and within 16 bits of words; constants fit 16 bits. */
  predicate Recoverable(f: Field) {
    match f
    case RegOffset(reg, base) => Offset(reg, base) % 4 == 0 && Offset(reg, base) / 4 < 0x1_0000
    case ConstOffset(v) => v < 0x1_0000
    case _ => true
  }

  lemma RegisterBack(reg: u32, base: u32)
    ensures U32(Offset(reg, base) / 4 % 0x1_0000 * 4 + base) == reg
       <==> Offset(reg, base) % 4 == 0 && Offset(reg, base) / 4 < 0x1_0000
  {
    var d := Offset(reg, base);
    var e := d / 4 % 0x1_0000 * 4;
    assert d == if reg >= base then reg - base else reg - base + TWO32;
    assert U32(e + base) == if e + base < TWO32 then e + base else e + base - TWO32;
    assert U32(e + base) == reg <==> e == d;
  }

  lemma SizeBack(v: u32)
    ensures U32(U32(v - 1) + 1) == v
  {
    assert U32(v - 1) == if v == 0 then TWO32 - 1 else v - 1;
  }

  /** Register k of a class is written as k, and the low half of a word k is read as register k, whatever the high half. */
  lemma RegisterWord(base: u32, k: nat, high: nat)
    requires k < 0x1_0000 && high < 0x1_0000 && base + 4 * k < TWO32
    ensures FieldWords(RegOffset(base + 4 * k, base)) == [k]
    ensures ReadField(RegOffset(0, base), [0x1_0000 * high + k]) == Ok(RegOffset(base + 4 * k, base))
  {
    U32Id(4 * k);
    U32Id(k * 4 + base);
    DivModOf(0x1_0000, high, k);
  }

  /** A size n is written as n - 1 and a word w is read as size w + 1, up to the wrap of 32 bits; constants keep their low half. */
  lemma SizeWord(n: u32, high: nat)
    requires high < 0x1_0000
    ensures n > 0 ==> FieldWords(Size(n)) == [n - 1] && ReadField(Size(0), [n - 1]) == Ok(Size(n))
    ensures FieldWords(Size(0)) == [TWO32 - 1] && ReadField(Size(0), [TWO32 - 1]) == Ok(Size(0))
    ensures n < 0x1_0000 ==> ReadField(ConstOffset(0), [0x1_0000 * high + n]) == Ok(ConstOffset(n))
  {
    if n < 0x1_0000 {
      DivModOf(0x1_0000, high, n);
    }
    SizeBack(n);
  }

  /** A field comes back exactly when it is recoverable. */
  lemma FieldBack(f: Field, more: seq<u32>)
    requires f.Span? ==> more == []
    ensures ReadField(f, FieldWords(f) + more) == Ok(f) <==> Recoverable(f)
    ensures ReadField(f, FieldWords(f) + more).Ok? && (ReadField(f, FieldWords(f) + more).value.Span? <==> f.Span?)
    ensures !f.Span? ==> (FieldWords(f) + more)[1..] == more
  {
    hide U32, Offset;
    match f
    case RegOffset(reg, base) => RegisterBack(reg, base);
    case Size(v) => SizeBack(v);
    case Span(ws) => assert ws + more == ws;
    case _ =>
  }

  /** A reader recovers every field of a command exactly when all of them are recoverable. */
  lemma {:induction false} CommandBack(fs: seq<Field>)
    requires SpanLast(fs)
    ensures ReadFields(fs, Payload(fs)).Ok?
    ensures ReadFields(fs, Payload(fs)) == Ok(fs) <==> forall k :: 0 <= k < |fs| ==> Recoverable(fs[k])
    decreases |fs|
  {
    hide FieldWords, Recoverable, ReadField;
    if fs != [] {
      var f, rest := fs[0], fs[1..];
      assert f.Span? ==> Payload(rest) == [];
      FieldBack(f, Payload(rest));
      CommandBack(rest);
      assert fs == [f] + rest;
      var got := ReadField(f, Payload(fs)).value;
      var more := ReadFields(rest, Payload(rest)).value;
      assert [got] + more == [f] + rest <==> got == f && more == rest by {
        assert ([got] + more)[0] == got && ([got] + more)[1..] == more;
        assert ([f] + rest)[0] == f && ([f] + rest)[1..] == rest;
      }
      assert (forall k :: 0 <= k < |fs| ==> Recoverable(fs[k]))
        <==> Recoverable(f) && forall k :: 0 <= k < |rest| ==> Recoverable(rest[k]);
    }
  }

  class PacketReader {
    const buffer: seq<u32>
    var position: nat

    constructor (words: seq<u32>)
      ensures buffer == words && position == 0
    {
      buffer, position := words, 0;
    }

    /** Reads one field and moves on; reading past the packet aborts. */
    method Get(f: Field) returns (r: Result<Field>)
      requires position <= |buffer|
      modifies this
      ensures position <= |buffer| && r == ReadField(f, old(buffer[position..]))
      ensures r.Ok? ==> buffer[position..] == if r.value.Span? then [] else old(buffer[position..])[1..]
    {
      hide U32;
      if f.Span? {
        r := Ok(Span(buffer[position..]));
        position := |buffer|;
        return;
      }
      if position + 1 > |buffer| {
        return Fail;
      }
      var w: int := buffer[position];
      position := position + 1;
      match f
      case Word(_) => r := Ok(Word(w));
      case RegOffset(_, base) => r := Ok(RegOffset(U32(w % 0x1_0000 * 4 + base), base));
      case ConstOffset(_) => r := Ok(ConstOffset(w % 0x1_0000));
      case Size(_) => r := Ok(Size(U32(w + 1)));
    }
  }

  method ReadCommand(fs: seq<Field>, words: seq<u32>) returns (r: Result<seq<Field>>)
    ensures r == ReadFields(fs, words)
  {
    hide ReadField;
    var reader := new PacketReader(words);
    var got: seq<Field> := [];
    assert words[0..] == words && fs[0..] == fs;
    AfterNone(ReadFields(fs, words));
    for i := 0 to |fs|
      invariant reader.buffer == words && reader.position <= |words|
      invariant ReadFields(fs, words) == After(got, ReadFields(fs[i..], words[reader.position..]))
    {
      assert fs[i..][0] == fs[i] && fs[i..][1..] == fs[i + 1..];
      var one := reader.Get(fs[i]);
      if one.Fail? {
        return Fail;
      }
      AfterMore(got, one.value, ReadFields(fs[i + 1..], words[reader.position..]));
      got := got + [one.value];
    }
    assert fs[|fs|..] == [];
    assert got + [] == got;
    r := Ok(got);
  }

  function After(got: seq<Field>, r: Result<seq<Field>>): Result<seq<Field>> {
    match r
    case Fail => Fail
    case Ok(more) => Ok(got + more)
  }

  lemma AfterNone(r: Result<seq<Field>>)
    ensures After([], r) == r
  {
    if r.Ok? {
      assert [] + r.value == r.value;
    }
  }

  lemma AfterMore(got: seq<Field>, f: Field, r: Result<seq<Field>>)
    ensures After(got + [f], r) == match r case Fail => Fail case Ok(more) => After(got, Ok([f] + more))
  {
    if r.Ok? {
      assert (got + [f]) + r.value == got + ([f] + r.value);
    }
  }
}
