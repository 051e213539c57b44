/** What the command processor makes of any buffer of words: every buffer is a run of whole packets and an ending. */
module Pm4Dispatch {
  import opened Machine
  import opened Pm4Stream

  /** Type 3 packets with any low byte, type 0 packets and fillers. */
  datatype Part =
    | Skip(word: u32)
    | Command(opcode: nat, low: nat, payload: seq<u32>)
    | Registers(base: nat, payload: seq<u32>)

  /** A header with its type, its payload size and its low half. */
  function HeaderOf(kind: nat, n: nat, low: nat): u32
    requires kind < 4 && 1 <= n <= 0x4000 && low < 0x1_0000
  {
    0x4000_0000 * kind + 0x1_0000 * (n - 1) + low
  }

  predicate Proper(p: Part) {
    match p
    case Skip(w) => 0x8000_0000 <= w < 0xC000_0000
    case Command(op, low, payload) => op < 0x100 && low < 0x100 && 1 <= |payload| <= 0x4000
    case Registers(base, payload) => base < 0x1_0000 && 1 <= |payload| <= 0x4000 && (base > 0 || |payload| > 1)
  }

  predicate AllProper(ps: seq<Part>) {
    forall k :: 0 <= k < |ps| ==> Proper(ps[k])
  }

  function PartWords(p: Part): (ws: seq<u32>)
    requires Proper(p)
    ensures |ws| > 0
  {
    match p
    case Skip(w) => [w]
    case Command(op, low, payload) => [HeaderOf(3, |payload|, 0x100 * op + low)] + payload
    case Registers(base, payload) => [HeaderOf(0, |payload|, base)] + payload
  }

  function AllWords(ps: seq<Part>): seq<u32>
    requires AllProper(ps)
  {
    if ps == [] then [] else PartWords(ps[0]) + AllWords(ps[1..])
  }

  function SentBy(p: Part): seq<Sent> {
    match p
    case Skip(_) => []
    case Command(op, _, payload) => [Type3(op, payload)]
    case Registers(base, payload) => [Type0(base, payload)]
  }

  function AllSent(ps: seq<Part>): seq<Sent> {
    if ps == [] then [] else SentBy(ps[0]) + AllSent(ps[1..])
  }

  /** How a buffer can end: nowhere in a packet, at a zero word, at a type 1 header, or within a packet that is cut short. */
  datatype Ending =
    | Nothing
    | Zero(junk: seq<u32>)
    | Invalid(word: u32, junk: seq<u32>)
    | Cut(kind: nat, n: nat, low: nat, rest: seq<u32>)

  predicate ProperEnd(e: Ending) {
    match e
    case Invalid(w, _) => 0x4000_0000 <= w < 0x8000_0000
    case Cut(kind, n, low, rest) =>
      (kind == 0 || kind == 3) && 1 <= n <= 0x4000 && low < 0x1_0000 && |rest| < n && HeaderOf(kind, n, low) != 0
    case _ => true
  }

  function EndWords(e: Ending): seq<u32>
    requires ProperEnd(e)
  {
    match e
    case Nothing => []
    case Zero(junk) => [0] + junk
    case Invalid(w, junk) => [w] + junk
    case Cut(kind, n, low, rest) => [HeaderOf(kind, n, low)] + rest
  }

  /** The length check counts the header, so it lets a packet through that lacks exactly its last word. */
  function StopAt(e: Ending): Stop {
    match e
    case Nothing => AtEnd
    case Zero(_) => AtZero
    case Invalid(_, _) => BadHeader
    case Cut(_, n, _, rest) => if |rest| + 1 == n then PastEnd else CheckFailed
  }

  lemma HeaderParts(kind: nat, n: nat, low: nat)
    requires kind < 4 && 1 <= n <= 0x4000 && low < 0x1_0000
    ensures var h := HeaderOf(kind, n, low);
            TypeOf(h) == kind && SizeOf(h) == n - 1 && BaseOf(h) == low && OpcodeOf(h) == low / 0x100
  {
    var h := HeaderOf(kind, n, low);
    DivModOf(0x4000_0000, kind, 0x1_0000 * (n - 1) + low);
    DivModOf(0x1_0000, 0x4000 * kind + (n - 1), low);
    DivModOf(0x4000, kind, n - 1);
    DivModOf(0x100, 0x100 * (0x4000 * kind + (n - 1)) + low / 0x100, low % 0x100);
    DivModOf(0x100, 0x4000 * kind + (n - 1), low / 0x100);
  }

  lemma TypeIs(w: u32)
    ensures TypeOf(w) == 0 <==> w < 0x4000_0000
    ensures TypeOf(w) == 1 <==> 0x4000_0000 <= w < 0x8000_0000
    ensures TypeOf(w) == 2 <==> 0x8000_0000 <= w < 0xC000_0000
    ensures TypeOf(w) < 4
  {
  }

  /** One whole packet, wherever it lies in the buffer. */
  lemma PartDispatched(words: seq<u32>, pos: nat, p: Part)
    requires Proper(p) && pos + |PartWords(p)| <= |words| && words[pos..pos + |PartWords(p)|] == PartWords(p)
    ensures var next := pos + |PartWords(p)|;
            Dispatch(words, pos) == (SentBy(p) + Dispatch(words, next).0, Dispatch(words, next).1)
  {
    hide TypeOf, SizeOf, OpcodeOf, BaseOf, HeaderOf;
    var part := words[pos..pos + |PartWords(p)|];
    assert words[pos] == part[0];
    TypeIs(words[pos]);
    if p.Skip? {
      assert [] + Dispatch(words, pos + 1).0 == Dispatch(words, pos + 1).0;
    } else {
      assert words[pos + 1..pos + |PartWords(p)|] == part[1..] == p.payload;
      if p.Command? {
        HeaderParts(3, |p.payload|, 0x100 * p.opcode + p.low);
        DivModOf(0x100, p.opcode, p.low);
      } else {
        HeaderParts(0, |p.payload|, p.base);
        NotZero(|p.payload|, p.base);
      }
      assert SizeOf(words[pos]) + 1 == |p.payload| && words[pos] != 0;
    }
  }

  lemma NotZero(n: nat, base: nat)
    requires 1 <= n <= 0x4000 && base < 0x1_0000 && (base > 0 || n > 1)
    ensures HeaderOf(0, n, base) != 0
  {
  }

  lemma EndDispatched(before: seq<u32>, e: Ending)
    requires ProperEnd(e)
    ensures Dispatch(before + EndWords(e), |before|) == ([], StopAt(e))
  {
    hide TypeOf, SizeOf, HeaderOf;
    if e.Invalid? {
      TypeIs(e.word);
    }
    if e.Cut? {
      HeaderParts(e.kind, e.n, e.low);
    }
  }

  lemma {:induction false} PartsDispatched(before: seq<u32>, ps: seq<Part>, e: Ending)
    requires AllProper(ps) && ProperEnd(e)
    ensures Dispatch(before + (AllWords(ps) + EndWords(e)), |before|) == (AllSent(ps), StopAt(e))
    decreases |ps|
  {
    hide Proper, PartWords, Dispatch, EndWords, ProperEnd, SentBy;
    if ps == [] {
      assert [] + EndWords(e) == EndWords(e);
      EndDispatched(before, e);
    } else {
      var p, rest := ps[0], ps[1..];
      var here, more := PartWords(p), AllWords(rest) + EndWords(e);
      assert AllWords(ps) + EndWords(e) == here + more;
      Segment(before, here, more);
      PartsDispatched(before + here, rest, e);
      PartDispatched(before + (here + more), |before|, p);
    }
  }

  /** Whole packets are handed on in order, of both types, and the run ends as the rest of the buffer says. */
  lemma BufferDispatched(ps: seq<Part>, e: Ending)
    requires AllProper(ps) && ProperEnd(e)
    ensures Dispatch(AllWords(ps) + EndWords(e), 0) == (AllSent(ps), StopAt(e))
  {
    PartsDispatched([], ps, e);
    assert [] + (AllWords(ps) + EndWords(e)) == AllWords(ps) + EndWords(e);
  }

  // -------- every buffer is of this form

  /** The header a word is. */
  lemma Fields(w: u32) returns (kind: nat, n: nat, low: nat)
    ensures kind < 4 && 1 <= n <= 0x4000 && low < 0x1_0000 && HeaderOf(kind, n, low) == w
    ensures kind == 1 ==> 0x4000_0000 <= w < 0x8000_0000
    ensures kind == 2 ==> 0x8000_0000 <= w < 0xC000_0000
    ensures kind == 0 && w != 0 ==> low > 0 || n > 1
  {
    var h := w / 0x1_0000;
    kind, n, low := h / 0x4000, h % 0x4000 + 1, w % 0x1_0000;
    Euclid(w, 0x1_0000);
    Euclid(h, 0x4000);
  }

  lemma Halves(low: nat) returns (op: nat, rest: nat)
    requires low < 0x1_0000
    ensures op < 0x100 && rest < 0x100 && 0x100 * op + rest == low
  {
    op, rest := low / 0x100, low % 0x100;
  }

  /** The packet at the start of a buffer, or its ending. */
  lemma First(words: seq<u32>) returns (p: seq<Part>, e: Ending)
    ensures AllProper(p) && ProperEnd(e) && |p| <= 1
    ensures if p == [] then words == EndWords(e)
            else |PartWords(p[0])| <= |words| && words[..|PartWords(p[0])|] == PartWords(p[0])
  {
    hide HeaderOf;
    p, e := [], Nothing;
    if words != [] {
      var w, rest := words[0], words[1..];
      var kind, n, low := Fields(w);
      assert words == [w] + rest;
      if w == 0 {
        e := Zero(rest);
      } else if kind == 2 {
        p := [Skip(w)];
        assert words[..1] == [w];
      } else if kind == 1 {
        e := Invalid(w, rest);
      } else if |rest| < n {
        e := Cut(kind, n, low, rest);
      } else {
        assert words[..1 + n] == [w] + rest[..n];
        if kind == 3 {
          var op, l := Halves(low);
          p := [Command(op, l, rest[..n])];
        } else {
          p := [Registers(low, rest[..n])];
        }
      }
    }
  }

  /** Every buffer is a run of whole packets and one of these endings. */
  lemma {:induction false} EveryBuffer(words: seq<u32>) returns (ps: seq<Part>, e: Ending)
    ensures AllProper(ps) && ProperEnd(e) && words == AllWords(ps) + EndWords(e)
    decreases |words|
  {
    hide Proper, PartWords, EndWords, ProperEnd;
    var p, end := First(words);
    if p == [] {
      ps, e := [], end;
      assert [] + EndWords(e) == EndWords(e);
    } else {
      var n := |PartWords(p[0])|;
      var more;
      more, e := EveryBuffer(words[n..]);
      ps := p + more;
      assert ps[0] == p[0] && ps[1..] == more && words == words[..n] + words[n..];
    }
  }
}
