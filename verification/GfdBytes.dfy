/** Big-endian words and NUL-terminated strings in a byte buffer. */
module GfdBytes {
  import opened Machine
  import opened Wrappers

  function Be32(v: u32): (b: seq<byte>)
    ensures |b| == 4
  {
    var h, m := v / 0x1_0000, v / 0x100;
    [h / 0x100, h % 0x100, m % 0x100, v % 0x100]
  }

  function Join32(b0: byte, b1: byte, b2: byte, b3: byte): u32 {
    0x100_0000 * b0 + 0x1_0000 * b1 + 0x100 * b2 + b3
  }

  function Get32(d: seq<byte>, pos: nat): u32
    requires pos + 4 <= |d|
  {
    Join32(d[pos], d[pos + 1], d[pos + 2], d[pos + 3])
  }

  lemma JoinBe(v: u32)
    ensures var b := Be32(v); Join32(b[0], b[1], b[2], b[3]) == v
  {
    assert v / 0x100 / 0x100 == v / 0x1_0000;
  }

  lemma FourBytes(d: seq<byte>, pos: nat, s: seq<byte>)
    requires pos + 4 <= |d| && s == d[pos..pos + 4]
    ensures s[0] == d[pos] && s[1] == d[pos + 1] && s[2] == d[pos + 2] && s[3] == d[pos + 3]
  {
  }

  lemma GetBe(d: seq<byte>, pos: nat, v: u32)
    requires pos + 4 <= |d| && d[pos..pos + 4] == Be32(v)
    ensures Get32(d, pos) == v
  {
    hide Be32, Join32;
    JoinBe(v);
    FourBytes(d, pos, d[pos..pos + 4]);
  }

  function Words(ws: seq<u32>): (b: seq<byte>)
    ensures |b| == 4 * |ws|
  {
    if ws == [] then [] else Be32(ws[0]) + Words(ws[1..])
  }

  lemma {:induction false} WordsAppend(x: seq<u32>, y: seq<u32>)
    ensures Words(x + y) == Words(x) + Words(y)
  {
    hide Be32;
    if x == [] {
      assert x + y == y;
    } else {
      assert (x + y)[1..] == x[1..] + y;
      WordsAppend(x[1..], y);
    }
  }

  /** The buffer holds `s` at `pos`. */
  predicate Holds(d: seq<byte>, pos: nat, s: seq<byte>) {
    pos + |s| <= |d| && d[pos..pos + |s|] == s
  }

  /** A part of what a buffer holds. */
  lemma HoldsSlice(d: seq<byte>, pos: nat, s: seq<byte>, i: nat, t: seq<byte>)
    requires Holds(d, pos, s) && i + |t| <= |s| && s[i..i + |t|] == t
    ensures Holds(d, pos + i, t)
  {
    forall k | 0 <= k < |t| ensures d[pos + i + k] == t[k] {
      assert d[pos..pos + |s|][i + k] == s[i..i + |t|][k];
    }
  }

  lemma HoldsPart(d: seq<byte>, pos: nat, x: seq<byte>, y: seq<byte>)
    requires Holds(d, pos, x + y)
    ensures Holds(d, pos, x) && Holds(d, pos + |x|, y)
  {
    hide Holds;
    assert (x + y)[0..0 + |x|] == x && (x + y)[|x|..|x| + |y|] == y;
    HoldsSlice(d, pos, x + y, 0, x);
    HoldsSlice(d, pos, x + y, |x|, y);
  }

  lemma {:induction false} WordAt(d: seq<byte>, pos: nat, ws: seq<u32>, i: nat)
    requires Holds(d, pos, Words(ws)) && i < |ws|
    ensures pos + 4 * i + 4 <= |d| && Get32(d, pos + 4 * i) == ws[i]
    decreases i
  {
    hide Be32, Get32, Words, Holds;
    FirstHeld(d, pos, ws);
    if i == 0 {
      GetHeld(d, pos, ws[0]);
    } else {
      WordAt(d, pos + 4, ws[1..], i - 1);
    }
  }

  lemma FirstHeld(d: seq<byte>, pos: nat, ws: seq<u32>)
    requires ws != [] && Holds(d, pos, Words(ws))
    ensures Holds(d, pos, Be32(ws[0])) && Holds(d, pos + 4, Words(ws[1..]))
  {
    hide Be32, Words, Holds;
    WordsFirst(ws);
    HoldsPart(d, pos, Be32(ws[0]), Words(ws[1..]));
  }

  lemma WordsFirst(ws: seq<u32>)
    requires ws != []
    ensures Words(ws) == Be32(ws[0]) + Words(ws[1..])
  {
    hide Be32;
  }

  lemma GetHeld(d: seq<byte>, pos: nat, v: u32)
    requires Holds(d, pos, Be32(v))
    ensures pos + 4 <= |d| && Get32(d, pos) == v
  {
    hide Be32, Get32;
    GetBe(d, pos, v);
  }

  /** Overwrites one word. */
  function PutAt(d: seq<byte>, pos: nat, v: u32): (r: seq<byte>)
    requires pos + 4 <= |d|
    ensures |r| == |d|
  {
    d[..pos] + Be32(v) + d[pos + 4..]
  }

  /** Overwriting a word inside a run of words replaces that word. */
  lemma {:induction false} PutWord(ws: seq<u32>, i: nat, v: u32, rest: seq<byte>)
    requires i < |ws|
    ensures PutAt(Words(ws) + rest, 4 * i, v) == Words(ws[i := v]) + rest
  {
    hide Be32;
    hide Words;
    var x, y := ws[..i], ws[i + 1..];
    assert ws == x + [ws[i]] + y && ws[i := v] == x + [v] + y;
    WordsMiddle(x, ws[i], y);
    WordsMiddle(x, v, y);
    PutMiddle(Words(x), Be32(ws[i]), Words(y) + rest, v);
    Assoc(Words(x) + Be32(ws[i]), Words(y), rest);
    Assoc(Words(x) + Be32(v), Words(y), rest);
  }

  lemma WordsMiddle(x: seq<u32>, v: u32, y: seq<u32>)
    ensures Words(x + [v] + y) == Words(x) + Be32(v) + Words(y)
  {
    hide Be32;
    WordsAppend(x + [v], y);
    WordsAppend(x, [v]);
    assert Words([v]) == Be32(v) + [];
  }

  lemma PutMiddle(x: seq<byte>, old4: seq<byte>, y: seq<byte>, v: u32)
    requires |old4| == 4
    ensures PutAt(x + old4 + y, |x|, v) == x + Be32(v) + y
  {
    hide Be32;
    var d := x + old4 + y;
    assert d[..|x|] == x && d[|x| + 4..] == y;
  }

  lemma Assoc<T>(x: seq<T>, y: seq<T>, z: seq<T>)
    ensures x + (y + z) == (x + y) + z
  {
  }

  lemma Splice<T>(x: seq<T>, y: seq<T>, z: seq<T>, i: nat, v: T)
    requires i < |y|
    ensures (x + (y + z))[|x| + i := v] == (x + y[i := v]) + z
  {
  }

  // -------- sequential reads

  /** Reads n words, failing past the end of the buffer; positions are 32-bit. */
  function ReadWords(d: seq<byte>, pos: u32, n: nat): (r: Result<seq<u32>>)
    ensures r.Ok? ==> |r.value| == n
    decreases n
  {
    if n == 0 then Ok([])
    else if pos + 4 > |d| then Fail
    else
      var rest :- ReadWords(d, U32(pos + 4), n - 1);
      Ok([Get32(d, pos)] + rest)
  }

  lemma {:induction false} ReadWordsOf(d: seq<byte>, pos: u32, ws: seq<u32>)
    requires Holds(d, pos, Words(ws)) && |d| < TWO32
    ensures ReadWords(d, pos, |ws|) == Ok(ws)
    decreases |ws|
  {
    hide Be32, Get32;
    if ws != [] {
      WordAt(d, pos, ws, 0);
      HoldsPart(d, pos, Be32(ws[0]), Words(ws[1..]));
      U32Id(pos + 4);
      assert [ws[0]] + ws[1..] == ws;
      ReadWordsOf(d, U32(pos + 4), ws[1..]);
    }
  }

  // -------- strings

  /** The characters before the first NUL: what `c_str` shows of a string. */
  function UpToNul(s: seq<byte>): (r: seq<byte>)
    ensures r <= s && 0 !in r && (|r| < |s| ==> s[|r|] == 0)
    ensures r == s <==> 0 !in s
  {
    if s == [] || s[0] == 0 then [] else
      var t := UpToNul(s[1..]);
      assert s == [s[0]] + s[1..];
      [s[0]] + t
  }

  /** The NUL-terminated string at a position. */
  function CString(d: seq<byte>, pos: nat): Result<seq<byte>>
    decreases |d| - pos
  {
    if pos >= |d| then Fail
    else if d[pos] == 0 then Ok([])
    else
      var rest :- CString(d, pos + 1);
      Ok([d[pos]] + rest)
  }

  lemma {:induction false} CStringOf(d: seq<byte>, pos: nat, s: seq<byte>)
    requires 0 !in s && Holds(d, pos, s + [0])
    ensures CString(d, pos) == Ok(s)
    decreases |s|
  {
    var w := d[pos..pos + |s + [0]|];
    assert w[0] == d[pos];
    if s != [] {
      assert s + [0] == [s[0]] + (s[1..] + [0]);
      HoldsPart(d, pos, [s[0]], s[1..] + [0]);
      CStringOf(d, pos + 1, s[1..]);
      assert [s[0]] + s[1..] == s;
    }
  }
}
