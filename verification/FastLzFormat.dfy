/** The FastLZ byte stream, independently of the code that writes or reads it.

    A stream is a list of instructions. `Expand` gives the text that a list of
    instructions stands for, `EncodeAll` gives its bytes. Both levels share the
    instruction set; they differ in how a match is laid out and in its limits. */
module FastLzFormat {

  type Byte = b: int | 0 <= b < 256

  /** The two instantiations of the codec body. */
  datatype Level = One | Two

  const MAX_COPY := 32
  const MAX_LEN := 264
  /** Level 2 distances (less one) from here on use the 16-bit escape. */
  const FAR_BIAS := 8191
  const MAX_FARDISTANCE := 65535 + FAR_BIAS - 1

  function MaxDistance(level: Level): nat {
    if level.One? then 8192 else FAR_BIAS
  }

  /** `len` bytes copied from `dist` bytes back, or a run of literal bytes. */
  datatype Instr = Literal(data: seq<Byte>) | Match(len: nat, dist: nat)

  /** What the byte format can express. */
  predicate Encodable(level: Level, i: Instr) {
    match i
    case Literal(data) => 1 <= |data| <= MAX_COPY
    case Match(len, dist) =>
      && 3 <= len < 0x1_0000_0003
      && 1 <= dist
      && (level.One? ==> len <= MAX_LEN && dist <= 8192)
      && (level.Two? ==> dist <= 65535 + FAR_BIAS + 1)
  }

  /** ... and what it may say after `produced` bytes. */
  predicate ValidInstr(level: Level, i: Instr, produced: nat) {
    Encodable(level, i) && (i.Match? ==> i.dist <= produced)
  }

  // ---- meaning -------------------------------------------------------------

  /** `out` followed by `n` bytes, each equal to the byte `d` places before it. */
  function CopyOut(out: seq<Byte>, d: nat, n: nat): (r: seq<Byte>)
    requires 1 <= d <= |out|
    ensures |r| == |out| + n
    decreases n
  {
    if n == 0 then out else CopyOut(out + [out[|out| - d]], d, n - 1)
  }

  function Apply(out: seq<Byte>, i: Instr): seq<Byte> {
    match i
    case Literal(data) => out + data
    case Match(len, dist) => if 1 <= dist <= |out| then CopyOut(out, dist, len) else out
  }

  function Expand(ts: seq<Instr>): seq<Byte> {
    if ts == [] then [] else Apply(Expand(ts[..|ts| - 1]), ts[|ts| - 1])
  }

  predicate WellFormed(level: Level, ts: seq<Instr>) {
    ts == [] ||
    (WellFormed(level, ts[..|ts| - 1]) &&
     ValidInstr(level, ts[|ts| - 1], |Expand(ts[..|ts| - 1])|))
  }

  // ---- bytes ---------------------------------------------------------------

  /** A level 2 length above the field: 255 for every full 255, then the rest. */
  function LengthChain(n: nat): (c: seq<Byte>)
    ensures |c| >= 1
  {
    if n < 255 then [n] else [255] + LengthChain(n - 255)
  }

  lemma {:induction false} ChainSize(n: nat)
    ensures |LengthChain(n)| == n / 255 + 1
  {
    if n >= 255 {
      ChainSize(n - 255);
    }
  }

  function IsFar(level: Level, dist: nat): bool {
    level.Two? && dist > FAR_BIAS
  }

  function LengthBytes(level: Level, len: nat): seq<Byte>
    requires 3 <= len && (level.One? ==> len <= MAX_LEN)
  {
    if len < 9 then [] else if level.One? then [len - 9] else LengthChain(len - 9)
  }

  function OffsetBytes(level: Level, dist: nat): seq<Byte>
    requires 1 <= dist && (level.Two? ==> dist <= 65535 + FAR_BIAS + 1)
  {
    var d := dist - 1;
    if IsFar(level, dist) then [255, (d - FAR_BIAS) / 256, (d - FAR_BIAS) % 256] else [d % 256]
  }

  function LengthField(len: nat): (r: nat)
    requires 3 <= len
    ensures 1 <= r <= 7
  {
    if len < 9 then len - 2 else 7
  }

  function OffsetField(level: Level, dist: nat): (r: nat)
    requires 1 <= dist && (level.One? ==> dist <= 8192)
    ensures r < 32
  {
    if IsFar(level, dist) then 31 else (dist - 1) / 256
  }

  /** The first byte of an instruction: below 32 for literals. */
  function Control(level: Level, i: Instr): Byte
    requires Encodable(level, i)
  {
    match i
    case Literal(data) => |data| - 1
    case Match(len, dist) => LengthField(len) * 32 + OffsetField(level, dist)
  }

  function Payload(level: Level, i: Instr): (s: seq<Byte>)
    requires Encodable(level, i)
    ensures |s| >= 1
  {
    match i
    case Literal(data) => data
    case Match(len, dist) => LengthBytes(level, len) + OffsetBytes(level, dist)
  }

  /** The bytes of an instruction; none for one the format cannot express. */
  function Encode(level: Level, i: Instr): seq<Byte> {
    if Encodable(level, i) then [Control(level, i)] + Payload(level, i) else []
  }

  function EncodeAll(level: Level, ts: seq<Instr>): seq<Byte> {
    if ts == [] then []
    else EncodeAll(level, ts[..|ts| - 1]) + Encode(level, ts[|ts| - 1])
  }

  // ---- properties ----------------------------------------------------------

  /** The layout in bytes: length less 2 in the top three bits and distance less 1 in the
      rest; 7 stands for a longer match, whose length less 9 follows; the level 2 escape
      is the largest distance field and 255. */
  lemma Layouts(data: seq<Byte>)
    ensures 1 <= |data| <= MAX_COPY ==> forall level :: Encode(level, Literal(data)) == [|data| - 1] + data
    ensures Encode(One, Match(3, 1)) == [0x20, 0]
    ensures Encode(One, Match(8, 8192)) == [0xDF, 0xFF]
    ensures Encode(One, Match(9, 259)) == [0xE1, 0, 2]
    ensures Encode(One, Match(264, 1)) == [0xE0, 0xFF, 0]
    ensures Encode(Two, Match(8, 8191)) == [0xDF, 0xFE]
    ensures Encode(Two, Match(265, 259)) == [0xE1, 0xFF, 1, 2]
    ensures Encode(Two, Match(5, 8192)) == [0x7F, 0xFF, 0, 0]
    ensures Encode(Two, Match(264, 8192 + 0x0102)) == [0xFF, 0xFF, 0, 0xFF, 1, 2]
  {
    LongChain();
  }

  lemma LongChain()
    ensures LengthChain(255) == [255, 0] && LengthChain(256) == [255, 1]
  {
    assert LengthChain(0) == [0] && LengthChain(1) == [1];
  }

  /** A copy keeps what was there and fills in one period after the other,
      whether or not source and destination overlap. */
  lemma {:induction false} CopyOutAt(out: seq<Byte>, d: nat, n: nat)
    requires 1 <= d <= |out|
    ensures CopyOut(out, d, n)[..|out|] == out
    ensures forall i | |out| <= i < |out| + n :: CopyOut(out, d, n)[i] == CopyOut(out, d, n)[i - d]
    decreases n
  {
    if n > 0 {
      var next := out + [out[|out| - d]];
      CopyOutAt(next, d, n - 1);
      var r := CopyOut(out, d, n);
      assert r[..|next|] == next;
      assert r[..|out|] == r[..|next|][..|out|];
      assert r[|out|] == next[|out|] && r[|out| - d] == next[|out| - d];
    }
  }

  /** ... and nothing else does: that description determines the copy. */
  lemma {:induction false} CopyOutUnique(out: seq<Byte>, d: nat, n: nat, r: seq<Byte>)
    requires 1 <= d <= |out|
    requires |r| == |out| + n && r[..|out|] == out
    requires forall i | |out| <= i < |r| :: r[i] == r[i - d]
    ensures r == CopyOut(out, d, n)
    decreases n
  {
    if n > 0 {
      var next := out + [out[|out| - d]];
      assert r[|out|] == r[|out| - d] == r[..|out|][|out| - d];
      assert r[..|next|] == next;
      CopyOutUnique(next, d, n - 1, r);
    } else {
      assert r == r[..|out|];
    }
  }

  /** Splitting a copy in two is the same copy. */
  lemma {:induction false} CopyOutSplit(out: seq<Byte>, d: nat, a: nat, b: nat)
    requires 1 <= d <= |out|
    ensures CopyOut(CopyOut(out, d, a), d, b) == CopyOut(out, d, a + b)
    decreases a
  {
    if a > 0 {
      CopyOutSplit(out + [out[|out| - d]], d, a - 1, b);
    }
  }

  /** If a text repeats itself at distance `d` then a copy rebuilds that part of it. */
  lemma CopyRebuilds(text: seq<Byte>, from: nat, upTo: nat, d: nat)
    requires 1 <= d <= from <= upTo <= |text|
    requires forall k | from <= k < upTo :: text[k] == text[k - d]
    ensures CopyOut(text[..from], d, upTo - from) == text[..upTo]
  {
    CopyOutUnique(text[..from], d, upTo - from, text[..upTo]);
  }

  /** Every prefix of a well-formed list is well formed, and its bytes and its
      text are prefixes of those of the whole list. */
  lemma {:induction false} PrefixOf(level: Level, ts: seq<Instr>, i: nat)
    requires WellFormed(level, ts) && i <= |ts|
    ensures WellFormed(level, ts[..i])
    ensures EncodeAll(level, ts[..i]) <= EncodeAll(level, ts)
    ensures Expand(ts[..i]) <= Expand(ts)
  {
    if i == |ts| {
      assert ts[..i] == ts;
    } else {
      var init, last := ts[..|ts| - 1], ts[|ts| - 1];
      PrefixOf(level, init, i);
      assert init[..i] == ts[..i];
      if last.Match? {
        CopyOutAt(Expand(init), last.dist, last.len);
      }
      assert Expand(init) <= Expand(ts);
    }
  }

  /** Adding one instruction at the end. */
  lemma Snoc(level: Level, ts: seq<Instr>, t: Instr)
    requires WellFormed(level, ts) && ValidInstr(level, t, |Expand(ts)|)
    ensures WellFormed(level, ts + [t])
    ensures EncodeAll(level, ts + [t]) == EncodeAll(level, ts) + Encode(level, t)
    ensures Expand(ts + [t]) == Apply(Expand(ts), t)
  {
    assert (ts + [t])[..|ts + [t]| - 1] == ts;
  }

  /** The bytes of instruction `i` lie right after those of the ones before it. */
  lemma InstrAt(level: Level, ts: seq<Instr>, i: nat)
    requires WellFormed(level, ts) && i < |ts|
    ensures WellFormed(level, ts[..i]) && WellFormed(level, ts[..i + 1])
    ensures ValidInstr(level, ts[i], |Expand(ts[..i])|)
    ensures EncodeAll(level, ts[..i + 1]) == EncodeAll(level, ts[..i]) + Encode(level, ts[i])
    ensures EncodeAll(level, ts[..i + 1]) <= EncodeAll(level, ts)
    ensures Expand(ts[..i + 1]) == Apply(Expand(ts[..i]), ts[i]) <= Expand(ts)
  {
    PrefixOf(level, ts, i + 1);
    assert ts[..i + 1][..i] == ts[..i];
  }

  lemma {:induction false} FirstByte(level: Level, ts: seq<Instr>)
    requires WellFormed(level, ts) && ts != [] && ts[0].Literal?
    ensures EncodeAll(level, ts) != [] && EncodeAll(level, ts)[0] < 32
  {
    InstrAt(level, ts, 0);
    assert EncodeAll(level, ts[..1])[0] == Control(level, ts[0]);
  }
}
