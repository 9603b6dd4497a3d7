/** The public entry points (fastlz/fastlz.cc:112-144) and the round trip. */
module FastLz {
  import opened Options
  import opened FastLzFormat
  import opened FastLzGreedy
  import opened FastLzDecoder
  import opened FastLzDecompressor
  import opened FastLzCompressor

  /** A choice of compressor. */
  datatype Api = Default | AtLevel(level: int)

  /** The level that compresses an input of this length, if any does. */
  function LevelOf(api: Api, length: nat): Option<Level> {
    match api
    case Default => Some(if length < 65536 then One else Two)
    case AtLevel(level) => if level == 1 then Some(One) else if level == 2 then Some(Two) else None
  }

  /** The output of a compressor: `n` bytes of it decode to the input and carry the
      level, and the result is `n` as an `int`. They are what the scan of the input
      decides; so without a match to take, all of the input is literals, and equal bytes
      are little more than one match. */
  ghost predicate Packed(level: Level, input: seq<Byte>, behind: Byte, output: seq<Byte>, n: nat, r: int) {
    && n <= |output| && n <= |input| + |input| / 32 + 1 && r == ToInt(n)
    && (if input == [] then n == 0 else Compressed(output[..n], input))
    && (1 <= |input| < 4 ==> output[..n] == [|input| - 1] + input)
    && (|input| >= 4 ==> exists trace :: IsOutput(level, input, behind, trace, output[..n]))
    && (|input| >= 4 ==> |output| > 0 && output[0] / 32 == if level.One? then 0 else 1)
    && (|input| >= 4 && Incompressible(level, input) ==> n == |input| + (|input| + MAX_COPY - 1) / MAX_COPY)
    && (|input| >= 15 && Constant(input) ==> n == ConstantPacked(level, |input|))
  }

  /** Short inputs use level 1, the others level 2. `behind` is the byte behind the input. */
  method FastlzCompress(input: seq<Byte>, length: int, behind: Byte, output: array<Byte>) returns (r: int, ghost n: nat)
    requires IsInput(input, length) && RoomFor(|input|, output.Length)
    modifies output
    ensures length >= 0 ==> Packed(if length < 65536 then One else Two, input, behind, output[..], n, r)
    ensures length < 0 ==> HeaderOnly(length, old(output[..]), output[..], r)
    ensures length >= 15 && Constant(input) ==> r == ConstantPacked(if length < 65536 then One else Two, length)
  {
    hide Compressed, Incompressible, IsOutput, Constant;
    ghost var past, trace;
    if length < 65536 {
      r, n, trace, past := Compress(One, input, length, behind, output);
    } else {
      r, n, trace, past := Compress(Two, input, length, behind, output);
    }
    assert output[..][..n] == output[..n];
  }

  /** Levels other than 1 and 2 produce nothing. */
  method FastlzCompressLevel(level: int, input: seq<Byte>, length: int, behind: Byte, output: array<Byte>)
    returns (r: int, ghost n: nat)
    requires IsInput(input, length) && RoomFor(|input|, output.Length)
    modifies output
    ensures level == 1 && length >= 0 ==> Packed(One, input, behind, output[..], n, r)
    ensures level == 2 && length >= 0 ==> Packed(Two, input, behind, output[..], n, r)
    ensures level in {1, 2} && length < 0 ==> HeaderOnly(length, old(output[..]), output[..], r)
    ensures level !in {1, 2} ==> r == n == 0 && output[..] == old(output[..])
  {
    hide Compressed, Incompressible, IsOutput, Constant;
    ghost var past, trace;
    if level == 1 {
      r, n, trace, past := Compress(One, input, length, behind, output);
    } else if level == 2 {
      r, n, trace, past := Compress(Two, input, length, behind, output);
    } else {
      r, n := 0, 0;
    }
    assert level in {1, 2} ==> output[..][..n] == output[..n];
  }

  /** Reads the level from the first byte; an unknown level is an error. */
  method FastlzDecompress(strictAlign: bool, pl: Place, mem: seq<Byte>, length: int, output: array<Byte>, maxout: int)
    returns (r: CallResult)
    requires length <= |mem| && maxout <= output.Length
    modifies output
    ensures match DecodeAny(pl, mem, length, maxout)
            case Done(data) => r == Returns(|data|) && |data| <= output.Length && output[..|data|] == data
            case Corrupt => r == Returns(0)
            case Fault => r == Faults
            case Stray => r == Strays
    ensures forall i | maxout <= i < output.Length && 0 <= i :: output[i] == old(output[i])
  {
    if |mem| == 0 { return Faults; }
    var level := mem[0] / 32 + 1;
    if level == 1 {
      r := Decompress(One, strictAlign, pl, mem, length, output, maxout);
    } else if level == 2 {
      r := Decompress(Two, strictAlign, pl, mem, length, output, maxout);
    } else {
      r := Returns(0);
    }
  }

  /** The round trip: whatever compressed the input, and whichever copy loop the
      decompressor was built with, the input comes back, byte for byte, in any
      output buffer that can hold it, wherever that lies in the address space, if
      and only if the packed length fits an `int`. Up to `MAX_PACKABLE` bytes it
      does; an incompressible input of more is lost. */
  method RoundTrip(api: Api, strictAlign: bool, pl: Place, input: seq<Byte>, behind: Byte, maxout: nat)
    returns (back: seq<Byte>, r: CallResult, ghost n: nat)
    requires 1 <= |input| < 0x8000_0000 && |input| <= maxout && Contains(pl, maxout)
    requires LevelOf(api, |input|).Some?
    ensures n < 0x8000_0000 ==> r == Returns(|input|) && back == input
    ensures n >= 0x8000_0000 ==> r == Returns(0)
    ensures |input| <= MAX_PACKABLE ==> n < 0x8000_0000
    ensures |input| > MAX_PACKABLE && Incompressible(LevelOf(api, |input|).value, input) ==> n >= 0x8000_0000
  {
    hide Incompressible, DecodeAny, IsOutput, Constant;
    var packed := new Byte[|input| + |input| / 32 + 1](_ => 0);
    var length;
    match api {
      case Default => length, n := FastlzCompress(input, |input|, behind, packed);
      case AtLevel(level) => length, n := FastlzCompressLevel(level, input, |input|, behind, packed);
    }
    PackedLengthFits(|input|);
    var unpacked := new Byte[maxout](_ => 0);
    if length < 0 {
      NegativeLength(pl, packed[..], length, maxout);
    }
    assert packed[..][..n] <= packed[..];
    r := FastlzDecompress(strictAlign, pl, packed[..], length, unpacked, maxout);
    back := unpacked[..|input|];
  }

  // ---- an input that is lost -----------------------------------------------

  /** The `t`-th digit of a counter, in base 85. */
  function Digit(k: nat, t: nat): (d: nat)
    ensures d < 85
  {
    if t == 0 then k % 85 else Digit(k / 85, t - 1)
  }

  /** A text of counters, three digits each; every byte tells which digit it is. */
  function CounterByte(i: nat): Byte {
    85 * (i % 3) + Digit(i / 3, i % 3)
  }

  function CounterText(length: nat): (s: seq<Byte>)
    ensures |s| == length && forall i | 0 <= i < length :: s[i] == CounterByte(i)
  {
    seq(length, i requires 0 <= i => CounterByte(i))
  }

  lemma CounterBytesAgree(i: nat, j: nat)
    requires CounterByte(i) == CounterByte(j)
    ensures i % 3 == j % 3 && Digit(i / 3, i % 3) == Digit(j / 3, j % 3)
  {
  }

  lemma SameLow(k: nat, e: nat)
    requires k % 85 == (k + e) % 85
    ensures e % 85 == 0
  {
  }

  lemma ShiftDigit(k: nat, f: nat)
    ensures (k + 85 * f) / 85 == k / 85 + f
  {
  }

  /** Counters less than 85^3 apart differ in one of their three lowest digits, even
      if not all three are read off the same counter. */
  lemma CountersApart(k0: nat, k1: nat, k2: nat, e: nat)
    requires 0 < e < 85 * 85 * 85
    ensures Digit(k0, 0) != Digit(k0 + e, 0) || Digit(k1, 1) != Digit(k1 + e, 1) || Digit(k2, 2) != Digit(k2 + e, 2)
  {
    if Digit(k0, 0) == Digit(k0 + e, 0) && Digit(k1, 1) == Digit(k1 + e, 1) && Digit(k2, 2) == Digit(k2 + e, 2) {
      SameLow(k0, e);
      var f := e / 85;
      ShiftDigit(k1, f);
      assert Digit(k1, 1) == Digit(k1 / 85, 0) && Digit(k1 + e, 1) == Digit(k1 / 85 + f, 0);
      SameLow(k1 / 85, f);
      var g := f / 85;
      ShiftDigit(k2, f);
      ShiftDigit(k2 / 85, g);
      assert Digit(k2, 2) == Digit(k2 / 85 / 85, 0) && Digit(k2 + e, 2) == Digit(k2 / 85 / 85 + g, 0);
      SameLow(k2 / 85 / 85, g);
    }
  }

  lemma SameDigit(k: nat, t: nat, e: nat)
    requires t < 3 && CounterByte(3 * k + t) == CounterByte(3 * k + t + 3 * e)
    ensures Digit(k, t) == Digit(k + e, t)
  {
    ByteIs(k, t);
    assert 3 * k + t + 3 * e == 3 * (k + e) + t;
    ByteIs(k + e, t);
  }

  lemma ByteIs(k: nat, t: nat)
    requires t < 3
    ensures CounterByte(3 * k + t) == 85 * t + Digit(k, t)
  {
    hide Digit;
    assert (3 * k + t) / 3 == k && (3 * k + t) % 3 == t;
  }

  /** Byte `j` occurs again `d` places on. */
  predicate Recurs(j: nat, d: nat) {
    CounterByte(j) == CounterByte(j + d)
  }

  /** Three bytes in a row do not recur, all three, within reach of a match. */
  lemma NoRecurrence(i: nat, d: nat)
    requires 1 <= d < MAX_FARDISTANCE
    ensures !(Recurs(i, d) && Recurs(i + 1, d) && Recurs(i + 2, d))
  {
    hide CounterByte, Digit, Recurs;
    if Recurs(i, d) && Recurs(i + 1, d) && Recurs(i + 2, d) {
      var k, e := Thirds(i, d);
      ThreeDigits(i, k, d, e);
    }
  }

  lemma Thirds(i: nat, d: nat) returns (k: nat, e: nat)
    requires Recurs(i, d)
    ensures d == 3 * e && (i == 3 * k || i == 3 * k + 1 || i == 3 * k + 2)
  {
    CounterBytesAgree(i, i + d);
    hide Recurs, CounterByte, Digit;
    k, e := i / 3, d / 3;
  }

  lemma ThreeDigits(i: nat, k: nat, d: nat, e: nat)
    requires d == 3 * e && 0 < e < 85 * 85 * 85 && (i == 3 * k || i == 3 * k + 1 || i == 3 * k + 2)
    requires Recurs(i, d) && Recurs(i + 1, d)
    ensures !Recurs(i + 2, d)
  {
    hide CounterByte, Digit;
    if Recurs(i + 2, d) {
      if i == 3 * k {
        SameDigit(k, 0, e);
        SameDigit(k, 1, e);
        SameDigit(k, 2, e);
        CountersApart(k, k, k, e);
      } else if i == 3 * k + 1 {
        SameDigit(k, 1, e);
        SameDigit(k, 2, e);
        SameDigit(k + 1, 0, e);
        CountersApart(k + 1, k, k, e);
      } else {
        SameDigit(k, 2, e);
        SameDigit(k + 1, 0, e);
        SameDigit(k + 1, 1, e);
        CountersApart(k + 1, k + 1, k, e);
      }
    }
  }

  /** No match pays anywhere in such a text, at either level. */
  lemma CounterTextIsIncompressible(level: Level, length: nat)
    ensures Incompressible(level, CounterText(length))
  {
    hide CounterByte;
    var text := CounterText(length);
    forall anchor, d: nat | 2 <= anchor && anchor + 12 < |text|
      ensures !Pays(level, text, anchor, d)
    {
      if Pays(level, text, anchor, d) {
        assert forall k | anchor <= k < anchor + 3 :: text[k] == text[k - d];
        assert Recurs(anchor - d, d) && Recurs(anchor + 1 - d, d) && Recurs(anchor + 2 - d, d);
        NoRecurrence(anchor - d, d);
      }
    }
  }

  /** So from the first size that is not packable on there is an input, of a legal
      length, that compresses without an error and never comes back. */
  method CounterTextIsLost(api: Api, strictAlign: bool, pl: Place, length: nat, maxout: nat) returns (r: CallResult)
    requires MAX_PACKABLE < length < 0x8000_0000 && length <= maxout && Contains(pl, maxout)
    requires LevelOf(api, length).Some?
    ensures r == Returns(0)
  {
    hide Incompressible, CounterText;
    CounterTextIsIncompressible(LevelOf(api, length).value, length);
    var back;
    ghost var n;
    back, r, n := RoundTrip(api, strictAlign, pl, CounterText(length), 0, maxout);
  }
}
