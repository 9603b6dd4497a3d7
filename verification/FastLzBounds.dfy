/** When the decompressor stays within its output (fastlz/fastlz.cc:447-453,
    510-517). It tests addresses, and these wrap around: the length of a match is
    any 32-bit number, so that the address behind it can come out small, and the
    address of its source, for an output that lies low, large. */
module FastLzBounds {
  import opened Options
  import opened FastLzFormat
  import opened FastLzDecoder

  /** The largest length and distance (both less their bias) that can be read. */
  const MAX_READ := 0xFFFF_FFFF
  const MAX_BACK := 65535 + FAR_BIAS

  /** Enough addresses above the output, and below it, for matches of up to `longest`:
      nothing wraps. A match needs four bytes of room, so with less than that there
      need be none below. */
  predicate Spacious(pl: Place, maxout: int, longest: nat) {
    if maxout == 0 then pl.output + MAX_COPY < pl.space
    else pl.output + maxout + longest + 3 < pl.space && (maxout >= 4 ==> MAX_BACK <= pl.output)
  }

  /** No match whose control byte is fetched within the input is longer. */
  ghost predicate Shorter(level: Level, mem: seq<Byte>, length: int, longest: nat) {
    forall ip: nat, ctrl: Byte | ip <= length && ip <= |mem| && ctrl >= 32 ::
      MatchOperands(level, mem, ip, ctrl).Some? ==> MatchOperands(level, mem, ip, ctrl).value.len <= longest
  }

  lemma AddrAbove(pl: Place, k: int)
    requires 0 <= pl.output + k < pl.space
    ensures Addr(pl, k) == pl.output + k
  {
  }

  /** With enough space both tests are exact. */
  lemma TestsAreExact(pl: Place, maxout: int, op: nat, len: nat, back: nat, longest: nat)
    requires Contains(pl, maxout) && Spacious(pl, maxout, longest) && 1 <= op <= maxout
    requires len <= longest && back <= MAX_BACK
    requires !PastEnd(pl, op + len + 3, maxout) && !BeforeStart(pl, op - back - 1)
    ensures op + len + 3 <= maxout && back + 1 <= op
  {
    AddrAbove(pl, op + len + 3);
    AddrAbove(pl, maxout);
    AddrAbove(pl, 0);
    AddrAbove(pl, op - back - 1);
    hide Addr;
  }

  lemma LiteralTestIsExact(pl: Place, maxout: int, op: nat, n: nat, longest: nat)
    requires Contains(pl, maxout) && Spacious(pl, maxout, longest) && longest >= MAX_COPY
    requires op <= maxout && n <= MAX_COPY && !PastEnd(pl, op + n, maxout)
    ensures op + n <= maxout
  {
    AddrAbove(pl, op + n);
    AddrAbove(pl, maxout);
    hide Addr;
  }

  lemma BackIsBounded(level: Level, mem: seq<Byte>, ip: nat, ctrl: Byte)
    requires ctrl >= 32 && ip <= |mem| && MatchOperands(level, mem, ip, ctrl).Some?
    ensures MatchOperands(level, mem, ip, ctrl).value.back <= MAX_BACK
    ensures MatchOperands(level, mem, ip, ctrl).value.len <= MAX_READ
  {
  }

  lemma StepNeverStrays(level: Level, pl: Place, mem: seq<Byte>, length: int, ctrl: Byte, ip: nat,
                        out: seq<Byte>, maxout: int, longest: nat)
    requires length <= |mem| && ip <= |mem| && |out| <= maxout && (ctrl >= 32 ==> out != [] && ip <= length)
    requires Contains(pl, maxout) && Spacious(pl, maxout, longest) && longest >= MAX_COPY
    requires Shorter(level, mem, length, longest)
    ensures Step(level, pl, mem, length, ctrl, ip, out, maxout) != Stop(Stray)
  {
    hide MatchOperands, Contains, Spacious, PastEnd, BeforeStart, CopyOut;
    if ctrl >= 32 {
      var operands := MatchOperands(level, mem, ip, ctrl);
      if operands.Some? {
        var Operands(len, back, next) := operands.value;
        BackIsBounded(level, mem, ip, ctrl);
        if !PastEnd(pl, |out| + len + 3, maxout) && !BeforeStart(pl, |out| - back - 1) {
          TestsAreExact(pl, maxout, |out|, len, back, longest);
        }
      }
    } else if !PastEnd(pl, |out| + (ctrl + 1), maxout) {
      LiteralTestIsExact(pl, maxout, |out|, ctrl + 1, longest);
    }
  }

  lemma {:induction false} DecodeNeverStrays(level: Level, pl: Place, mem: seq<Byte>, length: int, ctrl: Byte, ip: nat,
                                             out: seq<Byte>, maxout: int, longest: nat)
    requires length <= |mem| && ip <= |mem| && |out| <= maxout && (ctrl >= 32 ==> out != [] && ip <= length)
    requires Contains(pl, maxout) && Spacious(pl, maxout, longest) && longest >= MAX_COPY
    requires Shorter(level, mem, length, longest)
    ensures DecodeFrom(level, pl, mem, length, ctrl, ip, out, maxout) != Stray
    decreases |mem| - ip
  {
    hide Step, Contains, Spacious, Shorter;
    StepNeverStrays(level, pl, mem, length, ctrl, ip, out, maxout, longest);
    var next := Step(level, pl, mem, length, ctrl, ip, out, maxout);
    if next.Go? && next.ip < length {
      DecodeNeverStrays(level, pl, mem, length, mem[next.ip], next.ip + 1, next.out, maxout, longest);
    }
  }

  lemma AnyNeverStrays(pl: Place, mem: seq<Byte>, length: int, maxout: int, longest: nat)
    requires length <= |mem| && Contains(pl, maxout) && Spacious(pl, maxout, longest) && longest >= MAX_COPY
    requires Shorter(One, mem, length, longest) && Shorter(Two, mem, length, longest)
    ensures DecodeAny(pl, mem, length, maxout) != Stray
  {
    assert 0 <= maxout;
    hide DecodeFrom, Contains, Spacious, Shorter;
    if mem != [] {
      DecodeNeverStrays(One, pl, mem, length, mem[0] % 32, 1, [], maxout, longest);
      DecodeNeverStrays(Two, pl, mem, length, mem[0] % 32, 1, [], maxout, longest);
    }
  }

  // ---- a bound from the size of the input ----------------------------------

  /** A length grows by at most 255 a byte, and by less with the last. */
  lemma {:induction false} ChainGrowth(mem: seq<Byte>, ip: nat, len: nat)
    requires Chain(mem, ip, len).Some?
    ensures Chain(mem, ip, len).value.0 <= len + 255 * (Chain(mem, ip, len).value.1 - ip) - 1
    decreases |mem| - ip
  {
    if mem[ip] == 255 {
      ChainGrowth(mem, ip + 1, (len + 255) % 0x1_0000_0000);
    }
  }

  /** ... and ends within the input, or where the memory behind it first allows. */
  lemma {:induction false} ChainReach(input: seq<Byte>, tail: seq<Byte>, ip: nat, len: nat)
    requires ip <= |input| + ChainEnd(tail) && Chain(input + tail, ip, len).Some?
    ensures Chain(input + tail, ip, len).value.1 <= |input| + ChainEnd(tail) + 1
    decreases |input + tail| - ip
  {
    var mem := input + tail;
    if mem[ip] == 255 {
      if ip >= |input| {
        assert mem[ip] == tail[ip - |input|];
      }
      ChainReach(input, tail, ip + 1, (len + 255) % 0x1_0000_0000);
    }
  }

  /** How far a length chain can go: to the end of the input, and on through the 255s
      behind it. */
  function Reach(input: seq<Byte>, tail: seq<Byte>): nat {
    |input| + ChainEnd(tail)
  }

  /** A match covers at most 255 bytes for each byte it takes and one more, and for each
      byte that is left within reach, and 263. */
  lemma MatchSize(level: Level, input: seq<Byte>, tail: seq<Byte>, ip: nat, ctrl: Byte)
    requires ip <= |input| && ctrl >= 32 && MatchOperands(level, input + tail, ip, ctrl).Some?
    ensures var m := MatchOperands(level, input + tail, ip, ctrl).value;
            m.len + 3 <= 255 * (m.next - ip + 1) && m.len <= 255 * (Reach(input, tail) - ip) + 260
  {
    var mem := input + tail;
    assert ip < |mem| ==> mem[ip] == if ip < |input| then input[ip] else tail[0];
    if level.Two? && Chain(mem, ip, 6).Some? {
      ChainGrowth(mem, ip, 6);
      ChainReach(input, tail, ip, 6);
    }
    hide Chain;
    var m := MatchOperands(level, mem, ip, ctrl).value;
    var length := LengthOperand(level, mem, ip, ctrl / 32 - 1);
    assert length.Some? && m.len == length.value.0 && m.next >= length.value.1 + 1;
  }

  /** After the first literal run, what has been produced before a control byte lags
      behind 255 times the bytes before it. */
  predicate Lags(out: seq<Byte>, ip: nat) {
    |out| <= 255 * (ip - 1) - 509
  }

  /** Room for all that an input with this reach can produce, and for the farthest
      distance. */
  predicate Ample(pl: Place, maxout: int, reach: nat) {
    && Contains(pl, maxout) && pl.output + maxout + MAX_COPY < pl.space
    && pl.output + 255 * reach - 501 < pl.space
    && (maxout >= 4 ==> MAX_BACK <= pl.output)
  }

  lemma AmpleMatch(pl: Place, maxout: int, op: nat, len: nat, back: nat, reach: nat)
    requires Ample(pl, maxout, reach) && 1 <= op <= maxout && op + len + 3 <= 255 * reach - 501 && back <= MAX_BACK
    requires !PastEnd(pl, op + len + 3, maxout) && !BeforeStart(pl, op - back - 1)
    ensures op + len + 3 <= maxout && back + 1 <= op
  {
    AddrAbove(pl, op + len + 3);
    AddrAbove(pl, maxout);
    AddrAbove(pl, 0);
    assert op + len + 3 <= maxout;
    AddrAbove(pl, op - back - 1);
    hide Addr;
  }

  lemma AmpleLiteral(pl: Place, maxout: int, op: nat, n: nat, reach: nat)
    requires Ample(pl, maxout, reach) && op <= maxout && n <= MAX_COPY && !PastEnd(pl, op + n, maxout)
    ensures op + n <= maxout
  {
    AddrAbove(pl, op + n);
    AddrAbove(pl, maxout);
    hide Addr;
  }

  lemma StepStays(level: Level, pl: Place, input: seq<Byte>, tail: seq<Byte>, ctrl: Byte, ip: nat,
                  out: seq<Byte>, maxout: int)
    requires ip <= |input + tail| && |out| <= maxout && Ample(pl, maxout, Reach(input, tail))
    requires ctrl >= 32 ==> out != [] && ip <= |input| && Lags(out, ip)
    ensures Step(level, pl, input + tail, |input|, ctrl, ip, out, maxout) != Stop(Stray)
    ensures var next := Step(level, pl, input + tail, |input|, ctrl, ip, out, maxout);
            next.Go? && (Lags(out, ip) || (ip == 1 && out == [])) ==> Lags(next.out, next.ip + 1)
  {
    hide MatchOperands, Ample, PastEnd, BeforeStart, CopyOut;
    if ctrl >= 32 {
      var operands := MatchOperands(level, input + tail, ip, ctrl);
      if operands.Some? {
        var Operands(len, back, next) := operands.value;
        BackIsBounded(level, input + tail, ip, ctrl);
        MatchSize(level, input, tail, ip, ctrl);
        if !PastEnd(pl, |out| + len + 3, maxout) && !BeforeStart(pl, |out| - back - 1) {
          AmpleMatch(pl, maxout, |out|, len, back, Reach(input, tail));
        }
      }
    } else if !PastEnd(pl, |out| + (ctrl + 1), maxout) {
      AmpleLiteral(pl, maxout, |out|, ctrl + 1, Reach(input, tail));
    }
  }

  lemma {:induction false} DecodeStays(level: Level, pl: Place, input: seq<Byte>, tail: seq<Byte>, ctrl: Byte, ip: nat,
                                       out: seq<Byte>, maxout: int)
    requires ip <= |input + tail| && |out| <= maxout && Ample(pl, maxout, Reach(input, tail))
    requires Lags(out, ip) || (ip == 1 && out == [] && ctrl < 32)
    requires ctrl >= 32 ==> out != [] && ip <= |input|
    ensures DecodeFrom(level, pl, input + tail, |input|, ctrl, ip, out, maxout) != Stray
    decreases |input + tail| - ip
  {
    hide Step, Ample, Lags;
    StepStays(level, pl, input, tail, ctrl, ip, out, maxout);
    var next := Step(level, pl, input + tail, |input|, ctrl, ip, out, maxout);
    if next.Go? && next.ip < |input| {
      DecodeStays(level, pl, input, tail, (input + tail)[next.ip], next.ip + 1, next.out, maxout);
    }
  }

  /** A condition on the input at hand: with 255 addresses above the start of the output
      for every byte within reach, less 501, the decompressor stays within its output,
      whatever the bytes are. */
  lemma StaysInOutput(pl: Place, input: seq<Byte>, tail: seq<Byte>, maxout: int)
    requires Ample(pl, maxout, Reach(input, tail))
    ensures DecodeAny(pl, input + tail, |input|, maxout) != Stray
  {
    assert 0 <= maxout;
    hide DecodeFrom, Ample;
    if input + tail != [] {
      DecodeStays(One, pl, input, tail, (input + tail)[0] % 32, 1, [], maxout);
      DecodeStays(Two, pl, input, tail, (input + tail)[0] % 32, 1, [], maxout);
    }
  }

  /** With both conditions, any input at all ends in a verdict. */
  lemma EndsInVerdict(pl: Place, input: seq<Byte>, tail: seq<Byte>, maxout: int)
    requires input != [] && Cushion(tail) && Ample(pl, maxout, Reach(input, tail))
    ensures var r := DecodeAny(pl, input + tail, |input|, maxout);
            r == Corrupt || (r.Done? && 1 <= |r.data| <= maxout)
  {
    hide DecodeFrom, Ample, Cushion;
    StaysInOutput(pl, input, tail, maxout);
    DecodeStaysInMemory(One, pl, input, tail, (input + tail)[0] % 32, 1, [], maxout);
    DecodeStaysInMemory(Two, pl, input, tail, (input + tail)[0] % 32, 1, [], maxout);
  }

  // ---- the call that unpacks the kernel ------------------------------------

  /** On 32-bit addresses, to a fixed place. */
  function LoaderPlace(): Place {
    Location(0x1_0000_0000, 0x20_0000)
  }

  const LOADER_MAX := 0x160_0000
  /** The largest reach of an input that cannot leave the loader's output. */
  const LOADER_REACH := 16_834_786

  lemma {:induction false} ChainEndOf(n: nat)
    ensures ChainEnd(LengthChain(n) + [0]) == n / 255
    decreases n
  {
    if n >= 255 {
      ChainEndOf(n - 255);
      assert (LengthChain(n) + [0])[1..] == LengthChain(n - 255) + [0];
    } else {
      assert (LengthChain(n) + [0])[0] == n;
    }
  }

  /** The length of a match behind one literal byte that ends with the addresses. */
  const LOADER_LEN := 0x1_0000_0000 - 0x20_0000 - 1

  /** That match passes both tests without fitting the output. */
  lemma LoaderTests()
    ensures Contains(LoaderPlace(), LOADER_MAX) && LOADER_LEN + 1 > LOADER_MAX
    ensures !PastEnd(LoaderPlace(), 1 + LOADER_LEN, LOADER_MAX) && !BeforeStart(LoaderPlace(), 0)
  {
    Wrapped(LoaderPlace(), 1 + LOADER_LEN);
    AddrInside(LoaderPlace(), LOADER_MAX, 0);
  }

  /** A literal and one match, which ends just behind the last address. */
  lemma LoaderStrays() returns (input: seq<Byte>, tail: seq<Byte>)
    ensures Reach(input, tail) == LOADER_REACH + 1
    ensures DecodeAny(LoaderPlace(), input + tail, |input|, LOADER_MAX) == Stray
  {
    hide PastEnd, BeforeStart, Contains, LoaderPlace, LengthChain, ChainEnd, EncodeAll, Expand, WellFormed, Holds, At,
      Payload, Control, Addr, DecodeAny, Encodable;
    input, tail := [32, 7, 224], LengthChain(LOADER_LEN - 9) + [0];
    ChainEndOf(LOADER_LEN - 9);
    LoaderLayout(Match(LOADER_LEN, 1), input, tail);
    OneLiteral();
    LoaderTests();
    assert |input + tail| >= 3;
    LastMatchStrays(LoaderPlace(), [Literal([7])], Match(LOADER_LEN, 1), input + tail, 3, 2, [7], LOADER_MAX);
  }

  lemma OneLiteral()
    ensures WellFormed(Two, [Literal([7])]) && Expand([Literal([7])]) == [7] && EncodeAll(Two, [Literal([7])]) == [0, 7]
  {
    assert [] + [Literal([7])] == [Literal([7])];
    EmptyStream();
    Snoc(Two, [], Literal([7]));
    assert Encode(Two, Literal([7])) == [0, 7];
  }

  lemma LoaderLayout(t: Instr, input: seq<Byte>, tail: seq<Byte>)
    requires t.Match? && 9 <= t.len < 0x1_0000_0003 && t.dist == 1
    requires input == [32, 7, 224] && tail == LengthChain(t.len - 9) + [0]
    ensures Encodable(Two, t) && (input + tail)[2] == Control(Two, t) && At(input + tail, 3, Payload(Two, t))
    ensures (input + tail)[0] / 32 == 1 && Holds(input + tail, [0, 7])
  {
    hide LengthChain;
    assert Payload(Two, t) == tail;
  }

  /** No input with this reach leaves the output, exactly up to `LOADER_REACH`. */
  lemma LoaderStaysExactly(reach: nat)
    ensures (forall input: seq<Byte>, tail: seq<Byte> | Reach(input, tail) <= reach ::
               DecodeAny(LoaderPlace(), input + tail, |input|, LOADER_MAX) != Stray)
       <==> reach <= LOADER_REACH
  {
    hide DecodeAny, Reach;
    if reach <= LOADER_REACH {
      forall input: seq<Byte>, tail: seq<Byte> | Reach(input, tail) <= reach
        ensures DecodeAny(LoaderPlace(), input + tail, |input|, LOADER_MAX) != Stray
      {
        StaysInOutput(LoaderPlace(), input, tail, LOADER_MAX);
      }
    } else {
      var input, tail := LoaderStrays();
      assert Reach(input, tail) <= reach;
    }
  }

  // ---- outputs that are too small ------------------------------------------

  /** The last point up to which the text of a stream fits. */
  lemma {:induction false} FirstTooBig(ts: seq<Instr>, maxout: nat) returns (i: nat)
    requires |Expand(ts)| > maxout
    ensures i < |ts| && |Expand(ts[..i])| <= maxout < |Expand(ts[..i + 1])|
    decreases |ts|
  {
    var init := ts[..|ts| - 1];
    if |Expand(init)| <= maxout {
      i := |ts| - 1;
      assert ts[..i + 1] == ts;
    } else {
      i := FirstTooBig(init, maxout);
      assert init[..i] == ts[..i] && init[..i + 1] == ts[..i + 1];
    }
  }

  /** With enough space, an index behind the output is seen to be there. */
  lemma BehindIsPastEnd(pl: Place, maxout: int, op: nat, n: nat, longest: nat)
    requires Contains(pl, maxout) && Spacious(pl, maxout, longest) && longest >= MAX_COPY
    requires op <= maxout < op + n && (n <= MAX_COPY || (1 <= maxout && n <= longest + 3))
    ensures PastEnd(pl, op + n, maxout)
  {
    AddrAbove(pl, op + n);
    AddrAbove(pl, maxout);
  }

  lemma CopyIsRejected(pl: Place, m: Operands, out: seq<Byte>, maxout: int)
    requires PastEnd(pl, |out| + m.len + 3, maxout)
    ensures CopyStep(pl, m, out, maxout) == Stop(Corrupt)
  {
  }

  lemma LiteralIsRejected(level: Level, pl: Place, mem: seq<Byte>, length: int, n: nat, ip: nat,
                          out: seq<Byte>, maxout: int)
    requires length <= |mem| && ip <= |mem| && 1 <= n <= MAX_COPY && PastEnd(pl, |out| + n, maxout)
    ensures Step(level, pl, mem, length, n - 1, ip, out, maxout) == Stop(Corrupt)
  {
    hide PastEnd, MatchOperands, CopyStep;
  }

  lemma StepIsRejected(level: Level, pl: Place, mem: seq<Byte>, length: int, ip: nat, t: Instr,
                       out: seq<Byte>, maxout: int, longest: nat)
    requires length <= |mem| && ip <= |mem| && ValidInstr(level, t, |out|) && At(mem, ip, Payload(level, t))
    requires Contains(pl, maxout) && Spacious(pl, maxout, longest) && longest >= MAX_COPY
    requires |out| <= maxout < |Apply(out, t)| && (t.Match? ==> t.len <= longest + 3)
    ensures Step(level, pl, mem, length, Control(level, t), ip, out, maxout) == Stop(Corrupt)
  {
    hide Step, PastEnd, MatchOperands, CopyStep, ValidInstr, Encodable, Control, Payload, Apply, CopyOut, At, Spacious,
      Contains;
    InstrFacts(level, t, out);
    match t
    case Literal(data) =>
      BehindIsPastEnd(pl, maxout, |out|, |data|, longest);
      LiteralIsRejected(level, pl, mem, length, |data|, ip, out, maxout);
    case Match(len, dist) =>
      BehindIsPastEnd(pl, maxout, |out|, len, longest);
      OperandsReadBack(level, mem, ip, t);
      var m := Operands(len - 3, dist - 1, ip + |Payload(level, t)|);
      StepIsCopy(level, pl, mem, length, Control(level, t), ip, m, out, maxout);
      CopyIsRejected(pl, m, out, maxout);
  }

  /** A stream whose text does not fit is reported as such, wherever the tests are
      exact for its matches. */
  lemma TooSmallIsCorrupt(level: Level, pl: Place, ts: seq<Instr>, mem: seq<Byte>, maxout: int, longest: nat)
    requires WellFormed(level, ts) && Holds(mem, EncodeAll(level, ts)) && Contains(pl, maxout)
    requires Spacious(pl, maxout, longest) && longest >= MAX_COPY
    requires forall i | 0 <= i < |ts| :: ts[i].Match? ==> ts[i].len <= longest + 3
    requires |Expand(ts)| > maxout
    ensures Decode(level, pl, mem, |EncodeAll(level, ts)|, maxout) == Corrupt
  {
    assert 0 <= maxout;
    hide Spacious, Contains, WellFormed, EncodeAll, Expand, Holds, Offset, Decode, DecodeRest;
    var i := FirstTooBig(ts, maxout);
    var off, out := Offset(level, ts, i), Expand(ts[..i]);
    RejectedAt(level, pl, ts, i, mem, maxout, off, out, longest);
    GetsTo(level, pl, ts, i, mem, maxout, off, out);
  }

  lemma RejectedAt(level: Level, pl: Place, ts: seq<Instr>, i: nat, mem: seq<Byte>, maxout: int,
                   off: nat, out: seq<Byte>, longest: nat)
    requires WellFormed(level, ts) && Holds(mem, EncodeAll(level, ts)) && Contains(pl, maxout)
    requires Spacious(pl, maxout, longest) && longest >= MAX_COPY
    requires i < |ts| && off == Offset(level, ts, i) && out == Expand(ts[..i])
    requires ts[i].Match? ==> ts[i].len <= longest + 3
    requires |out| <= maxout < |Expand(ts[..i + 1])|
    ensures off < |EncodeAll(level, ts)| <= |mem|
    ensures DecodeRest(level, pl, mem, |EncodeAll(level, ts)|, off, out, maxout) == Corrupt
  {
    hide *;
    InstrAt(level, ts, i);
    InstrInMemory(level, ts, i, mem);
    StepIsRejected(level, pl, mem, |EncodeAll(level, ts)|, off + 1, ts[i], out, maxout, longest);
    RestIsCorrupt(level, pl, mem, |EncodeAll(level, ts)|, off, out, maxout);
  }

  lemma RestIsCorrupt(level: Level, pl: Place, mem: seq<Byte>, length: int, off: nat, out: seq<Byte>, maxout: int)
    requires off < length <= |mem|
    requires Step(level, pl, mem, length, ControlAt(mem, off), off + 1, out, maxout) == Stop(Corrupt)
    ensures DecodeRest(level, pl, mem, length, off, out, maxout) == Corrupt
  {
    hide Step, ControlAt;
  }

  lemma GetsTo(level: Level, pl: Place, ts: seq<Instr>, i: nat, mem: seq<Byte>, maxout: int, off: nat, out: seq<Byte>)
    requires WellFormed(level, ts) && Holds(mem, EncodeAll(level, ts)) && Contains(pl, maxout)
    requires i < |ts| && off == Offset(level, ts, i) < |EncodeAll(level, ts)|
    requires out == Expand(ts[..i]) && |out| <= maxout
    ensures Decode(level, pl, mem, |EncodeAll(level, ts)|, maxout)
         == DecodeRest(level, pl, mem, |EncodeAll(level, ts)|, off, out, maxout)
  {
    hide WellFormed, EncodeAll, Expand, DecodeFrom;
    PrefixOf(level, ts, i);
    if i == 0 {
      StreamEnds(level, ts);
    } else {
      assert Holds(mem, EncodeAll(level, ts[..i])) by {
        assert forall k | 0 <= k < off :: EncodeAll(level, ts[..i])[k] == EncodeAll(level, ts)[k];
      }
      DecodePrefix(level, pl, ts[..i], mem, |EncodeAll(level, ts)|, maxout);
    }
  }

  // ---- inputs that are no stream -------------------------------------------

  /** A stream, followed by a literal run that is cut short by the end of the input. */
  lemma CutRunIsCorrupt(level: Level, pl: Place, ts: seq<Instr>, mem: seq<Byte>, length: int, maxout: int)
    requires WellFormed(level, ts) && ts != [] && Holds(mem, EncodeAll(level, ts)) && Contains(pl, maxout)
    requires |EncodeAll(level, ts)| < length <= |mem| && |Expand(ts)| <= maxout
    requires mem[|EncodeAll(level, ts)|] < 32
    requires length - |EncodeAll(level, ts)| - 1 < mem[|EncodeAll(level, ts)|] + 1
    ensures Decode(level, pl, mem, length, maxout) == Corrupt
  {
    hide WellFormed, EncodeAll, Expand, Holds, Contains, DecodeRest, PastEnd;
    var off := |EncodeAll(level, ts)|;
    DecodePrefix(level, pl, ts, mem, length, maxout);
    NotFirst(level, ts);
    assert Step(level, pl, mem, length, ControlAt(mem, off), off + 1, Expand(ts), maxout) == Stop(Corrupt);
    RestIsCorrupt(level, pl, mem, length, off, Expand(ts), maxout);
  }

  lemma NotFirst(level: Level, ts: seq<Instr>)
    requires WellFormed(level, ts) && ts != []
    ensures |EncodeAll(level, ts)| > 0
  {
    InstrAt(level, ts, 0);
    assert |EncodeAll(level, ts[..1])| > 0;
  }

  /** A stream, followed by a match of text that was never produced, if the output does
      not lie so low that its source would be before address 0. */
  lemma UnproducedIsCorrupt(level: Level, pl: Place, ts: seq<Instr>, t: Instr, mem: seq<Byte>, length: int, maxout: int)
    requires WellFormed(level, ts) && ts != [] && Holds(mem, EncodeAll(level, ts)) && Contains(pl, maxout)
    requires |EncodeAll(level, ts)| < length <= |mem| && |Expand(ts)| <= maxout
    requires t.Match? && Encodable(level, t) && |Expand(ts)| < t.dist <= |Expand(ts)| + pl.output
    requires At(mem, |EncodeAll(level, ts)|, Encode(level, t))
    ensures Decode(level, pl, mem, length, maxout) == Corrupt
  {
    hide WellFormed, EncodeAll, Expand, Holds, Contains, DecodeRest, At, Control, Payload, Encodable;
    var off, out := |EncodeAll(level, ts)|, Expand(ts);
    DecodePrefix(level, pl, ts, mem, length, maxout);
    NotFirst(level, ts);
    AtSplit(mem, off, [Control(level, t)], Payload(level, t));
    MatchIsUnproduced(level, pl, mem, length, off + 1, t, out, maxout);
    assert ControlAt(mem, off) == Control(level, t) by {
      assert At(mem, off, [Control(level, t)]);
      ByteAt(mem, off, Control(level, t));
    }
    RestIsCorrupt(level, pl, mem, length, off, out, maxout);
  }

  lemma ByteAt(mem: seq<Byte>, off: nat, b: Byte)
    requires At(mem, off, [b])
    ensures off < |mem| && mem[off] == b
  {
    assert [b][0] == mem[off + 0];
  }

  lemma MatchIsUnproduced(level: Level, pl: Place, mem: seq<Byte>, length: int, ip: nat, t: Instr, out: seq<Byte>,
                          maxout: int)
    requires length <= |mem| && ip <= |mem| && t.Match? && Encodable(level, t) && At(mem, ip, Payload(level, t))
    requires Contains(pl, maxout) && |out| < t.dist <= |out| + pl.output && |out| <= maxout
    ensures Step(level, pl, mem, length, Control(level, t), ip, out, maxout) == Stop(Corrupt)
  {
    assert t.len >= 3;
    AddrAbove(pl, |out| - t.dist);
    AddrAbove(pl, 0);
    hide Addr, MatchOperands, At, Control, Payload, Encodable, Contains, Step;
    OperandsReadBack(level, mem, ip, t);
    var m := Operands(t.len - 3, t.dist - 1, ip + |Payload(level, t)|);
    StepIsCopy(level, pl, mem, length, Control(level, t), ip, m, out, maxout);
  }

  /** Levels above 2 are unknown. */
  lemma UnknownLevelIsCorrupt(pl: Place, mem: seq<Byte>, length: int, maxout: int)
    requires mem != [] && length <= |mem| && mem[0] >= 64
    ensures DecodeAny(pl, mem, length, maxout) == Corrupt
  {
  }

  // ---- inputs that leave the output ----------------------------------------

  function Zeros(n: nat): (s: seq<Byte>)
    ensures |s| == n
  {
    seq(n, _ => 0)
  }

  /** A stream for `m` bytes of text. */
  function Filler(m: nat): seq<Instr>
    requires m >= 1
  {
    if m <= MAX_COPY then [Literal(Zeros(m))] else [Literal(Zeros(1)), Match(m - 1, 1)]
  }

  lemma PayloadSize(t: Instr)
    requires Encodable(Two, t)
    ensures |Payload(Two, t)| <= MAX_COPY + 4 + (if t.Match? then t.len / 255 else 0)
  {
    if t.Match? && t.len >= 9 {
      ChainSize(t.len - 9);
      assert (t.len - 9) / 255 <= t.len / 255;
    }
  }

  lemma FillerIsStream(m: nat)
    requires 1 <= m < 0x8000_0000
    ensures WellFormed(Two, Filler(m)) && |Expand(Filler(m))| == m && Filler(m) != [] && Filler(m)[0].Literal?
    ensures |EncodeAll(Two, Filler(m))| <= 100 + m / 255
  {
    var first := Literal(Zeros(if m <= MAX_COPY then m else 1));
    assert [] + [first] == [first];
    Snoc(Two, [], first);
    PayloadSize(first);
    if m > MAX_COPY {
      hide WellFormed, EncodeAll, Expand, Payload;
      var rest := Match(m - 1, 1);
      assert EncodeAll(Two, []) == [] && Expand([]) == [] by {
        EmptyStream();
      }
      Snoc(Two, [first], rest);
      assert [first] + [rest] == Filler(m);
      PayloadSize(rest);
      assert (m - 1) / 255 <= m / 255;
    }
  }

  lemma EmptyStream()
    ensures EncodeAll(Two, []) == [] && Expand([]) == [] && WellFormed(Two, [])
  {
  }

  /** The stream `ts`, with the marker of level 2, and one more match. */
  function Ending(ts: seq<Instr>, t: Instr): (mem: seq<Byte>)
    requires WellFormed(Two, ts) && ts != [] && ts[0].Literal?
    ensures mem != []
  {
    FirstByte(Two, ts);
    [EncodeAll(Two, ts)[0] + 32] + EncodeAll(Two, ts)[1..] + Encode(Two, t)
  }

  lemma MarkedLayout(stream: seq<Byte>, ctrl: Byte, payload: seq<Byte>, mem: seq<Byte>)
    requires stream != [] && stream[0] < 32
    requires mem == [stream[0] + 32] + stream[1..] + ([ctrl] + payload)
    ensures |mem| == |stream| + 1 + |payload| && mem[0] / 32 == 1 && Holds(mem, stream)
    ensures mem[|stream|] == ctrl && At(mem, |stream| + 1, payload)
  {
  }

  lemma EndingLayout(ts: seq<Instr>, t: Instr)
    requires WellFormed(Two, ts) && ts != [] && ts[0].Literal? && Encodable(Two, t)
    ensures var mem, n := Ending(ts, t), |EncodeAll(Two, ts)|;
            && |mem| == n + 1 + |Payload(Two, t)| && n > 0 && mem[0] / 32 == 1 && Holds(mem, EncodeAll(Two, ts))
            && mem[n] == Control(Two, t) && At(mem, n + 1, Payload(Two, t))
  {
    hide *;
    EndingIs(ts, t);
    MarkedLayout(EncodeAll(Two, ts), Control(Two, t), Payload(Two, t), Ending(ts, t));
  }

  lemma EndingIs(ts: seq<Instr>, t: Instr)
    requires WellFormed(Two, ts) && ts != [] && ts[0].Literal? && Encodable(Two, t)
    ensures EncodeAll(Two, ts) != [] && EncodeAll(Two, ts)[0] < 32
    ensures Ending(ts, t)
         == [EncodeAll(Two, ts)[0] + 32] + EncodeAll(Two, ts)[1..] + ([Control(Two, t)] + Payload(Two, t))
  {
    FirstByte(Two, ts);
    hide EncodeAll, Control, Payload, WellFormed, Encodable;
  }

  /** If its last match passes the tests without fitting the output, it strays. */
  lemma EndingStrays(pl: Place, ts: seq<Instr>, t: Instr, maxout: int)
    requires WellFormed(Two, ts) && ts != [] && ts[0].Literal? && Encodable(Two, t) && t.Match?
    requires Contains(pl, maxout) && |Expand(ts)| <= maxout
    requires !PastEnd(pl, |Expand(ts)| + t.len, maxout) && !BeforeStart(pl, |Expand(ts)| - t.dist)
    requires |Expand(ts)| + t.len > maxout || t.dist > |Expand(ts)|
    ensures DecodeAny(pl, Ending(ts, t), |Ending(ts, t)|, maxout) == Stray
  {
    hide *;
    EndingLayout(ts, t);
    LastMatchStrays(pl, ts, t, Ending(ts, t), |Ending(ts, t)|, |EncodeAll(Two, ts)|, Expand(ts), maxout);
  }

  lemma LastMatchStrays(pl: Place, ts: seq<Instr>, t: Instr, mem: seq<Byte>, length: int, n: nat, out: seq<Byte>,
                        maxout: int)
    requires WellFormed(Two, ts) && ts != [] && n == |EncodeAll(Two, ts)| && out == Expand(ts)
    requires t.Match? && Encodable(Two, t) && Contains(pl, maxout) && |out| <= maxout
    requires !PastEnd(pl, |out| + t.len, maxout) && !BeforeStart(pl, |out| - t.dist)
    requires |out| + t.len > maxout || t.dist > |out|
    requires 0 < n < length <= |mem| && mem[0] / 32 == 1 && Holds(mem, EncodeAll(Two, ts))
    requires mem[n] == Control(Two, t) && At(mem, n + 1, Payload(Two, t))
    ensures DecodeAny(pl, mem, length, maxout) == Stray
  {
    hide *;
    DecodePrefix(Two, pl, ts, mem, length, maxout);
    OperandsReadBack(Two, mem, n + 1, t);
    MatchLimits(t);
    MatchStrays(pl, mem, length, mem[n], n + 1, out, maxout, t);
    RestStrays(pl, mem, length, n, out, maxout);
    AnyIsTwo(pl, mem, length, maxout);
  }

  lemma MatchLimits(t: Instr)
    requires t.Match? && Encodable(Two, t)
    ensures t.len >= 3 && t.dist >= 1
  {
  }

  lemma AnyIsTwo(pl: Place, mem: seq<Byte>, length: int, maxout: int)
    requires length <= |mem| && mem != [] && mem[0] / 32 == 1
    ensures DecodeAny(pl, mem, length, maxout) == Decode(Two, pl, mem, length, maxout)
  {
  }

  lemma RestStrays(pl: Place, mem: seq<Byte>, length: int, n: nat, out: seq<Byte>, maxout: int)
    requires 0 < n < length <= |mem| && Step(Two, pl, mem, length, mem[n], n + 1, out, maxout) == Stop(Stray)
    ensures DecodeRest(Two, pl, mem, length, n, out, maxout) == Stray
  {
    hide Step;
  }

  lemma MatchStrays(pl: Place, mem: seq<Byte>, length: int, ctrl: Byte, ip: nat, out: seq<Byte>, maxout: int, t: Instr)
    requires length <= |mem| && ip <= |mem| && ctrl >= 32 && t.Match? && t.len >= 3 && t.dist >= 1
    requires MatchOperands(Two, mem, ip, ctrl).Some?
    requires MatchOperands(Two, mem, ip, ctrl).value.len == t.len - 3
    requires MatchOperands(Two, mem, ip, ctrl).value.back == t.dist - 1
    requires !PastEnd(pl, |out| + t.len, maxout) && !BeforeStart(pl, |out| - t.dist)
    requires |out| + t.len > maxout || t.dist > |out|
    ensures Step(Two, pl, mem, length, ctrl, ip, out, maxout) == Stop(Stray)
  {
    hide MatchOperands, PastEnd, BeforeStart;
  }

  lemma CanBeEncoded(t: Instr)
    requires t.Match? && 3 <= t.len < 0x1_0000_0003 && 1 <= t.dist <= MAX_BACK + 1
    ensures Encodable(Two, t)
  {
  }

  /** The input: `m` bytes, and a match that passes the tests without fitting. */
  lemma FillAndMatch(pl: Place, maxout: int, t: Instr, m: nat) returns (input: seq<Byte>)
    requires Contains(pl, maxout) && 1 <= m <= maxout < 0x8000_0000
    requires t.Match? && 3 <= t.len < 0x1_0000_0003 && 1 <= t.dist <= MAX_BACK + 1
    requires !PastEnd(pl, m + t.len, maxout) && !BeforeStart(pl, m - t.dist)
    requires m + t.len > maxout || t.dist > m
    ensures |input| < 0x8000_0000 && DecodeAny(pl, input, |input|, maxout) == Stray
  {
    hide *;
    CanBeEncoded(t);
    FillerIsStream(m);
    input := Ending(Filler(m), t);
    EndingSize(m, t);
    EndingStrays(pl, Filler(m), t, maxout);
  }

  lemma EndingSize(m: nat, t: Instr)
    requires 1 <= m < 0x8000_0000 && t.Match? && t.len < 0x1_0000_0003 && Encodable(Two, t)
    ensures WellFormed(Two, Filler(m)) && Filler(m) != [] && Filler(m)[0].Literal?
    ensures |Ending(Filler(m), t)| < 0x8000_0000
  {
    hide Filler, Ending, EncodeAll, Expand, WellFormed, Payload, Encodable, Control, At, Holds;
    FillerIsStream(m);
    EndingLayout(Filler(m), t);
    PayloadSize(t);
    SmallSizes(m, t.len);
  }

  lemma SmallSizes(m: nat, len: nat)
    requires m < 0x8000_0000 && len < 0x1_0000_0003
    ensures m / 255 < 0x100_0000 && len / 255 < 0x200_0000
  {
  }

  /** Not enough addresses above: the length is chosen so that the address behind
      the match comes out as 0, or as little more. */
  lemma StraysAbove(pl: Place, maxout: int) returns (input: seq<Byte>)
    requires Contains(pl, maxout) && 1 <= maxout < 0x8000_0000
    requires pl.output + maxout + MAX_READ + 3 >= pl.space
    ensures |input| < 0x8000_0000 && DecodeAny(pl, input, |input|, maxout) == Stray
  {
    var room := pl.space - pl.output - maxout - 3;
    var t := Match((if room < 0 then 0 else room) + 3, 1);
    assert pl.output + maxout < pl.space && 3 <= t.len < 0x1_0000_0003;
    WrapsLow(pl, maxout, t.len);
    hide *;
    AddrInside(pl, maxout, maxout - 1);
    input := FillAndMatch(pl, maxout, t, maxout);
  }

  lemma WrapsLow(pl: Place, maxout: int, len: nat)
    requires Contains(pl, maxout) && maxout >= 1 && pl.output + maxout + len >= pl.space
    requires len == 3 || pl.output + maxout + len == pl.space
    ensures !PastEnd(pl, maxout + len, maxout)
  {
    AddrInside(pl, maxout, maxout);
    if pl.space == 2 {
      assert Wrap(4, 2) == Wrap(2, 2) == Wrap(0, 2) == 0;
    } else {
      Wrapped(pl, maxout + len);
    }
  }

  lemma Wrapped(pl: Place, k: nat)
    requires pl.space <= pl.output + k < 2 * pl.space
    ensures Addr(pl, k) == pl.output + k - pl.space
  {
    assert Wrap(pl.output + k - pl.space, pl.space) == pl.output + k - pl.space;
  }

  /** Not enough addresses below: the farthest match starts before address 0. */
  lemma StraysBelow(pl: Place, maxout: int) returns (input: seq<Byte>)
    requires Contains(pl, maxout) && 4 <= maxout < 0x8000_0000 && pl.output < MAX_BACK
    requires pl.output + maxout + MAX_READ + 3 < pl.space
    ensures |input| < 0x8000_0000 && DecodeAny(pl, input, |input|, maxout) == Stray
  {
    var t := Match(3, MAX_BACK + 1);
    AddrInside(pl, maxout, 4);
    WrappedBelow(pl, 1 - t.dist);
    hide Filler, Ending, PastEnd, EncodeAll, Expand, WellFormed, Payload, Addr, Control, At, Holds;
    input := FillAndMatch(pl, maxout, t, 1);
  }

  lemma WrappedBelow(pl: Place, k: int)
    requires 0 <= pl.output + k + pl.space < pl.space
    ensures Addr(pl, k) == pl.output + k + pl.space
  {
    assert Wrap(pl.output + k + pl.space, pl.space) == pl.output + k + pl.space;
  }

  /** An output of no bytes at the very top: a literal run wraps. */
  lemma StraysAtTop(pl: Place) returns (input: seq<Byte>)
    requires Contains(pl, 0) && pl.output + MAX_COPY >= pl.space
    ensures |input| < 0x8000_0000 && DecodeAny(pl, input, |input|, 0) == Stray
  {
    var n: nat := pl.space - pl.output;
    input := [(n - 1) as Byte] + Zeros(n);
    Wrapped(pl, n);
    AddrInside(pl, 0, 0);
    hide Addr;
    assert Step(One, pl, input, |input|, n - 1, 1, [], 0) == Stop(Stray);
  }

  /** The exact condition for all inputs, of any bytes and any size an `int` can
      give: the decompressor stays within its output if and only if its place is
      spacious for matches of 2^32 bytes. On 32-bit addresses no place is. */
  lemma StaysExactlyIfSpacious(pl: Place, maxout: int)
    requires Contains(pl, maxout) && maxout < 0x8000_0000
    ensures (forall mem: seq<Byte>, length: int | length <= |mem| && length < 0x8000_0000 ::
               DecodeAny(pl, mem, length, maxout) != Stray)
       <==> Spacious(pl, maxout, MAX_READ)
  {
    hide DecodeAny;
    if Spacious(pl, maxout, MAX_READ) {
      forall mem: seq<Byte>, length: int | length <= |mem| && length < 0x8000_0000
        ensures DecodeAny(pl, mem, length, maxout) != Stray
      {
        AllAreShorter(One, mem, length);
        AllAreShorter(Two, mem, length);
        AnyNeverStrays(pl, mem, length, maxout, MAX_READ);
      }
    } else {
      var input;
      if maxout == 0 {
        input := StraysAtTop(pl);
      } else if pl.output + maxout + MAX_READ + 3 >= pl.space {
        input := StraysAbove(pl, maxout);
      } else {
        input := StraysBelow(pl, maxout);
      }
      assert |input| <= |input| && DecodeAny(pl, input, |input|, maxout) == Stray;
    }
  }

  lemma AllAreShorter(level: Level, mem: seq<Byte>, length: int)
    ensures Shorter(level, mem, length, MAX_READ)
  {
    forall ip: nat, ctrl: Byte | ip <= length && ip <= |mem| && ctrl >= 32
      ensures MatchOperands(level, mem, ip, ctrl).Some? ==> MatchOperands(level, mem, ip, ctrl).value.len <= MAX_READ
    {
      if MatchOperands(level, mem, ip, ctrl).Some? {
        BackIsBounded(level, mem, ip, ctrl);
      }
    }
  }

  /** On 32-bit addresses no output is; on 64-bit ones all but those at the very
      bottom and the very top are. */
  lemma WhereItIsSpacious(output: nat, maxout: int)
    requires 4 <= maxout
    ensures !Spacious(Location(0x1_0000_0000, output), maxout, MAX_READ)
    ensures Spacious(Location(0x1_0000_0000_0000_0000, output), maxout, MAX_READ)
       <==> MAX_BACK <= output && output + maxout < 0xFFFF_FFFE_FFFF_FFFE
  {
  }
}
