/** The decompressor body, compiled once per level (fastlz/fastlz.cc:402-531).

    `mem` is what can be read from the input pointer on; `length` of those bytes
    are the input. The decoder does check literal runs and every control byte
    against `length`, but not the operands of a match, so those may come from
    `mem[length..]`: whatever is there is left arbitrary, and leaving `mem`
    altogether is `Fault`. The bounds of the output are tested on addresses, which
    wrap around: a copy that passes the tests and yet leaves the output is `Stray`. */
module FastLzDecoder {
  import opened Options
  import opened FastLzFormat

  // ---- what the decoder computes -------------------------------------------

  datatype Outcome = Done(data: seq<Byte>) | Corrupt | Fault | Stray

  /** The number of addresses there are, and the address of the output. */
  datatype Location = Location(space: nat, output: nat)
  type Place = pl: Location | pl.space > 0 witness Location(1, 0)

  /** An address that has run off either end of the `n` there are comes in again at
      the other. */
  function Wrap(a: int, n: int): (r: nat)
    requires n > 0
    ensures r < n
    decreases if a < 0 then n - a else a
  {
    if a < 0 then Wrap(a + n, n) else if a >= n then Wrap(a - n, n) else a
  }

  /** In other words, it is the remainder. */
  lemma {:induction false} WrapIsRemainder(a: int, n: int) returns (k: int)
    requires n > 0
    ensures a == k * n + Wrap(a, n) && 0 <= Wrap(a, n) < n
    decreases if a < 0 then n - a else a
  {
    if a < 0 {
      k := WrapIsRemainder(a + n, n);
      Less(k, n);
      k := k - 1;
    } else if a >= n {
      k := WrapIsRemainder(a - n, n);
      Less(k + 1, n);
      k := k + 1;
    } else {
      k := 0;
    }
  }

  lemma Less(k: int, n: int)
    ensures (k - 1) * n == k * n - n
  {
  }

  /** The address `offset` bytes into the output. */
  function Addr(pl: Place, offset: int): nat {
    Wrap(pl.output + offset, pl.space)
  }

  /** The test of an output index against op_limit. */
  predicate PastEnd(pl: Place, op: nat, maxout: int) {
    Addr(pl, op) > Addr(pl, maxout)
  }

  /** The test of a source index against the start of the output. */
  predicate BeforeStart(pl: Place, ref: int) {
    Addr(pl, ref) < Addr(pl, 0)
  }

  /** An output buffer of `maxout` bytes lies in the address space. */
  predicate Contains(pl: Place, maxout: int) {
    0 <= maxout && pl.output + maxout < pl.space
  }

  /** Tests on indices within the buffer are exact. */
  lemma AddrInside(pl: Place, maxout: int, k: int)
    requires Contains(pl, maxout) && 0 <= k <= maxout
    ensures Addr(pl, k) == pl.output + k && Addr(pl, 0) == pl.output && Addr(pl, maxout) == pl.output + maxout
    ensures !PastEnd(pl, k, maxout) && !BeforeStart(pl, k)
  {
  }

  /** Operands of a match: biased length, biased distance, next input index. */
  datatype Operands = Operands(len: nat, back: nat, next: nat)

  /** Adds up a level 2 length chain in a 32-bit accumulator. */
  function Chain(mem: seq<Byte>, ip: nat, len: nat): (r: Option<(nat, nat)>)
    ensures r.Some? ==> ip < r.value.1 <= |mem| && r.value.0 < 0x1_0000_0000
    decreases |mem| - ip
  {
    if ip >= |mem| then None
    else
      var len' := (len + mem[ip]) % 0x1_0000_0000;
      if mem[ip] == 255 then Chain(mem, ip + 1, len') else Some((len', ip + 1))
  }

  /** The extra length bytes after a control byte whose length field is `len`. */
  function LengthOperand(level: Level, mem: seq<Byte>, ip: nat, len: nat): (r: Option<(nat, nat)>)
    requires ip <= |mem|
    ensures r.Some? ==> ip <= r.value.1 <= |mem|
    ensures r.Some? && level.One? ==> r.value.1 <= ip + 1
  {
    if len != 6 then Some((len, ip))
    else if level.Two? then Chain(mem, ip, len)
    else if ip < |mem| then Some((len + mem[ip], ip + 1))
    else None
  }

  /** The distance, with `ofs` from the control byte and the level 2 escape. */
  function OffsetOperand(level: Level, mem: seq<Byte>, p: nat, ofs: nat): (r: Option<(nat, nat)>)
    ensures r.Some? ==> p < r.value.1 <= |mem|
    ensures r.Some? && level.One? ==> r.value.1 == p + 1
  {
    if p >= |mem| then None
    else if level.Two? && mem[p] == 255 && ofs == 31 * 256 then
      if p + 2 >= |mem| then None
      else Some((mem[p + 1] * 256 + mem[p + 2] + FAR_BIAS, p + 3))
    else Some((ofs + mem[p], p + 1))
  }

  function MatchOperands(level: Level, mem: seq<Byte>, ip: nat, ctrl: Byte): (r: Option<Operands>)
    requires ctrl >= 32 && ip <= |mem|
    ensures r.Some? ==> ip < r.value.next <= |mem|
    ensures r.Some? && level.One? ==> r.value.next <= ip + 2
  {
    match LengthOperand(level, mem, ip, ctrl / 32 - 1)
    case None => None
    case Some((len, p)) =>
      match OffsetOperand(level, mem, p, ctrl % 32 * 256)
      case None => None
      case Some((back, next)) => Some(Operands(len, back, next))
  }

  /** The effect of one instruction: an early return, or the input index and
      the output after it. */
  datatype Effect = Stop(outcome: Outcome) | Go(ip: nat, out: seq<Byte>)

  /** A match, once its operands are read. */
  function CopyStep(pl: Place, t: Operands, out: seq<Byte>, maxout: int): (r: Effect)
    ensures r.Stop? ==> r.outcome == Corrupt || r.outcome == Stray
    ensures r.Go? ==> r.ip == t.next && |out| < |r.out| <= maxout
  {
    if PastEnd(pl, |out| + t.len + 3, maxout) || BeforeStart(pl, |out| - t.back - 1) then Stop(Corrupt)
    else if |out| + t.len + 3 > maxout || |out| < t.back + 1 then Stop(Stray)
    else Go(t.next, CopyOut(out, t.back + 1, t.len + 3))
  }

  function Step(level: Level, pl: Place, mem: seq<Byte>, length: int, ctrl: Byte, ip: nat,
                out: seq<Byte>, maxout: int): (r: Effect)
    requires length <= |mem| && ip <= |mem|
    ensures r.Stop? ==> !r.outcome.Done?
    ensures r.Go? ==> ip < r.ip <= |mem| && |out| < |r.out| <= maxout
  {
    if ctrl >= 32 then
      match MatchOperands(level, mem, ip, ctrl)
      case None => Stop(Fault)
      case Some(operands) => CopyStep(pl, operands, out, maxout)
    else
      var n := ctrl + 1;
      if PastEnd(pl, |out| + n, maxout) || ip + n > length then Stop(Corrupt)
      else if |out| + n > maxout then Stop(Stray)
      else Go(ip + n, out + mem[ip..ip + n])
  }

  /** The decoder from a control byte on, with `out` already produced; the next
      control byte is fetched only while there is input. */
  function DecodeFrom(level: Level, pl: Place, mem: seq<Byte>, length: int, ctrl: Byte, ip: nat,
                      out: seq<Byte>, maxout: int): (r: Outcome)
    requires length <= |mem| && ip <= |mem|
    ensures r.Done? ==> |out| < |r.data| <= maxout
    decreases |mem| - ip
  {
    match Step(level, pl, mem, length, ctrl, ip, out, maxout)
    case Stop(outcome) => outcome
    case Go(ip', out') =>
      if ip' < length then DecodeFrom(level, pl, mem, length, mem[ip'], ip' + 1, out', maxout) else Done(out')
  }

  /** The whole decoder: the top bits of the first byte carry the level. */
  function Decode(level: Level, pl: Place, mem: seq<Byte>, length: int, maxout: int): (r: Outcome)
    requires length <= |mem|
    ensures r.Done? ==> 1 <= |r.data| <= maxout
  {
    if mem == [] then Fault else DecodeFrom(level, pl, mem, length, mem[0] % 32, 1, [], maxout)
  }

  /** Decoding by the level in the first byte, as fastlz_decompress does. */
  function DecodeAny(pl: Place, mem: seq<Byte>, length: int, maxout: int): (r: Outcome)
    requires length <= |mem|
    ensures r.Done? ==> 1 <= |r.data| <= maxout
  {
    if mem == [] then Fault
    else match mem[0] / 32
      case 0 => Decode(One, pl, mem, length, maxout)
      case 1 => Decode(Two, pl, mem, length, maxout)
      case _ => Corrupt
  }

  // ---- the decoder inverts the format --------------------------------------

  /** `s` lies at index `ip` of `mem`. */
  predicate At(mem: seq<Byte>, ip: nat, s: seq<Byte>) {
    ip + |s| <= |mem| && forall k | 0 <= k < |s| :: s[k] == mem[ip + k]
  }

  lemma AtSplit(mem: seq<Byte>, ip: nat, a: seq<Byte>, b: seq<Byte>)
    requires At(mem, ip, a + b)
    ensures At(mem, ip, a) && At(mem, ip + |a|, b)
  {
    assert forall k | 0 <= k < |a| :: a[k] == (a + b)[k];
    assert forall k | 0 <= k < |b| :: b[k] == (a + b)[|a| + k];
  }

  lemma {:induction false} ChainReads(mem: seq<Byte>, ip: nat, n: nat, len: nat)
    requires At(mem, ip, LengthChain(n))
    requires len + n < 0x1_0000_0000
    ensures Chain(mem, ip, len) == Some((len + n, ip + |LengthChain(n)|))
    decreases n
  {
    var c := LengthChain(n);
    assert mem[ip] == c[0];
    if n >= 255 {
      AtSplit(mem, ip, [255], LengthChain(n - 255));
      ChainReads(mem, ip + 1, n - 255, len + 255);
    }
  }

  lemma LengthReadBack(level: Level, mem: seq<Byte>, ip: nat, len: nat)
    requires 3 <= len < 0x1_0000_0003 && (level.One? ==> len <= MAX_LEN)
    requires At(mem, ip, LengthBytes(level, len))
    ensures LengthOperand(level, mem, ip, LengthField(len) - 1)
         == Some((len - 3, ip + |LengthBytes(level, len)|))
  {
    if len >= 9 {
      if level.Two? {
        ChainReads(mem, ip, len - 9, 6);
      } else {
        assert mem[ip] == LengthBytes(level, len)[0];
      }
    }
  }

  lemma OffsetReadBack(level: Level, mem: seq<Byte>, p: nat, dist: nat)
    requires 1 <= dist && if level.One? then dist <= 8192 else dist <= 65535 + FAR_BIAS + 1
    requires At(mem, p, OffsetBytes(level, dist))
    ensures OffsetOperand(level, mem, p, OffsetField(level, dist) * 256)
         == Some((dist - 1, p + |OffsetBytes(level, dist)|))
  {
    var offset := OffsetBytes(level, dist);
    assert mem[p] == offset[0];
    if IsFar(level, dist) {
      assert mem[p + 1] == offset[1] && mem[p + 2] == offset[2];
    }
  }

  lemma ControlFields(hi: nat, lo: nat)
    requires lo < 32
    ensures (hi * 32 + lo) / 32 == hi && (hi * 32 + lo) % 32 == lo
  {
  }

  /** The operand reader recovers length and distance from every match the
      format can express; in particular (31, 255) never starts a near match. */
  lemma OperandsReadBack(level: Level, mem: seq<Byte>, ip: nat, t: Instr)
    requires t.Match? && Encodable(level, t)
    requires At(mem, ip, Payload(level, t))
    ensures 32 <= Control(level, t)
    ensures MatchOperands(level, mem, ip, Control(level, t))
         == Some(Operands(t.len - 3, t.dist - 1, ip + |Payload(level, t)|))
  {
    hide LengthOperand, OffsetOperand, LengthBytes, OffsetBytes, LengthField, OffsetField, At;
    var lengths, offset := LengthBytes(level, t.len), OffsetBytes(level, t.dist);
    AtSplit(mem, ip, lengths, offset);
    LengthReadBack(level, mem, ip, t.len);
    OffsetReadBack(level, mem, ip + |lengths|, t.dist);
    ControlFields(LengthField(t.len), OffsetField(level, t.dist));
  }

  /** One instruction: the decoder consumes its bytes and applies it. */
  lemma StepInstr(level: Level, pl: Place, mem: seq<Byte>, length: int, ip: nat, t: Instr,
                  out: seq<Byte>, maxout: int)
    requires ValidInstr(level, t, |out|) && |Apply(out, t)| <= maxout && Contains(pl, maxout)
    requires ip + |Payload(level, t)| <= length <= |mem|
    requires At(mem, ip, Payload(level, t))
    ensures Step(level, pl, mem, length, Control(level, t), ip, out, maxout)
         == Go(ip + |Payload(level, t)|, Apply(out, t))
  {
    hide *;
    InstrFacts(level, t, out);
    AddrInside(pl, maxout, |Apply(out, t)|);
    match t
    case Literal(data) => StepLiteral(level, pl, mem, length, ip, data, out, maxout);
    case Match(_, dist) =>
      AddrInside(pl, maxout, |out| - dist);
      OperandsReadBack(level, mem, ip, t);
      var m := Operands(t.len - 3, t.dist - 1, ip + |Payload(level, t)|);
      StepIsCopy(level, pl, mem, length, Control(level, t), ip, m, out, maxout);
      CopyStepFits(pl, m, out, maxout);
  }

  lemma InstrFacts(level: Level, t: Instr, out: seq<Byte>)
    requires ValidInstr(level, t, |out|)
    ensures Encodable(level, t)
    ensures t.Literal? ==> 1 <= |t.data| <= MAX_COPY && Control(level, t) == |t.data| - 1
    ensures t.Literal? ==> Payload(level, t) == t.data && Apply(out, t) == out + t.data
    ensures t.Match? ==> 3 <= t.len && 1 <= t.dist <= |out| && Apply(out, t) == CopyOut(out, t.dist, t.len)
  {
    hide LengthBytes, OffsetBytes, LengthField, OffsetField, CopyOut;
  }

  lemma StepLiteral(level: Level, pl: Place, mem: seq<Byte>, length: int, ip: nat, data: seq<Byte>,
                    out: seq<Byte>, maxout: int)
    requires 1 <= |data| <= MAX_COPY && ip + |data| <= length <= |mem| && At(mem, ip, data)
    requires |out| + |data| <= maxout && !PastEnd(pl, |out| + |data|, maxout)
    ensures Step(level, pl, mem, length, |data| - 1, ip, out, maxout) == Go(ip + |data|, out + data)
  {
    hide MatchOperands, CopyOut, PastEnd, Encodable;
    assert mem[ip..ip + |data|] == data;
  }

  lemma CopyStepFits(pl: Place, m: Operands, out: seq<Byte>, maxout: int)
    requires m.back + 1 <= |out| && |out| + m.len + 3 <= maxout
    requires !PastEnd(pl, |out| + m.len + 3, maxout) && !BeforeStart(pl, |out| - m.back - 1)
    ensures CopyStep(pl, m, out, maxout) == Go(m.next, CopyOut(out, m.back + 1, m.len + 3))
  {
    hide CopyOut, PastEnd, BeforeStart;
  }

  lemma StepIsCopy(level: Level, pl: Place, mem: seq<Byte>, length: int, ctrl: Byte, ip: nat, m: Operands,
                   out: seq<Byte>, maxout: int)
    requires length <= |mem| && ip <= |mem| && ctrl >= 32 && MatchOperands(level, mem, ip, ctrl) == Some(m)
    ensures Step(level, pl, mem, length, ctrl, ip, out, maxout) == CopyStep(pl, m, out, maxout)
  {
    hide MatchOperands, CopyStep;
  }

  /** A control byte as the decoder sees it: the first one is masked. */
  function ControlAt(mem: seq<Byte>, off: nat): Byte
    requires off < |mem|
  {
    if off == 0 then mem[0] % 32 else mem[off]
  }

  /** The bytes of a stream, as they lie in memory: the first one may carry a
      level marker above its five data bits. */
  predicate Holds(mem: seq<Byte>, stream: seq<Byte>) {
    |stream| <= |mem| && forall k | 0 <= k < |stream| :: stream[k] == ControlAt(mem, k)
  }

  function Offset(level: Level, ts: seq<Instr>, i: nat): nat
    requires i <= |ts|
  {
    |EncodeAll(level, ts[..i])|
  }

  lemma HoldsAt(mem: seq<Byte>, stream: seq<Byte>, before: seq<Byte>, ctrl: Byte, payload: seq<Byte>)
    requires Holds(mem, stream)
    requires before + ([ctrl] + payload) <= stream
    ensures ControlAt(mem, |before|) == ctrl
    ensures At(mem, |before| + 1, payload)
  {
    var upTo := before + ([ctrl] + payload);
    assert forall k | 0 <= k < |upTo| :: stream[k] == upTo[k];
    assert upTo[|before|] == ctrl;
    assert forall k | 0 <= k < |payload| :: payload[k] == upTo[|before| + 1 + k];
  }

  /** Where instruction `i` of a stream lies in memory. */
  lemma InstrInMemory(level: Level, ts: seq<Instr>, i: nat, mem: seq<Byte>)
    requires WellFormed(level, ts) && i < |ts|
    requires Holds(mem, EncodeAll(level, ts))
    ensures Encodable(level, ts[i])
    ensures Offset(level, ts, i) < |mem| && ControlAt(mem, Offset(level, ts, i)) == Control(level, ts[i])
    ensures At(mem, Offset(level, ts, i) + 1, Payload(level, ts[i]))
    ensures Offset(level, ts, i + 1) == Offset(level, ts, i) + 1 + |Payload(level, ts[i])|
    ensures Offset(level, ts, i + 1) <= |EncodeAll(level, ts)| <= |mem|
  {
    hide EncodeAll, Expand, Apply, Control, Payload, WellFormed, At;
    InstrAt(level, ts, i);
    HoldsAt(mem, EncodeAll(level, ts), EncodeAll(level, ts[..i]), Control(level, ts[i]), Payload(level, ts[i]));
  }

  lemma StepAt(level: Level, pl: Place, ts: seq<Instr>, i: nat, mem: seq<Byte>, length: int, maxout: int,
               off: nat, out: seq<Byte>)
    requires WellFormed(level, ts) && i < |ts|
    requires Holds(mem, EncodeAll(level, ts)) && |EncodeAll(level, ts)| <= length <= |mem|
    requires |Expand(ts)| <= maxout && Contains(pl, maxout)
    requires off == Offset(level, ts, i) && out == Expand(ts[..i])
    ensures off < length <= |mem|
    ensures Step(level, pl, mem, length, ControlAt(mem, off), off + 1, out, maxout)
         == Go(Offset(level, ts, i + 1), Expand(ts[..i + 1]))
  {
    hide Step, Apply, EncodeAll, Expand, Holds, At, Offset, Control, Payload, WellFormed;
    var t := ts[i];
    assert ValidInstr(level, t, |out|) && Expand(ts[..i + 1]) == Apply(out, t) && |Apply(out, t)| <= maxout by {
      InstrAt(level, ts, i);
    }
    InstrInMemory(level, ts, i, mem);
    StepInstr(level, pl, mem, length, off + 1, t, out, maxout);
  }

  /** The decoder's step at the `k`-th (index, output) pair leads to the next. */
  predicate Linked(level: Level, pl: Place, mem: seq<Byte>, length: int, maxout: int,
                   offs: seq<nat>, outs: seq<seq<Byte>>, k: nat)
    requires length <= |mem| && |outs| == |offs| && k + 1 < |offs|
  {
    && offs[k] < length
    && Step(level, pl, mem, length, ControlAt(mem, offs[k]), offs[k] + 1, outs[k], maxout)
       == Go(offs[k + 1], outs[k + 1])
  }

  /** From a control byte on, or the end if there is none. */
  function DecodeRest(level: Level, pl: Place, mem: seq<Byte>, length: int, off: nat, out: seq<Byte>,
                      maxout: int): Outcome
    requires length <= |mem|
  {
    if off < length then DecodeFrom(level, pl, mem, length, ControlAt(mem, off), off + 1, out, maxout) else Done(out)
  }

  /** Decoder steps chain: if all pairs are linked, decoding from any of them is
      decoding from the last. */
  lemma {:induction false} DecodeRun(level: Level, pl: Place, mem: seq<Byte>, length: int, maxout: int,
                                     offs: seq<nat>, outs: seq<seq<Byte>>, i: nat)
    requires length <= |mem| && |outs| == |offs| && i < |offs|
    requires forall k | 0 <= k < |offs| - 1 :: Linked(level, pl, mem, length, maxout, offs, outs, k)
    ensures DecodeRest(level, pl, mem, length, offs[i], outs[i], maxout)
         == DecodeRest(level, pl, mem, length, offs[|offs| - 1], outs[|outs| - 1], maxout)
    decreases |offs| - i
  {
    hide Step;
    if i + 1 < |offs| {
      assert Linked(level, pl, mem, length, maxout, offs, outs, i);
      DecodeRun(level, pl, mem, length, maxout, offs, outs, i + 1);
    }
  }

  lemma StreamEnds(level: Level, ts: seq<Instr>)
    ensures Offset(level, ts, 0) == 0 && Expand(ts[..0]) == []
    ensures Offset(level, ts, |ts|) == |EncodeAll(level, ts)| && Expand(ts[..|ts|]) == Expand(ts)
  {
    assert ts[..0] == [] && ts[..|ts|] == ts;
  }

  /** Decoding an input that begins with the bytes of a well-formed stream gets to
      the end of those with the text of the stream, with or without a marker on the
      first byte. */
  lemma DecodePrefix(level: Level, pl: Place, ts: seq<Instr>, mem: seq<Byte>, length: int, maxout: int)
    requires WellFormed(level, ts) && ts != []
    requires Holds(mem, EncodeAll(level, ts)) && |EncodeAll(level, ts)| <= length <= |mem|
    requires |Expand(ts)| <= maxout && Contains(pl, maxout)
    ensures Decode(level, pl, mem, length, maxout)
         == DecodeRest(level, pl, mem, length, |EncodeAll(level, ts)|, Expand(ts), maxout)
  {
    hide Step, Apply, EncodeAll, Expand, WellFormed, Offset, DecodeFrom;
    var n := |ts|;
    var offs := seq(n + 1, i requires 0 <= i <= n => Offset(level, ts, i));
    var outs := seq(n + 1, i requires 0 <= i <= n => Expand(ts[..i]));
    StreamEnds(level, ts);
    forall k | 0 <= k < n
      ensures Linked(level, pl, mem, length, maxout, offs, outs, k)
    {
      StepAt(level, pl, ts, k, mem, length, maxout, offs[k], outs[k]);
    }
    assert Linked(level, pl, mem, length, maxout, offs, outs, 0);
    DecodeRun(level, pl, mem, length, maxout, offs, outs, 0);
  }

  /** Decoding the bytes of any well-formed stream gives its text, whatever follows
      it in memory. */
  lemma DecodeEncoded(level: Level, pl: Place, ts: seq<Instr>, mem: seq<Byte>, maxout: int)
    requires WellFormed(level, ts) && ts != []
    requires Holds(mem, EncodeAll(level, ts))
    requires |Expand(ts)| <= maxout && Contains(pl, maxout)
    ensures Decode(level, pl, mem, |EncodeAll(level, ts)|, maxout) == Done(Expand(ts))
  {
    DecodePrefix(level, pl, ts, mem, |EncodeAll(level, ts)|, maxout);
  }

  /** A length below 0, which is what a packed length of 2^31 or more turns into,
      ends the input before it begins: nothing decodes. */
  lemma NegativeLength(pl: Place, mem: seq<Byte>, length: int, maxout: int)
    requires mem != [] && length < 0
    ensures DecodeAny(pl, mem, length, maxout) == Corrupt
  {
  }

  // ---- arbitrary input -----------------------------------------------------

  /** A successful decoder only ever appends: bytes once produced stay. */
  lemma {:induction false} DecodeAppends(level: Level, pl: Place, mem: seq<Byte>, length: int, ctrl: Byte, ip: nat,
                                         out: seq<Byte>, maxout: int)
    requires length <= |mem| && ip <= |mem|
    requires DecodeFrom(level, pl, mem, length, ctrl, ip, out, maxout).Done?
    ensures out <= DecodeFrom(level, pl, mem, length, ctrl, ip, out, maxout).data
    decreases |mem| - ip
  {
    hide MatchOperands;
    if ctrl >= 32 {
      var operands := MatchOperands(level, mem, ip, ctrl).value;
      CopyOutAt(out, operands.back + 1, operands.len + 3);
    }
    var next := Step(level, pl, mem, length, ctrl, ip, out, maxout);
    assert out <= next.out;
    if next.ip < length {
      DecodeAppends(level, pl, mem, length, mem[next.ip], next.ip + 1, next.out, maxout);
    }
  }

  /** The first byte that is not 255, if there is one. */
  function ChainEnd(s: seq<Byte>): (z: nat)
    ensures z <= |s| && (forall k | 0 <= k < z :: s[k] == 255) && (z < |s| ==> s[z] != 255)
  {
    if s == [] || s[0] != 255 then 0
    else
      var z := ChainEnd(s[1..]);
      assert forall k | 1 <= k < z + 1 :: s[k] == s[1..][k - 1];
      z + 1
  }

  /** What has to lie behind the input for operand reads to stay in memory: a byte
      that ends a length chain, a distance byte, and two more if that one is 255. */
  predicate Cushion(tail: seq<Byte>) {
    var z := ChainEnd(tail);
    z + 1 < |tail| && (tail[z + 1] == 255 ==> z + 3 < |tail|)
  }

  /** A length chain that starts no later than the end of the input ends within it,
      or where the memory behind it first allows. */
  lemma {:induction false} ChainStops(input: seq<Byte>, tail: seq<Byte>, ip: nat, len: nat)
    requires Cushion(tail) && ip <= |input| + ChainEnd(tail)
    ensures var r := Chain(input + tail, ip, len);
            r.Some? && (r.value.1 <= |input| || r.value.1 == |input| + ChainEnd(tail) + 1)
    decreases |input| + ChainEnd(tail) - ip
  {
    var mem := input + tail;
    if mem[ip] == 255 {
      if ip >= |input| {
        assert mem[ip] == tail[ip - |input|];
      }
      ChainStops(input, tail, ip + 1, (len + 255) % 0x1_0000_0000);
    }
  }

  lemma OperandsInMemory(level: Level, input: seq<Byte>, tail: seq<Byte>, ip: nat, ctrl: Byte)
    requires Cushion(tail) && ip <= |input| && ctrl >= 32
    ensures MatchOperands(level, input + tail, ip, ctrl).Some?
  {
    ChainStops(input, tail, ip, 6);
    hide Chain, Cushion;
    var z := ChainEnd(tail);
    assert z + 1 < |tail| && (tail[z + 1] == 255 ==> z + 3 < |tail|) by {
      assert Cushion(tail);
    }
    var length := LengthOperand(level, input + tail, ip, ctrl / 32 - 1);
    assert length.Some?;
    var p := length.value.1;
    assert p <= |input| + 1 || p == |input| + z + 1;
    assert (input + tail)[|input| + z + 1] == tail[z + 1];
    if p == |input| && z == 0 && level.Two? {
      assert (input + tail)[p] == tail[0];
    }
  }

  lemma StepStaysInMemory(level: Level, pl: Place, input: seq<Byte>, tail: seq<Byte>, ctrl: Byte, ip: nat,
                          out: seq<Byte>, maxout: int)
    requires Cushion(tail) && ip <= |input + tail| && (ip <= |input| || ctrl < 32)
    ensures Step(level, pl, input + tail, |input|, ctrl, ip, out, maxout) != Stop(Fault)
  {
    hide MatchOperands, Cushion;
    if ctrl >= 32 {
      OperandsInMemory(level, input, tail, ip, ctrl);
    }
  }

  lemma {:induction false} DecodeStaysInMemory(level: Level, pl: Place, input: seq<Byte>, tail: seq<Byte>,
                                               ctrl: Byte, ip: nat, out: seq<Byte>, maxout: int)
    requires Cushion(tail) && ip <= |input + tail| && (ip <= |input| || ctrl < 32)
    ensures DecodeFrom(level, pl, input + tail, |input|, ctrl, ip, out, maxout) != Fault
    decreases |input + tail| - ip
  {
    hide Step, Cushion;
    var mem := input + tail;
    StepStaysInMemory(level, pl, input, tail, ctrl, ip, out, maxout);
    var next := Step(level, pl, mem, |input|, ctrl, ip, out, maxout);
    if next.Go? && next.ip < |input| {
      DecodeStaysInMemory(level, pl, input, tail, mem[next.ip], next.ip + 1, next.out, maxout);
    }
  }

  /** The decoder reads no operand outside memory, on any input whatever its bytes
      and wherever the output lies, exactly if there is a cushion behind it. */
  lemma SafeExactlyWithCushion(tail: seq<Byte>)
    ensures (forall pl: Place, input: seq<Byte>, maxout: int | input != [] ::
               DecodeAny(pl, input + tail, |input|, maxout) != Fault)
       <==> Cushion(tail)
  {
    hide DecodeFrom, Cushion;
    if Cushion(tail) {
      forall pl: Place, input: seq<Byte>, maxout: int | input != []
        ensures DecodeAny(pl, input + tail, |input|, maxout) != Fault
      {
        DecodeStaysInMemory(One, pl, input, tail, (input + tail)[0] % 32, 1, [], maxout);
        DecodeStaysInMemory(Two, pl, input, tail, (input + tail)[0] % 32, 1, [], maxout);
      }
    } else {
      var pl: Place := Location(2, 0);
      ReadsPastCushion(pl, tail);
      assert DecodeAny(pl, [32, 7, 255] + tail, |[32, 7, 255]|, 1) == Fault;
    }
  }

  lemma {:induction false} ChainInTail(mem: seq<Byte>, tail: seq<Byte>, ip: nat, len: nat)
    requires ip <= |mem| && tail == mem[ip..]
    ensures Chain(mem, ip, len).Some? <==> ChainEnd(tail) < |tail|
    ensures Chain(mem, ip, len).Some? ==> Chain(mem, ip, len).value.1 == ip + ChainEnd(tail) + 1
    decreases |tail|
  {
    if ip < |mem| && mem[ip] == 255 {
      ChainInTail(mem, tail[1..], ip + 1, (len + 255) % 0x1_0000_0000);
    }
  }

  /** Without the cushion, level 2 leaves memory on this three-byte input: a literal,
      and the control byte of a long, far match. */
  lemma ReadsPastCushion(pl: Place, tail: seq<Byte>)
    requires !Cushion(tail) && Contains(pl, 1)
    ensures DecodeAny(pl, [32, 7, 255] + tail, 3, 1) == Fault
  {
    var mem: seq<Byte> := [32, 7, 255] + tail;
    AddrInside(pl, 1, 1);
    hide PastEnd, BeforeStart;
    assert mem[0] == 32 && mem[1] == 7 && mem[2] == 255 && mem[3..] == tail;
    ChainInTail(mem, tail, 3, 6);
    hide Chain;
    var z := ChainEnd(tail);
    if z + 1 < |tail| {
      assert mem[3 + z + 1] == tail[z + 1];
    }
    assert MatchOperands(Two, mem, 3, 255) == None;
    assert Step(Two, pl, mem, 3, 0, 1, [], 1) == Go(2, [7]) by {
      assert mem[1..2] == [7];
    }
    assert Step(Two, pl, mem, 3, 255, 3, [7], 1) == Stop(Fault);
    assert DecodeFrom(Two, pl, mem, 3, 255, 3, [7], 1) == Fault;
    assert mem[0] / 32 == 1 && mem[0] % 32 == 0;
  }
}
