/** The decompressor itself (fastlz/fastlz.cc:402-531): a loop over the input
    that fills `output` in place. `strictAlign` is the build option that selects
    between the byte and the 16-bit copy loop. */
module FastLzDecompressor {
  import opened Options
  import opened FastLzFormat
  import opened FastLzDecoder

  /** What a call comes to; `Faults` and `Strays` are no returns, but stand for an
      access outside the memory of the input, or of the output, that is next. */
  datatype CallResult = Returns(n: nat) | Faults | Strays

  /** A buffer that was `before` holds a copy of the bytes `d` back in `[op, end)`. */
  ghost predicate CopiedUpTo(before: seq<Byte>, now: seq<Byte>, op: nat, d: nat, end: nat)
    requires 1 <= d <= op <= end
  {
    && |now| == |before| && end <= |now|
    && (forall i | op <= i < end :: now[i] == now[i - d])
    && (forall i | 0 <= i < op || end <= i < |now| :: now[i] == before[i])
  }

  /** ... which makes it the copy of the specification. */
  lemma CopiedIsCopyOut(before: seq<Byte>, now: seq<Byte>, op: nat, d: nat, end: nat)
    requires 1 <= d <= op <= end && CopiedUpTo(before, now, op, d, end)
    ensures now[..end] == CopyOut(before[..op], d, end - op)
  {
    CopyOutUnique(before[..op], d, end - op, now[..end]);
  }

  /** Distance 1: the last byte, over and over. */
  method FillRun(output: array<Byte>, op: nat, len: nat) returns (end: nat)
    requires 1 <= op && op + 3 + len <= output.Length
    modifies output
    ensures end == op + 3 + len && output[..end] == CopyOut(old(output[..op]), 1, 3 + len)
    ensures output[end..] == old(output[end..])
  {
    var b := output[op - 1];
    output[op], output[op + 1], output[op + 2] := b, b, b;
    end := op + 3;
    for k := 0 to len
      invariant end == op + 3 + k
      invariant forall i | op - 1 <= i < end :: output[i] == b
      invariant forall i | 0 <= i < op || end <= i < output.Length :: output[i] == old(output[i])
    {
      output[end] := b;
      end := end + 1;
    }
    CopiedIsCopyOut(old(output[..]), output[..], op, 1, end);
  }

  /** One byte from `d` back; every copy loop is made of these. */
  method CopyByte(output: array<Byte>, ghost before: seq<Byte>, ghost op: nat, q: nat, d: nat)
    requires 1 <= d <= op <= q < output.Length && CopiedUpTo(before, output[..], op, d, q)
    modifies output
    ensures CopiedUpTo(before, output[..], op, d, q + 1)
  {
    output[q] := output[q - d];
  }

  /** Any distance, one byte at a time. */
  method CopyBytes(output: array<Byte>, op: nat, d: nat, len: nat) returns (end: nat)
    requires 1 <= d <= op && op + 3 + len <= output.Length
    modifies output
    ensures end == op + 3 + len && output[..end] == CopyOut(old(output[..op]), d, 3 + len)
    ensures output[end..] == old(output[end..])
  {
    ghost var before := output[..];
    CopyByte(output, before, op, op, d);
    CopyByte(output, before, op, op + 1, d);
    CopyByte(output, before, op, op + 2, d);
    end := op + 3;
    for k := 0 to len
      invariant end == op + 3 + k && CopiedUpTo(before, output[..], op, d, end)
    {
      CopyByte(output, before, op, end, d);
      end := end + 1;
    }
    CopiedIsCopyOut(before, output[..], op, d, end);
  }

  /** One 16-bit move: both bytes are read before either is written. */
  method CopyWord(output: array<Byte>, ghost before: seq<Byte>, ghost op: nat, q: nat, d: nat)
    requires 2 <= d <= op <= q && q + 2 <= output.Length && CopiedUpTo(before, output[..], op, d, q)
    modifies output
    ensures CopiedUpTo(before, output[..], op, d, q + 2)
  {
    output[q], output[q + 1] := output[q - d], output[q + 1 - d];
  }

  /** Distance 2 and up, two bytes at a time after an odd one; four moves per
      round while more than four are left. */
  method CopyWords(output: array<Byte>, op: nat, d: nat, len: nat) returns (end: nat)
    requires 2 <= d <= op && op + 3 + len <= output.Length
    modifies output
    ensures end == op + 3 + len && output[..end] == CopyOut(old(output[..op]), d, 3 + len)
    ensures output[end..] == old(output[end..])
  {
    ghost var before := output[..];
    CopyByte(output, before, op, op, d);
    CopyByte(output, before, op, op + 1, d);
    CopyByte(output, before, op, op + 2, d);
    var q, left: nat := op + 3, len;
    if left % 2 == 1 {
      CopyByte(output, before, op, q, d);
      q, left := q + 1, left - 1;
    }
    end, left := q + left, left / 2;
    while left > 4
      invariant op <= q && q + 2 * left == end && CopiedUpTo(before, output[..], op, d, q)
    {
      CopyWord(output, before, op, q, d);
      CopyWord(output, before, op, q + 2, d);
      CopyWord(output, before, op, q + 4, d);
      CopyWord(output, before, op, q + 6, d);
      q, left := q + 8, left - 4;
    }
    while left > 0
      invariant op <= q && q + 2 * left == end && CopiedUpTo(before, output[..], op, d, q)
    {
      CopyWord(output, before, op, q, d);
      q, left := q + 2, left - 1;
    }
    CopiedIsCopyOut(before, output[..], op, d, end);
  }

  /** Reads the operands of a match, advancing the input index. */
  method ReadMatch(level: Level, mem: seq<Byte>, start: nat, ctrl: Byte) returns (r: Option<Operands>)
    requires ctrl >= 32 && start <= |mem|
    ensures r == MatchOperands(level, mem, start, ctrl)
  {
    var ip, len: nat, ofs := start, ctrl / 32 - 1, ctrl % 32 * 256;
    if len == 7 - 1 {
      if level.One? {
        if ip >= |mem| { return None; }
        len := len + mem[ip];
        ip := ip + 1;
      } else {
        var code := 255;
        while code == 255
          invariant start <= ip <= |mem|
          invariant code == 255 ==> Chain(mem, ip, len) == Chain(mem, start, 6)
          invariant code != 255 ==> Chain(mem, start, 6) == Some((len, ip))
          decreases code == 255, |mem| - ip
        {
          if ip >= |mem| { return None; }
          code := mem[ip];
          len := (len + code) % 0x1_0000_0000;
          ip := ip + 1;
        }
      }
    }
    assert LengthOperand(level, mem, start, ctrl / 32 - 1) == Some((len, ip));
    if ip >= |mem| { return None; }
    var back := ofs + mem[ip];
    if level.Two? && mem[ip] == 255 && ofs == 31 * 256 {
      if ip + 2 >= |mem| { return None; }
      back := mem[ip + 1] * 256 + mem[ip + 2] + FAR_BIAS;
      ip := ip + 2;
    }
    return Some(Operands(len, back, ip + 1));
  }

  /** Copies a match with the loop its distance and the build call for. */
  method CopyMatch(strictAlign: bool, output: array<Byte>, op: nat, back: nat, len: nat) returns (end: nat)
    requires back < op && op + 3 + len <= output.Length
    modifies output
    ensures end == op + len + 3 && output[..end] == CopyOut(old(output[..op]), back + 1, len + 3)
    ensures output[end..] == old(output[end..])
  {
    if back == 0 {
      end := FillRun(output, op, len);
    } else if strictAlign {
      end := CopyBytes(output, op, back + 1, len);
    } else {
      end := CopyWords(output, op, back + 1, len);
    }
  }

  method CopyLiteral(mem: seq<Byte>, ip: nat, output: array<Byte>, op: nat, n: nat) returns (end: nat)
    requires ip + n <= |mem| && op + n <= output.Length
    modifies output
    ensures end == op + n && output[..end] == old(output[..op]) + mem[ip..ip + n]
    ensures output[end..] == old(output[end..])
  {
    end := op;
    for k := 0 to n
      invariant end == op + k && output[..op] == old(output[..op])
      invariant output[op..end] == mem[ip..ip + k]
      invariant output[end..] == old(output[end..])
    {
      output[end] := mem[ip + k];
      end := end + 1;
    }
    assert output[..end] == output[..op] + output[op..end];
  }

  /** What one turn of the loop leads to: an early return, or new indices. */
  datatype Turn = Leave(result: CallResult) | Next(ip: nat, op: nat)

  /** One turn of the decoder loop, up to fetching the next control byte. */
  method Execute(level: Level, strictAlign: bool, pl: Place, mem: seq<Byte>, length: int, ctrl: Byte, ip: nat,
                 output: array<Byte>, op: nat, maxout: int)
    returns (t: Turn)
    requires length <= |mem| && ip <= |mem| && maxout <= output.Length && op <= output.Length
    modifies output
    ensures match Step(level, pl, mem, length, ctrl, ip, old(output[..op]), maxout)
            case Stop(Corrupt) => t == Leave(Returns(0))
            case Stop(Stray) => t == Leave(Strays)
            case Stop(_) => t == Leave(Faults)
            case Go(ip', out) => t == Next(ip', |out|) && output[..|out|] == out
    ensures t.Leave? ==> output[..] == old(output[..])
    ensures t.Next? ==> t.op <= maxout && output[t.op..] == old(output[t.op..])
  {
    hide MatchOperands, CopyOut, Addr;
    if ctrl >= 32 {
      var operands := ReadMatch(level, mem, ip, ctrl);
      if operands.None? { return Leave(Faults); }
      var Operands(len, back, next) := operands.value;
      if Addr(pl, op + len + 3) > Addr(pl, maxout) { return Leave(Returns(0)); }
      if Addr(pl, op - back - 1) < Addr(pl, 0) { return Leave(Returns(0)); }
      if op + len + 3 > maxout || op < back + 1 { return Leave(Strays); }
      var end := CopyMatch(strictAlign, output, op, back, len);
      t := Next(next, end);
    } else {
      var n := ctrl + 1;
      if Addr(pl, op + n) > Addr(pl, maxout) { return Leave(Returns(0)); }
      if ip + n > length { return Leave(Returns(0)); }
      if op + n > maxout { return Leave(Strays); }
      var end := CopyLiteral(mem, ip, output, op, n);
      t := Next(ip + n, end);
    }
  }

  /** Decompresses into `output`, which lies at `pl`, and of which the first `maxout`
      bytes may be written. Returns 0 for an input that is not a stream or does not fit. */
  method Decompress(level: Level, strictAlign: bool, pl: Place, mem: seq<Byte>, length: int,
                    output: array<Byte>, maxout: int)
    returns (r: CallResult)
    requires length <= |mem| && maxout <= output.Length
    modifies output
    ensures match Decode(level, pl, mem, length, maxout)
            case Done(data) => r == Returns(|data|) && |data| <= output.Length && output[..|data|] == data
            case Corrupt => r == Returns(0)
            case Fault => r == Faults
            case Stray => r == Strays
    ensures forall i | maxout <= i < output.Length && 0 <= i :: output[i] == old(output[i])
  {
    hide Step;
    if |mem| == 0 { return Faults; }
    var ctrl, ip, op, loop := mem[0] % 32, 1, 0, true;
    while loop
      invariant 0 <= op <= output.Length && ip <= |mem| && 0 <= ctrl < 256
      invariant loop ==>
        DecodeFrom(level, pl, mem, length, ctrl, ip, output[..op], maxout) == Decode(level, pl, mem, length, maxout)
      invariant !loop ==> Decode(level, pl, mem, length, maxout) == Done(output[..op])
      invariant forall i | maxout <= i < output.Length && 0 <= i :: output[i] == old(output[i])
      decreases loop, |mem| - ip
    {
      label turn:
      var t := Execute(level, strictAlign, pl, mem, length, ctrl, ip, output, op, maxout);
      if t.Leave? { return t.result; }
      assert forall i | t.op <= i < output.Length ::
          output[i] == output[t.op..][i - t.op] == old@turn(output[t.op..])[i - t.op];
      ip, op := t.ip, t.op;
      if ip < length {
        ctrl, ip := mem[ip], ip + 1;
      } else {
        loop := false;
      }
    }
    return Returns(op);
  }
}
