/** The compressor body, compiled once per level (fastlz/fastlz.cc:148-400).

    While it runs, `output[..op]` is a finished stream followed by one open
    literal run: a header that still says `MAX_COPY - 1`, and `copy` bytes. The
    header is patched, or retracted if the run stayed empty, when a match or the
    end of the input closes the run. */
module FastLzCompressor {
  import opened Options
  import opened FastLzFormat
  import opened FastLzDecoder
  import opened FastLzGreedy

  /** A buffer of `capacity` bytes holds everything the compressor writes. */
  predicate RoomFor(length: nat, capacity: nat) {
    length + length / 32 + 1 <= capacity
  }

  /** The header's "5% larger, and not smaller than 66 bytes" is enough room. */
  lemma DocumentedBufferIsEnough(length: nat, capacity: nat)
    requires 66 <= capacity && length * 105 <= capacity * 100
    ensures RoomFor(length, capacity)
  {
  }

  // ---- the open stream -----------------------------------------------------

  /** `ts` is a finished stream for the text `input[..upTo]`. */
  ghost predicate Finished(level: Level, input: seq<Byte>, upTo: nat, stream: seq<Byte>, ts: seq<Instr>) {
    && upTo <= |input|
    && WellFormed(level, ts)
    && EncodeAll(level, ts) == stream
    && Expand(ts) == input[..upTo]
    && (ts != [] ==> ts[0].Literal?)
  }

  /** A literal run as it lies in the stream. */
  function Run(header: Byte, data: seq<Byte>): seq<Byte> {
    [header] + data
  }

  /** The state at the head of both loops: `out` are the bytes written so far,
      for the text `input[..ip]`, the last `copy` of them in the open run. The
      last conjunct bounds the size: one byte per byte consumed, one per full
      literal run, and the open header. */
  ghost predicate Open(level: Level, input: seq<Byte>, ip: nat, out: seq<Byte>, copy: nat, ts: seq<Instr>) {
    && copy < MAX_COPY && copy <= ip <= |input|
    && Finished(level, input, ip - copy, EncodeAll(level, ts), ts)
    && out == EncodeAll(level, ts) + Run(MAX_COPY - 1, input[ip - copy..ip])
    && (ts == [] ==> copy >= 2)
    && 32 * (|out| - ip - 1) + copy <= ip
  }

  /** The compressor starts with two literal bytes. */
  lemma StartIsOpen(level: Level, input: seq<Byte>, out: seq<Byte>)
    requires |input| >= 2 && out == [(MAX_COPY - 1) as Byte, input[0], input[1]]
    ensures Open(level, input, 2, out, 2, [])
  {
    assert out == [] + Run(MAX_COPY - 1, input[0..2]);
  }

  /** A closed run is one more instruction. */
  lemma CloseRun(level: Level, input: seq<Byte>, from: nat, ip: nat, ts: seq<Instr>)
    requires from < ip <= |input| && ip - from <= MAX_COPY
    requires Finished(level, input, from, EncodeAll(level, ts), ts)
    ensures Finished(level, input, ip, EncodeAll(level, ts) + Run(ip - from - 1, input[from..ip]),
                     ts + [Literal(input[from..ip])])
  {
    hide EncodeAll, Expand, WellFormed;
    Snoc(level, ts, Literal(input[from..ip]));
    assert input[..ip] == input[..from] + input[from..ip];
  }

  lemma PatchHeader(a: seq<Byte>, x: Byte, b: seq<Byte>, y: Byte)
    ensures (a + Run(x, b))[|a| := y] == a + Run(y, b)
  {
  }

  lemma GrowRun(a: seq<Byte>, x: Byte, b: seq<Byte>, y: Byte)
    ensures (a + Run(x, b)) + [y] == a + Run(x, b + [y])
  {
  }

  /** Appends one literal byte, and a fresh header when that fills the run. */
  method PutLiteral(ghost level: Level, input: seq<Byte>, ip: nat, output: array<Byte>, op: nat, copy: nat,
                    ghost ts: seq<Instr>)
    returns (op': nat, copy': nat, ghost ts': seq<Instr>)
    requires op <= output.Length && Open(level, input, ip, output[..op], copy, ts)
    requires ip < |input| && RoomFor(|input|, output.Length)
    modifies output
    ensures op' <= output.Length && Open(level, input, ip + 1, output[..op'], copy', ts')
    ensures Stream(ts', ip + 1 - copy') == AddLiteral(input, Stream(ts, ip - copy), ip)
    ensures copy' == (if copy + 1 == MAX_COPY then 0 else copy + 1)
    ensures op' == op + 1 + if copy + 1 == MAX_COPY then 1 else 0
  {
    hide EncodeAll, Expand, WellFormed;
    ghost var closed, from := EncodeAll(level, ts), ip - copy;
    ghost var run := input[from..ip + 1];
    assert run == input[from..ip] + [input[ip]];
    output[op] := input[ip];
    op', copy', ts' := op + 1, copy + 1, ts;
    assert output[..op'] == closed + Run(MAX_COPY - 1, run) by {
      assert output[..op'] == output[..op] + [input[ip]];
      GrowRun(closed, MAX_COPY - 1, input[from..ip], input[ip]);
    }
    if copy' == MAX_COPY {
      copy' := 0;
      output[op'] := MAX_COPY - 1;
      op' := op' + 1;
      CloseRun(level, input, from, ip + 1, ts);
      ts' := ts + [Literal(run)];
      assert output[..op'] == output[..op' - 1] + Run(MAX_COPY - 1, input[ip + 1..ip + 1]);
    }
  }

  /** Patches the open header, or retracts it if the run is empty. */
  method Close(ghost level: Level, ghost input: seq<Byte>, ghost ip: nat, output: array<Byte>, op: nat, copy: nat,
               ghost ts: seq<Instr>)
    returns (op': nat, ghost ts': seq<Instr>)
    requires op <= output.Length && Open(level, input, ip, output[..op], copy, ts)
    modifies output
    ensures op' == if copy > 0 then op else op - 1
    ensures Finished(level, input, ip, output[..op'], ts') && ts' != []
    ensures ts' == CloseAt(input, Stream(ts, ip - copy), ip)
  {
    hide EncodeAll, Expand, WellFormed;
    ghost var closed, run := EncodeAll(level, ts), input[ip - copy..ip];
    assert op == |closed| + 1 + copy;
    if copy > 0 {
      ghost var out := output[..op];
      var header: Byte := copy - 1;
      output[op - copy - 1] := header;
      assert output[..op] == out[|closed| := header];
      PatchHeader(closed, MAX_COPY - 1, run, header);
      CloseRun(level, input, ip - copy, ip, ts);
      op', ts' := op, ts + [Literal(run)];
    } else {
      assert output[..op - 1] == output[..op][..op - 1] == closed;
      op', ts' := op - 1, ts;
    }
  }

  // ---- matches -------------------------------------------------------------

  /** A match of repeated input is one more instruction. */
  lemma AddMatch(level: Level, input: seq<Byte>, from: nat, upTo: nat, d: nat, ts: seq<Instr>)
    requires Finished(level, input, from, EncodeAll(level, ts), ts) && ts != []
    requires Repeats(input, from, upTo, d) && Encodable(level, Match(upTo - from, d))
    ensures Finished(level, input, upTo, EncodeAll(level, ts) + Encode(level, Match(upTo - from, d)),
                     ts + [Match(upTo - from, d)])
  {
    hide EncodeAll, Expand, WellFormed, Encode;
    Snoc(level, ts, Match(upTo - from, d));
    CopyRebuilds(input, from, upTo, d);
  }

  /** A level 1 match of at most `MAX_LEN` bytes; `len` and `distance` are biased. */
  method PutMatch1(output: array<Byte>, op: nat, len: nat, distance: nat) returns (end: nat)
    requires 1 <= len <= MAX_LEN - 2 && distance < 8192
    requires op + len + 1 <= output.Length
    modifies output
    ensures op < end <= op + len + 1
    ensures output[..end] == old(output[..op]) + Encode(One, Match(len + 2, distance + 1))
  {
    if len < 7 {
      output[op] := len * 32 + distance / 256;
      output[op + 1] := distance % 256;
      end := op + 2;
      assert output[op..end] == Encode(One, Match(len + 2, distance + 1));
    } else {
      output[op] := 7 * 32 + distance / 256;
      output[op + 1] := len - 7;
      output[op + 2] := distance % 256;
      end := op + 3;
      assert output[op..end] == Encode(One, Match(len + 2, distance + 1));
    }
    assert output[..end] == output[..op] + output[op..end];
  }

  /** The level 2 length chain. */
  method PutChain(output: array<Byte>, op: nat, n: nat) returns (end: nat)
    requires op + |LengthChain(n)| <= output.Length
    modifies output
    ensures end == op + |LengthChain(n)|
    ensures output[..end] == old(output[..op]) + LengthChain(n)
  {
    hide LengthChain;
    var len := n;
    end := op;
    ghost var done: seq<Byte> := [];
    while len >= 255
      invariant 0 <= len <= n && op <= end && |done| == end - op && LengthChain(n) == done + LengthChain(len)
      invariant output[..end] == old(output[..op]) + done
    {
      ChainStep(done, len);
      output[end] := 255;
      end, len, done := end + 1, len - 255, done + [255];
      assert output[..end] == output[..end - 1] + [255];
    }
    ChainStep(done, len);
    output[end] := len;
    end := end + 1;
    assert output[..end] == output[..end - 1] + [len];
  }

  lemma ChainStep(done: seq<Byte>, len: nat)
    ensures done + LengthChain(len) == if len < 255 then done + [len] else (done + [255]) + LengthChain(len - 255)
  {
  }

  /** The level 2 distance: one byte, or the escape and 16 bits. */
  method PutOffset(output: array<Byte>, op: nat, distance: nat) returns (end: nat)
    requires distance <= 65535 + FAR_BIAS
    requires op + (if distance < FAR_BIAS then 1 else 3) <= output.Length
    modifies output
    ensures end == op + if distance < FAR_BIAS then 1 else 3
    ensures output[..end] == old(output[..op]) + OffsetBytes(Two, distance + 1)
  {
    if distance < FAR_BIAS {
      output[op] := distance % 256;
      end := op + 1;
    } else {
      var rest := distance - FAR_BIAS;
      output[op], output[op + 1], output[op + 2] := 255, rest / 256, rest % 256;
      end := op + 3;
    }
    assert output[op..end] == OffsetBytes(Two, distance + 1);
    assert output[..end] == output[..op] + output[op..end];
  }

  lemma MatchLayout(level: Level, before: seq<Byte>, head: Byte, len: nat, dist: nat)
    requires Encodable(level, Match(len, dist))
    requires head == LengthField(len) * 32 + OffsetField(level, dist)
    ensures before + [head] + LengthBytes(level, len) + OffsetBytes(level, dist)
         == before + Encode(level, Match(len, dist))
  {
    hide LengthField, OffsetField, LengthBytes, OffsetBytes;
    var lengths, offset := LengthBytes(level, len), OffsetBytes(level, dist);
    assert before + [head] + lengths + offset == before + ([head] + (lengths + offset));
  }

  /** A level 2 match of any length, near or far. */
  method PutMatch2(output: array<Byte>, op: nat, len: nat, distance: nat) returns (end: nat)
    requires 1 <= len < 0x7FFF_FFFE && distance <= 65535 + FAR_BIAS
    requires distance >= FAR_BIAS ==> len >= 3
    requires op + len + 1 <= output.Length
    modifies output
    ensures op < end <= op + len + 1
    ensures output[..end] == old(output[..op]) + Encode(Two, Match(len + 2, distance + 1))
  {
    hide LengthChain, OffsetBytes, Encode;
    ghost var before := output[..op];
    var head: Byte :=
      (if len < 7 then len else 7) * 32 + (if distance < FAR_BIAS then distance / 256 else 31);
    output[op] := head;
    end := op + 1;
    assert output[..end] == before + [head];
    if len >= 7 {
      ChainSize(len - 7);
      end := PutChain(output, end, len - 7);
    }
    assert output[..end] == before + [head] + LengthBytes(Two, len + 2);
    end := PutOffset(output, end, distance);
    MatchLayout(Two, before, head, len + 2, distance + 1);
  }

  /** Encodes a match that carries the text from `ip` to `ip + len + 2`; level 1
      splits it into pieces of 262 bytes. */
  method EmitMatch(level: Level, ghost input: seq<Byte>, ghost ip: nat, output: array<Byte>, op: nat,
                   length: nat, distance: nat, ghost ts: seq<Instr>)
    returns (end: nat, ghost ts': seq<Instr>)
    requires 1 <= length < 0x7FFF_FFFE && op + length + 1 <= output.Length
    requires Finished(level, input, ip, output[..op], ts) && ts != []
    requires Repeats(input, ip, ip + length + 2, distance + 1)
    requires level.One? ==> distance < 8192
    requires level.Two? ==> distance <= 65535 + FAR_BIAS && (distance >= FAR_BIAS ==> length >= 3)
    modifies output
    ensures op < end <= op + length + 1
    ensures Finished(level, input, ip + length + 2, output[..end], ts') && ts' != []
    ensures ts' == ts + Pieces(level, length + 2, distance + 1)
  {
    hide EncodeAll, Expand, WellFormed, Encode;
    ghost var d, last := distance + 1, ip + length + 2;
    var len := length;
    ts', end := ts, op;
    if level.Two? {
      AddMatch(level, input, ip, last, d, ts);
      end := PutMatch2(output, op, len, distance);
      ts' := ts + [Match(last - ip, d)];
    } else {
      while len > MAX_LEN - 2
        invariant 1 <= len <= length && op <= end && end - op <= length - len
        invariant Finished(level, input, last - len - 2, output[..end], ts') && ts' != []
        invariant ts' + Pieces(level, len + 2, d) == ts + Pieces(level, length + 2, d)
      {
        ghost var ts1 := ts';
        AddMatch(level, input, last - len - 2, last - len + 260, d, ts');
        end := PutMatch1(output, end, MAX_LEN - 2 - 2, distance);
        ts' := ts' + [Match(262, d)];
        assert Pieces(level, len + 2, d) == [Match(262, d)] + Pieces(level, len - 260, d);
        len := len - (MAX_LEN - 2);
      }
      AddMatch(level, input, last - len - 2, last, d, ts');
      end := PutMatch1(output, end, len, distance);
      ts' := ts' + [Match(len + 2, d)];
    }
  }

  // ---- finding matches -----------------------------------------------------

  /** The hash of the three bytes at `p`, which are inside the input. */
  method HashFunction(input: seq<Byte>, ghost behind: Byte, p: nat) returns (v: nat)
    requires p + 2 < |input|
    ensures v == HashAt(input, behind, p)
  {
    v := Hash(input[p], input[p + 1], input[p + 2]);
  }

  /** The second hash behind a match. If the match ends with the input, its third byte
      is the one behind the input. */
  method HashBehindMatch(input: seq<Byte>, behind: Byte, p: nat) returns (v: nat, ghost past: bool)
    requires p + 1 < |input|
    ensures v == HashAt(input, behind, p) && (past <==> p + 2 == |input|)
  {
    past := p + 2 == |input|;
    var third := if p + 2 < |input| then input[p + 2] else behind;
    v := Hash(input[p], input[p + 1], third);
  }

  /** Every slot of the table holds a position before `ip`. */
  ghost predicate Earlier(htab: seq<nat>, ip: nat) {
    |htab| == HASH_SIZE && forall k | 0 <= k < HASH_SIZE :: htab[k] < ip
  }

  /** Looks for an earlier occurrence of the bytes at `anchor`: at distance 1 if
      there is a run; otherwise at the position in the slot of their hash, which is then
      replaced by `anchor`. */
  method FindMatch(level: Level, input: seq<Byte>, ghost behind: Byte, anchor: nat, htab: array<nat>)
    returns (found: bool, len: nat, distance: nat)
    requires 2 <= anchor && anchor + 12 < |input| && Earlier(htab[..], anchor)
    modifies htab
    ensures Earlier(htab[..], anchor + 1)
    ensures found ==> Pays(level, input, anchor, distance) && len == MinimumLength(level, distance)
    ensures RunAt(level, input, anchor) ==> found && distance == 1 && htab[..] == old(htab[..])
    ensures !RunAt(level, input, anchor) ==>
              var h := HashAt(input, behind, anchor);
              && distance == anchor - old(htab[..])[h] && htab[..] == old(htab[..])[h := anchor]
              && (found <==> Pays(level, input, anchor, distance))
  {
    hide Hash;
    if level.Two? && input[anchor] == input[anchor - 1]
       && input[anchor - 1] == input[anchor + 1] && input[anchor] == input[anchor + 2] {
      return true, 3, 1;
    }
    var hval := HashFunction(input, behind, anchor);
    assert htab[hval] == htab[..][hval];
    var ref := htab[hval];
    distance := anchor - ref;
    htab[hval] := anchor;
    if distance == 0 || distance >= (if level.One? then MaxDistance(level) else MAX_FARDISTANCE)
       || input[ref] != input[anchor] || input[ref + 1] != input[anchor + 1] || input[ref + 2] != input[anchor + 2] {
      return false, 3, distance;
    }
    if level.Two? && distance >= MaxDistance(level) {
      if input[anchor + 3] != input[ref + 3] || input[anchor + 4] != input[ref + 4] {
        return false, 3, distance;
      }
      return true, 5, distance;
    }
    return true, 3, distance;
  }

  /** Distance 1: the byte before the match, again and again. The match ends one byte
      before `ip`: a mismatch is found one byte early, and one that reaches the bound
      gives up its last byte. */
  method ExtendRun(input: seq<Byte>, anchor: nat) returns (ip: nat)
    requires anchor + 12 < |input| && Repeats(input, anchor, anchor + 3, 1)
    ensures anchor + 3 < ip <= |input| - 2 && FollowedFrom(input, anchor, 3, 1, ip - 1)
  {
    var bound := |input| - 2;
    ip := anchor + 3;
    var ref, x := ip - 1, input[ip - 1];
    assert input[anchor - 1] == input[anchor] == input[anchor + 1] == input[anchor + 2];
    while ip < bound
      invariant anchor + 3 <= ip <= bound && ref == ip - 1
      invariant ip == anchor + 3 ==> input[ref] == x
      invariant forall k | anchor - 1 <= k < ip - 1 :: input[k] == x
    {
      if input[ref] != x { break; }
      ref, ip := ref + 1, ip + 1;
    }
  }

  /** Any other distance. The first eight comparisons need no bound. */
  method ExtendCopy(input: seq<Byte>, anchor: nat, len: nat, d: nat) returns (ip: nat)
    requires anchor + 12 < |input| && 3 <= len <= 5 && Repeats(input, anchor, anchor + len, d)
    ensures anchor + len < ip && FollowedFrom(input, anchor, len, d, ip - 1)
  {
    var bound := |input| - 2;
    ip := anchor + len;
    var from, ref := ip, ip - d;
    while ip < from + 8
      invariant from <= ip <= from + 8 && ref == ip - d
      invariant Repeats(input, anchor, ip, d)
      decreases from + 8 - ip
    {
      ref, ip := ref + 1, ip + 1;
      if input[ref - 1] != input[ip - 1] { return; }
    }
    while ip < bound
      invariant from + 8 <= ip && (ip <= bound || ip == from + 8) && ref == ip - d
      invariant Repeats(input, anchor, ip, d)
    {
      ref, ip := ref + 1, ip + 1;
      if input[ref - 1] != input[ip - 1] { return; }
    }
  }

  /** Extends a match as far as it goes. */
  method ExtendMatch(input: seq<Byte>, anchor: nat, len: nat, d: nat) returns (ip: nat)
    requires anchor + 12 < |input| && 3 <= len <= 5 && (d == 1 ==> len == 3)
    requires Repeats(input, anchor, anchor + len, d)
    ensures anchor + len < ip && FollowedFrom(input, anchor, len, d, ip - 1)
  {
    if d == 1 {
      ip := ExtendRun(input, anchor);
    } else {
      ip := ExtendCopy(input, anchor, len, d);
    }
  }

  // ---- the compressor ------------------------------------------------------

  /** `stream` decompresses to `text`, whatever lies behind it, in any buffer that can
      hold the text, anywhere. */
  ghost predicate Compressed(stream: seq<Byte>, text: seq<Byte>) {
    && stream != []
    && forall pl: Place, mem, maxout | stream <= mem && Contains(pl, maxout) && |text| <= maxout ::
         DecodeAny(pl, mem, |stream|, maxout) == Done(text)
  }

  /** A finished stream with the marker of its level on the first byte. */
  lemma FinishedIsCompressed(level: Level, input: seq<Byte>, stream: seq<Byte>, ts: seq<Instr>, marked: seq<Byte>)
    requires Finished(level, input, |input|, stream, ts) && ts != []
    requires |marked| == |stream| > 0 && marked[1..] == stream[1..]
    requires marked[0] % 32 == stream[0] && marked[0] / 32 == if level.One? then 0 else 1
    ensures Compressed(marked, input)
  {
    hide EncodeAll, Expand, WellFormed, DecodeFrom;
    assert input[..|input|] == input;
    forall pl: Place, mem, maxout | marked <= mem && Contains(pl, maxout) && |input| <= maxout
      ensures DecodeAny(pl, mem, |marked|, maxout) == Done(input)
    {
      MarkedHolds(stream, marked, mem);
      DecodeEncoded(level, pl, ts, mem, maxout);
    }
  }

  lemma MarkedHolds(stream: seq<Byte>, marked: seq<Byte>, mem: seq<Byte>)
    requires |marked| == |stream| > 0 && marked[1..] == stream[1..] && marked[0] % 32 == stream[0] && marked <= mem
    ensures Holds(mem, stream) && mem[0] == marked[0]
  {
    assert forall k | 1 <= k < |stream| :: mem[k] == marked[k] == marked[1..][k - 1] == stream[1..][k - 1];
  }

  lemma SingleRun(input: seq<Byte>)
    requires 1 <= |input| <= MAX_COPY
    ensures Finished(One, input, |input|, Run(|input| - 1, input), [Literal(input)])
  {
    Snoc(One, [], Literal(input));
    assert [] + [Literal(input)] == [Literal(input)];
    assert Expand([]) + input == input == input[..|input|];
    assert EncodeAll(One, []) + Run(|input| - 1, input) == Run(|input| - 1, input);
  }

  /** Inputs below four bytes: one literal run, and no marker at either level. */
  method StoreShort(input: seq<Byte>, output: array<Byte>) returns (n: nat)
    requires 1 <= |input| < 4 && |input| < output.Length
    modifies output
    ensures n == |input| + 1 <= output.Length && output[..n] == [|input| - 1] + input
    ensures Compressed(output[..n], input)
  {
    hide Finished, Compressed, EncodeAll, Expand, WellFormed;
    output[0] := |input| - 1;
    n := |input| + 1;
    var ip := 0;
    while ip <= |input| - 1
      invariant 0 <= ip <= |input|
      invariant output[0] == |input| - 1 && output[1..ip + 1] == input[..ip]
    {
      output[ip + 1] := input[ip];
      ip := ip + 1;
    }
    assert output[..n] == Run(|input| - 1, input);
    SingleRun(input);
    FinishedIsCompressed(One, input, output[..n], [Literal(input)], output[..n]);
  }

  /** `b | (1 << 5)`. */
  function SetMarker(b: Byte): (r: Byte)
    ensures b < 32 ==> r % 32 == b && r / 32 == 1 && r == b + 32
  {
    if b / 32 % 2 == 1 then b else b + 32
  }

  /** A far match, at level 2, at the last place where one is looked for, that repeats
      up to the last byte of the input. */
  ghost predicate EndsFar(level: Level, input: seq<Byte>, anchor: nat, distance: nat) {
    && level.Two? && distance >= MaxDistance(level)
    && anchor + 13 == |input| && Repeats(input, anchor, |input| - 1, distance)
  }

  lemma EndsFarExactly(level: Level, input: seq<Byte>, anchor: nat, d: nat, next: nat)
    requires anchor + 12 < |input| && Followed(level, input, anchor, d, next)
    ensures next == |input| - 1 <==> EndsFar(level, input, anchor, d)
  {
  }

  /** Extends a match found at `anchor`, closes the open run and emits the match. */
  method EncodeMatch(level: Level, input: seq<Byte>, anchor: nat, minimum: nat, distance: nat,
                     output: array<Byte>, op: nat, copy: nat, ghost ts: seq<Instr>)
    returns (ip: nat, end: nat, ghost ts': seq<Instr>)
    requires |input| < 0x8000_0000 && RoomFor(|input|, output.Length)
    requires anchor + 12 < |input| && Pays(level, input, anchor, distance)
    requires minimum == MinimumLength(level, distance)
    requires op <= output.Length && Open(level, input, anchor, output[..op], copy, ts)
    modifies output
    ensures anchor < ip && ip + 3 <= |input| && Followed(level, input, anchor, distance, ip + 2)
    ensures end <= output.Length && end - (ip + 2) <= op - anchor - 1
    ensures Finished(level, input, ip + 2, output[..end], ts') && ts' != []
    ensures ts' == CloseAt(input, Stream(ts, anchor - copy), anchor) + Pieces(level, ip + 2 - anchor, distance)
  {
    hide EncodeAll, Expand, WellFormed, Pieces, CloseAt;
    ip := ExtendMatch(input, anchor, minimum, distance);
    var biased := distance - 1;
    end, ts' := Close(level, input, anchor, output, op, copy, ts);
    ip := ip - 3;
    var len := ip - anchor;
    assert 32 * (op - anchor - 1) <= anchor;
    end, ts' := EmitMatch(level, input, anchor, output, end, len, biased, ts');
  }

  /** Opens the next literal run after a match. */
  method PutHeader(ghost level: Level, ghost input: seq<Byte>, ghost ip: nat, output: array<Byte>, op: nat,
                   ghost ts: seq<Instr>)
    returns (end: nat)
    requires op < output.Length && Finished(level, input, ip, output[..op], ts) && ts != []
    requires 32 * (op - ip) <= ip
    modifies output
    ensures end <= output.Length && Open(level, input, ip, output[..end], 0, ts)
  {
    hide EncodeAll, Expand, WellFormed;
    output[op] := MAX_COPY - 1;
    end := op + 1;
    assert output[..end] == output[..op] + Run(MAX_COPY - 1, input[ip..ip]);
  }

  /** No match pays anywhere. */
  ghost predicate Incompressible(level: Level, input: seq<Byte>) {
    forall anchor, d: nat | 2 <= anchor && anchor + 12 < |input| :: !Pays(level, input, anchor, d)
  }

  /** Every byte so far is a literal. */
  predicate Unpacked(ip: nat, op: nat, copy: nat) {
    copy == ip % MAX_COPY && op == ip + ip / MAX_COPY + 1
  }

  lemma UnpackedNext(ip: nat, op: nat, copy: nat, op': nat, copy': nat)
    requires copy' == if copy + 1 == MAX_COPY then 0 else copy + 1
    requires op' == op + 1 + if copy + 1 == MAX_COPY then 1 else 0
    ensures Unpacked(ip, op, copy) ==> Unpacked(ip + 1, op', copy')
  {
    assert (ip + 1) % MAX_COPY == if ip % MAX_COPY + 1 == MAX_COPY then 0 else ip % MAX_COPY + 1;
  }

  lemma NothingPays(level: Level, input: seq<Byte>, anchor: nat, d: nat)
    requires 2 <= anchor && anchor + 12 < |input| && Pays(level, input, anchor, d)
    ensures !Incompressible(level, input)
  {
  }

  /** Encodes a match, enters the two positions behind it, and opens the next run. */
  method TakeMatch(level: Level, input: seq<Byte>, behind: Byte, anchor: nat, minimum: nat, distance: nat,
                   htab: array<nat>, output: array<Byte>, op: nat, copy: nat, ghost ts: seq<Instr>)
    returns (ip: nat, end: nat, ghost ts': seq<Instr>, ghost past: bool)
    requires |input| < 0x8000_0000 && RoomFor(|input|, output.Length)
    requires anchor + 12 < |input| && Pays(level, input, anchor, distance)
    requires minimum == MinimumLength(level, distance) && Earlier(htab[..], anchor + 1)
    requires op <= output.Length && Open(level, input, anchor, output[..op], copy, ts)
    modifies output, htab
    ensures anchor + 2 < ip < |input| && Followed(level, input, anchor, distance, ip)
    ensures end <= output.Length && Open(level, input, ip, output[..end], 0, ts')
    ensures ts' == CloseAt(input, Stream(ts, anchor - copy), anchor) + Pieces(level, ip - anchor, distance)
    ensures Earlier(htab[..], ip)
    ensures htab[..] == old(htab[..])[HashAt(input, behind, ip - 2) := ip - 2][HashAt(input, behind, ip - 1) := ip - 1]
    ensures past <==> EndsFar(level, input, anchor, distance)
  {
    hide Finished, Run, EncodeAll, Expand, WellFormed, Pays, EndsFar, Followed, HashAt, Pieces, CloseAt;
    ip, end, ts' := EncodeMatch(level, input, anchor, minimum, distance, output, op, copy, ts);
    EndsFarExactly(level, input, anchor, distance, ip + 2);
    var hval := HashFunction(input, behind, ip);
    htab[hval] := ip;
    ip := ip + 1;
    hval, past := HashBehindMatch(input, behind, ip);
    htab[hval] := ip;
    ip := ip + 1;
    end := PutHeader(level, input, ip, output, end, ts');
  }

  /** The state of the main loop: the scan so far has decided rightly, the table and the
      stream are what it makes of them. */
  ghost predicate Scanning(level: Level, input: seq<Byte>, behind: Byte, trace: seq<Decision>, ip: nat, copy: nat,
                           htab: seq<nat>, ts: seq<Instr>) {
    && Greedy(level, input, behind, trace) && End(trace) == ip && copy <= ip
    && Reflects(htab, AllEntered(level, input, behind, trace))
    && StreamOf(level, input, behind, trace) == Stream(ts, ip - copy)
  }

  lemma NoneEntered(htab: seq<nat>)
    requires |htab| == HASH_SIZE && forall k | 0 <= k < HASH_SIZE :: htab[k] == 0
    ensures Reflects(htab, [])
  {
  }

  /** What a position that is passed enters, and a table that has entered it: `h` is the
      slot of the position, `e` and `f` are the slots behind a match. */
  lemma TableOfMatch(htab: seq<nat>, entered: seq<Entered>, run: bool, h: Entered, e: Entered, f: Entered)
    requires Reflects(htab, entered) && h.0 < HASH_SIZE && e.0 < HASH_SIZE && f.0 < HASH_SIZE
    ensures |htab| == HASH_SIZE
    ensures Reflects((if run then htab else htab[h.0 := h.1])[e.0 := e.1][f.0 := f.1],
                     entered + ((if run then [] else [h]) + [e, f]))
  {
    var first := if run then [] else [h];
    var found := if run then htab else htab[h.0 := h.1];
    if run {
      assert entered + first == entered;
    } else {
      EnterOne(htab, entered, h.0, h.1);
    }
    hide Reflects;
    EnterOne(found, entered + first, e.0, e.1);
    EnterOne(found[e.0 := e.1], entered + first + [e], f.0, f.1);
    assert entered + first + [e] + [f] == entered + (first + [e, f]);
  }

  lemma EntersOf(level: Level, input: seq<Byte>, behind: Byte, d: Decision)
    requires 1 <= d.anchor && d.anchor + 2 < |input|
    ensures d.distance.None? && !RunAt(level, input, d.anchor) ==>
              Enters(level, input, behind, d) == [(HashAt(input, behind, d.anchor), d.anchor)]
    ensures d.distance.Some? && 2 <= d.next < |input| ==>
              (Enters(level, input, behind, d)
               == (if RunAt(level, input, d.anchor) then [] else [(HashAt(input, behind, d.anchor), d.anchor)])
                + [(HashAt(input, behind, d.next - 2), d.next - 2), (HashAt(input, behind, d.next - 1), d.next - 1)])
  {
    hide HashAt, RunAt;
  }

  /** What is decided with a table that reflects the decisions so far is right. */
  lemma ChosenByTable(level: Level, input: seq<Byte>, behind: Byte, trace: seq<Decision>, htab: seq<nat>, d: Decision)
    requires 2 <= d.anchor && d.anchor + 12 < |input|
    requires Reflects(htab, AllEntered(level, input, behind, trace))
    requires if RunAt(level, input, d.anchor) then
               d.distance == Some(1) && Followed(level, input, d.anchor, 1, d.next)
             else
               var candidate := htab[HashAt(input, behind, d.anchor)];
               && candidate < d.anchor
               && if Pays(level, input, d.anchor, d.anchor - candidate) then
                    d.distance == Some(d.anchor - candidate)
                    && Followed(level, input, d.anchor, d.anchor - candidate, d.next)
                  else
                    d.distance == None && d.next == d.anchor + 1
    ensures Chosen(level, input, behind, trace, d)
  {
    hide RunAt, Followed, Pays, HashAt, AllEntered, Latest;
  }

  /** One decision more. */
  lemma ScanningNext(level: Level, input: seq<Byte>, behind: Byte, trace: seq<Decision>, ip: nat, copy: nat,
                     htab: seq<nat>, ts: seq<Instr>, d: Decision, htab': seq<nat>, copy': nat, ts': seq<Instr>)
    requires Scanning(level, input, behind, trace, ip, copy, htab, ts) && d.anchor == ip < |input|
    requires Chosen(level, input, behind, trace, d) && copy' <= d.next
    requires Stream(ts', d.next - copy') == Decided(level, input, Stream(ts, ip - copy), d)
    requires Reflects(htab', AllEntered(level, input, behind, trace) + Enters(level, input, behind, d))
    ensures Scanning(level, input, behind, trace + [d], d.next, copy', htab', ts')
  {
    hide Chosen, Reflects, AllEntered, Enters, Decided, StreamOf, Greedy, End;
    GreedyNext(level, input, behind, trace, d);
  }

  /** A literal: nothing was found. */
  lemma DecidedLiteral(level: Level, input: seq<Byte>, behind: Byte, trace: seq<Decision>, ip: nat, copy: nat,
                       htab: seq<nat>, ts: seq<Instr>, h: nat, copy': nat, ts': seq<Instr>)
    requires Scanning(level, input, behind, trace, ip, copy, htab, ts) && 2 <= ip && ip + 12 < |input|
    requires h == HashAt(input, behind, ip) && !RunAt(level, input, ip) && htab[h] < ip
    requires !Pays(level, input, ip, ip - htab[h]) && copy' <= ip + 1
    requires Stream(ts', ip + 1 - copy') == AddLiteral(input, Stream(ts, ip - copy), ip)
    ensures Scanning(level, input, behind, trace + [Decision(ip, None, ip + 1)], ip + 1, copy', htab[h := ip], ts')
  {
    hide Pays, RunAt, HashAt, Latest, AllEntered, StreamOf, Greedy, AddLiteral, Enters, Chosen, Followed;
    var d, entered := Decision(ip, None, ip + 1), AllEntered(level, input, behind, trace);
    EntersOf(level, input, behind, d);
    EnterOne(htab, entered, h, ip);
    ChosenByTable(level, input, behind, trace, htab, d);
    ScanningNext(level, input, behind, trace, ip, copy, htab, ts, d, htab[h := ip], copy', ts');
  }

  /** A match. `found` is the table once the anchor has been entered. */
  lemma DecidedMatch(level: Level, input: seq<Byte>, behind: Byte, trace: seq<Decision>, ip: nat, copy: nat,
                     htab: seq<nat>, ts: seq<Instr>, distance: nat, found: seq<nat>, next: nat, ts': seq<Instr>,
                     h: Entered, e: Entered, f: Entered)
    requires Scanning(level, input, behind, trace, ip, copy, htab, ts) && 2 <= ip && ip + 12 < |input|
    requires ip + 2 < next < |input| && h == (HashAt(input, behind, ip), ip)
    requires e == (HashAt(input, behind, next - 2), next - 2) && f == (HashAt(input, behind, next - 1), next - 1)
    requires if RunAt(level, input, ip) then distance == 1 && found == htab
             else distance == ip - htab[h.0] && found == htab[h.0 := h.1]
    requires Pays(level, input, ip, distance) && Followed(level, input, ip, distance, next)
    requires ts' == CloseAt(input, Stream(ts, ip - copy), ip) + Pieces(level, next - ip, distance)
    ensures Scanning(level, input, behind, trace + [Decision(ip, Some(distance), next)], next, 0,
                     found[e.0 := e.1][f.0 := f.1], ts')
  {
    hide Pays, RunAt, HashAt, Latest, AllEntered, StreamOf, Greedy, Enters, Followed, CloseAt, Pieces, Chosen, Reflects,
      End;
    var d, entered := Decision(ip, Some(distance), next), AllEntered(level, input, behind, trace);
    EntersOf(level, input, behind, d);
    TableOfMatch(htab, entered, RunAt(level, input, ip), h, e, f);
    DecidedChoice(level, input, behind, trace, htab, distance, d, h.0);
    ScanningNext(level, input, behind, trace, ip, copy, htab, ts, d, found[e.0 := e.1][f.0 := f.1], 0, ts');
  }

  lemma DecidedChoice(level: Level, input: seq<Byte>, behind: Byte, trace: seq<Decision>, htab: seq<nat>, distance: nat,
                      d: Decision, h: nat)
    requires 2 <= d.anchor && d.anchor + 12 < |input| && h == HashAt(input, behind, d.anchor)
    requires Reflects(htab, AllEntered(level, input, behind, trace)) && d.distance == Some(distance)
    requires if RunAt(level, input, d.anchor) then distance == 1 else distance == d.anchor - htab[h]
    requires Pays(level, input, d.anchor, distance) && Followed(level, input, d.anchor, distance, d.next)
    ensures Chosen(level, input, behind, trace, d)
  {
    assert 1 <= distance;
    hide Pays, RunAt, HashAt, Latest, AllEntered, Followed, Chosen;
    ChosenByTable(level, input, behind, trace, htab, d);
  }

  /** A turn of the main loop that found nothing at `ip`; `table` is the table before. */
  method LiteralTurn(ghost level: Level, input: seq<Byte>, ghost behind: Byte, ip: nat, ghost table: seq<nat>,
                     ghost h: nat, output: array<Byte>, op: nat, copy: nat, ghost ts: seq<Instr>,
                     ghost trace: seq<Decision>)
    returns (op': nat, copy': nat, ghost ts': seq<Instr>, ghost trace': seq<Decision>)
    requires RoomFor(|input|, output.Length)
    requires op <= output.Length && Open(level, input, ip, output[..op], copy, ts)
    requires Scanning(level, input, behind, trace, ip, copy, table, ts) && 2 <= ip && ip + 12 < |input|
    requires h == HashAt(input, behind, ip) && !RunAt(level, input, ip) && |table| == HASH_SIZE && table[h] < ip
    requires !Pays(level, input, ip, ip - table[h])
    modifies output
    ensures op' <= output.Length && Open(level, input, ip + 1, output[..op'], copy', ts')
    ensures Scanning(level, input, behind, trace', ip + 1, copy', table[h := ip], ts')
    ensures Unpacked(ip, op, copy) ==> Unpacked(ip + 1, op', copy')
  {
    hide Unpacked, Open, Scanning, Pays, RunAt, HashAt, AddLiteral, RoomFor;
    op', copy', ts' := PutLiteral(level, input, ip, output, op, copy, ts);
    UnpackedNext(ip, op, copy, op', copy');
    DecidedLiteral(level, input, behind, trace, ip, copy, table, ts, h, copy', ts');
    trace' := trace + [Decision(ip, None, ip + 1)];
  }

  /** A turn that found a match. */
  method MatchTurn(level: Level, input: seq<Byte>, behind: Byte, anchor: nat, minimum: nat, distance: nat,
                   ghost table: seq<nat>, htab: array<nat>, output: array<Byte>, op: nat, copy: nat,
                   ghost ts: seq<Instr>, ghost trace: seq<Decision>)
    returns (ip: nat, end: nat, ghost ts': seq<Instr>, ghost trace': seq<Decision>, ghost past: bool)
    requires |input| < 0x8000_0000 && RoomFor(|input|, output.Length)
    requires 2 <= anchor && anchor + 12 < |input| && Pays(level, input, anchor, distance)
    requires minimum == MinimumLength(level, distance) && Earlier(htab[..], anchor + 1)
    requires op <= output.Length && Open(level, input, anchor, output[..op], copy, ts)
    requires Scanning(level, input, behind, trace, anchor, copy, table, ts) && |table| == HASH_SIZE
    requires if RunAt(level, input, anchor) then distance == 1 && htab[..] == table
             else var h := HashAt(input, behind, anchor);
                  distance == anchor - table[h] && htab[..] == table[h := anchor]
    modifies output, htab
    ensures anchor < ip < |input| && Earlier(htab[..], ip)
    ensures end <= output.Length && Open(level, input, ip, output[..end], 0, ts')
    ensures Scanning(level, input, behind, trace', ip, 0, htab[..], ts')
    ensures past ==> EndsFar(level, input, anchor, distance)
  {
    hide Open, Scanning, Pays, RunAt, HashAt, AddLiteral, RoomFor, EndsFar, Followed, Earlier, CloseAt, Pieces,
      MinimumLength;
    ghost var found := htab[..];
    ip, end, ts', past := TakeMatch(level, input, behind, anchor, minimum, distance, htab, output, op, copy, ts);
    DecidedMatch(level, input, behind, trace, anchor, copy, table, ts, distance, found, ip, ts',
                 (HashAt(input, behind, anchor), anchor), (HashAt(input, behind, ip - 2), ip - 2),
                 (HashAt(input, behind, ip - 1), ip - 1));
    trace' := trace + [Decision(anchor, Some(distance), ip)];
  }

  /** The table is cleared, and the first two bytes are literals. */
  method Begin(level: Level, input: seq<Byte>, ghost behind: Byte, output: array<Byte>) returns (htab: array<nat>)
    requires 4 <= |input| < 0x8000_0000 && RoomFor(|input|, output.Length)
    modifies output
    ensures fresh(htab) && Earlier(htab[..], 2)
    ensures 3 <= output.Length && Open(level, input, 2, output[..3], 2, [])
    ensures Unpacked(2, 3, 2) && Scanning(level, input, behind, [], 2, 2, htab[..], [])
  {
    hide Open;
    htab := new nat[HASH_SIZE](_ => 0);
    output[0], output[1], output[2] := MAX_COPY - 1, input[0], input[1];
    StartIsOpen(level, input, output[..3]);
    NoneEntered(htab[..]);
  }

  lemma TableBefore(htab: seq<nat>, ip: nat, h: nat)
    requires Earlier(htab, ip) && h < HASH_SIZE
    ensures |htab| == HASH_SIZE && htab[h] < ip
  {
  }

  /** The main loop: everything but the last bytes of the input. */
  method Scan(level: Level, input: seq<Byte>, behind: Byte, output: array<Byte>)
    returns (ip: nat, op: nat, copy: nat, ghost ts: seq<Instr>, ghost trace: seq<Decision>, ghost past: bool)
    requires 4 <= |input| < 0x8000_0000 && RoomFor(|input|, output.Length)
    modifies output
    ensures |input| - 12 <= ip && op <= output.Length && Open(level, input, ip, output[..op], copy, ts)
    ensures Scanned(level, input, behind, trace) && End(trace) == ip
    ensures copy <= ip && StreamOf(level, input, behind, trace) == Stream(ts, ip - copy)
    ensures past ==> exists anchor, d :: EndsFar(level, input, anchor, d)
    ensures Incompressible(level, input) ==> Unpacked(ip, op, copy)
  {
    hide Incompressible, EndsFar, Pays, RunAt, HashAt, Unpacked, Open, Greedy, Scanning, StreamOf, Scanned,
      MinimumLength, RoomFor, Earlier;
    var htab := Begin(level, input, behind, output);
    past, copy, ip, op, ts, trace := false, 2, 2, 3, [], [];
    while ip < |input| - 12
      invariant 2 <= ip && op <= output.Length
      invariant Open(level, input, ip, output[..op], copy, ts)
      invariant fresh(htab) && Earlier(htab[..], ip)
      invariant Scanning(level, input, behind, trace, ip, copy, htab[..], ts)
      invariant past ==> exists anchor, d :: EndsFar(level, input, anchor, d)
      invariant Incompressible(level, input) ==> Unpacked(ip, op, copy)
      decreases |input| - ip
    {
      ghost var table, h := htab[..], HashAt(input, behind, ip);
      TableBefore(table, ip, h);
      var found, minimum, distance := FindMatch(level, input, behind, ip, htab);
      if found {
        NothingPays(level, input, ip, distance);
        ghost var beyond;
        ip, op, ts, trace, beyond :=
          MatchTurn(level, input, behind, ip, minimum, distance, table, htab, output, op, copy, ts, trace);
        past, copy := past || beyond, 0;
      } else {
        op, copy, ts, trace :=
          LiteralTurn(level, input, behind, ip, table, h, output, op, copy, ts, trace);
        ip := ip + 1;
      }
    }
    ScanningEnds(level, input, behind, trace, ip, copy, htab[..], ts);
  }

  lemma ScanningEnds(level: Level, input: seq<Byte>, behind: Byte, trace: seq<Decision>, ip: nat, copy: nat,
                     htab: seq<nat>, ts: seq<Instr>)
    requires Scanning(level, input, behind, trace, ip, copy, htab, ts) && ip + 12 >= |input|
    ensures Scanned(level, input, behind, trace) && End(trace) == ip
    ensures copy <= ip && StreamOf(level, input, behind, trace) == Stream(ts, ip - copy)
  {
    hide Greedy;
  }

  /** What an `int` makes of a number below 2^32. */
  function ToInt(n: nat): int {
    if n < 0x8000_0000 then n else n - 0x1_0000_0000
  }

  /** Inputs of this size and below have a packed length that fits an `int`, whatever
      they are. */
  const MAX_PACKABLE := 2_082_408_384

  lemma PackedLengthFits(length: nat)
    ensures length <= MAX_PACKABLE <==> length + (length + MAX_COPY - 1) / MAX_COPY < 0x8000_0000
    ensures length <= MAX_PACKABLE <==> length + length / MAX_COPY + 1 < 0x8000_0000
  {
  }

  lemma OpenSize(level: Level, input: seq<Byte>, ip: nat, out: seq<Byte>, copy: nat, ts: seq<Instr>)
    requires Open(level, input, ip, out, copy, ts)
    ensures copy <= ip <= |input| && |out| <= ip + ip / 32 + 1
  {
  }

  lemma RestNext(input: seq<Byte>, st: Stream, ip: nat, st': Stream)
    requires st.from <= ip < |input| && st' == AddLiteral(input, st, ip)
    ensures st'.from <= ip + 1 && AddRest(input, st, ip) == AddRest(input, st', ip + 1)
  {
  }

  lemma NothingRests(input: seq<Byte>, st: Stream)
    requires st.from <= |input|
    ensures AddRest(input, st, |input|) == CloseAt(input, st, |input|)
  {
  }

  /** What the main loop leaves over, as literals. */
  method LeftOver(ghost level: Level, input: seq<Byte>, output: array<Byte>, from: nat, op0: nat, copy0: nat,
                  ghost ts0: seq<Instr>)
    returns (op: nat, copy: nat, ghost ts: seq<Instr>)
    requires op0 <= output.Length && Open(level, input, from, output[..op0], copy0, ts0) && from <= |input|
    requires RoomFor(|input|, output.Length)
    modifies output
    ensures op <= output.Length && Open(level, input, |input|, output[..op], copy, ts)
    ensures Unpacked(from, op0, copy0) ==> Unpacked(|input|, op, copy)
    ensures copy0 <= from && copy <= |input|
    ensures CloseAt(input, Stream(ts, |input| - copy), |input|) == AddRest(input, Stream(ts0, from - copy0), from)
  {
    hide Open, Unpacked, AddLiteral, CloseAt, AddRest, RoomFor;
    OpenSize(level, input, from, output[..op0], copy0, ts0);
    var ip := from;
    op, copy, ts := op0, copy0, ts0;
    while ip <= |input| - 1
      invariant ip <= |input| && op <= output.Length
      invariant Open(level, input, ip, output[..op], copy, ts)
      invariant Unpacked(from, op0, copy0) ==> Unpacked(ip, op, copy)
      invariant copy <= ip
      invariant AddRest(input, Stream(ts, ip - copy), ip) == AddRest(input, Stream(ts0, from - copy0), from)
      decreases |input| - ip
    {
      ghost var op1, copy1, st := op, copy, Stream(ts, ip - copy);
      op, copy, ts := PutLiteral(level, input, ip, output, op, copy, ts);
      UnpackedNext(ip, op1, copy1, op, copy);
      RestNext(input, st, ip, Stream(ts, ip + 1 - copy));
      ip := ip + 1;
    }
    NothingRests(input, Stream(ts, ip - copy));
  }

  /** The bytes of a stream, with the marker of level 2 on the first one. */
  predicate IsMarked(level: Level, out: seq<Byte>, stream: seq<Byte>) {
    && |out| == |stream| > 0 && out[1..] == stream[1..]
    && out[0] as int == stream[0] as int + if level.One? then 0 else 32
  }

  /** Closes the last run and puts the marker of level 2 on the first byte. */
  method Complete(level: Level, ghost input: seq<Byte>, output: array<Byte>, op: nat, copy: nat, ghost ts: seq<Instr>)
    returns (n: nat)
    requires op <= output.Length && Open(level, input, |input|, output[..op], copy, ts) && |input| > 0
    modifies output
    ensures n == (if copy > 0 then op else op - 1) && 0 < n <= output.Length && Compressed(output[..n], input)
    ensures output[0] / 32 == if level.One? then 0 else 1
    ensures copy <= |input|
    ensures IsMarked(level, output[..n], EncodeAll(level, CloseAt(input, Stream(ts, |input| - copy), |input|)))
  {
    hide Run, EncodeAll, Expand, WellFormed, DecodeAny, Compressed, CloseAt;
    ghost var ts';
    n, ts' := Close(level, input, |input|, output, op, copy, ts);
    ghost var stream := output[..n];
    FirstByte(level, ts');
    if level.Two? {
      output[0] := SetMarker(output[0]);
    }
    assert output[..n][1..] == stream[1..];
    FinishedIsCompressed(level, input, stream, ts', output[..n]);
  }

  lemma UnpackedSize(length: nat, op: nat, copy: nat)
    requires Unpacked(length, op, copy)
    ensures (if copy > 0 then op else op - 1) == length + (length + MAX_COPY - 1) / MAX_COPY
  {
  }

  /** The input of a call: `length` bytes, or a negative number and none. */
  predicate IsInput(input: seq<Byte>, length: int) {
    |input| == (if length < 0 then 0 else length) && length < 0x8000_0000
  }

  /** What the code does for a negative length, which it takes for one below four: it
      writes the header of a literal run, of which there are no bytes. */
  predicate HeaderOnly(length: int, before: seq<Byte>, after: seq<Byte>, r: int) {
    before != [] && after == before[0 := (length - 1) % 256] && r == length + 1
  }

  /** The output is that of the scan: everything is written as the decisions say. */
  ghost predicate IsOutput(level: Level, input: seq<Byte>, behind: Byte, trace: seq<Decision>, out: seq<Byte>) {
    && Scanned(level, input, behind, trace) && End(trace) <= |input|
    && IsMarked(level, out, EncodeAll(level, WholeStream(level, input, behind, trace)))
  }

  /** There is one output for an input. */
  lemma OutputIsDetermined(level: Level, input: seq<Byte>, behind: Byte, a: seq<Decision>, out: seq<Byte>,
                           b: seq<Decision>, other: seq<Byte>)
    requires IsOutput(level, input, behind, a, out) && IsOutput(level, input, behind, b, other)
    ensures out == other
  {
    ScanUnique(level, input, behind, a, b);
    hide Scanned, EncodeAll, WholeStream;
    assert out == [out[0]] + out[1..] && other == [other[0]] + other[1..];
  }

  /** The whole compressor. `n` bytes of output decode to the input; they carry
      the level, and are at most one byte per 32 longer than the input, plus one. They
      are determined by the decisions of the scan, and these by the input.
      What is returned is `n` as an `int`. `past` says that the byte after the input,
      `behind`, was read. */
  method Compress(level: Level, input: seq<Byte>, length: int, behind: Byte, output: array<Byte>)
    returns (r: int, ghost n: nat, ghost trace: seq<Decision>, ghost past: bool)
    requires IsInput(input, length) && RoomFor(|input|, output.Length)
    modifies output
    ensures length < 0 ==> HeaderOnly(length, old(output[..]), output[..], r)
    ensures length >= 0 ==> r == ToInt(n)
    ensures n <= |input| + |input| / 32 + 1 && n <= output.Length
    ensures input == [] ==> n == 0
    ensures input != [] ==> Compressed(output[..n], input)
    ensures 1 <= |input| < 4 ==> output[..n] == [|input| - 1] + input
    ensures |input| >= 4 ==> IsOutput(level, input, behind, trace, output[..n])
    ensures |input| >= 4 ==> output[0] / 32 == if level.One? then 0 else 1
    ensures Incompressible(level, input) && |input| >= 4 ==> n == |input| + (|input| + MAX_COPY - 1) / MAX_COPY
    ensures |input| >= 15 && Constant(input) ==> n == ConstantPacked(level, |input|)
    ensures past ==> exists anchor, d :: EndsFar(level, input, anchor, d)
  {
    hide Run, EncodeAll, Expand, WellFormed, DecodeAny, Incompressible, Open, Unpacked, Compressed, EndsFar, Greedy,
      Constant, ConstantPacked, CloseAt, AddRest;
    past, trace := false, [];
    if length < 4 {
      if length > 0 {
        r := StoreShort(input, output);
        n := r;
      } else if length != 0 {
        output[0] := (length - 1) % 256;
        r, n := length + 1, 0;
      } else {
        r, n := 0, 0;
      }
      return;
    }
    var ip: nat, op: nat, copy: nat;
    ghost var ts;
    ip, op, copy, ts, trace, past := Scan(level, input, behind, output);
    OpenSize(level, input, ip, output[..op], copy, ts);
    op, copy, ts := LeftOver(level, input, output, ip, op, copy, ts);
    OpenSize(level, input, |input|, output[..op], copy, ts);
    var size: int := Complete(level, input, output, op, copy, ts);
    if Unpacked(|input|, op, copy) {
      UnpackedSize(|input|, op, copy);
    }
    if |input| >= 15 && Constant(input) {
      ConstantSize(level, input, behind, trace);
    }
    n, r := size, size;
    if size >= 0x8000_0000 {
      r := size - 0x1_0000_0000;
    }
  }
}
