/** Which matches the compressor takes (fastlz/fastlz.cc:188-373), independently of how
    it finds and writes them. At every position the scan reaches, a run comes first, then
    the position that was last entered with the same hash; if that pays, the match is
    taken and followed as far as it goes, and otherwise there is a literal. So the
    stream is determined by the input. */
module FastLzGreedy {
  import opened Options
  import opened FastLzFormat

  const HASH_SIZE := 8192

  /** HASH_FUNCTION of two overlapping 16-bit words, ... */
  function HashBits(x: bv16, y: bv16): (v: bv16)
    ensures v < 8192
  {
    (x ^ (y ^ (x >> 3))) & 0x1FFF
  }

  /** ... the low byte of each first, of three bytes, ... */
  function Hash(a: Byte, b: Byte, c: Byte): (v: nat)
    ensures v < HASH_SIZE
  {
    HashBits((a + 256 * b) as bv16, (b + 256 * c) as bv16) as nat
  }

  lemma HashExample()
    ensures HashBits(0x201, 0x302) == 0x143 && HashBits(0x4241, 0x4342) == 0x94B
  {
  }

  /** ... and at a position. Its third byte may be the one behind the input. */
  function HashAt(input: seq<Byte>, behind: Byte, p: nat): (v: nat)
    requires p + 1 < |input|
    ensures v < HASH_SIZE
  {
    Hash(input[p], input[p + 1], if p + 2 < |input| then input[p + 2] else behind)
  }

  // ---- matches -------------------------------------------------------------

  /** From `from` to `upTo` the input repeats what lies `d` bytes before. */
  ghost predicate Repeats(input: seq<Byte>, from: nat, upTo: nat, d: nat) {
    1 <= d <= from <= upTo <= |input| && forall k | from <= k < upTo :: input[k] == input[k - d]
  }

  function MinimumLength(level: Level, distance: nat): nat {
    if level.Two? && distance >= MaxDistance(level) then 5 else 3
  }

  /** A match at this distance pays: near enough, and repeated in its first three
      bytes, or five if it is far. */
  ghost predicate Pays(level: Level, input: seq<Byte>, anchor: nat, distance: nat) {
    && 1 <= distance < (if level.One? then MaxDistance(level) else MAX_FARDISTANCE)
    && Repeats(input, anchor, anchor + MinimumLength(level, distance), distance)
  }

  /** Level 2 looks for a run before anything else. */
  predicate RunAt(level: Level, input: seq<Byte>, anchor: nat)
    requires 1 <= anchor && anchor + 2 < |input|
  {
    level.Two? && input[anchor - 1] == input[anchor] == input[anchor + 1] == input[anchor + 2]
  }

  /** The last position that is compared: the third from the end, or further on if the
      first eight comparisons, which need no bound, go there. */
  function LastCompared(input: seq<Byte>, anchor: nat, minimum: nat): int {
    if anchor + minimum + 7 > |input| - 3 then anchor + minimum + 7 else |input| - 3
  }

  /** A match at `anchor`, of which the first `minimum` bytes are known, is followed to its
      first mismatch, or else to the last position that is compared. `next` is its end. */
  ghost predicate FollowedFrom(input: seq<Byte>, anchor: nat, minimum: nat, d: nat, next: nat) {
    && anchor + minimum <= next <= LastCompared(input, anchor, minimum) && next < |input|
    && Repeats(input, anchor, next, d)
    && (next < LastCompared(input, anchor, minimum) ==> input[next] != input[next - d])
  }

  ghost predicate Followed(level: Level, input: seq<Byte>, anchor: nat, d: nat, next: nat) {
    FollowedFrom(input, anchor, MinimumLength(level, d), d, next)
  }

  // ---- decisions -----------------------------------------------------------

  /** What was done at a position: a match at this distance, or a literal. `next` is
      where the scan goes on. */
  datatype Decision = Decision(anchor: nat, distance: Option<nat>, next: nat)

  /** Where the scan is. */
  function End(trace: seq<Decision>): nat {
    if trace == [] then 2 else trace[|trace| - 1].next
  }

  /** An entry of the table: slot and position. */
  type Entered = (nat, nat)

  /** What one decision enters: its anchor, unless a run was found, and the last two
      positions of a match. */
  function Enters(level: Level, input: seq<Byte>, behind: Byte, d: Decision): seq<Entered> {
    (if d.anchor < 1 || d.anchor + 2 >= |input| || RunAt(level, input, d.anchor) then []
     else [(HashAt(input, behind, d.anchor), d.anchor)])
    + (if d.distance.None? || d.next < 2 || d.next >= |input| then []
       else [(HashAt(input, behind, d.next - 2), d.next - 2), (HashAt(input, behind, d.next - 1), d.next - 1)])
  }

  function AllEntered(level: Level, input: seq<Byte>, behind: Byte, trace: seq<Decision>): seq<Entered> {
    if trace == [] then []
    else AllEntered(level, input, behind, trace[..|trace| - 1]) + Enters(level, input, behind, trace[|trace| - 1])
  }

  /** The position last entered in a slot; the start of the input if there is none. */
  function Latest(entered: seq<Entered>, slot: nat): nat {
    if entered == [] then 0
    else
      var (s, p) := entered[|entered| - 1];
      if s == slot then p else Latest(entered[..|entered| - 1], slot)
  }

  /** The table holds the position last entered in every slot. */
  ghost predicate Reflects(htab: seq<nat>, entered: seq<Entered>) {
    |htab| == HASH_SIZE && forall k | 0 <= k < HASH_SIZE :: htab[k] == Latest(entered, k)
  }

  lemma EnterOne(htab: seq<nat>, entered: seq<Entered>, slot: nat, p: nat)
    requires Reflects(htab, entered) && slot < HASH_SIZE
    ensures Reflects(htab[slot := p], entered + [(slot, p)])
  {
    assert (entered + [(slot, p)])[..|entered|] == entered;
  }

  /** The right thing to do at `d.anchor`, after the decisions so far. */
  ghost predicate Chosen(level: Level, input: seq<Byte>, behind: Byte, sofar: seq<Decision>, d: Decision) {
    && 2 <= d.anchor && d.anchor + 12 < |input|
    && if RunAt(level, input, d.anchor) then
         d.distance == Some(1) && Followed(level, input, d.anchor, 1, d.next)
       else
         var candidate := Latest(AllEntered(level, input, behind, sofar), HashAt(input, behind, d.anchor));
         if candidate < d.anchor && Pays(level, input, d.anchor, d.anchor - candidate) then
           d.distance == Some(d.anchor - candidate)
           && Followed(level, input, d.anchor, d.anchor - candidate, d.next)
         else
           d.distance == None && d.next == d.anchor + 1
  }

  /** The scan decides rightly at every position it reaches. */
  ghost predicate Greedy(level: Level, input: seq<Byte>, behind: Byte, trace: seq<Decision>) {
    trace == [] ||
    (var sofar, d := trace[..|trace| - 1], trace[|trace| - 1];
     && Greedy(level, input, behind, sofar)
     && d.anchor == End(sofar) && Chosen(level, input, behind, sofar, d))
  }

  /** ... and goes on while there are more than twelve bytes left. */
  ghost predicate Scanned(level: Level, input: seq<Byte>, behind: Byte, trace: seq<Decision>) {
    Greedy(level, input, behind, trace) && End(trace) + 12 >= |input|
  }

  // ---- the stream ----------------------------------------------------------

  /** A match as it is written: level 1 has pieces of 262 bytes. */
  function Pieces(level: Level, len: nat, d: nat): (ts: seq<Instr>)
    ensures ts != []
    decreases len
  {
    if level.One? && len - 2 > MAX_LEN - 2 then [Match(MAX_LEN - 2, d)] + Pieces(level, len - (MAX_LEN - 2), d)
    else [Match(len, d)]
  }

  /** The instructions written so far, and where the open literal run begins. */
  datatype Stream = Stream(closed: seq<Instr>, from: nat)

  /** One more literal byte; a run of 32 is closed. */
  function AddLiteral(input: seq<Byte>, st: Stream, ip: nat): Stream
    requires st.from <= ip < |input|
  {
    if ip + 1 - st.from == MAX_COPY then Stream(st.closed + [Literal(input[st.from..ip + 1])], ip + 1) else st
  }

  /** The open run is closed, if it is not empty. */
  function CloseAt(input: seq<Byte>, st: Stream, ip: nat): seq<Instr>
    requires st.from <= ip <= |input|
  {
    if st.from < ip then st.closed + [Literal(input[st.from..ip])] else st.closed
  }

  /** The bytes from `ip` to the end, as literals. */
  function AddRest(input: seq<Byte>, st: Stream, ip: nat): seq<Instr>
    requires st.from <= ip <= |input|
    decreases |input| - ip
  {
    if ip == |input| then CloseAt(input, st, ip) else AddRest(input, AddLiteral(input, st, ip), ip + 1)
  }

  function Decided(level: Level, input: seq<Byte>, st: Stream, d: Decision): Stream
    requires st.from <= d.anchor < |input|
  {
    match d.distance
    case None => AddLiteral(input, st, d.anchor)
    case Some(distance) =>
      var len := if d.next > d.anchor then d.next - d.anchor else 0;
      Stream(CloseAt(input, st, d.anchor) + Pieces(level, len, distance), d.next)
  }

  /** The stream of a scan; the first two bytes are literals. */
  ghost function StreamOf(level: Level, input: seq<Byte>, behind: Byte, trace: seq<Decision>): (st: Stream)
    requires Greedy(level, input, behind, trace)
    ensures st.from <= End(trace)
  {
    if trace == [] then Stream([], 0)
    else
      var sofar, d := trace[..|trace| - 1], trace[|trace| - 1];
      Decided(level, input, StreamOf(level, input, behind, sofar), d)
  }

  /** The whole stream. */
  ghost function WholeStream(level: Level, input: seq<Byte>, behind: Byte, trace: seq<Decision>): seq<Instr>
    requires Scanned(level, input, behind, trace) && End(trace) <= |input|
  {
    AddRest(input, StreamOf(level, input, behind, trace), End(trace))
  }

  // ---- properties ----------------------------------------------------------

  /** Where a match ends is determined. */
  lemma FollowedUnique(level: Level, input: seq<Byte>, anchor: nat, d: nat, a: nat, b: nat)
    requires Followed(level, input, anchor, d, a) && Followed(level, input, anchor, d, b)
    ensures a == b
  {
  }

  /** ... and so is every decision. */
  lemma ChosenUnique(level: Level, input: seq<Byte>, behind: Byte, sofar: seq<Decision>, a: Decision, b: Decision)
    requires Chosen(level, input, behind, sofar, a) && Chosen(level, input, behind, sofar, b) && a.anchor == b.anchor
    ensures a == b
  {
    hide Followed, Pays, RunAt, HashAt, AllEntered, Latest;
    if a.distance.Some? && b.distance == a.distance {
      FollowedUnique(level, input, a.anchor, a.distance.value, a.next, b.next);
    }
  }

  lemma {:induction false} GreedyPrefix(level: Level, input: seq<Byte>, behind: Byte, trace: seq<Decision>, k: nat)
    requires Greedy(level, input, behind, trace) && k <= |trace|
    ensures Greedy(level, input, behind, trace[..k])
    ensures k < |trace| ==> trace[k].anchor == End(trace[..k]) && Chosen(level, input, behind, trace[..k], trace[k])
    decreases |trace|
  {
    hide Chosen;
    if k < |trace| {
      var sofar := trace[..|trace| - 1];
      if k < |sofar| {
        GreedyPrefix(level, input, behind, sofar, k);
        assert sofar[..k] == trace[..k];
      }
    } else {
      assert trace[..k] == trace;
    }
  }

  /** There is one scan of an input: the compressor's output is determined. */
  lemma ScanUnique(level: Level, input: seq<Byte>, behind: Byte, a: seq<Decision>, b: seq<Decision>)
    requires Scanned(level, input, behind, a) && Scanned(level, input, behind, b)
    ensures a == b
  {
    hide Scanned;
    SamePrefix(level, input, behind, a, b, if |a| < |b| then |a| else |b|);
  }

  lemma {:induction false} SamePrefix(level: Level, input: seq<Byte>, behind: Byte, a: seq<Decision>, b: seq<Decision>,
                                      k: nat)
    requires Scanned(level, input, behind, a) && Scanned(level, input, behind, b) && k <= |a| && k <= |b|
    ensures a[..k] == b[..k] && (k == |a| <==> k == |b|)
    decreases k
  {
    hide Chosen;
    if k > 0 {
      SamePrefix(level, input, behind, a, b, k - 1);
      GreedyPrefix(level, input, behind, a, k - 1);
      GreedyPrefix(level, input, behind, b, k - 1);
      ChosenUnique(level, input, behind, a[..k - 1], a[k - 1], b[k - 1]);
      assert a[..k] == a[..k - 1] + [a[k - 1]] && b[..k] == b[..k - 1] + [b[k - 1]];
    }
    GreedyPrefix(level, input, behind, a, k);
    GreedyPrefix(level, input, behind, b, k);
    EndReached(level, input, behind, a, k);
    EndReached(level, input, behind, b, k);
  }

  lemma EndReached(level: Level, input: seq<Byte>, behind: Byte, a: seq<Decision>, k: nat)
    requires Scanned(level, input, behind, a) && k <= |a|
    ensures k == |a| <==> End(a[..k]) + 12 >= |input|
  {
    GreedyPrefix(level, input, behind, a, k);
    if k == |a| {
      assert a[..k] == a;
    }
    hide Greedy;
  }

  /** All bytes are the same. */
  predicate Constant(input: seq<Byte>) {
    forall k | 0 <= k < |input| :: input[k] == input[0]
  }

  /** The scan of equal bytes is one match: at level 2 a run, at level 1 of distance 2,
      because the table begins with the start of the input in every slot. */
  lemma ConstantScan(level: Level, input: seq<Byte>, behind: Byte, trace: seq<Decision>)
    requires |input| >= 15 && Constant(input) && Scanned(level, input, behind, trace)
    ensures trace == [Decision(2, Some(if level.One? then 2 else 1), |input| - 3)]
  {
    assert trace != [];
    GreedyPrefix(level, input, behind, trace, 0);
    assert trace[..0] == [] && (level.Two? ==> RunAt(level, input, 2));
    assert AllEntered(level, input, behind, []) == [];
    assert level.One? ==> Pays(level, input, 2, 2);
    assert Latest([], HashAt(input, behind, 2)) == 0;
    hide HashAt, AllEntered, Latest;
    assert Followed(level, input, 2, if level.One? then 2 else 1, trace[0].next);
    assert trace[0].next == |input| - 3;
    assert trace[..1] == [trace[0]];
    EndReached(level, input, behind, trace, 1);
  }

  /** What equal bytes are packed into: two literals, one match, three literals. */
  lemma ConstantStream(level: Level, input: seq<Byte>, behind: Byte, trace: seq<Decision>)
    requires |input| >= 15 && Constant(input) && Scanned(level, input, behind, trace)
    ensures End(trace) <= |input|
    ensures WholeStream(level, input, behind, trace)
         == [Literal(input[0..2])] + Pieces(level, |input| - 5, if level.One? then 2 else 1)
          + [Literal(input[|input| - 3..|input|])]
  {
    ConstantScan(level, input, behind, trace);
    assert trace[..0] == [];
    var pieces := Pieces(level, |input| - 5, if level.One? then 2 else 1);
    hide Pieces, Greedy;
    assert StreamOf(level, input, behind, trace) == Stream([Literal(input[0..2])] + pieces, |input| - 3) by {
      assert StreamOf(level, input, behind, []) == Stream([], 0);
      assert [] + [Literal(input[0..2])] == [Literal(input[0..2])];
    }
    ThreeLeft(input, Stream([Literal(input[0..2])] + pieces, |input| - 3));
  }

  /** The size of a match in pieces. */
  function PiecesSize(level: Level, len: nat): nat
    requires len >= 3
  {
    if level.Two? then (if len < 9 then 2 else 3 + (len - 9) / 255)
    else 3 * ((len - 3) / (MAX_LEN - 2)) + if (len - 3) % (MAX_LEN - 2) < 6 then 2 else 3
  }

  lemma {:induction false} AddPieces(level: Level, ts: seq<Instr>, len: nat, d: nat)
    requires 3 <= len < 0x8000_0000 && 1 <= d <= 8191
    ensures |EncodeAll(level, ts + Pieces(level, len, d))| == |EncodeAll(level, ts)| + PiecesSize(level, len)
    decreases len
  {
    hide PiecesSize, EncodeAll, Encode;
    if level.One? && len - 2 > MAX_LEN - 2 {
      var piece, rest := Match(MAX_LEN - 2, d), Pieces(level, len - (MAX_LEN - 2), d);
      AddPieces(level, ts + [piece], len - (MAX_LEN - 2), d);
      assert ts + ([piece] + rest) == ts + [piece] + rest;
      AddSize(level, ts, piece);
      PieceSize(level, MAX_LEN - 2, d);
      OnePieceLess(len);
    } else {
      AddSize(level, ts, Match(len, d));
      PieceSize(level, len, d);
    }
  }

  lemma PieceSize(level: Level, len: nat, d: nat)
    requires 3 <= len < 0x8000_0000 && 1 <= d <= 8191 && (level.One? ==> len <= MAX_LEN)
    ensures |Encode(level, Match(len, d))| == PiecesSize(level, len)
    ensures level.One? && len >= 9 ==> |Encode(level, Match(len, d))| == 3
  {
    if len >= 9 {
      ChainSize(len - 9);
    }
    hide LengthChain;
    assert level.One? ==> (len - 3) / (MAX_LEN - 2) == 0;
  }

  lemma OnePieceLess(len: nat)
    requires len - 2 > MAX_LEN - 2
    ensures PiecesSize(One, len) == 3 + PiecesSize(One, len - (MAX_LEN - 2))
  {
  }

  lemma AddSize(level: Level, ts: seq<Instr>, t: Instr)
    ensures |EncodeAll(level, ts + [t])| == |EncodeAll(level, ts)| + |Encode(level, t)|
  {
    assert (ts + [t])[..|ts|] == ts;
  }

  /** How far equal bytes are packed, at either level. */
  lemma ConstantSize(level: Level, input: seq<Byte>, behind: Byte, trace: seq<Decision>)
    requires 15 <= |input| < 0x8000_0000 && Constant(input) && Scanned(level, input, behind, trace)
    ensures End(trace) <= |input|
    ensures |EncodeAll(level, WholeStream(level, input, behind, trace))| == ConstantPacked(level, |input|)
  {
    hide *;
    ConstantStream(level, input, behind, trace);
    var n := |input|;
    SandwichSize(level, Literal(input[0..2]), n - 5, if level.One? then 2 else 1, Literal(input[n - 3..n]));
    PackedPieces(level, n);
  }

  lemma SandwichSize(level: Level, a: Instr, len: nat, d: nat, b: Instr)
    requires a.Literal? && |a.data| == 2 && b.Literal? && |b.data| == 3
    requires 3 <= len < 0x8000_0000 && 1 <= d <= 8191
    ensures |EncodeAll(level, [a] + Pieces(level, len, d) + [b])| == PiecesSize(level, len) + 7
  {
    hide *;
    assert [] + [a] == [a];
    AddSize(level, [], a);
    AddPieces(level, [a], len, d);
    AddSize(level, [a] + Pieces(level, len, d), b);
    LiteralSizes(level, a, b);
  }

  lemma LiteralSizes(level: Level, a: Instr, b: Instr)
    requires a.Literal? && |a.data| == 2 && b.Literal? && |b.data| == 3
    ensures EncodeAll(level, []) == [] && |Encode(level, a)| == 3 && |Encode(level, b)| == 4
  {
  }

  lemma PackedPieces(level: Level, n: nat)
    requires n >= 15
    ensures PiecesSize(level, n - 5) + 7 == ConstantPacked(level, n)
  {
  }

  /** The packed size of `n` equal bytes: one byte more for every 255 of them at level 2,
      three for every 262 at level 1. */
  function ConstantPacked(level: Level, n: nat): nat
    requires n >= 15
  {
    if level.Two? then 10 + (n - 14) / 255
    else 9 + 3 * ((n - 8) / 262) + if (n - 8) % 262 < 6 then 0 else 1
  }

  lemma ThreeLeft(input: seq<Byte>, st: Stream)
    requires |input| >= 3 && st.from == |input| - 3
    ensures AddRest(input, st, |input| - 3) == st.closed + [Literal(input[|input| - 3..|input|])]
  {
    var n := |input|;
    assert AddRest(input, st, n) == st.closed + [Literal(input[n - 3..n])];
    assert AddRest(input, st, n - 1) == AddRest(input, st, n);
    assert AddRest(input, st, n - 2) == AddRest(input, st, n - 1);
  }

  // ---- one decision more ---------------------------------------------------

  lemma GreedyNext(level: Level, input: seq<Byte>, behind: Byte, trace: seq<Decision>, d: Decision)
    requires Greedy(level, input, behind, trace) && d.anchor == End(trace) && Chosen(level, input, behind, trace, d)
    ensures Greedy(level, input, behind, trace + [d]) && End(trace + [d]) == d.next
    ensures AllEntered(level, input, behind, trace + [d])
         == AllEntered(level, input, behind, trace) + Enters(level, input, behind, d)
    ensures StreamOf(level, input, behind, trace + [d])
         == Decided(level, input, StreamOf(level, input, behind, trace), d)
  {
    hide Chosen, Enters, Decided;
    assert (trace + [d])[..|trace|] == trace;
    ChosenInside(level, input, behind, trace, d);
  }

  lemma ChosenInside(level: Level, input: seq<Byte>, behind: Byte, sofar: seq<Decision>, d: Decision)
    requires Chosen(level, input, behind, sofar, d)
    ensures 2 <= d.anchor < d.next < |input|
  {
    hide AllEntered, Latest;
  }
}
