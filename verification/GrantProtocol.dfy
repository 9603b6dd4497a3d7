/** The shared grant entries (xen/gnttab.cc:130-297) as a state machine: for every
    entry, the guest code that owns the reference and Xen take turns at single
    loads, stores and compare-and-swaps, in any order.

    Xen's moves are the ones its public header allows
    (xen/interface/grant_table.h:36-84, 105-150). The check of type and domain and
    the setting of the use bits are one atomic move of Xen, as are its other
    updates of the flags. */
module GrantProtocol {
  import opened Options

  // ---- entries -------------------------------------------------------------

  /** The type field, bits 0-1 of the flags. */
  datatype Kind = Invalid | PermitAccess | AcceptTransfer

  /** The flags halfword. Bits 2 and 3 are shared: read-only and reading for an
      access, committed and completed for a transfer. Bit 4 is writing. */
  datatype Flags = Flags(kind: Kind, bit2: bool, bit3: bool, bit4: bool)

  const NO_FLAGS := Flags(Invalid, false, false, false)
  /** What a completed transfer leaves behind: nobody clears it. */
  const SPENT := Flags(AcceptTransfer, true, true, false)

  /** The frame field of an entry has 32 bits. */
  type Word = w: nat | w < 0x1_0000_0000

  datatype Entry = Entry(flags: Flags, domid: nat, frame: Word)

  /** What the guest asks for: a frame to share, or a slot for a foreign frame. The
      frame is an unsigned long. */
  datatype Offer = Access(domid: nat, frame: nat, readonly: bool) | Transfer(domid: nat, frame: nat)

  /** What becomes of the frame when it is stored. */
  function Stored(o: Offer): (w: Word)
    ensures w == o.frame <==> o.frame < 0x1_0000_0000
  {
    o.frame % 0x1_0000_0000
  }

  function FlagsOf(o: Offer): Flags {
    if o.Access? then Flags(PermitAccess, o.readonly, false, false) else Flags(AcceptTransfer, false, false, false)
  }

  // ---- the parties ---------------------------------------------------------

  /** Where the guest code that owns a reference stands. */
  datatype Guest =
    | Free                                                    // on the free list
    | Held                                                    // owned, nothing offered
    | Writing(offer: Offer, frameSeen: bool, domidSeen: bool) // stores before the barrier, visible one by one
    | Offered(offer: Offer)                                   // flags published
    | Checking(offer: Offer, seen: Flags)                     // end_foreign_access_ref: flags loaded
    | Swapping(offer: Offer, seen: Flags)                     // ... found unused, before the compare-and-swap
    | TransferLoading(offer: Offer)                           // end_foreign_transfer_ref: before a load
    | TransferSwapping(offer: Offer, seen: Flags)             // ... not committed, before the compare-and-swap
    | TransferWaiting(offer: Offer, seen: Flags)              // ... committed, spinning for completion
    | TransferReading(offer: Offer)                           // ... completed, before reading the frame

  /** A use of a grant by a foreign domain; Xen pins the entry before it reads the frame. */
  datatype Mapping = Mapping(domid: nat, writable: bool, frame: Option<Word>)

  /** Xen's side of the transfer on offer. */
  datatype Progress = NotStarted | Committed | Written(frame: Word) | Completed(frame: Word)

  datatype Cell = Cell(entry: Entry, guest: Guest, maps: seq<Mapping>, progress: Progress)

  datatype Action =
    // guest
    | Allocate | Release
    | Start(offer: Offer) | StoreFrame | StoreDomid | Publish
    | EndLoad | EndTest | EndSwap
    | TransferBegin | TransferLoad | TransferSwap | TransferSpin | TransferRead(result: Word)
    // Xen
    | XenMap(domid: nat, writable: bool) | XenReadFrame(i: nat) | XenUnmap(i: nat)
    | XenClearReading | XenClearWriting
    | XenCommit(domid: nat) | XenWrite(frame: Word) | XenComplete

  predicate IsGuest(a: Action) {
    !(a.XenMap? || a.XenReadFrame? || a.XenUnmap? || a.XenClearReading? || a.XenClearWriting?
      || a.XenCommit? || a.XenWrite? || a.XenComplete?)
  }

  // ---- steps ---------------------------------------------------------------

  function WithFlags(c: Cell, f: Flags): Cell {
    c.(entry := c.entry.(flags := f))
  }

  function InUseBits(f: Flags): bool {
    f.bit3 || f.bit4
  }

  /** The guest's moves: `None` where the move is not enabled. */
  function GuestStep(c: Cell, a: Action): Option<Cell> {
    var f := c.entry.flags;
    match (a, c.guest)
    case (Allocate, Free) => Some(c.(guest := Held))
    case (Release, Held) => Some(c.(guest := Free))
    case (Start(o), Held) => Some(c.(guest := Writing(o, false, false)))
    case (StoreFrame, Writing(o, false, d)) =>
      Some(c.(entry := c.entry.(frame := Stored(o)), guest := Writing(o, true, d)))
    case (StoreDomid, Writing(o, fr, false)) =>
      Some(c.(entry := c.entry.(domid := o.domid), guest := Writing(o, fr, true)))
    case (Publish, Writing(o, fr, d)) =>
      // the barrier: both stores are visible before the flags are
      if fr && d then Some(WithFlags(c, FlagsOf(o)).(guest := Offered(o), progress := NotStarted)) else None

    case (EndLoad, Offered(o)) => if o.Access? then Some(c.(guest := Checking(o, f))) else None
    case (EndTest, Checking(o, seen)) =>
      if InUseBits(seen) then Some(c.(guest := Offered(o)))  // returns 0
      else Some(c.(guest := Swapping(o, seen)))
    case (EndSwap, Swapping(o, seen)) =>
      if f == seen then Some(WithFlags(c, NO_FLAGS).(guest := Held))  // returns 1
      else Some(c.(guest := Checking(o, f)))

    case (TransferBegin, Offered(o)) => if o.Transfer? then Some(c.(guest := TransferLoading(o))) else None
    case (TransferLoad, TransferLoading(o)) =>
      Some(c.(guest := if f.bit2 then TransferWaiting(o, f) else TransferSwapping(o, f)))
    case (TransferSwap, TransferSwapping(o, seen)) =>
      if f == seen then Some(WithFlags(c, NO_FLAGS).(guest := Held))  // returns 0
      else Some(c.(guest := TransferLoading(o)))
    case (TransferSpin, TransferWaiting(o, seen)) =>
      Some(c.(guest := if seen.bit3 then TransferReading(o) else TransferWaiting(o, f)))
    case (TransferRead(r), TransferReading(o)) =>
      if r == c.entry.frame then Some(c.(guest := Held)) else None  // returns r
    case _ => None
  }

  predicate SomeWritable(maps: seq<Mapping>) {
    exists i | 0 <= i < |maps| :: maps[i].writable
  }

  /** Xen's moves. */
  function XenStep(c: Cell, a: Action): Option<Cell> {
    var f := c.entry.flags;
    match a
    case XenMap(d, w) =>
      if f.kind.PermitAccess? && c.entry.domid == d && !(w && f.bit2) then
        Some(WithFlags(c, f.(bit3 := true, bit4 := f.bit4 || w)).(maps := c.maps + [Mapping(d, w, None)]))
      else None
    case XenReadFrame(i) =>
      if i < |c.maps| && c.maps[i].frame.None? then
        Some(c.(maps := c.maps[i := c.maps[i].(frame := Some(c.entry.frame))]))
      else None
    case XenUnmap(i) =>
      if i < |c.maps| then Some(c.(maps := c.maps[..i] + c.maps[i + 1..])) else None
    case XenClearReading =>
      if f.kind.PermitAccess? && c.maps == [] then Some(WithFlags(c, f.(bit3 := false))) else None
    case XenClearWriting =>
      if f.kind.PermitAccess? && !SomeWritable(c.maps) then Some(WithFlags(c, f.(bit4 := false))) else None
    case XenCommit(d) =>
      if f.kind.AcceptTransfer? && c.entry.domid == d && !f.bit2 then
        Some(WithFlags(c, f.(bit2 := true)).(progress := Committed))
      else None
    case XenWrite(fr) =>
      if c.progress.Committed? then
        Some(c.(entry := c.entry.(frame := fr), progress := Written(fr)))
      else None
    case XenComplete =>
      if c.progress.Written? then
        Some(WithFlags(c, f.(bit3 := true)).(progress := Completed(c.progress.frame)))
      else None
    case _ => None
  }

  function Step(c: Cell, a: Action): Option<Cell> {
    if IsGuest(a) then GuestStep(c, a) else XenStep(c, a)
  }

  // ---- the invariant -------------------------------------------------------

  /** The guest code has an access grant out. */
  predicate AccessOut(g: Guest) {
    g.Checking? || g.Swapping? || (g.Offered? && g.offer.Access?)
  }

  /** The guest code has a transfer out. */
  predicate TransferOut(g: Guest) {
    g.TransferLoading? || g.TransferSwapping? || g.TransferWaiting? || g.TransferReading?
    || (g.Offered? && g.offer.Transfer?)
  }

  /** Every use is by the granted domain, of the granted frame, in a granted way,
      and is announced in the flags. */
  predicate MappingOk(c: Cell, m: Mapping, o: Offer) {
    && o.Access?
    && m.domid == o.domid
    && (m.frame.Some? ==> m.frame.value == Stored(o))
    && c.entry.flags.bit3
    && (m.writable ==> !o.readonly && c.entry.flags.bit4)
  }

  /** The transfer bits mirror Xen's progress. */
  predicate ProgressOk(f: Flags, p: Progress) {
    if f.kind.AcceptTransfer? then
      f == match p
           case NotStarted => Flags(AcceptTransfer, false, false, false)
           case Committed => Flags(AcceptTransfer, true, false, false)
           case Written(_) => Flags(AcceptTransfer, true, false, false)
           case Completed(_) => SPENT
    else p.NotStarted?
  }

  predicate AccessInv(c: Cell)
    requires AccessOut(c.guest)
  {
    var o, f := c.guest.offer, c.entry.flags;
    && o.Access?
    && f.kind.PermitAccess? && f.bit2 == o.readonly
    && c.entry.frame == Stored(o) && c.entry.domid == o.domid
    && (forall m | m in c.maps :: MappingOk(c, m, o))
    && (c.guest.Checking? || c.guest.Swapping? ==>
          c.guest.seen.kind.PermitAccess? && c.guest.seen.bit2 == o.readonly)
    && (c.guest.Swapping? ==> !InUseBits(c.guest.seen))
  }

  predicate TransferInv(c: Cell)
    requires TransferOut(c.guest)
  {
    var o, f := c.guest.offer, c.entry.flags;
    && o.Transfer?
    && f.kind.AcceptTransfer? && c.entry.domid == o.domid && c.maps == []
    && (c.progress.Written? || c.progress.Completed? ==> c.entry.frame == c.progress.frame)
    && (c.guest.TransferSwapping? ==> c.guest.seen == FlagsOf(o))
    && (c.guest.TransferWaiting? ==> !c.progress.NotStarted? && (c.guest.seen.bit3 ==> c.progress.Completed?))
    && (c.guest.TransferReading? ==> c.progress.Completed?)
  }

  predicate IdleInv(c: Cell) {
    && c.maps == []
    && c.entry.flags in {NO_FLAGS, SPENT}
    && (c.guest.Writing? ==>
          && (c.guest.frameSeen ==> c.entry.frame == Stored(c.guest.offer))
          && (c.guest.domidSeen ==> c.entry.domid == c.guest.offer.domid))
  }

  predicate Inv(c: Cell) {
    && ProgressOk(c.entry.flags, c.progress)
    && (if AccessOut(c.guest) then AccessInv(c) else if TransferOut(c.guest) then TransferInv(c) else IdleInv(c))
  }

  /** With neither use bit set nobody uses the entry. */
  lemma UseIsAnnounced(c: Cell)
    requires Inv(c) && AccessOut(c.guest)
    ensures c.maps != [] ==> c.entry.flags.bit3
  {
    if c.maps != [] {
      assert MappingOk(c, c.maps[0], c.guest.offer);
    }
  }

  lemma GuestKeepsInv(c: Cell, a: Action)
    requires Inv(c) && GuestStep(c, a).Some?
    ensures Inv(GuestStep(c, a).value)
  {
    if a.EndSwap? && c.entry.flags == c.guest.seen {
      UseIsAnnounced(c);
    }
  }

  lemma XenKeepsInv(c: Cell, a: Action)
    requires Inv(c) && XenStep(c, a).Some?
    ensures Inv(XenStep(c, a).value)
  {
    var c' := XenStep(c, a).value;
    if AccessOut(c.guest) {
      forall m | m in c'.maps
        ensures MappingOk(c', m, c.guest.offer)
      {
        XenKeepsMapping(c, a, m);
      }
    }
  }

  /** Each use in the new state stems from one in the old state or is new. */
  lemma XenKeepsMapping(c: Cell, a: Action, m: Mapping)
    requires Inv(c) && AccessOut(c.guest) && XenStep(c, a).Some? && m in XenStep(c, a).value.maps
    ensures MappingOk(XenStep(c, a).value, m, c.guest.offer)
  {
    if m in c.maps {
      assert MappingOk(c, m, c.guest.offer);
    } else if a.XenReadFrame? {
      assert MappingOk(c, c.maps[a.i], c.guest.offer);
    }
  }

  // ---- runs of the whole table ---------------------------------------------

  type Table = seq<Cell>

  /** One action at one reference. */
  datatype Move = Move(ref: nat, action: Action)

  /** A table as gnttab_init leaves it: nothing offered, nothing mapped. */
  predicate Initial(t: Table) {
    forall r | 0 <= r < |t| ::
      t[r].entry.flags == NO_FLAGS && t[r].guest.Free? && t[r].maps == [] && t[r].progress.NotStarted?
  }

  predicate TableStep(t: Table, m: Move, t': Table) {
    && m.ref < |t| == |t'|
    && Step(t[m.ref], m.action) == Some(t'[m.ref])
    && t' == t[m.ref := t'[m.ref]]
  }

  /** `tables` is an interleaving of moves, one state longer than `moves`. */
  predicate IsRun(tables: seq<Table>, moves: seq<Move>) {
    && |tables| == |moves| + 1
    && Initial(tables[0])
    && forall i | 0 <= i < |moves| :: TableStep(tables[i], moves[i], tables[i + 1])
  }

  /** What the guest last started to offer at `r`. */
  function LatestOffer(moves: seq<Move>, r: nat): Option<Offer> {
    if moves == [] then None
    else
      var m := moves[|moves| - 1];
      if m.ref == r && m.action.Start? then Some(m.action.offer) else LatestOffer(moves[..|moves| - 1], r)
  }

  /** The frame Xen last wrote at `r`. */
  function LatestFrame(moves: seq<Move>, r: nat): Option<Word> {
    if moves == [] then None
    else
      var m := moves[|moves| - 1];
      if m.ref == r && m.action.XenWrite? then Some(m.action.frame) else LatestFrame(moves[..|moves| - 1], r)
  }

  /** The parties' view of the past agrees with what happened. */
  predicate History(c: Cell, moves: seq<Move>, r: nat) {
    && (!c.guest.Free? && !c.guest.Held? ==> LatestOffer(moves, r) == Some(c.guest.offer))
    && (c.progress.Written? || c.progress.Completed? ==> LatestFrame(moves, r) == Some(c.progress.frame))
  }

  lemma CellStep(c: Cell, moves: seq<Move>, m: Move)
    requires Inv(c) && History(c, moves, m.ref) && Step(c, m.action).Some?
    ensures Inv(Step(c, m.action).value) && History(Step(c, m.action).value, moves + [m], m.ref)
  {
    if IsGuest(m.action) {
      GuestKeepsInv(c, m.action);
    } else {
      XenKeepsInv(c, m.action);
    }
    assert (moves + [m])[..|moves|] == moves;
  }

  /** Every reachable state, at every reference. */
  lemma {:induction false} Reachable(tables: seq<Table>, moves: seq<Move>, i: nat, r: nat)
    requires IsRun(tables, moves) && i <= |moves| && r < |tables[i]|
    ensures Inv(tables[i][r]) && History(tables[i][r], moves[..i], r)
  {
    if i > 0 {
      hide Inv, History, Step, Initial;
      var m := moves[i - 1];
      assert TableStep(tables[i - 1], m, tables[i]);
      Reachable(tables, moves, i - 1, r);
      assert moves[..i] == moves[..i - 1] + [m];
      if m.ref == r {
        CellStep(tables[i - 1][r], moves[..i - 1], m);
      } else {
        OtherReference(tables[i][r], moves[..i - 1], m, r);
      }
    }
  }

  lemma OtherReference(c: Cell, moves: seq<Move>, m: Move, r: nat)
    requires History(c, moves, r) && m.ref != r
    ensures History(c, moves + [m], r)
  {
    assert (moves + [m])[..|moves|] == moves;
  }

  // ---- what the protocol guarantees ----------------------------------------

  /** No reference that is free, or that its owner may free or reuse, is mapped
      by a foreign domain, and Xen cannot touch its entry. */
  lemma NoUseAfterEnd(tables: seq<Table>, moves: seq<Move>, i: nat, r: nat, a: Action)
    requires IsRun(tables, moves) && i <= |moves| && r < |tables[i]|
    requires var g := tables[i][r].guest; g.Free? || g.Held? || g.Writing?
    ensures tables[i][r].maps == []
    ensures XenStep(tables[i][r], a) == None
  {
    Reachable(tables, moves, i, r);
  }

  /** gnttab_end_foreign_access_ref returns 1 only at a compare-and-swap that
      found neither use bit set, and then nobody uses the grant. */
  lemma EndReturnsOneOnlyIfUnused(tables: seq<Table>, moves: seq<Move>, i: nat)
    requires IsRun(tables, moves) && i < |moves| && moves[i].action.EndSwap?
    requires moves[i].ref < |tables[i]| == |tables[i + 1]| && tables[i + 1][moves[i].ref].guest.Held?
    ensures var c := tables[i][moves[i].ref]; !c.entry.flags.bit3 && !c.entry.flags.bit4 && c.maps == []
  {
    assert TableStep(tables[i], moves[i], tables[i + 1]);
    Reachable(tables, moves, i, moves[i].ref);
    UseIsAnnounced(tables[i][moves[i].ref]);
  }

  /** Whenever an access grant is visible, the whole entry is that of the latest
      grant, and every use of it is by that domain, of the frame in the entry, and
      read-only if the grant is. That frame is the one asked for if and only if it
      fits the 32 bits of the entry; otherwise the domain is given another one. */
  lemma VisibleGrantIsTheLatest(tables: seq<Table>, moves: seq<Move>, i: nat, r: nat)
    requires IsRun(tables, moves) && i <= |moves| && r < |tables[i]|
    requires tables[i][r].entry.flags.kind.PermitAccess?
    ensures var c, latest := tables[i][r], LatestOffer(moves[..i], r);
            && latest.Some? && latest.value.Access?
            && latest.value.domid == c.entry.domid && latest.value.readonly == c.entry.flags.bit2
            && c.entry.frame == Stored(latest.value)
            && (c.entry.frame == latest.value.frame <==> latest.value.frame < 0x1_0000_0000)
    ensures var c := tables[i][r];
            forall m | m in c.maps ::
              && m.domid == c.entry.domid
              && (m.frame.Some? ==> m.frame.value == c.entry.frame)
              && (m.writable ==> !c.entry.flags.bit2)
  {
    Reachable(tables, moves, i, r);
    forall m | m in tables[i][r].maps
      ensures MappingOk(tables[i][r], m, tables[i][r].guest.offer)
    {
    }
  }

  /** gnttab_end_foreign_transfer_ref returns 0 only if it cleared the entry
      before Xen committed; any frame it returns is the one Xen last wrote, before
      it set completed. It is 0 only if Xen has written frame 0. */
  lemma TransferResult(tables: seq<Table>, moves: seq<Move>, i: nat)
    requires IsRun(tables, moves) && i < |moves| && moves[i].ref < |tables[i]| == |tables[i + 1]|
    ensures moves[i].action.TransferSwap? && tables[i + 1][moves[i].ref].guest.Held? ==>
              tables[i][moves[i].ref].progress.NotStarted? && tables[i + 1][moves[i].ref].entry.flags == NO_FLAGS
    ensures moves[i].action.TransferRead? ==>
              && tables[i][moves[i].ref].progress == Completed(moves[i].action.result)
              && LatestFrame(moves[..i], moves[i].ref) == Some(moves[i].action.result)
              && exists j | 0 <= j < i :: moves[j] == Move(moves[i].ref, XenWrite(moves[i].action.result))
  {
    assert TableStep(tables[i], moves[i], tables[i + 1]);
    Reachable(tables, moves, i, moves[i].ref);
    if moves[i].action.TransferRead? {
      FrameWasWritten(moves[..i], moves[i].ref);
    }
  }

  lemma {:induction false} FrameWasWritten(moves: seq<Move>, r: nat)
    requires LatestFrame(moves, r).Some?
    ensures exists j | 0 <= j < |moves| :: moves[j] == Move(r, XenWrite(LatestFrame(moves, r).value))
  {
    var m := moves[|moves| - 1];
    if m.ref == r && m.action.XenWrite? {
      assert m == Move(r, XenWrite(LatestFrame(moves, r).value));
    } else {
      FrameWasWritten(moves[..|moves| - 1], r);
    }
  }

  /** The guest never changes an entry between committed and completed. */
  lemma GuestKeepsOffCommitted(tables: seq<Table>, moves: seq<Move>, i: nat)
    requires IsRun(tables, moves) && i < |moves| && moves[i].ref < |tables[i]| == |tables[i + 1]|
    requires IsGuest(moves[i].action)
    requires var p := tables[i][moves[i].ref].progress; p.Committed? || p.Written?
    ensures tables[i + 1][moves[i].ref].entry == tables[i][moves[i].ref].entry
  {
    assert TableStep(tables[i], moves[i], tables[i + 1]);
    Reachable(tables, moves, i, moves[i].ref);
  }
}
