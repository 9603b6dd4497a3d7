/** The grant code itself (xen/gnttab.cc:130-188, 243-297): single loads, stores and
    compare-and-swaps on one shared entry, with Xen free to move before each of
    them. Each call is proved to be a run of the state machine of `GrantProtocol`,
    whatever Xen does meanwhile. */
module GrantAccess {
  import opened Options
  import opened GrantProtocol

  /** A sequence of moves, guest's and Xen's, from a state. */
  function Run(c: Cell, moves: seq<Action>): Option<Cell> {
    if moves == [] then Some(c)
    else
      match Run(c, moves[..|moves| - 1])
      case None => None
      case Some(before) => Step(before, moves[|moves| - 1])
  }

  lemma RunSnoc(c: Cell, moves: seq<Action>, a: Action)
    requires Run(c, moves).Some?
    ensures Run(c, moves + [a]) == Step(Run(c, moves).value, a)
  {
    assert (moves + [a])[..|moves|] == moves;
  }

  lemma {:induction false} RunKeepsInv(c: Cell, moves: seq<Action>)
    requires Inv(c) && Run(c, moves).Some?
    ensures Inv(Run(c, moves).value)
    decreases |moves|
  {
    hide Inv, Step;
    if moves != [] {
      var init, a := moves[..|moves| - 1], moves[|moves| - 1];
      RunKeepsInv(c, init);
      StepKeepsInv(Run(c, init).value, a);
    }
  }

  lemma StepKeepsInv(c: Cell, a: Action)
    requires Inv(c) && Step(c, a).Some?
    ensures Inv(Step(c, a).value)
  {
    if IsGuest(a) {
      GuestKeepsInv(c, a);
    } else {
      XenKeepsInv(c, a);
    }
  }

  /** When a state is idle nobody uses the entry; after a transfer has run to its
      end the frame is the one that Xen wrote. */
  lemma EndStates(c: Cell)
    requires Inv(c)
    ensures c.guest.Held? || c.guest.Free? ==> c.maps == [] && c.entry.flags in {NO_FLAGS, SPENT}
    ensures c.guest.TransferReading? ==> c.progress == Completed(c.entry.frame)
    ensures c.entry.flags == NO_FLAGS ==> c.progress.NotStarted?
  {
  }

  /** What the single accesses of the three calls do. */
  lemma GrantSteps(c: Cell, o: Offer)
    ensures c.guest == Held ==> Step(c, Start(o)) == Some(c.(guest := Writing(o, false, false)))
    ensures c.guest == Writing(o, false, false) ==>
              Step(c, StoreFrame) == Some(c.(entry := c.entry.(frame := Stored(o)), guest := Writing(o, true, false)))
    ensures c.guest == Writing(o, true, false) ==>
              Step(c, StoreDomid) == Some(c.(entry := c.entry.(domid := o.domid), guest := Writing(o, true, true)))
    ensures c.guest == Writing(o, true, true) ==>
              Step(c, Publish) == Some(WithFlags(c, FlagsOf(o)).(guest := Offered(o), progress := NotStarted))
  {
  }

  lemma AccessSteps(c: Cell, o: Offer, seen: Flags)
    ensures c.guest == Offered(o) && o.Access? ==>
              Step(c, EndLoad) == Some(c.(guest := Checking(o, c.entry.flags)))
    ensures c.guest == Checking(o, seen) ==>
              Step(c, EndTest) == Some(c.(guest := if InUseBits(seen) then Offered(o) else Swapping(o, seen)))
    ensures c.guest == Swapping(o, seen) ==>
              Step(c, EndSwap) == Some(if c.entry.flags == seen then WithFlags(c, NO_FLAGS).(guest := Held)
                                       else c.(guest := Checking(o, c.entry.flags)))
  {
  }

  lemma TransferSteps(c: Cell, o: Offer, seen: Flags)
    ensures c.guest == Offered(o) && o.Transfer? ==> Step(c, TransferBegin) == Some(c.(guest := TransferLoading(o)))
    ensures c.guest == TransferLoading(o) ==>
              Step(c, TransferLoad) == Some(c.(guest := if c.entry.flags.bit2 then TransferWaiting(o, c.entry.flags)
                                                        else TransferSwapping(o, c.entry.flags)))
    ensures c.guest == TransferSwapping(o, seen) ==>
              Step(c, TransferSwap) == Some(if c.entry.flags == seen then WithFlags(c, NO_FLAGS).(guest := Held)
                                            else c.(guest := TransferLoading(o)))
  {
  }

  lemma WaitingSteps(c: Cell, o: Offer, seen: Flags)
    ensures c.guest == TransferWaiting(o, seen) ==>
              Step(c, TransferSpin) == Some(c.(guest := if seen.bit3 then TransferReading(o)
                                                        else TransferWaiting(o, c.entry.flags)))
    ensures c.guest == TransferReading(o) ==>
              Step(c, TransferRead(c.entry.frame)) == Some(c.(guest := Held))
  {
  }

  /** A free entry. */
  function Unused(): Cell {
    Cell(Entry(NO_FLAGS, 0, 0), Free, [], NotStarted)
  }

  /** The moves that grant read access and map it. */
  function GrantAndMap(o: Offer): seq<Action> {
    [Allocate, Start(o), StoreFrame, StoreDomid, Publish, XenMap(o.domid, false), XenReadFrame(0)]
  }

  /** The entry with `o` on offer, and the uses of it. */
  function OnOffer(o: Offer, maps: seq<Mapping>): Cell {
    var f := FlagsOf(o);
    Cell(Entry(if maps == [] then f else f.(bit3 := true), o.domid, Stored(o)), Offered(o), maps, NotStarted)
  }

  lemma MapSteps(o: Offer)
    requires o.Access?
    ensures Step(OnOffer(o, []), XenMap(o.domid, false)) == Some(OnOffer(o, [Mapping(o.domid, false, None)]))
    ensures Step(OnOffer(o, [Mapping(o.domid, false, None)]), XenReadFrame(0))
         == Some(OnOffer(o, [Mapping(o.domid, false, Some(Stored(o)))]))
  {
    var m, m' := Mapping(o.domid, false, None), Mapping(o.domid, false, Some(Stored(o)));
    assert [] + [m] == [m] && [m][0 := m'] == [m'];
  }

  /** The run up to the offer. */
  lemma OfferRun(o: Offer)
    ensures Run(Unused(), [Allocate, Start(o), StoreFrame, StoreDomid, Publish]) == Some(OnOffer(o, []))
  {
    var c0, c1 := Unused(), Unused().(guest := Held);
    assert Run(c0, []) == Some(c0) && Step(c0, Allocate) == Some(c1);
    hide Run, Step, Stored, FlagsOf;
    RunSnoc(c0, [], Allocate);
    assert [] + [Allocate] == [Allocate];
    GrantSteps(c1, o);
    RunSnoc(c0, [Allocate], Start(o));
    var c2 := c1.(guest := Writing(o, false, false));
    assert [Allocate] + [Start(o)] == [Allocate, Start(o)];
    GrantSteps(c2, o);
    RunSnoc(c0, [Allocate, Start(o)], StoreFrame);
    StoresRun(o, [Allocate, Start(o)] + [StoreFrame],
              c2.(entry := Entry(NO_FLAGS, 0, Stored(o)), guest := Writing(o, true, false)));
    assert [Allocate, Start(o)] + [StoreFrame] + [StoreDomid] + [Publish]
        == [Allocate, Start(o), StoreFrame, StoreDomid, Publish];
  }

  lemma StoresRun(o: Offer, m: seq<Action>, c: Cell)
    requires Run(Unused(), m) == Some(c)
    requires c == Cell(Entry(NO_FLAGS, 0, Stored(o)), Writing(o, true, false), [], NotStarted)
    ensures Run(Unused(), m + [StoreDomid] + [Publish]) == Some(OnOffer(o, []))
  {
    hide Run, Step, Stored, FlagsOf;
    GrantSteps(c, o);
    RunSnoc(Unused(), m, StoreDomid);
    GrantSteps(c.(entry := Entry(NO_FLAGS, o.domid, Stored(o)), guest := Writing(o, true, true)), o);
    RunSnoc(Unused(), m + [StoreDomid], Publish);
  }

  /** What the domain is given, in this run, is the frame as it was stored. */
  lemma MappedFrame(o: Offer)
    requires o.Access?
    ensures Run(Unused(), GrantAndMap(o)).Some?
    ensures Run(Unused(), GrantAndMap(o)).value.maps == [Mapping(o.domid, false, Some(Stored(o)))]
  {
    hide Run, Step, Stored, FlagsOf;
    var m := [Allocate, Start(o), StoreFrame, StoreDomid, Publish];
    OfferRun(o);
    MapSteps(o);
    RunSnoc(Unused(), m, XenMap(o.domid, false));
    RunSnoc(Unused(), m + [XenMap(o.domid, false)], XenReadFrame(0));
    assert m + [XenMap(o.domid, false)] + [XenReadFrame(0)] == GrantAndMap(o);
  }

  /** So a domain that is granted frame 2^32 + 5 is given frame 5. */
  lemma LargeFrameIsCut(domid: nat)
    ensures var o := Access(domid, 0x1_0000_0005, false);
            Run(Unused(), GrantAndMap(o)).Some?
            && Run(Unused(), GrantAndMap(o)).value.maps == [Mapping(domid, false, Some(5))]
  {
    hide Run;
    MappedFrame(Access(domid, 0x1_0000_0005, false));
  }

  class SharedEntry {
    var flags: Flags
    var domid: nat
    var frame: Word
    // Xen's side
    var maps: seq<Mapping>
    var progress: Progress
    // where the guest stands in the protocol, and all moves since `origin`
    ghost var guest: Guest
    ghost const origin: Cell
    ghost var moves: seq<Action>

    ghost function State(): Cell
      reads this
    {
      Cell(Entry(flags, domid, frame), guest, maps, progress)
    }

    /** Everything that happened to the entry is a run, which has led to `c`. */
    ghost predicate LedTo(c: Cell)
      reads this`moves
    {
      Inv(origin) && Run(origin, moves) == Some(c)
    }

    ghost predicate Valid()
      reads this
    {
      LedTo(State())
    }

    /** A free entry, as gnttab_init leaves it. */
    constructor ()
      ensures Valid() && fresh(this) && guest.Free? && moves == []
    {
      flags, domid, frame, maps, progress := NO_FLAGS, 0, 0, [], NotStarted;
      guest, moves := Free, [];
      origin := Cell(Entry(NO_FLAGS, 0, 0), Free, [], NotStarted);
    }

    /** Records a move that has just been made. */
    ghost method Made(before: Cell, a: Action)
      requires LedTo(before) && Step(before, a) == Some(State())
      modifies this`moves
      ensures Valid() && moves == old(moves) + [a]
    {
      RunSnoc(origin, moves, a);
      moves := moves + [a];
    }

    /** Xen's moves before the guest's `k`-th access; a move that is not enabled is
        left out, and Xen rests when its schedule is over. */
    method XenRuns(xen: seq<seq<Action>>, k: nat)
      requires Valid()
      modifies this`flags, this`frame, this`maps, this`progress, this`moves
      ensures Valid() && old(moves) <= moves
      ensures k >= |xen| ==> flags == old(flags) && moves == old(moves)
    {
      hide Run, XenStep, Inv;
      if k >= |xen| { return; }
      for i := 0 to |xen[k]|
        invariant Valid() && old(moves) <= moves
        invariant guest == old(guest) && domid == old(domid)
      {
        ghost var before := State();
        var a := xen[k][i];
        if !IsGuest(a) {
          var c := XenStep(Cell(Entry(flags, domid, frame), Free, maps, progress), a);
          XenIgnoresGuest(before, a);
          if c.Some? {
            flags, frame, maps, progress := c.value.entry.flags, c.value.entry.frame, c.value.maps, c.value.progress;
            Made(before, a);
          }
        }
      }
    }

    /** The reference leaves the free list (get_free_entries). */
    ghost method Take()
      requires Valid() && guest.Free?
      modifies this`guest, this`moves
      ensures Valid() && guest.Held? && moves == old(moves) + [Allocate]
    {
      hide Run, Inv;
      var c := State();
      guest := Held;
      Made(c, Allocate);
    }

    /** ... and returns to it (put_free_entry): only when nobody uses the entry. */
    ghost method Drop()
      requires Valid() && guest.Held?
      modifies this`guest, this`moves
      ensures Valid() && guest.Free? && maps == [] && moves == old(moves) + [Release]
    {
      hide Run, Inv;
      var c := State();
      ValidKeepsInv();
      EndStates(c);
      guest := Free;
      Made(c, Release);
    }

    // The single accesses.

    method StoreFrame(offer: Offer)
      requires Valid() && guest == Writing(offer, false, false)
      modifies this`frame, this`guest, this`moves
      ensures Valid() && guest == Writing(offer, true, false) && moves == old(moves) + [Action.StoreFrame]
    {
      hide Run, Step, Inv;
      ghost var c := State();
      GrantSteps(c, offer);
      frame, guest := Stored(offer), Writing(offer, true, false);
      Made(c, Action.StoreFrame);
    }

    method StoreDomid(offer: Offer)
      requires Valid() && guest == Writing(offer, true, false)
      modifies this`domid, this`guest, this`moves
      ensures Valid() && guest == Writing(offer, true, true) && moves == old(moves) + [Action.StoreDomid]
    {
      hide Run, Step, Inv;
      ghost var c := State();
      GrantSteps(c, offer);
      domid, guest := offer.domid, Writing(offer, true, true);
      Made(c, Action.StoreDomid);
    }

    /** Behind the barrier. What was stored before it is still there. */
    method StoreFlags(offer: Offer)
      requires Valid() && guest == Writing(offer, true, true)
      modifies this`flags, this`progress, this`guest, this`moves
      ensures Valid() && guest == Offered(offer) && moves == old(moves) + [Publish]
      ensures State().entry == Entry(FlagsOf(offer), offer.domid, Stored(offer))
    {
      hide Run, Step, Inv;
      ghost var c := State();
      ValidKeepsInv();
      StoresStay(c);
      GrantSteps(c, offer);
      flags, progress, guest := FlagsOf(offer), NotStarted, Offered(offer);
      Made(c, Publish);
    }

    method LoadFlags(ghost offer: Offer) returns (f: Flags)
      requires Valid() && guest == Offered(offer) && offer.Access?
      modifies this`guest, this`moves
      ensures Valid() && guest == Checking(offer, f) && moves == old(moves) + [EndLoad]
      ensures f == flags && Saw(origin, moves, |old(moves)|, f)
    {
      hide Run, Step, Inv;
      ghost var c := State();
      AccessSteps(c, offer, flags);
      f, guest := flags, Checking(offer, flags);
      SawNow(origin, moves, c, EndLoad);
      Made(c, EndLoad);
    }

    ghost method TestFlags(offer: Offer, seen: Flags)
      requires Valid() && guest == Checking(offer, seen)
      modifies this`guest, this`moves
      ensures Valid() && moves == old(moves) + [EndTest]
      ensures guest == if InUseBits(seen) then Offered(offer) else Swapping(offer, seen)
    {
      hide Run, Step, Inv;
      var c := State();
      AccessSteps(c, offer, seen);
      guest := if InUseBits(seen) then Offered(offer) else Swapping(offer, seen);
      Made(c, EndTest);
    }

    /** synch_cmpxchg of the flags with 0. */
    method SwapFlags(ghost offer: Offer, seen: Flags) returns (was: Flags)
      requires Valid() && guest == Swapping(offer, seen)
      modifies this`flags, this`guest, this`moves
      ensures Valid() && was == old(flags) && moves == old(moves) + [EndSwap]
      ensures was == seen ==> guest == Held && flags == NO_FLAGS && maps == []
      ensures was != seen ==> guest == Checking(offer, was) && flags == was && Saw(origin, moves, |old(moves)|, was)
    {
      hide Run, Step, Inv;
      ghost var c := State();
      AccessSteps(c, offer, seen);
      was := flags;
      SawNow(origin, moves, c, EndSwap);
      if flags == seen {
        flags, guest := NO_FLAGS, Held;
      } else {
        guest := Checking(offer, was);
      }
      Made(c, EndSwap);
      ValidKeepsInv();
      EndStates(State());
    }

    method LoadTransferFlags(ghost offer: Offer) returns (f: Flags)
      requires Valid() && guest == TransferLoading(offer)
      modifies this`guest, this`moves
      ensures Valid() && f == flags && moves == old(moves) + [TransferLoad]
      ensures guest == if f.bit2 then TransferWaiting(offer, f) else TransferSwapping(offer, f)
    {
      hide Run, Step, Inv;
      ghost var c := State();
      TransferSteps(c, offer, flags);
      f, guest := flags, if flags.bit2 then TransferWaiting(offer, flags) else TransferSwapping(offer, flags);
      Made(c, TransferLoad);
    }

    method SwapTransferFlags(ghost offer: Offer, seen: Flags) returns (was: Flags)
      requires Valid() && guest == TransferSwapping(offer, seen)
      modifies this`flags, this`guest, this`moves
      ensures Valid() && was == old(flags) && moves == old(moves) + [TransferSwap]
      ensures was == seen ==> guest == Held && flags == NO_FLAGS && progress.NotStarted?
      ensures was != seen ==> guest == TransferLoading(offer) && flags == was
    {
      hide Run, Step, Inv;
      ghost var c := State();
      TransferSteps(c, offer, seen);
      was := flags;
      if flags == seen {
        flags, guest := NO_FLAGS, Held;
      } else {
        guest := TransferLoading(offer);
      }
      Made(c, TransferSwap);
      ValidKeepsInv();
      EndStates(State());
    }

    /** The spin: another load, or the way out once completion has been seen. */
    method SpinOnFlags(ghost offer: Offer, seen: Flags) returns (f: Flags)
      requires Valid() && guest == TransferWaiting(offer, seen)
      modifies this`guest, this`moves
      ensures Valid() && moves == old(moves) + [TransferSpin] && f == flags
      ensures guest == if seen.bit3 then TransferReading(offer) else TransferWaiting(offer, f)
    {
      hide Run, Step, Inv;
      ghost var c := State();
      WaitingSteps(c, offer, seen);
      f, guest := flags, if seen.bit3 then TransferReading(offer) else TransferWaiting(offer, flags);
      Made(c, TransferSpin);
    }

    method LoadFrame(ghost offer: Offer) returns (r: Word)
      requires Valid() && guest == TransferReading(offer)
      modifies this`guest, this`moves
      ensures Valid() && guest == Held && moves == old(moves) + [TransferRead(r)]
      ensures progress == Completed(r) && frame == r
    {
      hide Run, Step, Inv;
      ghost var c := State();
      ValidKeepsInv();
      EndStates(c);
      WaitingSteps(c, offer, flags);
      r, guest := frame, Held;
      Made(c, TransferRead(r));
    }

    // The calls.

    /** gnttab_grant_foreign_access_ref and gnttab_grant_foreign_transfer_ref: frame
        and domain first, then, behind the barrier, the flags. */
    method GrantRef(offer: Offer, xen: seq<seq<Action>>)
      requires Valid() && guest.Held?
      modifies this
      ensures Valid() && guest == Offered(offer) && old(moves) <= moves
      ensures State().entry == Entry(FlagsOf(offer), offer.domid, Stored(offer))
    {
      hide Run, Step, LedTo, Inv;
      ghost var c := State();
      GrantSteps(c, offer);
      guest := Writing(offer, false, false);
      Made(c, Start(offer));
      hide State, Valid, FlagsOf;
      XenRuns(xen, 0);
      StoreFrame(offer);
      XenRuns(xen, 1);
      StoreDomid(offer);
      XenRuns(xen, 2);
      StoreFlags(offer);
    }

    /** gnttab_end_foreign_access_ref. It fails only if the flags at some time during
        the call had a use bit; if it succeeds nobody uses the grant. */
    method EndForeignAccessRef(xen: seq<seq<Action>>) returns (ended: bool, ghost seen: Flags)
      requires Valid() && guest.Offered? && guest.offer.Access?
      modifies this
      ensures Valid() && old(moves) <= moves
      ensures ended ==> guest == Held && flags == NO_FLAGS && maps == []
      ensures !ended ==> guest == old(guest) && (seen.bit3 || seen.bit4) && Saw(origin, moves, |old(moves)|, seen)
    {
      hide State, Valid, Saw;
      ghost var offer := guest.offer;
      XenRuns(xen, 0);
      ghost var loaded := |moves|;
      var nflags := LoadFlags(offer);
      SawBefore(origin, moves, |old(moves)|, loaded, nflags);
      var k := 1;
      while true
        invariant Valid() && old(moves) <= moves && 1 <= k && k <= |xen| + 1
        invariant guest == Checking(offer, nflags) && flags == nflags
        invariant Saw(origin, moves, |old(moves)|, nflags)
        decreases |xen| + 1 - k
      {
        var expected := nflags;
        ghost var moves0 := moves;
        TestFlags(offer, expected);
        if InUseBits(expected) {
          SawStays(origin, moves0, moves, |old(moves)|, expected);
          return false, expected;
        }
        XenRuns(xen, k);
        loaded := |moves|;
        nflags := SwapFlags(offer, expected);
        if nflags == expected { return true, expected; }
        SawBefore(origin, moves, |old(moves)|, loaded, nflags);
        k := k + 1;
      }
    }

    /** gnttab_end_foreign_transfer_ref. Either the offer was withdrawn before Xen had
        committed to it, which returns 0, or the result is the frame that Xen wrote;
        the caller can tell these apart if Xen never writes frame 0. `None`: Xen has
        committed, its schedule is over, and the call is still waiting. */
    method EndForeignTransferRef(xen: seq<seq<Action>>) returns (r: Option<Word>, ghost withdrawn: bool)
      requires Valid() && guest.Offered? && guest.offer.Transfer?
      modifies this
      ensures Valid() && old(moves) <= moves
      ensures r.Some? ==> guest == Held
      ensures withdrawn ==> r == Some(0) && flags == NO_FLAGS && progress.NotStarted?
      ensures r.Some? && !withdrawn ==> progress == Completed(r.value) && frame == r.value
      ensures r == Some(0) ==> withdrawn || progress == Completed(0)
      ensures r.None? ==> guest.TransferWaiting? && (progress.Committed? || progress.Written?)
    {
      ghost var offer := guest.offer;
      Begin(offer);
      var cleared, seen, k := WithdrawTransfer(offer, xen);
      withdrawn := cleared;
      if cleared {
        r := Some(0);
      } else {
        r := AwaitTransfer(offer, xen, k, seen);
      }
    }

    /** The first loop: ends when Xen is seen to be committed, or with the entry
        cleared before that. */
    method WithdrawTransfer(ghost offer: Offer, xen: seq<seq<Action>>) returns (withdrawn: bool, seen: Flags, k: nat)
      requires Valid() && guest == TransferLoading(offer)
      modifies this
      ensures Valid() && old(moves) <= moves
      ensures withdrawn ==> guest == Held && flags == NO_FLAGS && progress.NotStarted?
      ensures !withdrawn ==> guest == TransferWaiting(offer, seen) && flags == seen
    {
      hide *;
      XenRuns(xen, 0);
      seen := LoadTransferFlags(offer);
      k := 1;
      while !seen.bit2
        invariant Valid() && old(moves) <= moves && 1 <= k && k <= |xen| + 1
        invariant flags == seen
        invariant guest == if seen.bit2 then TransferWaiting(offer, seen) else TransferSwapping(offer, seen)
        decreases |xen| + 1 - k
      {
        XenRuns(xen, k);
        var was := SwapTransferFlags(offer, seen);
        if was == seen { return true, seen, k; }
        XenRuns(xen, k + 1);
        seen := LoadTransferFlags(offer);
        k := k + 1;
      }
      withdrawn := false;
    }

    /** The rest of it, once Xen has been seen to be committed. */
    method AwaitTransfer(ghost offer: Offer, xen: seq<seq<Action>>, from: nat, loaded: Flags) returns (r: Option<Word>)
      requires Valid() && guest == TransferWaiting(offer, loaded) && flags == loaded
      modifies this
      ensures Valid() && old(moves) <= moves
      ensures r.Some? ==> guest == Held && progress == Completed(r.value) && frame == r.value
      ensures r.None? ==> guest.TransferWaiting? && (progress.Committed? || progress.Written?)
    {
      hide State, Valid;
      var seen, k := loaded, from;
      while !seen.bit3
        invariant Valid() && old(moves) <= moves && guest == TransferWaiting(offer, seen) && flags == seen
        decreases |xen| - k
      {
        if k >= |xen| {
          StillCommitted();
          return None;
        }
        XenRuns(xen, k);
        seen := SpinOnFlags(offer, seen);
        k := k + 1;
      }
      var last := SpinOnFlags(offer, seen);
      XenRuns(xen, k);
      var frame := LoadFrame(offer);
      return Some(frame);
    }

    ghost method Begin(offer: Offer)
      requires Valid() && guest == Offered(offer) && offer.Transfer?
      modifies this`guest, this`moves
      ensures Valid() && guest == TransferLoading(offer) && moves == old(moves) + [TransferBegin]
    {
      hide Run, Step, Inv;
      var c := State();
      TransferSteps(c, offer, flags);
      guest := TransferLoading(offer);
      Made(c, TransferBegin);
    }

    lemma StillCommitted()
      requires Valid() && guest.TransferWaiting? && !flags.bit3
      ensures progress.Committed? || progress.Written?
    {
      hide Run;
      ValidKeepsInv();
    }

    lemma ValidKeepsInv()
      requires Valid()
      ensures Inv(State())
    {
      hide Inv, Step;
      RunKeepsInv(origin, moves);
    }
  }

  /** The flags were `f` at some time since `from` moves had been made. */
  ghost predicate Saw(origin: Cell, moves: seq<Action>, from: nat, f: Flags) {
    exists at | from <= at <= |moves| ::
      Run(origin, moves[..at]).Some? && Run(origin, moves[..at]).value.entry.flags == f
  }

  lemma SawNow(origin: Cell, moves: seq<Action>, c: Cell, a: Action)
    requires Run(origin, moves) == Some(c)
    ensures Saw(origin, moves + [a], |moves|, c.entry.flags)
  {
    assert (moves + [a])[..|moves|] == moves;
  }

  lemma SawStays(origin: Cell, moves: seq<Action>, more: seq<Action>, from: nat, f: Flags)
    requires Saw(origin, moves, from, f) && moves <= more
    ensures Saw(origin, more, from, f)
  {
    hide Run;
    var at :| from <= at <= |moves|
      && Run(origin, moves[..at]).Some? && Run(origin, moves[..at]).value.entry.flags == f;
    assert more[..at] == moves[..at];
  }

  lemma SawBefore(origin: Cell, moves: seq<Action>, from: nat, later: nat, f: Flags)
    requires Saw(origin, moves, later, f) && from <= later
    ensures Saw(origin, moves, from, f)
  {
  }

  lemma StoresStay(c: Cell)
    requires Inv(c) && c.guest.Writing? && c.guest.frameSeen && c.guest.domidSeen
    ensures c.entry.frame == Stored(c.guest.offer) && c.entry.domid == c.guest.offer.domid
  {
  }

  lemma XenIgnoresGuest(c: Cell, a: Action)
    ensures var other := XenStep(c.(guest := Free), a);
            match XenStep(c, a)
            case None => other == None
            case Some(c') => other == Some(c'.(guest := Free)) && c'.guest == c.guest && c'.entry.domid == c.entry.domid
  {
  }
}
