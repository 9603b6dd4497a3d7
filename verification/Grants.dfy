/** The public calls of xen/gnttab.cc: the free list of `GrantList` and the shared
    entries of `GrantAccess` together. They stay in step: what is on the free list
    is offered to nobody, and so used by nobody. */
module Grants {
  import opened Options
  import opened GrantProtocol
  import opened GrantAccess
  import L = GrantList

  /** What Xen does during one call. */
  type Schedule = seq<seq<Action>>

  ghost predicate Apart(shared: seq<SharedEntry>) {
    forall i, j | 0 <= i < j < |shared| :: shared[i] != shared[j]
  }

  /** Every entry behaves, and those that are not handed out are free. */
  ghost predicate Matches(inUse: set<nat>, shared: seq<SharedEntry>)
    reads shared
  {
    && Apart(shared)
    && (forall r | 0 <= r < |shared| :: shared[r].Valid())
    && (forall r | L.NR_RESERVED <= r < |shared| :: shared[r].guest.Free? <==> r !in inUse)
  }

  ghost predicate InStep(t: L.GrantTable, shared: seq<SharedEntry>)
    reads t, t.entry, shared
  {
    t.Valid() && |shared| == t.entry.Length && Matches(t.InUse(), shared)
  }

  /** Nothing on the free list is mapped by a foreign domain, or can be touched by Xen. */
  lemma FreeIsUnused(t: L.GrantTable, shared: seq<SharedEntry>, r: nat, a: Action)
    requires InStep(t, shared) && r in t.free
    ensures r < |shared| && shared[r].maps == [] && XenStep(shared[r].State(), a) == None
  {
    shared[r].ValidKeepsInv();
  }

  // ---- between two calls ---------------------------------------------------

  /** Whatever Xen does on whatever entries between two calls, list and entries stay
      in step; so `FreeIsUnused` holds all along any sequence of calls. `moves` are
      pairs of a reference and the moves on it. */
  method XenBetweenCalls(t: L.GrantTable, shared: seq<SharedEntry>, moves: seq<(nat, seq<Action>)>)
    requires InStep(t, shared) && forall k | 0 <= k < |moves| :: moves[k].0 < |shared|
    modifies shared
    ensures InStep(t, shared)
    ensures forall r | 0 <= r < |shared| :: shared[r].guest == old(shared[r].guest)
  {
    assert Apart(shared);
    hide L.GrantTable.Valid, SharedEntry.Valid;
    for k := 0 to |moves|
      invariant InStep(t, shared)
      invariant forall r | 0 <= r < |shared| :: shared[r].guest == old(shared[r].guest)
    {
      shared[moves[k].0].XenRuns([moves[k].1], 0);
    }
  }

  // ---- one entry among all -------------------------------------------------

  ghost predicate IsOffered(shared: seq<SharedEntry>, ref: nat, access: bool)
    requires ref < |shared|
    reads shared
  {
    shared[ref].guest.Offered? && shared[ref].guest.offer.Access? == access
  }

  /** At some time since the guest and Xen had made `from` moves, the entry was in use. */
  ghost predicate WasInUse(e: SharedEntry, from: nat)
    reads e
  {
    exists f: Flags :: (f.bit3 || f.bit4) && Saw(e.origin, e.moves, from, f)
  }

  /** Ends an access; the entry is free if that succeeds. */
  method EndEntry(shared: seq<SharedEntry>, ghost inUse: set<nat>, ref: nat, xen: Schedule) returns (ended: bool)
    requires Matches(inUse, shared) && L.NR_RESERVED <= ref < |shared| && ref in inUse && IsOffered(shared, ref, true)
    modifies shared[ref]
    ensures Matches(if ended then inUse - {ref} else inUse, shared)
    ensures ended ==> shared[ref].maps == []
    ensures !ended ==> shared[ref].guest == old(shared[ref].guest) && WasInUse(shared[ref], old(|shared[ref].moves|))
  {
    hide SharedEntry.Valid, Saw;
    ghost var seen;
    ended, seen := shared[ref].EndForeignAccessRef(xen);
    if ended {
      shared[ref].Drop();
    }
  }

  /** The entry was cleared before Xen had committed to a transfer. */
  ghost predicate Withdrawn(shared: seq<SharedEntry>, ref: nat)
    requires ref < |shared|
    reads shared
  {
    shared[ref].flags == NO_FLAGS && shared[ref].progress.NotStarted?
  }

  /** The guest has seen that Xen is committed to a transfer, and Xen is not done. */
  ghost predicate Waiting(shared: seq<SharedEntry>, ref: nat)
    requires ref < |shared|
    reads shared
  {
    && shared[ref].guest.TransferWaiting?
    && (shared[ref].progress.Committed? || shared[ref].progress.Written?)
  }

  /** Ends a transfer, unless the call is still waiting. */
  method EndTransferEntry(shared: seq<SharedEntry>, ghost inUse: set<nat>, ref: nat, xen: Schedule)
    returns (r: Option<Word>)
    requires Matches(inUse, shared) && L.NR_RESERVED <= ref < |shared| && ref in inUse && IsOffered(shared, ref, false)
    modifies shared[ref]
    ensures Matches(if r.Some? then inUse - {ref} else inUse, shared)
    ensures r.Some? && r.value != 0 ==> shared[ref].progress == Completed(r.value)
    ensures r == Some(0) ==> Withdrawn(shared, ref) || shared[ref].progress == Completed(0)
    ensures r.None? ==> Waiting(shared, ref)
  {
    hide SharedEntry.Valid;
    ghost var withdrawn;
    r, withdrawn := shared[ref].EndForeignTransferRef(xen);
    if r.Some? {
      shared[ref].Drop();
    }
  }

  /** Takes a free entry and publishes an offer in it. */
  method OfferEntry(shared: seq<SharedEntry>, ghost inUse: set<nat>, ref: nat, offer: Offer, xen: Schedule)
    requires Matches(inUse, shared) && L.NR_RESERVED <= ref < |shared| && ref !in inUse
    modifies shared[ref]
    ensures Matches(inUse + {ref}, shared)
    ensures shared[ref].guest == Offered(offer)
    ensures shared[ref].State().entry == Entry(FlagsOf(offer), offer.domid, Stored(offer))
  {
    hide SharedEntry.Valid;
    shared[ref].Take();
    shared[ref].GrantRef(offer, xen);
  }

  // ---- the calls -----------------------------------------------------------

  /** gnttab_end_foreign_access: the reference goes back on the free list if the
      grant could be ended, and is leaked if it is in use. */
  method EndForeignAccess(t: L.GrantTable, shared: seq<SharedEntry>, ref: nat, xen: Schedule) returns (ended: bool)
    requires InStep(t, shared) && ref in t.InUse() && ref < |shared| && IsOffered(shared, ref, true)
    modifies t`freeHead, t`freeCount, t`free, t.entry, shared[ref]
    ensures InStep(t, shared)
    ensures ended ==> t.free == [ref] + old(t.free) && t.InUse() == old(t.InUse()) - {ref} && shared[ref].maps == []
    ensures !ended ==> t.free == old(t.free) && shared[ref].guest == old(shared[ref].guest)
    ensures !ended ==> WasInUse(shared[ref], old(|shared[ref].moves|))
  {
    hide Matches, L.GrantTable.Valid, WasInUse;
    ended := EndEntry(shared, t.InUse(), ref, xen);
    if ended {
      t.PutFreeEntry(ref);
    }
  }

  /** gnttab_end_foreign_transfer. `None`: the call is still waiting. */
  method EndForeignTransfer(t: L.GrantTable, shared: seq<SharedEntry>, ref: nat, xen: Schedule)
    returns (r: Option<Word>)
    requires InStep(t, shared) && ref in t.InUse() && ref < |shared| && IsOffered(shared, ref, false)
    modifies t`freeHead, t`freeCount, t`free, t.entry, shared[ref]
    ensures InStep(t, shared)
    ensures r.Some? ==> t.free == [ref] + old(t.free) && t.InUse() == old(t.InUse()) - {ref}
    ensures r.Some? && r.value != 0 ==> shared[ref].progress == Completed(r.value)
    ensures r == Some(0) ==> Withdrawn(shared, ref) || shared[ref].progress == Completed(0)
    ensures r.None? ==> t.free == old(t.free) && Waiting(shared, ref)
  {
    hide Matches, L.GrantTable.Valid;
    r := EndTransferEntry(shared, t.InUse(), ref, xen);
    if r.Some? {
      t.PutFreeEntry(ref);
    }
  }

  /** get_free_entries for one reference: the first of the free list. Only if none is
      free, one more frame is needed: it must be within Xen's limit, and there must be
      memory for it. */
  method GetOne(t: L.GrantTable, xenMaxFrames: nat, noMemory: bool) returns (r: L.Result<nat>)
    requires t.Valid()
    modifies t`frames, t`freeHead, t`freeCount, t`free, t.entry
    ensures t.Valid()
    ensures r == L.Err(L.ENOSPC) <==> old(t.free) == [] && old(t.frames) + 1 > t.MaxFrames(xenMaxFrames)
    ensures r == L.Err(L.ENOMEM) <==> old(t.free) == [] && old(t.frames) + 1 <= t.MaxFrames(xenMaxFrames) && noMemory
    ensures r != L.Err(L.WildWrite)
    ensures r.Err? ==> t.free == old(t.free) && t.InUse() == old(t.InUse())
    ensures r.Ok? && old(t.free) != [] ==>
              r.value == old(t.free)[0] && t.free == old(t.free)[1..] && t.frames == old(t.frames)
    ensures r.Ok? && old(t.free) == [] ==>
              && t.frames == old(t.frames) + 1
              && [r.value] + t.free == L.Range(old(t.frames) * L.PER_FRAME, t.frames * L.PER_FRAME)
    ensures r.Ok? ==> r.value !in old(t.InUse()) && t.InUse() == old(t.InUse()) + {r.value}
    ensures r.Ok? ==> L.NR_RESERVED <= r.value < t.entry.Length
  {
    assert |t.free| == t.freeCount;
    hide L.IsChain, L.Distinct, L.Range, L.FramesFor;
    ghost var free, frames := t.free, t.frames;
    ghost var taken;
    t.OneFrame();
    r, taken := t.GetFreeEntries(1, xenMaxFrames, noMemory);
    if r.Ok? {
      t.InUseIsInside();
      t.OneTaken(r.value, taken);
      t.NoRange();
      SplitFirst(L.Range(frames * L.PER_FRAME, t.frames * L.PER_FRAME), free, r.value, t.free);
    }
  }

  lemma SplitFirst(more: seq<nat>, free: seq<nat>, ref: nat, rest: seq<nat>)
    requires [ref] + rest == more + free
    ensures more == [] ==> free != [] && ref == free[0] && rest == free[1..]
    ensures free == [] ==> [ref] + rest == more
  {
    if more == [] {
      assert free == [ref] + rest;
    } else if free == [] {
      assert more + free == more;
    }
  }

  /** gnttab_grant_foreign_access, and gnttab_grant_foreign_transfer: the first reference
      off the free list, and the offer published in its entry. */
  method Grant(t: L.GrantTable, shared: seq<SharedEntry>, offer: Offer, xenMaxFrames: nat, noMemory: bool,
               xen: Schedule)
    returns (r: L.Result<nat>)
    requires InStep(t, shared)
    modifies t`frames, t`freeHead, t`freeCount, t`free, t.entry, shared
    ensures InStep(t, shared)
    ensures r == L.Err(L.ENOSPC) <==> old(t.free) == [] && old(t.frames) + 1 > t.MaxFrames(xenMaxFrames)
    ensures r == L.Err(L.ENOMEM) <==> old(t.free) == [] && old(t.frames) + 1 <= t.MaxFrames(xenMaxFrames) && noMemory
    ensures r != L.Err(L.WildWrite)
    ensures r.Err? ==> t.free == old(t.free) && t.InUse() == old(t.InUse()) && unchanged(shared)
    ensures r.Ok? && old(t.free) != [] ==>
              r.value == old(t.free)[0] && t.free == old(t.free)[1..] && t.frames == old(t.frames)
    ensures r.Ok? && old(t.free) == [] ==>
              && t.frames == old(t.frames) + 1
              && [r.value] + t.free == L.Range(old(t.frames) * L.PER_FRAME, t.frames * L.PER_FRAME)
    ensures r.Ok? ==> r.value !in old(t.InUse()) && t.InUse() == old(t.InUse()) + {r.value} && r.value < |shared|
    ensures r.Ok? ==> shared[r.value].guest == Offered(offer)
    ensures r.Ok? ==> shared[r.value].State().entry == Entry(FlagsOf(offer), offer.domid, Stored(offer))
    ensures r.Ok? ==> forall i | 0 <= i < |shared| && i != r.value :: unchanged(shared[i])
  {
    assert Apart(shared);
    hide Matches, L.Range, L.GrantTable.Valid, L.GrantTable.InUse;
    ghost var inUse := t.InUse();
    r := GetOne(t, xenMaxFrames, noMemory);
    if r.Ok? {
      OfferEntry(shared, inUse, r.value, offer, xen);
    }
  }

  // ---- a batch -------------------------------------------------------------

  /** Where the guest stood with a reference, and after how many moves. */
  datatype Standing = Standing(guest: Guest, made: nat)

  /** The first `|ended|` references of a batch have been dealt with; `guests` says how
      each of them stood at first. What was not ended was in use meanwhile. */
  ghost predicate Batch(shared: seq<SharedEntry>, refs: seq<nat>, guests: seq<Standing>, ended: seq<bool>)
    reads shared
  {
    && |ended| <= |refs| == |guests|
    && (forall j | 0 <= j < |refs| :: refs[j] < |shared|)
    && (forall j | 0 <= j < |ended| && ended[j] :: shared[refs[j]].maps == [])
    && (forall j | 0 <= j < |refs| && (j < |ended| ==> !ended[j]) :: shared[refs[j]].guest == guests[j].guest)
    && (forall j | 0 <= j < |ended| && !ended[j] :: WasInUse(shared[refs[j]], guests[j].made))
    && (forall j | |ended| <= j < |refs| :: |shared[refs[j]].moves| == guests[j].made)
  }

  ghost function Guests(shared: seq<SharedEntry>, refs: seq<nat>): (g: seq<Standing>)
    requires forall j | 0 <= j < |refs| :: refs[j] < |shared|
    ensures Batch(shared, refs, g, [])
    reads shared
  {
    seq(|refs|, j requires 0 <= j < |refs| && refs[j] < |shared| reads shared =>
      Standing(shared[refs[j]].guest, |shared[refs[j]].moves|))
  }

  /** One turn of the loop, as far as the entries are concerned. */
  method EndInBatch(shared: seq<SharedEntry>, ghost inUse: set<nat>, refs: seq<nat>, ghost guests: seq<Standing>,
                    ghost ended: seq<bool>, i: nat, xen: Schedule)
    returns (b: bool)
    requires i == |ended| < |refs| && L.Distinct(refs) && Batch(shared, refs, guests, ended) && Matches(inUse, shared)
    requires L.NR_RESERVED <= refs[i] && refs[i] in inUse && guests[i].guest.Offered? && guests[i].guest.offer.Access?
    modifies shared[refs[i]]
    ensures Matches(if b then inUse - {refs[i]} else inUse, shared)
    ensures Batch(shared, refs, guests, ended + [b])
  {
    assert Apart(shared) && IsOffered(shared, refs[i], true);
    hide Matches, WasInUse;
    b := EndEntry(shared, inUse, refs[i], xen);
  }

  /** The ended references hang on `head`. */
  ghost predicate Collected(t: L.GrantTable, refs: seq<nat>, ended: seq<bool>, head: nat)
    requires |ended| <= |refs|
    reads t, t.entry
  {
    t.Valid() && L.IsChain(t.entry[..], head, L.Ended(refs, ended, |ended|))
  }

  /** ... and as far as the list is. */
  method Collect(t: L.GrantTable, refs: seq<nat>, ghost ended: seq<bool>, i: nat, head: nat, b: bool)
    returns (head': nat)
    requires i == |ended| < |refs| && L.Distinct(refs) && refs[i] in t.InUse() && Collected(t, refs, ended, head)
    modifies t.entry
    ensures Collected(t, refs, ended + [b], head')
  {
    L.EndedNext(refs, ended, b);
    hide L.IsChain, L.Ended, L.GrantTable.Valid;
    head' := head;
    if b {
      t.PushEnded(refs, ended, i, head);
      head' := refs[i];
    }
  }

  /** The state of the loop. */
  ghost predicate Collecting(t: L.GrantTable, shared: seq<SharedEntry>, refs: seq<nat>, guests: seq<Standing>,
                             ended: seq<bool>, head: nat)
    requires |ended| <= |refs|
    reads t, t.entry, shared
  {
    && Collected(t, refs, ended, head) && Batch(shared, refs, guests, ended)
    && Matches(t.InUse() - L.SetOf(L.Ended(refs, ended, |ended|)), shared)
  }

  /** The references of a batch are in use, with accesses on offer. */
  ghost predicate Endable(t: L.GrantTable, refs: seq<nat>, guests: seq<Standing>)
    reads t
  {
    && |guests| == |refs| && L.Distinct(refs)
    && forall j | 0 <= j < |refs| ::
         L.NR_RESERVED <= refs[j] && refs[j] in t.InUse() && guests[j].guest.Offered? && guests[j].guest.offer.Access?
  }

  /** Which references are in use after one more. */
  lemma OneLess(inUse: set<nat>, refs: seq<nat>, ended: seq<bool>, b: bool)
    requires |ended| < |refs| && L.Distinct(refs)
    ensures refs[|ended|] !in L.SetOf(L.Ended(refs, ended, |ended|))
    ensures var before := inUse - L.SetOf(L.Ended(refs, ended, |ended|));
            inUse - L.SetOf(L.Ended(refs, ended + [b], |ended| + 1))
              == if b then before - {refs[|ended|]} else before
    ensures |L.Ended(refs, ended + [b], |ended| + 1)| == |L.Ended(refs, ended, |ended|)| + if b then 1 else 0
  {
    L.EndedNext(refs, ended, b);
    hide L.Ended, L.Distinct;
  }

  /** One turn, as far as the entries are concerned. */
  method EndOneEntry(shared: seq<SharedEntry>, ghost inUse: set<nat>, refs: seq<nat>, ghost guests: seq<Standing>,
                     ghost ended: seq<bool>, i: nat, xen: Schedule)
    returns (b: bool)
    requires i == |ended| < |refs| && L.Distinct(refs) && Batch(shared, refs, guests, ended)
    requires Matches(inUse - L.SetOf(L.Ended(refs, ended, i)), shared)
    requires L.NR_RESERVED <= refs[i] && refs[i] in inUse && guests[i].guest.Offered? && guests[i].guest.offer.Access?
    modifies shared
    ensures Batch(shared, refs, guests, ended + [b])
    ensures Matches(inUse - L.SetOf(L.Ended(refs, ended + [b], i + 1)), shared)
    ensures |L.Ended(refs, ended + [b], i + 1)| == |L.Ended(refs, ended, i)| + if b then 1 else 0
  {
    assert refs[i] < |shared|;
    hide Matches, Batch, L.Distinct, L.Ended, L.SetOf;
    OneLess(inUse, refs, ended, true);
    b := EndInBatch(shared, inUse - L.SetOf(L.Ended(refs, ended, i)), refs, guests, ended, i, xen);
    OneLess(inUse, refs, ended, b);
  }

  /** One turn of it. */
  method EndOne(t: L.GrantTable, shared: seq<SharedEntry>, refs: seq<nat>, ghost guests: seq<Standing>,
                ghost ended: seq<bool>, i: nat, head: nat, xen: Schedule)
    returns (b: bool, head': nat)
    requires i == |ended| < |refs| && Endable(t, refs, guests) && Collecting(t, shared, refs, guests, ended, head)
    modifies t.entry, shared
    ensures Collecting(t, shared, refs, guests, ended + [b], head')
    ensures |L.Ended(refs, ended + [b], i + 1)| == |L.Ended(refs, ended, i)| + if b then 1 else 0
  {
    hide Matches, Batch, Collected, L.Distinct, L.Ended, L.SetOf, L.GrantTable.InUse;
    b := EndOneEntry(shared, t.InUse(), refs, guests, ended, i, xen);
    head' := Collect(t, refs, ended, i, head, b);
  }

  /** The loop: what can be ended is collected. `count` is how many were. */
  method EndBatch(t: L.GrantTable, shared: seq<SharedEntry>, refs: seq<nat>, xen: seq<Schedule>,
                  ghost guests: seq<Standing>)
    returns (head: nat, count: nat, ghost ended: seq<bool>)
    requires |xen| == |refs| && Endable(t, refs, guests) && Collecting(t, shared, refs, guests, [], L.LIST_END)
    modifies t.entry, shared
    ensures |ended| == |refs| && Collecting(t, shared, refs, guests, ended, head)
    ensures count == |L.Ended(refs, ended, |refs|)|
  {
    L.NothingEnded(refs);
    hide Endable, Collecting, L.Ended;
    var n, i := |refs|, 0;
    head, ended := L.LIST_END, [];
    while i < |refs|
      invariant 0 <= i <= |refs| && |ended| == i && n == |refs| - i + |L.Ended(refs, ended, i)|
      invariant Endable(t, refs, guests) && Collecting(t, shared, refs, guests, ended, head)
      modifies t.entry, shared
    {
      var b;
      b, head := EndOne(t, shared, refs, guests, ended, i, head, xen[i]);
      if !b {
        n := n - 1;
      }
      ended, i := ended + [b], i + 1;
    }
    count := n;
  }

  /** gnttab_end_foreign_access_references. The references that can be ended go on
      the free list, latest first; the others stay with their grants. If the first
      one of the batch is not among the ended ones, what was free is lost. */
  method EndForeignAccessReferences(t: L.GrantTable, shared: seq<SharedEntry>, refs: seq<nat>, xen: seq<Schedule>)
    returns (ghost ended: seq<bool>)
    requires InStep(t, shared) && refs != [] && |xen| == |refs| && L.Distinct(refs)
    requires forall j | 0 <= j < |refs| ::
               refs[j] in t.InUse() && refs[j] < |shared| && IsOffered(shared, refs[j], true)
    modifies t`freeHead, t`freeCount, t`free, t.entry, shared
    ensures |ended| == |refs| && Batch(shared, refs, old(Guests(shared, refs)), ended)
    ensures var done := L.Ended(refs, ended, |refs|);
            && t.Linked() && t.freeCount == old(t.freeCount) + |done|
            && t.free == (if done == [] || ended[0] then done + old(t.free) else done)
            && (InStep(t, shared) ==> t.InUse() == old(t.InUse()) - L.SetOf(done))
            && (InStep(t, shared) <==> done == [] || ended[0] || old(t.free) == [])
  {
    hide Matches, Batch, Collected, Collecting, Endable, Guests, IsOffered, L.IsChain, L.Distinct, L.Ended, L.Successor,
      L.SetOf, L.GrantTable.Valid, L.GrantTable.Linked, L.GrantTable.InUse;
    BatchStarts(t, shared, refs);
    ghost var guests := Guests(shared, refs);
    var head, count;
    head, count, ended := EndBatch(t, shared, refs, xen, guests);
    BatchEnds(t, shared, refs, guests, ended, head);
    if count != 0 {
      t.SpliceBatch(refs, ended, head, refs[0], count);
    }
  }

  lemma BatchEnds(t: L.GrantTable, shared: seq<SharedEntry>, refs: seq<nat>, guests: seq<Standing>, ended: seq<bool>,
                  head: nat)
    requires |ended| == |refs| && Endable(t, refs, guests) && Collecting(t, shared, refs, guests, ended, head)
    ensures t.Valid() && t.Linked() && L.Distinct(refs) && forall r | r in refs :: r in t.InUse()
    ensures var done := L.Ended(refs, ended, |refs|);
            && L.IsChain(t.entry[..], head, done) && Matches(t.InUse() - L.SetOf(done), shared)
            && (done == [] ==> t.InUse() - L.SetOf(done) == t.InUse() && done + t.free == t.free)
    ensures Batch(shared, refs, guests, ended)
  {
    hide Matches, Batch, L.IsChain, L.Ended;
  }

  lemma BatchStarts(t: L.GrantTable, shared: seq<SharedEntry>, refs: seq<nat>)
    requires InStep(t, shared) && L.Distinct(refs)
    requires forall j | 0 <= j < |refs| ::
               refs[j] in t.InUse() && refs[j] < |shared| && IsOffered(shared, refs[j], true)
    ensures Endable(t, refs, Guests(shared, refs))
    ensures Collecting(t, shared, refs, Guests(shared, refs), [], L.LIST_END)
  {
    t.InUseIsInside();
    L.NothingEnded(refs);
    L.EmptyChain(t.entry[..]);
    hide Matches, L.IsChain, L.Distinct, L.Ended, L.Successor;
    assert t.InUse() - L.SetOf([]) == t.InUse();
    assert forall j | 0 <= j < |refs| :: IsOffered(shared, refs[j], true);
  }
}
