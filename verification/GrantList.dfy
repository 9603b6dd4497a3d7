/** The free list of grant references (xen/gnttab.cc): a linked list threaded
    through `gnttab_entry`, from which references and private sublists are taken
    and to which they are returned. */
module GrantList {

  const LIST_END: nat := 0xFFFF_FFFF
  const NR_RESERVED: nat := 8
  const PER_FRAME: nat := 512

  /** Error returns; `WildWrite` is none, but stands for a write outside the table,
      to gnttab_entry(LIST_END), that is next. */
  datatype Error = ENOSPC | ENOMEM | WildWrite
  datatype Result<+T> = Ok(value: T) | Err(error: Error)

  // ---- chains --------------------------------------------------------------

  /** Following `e` from `head` visits exactly `refs`, in order, and then ends. */
  ghost predicate IsChain(e: seq<nat>, head: nat, refs: seq<nat>) {
    && head == (if refs == [] then LIST_END else refs[0])
    && forall i | 0 <= i < |refs| :: refs[i] < |e| && e[refs[i]] == Successor(refs, i)
  }

  function Successor(refs: seq<nat>, i: nat): nat
    requires i < |refs|
  {
    if i + 1 < |refs| then refs[i + 1] else LIST_END
  }

  ghost predicate Distinct(s: seq<nat>) {
    forall i, j | 0 <= i < j < |s| :: s[i] != s[j]
  }

  ghost predicate Within(s: seq<nat>, lo: nat, hi: nat) {
    forall r | r in s :: lo <= r < hi
  }

  ghost predicate Disjoint(a: seq<nat>, b: seq<nat>) {
    forall r | r in a :: r !in b
  }

  function SetOf(s: seq<nat>): set<nat> {
    set r | r in s
  }

  /** The references `lo`, `lo + 1`, ..., `hi - 1`. */
  function Range(lo: nat, hi: nat): (s: seq<nat>)
    requires lo <= hi
    ensures |s| == hi - lo
  {
    seq(hi - lo, i requires 0 <= i => lo + i)
  }

  lemma RangeMembers(lo: nat, hi: nat)
    requires lo <= hi
    ensures Distinct(Range(lo, hi)) && forall r :: r in Range(lo, hi) <==> lo <= r < hi
  {
    forall r | lo <= r < hi
      ensures r in Range(lo, hi)
    {
      assert Range(lo, hi)[r - lo] == r;
    }
  }

  lemma RangeLast(lo: nat, hi: nat)
    requires lo < hi
    ensures Range(lo, hi)[hi - lo - 1] == hi - 1
  {
  }

  /** Entries that each point at the next one, the last one ending the list. */
  lemma RangeIsChain(e: seq<nat>, lo: nat, hi: nat)
    requires lo < hi <= |e| && e[hi - 1] == LIST_END
    requires forall k | lo <= k < hi - 1 :: e[k] == k + 1
    ensures IsChain(e, lo, Range(lo, hi))
  {
  }

  lemma DistinctJoin(a: seq<nat>, b: seq<nat>)
    requires Distinct(a) && Distinct(b) && Disjoint(a, b)
    ensures Distinct(a + b)
  {
    forall i, j | 0 <= i < j < |a + b|
      ensures (a + b)[i] != (a + b)[j]
    {
      if i < |a| <= j {
        assert a[i] in a && b[j - |a|] in b;
      }
    }
  }

  lemma DistinctCut(a: seq<nat>, b: seq<nat>)
    requires Distinct(a + b)
    ensures Distinct(a) && Distinct(b) && Disjoint(a, b)
  {
    assert forall i | 0 <= i < |a| :: (a + b)[i] == a[i];
    assert forall j | 0 <= j < |b| :: (a + b)[|a| + j] == b[j];
  }

  /** The loop that threads a stretch of fresh entries. */
  method ThreadEntries(entry: array<nat>, lo: nat, hi: nat)
    requires lo < hi <= entry.Length
    modifies entry
    ensures forall k | lo <= k < hi - 1 :: entry[k] == k + 1
    ensures forall k | 0 <= k < entry.Length && !(lo <= k < hi - 1) :: entry[k] == old(entry[k])
  {
    var i := lo;
    while i < hi - 1
      invariant lo <= i < hi
      invariant forall k | lo <= k < i :: entry[k] == k + 1
      invariant forall k | 0 <= k < entry.Length && !(lo <= k < i) :: entry[k] == old(entry[k])
    {
      entry[i] := i + 1;
      i := i + 1;
    }
  }

  /** The chain that hangs on a head is determined by the links. */
  lemma {:induction false} ChainUnique(e: seq<nat>, head: nat, a: seq<nat>, b: seq<nat>)
    requires |e| <= LIST_END && IsChain(e, head, a) && IsChain(e, head, b)
    ensures a == b
    decreases |a|
  {
    if a != [] && b != [] {
      ChainTail(e, head, a);
      ChainTail(e, head, b);
      ChainUnique(e, e[head], a[1..], b[1..]);
    }
  }

  lemma ChainTail(e: seq<nat>, head: nat, refs: seq<nat>)
    requires refs != [] && IsChain(e, head, refs)
    ensures head < |e| && IsChain(e, e[head], refs[1..])
  {
    assert e[refs[0]] == Successor(refs, 0);
    forall i | 0 <= i < |refs| - 1
      ensures refs[1..][i] < |e| && e[refs[1..][i]] == Successor(refs[1..], i)
    {
      assert e[refs[i + 1]] == Successor(refs, i + 1);
    }
  }

  /** A chain does not notice writes to other entries. */
  lemma ChainFrame(e: seq<nat>, e': seq<nat>, head: nat, refs: seq<nat>)
    requires IsChain(e, head, refs) && |e| <= |e'|
    requires forall r | r in refs && r < |e| :: e'[r] == e[r]
    ensures IsChain(e', head, refs)
  {
    forall i | 0 <= i < |refs|
      ensures refs[i] < |e'| && e'[refs[i]] == Successor(refs, i)
    {
      assert refs[i] in refs;
    }
  }

  /** Pointing the last entry of one chain at the head of another joins them. */
  lemma ChainJoin(e: seq<nat>, a: seq<nat>, b: seq<nat>, ha: nat, hb: nat)
    requires IsChain(e, ha, a) && IsChain(e, hb, b) && a != []
    requires Distinct(a) && Disjoint(a, b)
    ensures IsChain(e[a[|a| - 1] := hb], ha, a + b)
  {
    var last, e' := a[|a| - 1], e[a[|a| - 1] := hb];
    assert e[last] == Successor(a, |a| - 1);
    forall i | 0 <= i < |a + b|
      ensures (a + b)[i] < |e'| && e'[(a + b)[i]] == Successor(a + b, i)
    {
      if i < |a| {
        assert e[a[i]] == Successor(a, i);
      } else {
        var j := i - |a|;
        assert e[b[j]] == Successor(b, j) && b[j] in b;
      }
    }
  }

  lemma EmptyChain(e: seq<nat>)
    ensures IsChain(e, LIST_END, [])
  {
  }

  /** Pushing one entry on a chain. */
  lemma ChainPush(e: seq<nat>, head: nat, refs: seq<nat>, r: nat)
    requires IsChain(e, head, refs) && r < |e| && r !in refs
    ensures IsChain(e[r := head], r, [r] + refs)
  {
    var e' := e[r := head];
    forall i | 0 <= i < |refs| + 1
      ensures ([r] + refs)[i] < |e'| && e'[([r] + refs)[i]] == Successor([r] + refs, i)
    {
      if i > 0 {
        assert e[refs[i - 1]] == Successor(refs, i - 1) && refs[i - 1] in refs;
      }
    }
  }

  /** Cutting a chain after `k` entries leaves two. */
  lemma ChainCut(e: seq<nat>, refs: seq<nat>, head: nat, k: nat)
    requires IsChain(e, head, refs) && Distinct(refs) && 1 <= k <= |refs|
    ensures IsChain(e[refs[k - 1] := LIST_END], head, refs[..k])
    ensures e[refs[k - 1]] == Successor(refs, k - 1)
    ensures IsChain(e[refs[k - 1] := LIST_END], Successor(refs, k - 1), refs[k..])
  {
    var e' := e[refs[k - 1] := LIST_END];
    forall i | 0 <= i < k
      ensures refs[..k][i] < |e'| && e'[refs[..k][i]] == Successor(refs[..k], i)
    {
      assert e[refs[i]] == Successor(refs, i);
    }
    forall i | 0 <= i < |refs| - k
      ensures refs[k..][i] < |e'| && e'[refs[k..][i]] == Successor(refs[k..], i)
    {
      assert e[refs[k + i]] == Successor(refs, k + i);
    }
  }

  /** Fresh entries threaded in front of a list whose entries lie below them. */
  lemma ChainGrow(e: seq<nat>, e': seq<nat>, head: nat, refs: seq<nat>, lo: nat, hi: nat)
    requires |e| == |e'| && lo < hi <= |e|
    requires IsChain(e, head, refs) && Distinct(refs) && forall r | r in refs :: r < lo
    requires forall k | 0 <= k < lo :: e'[k] == e[k]
    requires forall k | lo <= k < hi - 1 :: e'[k] == k + 1
    requires e'[hi - 1] == head
    ensures IsChain(e', lo, Range(lo, hi) + refs)
    ensures Distinct(Range(lo, hi) + refs)
  {
    hide IsChain, Distinct, Range;
    var added, cut := Range(lo, hi), e'[hi - 1 := LIST_END];
    RangeIsChain(cut, lo, hi);
    ChainFrame(e, cut, head, refs);
    RangeMembers(lo, hi);
    ChainJoin(cut, added, refs, lo, head);
    DistinctJoin(added, refs);
    RangeLast(lo, hi);
    assert cut[added[|added| - 1] := head] == e';
  }

  /** The references of a batch that could be ended, latest first: the list that
      gnttab_end_foreign_access_references builds from the first `k`. */
  function Ended(refs: seq<nat>, ended: seq<bool>, k: nat): seq<nat>
    requires k <= |ended| <= |refs|
  {
    if k == 0 then []
    else if ended[k - 1] then [refs[k - 1]] + Ended(refs, ended, k - 1)
    else Ended(refs, ended, k - 1)
  }

  /** It holds exactly the ended ones, each once, and ends with the first of the
      batch if that one was ended. */
  lemma {:induction false} EndedMembers(refs: seq<nat>, ended: seq<bool>, k: nat)
    requires k <= |ended| <= |refs| && Distinct(refs)
    ensures Distinct(Ended(refs, ended, k))
    ensures forall r :: r in Ended(refs, ended, k) <==> exists i | 0 <= i < k :: ended[i] && refs[i] == r
    ensures forall r | r in Ended(refs, ended, k) :: r in refs
    ensures k > 0 && !ended[0] ==> refs[0] !in Ended(refs, ended, k)
    ensures k > 0 && ended[0] ==>
              Ended(refs, ended, k) != [] && Ended(refs, ended, k)[|Ended(refs, ended, k)| - 1] == refs[0]
  {
    if k > 0 {
      EndedMembers(refs, ended, k - 1);
      assert refs[k - 1] !in Ended(refs, ended, k - 1);
    }
  }

  lemma NothingEnded(refs: seq<nat>)
    ensures Ended(refs, [], 0) == [] && SetOf([]) == {}
  {
  }

  /** What comes later in the batch does not matter. */
  lemma {:induction false} EndedSoFar(refs: seq<nat>, ended: seq<bool>, b: bool, k: nat)
    requires k <= |ended| < |refs|
    ensures Ended(refs, ended + [b], k) == Ended(refs, ended, k)
    decreases k
  {
    if k > 0 {
      EndedSoFar(refs, ended, b, k - 1);
      assert (ended + [b])[k - 1] == ended[k - 1];
    }
  }

  /** The next reference of the batch: not on the list yet, and then on it or not. */
  lemma EndedNext(refs: seq<nat>, ended: seq<bool>, b: bool)
    requires |ended| < |refs| && Distinct(refs)
    ensures var done, next := Ended(refs, ended, |ended|), refs[|ended|];
            && next !in done && Ended(refs, ended + [b], |ended| + 1) == (if b then [next] + done else done)
            && SetOf([next] + done) == {next} + SetOf(done)
  {
    EndedMembers(refs, ended, |ended|);
    EndedSoFar(refs, ended, b, |ended|);
  }

  // ---- the table -----------------------------------------------------------

  /** The least number of frames that hold `req` references. */
  function FramesFor(req: nat): (n: nat)
    ensures (n as int - 1) * PER_FRAME < req <= n * PER_FRAME
  {
    (req + (PER_FRAME - 1)) / PER_FRAME
  }

  class GrantTable {
    /** `gnttab_entry`, as one flat array with room for every frame Xen allows. */
    const entry: array<nat>
    const bootMaxFrames: nat
    var frames: nat
    var freeHead: nat
    var freeCount: int
    /** The references on the free list, in order. */
    ghost var free: seq<nat>

    /** The list is well linked: acyclic, ended, over unreserved references. */
    ghost predicate Linked()
      reads this, entry
    {
      && entry.Length == bootMaxFrames * PER_FRAME < 0x8000_0000
      && 1 <= frames <= bootMaxFrames
      && IsChain(entry[..], freeHead, free)
      && Distinct(free) && Within(free, NR_RESERVED, frames * PER_FRAME)
    }

    /** ... and the count is right. */
    ghost predicate Valid()
      reads this, entry
    {
      Linked() && |free| == freeCount
    }

    /** The references handed out: all others that are not reserved. */
    ghost function InUse(): set<nat>
      reads this
    {
      set r | NR_RESERVED <= r < frames * PER_FRAME && r !in free
    }

    /** A list of handed-out references that a caller holds by its head. */
    ghost predicate Private(head: nat, refs: seq<nat>)
      reads this, entry
    {
      IsChain(entry[..], head, refs) && Distinct(refs) && forall r | r in refs :: r in InUse()
    }

    /** gnttab_init: one frame, all of it free but the reserved entries. There are no
        more references than the count, an `int`, can count. */
    constructor (bootMax: nat)
      requires 1 <= bootMax && bootMax * PER_FRAME < 0x8000_0000
      ensures Valid() && fresh(entry) && bootMaxFrames == bootMax && frames == 1
      ensures free == Range(NR_RESERVED, PER_FRAME) && InUse() == {}
    {
      bootMaxFrames := bootMax;
      frames := 1;
      entry := new nat[bootMax * PER_FRAME](_ => 0);
      freeHead, freeCount := NR_RESERVED, PER_FRAME - NR_RESERVED;
      free := Range(NR_RESERVED, PER_FRAME);
      new;
      ThreadEntries(entry, NR_RESERVED, PER_FRAME);
      entry[PER_FRAME - 1] := LIST_END;
      RangeIsChain(entry[..], NR_RESERVED, PER_FRAME);
      RangeMembers(NR_RESERVED, PER_FRAME);
    }

    /** put_free_entry. */
    method PutFreeEntry(ref: nat)
      requires Valid() && ref in InUse()
      modifies this`freeHead, this`freeCount, this`free, entry
      ensures Valid()
      ensures free == [ref] + old(free) && InUse() == old(InUse()) - {ref}
      ensures forall r | 0 <= r < entry.Length && r != ref :: entry[r] == old(entry[r])
    {
      ghost var e := entry[..];
      entry[ref] := freeHead;
      freeHead := ref;
      freeCount := freeCount + 1;
      free := [ref] + free;
      assert entry[..] == e[ref := old(freeHead)];
      ChainPush(e, old(freeHead), old(free), ref);
    }

    /** The last entry of a list, and how many there are. */
    method WalkToEnd(head: nat, ghost refs: seq<nat>) returns (ref: nat, count: nat)
      requires IsChain(entry[..], head, refs) && refs != [] && entry.Length <= LIST_END
      ensures ref == refs[|refs| - 1] && count == |refs|
    {
      ghost var e := entry[..];
      ref, count := head, 1;
      assert e[refs[0]] == Successor(refs, 0);
      while entry[ref] != LIST_END
        invariant 1 <= count <= |refs| && ref == refs[count - 1]
        invariant ref < entry.Length && entry[ref] == Successor(refs, count - 1)
        decreases |refs| - count
      {
        ref := entry[ref];
        count := count + 1;
        assert e[refs[count - 1]] == Successor(refs, count - 1);
      }
    }

    /** gnttab_free_grant_references: walks a private list to its last entry and
        puts the whole list in front of the free ones. */
    method FreeGrantReferences(head: nat, ghost refs: seq<nat>)
      requires Valid() && Private(head, refs)
      modifies this`freeHead, this`freeCount, this`free, entry
      ensures Valid()
      ensures free == refs + old(free) && InUse() == old(InUse()) - SetOf(refs)
      ensures forall r | 0 <= r < entry.Length && r !in refs :: entry[r] == old(entry[r])
    {
      if head == LIST_END {
        assert refs == [] && [] + free == free;
        return;
      }
      ghost var e := entry[..];
      var ref, count := WalkToEnd(head, refs);
      assert ref in refs;
      assert e[refs[|refs| - 1]] == Successor(refs, |refs| - 1);
      ChainJoin(e, refs, free, head, freeHead);
      DistinctJoin(refs, free);
      entry[ref] := freeHead;
      freeHead := head;
      freeCount := freeCount + count;
      free := refs + free;
      assert entry[..] == e[refs[|refs| - 1] := old(freeHead)];
    }

    /** gnttab_claim_grant_reference: takes the first reference off a private list. */
    method ClaimGrantReference(head: nat, ghost refs: seq<nat>) returns (g: nat, head': nat)
      requires Valid() && Private(head, refs)
      ensures refs == [] ==> g == LIST_END && head' == head
      ensures refs != [] ==> g == refs[0] && g in InUse() && Private(head', refs[1..]) && g !in refs[1..]
    {
      g, head' := head, head;
      if g == LIST_END { return; }
      ChainTail(entry[..], head, refs);
      head' := entry[g];
    }

    /** gnttab_release_grant_reference: puts a reference back on a private list. */
    method ReleaseGrantReference(head: nat, release: nat, ghost refs: seq<nat>) returns (head': nat)
      requires Valid() && Private(head, refs)
      requires release in InUse() && release !in refs
      modifies entry
      ensures Valid() && free == old(free)
      ensures Private(head', [release] + refs)
      ensures forall r | 0 <= r < entry.Length && r != release :: entry[r] == old(entry[r])
    {
      ghost var e := entry[..];
      entry[release] := head;
      head' := release;
      assert entry[..] == e[release := head];
      ChainPush(e, head, refs, release);
      ChainFrame(e, entry[..], freeHead, free);
    }

    /** The new frames of grow_gnttab_list, once there is memory for them. */
    method AddFrames(more: nat)
      requires Valid() && 1 <= more && frames + more <= bootMaxFrames
      modifies this`frames, this`freeHead, this`freeCount, this`free, entry
      ensures Valid() && frames == old(frames) + more
      ensures free == Range(old(frames) * PER_FRAME, frames * PER_FRAME) + old(free)
      ensures forall k | 0 <= k < old(frames) * PER_FRAME :: entry[k] == old(entry[k])
    {
      hide IsChain, Distinct, Range;
      var first, end := frames * PER_FRAME, (frames + more) * PER_FRAME;
      ThreadEntries(entry, first, end);
      entry[end - 1] := freeHead;
      ChainGrow(old(entry[..]), entry[..], freeHead, free, first, end);
      RangeMembers(first, end);
      freeHead := first;
      freeCount := freeCount + more * PER_FRAME;
      frames := frames + more;
      free := Range(first, end) + free;
    }

    /** grow_gnttab_list: threads the references of `more` new frames in front of
        the free ones, unless a page for them cannot be had. */
    method GrowGnttabList(more: nat, noMemory: bool) returns (r: Result<()>)
      requires Valid() && 1 <= more && frames + more <= bootMaxFrames
      modifies this`frames, this`freeHead, this`freeCount, this`free, entry
      ensures r == if noMemory then Err(ENOMEM) else Ok(())
      ensures Valid() && InUse() == old(InUse()) && frames == old(frames) + if noMemory then 0 else more
      ensures free == Range(old(frames) * PER_FRAME, frames * PER_FRAME) + old(free)
      ensures forall k | 0 <= k < old(frames) * PER_FRAME :: entry[k] == old(entry[k])
    {
      if noMemory {
        assert Range(frames * PER_FRAME, frames * PER_FRAME) == [];
        return Err(ENOMEM);
      }
      AddFrames(more);
      RangeMembers(old(frames) * PER_FRAME, frames * PER_FRAME);
      return Ok(());
    }

    /** gnttab_expand: enough frames for `req` more references, if Xen's limit,
        capped by the one at boot, allows them. */
    method Expand(req: nat, xenMaxFrames: nat, noMemory: bool) returns (r: Result<()>)
      requires Valid() && 1 <= req
      modifies this`frames, this`freeHead, this`freeCount, this`free, entry
      ensures Valid() && InUse() == old(InUse())
      ensures frames == old(frames) + if r.Ok? then FramesFor(req) else 0
      ensures r == if old(frames) + FramesFor(req) > MaxFrames(xenMaxFrames) then Err(ENOSPC)
                   else if noMemory then Err(ENOMEM) else Ok(())
      ensures free == Range(old(frames) * PER_FRAME, frames * PER_FRAME) + old(free)
      ensures forall k | 0 <= k < old(frames) * PER_FRAME :: entry[k] == old(entry[k])
    {
      hide IsChain, Distinct, Range;
      var extra := FramesFor(req);
      if frames + extra > MaxFrames(xenMaxFrames) {
        assert Range(frames * PER_FRAME, frames * PER_FRAME) == [];
        return Err(ENOSPC);
      }
      r := GrowGnttabList(extra, noMemory);
    }

    /** max_nr_grant_frames. */
    function MaxFrames(xenMaxFrames: nat): (m: nat)
      ensures m <= bootMaxFrames && m <= xenMaxFrames && m in {bootMaxFrames, xenMaxFrames}
    {
      if xenMaxFrames > bootMaxFrames then bootMaxFrames else xenMaxFrames
    }

    /** The `k`-th entry of a list. */
    method WalkTo(head: nat, ghost refs: seq<nat>, k: nat) returns (ref: nat)
      requires IsChain(entry[..], head, refs) && 1 <= k <= |refs|
      ensures ref == refs[k - 1] && ref < entry.Length
    {
      ghost var e := entry[..];
      ref := head;
      var left := k;
      assert e[refs[0]] == Successor(refs, 0);
      while left > 1
        invariant 1 <= left <= k && ref == refs[k - left] && ref < entry.Length
      {
        assert e[refs[k - left]] == Successor(refs, k - left);
        ref := entry[ref];
        left := left - 1;
        assert e[refs[k - left]] == Successor(refs, k - left);
      }
    }

    /** Cuts `max(count, 1)` references off the free list and charges `count`. */
    method TakeFree(count: nat) returns (ref: nat, ghost taken: seq<nat>)
      requires Valid() && count <= |free| && free != []
      modifies this`freeHead, this`freeCount, this`free, entry
      ensures Linked() && |taken| == (if count == 0 then 1 else count) && taken + free == old(free)
      ensures Private(ref, taken) && freeCount == old(freeCount) - count
      ensures forall r | 0 <= r < entry.Length && r !in taken :: entry[r] == old(entry[r])
    {
      hide IsChain, Distinct, Successor;
      ghost var e, k := entry[..], if count == 0 then 1 else count;
      ref := freeHead;
      var head := WalkTo(freeHead, free, if count == 0 then 1 else count);
      ChainCut(e, free, freeHead, k);
      taken := free[..k];
      assert taken[k - 1] == head && taken + free[k..] == free;
      DistinctCut(taken, free[k..]);
      freeCount := freeCount - count;
      freeHead := entry[head];
      entry[head] := LIST_END;
      assert entry[..] == e[free[k - 1] := LIST_END];
      free := free[k..];
      assert forall r | r in taken || r in free :: r in taken + free;
      assert IsChain(entry[..], freeHead, free);
    }

    /** get_free_entries: grows the table if it has to. Asking for nothing takes
        one reference off the list without counting it, or if there is none writes
        outside the table. */
    method GetFreeEntries(count: nat, xenMaxFrames: nat, noMemory: bool)
      returns (r: Result<nat>, ghost taken: seq<nat>)
      requires Valid()
      modifies this`frames, this`freeHead, this`freeCount, this`free, entry
      ensures r.Err? ==> Valid() && free == old(free) && frames == old(frames)
      ensures r == Err(WildWrite) <==> count == 0 && old(free) == []
      ensures r == Err(ENOSPC) <==>
        old(freeCount) < count && old(frames) + FramesFor(count - old(freeCount)) > MaxFrames(xenMaxFrames)
      ensures r == Err(ENOMEM) <==>
        old(freeCount) < count && old(frames) + FramesFor(count - old(freeCount)) <= MaxFrames(xenMaxFrames) && noMemory
      ensures r.Ok? ==> Linked() && Private(r.value, taken) && |taken| == if count == 0 then 1 else count
      ensures r.Ok? ==>
        frames == old(frames) + if old(freeCount) < count then FramesFor(count - old(freeCount)) else 0
      ensures frames >= old(frames)
      ensures r.Ok? ==> taken + free == Range(old(frames) * PER_FRAME, frames * PER_FRAME) + old(free)
      ensures r.Ok? ==> InUse() == old(InUse()) + SetOf(taken) && old(InUse()) !! SetOf(taken)
      ensures r.Ok? ==> (Valid() <==> count >= 1)
      ensures forall k | 0 <= k < old(frames) * PER_FRAME && k !in taken :: entry[k] == old(entry[k])
    {
      hide IsChain, Distinct, Range;
      taken := [];
      assert Range(frames * PER_FRAME, frames * PER_FRAME) + free == free;
      if freeCount < count {
        var grown := Expand(count - freeCount, xenMaxFrames, noMemory);
        if grown.Err? { return Err(grown.error), []; }
      }
      HeadOfEmpty();
      if freeHead == LIST_END {
        return Err(WildWrite), [];
      }
      var ref;
      ref, taken := TakeFree(count);
      RangeMembers(old(frames) * PER_FRAME, frames * PER_FRAME);
      assert forall x | x in taken :: x in taken + free;
      return Ok(ref), taken;
    }

    lemma OneTaken(ref: nat, taken: seq<nat>)
      requires Private(ref, taken) && |taken| == 1
      ensures taken == [ref] && SetOf(taken) == {ref} && ref in InUse()
    {
      assert taken[0] in taken;
    }

    lemma OneFrame()
      ensures FramesFor(1) == 1
    {
    }

    lemma NoRange()
      ensures Range(frames * PER_FRAME, frames * PER_FRAME) == []
    {
    }

    lemma InUseIsInside()
      requires Valid()
      ensures forall r | r in InUse() :: NR_RESERVED <= r < entry.Length
    {
    }

    /** The head tells whether the list is empty. */
    lemma HeadOfEmpty()
      requires Linked()
      ensures freeHead == LIST_END <==> free == []
    {
      if free != [] {
        assert free[0] in free;
      }
    }

    /** Adds one ended reference to the list being collected. */
    method PushEnded(refs: seq<nat>, ghost ended: seq<bool>, i: nat, head: nat)
      requires Valid() && i <= |ended| <= |refs| && i < |refs| && Distinct(refs) && refs[i] in InUse()
      requires IsChain(entry[..], head, Ended(refs, ended, i))
      modifies entry
      ensures Valid() && IsChain(entry[..], refs[i], [refs[i]] + Ended(refs, ended, i))
      ensures forall r | 0 <= r < entry.Length && r != refs[i] :: entry[r] == old(entry[r])
    {
      ghost var e := entry[..];
      EndedMembers(refs, ended, i);
      hide IsChain, Successor, Ended;
      entry[refs[i]] := head;
      assert entry[..] == e[refs[i] := head];
      ChainPush(e, head, Ended(refs, ended, i), refs[i]);
      ChainFrame(e, entry[..], freeHead, free);
    }

    /** The end of a batch: the list at `head` is spliced in front of the free one by
        its supposed last entry, the first reference of the batch. If that was not
        ended, the old free list is lost. */
    method SpliceBatch(ghost refs: seq<nat>, ghost ended: seq<bool>, head: nat, tail: nat, count: nat)
      requires Valid() && refs != [] && |ended| == |refs| && tail == refs[0]
      requires Distinct(refs) && forall r | r in refs :: r in InUse()
      requires IsChain(entry[..], head, Ended(refs, ended, |refs|))
      requires count == |Ended(refs, ended, |refs|)| > 0
      modifies this`freeHead, this`freeCount, this`free, entry
      ensures Linked() && freeCount == old(freeCount) + count
      ensures free == Ended(refs, ended, |refs|) + if ended[0] then old(free) else []
      ensures Valid() <==> ended[0] || old(free) == []
      ensures Valid() ==> InUse() == old(InUse()) - SetOf(Ended(refs, ended, |refs|))
      ensures forall r | 0 <= r < entry.Length && r !in refs :: entry[r] == old(entry[r])
    {
      hide IsChain, Distinct, Successor, Ended;
      ghost var e, done := entry[..], Ended(refs, ended, |refs|);
      EndedMembers(refs, ended, |refs|);
      assert tail in refs;
      if ended[0] {
        ChainJoin(e, done, free, head, freeHead);
        DistinctJoin(done, free);
      } else {
        assert tail !in done;
        ChainFrame(e, e[tail := freeHead], head, done);
      }
      freeCount := freeCount + count;
      entry[tail] := freeHead;
      freeHead := head;
      assert entry[..] == e[tail := old(freeHead)];
      assert done + [] == done;
      free := done + if ended[0] then free else [];
    }
  }

  // ---- conservation --------------------------------------------------------

  lemma {:induction false} DistinctSize(s: seq<nat>)
    requires Distinct(s)
    ensures |SetOf(s)| == |s|
  {
    if s != [] {
      var init, last := s[..|s| - 1], s[|s| - 1];
      DistinctSize(init);
      assert last !in SetOf(init) && SetOf(s) == SetOf(init) + {last};
    }
  }

  /** No reference is lost or invented: in every valid state the count and the
      references handed out add up to the unreserved entries of the table. */
  lemma Conservation(t: GrantTable)
    requires t.Valid()
    ensures t.freeCount + |t.InUse()| == t.frames * PER_FRAME - NR_RESERVED
  {
    var all := Range(NR_RESERVED, t.frames * PER_FRAME);
    RangeMembers(NR_RESERVED, t.frames * PER_FRAME);
    DistinctSize(all);
    DistinctSize(t.free);
    assert t.InUse() == SetOf(all) - SetOf(t.free) && SetOf(t.free) <= SetOf(all);
  }

  /** A wrong count cannot be explained away by another reading of the links. */
  lemma CountIsWrong(t: GrantTable, refs: seq<nat>)
    requires t.Linked() && !t.Valid() && IsChain(t.entry[..], t.freeHead, refs)
    ensures |refs| != t.freeCount
  {
    ChainUnique(t.entry[..], t.freeHead, t.free, refs);
  }
}
