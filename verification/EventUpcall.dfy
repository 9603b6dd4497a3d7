/** evtchn_do_upcall (xen/evtchn.cc:216-256) as the loop it is, on the shared words
    of one CPU, while nobody else touches them. The interleaved case is the
    subject of `EventDelivery`; here the concern is what one upcall accomplishes. */
module EventUpcall {

  /** Bits of a shared word, an unsigned long, ... */
  const LONG_BIT := 64
  /** ... and of the unsigned int that the upcall holds it in. */
  const LOCAL_BIT := 32
  const PORTS := LONG_BIT * LONG_BIT

  class SharedInfo {
    const pending: array<bool>    // evtchn_pending, by port
    const mask: array<bool>       // evtchn_mask, by port
    var selector: seq<bool>       // evtchn_pending_sel, by word
    var upcallPending: bool

    ghost predicate Valid()
      reads this
    {
      && pending != mask && pending.Length == mask.Length == PORTS && |selector| == LONG_BIT
    }

    constructor ()
      ensures Valid() && fresh(pending) && fresh(mask) && !upcallPending
      ensures forall p | 0 <= p < PORTS :: !pending[p] && mask[p]
      ensures forall w | 0 <= w < LONG_BIT :: !selector[w]
    {
      pending := new bool[PORTS](_ => false);
      mask := new bool[PORTS](_ => true);
      selector := seq(LONG_BIT, _ => false);
      upcallPending := false;
    }

    /** __ffs of the active word that starts at port `base`, as far as the local
        holds it; `LOCAL_BIT` if that is 0. */
    method FirstActive(mine: seq<bool>, base: nat) returns (i: nat)
      requires Valid() && |mine| == PORTS && base + LOCAL_BIT <= PORTS
      ensures i <= LOCAL_BIT && (i < LOCAL_BIT ==> IsActive(pending[..], mask[..], mine, base + i))
      ensures forall k | base <= k < base + i :: !IsActive(pending[..], mask[..], mine, k)
    {
      i := 0;
      while i < LOCAL_BIT && !(pending[base + i] && mine[base + i] && !mask[base + i])
        invariant 0 <= i <= LOCAL_BIT
        invariant forall k | base <= k < base + i :: !IsActive(pending[..], mask[..], mine, k)
      {
        i := i + 1;
      }
    }

    /** xen_xchg of the selector with 0: all bits are taken, the local keeps those
        that fit. */
    method TakeSelector() returns (l1: seq<bool>)
      requires Valid()
      modifies this`selector
      ensures Valid() && l1 == old(selector)[..LOCAL_BIT] && forall k | 0 <= k < LONG_BIT :: !selector[k]
    {
      l1 := selector[..LOCAL_BIT];
      selector := seq(LONG_BIT, _ => false);
    }

    /** unmask_evtchn. For a port of this CPU, the edge of an event that arrived while
        the port was masked is made up for here. For one of another CPU Xen is asked to
        unmask it, which touches that CPU's selector and flag, but none of these. */
    method UnmaskEvtchn(port: nat, isLocal: bool) returns (xenAsked: bool)
      requires Valid() && port < PORTS
      modifies mask, this`selector, this`upcallPending
      ensures Valid() && mask[..] == old(mask[..])[port := false] && xenAsked == !isLocal
      ensures selector == if isLocal && pending[port] then old(selector)[port / LONG_BIT := true] else old(selector)
      ensures upcallPending
           == (old(upcallPending) || (isLocal && pending[port] && !old(selector)[port / LONG_BIT]))
    {
      mask[port] := false;
      if !isLocal { return true; }
      xenAsked := false;
      if pending[port] {
        var wasSet := selector[port / LONG_BIT];
        selector := selector[port / LONG_BIT := true];
        if !wasSet {
          upcallPending := true;
        }
      }
    }
  }

  /** active_evtchns: a port's bit in the word for a CPU that looks at `mine`. */
  predicate IsActive(pending: seq<bool>, mask: seq<bool>, mine: seq<bool>, p: nat)
    requires p < |pending| == |mask| == |mine|
  {
    pending[p] && mine[p] && !mask[p]
  }

  /** __ffs: the lowest set bit, or the length if none is set. */
  function Ffs(bits: seq<bool>): (i: nat)
    ensures i <= |bits| && (i < |bits| ==> bits[i]) && forall k | 0 <= k < i :: !bits[k]
  {
    if bits == [] || bits[0] then 0
    else
      var i := Ffs(bits[1..]);
      assert forall k | 1 <= k < i + 1 :: bits[k] == bits[1..][k - 1];
      i + 1
  }

  /** The words of one CPU. */
  datatype Words = Words(pending: seq<bool>, mask: seq<bool>, selector: seq<bool>, mine: seq<bool>)

  predicate Shape(t: Words) {
    |t.pending| == |t.mask| == |t.mine| == PORTS && |t.selector| == LONG_BIT
  }

  /** A port whose word and whose bit in it fit the locals. */
  predicate Seen(p: nat) {
    p / LONG_BIT < LOCAL_BIT && p % LONG_BIT < LOCAL_BIT
  }

  /** The ports one upcall delivers: in a selected word, pending, unmasked, looked at
      by this CPU, and seen. */
  predicate Due(t: Words, p: nat)
    requires Shape(t) && p < PORTS
  {
    Seen(p) && t.selector[p / LONG_BIT] && IsActive(t.pending, t.mask, t.mine, p)
  }

  /** Every due port from `from` up to `upTo` is mapped to an IRQ. */
  ghost predicate Mapped(t: Words, evtchnToIrq: seq<int>, from: nat, upTo: nat)
    requires Shape(t) && |evtchnToIrq| == PORTS
  {
    forall p | from <= p < upTo && p < PORTS && Due(t, p) :: evtchnToIrq[p] != -1
  }

  /** The state when exactly the due ports below `upTo` have been delivered. */
  ghost predicate Delivered(t: Words, upTo: nat, pending: seq<bool>, mask: seq<bool>, handled: seq<nat>)
    requires Shape(t)
  {
    && |pending| == |mask| == PORTS
    && (forall p | 0 <= p < PORTS ::
          var hit := p < upTo && Due(t, p);
          pending[p] == (t.pending[p] && !hit) && mask[p] == (t.mask[p] || hit))
    && (forall p :: p in handled <==> 0 <= p < upTo && p < PORTS && Due(t, p))
    && (forall i, j | 0 <= i < j < |handled| :: handled[i] < handled[j])
  }

  /** The upcall, watched for `turns` turns of its inner loop. `handled` lists the
      ports whose handlers ran, in order. A due port that is mapped to no IRQ is
      passed over without being masked, so its word never becomes 0: the upcall
      ends if and only if every due port is mapped. */
  method EvtchnDoUpcall(s: SharedInfo, mine: seq<bool>, evtchnToIrq: seq<int>, turns: nat)
    returns (handled: seq<nat>, ended: bool)
    requires s.Valid() && |mine| == |evtchnToIrq| == PORTS
    modifies s, s.pending, s.mask
    ensures s.Valid() && !s.upcallPending && forall k | 0 <= k < LONG_BIT :: !s.selector[k]
    ensures var t := Words(old(s.pending[..]), old(s.mask[..]), old(s.selector), mine);
            && (turns >= LOCAL_BIT * LOCAL_BIT ==> (ended <==> Mapped(t, evtchnToIrq, 0, PORTS)))
            && (ended ==> Mapped(t, evtchnToIrq, 0, PORTS) && Delivered(t, PORTS, s.pending[..], s.mask[..], handled))
            && (!ended ==> exists q :: Delivered(t, q, s.pending[..], s.mask[..], handled))
  {
    ghost var t := Words(s.pending[..], s.mask[..], s.selector, mine);
    s.upcallPending := false;
    var l1 := s.TakeSelector();
    handled := [];
    var left: nat := turns;
    ghost var done := 0;
    while Ffs(l1) < |l1|
      invariant s.Valid() && |l1| == LOCAL_BIT && done <= LOCAL_BIT && left <= turns && !s.upcallPending
      invariant forall k | 0 <= k < |l1| :: l1[k] == (t.selector[k] && k >= done)
      invariant forall k | 0 <= k < LONG_BIT :: !s.selector[k]
      invariant Delivered(t, done * LONG_BIT, s.pending[..], s.mask[..], handled)
      invariant Mapped(t, evtchnToIrq, 0, done * LONG_BIT)
      invariant Mapped(t, evtchnToIrq, 0, PORTS) ==> turns - left <= LOCAL_BIT * done
      decreases |l1| - done
    {
      var l1i := Ffs(l1);
      l1 := l1[l1i := false];
      SkipWords(t, evtchnToIrq, done, l1i, s.pending[..], s.mask[..], handled);
      var complete;
      handled, left, complete := DrainWord(s, mine, evtchnToIrq, l1i, handled, left, t);
      if !complete { return handled, false; }
      done := l1i + 1;
    }
    SkipWords(t, evtchnToIrq, done, LONG_BIT, s.pending[..], s.mask[..], handled);
    ended := true;
  }

  /** Words that are not selected, or not seen, have nothing due. */
  lemma SkipWords(t: Words, evtchnToIrq: seq<int>, from: nat, to: nat,
                  pending: seq<bool>, mask: seq<bool>, handled: seq<nat>)
    requires Shape(t) && |evtchnToIrq| == PORTS && from <= to <= LONG_BIT
    requires forall k | from <= k < to && k < LOCAL_BIT :: !t.selector[k]
    requires Delivered(t, from * LONG_BIT, pending, mask, handled) && Mapped(t, evtchnToIrq, 0, from * LONG_BIT)
    ensures Delivered(t, to * LONG_BIT, pending, mask, handled) && Mapped(t, evtchnToIrq, 0, to * LONG_BIT)
  {
    assert forall p | from * LONG_BIT <= p < to * LONG_BIT :: !Due(t, p);
  }

  /** Within a selected word, what is active now is what is due and not yet
      delivered; so the first active port is the next due one. */
  lemma NextDue(t: Words, w: nat, q: nat, to: nat, pending: seq<bool>, mask: seq<bool>, handled: seq<nat>)
    requires Shape(t) && w < LOCAL_BIT && t.selector[w]
    requires w * LONG_BIT <= q <= w * LONG_BIT + LOCAL_BIT && w * LONG_BIT <= to <= w * LONG_BIT + LOCAL_BIT
    requires Delivered(t, q, pending, mask, handled)
    requires forall k | w * LONG_BIT <= k < to :: !IsActive(pending, mask, t.mine, k)
    requires to < w * LONG_BIT + LOCAL_BIT ==> IsActive(pending, mask, t.mine, to)
    ensures q <= to && Delivered(t, to, pending, mask, handled) && forall p | q <= p < to :: !Due(t, p)
    ensures to < w * LONG_BIT + LOCAL_BIT ==> Due(t, to)
  {
    assert forall p | w * LONG_BIT <= p < w * LONG_BIT + LOCAL_BIT :: p / LONG_BIT == w && Seen(p);
    forall p | q <= p < to
      ensures !Due(t, p)
    {
      assert !IsActive(pending, mask, t.mine, p);
      assert pending[p] == t.pending[p] && mask[p] == t.mask[p];
    }
  }

  lemma DeliverOne(t: Words, p: nat, pending: seq<bool>, mask: seq<bool>, handled: seq<nat>)
    requires Shape(t) && p < PORTS && Delivered(t, p, pending, mask, handled) && Due(t, p)
    ensures Delivered(t, p + 1, pending[p := false], mask[p := true], handled + [p])
  {
    assert forall i | 0 <= i < |handled| :: handled[i] in handled;
  }

  /** The upper half of a word is not seen. */
  lemma UpperHalf(t: Words, w: nat, pending: seq<bool>, mask: seq<bool>, handled: seq<nat>)
    requires Shape(t) && w < LOCAL_BIT && Delivered(t, w * LONG_BIT + LOCAL_BIT, pending, mask, handled)
    ensures Delivered(t, (w + 1) * LONG_BIT, pending, mask, handled)
    ensures forall p | w * LONG_BIT + LOCAL_BIT <= p < (w + 1) * LONG_BIT :: !Due(t, p)
  {
    assert forall p | w * LONG_BIT + LOCAL_BIT <= p < (w + 1) * LONG_BIT :: !Seen(p);
  }

  /** The inner loop: one selected word, re-read until nothing in it is active. */
  method DrainWord(s: SharedInfo, mine: seq<bool>, evtchnToIrq: seq<int>, l1i: nat, before: seq<nat>,
                   turns: nat, ghost t: Words)
    returns (handled: seq<nat>, left: nat, ended: bool)
    requires s.Valid() && |mine| == |evtchnToIrq| == PORTS && l1i < LOCAL_BIT
    requires Shape(t) && t.mine == mine && t.selector[l1i]
    requires Delivered(t, l1i * LONG_BIT, s.pending[..], s.mask[..], before)
    modifies s.pending, s.mask
    ensures left <= turns
    ensures var from, to := l1i * LONG_BIT, (l1i + 1) * LONG_BIT;
            && (ended ==> Mapped(t, evtchnToIrq, from, to) && Delivered(t, to, s.pending[..], s.mask[..], handled))
            && (Mapped(t, evtchnToIrq, from, to) && turns >= LOCAL_BIT ==> ended)
            && (Mapped(t, evtchnToIrq, from, to) ==> turns - left <= LOCAL_BIT)
            && (!ended ==> exists q :: Delivered(t, q, s.pending[..], s.mask[..], handled))
  {
    hide Delivered, Due;
    ghost var base := l1i * LONG_BIT;
    handled, left := before, turns;
    ghost var q: nat := base;
    var l2i: nat := s.FirstActive(mine, l1i * LONG_BIT);
    while l2i < LOCAL_BIT && left > 0
      invariant base <= q <= base + LOCAL_BIT && l2i <= LOCAL_BIT && left <= turns
      invariant Delivered(t, q, s.pending[..], s.mask[..], handled) && Mapped(t, evtchnToIrq, base, q)
      invariant Mapped(t, evtchnToIrq, base, base + LONG_BIT) ==> turns - left <= q - base
      invariant l2i < LOCAL_BIT ==> IsActive(s.pending[..], s.mask[..], mine, base + l2i)
      invariant forall k | base <= k < base + l2i :: !IsActive(s.pending[..], s.mask[..], mine, k)
      decreases left
    {
      var port := l1i * LONG_BIT + l2i;
      ghost var pending, mask := s.pending[..], s.mask[..];
      NextDue(t, l1i, q, port, pending, mask, handled);
      if evtchnToIrq[port] != -1 {
        DeliverOne(t, port, pending, mask, handled);
        s.mask[port] := true;
        s.pending[port] := false;
        handled := handled + [port];
        assert s.pending[..] == pending[port := false] && s.mask[..] == mask[port := true];
        q := port + 1;
      } else {
        q := port;
      }
      left := left - 1;
      l2i := s.FirstActive(mine, l1i * LONG_BIT);
    }
    NextDue(t, l1i, q, base + l2i, s.pending[..], s.mask[..], handled);
    ended := l2i == LOCAL_BIT;
    if ended {
      UpperHalf(t, l1i, s.pending[..], s.mask[..], handled);
    }
  }

  /** Ports that are not seen come out of an upcall as they went in, and with every
      selector bit cleared: port 32 is the first. */
  lemma UnseenStay(t: Words, upTo: nat, pending: seq<bool>, mask: seq<bool>, handled: seq<nat>, p: nat)
    requires Shape(t) && Delivered(t, upTo, pending, mask, handled) && p < PORTS && !Seen(p)
    ensures p !in handled && pending[p] == t.pending[p] && mask[p] == t.mask[p]
    ensures !Seen(LOCAL_BIT)
  {
  }

  /** What a completed upcall handles, written out: what is pending and unmasked, this
      CPU's, in a word whose selector bit is set, and seen. That is masked and cleared;
      every other port stays as it is. */
  lemma HandledExactly(t: Words, pending: seq<bool>, mask: seq<bool>, handled: seq<nat>, p: nat)
    requires Shape(t) && Delivered(t, PORTS, pending, mask, handled) && p < PORTS
    ensures p in handled
       <==> t.pending[p] && !t.mask[p] && t.mine[p] && t.selector[p / 64] && p / 64 < 32 && p % 64 < 32
    ensures pending[p] == (t.pending[p] && p !in handled) && mask[p] == (t.mask[p] || p in handled)
    ensures multiset(handled)[p] <= 1
  {
    EachOnce(handled, p);
  }

  lemma {:induction false} EachOnce(s: seq<nat>, p: nat)
    requires forall i, j | 0 <= i < j < |s| :: s[i] < s[j]
    ensures multiset(s)[p] <= 1
  {
    if s != [] {
      var init := s[..|s| - 1];
      EachOnce(init, p);
      assert s == init + [s[|s| - 1]];
      if s[|s| - 1] == p {
        assert p !in init;
      }
    }
  }

  /** The words after a pending port has been unmasked. */
  function Unmasked(t: Words, port: nat): Words
    requires Shape(t) && port < PORTS
  {
    t.(mask := t.mask[port := false], selector := t.selector[port / LONG_BIT := true])
  }

  /** A seen port whose event came in while it was masked is handled by the upcall
      that follows the unmask, and with it whatever else was due, provided that all
      that is due then is mapped: exactly then the upcall ends. A port that is not
      seen stays pending, unmasked, and with selector and flag clear. */
  method UnmaskThenUpcall(s: SharedInfo, mine: seq<bool>, evtchnToIrq: seq<int>, port: nat)
    returns (handled: seq<nat>, ended: bool)
    requires s.Valid() && |mine| == |evtchnToIrq| == PORTS
    requires port < PORTS && s.pending[port] && mine[port]
    modifies s, s.pending, s.mask
    ensures s.Valid() && !s.selector[port / LONG_BIT] && !s.upcallPending
    ensures var t := Words(old(s.pending[..]), old(s.mask[..]), old(s.selector), mine);
            && (ended <==> Mapped(Unmasked(t, port), evtchnToIrq, 0, PORTS))
            && (ended ==> forall p | 0 <= p < PORTS && Due(t, p) :: p in handled)
    ensures ended ==> (port in handled <==> Seen(port))
    ensures ended ==> s.pending[port] == !Seen(port) && s.mask[port] == Seen(port)
    ensures !Seen(port) ==> port !in handled && s.pending[port] && !s.mask[port]
  {
    ghost var t0 := Words(s.pending[..], s.mask[..], s.selector, mine);
    var xenAsked := s.UnmaskEvtchn(port, true);
    ghost var t := Words(s.pending[..], s.mask[..], s.selector, mine);
    assert t == Unmasked(t0, port);
    handled, ended := EvtchnDoUpcall(s, mine, evtchnToIrq, LOCAL_BIT * LOCAL_BIT);
    assert Due(t, port) <==> Seen(port);
    assert s.pending[..][port] == s.pending[port] && s.mask[..][port] == s.mask[port];
    if !Seen(port) {
      ghost var q: nat :| Delivered(t, q, s.pending[..], s.mask[..], handled);
      UnseenStay(t, q, s.pending[..], s.mask[..], handled, port);
    }
    forall p | 0 <= p < PORTS && Due(t0, p)
      ensures Due(t, p)
    {
    }
  }
}
