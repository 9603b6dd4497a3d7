/** Delivery of events (xen/evtchn.cc:216-256, 960-1001; xen/evtchn.h:53-58) as a
    state machine: Xen's senders, unmask_evtchn on any CPU and one upcall per CPU
    take turns at single accesses to the shared words, in any order.

    A sender sets the pending bit; if it was clear and the port is unmasked, it
    sets the selector bit of the port's word; if that was clear, it sets the
    upcall flag. Unmasking clears the mask bit, and if the port is pending does
    the last two steps itself.

    The shared words are unsigned longs and ports are numbered by their width, but
    the upcall holds the selector and the pending word in unsigned ints: it loses
    the upper bits of both. `Seen` are the ports it can see; the guarantees are
    for those, and every other port has a run that loses its event. */
module EventDelivery {
  import opened Options

  /** The fixed surroundings: the CPU of each port, the number of ports a word of
      the pending and mask arrays holds, the number of bits of the upcall's locals,
      and the ports that are mapped to an IRQ. */
  datatype Config = Config(cpuOf: seq<nat>, cpus: nat, wordBits: nat, localBits: nat, mapped: set<nat>)

  predicate ValidConfig(g: Config) {
    g.wordBits > 0 && forall p | 0 <= p < |g.cpuOf| :: g.cpuOf[p] < g.cpus
  }

  function WordOf(g: Config, p: nat): nat
    requires ValidConfig(g)
  {
    p / g.wordBits
  }

  /** The port fits the upcall's locals: its word's bit in the selector, and its own
      bit in its word. */
  predicate Seen(g: Config, p: nat)
    requires ValidConfig(g)
  {
    WordOf(g, p) < g.localBits && p % g.wordBits < g.localBits
  }

  /** The next access of a sender or an unmasker. */
  datatype Pc = SetPending | TestMask | ClearMask | TestPending | SetSelector | SetFlag

  /** A send or an unmask under way. */
  datatype Activity = Activity(port: nat, pc: Pc)

  /** evtchn_do_upcall on one CPU. `l1` are the selector bits still to do, `w` the
      one being done, `snap` the pending bits read from its word, `open` the ports of
      it that were read as unmasked. In which order the two are read is left to the
      compiler. */
  datatype Upcall =
    | Idle
    | Exchange                                        // flag cleared, selector not yet taken
    | Scan(l1: set<nat>)
    | ReadPending(l1: set<nat>, w: nat)
    | ReadMask(l1: set<nat>, w: nat, snap: set<nat>)          // pending bits read, mask next
    | ReadPendingLast(l1: set<nat>, w: nat, open: set<nat>)   // mask read, pending bits next
    | Masking(l1: set<nat>, w: nat, port: nat)        // about to mask the port found
    | Clearing(l1: set<nat>, w: nat, port: nat)       // ... to clear its pending bit
    | Handling(l1: set<nat>, w: nat, port: nat)       // ... to run its handlers

  datatype State = State(
    pending: set<nat>,
    mask: set<nat>,
    selector: seq<set<nat>>,        // by CPU
    flag: seq<bool>,                // by CPU: evtchn_upcall_pending
    upcall: seq<Upcall>,            // by CPU
    active: map<nat, Activity>,     // sends and unmasks under way, by a name
    reopened: set<nat>,             // ports unmasked since they were last masked
    resent: set<nat>,               // ports made pending since an upcall last cleared them
    unhandled: set<nat>)            // ports sent to since their handlers last ran

  datatype Action =
    | Send(id: nat, port: nat) | Unmask(id: nat, port: nat) | Mask(port: nat)
    | Proceed(id: nat)
    | Upcalls(cpu: nat) | Pick(cpu: nat, choice: nat) | Turn(cpu: nat) | MaskFirst(cpu: nat)

  predicate Shape(g: Config, s: State) {
    && |s.selector| == |s.flag| == |s.upcall| == g.cpus
    && forall id | id in s.active :: s.active[id].port < |g.cpuOf|
  }

  // ---- steps ---------------------------------------------------------------

  function Finish(s: State, id: nat): State {
    s.(active := s.active - {id})
  }

  function Advance(s: State, id: nat, pc: Pc): State
    requires id in s.active
  {
    s.(active := s.active[id := s.active[id].(pc := pc)])
  }

  /** The next access of a send or an unmask. */
  function ProceedStep(g: Config, s: State, id: nat): State
    requires ValidConfig(g) && Shape(g, s) && id in s.active
  {
    var p := s.active[id].port;
    var c, w := g.cpuOf[p], WordOf(g, p);
    match s.active[id].pc
    case SetPending =>
      if p in s.pending then Finish(s, id)
      else Advance(s.(pending := s.pending + {p}, resent := s.resent + {p}), id, TestMask)
    case TestMask => if p in s.mask then Finish(s, id) else Advance(s, id, SetSelector)
    case ClearMask => Advance(s.(mask := s.mask - {p}, reopened := s.reopened + {p}), id, TestPending)
    case TestPending => if p in s.pending then Advance(s, id, SetSelector) else Finish(s, id)
    case SetSelector =>
      if w in s.selector[c] then Finish(s, id)
      else Advance(s.(selector := s.selector[c := s.selector[c] + {w}]), id, SetFlag)
    case SetFlag => Finish(s.(flag := s.flag[c := true]), id)
  }

  function To(s: State, c: nat, u: Upcall): State
    requires c < |s.upcall|
  {
    s.(upcall := s.upcall[c := u])
  }

  /** The pending, unmasked ports of CPU `c` among those in the snapshot. */
  function Active(g: Config, s: State, c: nat, snap: set<nat>): set<nat> {
    set p | p in snap && p < |g.cpuOf| && g.cpuOf[p] == c && p !in s.mask
  }

  /** The same, where the mask was read first. */
  function Pending(g: Config, s: State, c: nat, open: set<nat>): set<nat> {
    set p | p in open && p < |g.cpuOf| && g.cpuOf[p] == c && p in s.pending
  }

  /** The ports of a word that are not masked, as far as the local holds them. */
  function Open(g: Config, s: State, w: nat): set<nat>
    requires ValidConfig(g)
  {
    set p | 0 <= p < |g.cpuOf| && p !in s.mask && WordOf(g, p) == w && p % g.wordBits < g.localBits
  }

  /** The other order of the two reads: mask first. */
  function MaskFirstStep(g: Config, s: State, c: nat): Option<State>
    requires ValidConfig(g) && Shape(g, s) && c < g.cpus
  {
    match s.upcall[c]
    case ReadPending(l1, w) => Some(To(s, c, ReadPendingLast(l1, w, Open(g, s, w))))
    case _ => None
  }

  /** Turns of an upcall without a choice. */
  function TurnStep(g: Config, s: State, c: nat): Option<State>
    requires ValidConfig(g) && Shape(g, s) && c < g.cpus
  {
    match s.upcall[c]
    case Exchange =>
      // all bits are taken; those that fit are kept
      Some(To(s, c, Scan(set w | w in s.selector[c] && w < g.localBits)).(selector := s.selector[c := {}]))
    case Scan(l1) => if l1 == {} then Some(To(s, c, Idle)) else None
    case ReadPending(l1, w) =>
      Some(To(s, c, ReadMask(l1, w, set p | p in s.pending && WordOf(g, p) == w && p % g.wordBits < g.localBits)))
    case ReadMask(l1, w, snap) => if Active(g, s, c, snap) == {} then Some(To(s, c, Scan(l1))) else None
    case ReadPendingLast(l1, w, open) => if Pending(g, s, c, open) == {} then Some(To(s, c, Scan(l1))) else None
    case Masking(l1, w, p) =>
      Some(To(s, c, Clearing(l1, w, p)).(mask := s.mask + {p}, reopened := s.reopened - {p}))
    case Clearing(l1, w, p) =>
      Some(To(s, c, Handling(l1, w, p)).(pending := s.pending - {p}, resent := s.resent - {p}))
    case Handling(l1, w, p) => Some(To(s, c, ReadPending(l1, w)).(unhandled := s.unhandled - {p}))
    case Idle => None
  }

  /** Turns that pick a set bit: any one, where the code takes the lowest. A port
      that is mapped to no IRQ is passed over, and the word is read again. */
  function PickStep(g: Config, s: State, c: nat, choice: nat): Option<State>
    requires ValidConfig(g) && Shape(g, s) && c < g.cpus
  {
    match s.upcall[c]
    case Scan(l1) => if choice in l1 then Some(To(s, c, ReadPending(l1 - {choice}, choice))) else None
    case ReadMask(l1, w, snap) =>
      if choice !in Active(g, s, c, snap) then None
      else if choice in g.mapped then Some(To(s, c, Masking(l1, w, choice)))
      else Some(To(s, c, ReadPending(l1, w)))
    case ReadPendingLast(l1, w, open) =>
      if choice !in Pending(g, s, c, open) then None
      else if choice in g.mapped then Some(To(s, c, Masking(l1, w, choice)))
      else Some(To(s, c, ReadPending(l1, w)))
    case _ => None
  }

  function Step(g: Config, s: State, a: Action): Option<State>
    requires ValidConfig(g) && Shape(g, s)
  {
    match a
    case Send(id, p) =>
      if p < |g.cpuOf| && id !in s.active then
        Some(s.(active := s.active[id := Activity(p, SetPending)], unhandled := s.unhandled + {p}))
      else None
    case Unmask(id, p) =>
      if p < |g.cpuOf| && id !in s.active then Some(s.(active := s.active[id := Activity(p, ClearMask)])) else None
    case Mask(p) => Some(s.(mask := s.mask + {p}, reopened := s.reopened - {p}))
    case Proceed(id) => if id in s.active then Some(ProceedStep(g, s, id)) else None
    case Upcalls(c) =>
      // spurious upcalls are allowed: the flag need not be set
      if c < g.cpus && s.upcall[c].Idle? then Some(To(s, c, Exchange).(flag := s.flag[c := false])) else None
    case Turn(c) => if c < g.cpus then TurnStep(g, s, c) else None
    case MaskFirst(c) => if c < g.cpus then MaskFirstStep(g, s, c) else None
    case Pick(c, choice) => if c < g.cpus then PickStep(g, s, c, choice) else None
  }

  // ---- the invariant -------------------------------------------------------

  /** Some send or unmask of `p` is about to make the access `pc`. */
  ghost predicate UnderWay(s: State, p: nat, pc: Pc) {
    exists id | id in s.active :: s.active[id] == Activity(p, pc)
  }

  /** An upcall still holds the word of `p`. */
  predicate Holds(g: Config, u: Upcall, p: nat)
    requires ValidConfig(g)
  {
    match u
    case Idle => false
    case Exchange => false
    case Scan(l1) => WordOf(g, p) in l1
    case ReadMask(l1, w, snap) => WordOf(g, p) in l1 || (WordOf(g, p) == w && p in snap)
    case ReadPendingLast(l1, w, open) => WordOf(g, p) in l1 || (WordOf(g, p) == w && p in open)
    case _ => WordOf(g, p) in u.l1 || WordOf(g, p) == u.w
  }

  /** The events of `p` are on their way: the selector bit is set, or a sender or
      unmasker will see to it, or an upcall is going to look at the word. */
  ghost predicate Covered(g: Config, s: State, p: nat)
    requires ValidConfig(g) && Shape(g, s) && p < |g.cpuOf|
  {
    || WordOf(g, p) in s.selector[g.cpuOf[p]]
    || UnderWay(s, p, TestMask) || UnderWay(s, p, TestPending) || UnderWay(s, p, SetSelector)
    || Holds(g, s.upcall[g.cpuOf[p]], p)
  }

  ghost predicate PortInv(g: Config, s: State, p: nat)
    requires ValidConfig(g) && Shape(g, s) && p < |g.cpuOf|
  {
    && (Seen(g, p) && p in s.pending && p !in s.mask ==> Covered(g, s, p))
    && (p in s.unhandled ==> p in s.pending || UnderWay(s, p, SetPending) || BeingHandled(s, p))
  }

  /** Some upcall has taken the events of `p` and is about to run its handlers. */
  ghost predicate BeingHandled(s: State, p: nat) {
    exists c | 0 <= c < |s.upcall| :: s.upcall[c].Handling? && s.upcall[c].port == p
  }

  /** A selector that is not empty has the upcall flag set, or about to be set, or
      is about to be taken. */
  ghost predicate CpuInv(g: Config, s: State, c: nat)
    requires ValidConfig(g) && Shape(g, s) && c < g.cpus
  {
    s.selector[c] != {} ==>
      s.flag[c] || s.upcall[c].Exchange? || FlagUnderWay(g, s, c)
  }

  ghost predicate FlagUnderWay(g: Config, s: State, c: nat)
    requires ValidConfig(g) && Shape(g, s)
  {
    exists id | id in s.active :: s.active[id].pc.SetFlag? && g.cpuOf[s.active[id].port] == c
  }

  ghost predicate Inv(g: Config, s: State)
    requires ValidConfig(g)
  {
    && Shape(g, s)
    && (forall p | 0 <= p < |g.cpuOf| :: PortInv(g, s, p))
    && (forall c | 0 <= c < g.cpus :: CpuInv(g, s, c))
  }

  /** A port is covered unless an access under way says so itself: what is left
      of the cover when activity `id` moves on. */
  lemma OthersStayUnderWay(s: State, s': State, id: nat, p: nat, pc: Pc)
    requires UnderWay(s, p, pc) && id in s.active && s.active[id] != Activity(p, pc)
    requires forall k | k in s.active && k != id :: k in s'.active && s'.active[k] == s.active[k]
    ensures UnderWay(s', p, pc)
  {
    var k :| k in s.active && s.active[k] == Activity(p, pc);
    assert k in s'.active;
  }

  lemma ProceedKeepsPort(g: Config, s: State, id: nat, p: nat)
    requires ValidConfig(g) && Inv(g, s) && id in s.active && p < |g.cpuOf|
    ensures Shape(g, ProceedStep(g, s, id)) && PortInv(g, ProceedStep(g, s, id), p)
  {
    var s', a := ProceedStep(g, s, id), s.active[id];
    assert PortInv(g, s, p);
    hide Holds, Seen, WordOf;
    assert forall k | k in s.active && k != id :: k in s'.active && s'.active[k] == s.active[k];
    if a.port == p {
      if id in s'.active {
        assert UnderWay(s', p, s'.active[id].pc);
      }
    }
    forall pc | UnderWay(s, p, pc) && a != Activity(p, pc)
      ensures UnderWay(s', p, pc)
    {
      OthersStayUnderWay(s, s', id, p, pc);
    }
    if BeingHandled(s, p) {
      assert s'.upcall == s.upcall;
    }
  }

  lemma ProceedKeepsCpu(g: Config, s: State, id: nat, c: nat)
    requires ValidConfig(g) && Inv(g, s) && id in s.active && c < g.cpus
    ensures Shape(g, ProceedStep(g, s, id)) && CpuInv(g, ProceedStep(g, s, id), c)
  {
    var s', a := ProceedStep(g, s, id), s.active[id];
    assert CpuInv(g, s, c);
    if a.pc.SetSelector? && id in s'.active {
      assert s'.active[id].pc.SetFlag?;
    }
    if FlagUnderWay(g, s, c) {
      var k :| k in s.active && s.active[k].pc.SetFlag? && g.cpuOf[s.active[k].port] == c;
      assert k != id ==> k in s'.active && s'.active[k] == s.active[k];
    }
  }

  /** Turns of an upcall leave the senders and unmaskers alone. */
  lemma TurnKeepsPort(g: Config, s: State, c: nat, p: nat)
    requires ValidConfig(g) && Inv(g, s) && c < g.cpus && TurnStep(g, s, c).Some? && p < |g.cpuOf|
    ensures Shape(g, TurnStep(g, s, c).value) && PortInv(g, TurnStep(g, s, c).value, p)
  {
    var s' := TurnStep(g, s, c).value;
    assert PortInv(g, s, p) && s'.active == s.active;
    assert forall pc | UnderWay(s, p, pc) :: UnderWay(s', p, pc);
    if s.upcall[c].ReadMask? {
      assert p !in Active(g, s, c, s.upcall[c].snap);
    }
    if s.upcall[c].ReadPendingLast? {
      assert p !in Pending(g, s, c, s.upcall[c].open);
    }
    if s.upcall[c].Clearing? {
      assert s'.upcall[c].Handling?;
    }
    if BeingHandled(s, p) {
      var d :| 0 <= d < |s.upcall| && s.upcall[d].Handling? && s.upcall[d].port == p;
      assert d != c ==> s'.upcall[d] == s.upcall[d];
    }
  }

  lemma TurnKeepsCpu(g: Config, s: State, c: nat, d: nat)
    requires ValidConfig(g) && Inv(g, s) && c < g.cpus && TurnStep(g, s, c).Some? && d < g.cpus
    ensures Shape(g, TurnStep(g, s, c).value) && CpuInv(g, TurnStep(g, s, c).value, d)
  {
    var s' := TurnStep(g, s, c).value;
    assert CpuInv(g, s, d) && s'.active == s.active;
    assert FlagUnderWay(g, s, d) ==> FlagUnderWay(g, s', d);
  }

  lemma PickKeeps(g: Config, s: State, c: nat, choice: nat)
    requires ValidConfig(g) && Inv(g, s) && c < g.cpus && PickStep(g, s, c, choice).Some?
    ensures Inv(g, PickStep(g, s, c, choice).value)
  {
    var s' := PickStep(g, s, c, choice).value;
    forall p | 0 <= p < |g.cpuOf|
      ensures PortInv(g, s', p)
    {
      assert PortInv(g, s, p);
      assert forall pc | UnderWay(s, p, pc) :: UnderWay(s', p, pc);
      if BeingHandled(s, p) {
        var d :| 0 <= d < |s.upcall| && s.upcall[d].Handling? && s.upcall[d].port == p;
        assert s'.upcall[d] == s.upcall[d];
      }
    }
    forall d | 0 <= d < g.cpus
      ensures CpuInv(g, s', d)
    {
      assert CpuInv(g, s, d);
      assert FlagUnderWay(g, s, d) ==> FlagUnderWay(g, s', d);
    }
  }

  lemma MaskFirstKeeps(g: Config, s: State, c: nat)
    requires ValidConfig(g) && Inv(g, s) && c < g.cpus && MaskFirstStep(g, s, c).Some?
    ensures Inv(g, MaskFirstStep(g, s, c).value)
  {
    var s' := MaskFirstStep(g, s, c).value;
    forall p | 0 <= p < |g.cpuOf|
      ensures PortInv(g, s', p)
    {
      assert PortInv(g, s, p);
      assert forall pc | UnderWay(s, p, pc) :: UnderWay(s', p, pc);
      if BeingHandled(s, p) {
        var d :| 0 <= d < |s.upcall| && s.upcall[d].Handling? && s.upcall[d].port == p;
        assert s'.upcall[d] == s.upcall[d];
      }
    }
    forall d | 0 <= d < g.cpus
      ensures CpuInv(g, s', d)
    {
      assert CpuInv(g, s, d);
      assert FlagUnderWay(g, s, d) ==> FlagUnderWay(g, s', d);
    }
  }

  /** Starting a send or an unmask, masking a port, or entering an upcall. */
  lemma StartKeeps(g: Config, s: State, a: Action)
    requires ValidConfig(g) && Inv(g, s) && Step(g, s, a).Some?
    requires a.Send? || a.Unmask? || a.Mask? || a.Upcalls?
    ensures Inv(g, Step(g, s, a).value)
  {
    var s' := Step(g, s, a).value;
    assert forall k | k in s.active :: k in s'.active && s'.active[k] == s.active[k];
    forall p | 0 <= p < |g.cpuOf|
      ensures PortInv(g, s', p)
    {
      assert PortInv(g, s, p);
      forall pc | UnderWay(s, p, pc)
        ensures UnderWay(s', p, pc)
      {
        var k :| k in s.active && s.active[k] == Activity(p, pc);
        assert k in s'.active;
      }
      if a.Send? && a.port == p {
        assert s'.active[a.id] == Activity(p, SetPending);
      }
      if BeingHandled(s, p) {
        var d :| 0 <= d < |s.upcall| && s.upcall[d].Handling? && s.upcall[d].port == p;
        assert s'.upcall[d] == s.upcall[d];
      }
    }
    forall d | 0 <= d < g.cpus
      ensures CpuInv(g, s', d)
    {
      assert CpuInv(g, s, d);
      if FlagUnderWay(g, s, d) {
        var k :| k in s.active && s.active[k].pc.SetFlag? && g.cpuOf[s.active[k].port] == d;
        assert k in s'.active;
      }
    }
  }

  lemma StepKeeps(g: Config, s: State, a: Action)
    requires ValidConfig(g) && Inv(g, s) && Step(g, s, a).Some?
    ensures Inv(g, Step(g, s, a).value)
  {
    hide PortInv, CpuInv;
    match a
    case Proceed(id) =>
      var s' := ProceedStep(g, s, id);
      forall p | 0 <= p < |g.cpuOf| ensures Shape(g, s') && PortInv(g, s', p) { ProceedKeepsPort(g, s, id, p); }
      forall c | 0 <= c < g.cpus ensures Shape(g, s') && CpuInv(g, s', c) { ProceedKeepsCpu(g, s, id, c); }
    case Turn(c) =>
      var s' := TurnStep(g, s, c).value;
      forall p | 0 <= p < |g.cpuOf| ensures Shape(g, s') && PortInv(g, s', p) { TurnKeepsPort(g, s, c, p); }
      forall d | 0 <= d < g.cpus ensures Shape(g, s') && CpuInv(g, s', d) { TurnKeepsCpu(g, s, c, d); }
    case Pick(c, choice) => PickKeeps(g, s, c, choice);
    case MaskFirst(c) => MaskFirstKeeps(g, s, c);
    case _ => StartKeeps(g, s, a);
  }

  // ---- runs ----------------------------------------------------------------

  /** Nothing sent, nobody at work; the masks and flags may be anything. */
  predicate Initial(g: Config, s: State)
    requires ValidConfig(g)
  {
    && Shape(g, s) && s.pending == {} && s.unhandled == {} && s.active == map[]
    && forall c | 0 <= c < g.cpus :: s.selector[c] == {} && s.upcall[c].Idle?
  }

  ghost predicate IsRun(g: Config, states: seq<State>, actions: seq<Action>)
    requires ValidConfig(g)
  {
    && |states| == |actions| + 1 && Initial(g, states[0])
    && forall i | 0 <= i < |actions| :: Shape(g, states[i]) && Step(g, states[i], actions[i]) == Some(states[i + 1])
  }

  lemma {:induction false} Reachable(g: Config, states: seq<State>, actions: seq<Action>, i: nat)
    requires ValidConfig(g) && IsRun(g, states, actions) && i <= |actions|
    ensures Inv(g, states[i])
  {
    if i > 0 {
      hide Inv, Step;
      Reachable(g, states, actions, i - 1);
      assert Step(g, states[i - 1], actions[i - 1]) == Some(states[i]);
      StepKeeps(g, states[i - 1], actions[i - 1]);
    }
  }

  // ---- no event is lost ----------------------------------------------------

  /** In every reachable state, a port that is seen, pending and not masked has its
      selector bit set, or a send or unmask under way that has yet to test for or
      set it, or an upcall of its CPU that still holds its word. */
  lemma PendingIsCovered(g: Config, states: seq<State>, actions: seq<Action>, i: nat, p: nat)
    requires ValidConfig(g) && IsRun(g, states, actions) && i <= |actions| && p < |g.cpuOf| && Seen(g, p)
    requires p in states[i].pending && p !in states[i].mask
    ensures Shape(g, states[i]) && Covered(g, states[i], p)
  {
    Reachable(g, states, actions, i);
    assert PortInv(g, states[i], p);
  }

  /** In every reachable state, a CPU with a selector bit has its upcall flag set,
      or a send or unmask about to set it, or an upcall about to take the bits. */
  lemma SelectorIsAnnounced(g: Config, states: seq<State>, actions: seq<Action>, i: nat, c: nat)
    requires ValidConfig(g) && IsRun(g, states, actions) && i <= |actions| && c < g.cpus
    ensures Shape(g, states[i])
    ensures states[i].selector[c] != {} ==>
              states[i].flag[c] || states[i].upcall[c].Exchange? || FlagUnderWay(g, states[i], c)
  {
    Reachable(g, states, actions, i);
    assert CpuInv(g, states[i], c);
  }

  /** All sends, unmasks and upcalls have run to their end. */
  predicate AtRest(s: State) {
    s.active == map[] && forall u | u in s.upcall :: u.Idle?
  }

  /** The CPU of `p` has been told to look at it. */
  predicate Announced(g: Config, s: State, p: nat)
    requires ValidConfig(g) && Shape(g, s) && p < |g.cpuOf|
  {
    WordOf(g, p) in s.selector[g.cpuOf[p]] && s.flag[g.cpuOf[p]]
  }

  /** Hence, at rest, every event whose handlers have not run since it was sent is
      still pending, and unless its port is masked, or not seen, the CPU's selector
      and upcall flag are set. */
  lemma NoEventIsLost(g: Config, states: seq<State>, actions: seq<Action>, i: nat, p: nat)
    requires ValidConfig(g) && IsRun(g, states, actions) && i <= |actions| && p < |g.cpuOf| && AtRest(states[i])
    ensures Shape(g, states[i])
    ensures p in states[i].unhandled ==> p in states[i].pending
    ensures p in states[i].pending && p !in states[i].mask && Seen(g, p) ==> Announced(g, states[i], p)
  {
    Reachable(g, states, actions, i);
    var s, c := states[i], g.cpuOf[p];
    assert PortInv(g, s, p) && CpuInv(g, s, c) && s.upcall[c] in s.upcall;
    assert forall pc :: !UnderWay(s, p, pc);
    assert forall d | 0 <= d < |s.upcall| :: s.upcall[d] in s.upcall;
  }

  // ---- ports that are not seen ---------------------------------------------

  /** What an upcall holds always fits its locals. */
  ghost predicate Fits(g: Config, u: Upcall)
    requires ValidConfig(g)
  {
    match u
    case Idle => true
    case Exchange => true
    case Scan(l1) => forall w | w in l1 :: w < g.localBits
    case ReadPending(l1, w) => w < g.localBits && forall v | v in l1 :: v < g.localBits
    case ReadMask(l1, w, snap) =>
      w < g.localBits && (forall v | v in l1 :: v < g.localBits) && forall p | p in snap :: Seen(g, p)
    case ReadPendingLast(l1, w, open) =>
      w < g.localBits && (forall v | v in l1 :: v < g.localBits) && forall p | p in open :: Seen(g, p)
    case _ => u.w < g.localBits && (forall v | v in u.l1 :: v < g.localBits) && Seen(g, u.port)
  }

  lemma StepKeepsFit(g: Config, s: State, a: Action, c: nat)
    requires ValidConfig(g) && Shape(g, s) && Step(g, s, a).Some? && c < g.cpus && Fits(g, s.upcall[c])
    ensures |Step(g, s, a).value.upcall| == g.cpus && Fits(g, Step(g, s, a).value.upcall[c])
  {
    match a
    case Turn(d) => TurnKeepsFit(g, s, d, c);
    case Pick(d, choice) => PickKeepsFit(g, s, d, choice, c);
    case MaskFirst(d) => hide Fits, TurnStep, PickStep; MaskFirstKeepsFit(g, s, d, c);
    case _ => hide TurnStep, PickStep, MaskFirstStep;
  }

  lemma TurnKeepsFit(g: Config, s: State, d: nat, c: nat)
    requires ValidConfig(g) && Shape(g, s) && d < g.cpus && c < g.cpus && Fits(g, s.upcall[c])
    requires TurnStep(g, s, d).Some?
    ensures |TurnStep(g, s, d).value.upcall| == g.cpus && Fits(g, TurnStep(g, s, d).value.upcall[c])
  {
  }

  lemma PickKeepsFit(g: Config, s: State, d: nat, choice: nat, c: nat)
    requires ValidConfig(g) && Shape(g, s) && d < g.cpus && c < g.cpus && Fits(g, s.upcall[c])
    requires PickStep(g, s, d, choice).Some?
    ensures |PickStep(g, s, d, choice).value.upcall| == g.cpus && Fits(g, PickStep(g, s, d, choice).value.upcall[c])
  {
  }

  lemma MaskFirstKeepsFit(g: Config, s: State, d: nat, c: nat)
    requires ValidConfig(g) && Shape(g, s) && d < g.cpus && c < g.cpus && Fits(g, s.upcall[c])
    requires MaskFirstStep(g, s, d).Some?
    ensures |MaskFirstStep(g, s, d).value.upcall| == g.cpus && Fits(g, MaskFirstStep(g, s, d).value.upcall[c])
  {
  }

  /** In no run does an upcall ever mask, clear or handle a port that is not seen. */
  lemma {:induction false} OnlySeenAreHandled(g: Config, states: seq<State>, actions: seq<Action>, i: nat, c: nat)
    requires ValidConfig(g) && IsRun(g, states, actions) && i <= |actions| && c < g.cpus
    ensures Shape(g, states[i]) && Fits(g, states[i].upcall[c])
    ensures var u := states[i].upcall[c]; u.Masking? || u.Clearing? || u.Handling? ==> Seen(g, u.port)
  {
    hide PortInv, CpuInv, Step;
    Reachable(g, states, actions, i);
    if i > 0 {
      OnlySeenAreHandled(g, states, actions, i - 1, c);
      assert Step(g, states[i - 1], actions[i - 1]) == Some(states[i]);
      StepKeepsFit(g, states[i - 1], actions[i - 1], c);
    }
  }

  // ---- handlers run on acknowledged ports ----------------------------------

  /** The upcall has masked its port, and then cleared its pending bit, and since then
      only somebody else's unmask or send has undone that. */
  predicate Acknowledged(s: State, u: Upcall) {
    && (u.Clearing? || u.Handling? ==> u.port in s.mask || u.port in s.reopened)
    && (u.Handling? ==> u.port !in s.pending || u.port in s.resent)
  }

  lemma StepKeepsAcknowledged(g: Config, s: State, a: Action, c: nat)
    requires ValidConfig(g) && Shape(g, s) && Step(g, s, a).Some? && c < g.cpus && Acknowledged(s, s.upcall[c])
    ensures |Step(g, s, a).value.upcall| == g.cpus
    ensures Acknowledged(Step(g, s, a).value, Step(g, s, a).value.upcall[c])
  {
    hide Seen, WordOf, Open, Active, Pending;
  }

  /** In every state of every run, a port whose handlers are about to run is masked
      unless it has been unmasked since the upcall masked it, and not pending unless it
      has been sent to since the upcall cleared it. */
  lemma {:induction false} HandlersRunAcknowledged(g: Config, states: seq<State>, actions: seq<Action>, i: nat, c: nat)
    requires ValidConfig(g) && IsRun(g, states, actions) && i <= |actions| && c < g.cpus
    ensures Shape(g, states[i])
    ensures var s, u := states[i], states[i].upcall[c];
            && (u.Clearing? || u.Handling? ==> u.port in s.mask || u.port in s.reopened)
            && (u.Handling? ==> u.port !in s.pending || u.port in s.resent)
  {
    hide PortInv, CpuInv, Step;
    Reachable(g, states, actions, i);
    if i > 0 {
      HandlersRunAcknowledged(g, states, actions, i - 1, c);
      assert Step(g, states[i - 1], actions[i - 1]) == Some(states[i]);
      StepKeepsAcknowledged(g, states[i - 1], actions[i - 1], c);
    }
  }

  // ---- runs that lose an event ---------------------------------------------

  /** A run with one more step. */
  lemma Extend(g: Config, states: seq<State>, actions: seq<Action>, a: Action)
    returns (states': seq<State>, actions': seq<Action>, s: State)
    requires ValidConfig(g) && IsRun(g, states, actions)
    requires Shape(g, states[|actions|]) && Step(g, states[|actions|], a).Some?
    ensures s == Step(g, states[|actions|], a).value && states' == states + [s] && actions' == actions + [a]
    ensures IsRun(g, states', actions') && states'[|actions'|] == s
  {
    hide Step, Shape;
    s := Step(g, states[|actions|], a).value;
    states', actions' := states + [s], actions + [a];
  }

  /** No upcall, and at most one send or unmask, of `p`. */
  ghost predicate Calm(g: Config, s: State, p: nat, pending: set<nat>, mask: set<nat>, sel: set<nat>, flag: bool,
                       pc: Option<Pc>)
    requires ValidConfig(g) && p < |g.cpuOf|
  {
    && Shape(g, s) && s.pending == pending && s.mask == mask
    && s.selector[g.cpuOf[p]] == sel && s.flag[g.cpuOf[p]] == flag
    && (forall d | 0 <= d < g.cpus :: s.upcall[d].Idle?)
    && s.active == if pc.None? then map[] else map[0 := Activity(p, pc.value)]
  }

  /** From start-up, with any ports masked: `p` is unmasked and sent to. */
  lemma SendingRun(g: Config, p: nat, mask: set<nat>) returns (states: seq<State>, actions: seq<Action>)
    requires ValidConfig(g) && p < |g.cpuOf|
    ensures IsRun(g, states, actions)
    ensures Calm(g, states[|actions|], p, {p}, mask - {p}, {WordOf(g, p)}, true, None)
  {
    hide Seen, WordOf;
    var w, open, s := WordOf(g, p), mask - {p}, Initially(g, mask);
    states, actions := [s], [];
    states, actions, s := Extend(g, states, actions, Unmask(0, p));
    assert Calm(g, s, p, {}, mask, {}, false, Some(ClearMask));
    states, actions, s := Extend(g, states, actions, Proceed(0));
    assert Calm(g, s, p, {}, open, {}, false, Some(TestPending));
    states, actions, s := Extend(g, states, actions, Proceed(0));
    assert Calm(g, s, p, {}, open, {}, false, None);
    states, actions, s := Extend(g, states, actions, Send(0, p));
    assert Calm(g, s, p, {}, open, {}, false, Some(SetPending));
    states, actions, s := Extend(g, states, actions, Proceed(0));
    assert Calm(g, s, p, {p}, open, {}, false, Some(TestMask));
    states, actions, s := Extend(g, states, actions, Proceed(0));
    assert Calm(g, s, p, {p}, open, {}, false, Some(SetSelector));
    states, actions, s := Extend(g, states, actions, Proceed(0));
    assert Calm(g, s, p, {p}, open, {w}, false, Some(SetFlag));
    states, actions, s := Extend(g, states, actions, Proceed(0));
  }

  function Initially(g: Config, mask: set<nat>): State {
    State({}, mask, seq(g.cpus, _ => {}), seq(g.cpus, _ => false), seq(g.cpus, _ => Idle), map[], {}, {}, {})
  }

  /** One upcall at work on the CPU of `p`, which is pending and not masked, with
      nothing left in the selector. */
  ghost predicate Looking(g: Config, s: State, p: nat)
    requires ValidConfig(g) && p < |g.cpuOf|
  {
    && Shape(g, s) && s.pending == {p} && p !in s.mask && s.selector[g.cpuOf[p]] == {}
    && (forall d | 0 <= d < g.cpus && d != g.cpuOf[p] :: s.upcall[d].Idle?)
    && s.active == map[]
  }

  /** The upcall that follows takes the selector bit of a port that is not seen and
      goes home with the port still pending. */
  lemma LosingRun(g: Config, p: nat, mask: set<nat>) returns (states: seq<State>, actions: seq<Action>)
    requires ValidConfig(g) && p < |g.cpuOf| && !Seen(g, p)
    ensures Loses(g, states, actions, p)
  {
    var c, w, s := g.cpuOf[p], WordOf(g, p), Initially(g, mask);
    hide WordOf, ProceedStep;
    states, actions := SendingRun(g, p, mask);
    states, actions, s := Extend(g, states, actions, Upcalls(c));
    states, actions, s := Extend(g, states, actions, Turn(c));
    assert Looking(g, s, p) && s.upcall[c].Scan?;
    if w < g.localBits {
      assert s.upcall[c].l1 == {w};
      states, actions := LookingRun(g, p, states, actions);
    } else {
      assert s.upcall[c].l1 == {};
    }
    states, actions, s := Extend(g, states, actions, Turn(c));
  }

  /** ... even if it gets to read the word. */
  lemma LookingRun(g: Config, p: nat, states0: seq<State>, actions0: seq<Action>)
    returns (states: seq<State>, actions: seq<Action>)
    requires ValidConfig(g) && p < |g.cpuOf| && !Seen(g, p) && WordOf(g, p) < g.localBits
    requires IsRun(g, states0, actions0) && Looking(g, states0[|actions0|], p)
    requires var u := states0[|actions0|].upcall[g.cpuOf[p]]; u.Scan? && u.l1 == {WordOf(g, p)}
    ensures IsRun(g, states, actions) && Looking(g, states[|actions|], p)
    ensures var u := states[|actions|].upcall[g.cpuOf[p]]; u.Scan? && u.l1 == {}
  {
    hide WordOf, ProceedStep;
    var c, s := g.cpuOf[p], states0[|actions0|];
    states, actions, s := Extend(g, states0, actions0, Pick(c, WordOf(g, p)));
    assert s.upcall[c].ReadPending? && s.upcall[c].l1 == {} && s.upcall[c].w == WordOf(g, p);
    states, actions, s := Extend(g, states, actions, Turn(c));
    assert s.upcall[c].ReadMask? && s.upcall[c].l1 == {} && s.upcall[c].snap == {};
    assert Active(g, s, c, s.upcall[c].snap) == {};
    states, actions, s := Extend(g, states, actions, Turn(c));
  }

  /** At the end of this run, `p` is pending and unmasked and nobody will look at it. */
  ghost predicate Loses(g: Config, states: seq<State>, actions: seq<Action>, p: nat)
    requires ValidConfig(g) && p < |g.cpuOf|
  {
    && IsRun(g, states, actions)
    && var s := states[|actions|];
       AtRest(s) && Shape(g, s) && p in s.pending && p !in s.mask && !Announced(g, s, p)
  }

  /** The exact condition: a port never loses an event, in any run, if and only if
      it fits the locals of the upcall. */
  lemma NeverLostExactlyIfSeen(g: Config, p: nat)
    requires ValidConfig(g) && p < |g.cpuOf|
    ensures Seen(g, p) <==> forall states, actions :: !Loses(g, states, actions, p)
  {
    if Seen(g, p) {
      forall states, actions
        ensures !Loses(g, states, actions, p)
      {
        if Loses(g, states, actions, p) {
          NoEventIsLost(g, states, actions, |actions|, p);
        }
      }
    } else {
      var states, actions := LosingRun(g, p, {});
      assert Loses(g, states, actions, p);
    }
  }

  /** With longs of 64 bits and ints of 32, as the code has them, the ports below
      2048 with an odd multiple of 32 at their bit 5 are lost, port 32 the first
      of them, and so are all from 2048 on. */
  lemma SeenPorts(g: Config, p: nat)
    requires ValidConfig(g) && g.wordBits == 64 && g.localBits == 32
    ensures Seen(g, p) <==> p < 2048 && p / 32 % 2 == 0
    ensures !Seen(g, 32) && forall q | 0 <= q < 32 :: Seen(g, q)
  {
  }
}
