/** The binding tables of Xen event channels (xen/evtchn.cc): IRQ to port, port to
    IRQ, reference counts, the per-CPU VIRQ and IPI tables and the per-CPU
    delivery masks, in the SMP build. */
module EventBindings {

  const NR_EVENT_CHANNELS := 4096
  const NR_PIRQS := 128
  const NR_IRQS := 256
  const MAX_VIRT_CPUS := 32

  /** Binding types; an IRQ of the two per-CPU kinds also has a sub-type index. */
  datatype Kind = Unbound | Pirq | Virq | Ipi | LocalPort | CallerPort

  /** What `irq_info` packs into a word. */
  datatype Info = Info(kind: Kind, index: nat, evtchn: nat)

  const IRQ_UNBOUND := Info(Unbound, 0, 0)

  /** A place in a per-CPU table: `pc_virq_to_irq` or `pc_ipi_to_irq` of a CPU. */
  datatype Slot = Slot(kind: Kind, cpu: nat, index: nat)

  datatype Tables = Tables(
    evtchnToIrq: seq<int>,      // by port; -1: none
    irqInfo: seq<Info>,         // by IRQ
    bindcount: seq<int>,        // by IRQ
    slots: map<Slot, nat>,      // absent: -1
    cpuEvtchn: seq<nat>,        // by port, the CPU it is delivered to
    cpuMask: seq<seq<bool>>)    // by CPU and port, whether the CPU looks at it

  predicate Dynamic(irq: int) {
    NR_PIRQS <= irq < NR_IRQS
  }

  predicate IsPort(p: int) {
    0 <= p < NR_EVENT_CHANNELS
  }

  predicate PerCpu(k: Kind) {
    k.Virq? || k.Ipi?
  }

  predicate Shape(t: Tables) {
    && |t.evtchnToIrq| == |t.cpuEvtchn| == NR_EVENT_CHANNELS
    && |t.irqInfo| == |t.bindcount| == NR_IRQS
    && 1 <= |t.cpuMask| <= MAX_VIRT_CPUS
    && (forall c | 0 <= c < |t.cpuMask| :: |t.cpuMask[c]| == NR_EVENT_CHANNELS)
  }

  /** An IRQ that has references and a port other than 0 is what that port maps to, and
      one of a per-CPU kind is known to the per-CPU tables where its kind, its index
      and the CPU of its port say. Without references it has neither. */
  predicate IrqOk(t: Tables, irq: nat)
    requires Shape(t) && Dynamic(irq)
  {
    var info := t.irqInfo[irq];
    && t.bindcount[irq] >= 0 && IsPort(info.evtchn)
    && (t.bindcount[irq] == 0 ==> info.evtchn == 0)
    && (info.evtchn != 0 ==> t.evtchnToIrq[info.evtchn] == irq)
    && (if PerCpu(info.kind) then
          var s := Slot(info.kind, t.cpuEvtchn[info.evtchn], info.index);
          info.evtchn != 0 && s in t.slots && t.slots[s] == irq
        else t.cpuEvtchn[info.evtchn] == 0)
  }

  /** A port other than 0 maps to an IRQ that owns it, or is unbound and then with
      CPU 0, as port 0 always is. */
  predicate PortOk(t: Tables, port: nat)
    requires Shape(t) && IsPort(port)
  {
    var irq := t.evtchnToIrq[port];
    && t.cpuEvtchn[port] < |t.cpuMask|
    && (port == 0 || irq == -1 ==> t.cpuEvtchn[port] == 0)
    && (irq != -1 ==> Dynamic(irq))
    && (irq != -1 && port != 0 ==> t.bindcount[irq] > 0 && t.irqInfo[irq].evtchn == port)
  }

  /** A port is in the mask of its own CPU and in no other. */
  predicate MaskOk(t: Tables, c: nat, port: nat)
    requires Shape(t) && c < |t.cpuMask| && IsPort(port)
  {
    t.cpuMask[c][port] <==> t.cpuEvtchn[port] == c
  }

  /** An occupied slot holds an IRQ bound to just that. */
  predicate SlotOk(t: Tables, s: Slot)
    requires Shape(t) && s in t.slots
  {
    var irq := t.slots[s];
    && Dynamic(irq) && t.bindcount[irq] > 0 && PerCpu(s.kind)
    && t.irqInfo[irq].kind == s.kind && t.irqInfo[irq].index == s.index
    && IsPort(t.irqInfo[irq].evtchn) && t.cpuEvtchn[t.irqInfo[irq].evtchn] == s.cpu
  }

  /** What every operation keeps. */
  ghost predicate Inv(t: Tables) {
    && Shape(t)
    && (forall irq | Dynamic(irq) :: IrqOk(t, irq))
    && (forall port | IsPort(port) :: PortOk(t, port))
    && (forall c, port | 0 <= c < |t.cpuMask| && IsPort(port) :: MaskOk(t, c, port))
    && (forall s | s in t.slots :: SlotOk(t, s))
  }

  /** What holds besides, until a reference to port 0 is the last one to be dropped
      (see `Leaks`): an IRQ without references has nothing left in its packed word, and
      port 0, too, and its IRQ belong to each other. */
  ghost predicate Clean(t: Tables) {
    Shape(t) && ZeroOk(t) && forall irq | Dynamic(irq) :: CleanIrq(t, irq)
  }

  predicate CleanIrq(t: Tables, irq: nat)
    requires Shape(t) && Dynamic(irq)
  {
    if t.bindcount[irq] == 0 then t.irqInfo[irq] == IRQ_UNBOUND
    else t.irqInfo[irq].evtchn == 0 ==> t.evtchnToIrq[0] == irq
  }

  predicate ZeroOk(t: Tables)
    requires Shape(t)
  {
    var irq := t.evtchnToIrq[0];
    irq != -1 ==> Dynamic(irq) && t.bindcount[irq] > 0 && t.irqInfo[irq].evtchn == 0
  }

  /** As evtchn_init leaves them: nothing bound, every port with CPU 0. */
  function Boot(cpus: nat): Tables
    requires 1 <= cpus <= MAX_VIRT_CPUS
  {
    Tables(seq(NR_EVENT_CHANNELS, _ => -1), seq(NR_IRQS, _ => IRQ_UNBOUND), seq(NR_IRQS, _ => 0), map[],
           seq(NR_EVENT_CHANNELS, _ => 0), seq(cpus, c => BootMask(c)))
  }

  function BootMask(cpu: int): seq<bool> {
    seq(NR_EVENT_CHANNELS, _ => cpu == 0)
  }

  lemma BootInv(cpus: nat)
    requires 1 <= cpus <= MAX_VIRT_CPUS
    ensures Inv(Boot(cpus)) && Clean(Boot(cpus))
  {
  }

  // ---- operations ----------------------------------------------------------

  predicate SomeUnbound(bindcount: seq<int>)
    requires |bindcount| == NR_IRQS
  {
    exists k | NR_PIRQS <= k < NR_IRQS :: bindcount[k] == 0
  }

  /** The dynamic IRQ that find_unbound_irq settles on: the first without bindings. */
  function FindUnbound(bindcount: seq<int>, from: nat): (irq: nat)
    requires |bindcount| == NR_IRQS && exists k | from <= k < NR_IRQS :: bindcount[k] == 0
    ensures from <= irq < NR_IRQS && bindcount[irq] == 0
    ensures forall k | from <= k < irq :: bindcount[k] != 0
    decreases NR_IRQS - from
  {
    if bindcount[from] == 0 then from else FindUnbound(bindcount, from + 1)
  }

  /** bind_evtchn_to_cpu: moves a port from its CPU's mask to another's. */
  function Rehome(t: Tables, port: nat, cpu: nat): Tables
    requires Shape(t) && IsPort(port) && cpu < |t.cpuMask| && t.cpuEvtchn[port] < |t.cpuMask|
  {
    var was := t.cpuEvtchn[port];
    var cleared := t.cpuMask[was := t.cpuMask[was][port := false]];
    t.(cpuMask := cleared[cpu := cleared[cpu][port := true]], cpuEvtchn := t.cpuEvtchn[port := cpu])
  }

  /** More, or fewer, references to an IRQ. */
  function Recount(t: Tables, irq: nat, delta: int): Tables
    requires Shape(t) && irq < NR_IRQS
  {
    t.(bindcount := t.bindcount[irq := t.bindcount[irq] + delta])
  }

  /** `irq` and `port` find each other. */
  function Attach(t: Tables, irq: nat, info: Info): Tables
    requires Shape(t) && irq < NR_IRQS && IsPort(info.evtchn)
  {
    t.(evtchnToIrq := t.evtchnToIrq[info.evtchn := irq], irqInfo := t.irqInfo[irq := info])
  }

  /** A fresh VIRQ or IPI binding: also recorded with its CPU, and delivered there. */
  function AttachToCpu(t: Tables, irq: nat, info: Info, cpu: nat): Tables
    requires Shape(t) && irq < NR_IRQS && IsPort(info.evtchn)
    requires cpu < |t.cpuMask| && t.cpuEvtchn[info.evtchn] < |t.cpuMask|
  {
    var t1 := Attach(t, irq, info);
    Rehome(t1.(slots := t1.slots[Slot(info.kind, cpu, info.index) := irq]), info.evtchn, cpu)
  }

  /** The last reference goes: slot, delivery, port and packed word. */
  function Detach(t: Tables, irq: nat): Tables
    requires Shape(t) && irq < NR_IRQS
    requires IsPort(t.irqInfo[irq].evtchn) && t.cpuEvtchn[t.irqInfo[irq].evtchn] < |t.cpuMask|
  {
    var Info(kind, index, port) := t.irqInfo[irq];
    var t1 := if PerCpu(kind) then t.(slots := t.slots - {Slot(kind, t.cpuEvtchn[port], index)}) else t;
    var t2 := Rehome(t1, port, 0);
    t2.(bindcount := t2.bindcount[irq := 0], evtchnToIrq := t2.evtchnToIrq[port := -1],
        irqInfo := t2.irqInfo[irq := IRQ_UNBOUND])
  }

  /** unbind_from_irq: a binding is taken down with its last reference, provided its
      port is a valid one, that is, not 0. */
  function Release(t: Tables, irq: nat): Tables
    requires Shape(t) && irq < NR_IRQS
    requires IsPort(t.irqInfo[irq].evtchn) && t.cpuEvtchn[t.irqInfo[irq].evtchn] < |t.cpuMask|
  {
    if t.bindcount[irq] == 1 && t.irqInfo[irq].evtchn != 0 then Detach(t, irq) else Recount(t, irq, -1)
  }

  // ---- each of them keeps the invariant ------------------------------------

  /** Changing the count of an IRQ, to 0 only if it has no port but 0. */
  lemma RecountKeeps(t: Tables, irq: nat, delta: int)
    requires Inv(t) && Dynamic(irq) && t.bindcount[irq] + delta >= 0
    requires t.bindcount[irq] + delta == 0 ==> t.irqInfo[irq].evtchn == 0
    ensures Inv(Recount(t, irq, delta))
  {
    var t' := Recount(t, irq, delta);
    assert IrqOk(t, irq);
    forall k | Dynamic(k)
      ensures IrqOk(t', k)
    {
      assert IrqOk(t, k);
    }
    forall p | IsPort(p)
      ensures PortOk(t', p)
    {
      assert PortOk(t, p);
    }
    forall c, p | 0 <= c < |t'.cpuMask| && IsPort(p)
      ensures MaskOk(t', c, p)
    {
      assert MaskOk(t, c, p);
    }
    forall s | s in t'.slots
      ensures SlotOk(t', s)
    {
      assert SlotOk(t, s);
    }
  }

  lemma AttachKeeps(t: Tables, irq: nat, info: Info)
    requires Inv(t) && Dynamic(irq) && t.bindcount[irq] == 0
    requires IsPort(info.evtchn) && t.evtchnToIrq[info.evtchn] == -1
    requires info.kind.LocalPort? || info.kind.CallerPort?
    ensures Inv(Recount(Attach(t, irq, info), irq, 1))
  {
    var t' := Recount(Attach(t, irq, info), irq, 1);
    assert PortOk(t, info.evtchn);
    forall k | Dynamic(k)
      ensures IrqOk(t', k)
    {
      assert IrqOk(t, k);
    }
    forall p | IsPort(p)
      ensures PortOk(t', p)
    {
      assert PortOk(t, p);
    }
    forall c, p | 0 <= c < |t'.cpuMask| && IsPort(p)
      ensures MaskOk(t', c, p)
    {
      assert MaskOk(t, c, p);
    }
    forall s | s in t'.slots
      ensures SlotOk(t', s)
    {
      assert SlotOk(t, s);
    }
  }

  /** A fresh per-CPU binding may be entered. */
  ghost predicate CanAttachToCpu(t: Tables, irq: nat, info: Info, cpu: nat) {
    && Inv(t) && Dynamic(irq) && t.bindcount[irq] == 0
    && FreshPort(t, info.evtchn) && t.cpuEvtchn[info.evtchn] < |t.cpuMask|
    && PerCpu(info.kind) && cpu < |t.cpuMask| && Slot(info.kind, cpu, info.index) !in t.slots
  }

  function Attached(t: Tables, irq: nat, info: Info, cpu: nat): Tables
    requires Shape(t) && irq < NR_IRQS && IsPort(info.evtchn)
    requires cpu < |t.cpuMask| && t.cpuEvtchn[info.evtchn] < |t.cpuMask|
  {
    Recount(AttachToCpu(t, irq, info, cpu), irq, 1)
  }

  lemma AttachedIrq(t: Tables, irq: nat, info: Info, cpu: nat, k: nat)
    requires CanAttachToCpu(t, irq, info, cpu) && Dynamic(k)
    ensures IrqOk(Attached(t, irq, info, cpu), k)
  {
    assert PortOk(t, info.evtchn) && IrqOk(t, k);
  }

  lemma AttachedPort(t: Tables, irq: nat, info: Info, cpu: nat, p: nat)
    requires CanAttachToCpu(t, irq, info, cpu) && IsPort(p)
    ensures PortOk(Attached(t, irq, info, cpu), p)
  {
    assert PortOk(t, p);
  }

  lemma AttachedMask(t: Tables, irq: nat, info: Info, cpu: nat, c: nat, p: nat)
    requires CanAttachToCpu(t, irq, info, cpu) && c < |t.cpuMask| && IsPort(p)
    ensures MaskOk(Attached(t, irq, info, cpu), c, p)
  {
    assert MaskOk(t, c, p);
  }

  lemma AttachedSlot(t: Tables, irq: nat, info: Info, cpu: nat, s: Slot)
    requires CanAttachToCpu(t, irq, info, cpu) && s in Attached(t, irq, info, cpu).slots
    ensures SlotOk(Attached(t, irq, info, cpu), s)
  {
    if s in t.slots {
      assert SlotOk(t, s);
      assert PortOk(t, t.irqInfo[t.slots[s]].evtchn);
      assert IrqOk(t, t.slots[s]);
    }
  }

  lemma AttachToCpuKeeps(t: Tables, irq: nat, info: Info, cpu: nat)
    requires CanAttachToCpu(t, irq, info, cpu)
    ensures Inv(Attached(t, irq, info, cpu))
  {
    var t' := Attached(t, irq, info, cpu);
    assert Shape(t') && |t'.cpuMask| == |t.cpuMask|;
    hide IrqOk, PortOk, MaskOk, SlotOk, CanAttachToCpu, Attached, Shape;
    forall k | Dynamic(k)
      ensures IrqOk(t', k)
    {
      AttachedIrq(t, irq, info, cpu, k);
    }
    forall p | IsPort(p)
      ensures PortOk(t', p)
    {
      AttachedPort(t, irq, info, cpu, p);
    }
    forall c, p | 0 <= c < |t'.cpuMask| && IsPort(p)
      ensures MaskOk(t', c, p)
    {
      AttachedMask(t, irq, info, cpu, c, p);
    }
    forall s | s in t'.slots
      ensures SlotOk(t', s)
    {
      AttachedSlot(t, irq, info, cpu, s);
    }
  }

  /** A binding may be taken down. */
  ghost predicate CanDetach(t: Tables, irq: nat) {
    && Inv(t) && Dynamic(irq) && t.bindcount[irq] == 1 && t.irqInfo[irq].evtchn != 0
    && IsPort(t.irqInfo[irq].evtchn) && t.cpuEvtchn[t.irqInfo[irq].evtchn] < |t.cpuMask|
  }

  lemma DetachIrq(t: Tables, irq: nat, k: nat)
    requires CanDetach(t, irq) && Dynamic(k)
    ensures IrqOk(Detach(t, irq), k)
  {
    assert IrqOk(t, irq) && IrqOk(t, k) && PortOk(t, 0);
  }

  lemma DetachPort(t: Tables, irq: nat, p: nat)
    requires CanDetach(t, irq) && IsPort(p)
    ensures PortOk(Detach(t, irq), p)
  {
    assert IrqOk(t, irq) && PortOk(t, p);
  }

  lemma DetachMask(t: Tables, irq: nat, c: nat, p: nat)
    requires CanDetach(t, irq) && c < |t.cpuMask| && IsPort(p)
    ensures MaskOk(Detach(t, irq), c, p)
  {
    assert MaskOk(t, c, p);
  }

  lemma DetachSlot(t: Tables, irq: nat, s: Slot)
    requires CanDetach(t, irq) && s in Detach(t, irq).slots
    ensures SlotOk(Detach(t, irq), s)
  {
    assert SlotOk(t, s) && IrqOk(t, irq) && IrqOk(t, t.slots[s]);
  }

  lemma DetachKeeps(t: Tables, irq: nat)
    requires CanDetach(t, irq)
    ensures Inv(Detach(t, irq))
  {
    var t' := Detach(t, irq);
    assert Shape(t') && |t'.cpuMask| == |t.cpuMask|;
    hide IrqOk, SlotOk, PortOk, MaskOk, CanDetach, Detach, Shape;
    forall k | Dynamic(k)
      ensures IrqOk(t', k)
    {
      DetachIrq(t, irq, k);
    }
    forall p | IsPort(p)
      ensures PortOk(t', p)
    {
      DetachPort(t, irq, p);
    }
    forall c, p | 0 <= c < |t'.cpuMask| && IsPort(p)
      ensures MaskOk(t', c, p)
    {
      DetachMask(t, irq, c, p);
    }
    forall s | s in t'.slots
      ensures SlotOk(t', s)
    {
      DetachSlot(t, irq, s);
    }
  }

  // ---- all sequences of operations -----------------------------------------

  /** The operations; the ports of new VIRQ and IPI bindings come from Xen. */
  datatype Op =
    | BindCallerPort(port: nat)
    | BindLocalPort(port: nat)
    | BindToCpu(kind: Kind, index: nat, cpu: nat, port: nat)
    | Unbind(irq: nat)

  /** A port Xen may hand out: none of those in use, and never port 0. */
  predicate FreshPort(t: Tables, port: nat)
    requires Shape(t)
  {
    IsPort(port) && port != 0 && t.evtchnToIrq[port] == -1
  }

  /** The operation enters a new binding, for which an IRQ has to be free. */
  predicate IsFresh(t: Tables, op: Op)
    requires Shape(t)
  {
    match op
    case BindCallerPort(port) => IsPort(port) && t.evtchnToIrq[port] == -1
    case BindLocalPort(_) => true
    case BindToCpu(kind, index, cpu, _) => Slot(kind, cpu, index) !in t.slots
    case Unbind(_) => false
  }

  /** What callers and Xen have to see to: ports, CPUs and kinds there are, new ports
      that are not in use, and that only what is bound is unbound. */
  predicate Asked(t: Tables, op: Op)
    requires Shape(t)
  {
    match op
    case BindCallerPort(port) => IsPort(port)
    case BindLocalPort(port) => FreshPort(t, port)
    case BindToCpu(kind, index, cpu, port) =>
      PerCpu(kind) && cpu < |t.cpuMask| && (Slot(kind, cpu, index) in t.slots || FreshPort(t, port))
    case Unbind(irq) => Dynamic(irq) && t.bindcount[irq] > 0
  }

  /** ... and find_unbound_irq finds an IRQ where one is needed. */
  predicate Allowed(t: Tables, op: Op)
    requires Shape(t)
  {
    Asked(t, op) && (IsFresh(t, op) ==> SomeUnbound(t.bindcount))
  }

  ghost function Apply(t: Tables, op: Op): Tables
    requires Inv(t) && Allowed(t, op)
  {
    var irq := if SomeUnbound(t.bindcount) then FindUnbound(t.bindcount, NR_PIRQS) else 0;
    match op
    case BindCallerPort(port) =>
      assert PortOk(t, port);
      if t.evtchnToIrq[port] != -1 then Recount(t, t.evtchnToIrq[port], 1)
      else Recount(Attach(t, irq, Info(CallerPort, 0, port)), irq, 1)
    case BindLocalPort(port) => Recount(Attach(t, irq, Info(LocalPort, 0, port)), irq, 1)
    case BindToCpu(kind, index, cpu, port) =>
      var s := Slot(kind, cpu, index);
      if s in t.slots then
        assert SlotOk(t, s);
        Recount(t, t.slots[s], 1)
      else
        assert PortOk(t, port);
        Recount(AttachToCpu(t, irq, Info(kind, index, port), cpu), irq, 1)
    case Unbind(irq) =>
      assert IrqOk(t, irq) && PortOk(t, t.irqInfo[irq].evtchn);
      Release(t, irq)
  }

  lemma ApplyKeeps(t: Tables, op: Op)
    requires Inv(t) && Allowed(t, op)
    ensures Inv(Apply(t, op))
  {
    match op
    case BindCallerPort(port) =>
      assert PortOk(t, port);
      if t.evtchnToIrq[port] != -1 {
        assert IrqOk(t, t.evtchnToIrq[port]);
        RecountKeeps(t, t.evtchnToIrq[port], 1);
      } else {
        AttachKeeps(t, FindUnbound(t.bindcount, NR_PIRQS), Info(CallerPort, 0, port));
      }
    case BindLocalPort(port) =>
      AttachKeeps(t, FindUnbound(t.bindcount, NR_PIRQS), Info(LocalPort, 0, port));
    case BindToCpu(kind, index, cpu, port) =>
      var s := Slot(kind, cpu, index);
      if s in t.slots {
        assert SlotOk(t, s);
        RecountKeeps(t, t.slots[s], 1);
      } else {
        assert PortOk(t, port);
        AttachToCpuKeeps(t, FindUnbound(t.bindcount, NR_PIRQS), Info(kind, index, port), cpu);
      }
    case Unbind(irq) =>
      assert IrqOk(t, irq) && PortOk(t, t.irqInfo[irq].evtchn);
      if t.bindcount[irq] == 1 && t.irqInfo[irq].evtchn != 0 {
        DetachKeeps(t, irq);
      } else {
        RecountKeeps(t, irq, -1);
      }
  }

  /** The last reference to port 0 goes: the binding stays behind without one. */
  predicate Leaks(t: Tables, op: Op)
    requires Shape(t)
  {
    op.Unbind? && op.irq < NR_IRQS && t.bindcount[op.irq] == 1 && t.irqInfo[op.irq].evtchn == 0
  }

  lemma RecountStaysClean(t: Tables, irq: nat, delta: int)
    requires Inv(t) && Clean(t) && Dynamic(irq) && t.bindcount[irq] > 0 && t.bindcount[irq] + delta > 0
    ensures Clean(Recount(t, irq, delta))
  {
    forall k | Dynamic(k)
      ensures CleanIrq(Recount(t, irq, delta), k)
    {
      assert CleanIrq(t, k);
    }
  }

  lemma AttachStaysClean(t: Tables, irq: nat, info: Info)
    requires Inv(t) && Clean(t) && Dynamic(irq) && t.bindcount[irq] == 0
    requires IsPort(info.evtchn) && t.evtchnToIrq[info.evtchn] == -1
    ensures Clean(Recount(Attach(t, irq, info), irq, 1))
  {
    forall k | Dynamic(k)
      ensures CleanIrq(Recount(Attach(t, irq, info), irq, 1), k)
    {
      assert CleanIrq(t, k) && IrqOk(t, k);
    }
  }

  lemma AttachedStaysClean(t: Tables, irq: nat, info: Info, cpu: nat)
    requires CanAttachToCpu(t, irq, info, cpu) && Clean(t)
    ensures Clean(Attached(t, irq, info, cpu))
  {
    assert Shape(Attached(t, irq, info, cpu));
    forall k | Dynamic(k)
      ensures CleanIrq(Attached(t, irq, info, cpu), k)
    {
      assert CleanIrq(t, k) && IrqOk(t, k);
    }
  }

  lemma DetachStaysClean(t: Tables, irq: nat)
    requires CanDetach(t, irq) && Clean(t)
    ensures Clean(Detach(t, irq))
  {
    assert Shape(Detach(t, irq));
    forall k | Dynamic(k)
      ensures CleanIrq(Detach(t, irq), k)
    {
      assert CleanIrq(t, k) && IrqOk(t, k);
    }
  }

  lemma ApplyStaysClean(t: Tables, op: Op)
    requires Inv(t) && Clean(t) && Allowed(t, op) && !Leaks(t, op)
    ensures Clean(Apply(t, op))
  {
    match op
    case BindCallerPort(port) =>
      assert PortOk(t, port);
      if t.evtchnToIrq[port] != -1 {
        RecountStaysClean(t, t.evtchnToIrq[port], 1);
      } else {
        AttachStaysClean(t, FindUnbound(t.bindcount, NR_PIRQS), Info(CallerPort, 0, port));
      }
    case BindLocalPort(port) =>
      AttachStaysClean(t, FindUnbound(t.bindcount, NR_PIRQS), Info(LocalPort, 0, port));
    case BindToCpu(kind, index, cpu, port) =>
      var s := Slot(kind, cpu, index);
      if s in t.slots {
        assert SlotOk(t, s);
        RecountStaysClean(t, t.slots[s], 1);
      } else {
        assert PortOk(t, port);
        AttachedStaysClean(t, FindUnbound(t.bindcount, NR_PIRQS), Info(kind, index, port), cpu);
      }
    case Unbind(irq) =>
      assert IrqOk(t, irq) && PortOk(t, t.irqInfo[irq].evtchn);
      if t.bindcount[irq] == 1 {
        DetachStaysClean(t, irq);
      } else {
        RecountStaysClean(t, irq, -1);
      }
  }

  /** `states` is what a sequence of allowed operations makes of the boot state.
      `Apply` is defined on states with the invariant; that these are all there
      are is what `Reachable` shows. */
  ghost predicate IsRun(cpus: nat, states: seq<Tables>, ops: seq<Op>) {
    && 1 <= cpus <= MAX_VIRT_CPUS && |states| == |ops| + 1 && states[0] == Boot(cpus)
    && forall i | 0 <= i < |ops| ::
         Inv(states[i]) ==> Allowed(states[i], ops[i]) && states[i + 1] == Apply(states[i], ops[i])
  }

  lemma {:induction false} Reachable(cpus: nat, states: seq<Tables>, ops: seq<Op>, i: nat)
    requires IsRun(cpus, states, ops) && i <= |ops|
    ensures Inv(states[i])
  {
    hide Inv, Apply, Allowed;
    if i == 0 {
      BootInv(cpus);
    } else {
      Reachable(cpus, states, ops, i - 1);
      ApplyKeeps(states[i - 1], ops[i - 1]);
    }
  }

  /** No operation before the `i`-th drops the last reference to port 0. */
  ghost predicate NoLeakBefore(states: seq<Tables>, ops: seq<Op>, i: nat) {
    i <= |ops| < |states| && forall k | 0 <= k < i :: Shape(states[k]) && !Leaks(states[k], ops[k])
  }

  lemma {:induction false} ReachableIsClean(cpus: nat, states: seq<Tables>, ops: seq<Op>, i: nat)
    requires IsRun(cpus, states, ops) && NoLeakBefore(states, ops, i)
    ensures Inv(states[i]) && Clean(states[i])
  {
    hide Inv, Clean, Apply, Allowed, Leaks;
    Reachable(cpus, states, ops, i);
    if i == 0 {
      BootInv(cpus);
    } else {
      ReachableIsClean(cpus, states, ops, i - 1);
      ApplyStaysClean(states[i - 1], ops[i - 1]);
    }
  }

  // ---- the tables are inverse to each other --------------------------------

  /** A dynamic IRQ has references exactly if the port in its packed word maps
      back to it, and no two IRQs that have references share a port. */
  ghost predicate Inverse(t: Tables) {
    && Shape(t)
    && (forall irq | Dynamic(irq) :: Paired(t, irq))
    && (forall irq, other | Dynamic(irq) && Dynamic(other) && irq != other :: Apart(t, irq, other))
  }

  predicate Paired(t: Tables, irq: nat)
    requires Shape(t) && Dynamic(irq)
  {
    var port := t.irqInfo[irq].evtchn;
    t.bindcount[irq] > 0 <==> IsPort(port) && t.evtchnToIrq[port] == irq
  }

  predicate Apart(t: Tables, irq: nat, other: nat)
    requires Shape(t) && Dynamic(irq) && Dynamic(other)
  {
    t.bindcount[irq] > 0 && t.bindcount[other] > 0 ==> t.irqInfo[irq].evtchn != t.irqInfo[other].evtchn
  }

  lemma TablesAreInverse(t: Tables)
    requires Inv(t) && Clean(t)
    ensures Inverse(t)
  {
    forall irq | Dynamic(irq)
      ensures Paired(t, irq)
    {
      assert IrqOk(t, irq) && CleanIrq(t, irq);
      if IsPort(t.irqInfo[irq].evtchn) {
        assert PortOk(t, t.irqInfo[irq].evtchn);
      }
    }
    forall irq, other | Dynamic(irq) && Dynamic(other) && irq != other
      ensures Apart(t, irq, other)
    {
      assert IrqOk(t, irq) && IrqOk(t, other) && CleanIrq(t, irq) && CleanIrq(t, other);
    }
  }

  lemma LeakBreaks(t: Tables, op: Op)
    requires Inv(t) && Clean(t) && Allowed(t, op) && Leaks(t, op)
    ensures !Inverse(Apply(t, op))
  {
    assert IrqOk(t, op.irq) && CleanIrq(t, op.irq);
    assert !Paired(Apply(t, op), op.irq);
  }

  /** The first operation that leaks. */
  lemma {:induction false} FirstLeak(states: seq<Tables>, ops: seq<Op>, n: nat) returns (i: nat)
    requires n <= |ops| < |states| && (forall k | 0 <= k < n :: Shape(states[k])) && !NoLeakBefore(states, ops, n)
    ensures i < n && NoLeakBefore(states, ops, i) && Shape(states[i]) && Leaks(states[i], ops[i])
    decreases n
  {
    hide Shape, Leaks;
    if n > 0 && NoLeakBefore(states, ops, n - 1) {
      i := n - 1;
    } else if n > 0 {
      i := FirstLeak(states, ops, n - 1);
    }
  }

  /** In every run, the tables are inverse to each other in all states if and only
      if the last reference to port 0 is never dropped. */
  lemma InverseExactlyIfNoLeak(cpus: nat, states: seq<Tables>, ops: seq<Op>)
    requires IsRun(cpus, states, ops)
    ensures (forall i | 0 <= i <= |ops| :: Inverse(states[i])) <==> NoLeakBefore(states, ops, |ops|)
  {
    forall i: nat | i <= |ops|
      ensures Inv(states[i]) && Shape(states[i])
    {
      Reachable(cpus, states, ops, i);
    }
    hide Inv, Clean, Inverse, Apply, Allowed, Leaks, Shape;
    if NoLeakBefore(states, ops, |ops|) {
      forall i: nat | i <= |ops|
        ensures Inverse(states[i])
      {
        ReachableIsClean(cpus, states, ops, i);
        TablesAreInverse(states[i]);
      }
    } else {
      var i := FirstLeak(states, ops, |ops|);
      ReachableIsClean(cpus, states, ops, i);
      LeakBreaks(states[i], ops[i]);
      assert !Inverse(states[i + 1]);
    }
  }

  // ---- what holds in every run ---------------------------------------------

  /** A slot holds an IRQ exactly if that IRQ is bound to the slot's kind and
      index and its port is delivered to the slot's CPU. */
  ghost predicate SlotAgrees(t: Tables, s: Slot, irq: nat)
    requires Shape(t) && Dynamic(irq)
  {
    s in t.slots && t.slots[s] == irq <==>
    && t.bindcount[irq] > 0 && t.irqInfo[irq].kind == s.kind && t.irqInfo[irq].index == s.index
    && IsPort(t.irqInfo[irq].evtchn) && t.cpuEvtchn[t.irqInfo[irq].evtchn] == s.cpu
  }

  /** In every state of every run the per-CPU tables agree with the packed words. */
  lemma SlotsAgree(cpus: nat, states: seq<Tables>, ops: seq<Op>, i: nat, s: Slot, irq: nat)
    requires IsRun(cpus, states, ops) && i <= |ops| && Dynamic(irq) && PerCpu(s.kind)
    ensures Shape(states[i]) && SlotAgrees(states[i], s, irq)
  {
    Reachable(cpus, states, ops, i);
    assert IrqOk(states[i], irq);
    if s in states[i].slots {
      assert SlotOk(states[i], s);
    }
  }

  /** The IRQ that a bind returned, read off the tables it left. */
  function Returned(t: Tables, op: Op): int
    requires Shape(t)
  {
    match op
    case BindCallerPort(port) => if IsPort(port) then t.evtchnToIrq[port] else -1
    case BindLocalPort(port) => if IsPort(port) then t.evtchnToIrq[port] else -1
    case BindToCpu(kind, index, cpu, _) =>
      if Slot(kind, cpu, index) in t.slots then t.slots[Slot(kind, cpu, index)] else -1
    case Unbind(_) => -1
  }

  /** The binds that returned an IRQ, less the unbinds of it, among the first `i`. */
  ghost function Users(states: seq<Tables>, ops: seq<Op>, irq: nat, i: nat): int
    requires i <= |ops| < |states| && forall k | 0 <= k <= i :: Shape(states[k])
  {
    if i == 0 then 0
    else
      Users(states, ops, irq, i - 1) + Change(states[i], ops[i - 1], irq)
  }

  /** By how much an operation changes the users of an IRQ. */
  function Change(t: Tables, op: Op, irq: nat): int
    requires Shape(t)
  {
    if op == Unbind(irq) then -1 else if Returned(t, op) == irq then 1 else 0
  }

  lemma RehomeLeaves(t: Tables, port: nat, cpu: nat)
    requires Shape(t) && IsPort(port) && cpu < |t.cpuMask| && t.cpuEvtchn[port] < |t.cpuMask|
    ensures var t' := Rehome(t, port, cpu);
            && Shape(t') && t'.bindcount == t.bindcount && t'.slots == t.slots
            && t'.evtchnToIrq == t.evtchnToIrq && t'.irqInfo == t.irqInfo
  {
  }

  lemma UnbindChanges(t: Tables, k: nat, irq: nat)
    requires Inv(t) && Allowed(t, Unbind(k)) && Dynamic(irq)
    ensures Shape(Apply(t, Unbind(k)))
    ensures Apply(t, Unbind(k)).bindcount[irq] - t.bindcount[irq] == if k == irq then -1 else 0
  {
    assert IrqOk(t, k) && PortOk(t, t.irqInfo[k].evtchn);
    var Info(kind, index, port) := t.irqInfo[k];
    RehomeLeaves(if PerCpu(kind) then t.(slots := t.slots - {Slot(kind, t.cpuEvtchn[port], index)}) else t, port, 0);
    hide Inv, Rehome;
  }

  lemma BindToCpuChanges(t: Tables, op: Op, irq: nat)
    requires Inv(t) && Allowed(t, op) && Dynamic(irq) && op.BindToCpu?
    ensures Shape(Apply(t, op))
    ensures Apply(t, op).bindcount[irq] - t.bindcount[irq] == Change(Apply(t, op), op, irq)
  {
    var BindToCpu(kind, index, cpu, port) := op;
    var s := Slot(kind, cpu, index);
    if s in t.slots {
      assert SlotOk(t, s);
    } else {
      assert PortOk(t, port);
      var k := FindUnbound(t.bindcount, NR_PIRQS);
      var t1 := Attach(t, k, Info(kind, index, port));
      RehomeLeaves(t1.(slots := t1.slots[s := k]), port, cpu);
      hide Inv, Rehome;
    }
  }

  lemma CountChanges(t: Tables, op: Op, irq: nat)
    requires Inv(t) && Allowed(t, op) && Dynamic(irq)
    ensures Shape(Apply(t, op))
    ensures Apply(t, op).bindcount[irq] - t.bindcount[irq] == Change(Apply(t, op), op, irq)
  {
    match op
    case BindCallerPort(port) => assert PortOk(t, port);
    case BindLocalPort(port) =>
    case BindToCpu(_, _, _, _) => BindToCpuChanges(t, op, irq);
    case Unbind(k) => UnbindChanges(t, k, irq);
  }

  lemma StateOf(cpus: nat, states: seq<Tables>, ops: seq<Op>, i: nat)
    requires IsRun(cpus, states, ops) && i <= |ops|
    ensures |states| == |ops| + 1 && Inv(states[i]) && Shape(states[i])
    ensures i < |ops| ==> Allowed(states[i], ops[i]) && states[i + 1] == Apply(states[i], ops[i])
    ensures i == 0 ==> forall k | 0 <= k < NR_IRQS :: states[0].bindcount[k] == 0
  {
    Reachable(cpus, states, ops, i);
    hide Apply, Allowed;
  }

  /** In every state of every run an IRQ has one reference for each of its users. */
  lemma {:induction false} CountsUsers(cpus: nat, states: seq<Tables>, ops: seq<Op>, i: nat, irq: nat)
    requires IsRun(cpus, states, ops) && i <= |ops| && Dynamic(irq)
    ensures |ops| < |states| && forall k | 0 <= k <= i :: Shape(states[k])
    ensures Shape(states[i]) && states[i].bindcount[irq] == Users(states, ops, irq, i)
  {
    hide IsRun, Inv, Shape, Apply, Allowed, Change;
    StateOf(cpus, states, ops, i);
    if i > 0 {
      CountsUsers(cpus, states, ops, i - 1, irq);
      StateOf(cpus, states, ops, i - 1);
      CountChanges(states[i - 1], ops[i - 1], irq);
    }
  }

  /** In every state of every run a port other than 0 maps to an IRQ exactly if that has
      references and the port in its packed word; so no two IRQs share such a port. */
  lemma PairedBesidesZero(cpus: nat, states: seq<Tables>, ops: seq<Op>, i: nat, irq: nat, port: nat)
    requires IsRun(cpus, states, ops) && i <= |ops| && Dynamic(irq) && IsPort(port) && port != 0
    ensures Shape(states[i])
    ensures states[i].evtchnToIrq[port] == irq <==>
              states[i].bindcount[irq] > 0 && states[i].irqInfo[irq].evtchn == port
  {
    Reachable(cpus, states, ops, i);
    assert IrqOk(states[i], irq) && PortOk(states[i], port);
  }

  /** In every state of every run every port is looked at by exactly one CPU, that of
      cpu_evtchn, and by CPU 0 if it is unmapped. */
  lemma OneCpuPerPort(cpus: nat, states: seq<Tables>, ops: seq<Op>, i: nat, port: nat)
    requires IsRun(cpus, states, ops) && i <= |ops| && IsPort(port)
    ensures Shape(states[i]) && states[i].cpuEvtchn[port] < |states[i].cpuMask|
    ensures forall c | 0 <= c < |states[i].cpuMask| ::
              states[i].cpuMask[c][port] <==> c == states[i].cpuEvtchn[port]
    ensures states[i].evtchnToIrq[port] == -1 ==> states[i].cpuEvtchn[port] == 0
  {
    Reachable(cpus, states, ops, i);
    var t := states[i];
    assert PortOk(t, port);
    forall c | 0 <= c < |t.cpuMask|
      ensures t.cpuMask[c][port] <==> t.cpuEvtchn[port] == c
    {
      assert MaskOk(t, c, port);
    }
  }

  /** The last unbind of a port other than 0 clears every trace: no other port and no
      per-CPU table mentions the IRQ any more, its port is unbound and back with CPU 0
      only, and nothing else changed. Port 0 still maps to the IRQ only if it did
      without being its port, which takes an earlier leak. */
  lemma UnbindClears(t: Tables, irq: nat)
    requires Inv(t) && Dynamic(irq) && t.bindcount[irq] == 1 && t.irqInfo[irq].evtchn != 0
    ensures var t', port := Apply(t, Unbind(irq)), t.irqInfo[irq].evtchn;
            && Inv(t') && t'.bindcount == t.bindcount[irq := 0]
            && t'.irqInfo == t.irqInfo[irq := IRQ_UNBOUND]
            && (forall p | IsPort(p) && p != 0 :: t'.evtchnToIrq[p] != irq)
            && (Clean(t) ==> t'.evtchnToIrq[0] != irq)
            && (forall s | s in t'.slots :: t'.slots[s] != irq)
            && (forall s | s in t.slots && t.slots[s] != irq :: s in t'.slots && t'.slots[s] == t.slots[s])
            && IsPort(port) && t'.evtchnToIrq == t.evtchnToIrq[port := -1] && t'.cpuEvtchn == t.cpuEvtchn[port := 0]
            && (forall c | 0 <= c < |t'.cpuMask| :: t'.cpuMask[c][port] <==> c == 0)
  {
    ApplyKeeps(t, Unbind(irq));
    var t', port := Apply(t, Unbind(irq)), t.irqInfo[irq].evtchn;
    assert IrqOk(t, irq) && IrqOk(t', irq) && PortOk(t, port) && PortOk(t', port);
    forall p | IsPort(p) && p != 0
      ensures t'.evtchnToIrq[p] != irq
    {
      assert PortOk(t', p);
    }
    forall s | s in t'.slots
      ensures t'.slots[s] != irq
    {
      assert SlotOk(t', s);
    }
    forall c | 0 <= c < |t'.cpuMask|
      ensures t'.cpuMask[c][port] <==> c == 0
    {
      assert MaskOk(t', c, port);
    }
  }

  /** A port that goes to another CPU and back leaves the masks as they were. */
  lemma RehomeAndBack(t: Tables, port: nat, cpu: nat)
    requires Inv(t) && IsPort(port) && t.cpuEvtchn[port] == 0 && cpu < |t.cpuMask|
    ensures Rehome(Rehome(t, port, cpu), port, 0) == t && Rehome(t, port, 0) == t
  {
    var t' := Rehome(Rehome(t, port, cpu), port, 0);
    forall c | 0 <= c < |t.cpuMask|
      ensures t'.cpuMask[c] == t.cpuMask[c]
      ensures Rehome(t, port, 0).cpuMask[c] == t.cpuMask[c]
    {
      assert MaskOk(t, c, port);
    }
  }

  lemma DetachUndoesAttach(t: Tables, irq: nat, info: Info)
    requires Inv(t) && Dynamic(irq) && t.bindcount[irq] == 0 && !PerCpu(info.kind)
    requires IsPort(info.evtchn) && t.evtchnToIrq[info.evtchn] == -1
    ensures t.cpuEvtchn[info.evtchn] == 0
    ensures Detach(Recount(Attach(t, irq, info), irq, 1), irq) == t.(irqInfo := t.irqInfo[irq := IRQ_UNBOUND])
  {
    assert PortOk(t, info.evtchn) && IrqOk(t, irq);
    RehomeAndBack(t, info.evtchn, 0);
    var t' := Detach(Recount(Attach(t, irq, info), irq, 1), irq);
    assert t'.cpuMask == t.cpuMask && t'.cpuEvtchn == t.cpuEvtchn;
    assert t'.evtchnToIrq == t.evtchnToIrq && t'.bindcount == t.bindcount;
    assert t'.irqInfo == t.irqInfo[irq := IRQ_UNBOUND];
  }

  lemma DetachUndoesAttachToCpu(t: Tables, irq: nat, info: Info, cpu: nat)
    requires Inv(t) && Dynamic(irq) && t.bindcount[irq] == 0 && FreshPort(t, info.evtchn) && PerCpu(info.kind)
    requires cpu < |t.cpuMask| && Slot(info.kind, cpu, info.index) !in t.slots
    ensures t.cpuEvtchn[info.evtchn] == 0
    ensures Detach(Recount(AttachToCpu(t, irq, info, cpu), irq, 1), irq) == t.(irqInfo := t.irqInfo[irq := IRQ_UNBOUND])
  {
    assert PortOk(t, info.evtchn) && IrqOk(t, irq);
    RehomeAndBack(t, info.evtchn, cpu);
    var t' := Detach(Recount(AttachToCpu(t, irq, info, cpu), irq, 1), irq);
    assert t'.cpuMask == t.cpuMask && t'.cpuEvtchn == t.cpuEvtchn;
    assert t'.evtchnToIrq == t.evtchnToIrq && t'.bindcount == t.bindcount;
    assert t'.irqInfo == t.irqInfo[irq := IRQ_UNBOUND];
    assert t'.slots == t.slots;
  }

  lemma RestoresInfo(t: Tables, irq: nat)
    requires Shape(t) && irq < NR_IRQS
    ensures t.(irqInfo := t.irqInfo[irq := IRQ_UNBOUND]) == t <==> t.irqInfo[irq] == IRQ_UNBOUND
  {
    if t.irqInfo[irq] == IRQ_UNBOUND {
      assert t.irqInfo[irq := IRQ_UNBOUND] == t.irqInfo;
    } else {
      assert t.irqInfo[irq := IRQ_UNBOUND][irq] != t.irqInfo[irq];
    }
  }

  /** Unbinding a fresh binding restores all tables exactly if it is not that of port 0,
      which keeps its IRQ without a reference, and the IRQ it got was unused: after an
      earlier leak it may be the one that was left behind, which is cleared then. */
  lemma UnbindUndoesBind(t: Tables, op: Op)
    requires Inv(t) && Allowed(t, op) && IsFresh(t, op)
    ensures Inv(Apply(t, op))
    ensures var irq, t' := FindUnbound(t.bindcount, NR_PIRQS), Apply(t, op);
            var zero := op.BindCallerPort? && op.port == 0;
            && Allowed(t', Unbind(irq))
            && (Apply(t', Unbind(irq)) == t <==> !zero && t.irqInfo[irq] == IRQ_UNBOUND)
            && (Clean(t) ==> t.irqInfo[irq] == IRQ_UNBOUND)
            && (zero ==> Apply(t', Unbind(irq)).bindcount[irq] == 0 && Apply(t', Unbind(irq)).evtchnToIrq[0] == irq)
  {
    ApplyKeeps(t, op);
    var irq := FindUnbound(t.bindcount, NR_PIRQS);
    RestoresInfo(t, irq);
    if Clean(t) {
      assert CleanIrq(t, irq);
    }
    match op
    case BindCallerPort(port) =>
      DetachUndoesAttach(t, irq, Info(CallerPort, 0, port));
      if port == 0 {
        assert Apply(Apply(t, op), Unbind(irq)).evtchnToIrq[0] == irq;
      }
    case BindLocalPort(port) => DetachUndoesAttach(t, irq, Info(LocalPort, 0, port));
    case BindToCpu(kind, index, cpu, port) => DetachUndoesAttachToCpu(t, irq, Info(kind, index, port), cpu);
  }

  /** A bind that shares an IRQ is undone by unbinding that: the binding stays up for its
      other users. */
  lemma UnbindUndoesShare(t: Tables, op: Op)
    requires Inv(t) && Allowed(t, op) && !IsFresh(t, op) && !op.Unbind?
    ensures Inv(Apply(t, op))
    ensures var irq := Returned(t, op);
            && Dynamic(irq) && Returned(Apply(t, op), op) == irq
            && Allowed(Apply(t, op), Unbind(irq)) && Apply(Apply(t, op), Unbind(irq)) == t
  {
    ApplyKeeps(t, op);
    var irq := Returned(t, op);
    if op.BindCallerPort? {
      assert PortOk(t, op.port);
    } else {
      assert SlotOk(t, Slot(op.kind, op.cpu, op.index));
    }
    assert IrqOk(t, irq);
    var t' := Apply(Apply(t, op), Unbind(irq));
    assert t'.bindcount == t.bindcount;
  }

  /** What a fresh binding is: the first free IRQ, with one user, bound to just the port,
      kind and index asked for, and delivered to the CPU asked for, or CPU 0; nothing else
      changes. */
  lemma BindEnters(t: Tables, op: Op)
    requires Inv(t) && Allowed(t, op) && IsFresh(t, op)
    ensures var t', irq := Apply(t, op), FindUnbound(t.bindcount, NR_PIRQS);
            var cpu := if op.BindToCpu? then op.cpu else 0;
            && Shape(t') && Returned(t', op) == irq && t'.bindcount[irq] == 1
            && t'.irqInfo[irq]
               == Info(if op.BindToCpu? then op.kind else if op.BindLocalPort? then LocalPort else CallerPort,
                       if op.BindToCpu? then op.index else 0, op.port)
            && t'.evtchnToIrq[op.port] == irq && t'.cpuEvtchn[op.port] == cpu
            && (forall k | 0 <= k < NR_IRQS && k != irq ::
                  t'.bindcount[k] == t.bindcount[k] && t'.irqInfo[k] == t.irqInfo[k])
            && (forall p | IsPort(p) && p != op.port ::
                  t'.evtchnToIrq[p] == t.evtchnToIrq[p] && t'.cpuEvtchn[p] == t.cpuEvtchn[p])
            && (forall s | s in t.slots :: s in t'.slots && t'.slots[s] == t.slots[s])
  {
    assert PortOk(t, op.port);
  }
}
