/** The event channel code itself (xen/evtchn.cc): global arrays updated in place,
    with the binding of an IRQ packed into one word. Each operation is proved
    against the tables of `EventBindings`. */
module EventChannels {
  import opened Options
  import opened EventBindings

  // ---- packed IRQ information ----------------------------------------------

  function TypeCode(k: Kind): nat {
    match k
    case Unbound => 0
    case Pirq => 1
    case Virq => 2
    case Ipi => 3
    case LocalPort => 4
    case CallerPort => 5
  }

  function KindOf(code: nat): Kind {
    match code
    case 1 => Pirq
    case 2 => Virq
    case 3 => Ipi
    case 4 => LocalPort
    case 5 => CallerPort
    case _ => Unbound
  }

  /** mk_irq_info: type in the top 4 bits, index in 16, event channel in 12. */
  function MkIrqInfo(i: Info): nat {
    TypeCode(i.kind) * 0x1000_0000 + i.index * 0x1000 + i.evtchn
  }

  function EvtchnFromIrq(word: nat): nat {
    word % 0x1000
  }

  function IndexFromIrq(word: nat): nat {
    word / 0x1000 % 0x1_0000
  }

  function TypeFromIrq(word: nat): nat {
    word / 0x1000_0000
  }

  function Unpack(word: nat): Info {
    Info(KindOf(TypeFromIrq(word)), IndexFromIrq(word), EvtchnFromIrq(word))
  }

  /** Fields that fit their bits do not run into each other. */
  lemma UnpackMk(i: Info)
    requires i.index < 0x1_0000 && i.evtchn < 0x1000
    ensures MkIrqInfo(i) < 0x1_0000_0000
    ensures Unpack(MkIrqInfo(i)) == i
  {
    var word := MkIrqInfo(i);
    assert word / 0x1000 == TypeCode(i.kind) * 0x1_0000 + i.index;
    assert word / 0x1000_0000 == TypeCode(i.kind);
  }

  /** VIRQ 3 of port 5, for one. */
  lemma PackedExample()
    ensures MkIrqInfo(Info(Virq, 3, 5)) == 0x2000_3005 && MkIrqInfo(Info(CallerPort, 0, 0xFFF)) == 0x5000_0FFF
  {
  }

  /** The table of packed words, read through the accessors. */
  function UnpackAll(words: seq<nat>): (infos: seq<Info>)
    ensures |infos| == |words|
  {
    seq(|words|, i requires 0 <= i < |words| => Unpack(words[i]))
  }

  lemma UnpackAllUpdate(words: seq<nat>, irq: nat, i: Info)
    requires irq < |words| && i.index < 0x1_0000 && i.evtchn < 0x1000
    ensures UnpackAll(words[irq := MkIrqInfo(i)]) == UnpackAll(words)[irq := i]
  {
    UnpackMk(i);
    hide MkIrqInfo, Unpack;
    var a, b := UnpackAll(words[irq := MkIrqInfo(i)]), UnpackAll(words)[irq := i];
    assert forall k | 0 <= k < |words| :: a[k] == b[k];
  }

  lemma UnpackAllUnbound(words: seq<nat>)
    requires forall k | 0 <= k < |words| :: words[k] == MkIrqInfo(IRQ_UNBOUND)
    ensures UnpackAll(words) == seq(|words|, _ => IRQ_UNBOUND)
  {
    UnpackMk(IRQ_UNBOUND);
  }

  /** What binding comes to; `RunsOff` is no return, but stands for the read past
      irq_bindcount that is next. */
  datatype Binding = Bound(irq: int, port: nat) | RunsOff

  // ---- the module's state --------------------------------------------------

  class EventChannels {
    const evtchnToIrq: array<int>
    const irqInfo: array<nat>
    const bindcount: array<int>
    const cpuEvtchn: array<nat>
    const cpuMask: array<seq<bool>>
    var slots: map<Slot, nat>

    ghost function Arrays(): set<object> {
      {evtchnToIrq, irqInfo, bindcount, cpuEvtchn, cpuMask}
    }

    ghost function Contents(): Tables
      reads this, Arrays()
    {
      Tables(evtchnToIrq[..], UnpackAll(irqInfo[..]), bindcount[..], slots, cpuEvtchn[..], cpuMask[..])
    }

    /** The arrays are apart and have their sizes. */
    ghost predicate Ready()
      reads this, Arrays()
    {
      evtchnToIrq != bindcount && irqInfo != cpuEvtchn && Shape(Contents())
    }

    ghost predicate Valid()
      reads this, Arrays()
    {
      Ready() && Inv(Contents())
    }

    /** evtchn_init. */
    constructor (cpus: nat)
      requires 1 <= cpus <= MAX_VIRT_CPUS
      ensures Valid() && fresh(Arrays()) && Contents() == Boot(cpus)
    {
      evtchnToIrq := new int[NR_EVENT_CHANNELS](_ => -1);
      irqInfo := new nat[NR_IRQS](_ => MkIrqInfo(IRQ_UNBOUND));
      bindcount := new int[NR_IRQS](_ => 0);
      cpuEvtchn := new nat[NR_EVENT_CHANNELS](_ => 0);
      cpuMask := new seq<bool>[cpus](c => BootMask(c));
      slots := map[];
      new;
      hide Inv, MkIrqInfo, UnpackAll, BootMask;
      BootInv(cpus);
      UnpackAllUnbound(irqInfo[..]);
      assert Contents() == Boot(cpus);
    }

    /** find_unbound_irq: the first dynamic IRQ without bindings. `None` if all are
        bound: then the loop, which counts to NR_IRQS from the first dynamic one, runs
        past the table. */
    method FindUnboundIrq() returns (irq: Option<nat>)
      requires Ready()
      ensures irq == if SomeUnbound(Contents().bindcount) then Some(FindUnbound(Contents().bindcount, NR_PIRQS))
                     else None
    {
      var k := NR_PIRQS;
      while k < NR_IRQS && bindcount[k] != 0
        invariant NR_PIRQS <= k <= NR_IRQS && bindcount.Length == NR_IRQS
        invariant forall j | NR_PIRQS <= j < k :: bindcount[j] != 0
      {
        k := k + 1;
      }
      if k < NR_IRQS {
        assert bindcount[..][k] == 0;
        FirstUnbound(bindcount[..], NR_PIRQS, k);
        return Some(k);
      }
      return None;
    }

    /** bind_evtchn_to_cpu. */
    method BindEvtchnToCpu(port: nat, cpu: nat)
      requires Ready() && IsPort(port)
      requires cpu < |Contents().cpuMask| && Contents().cpuEvtchn[port] < |Contents().cpuMask|
      modifies cpuEvtchn, cpuMask
      ensures Ready() && Contents() == Rehome(old(Contents()), port, cpu)
    {
      var was := cpuEvtchn[port];
      cpuMask[was] := cpuMask[was][port := false];
      cpuMask[cpu] := cpuMask[cpu][port := true];
      cpuEvtchn[port] := cpu;
    }

    /** Enters a binding in `evtchn_to_irq` and `irq_info`. */
    method Enter(irq: nat, info: Info)
      requires Ready() && irq < NR_IRQS && IsPort(info.evtchn) && info.index < 0x1_0000
      modifies evtchnToIrq, irqInfo
      ensures Ready() && Contents() == Attach(old(Contents()), irq, info)
    {
      evtchnToIrq[info.evtchn] := irq;
      UnpackAllUpdate(irqInfo[..], irq, info);
      hide MkIrqInfo, UnpackAll;
      ghost var words := irqInfo[..];
      irqInfo[irq] := MkIrqInfo(info);
      assert irqInfo[..] == words[irq := MkIrqInfo(info)];
    }

    /** Changes a reference count. */
    method Count(irq: nat, delta: int)
      requires Ready() && irq < NR_IRQS
      modifies bindcount
      ensures Ready() && Contents() == Recount(old(Contents()), irq, delta)
    {
      bindcount[irq] := bindcount[irq] + delta;
    }

    /** evtchn_to_irq[port]. */
    method IrqOf(port: nat) returns (irq: int)
      requires Ready() && IsPort(port)
      ensures irq == Contents().evtchnToIrq[port]
    {
      irq := evtchnToIrq[port];
    }

    /** bind_caller_port_to_irq: shares the IRQ of a port that has one. */
    method BindCallerPortToIrq(callerPort: nat) returns (r: Binding)
      requires Valid() && Asked(Contents(), BindCallerPort(callerPort))
      modifies evtchnToIrq, irqInfo, bindcount
      ensures Valid()
      ensures r.RunsOff? <==> !Allowed(old(Contents()), BindCallerPort(callerPort))
      ensures r.RunsOff? ==> Contents() == old(Contents())
      ensures r.Bound? ==> Contents() == Apply(old(Contents()), BindCallerPort(callerPort))
      ensures r.Bound? ==> r.port == callerPort && r.irq == Contents().evtchnToIrq[callerPort]
    {
      CallerCases(Contents(), callerPort);
      hide Inv, Apply, Shape, Ready, Contents, Allowed;
      var k := IrqOf(callerPort);
      if k == -1 {
        var unbound := FindUnboundIrq();
        if unbound == None { return RunsOff; }
        k := unbound.value;
        Enter(k, Info(CallerPort, 0, callerPort));
      }
      Count(k, 1);
      r := Bound(k, callerPort);
    }

    /** bind_local_port_to_irq: the port is new, so nothing maps to it yet. */
    method BindLocalPortToIrq(localPort: nat) returns (r: Binding)
      requires Valid() && Asked(Contents(), BindLocalPort(localPort))
      modifies evtchnToIrq, irqInfo, bindcount
      ensures Valid()
      ensures r.RunsOff? <==> !Allowed(old(Contents()), BindLocalPort(localPort))
      ensures r.RunsOff? ==> Contents() == old(Contents())
      ensures r.Bound? ==> Contents() == Apply(old(Contents()), BindLocalPort(localPort))
      ensures r.Bound? ==> r.port == localPort && r.irq == Contents().evtchnToIrq[localPort]
    {
      LocalCase(Contents(), localPort);
      hide Inv, Apply, Shape, Ready, Contents, Allowed;
      var unbound := FindUnboundIrq();
      if unbound == None { return RunsOff; }
      Enter(unbound.value, Info(LocalPort, 0, localPort));
      Count(unbound.value, 1);
      r := Bound(unbound.value, localPort);
    }

    /** bind_virq_to_irq and bind_ipi_to_irq: one IRQ per CPU and index, shared by
        later callers. `evtchn` is the port Xen returns for a new binding; a
        shared one reports port 0. */
    method BindToCpuIrq(kind: Kind, index: nat, cpu: nat, evtchn: nat) returns (r: Binding)
      requires Valid() && index < 0x1_0000 && Asked(Contents(), BindToCpu(kind, index, cpu, evtchn))
      modifies this`slots, evtchnToIrq, irqInfo, bindcount, cpuEvtchn, cpuMask
      ensures Valid()
      ensures r.RunsOff? <==> !Allowed(old(Contents()), BindToCpu(kind, index, cpu, evtchn))
      ensures r.RunsOff? ==> Contents() == old(Contents())
      ensures r.Bound? ==> Contents() == Apply(old(Contents()), BindToCpu(kind, index, cpu, evtchn))
      ensures r.Bound? ==> Slot(kind, cpu, index) in Contents().slots
      ensures r.Bound? ==> r.irq == Contents().slots[Slot(kind, cpu, index)]
      ensures r.Bound? ==> r.port == if Slot(kind, cpu, index) in old(Contents().slots) then 0 else evtchn
    {
      CpuCases(Contents(), kind, index, cpu, evtchn);
      hide Inv, Apply, Shape, Ready, Allowed;
      var slot, port := Slot(kind, cpu, index), 0;
      var k;
      if slot in slots {
        k := slots[slot];
      } else {
        hide Contents;
        var unbound := FindUnboundIrq();
        if unbound == None { return RunsOff; }
        k := unbound.value;
        port := evtchn;
        Enter(k, Info(kind, index, port));
        SetSlot(slot, k);
        BindEvtchnToCpu(port, cpu);
      }
      Count(k, 1);
      r := Bound(k, port);
    }

    /** A store to a per-CPU table. */
    method SetSlot(slot: Slot, irq: nat)
      requires Ready()
      modifies this`slots
      ensures Ready() && Contents() == old(Contents()).(slots := old(Contents()).slots[slot := irq])
    {
      slots := slots[slot := irq];
    }

    /** ... of -1. */
    method ClearSlot(slot: Slot)
      requires Ready()
      modifies this`slots
      ensures Ready() && Contents() == old(Contents()).(slots := old(Contents()).slots - {slot})
    {
      slots := slots - {slot};
    }

    /** The packed word of an IRQ, through its accessors. */
    method InfoOf(irq: nat) returns (info: Info)
      requires Ready() && irq < NR_IRQS
      ensures info == Contents().irqInfo[irq]
    {
      var word := irqInfo[irq];
      info := Info(KindOf(TypeFromIrq(word)), IndexFromIrq(word), EvtchnFromIrq(word));
    }

    method CpuFromEvtchn(port: nat) returns (cpu: nat)
      requires Ready() && IsPort(port)
      ensures cpu == Contents().cpuEvtchn[port]
    {
      cpu := cpuEvtchn[port];
    }

    method CountOf(irq: nat) returns (n: int)
      requires Ready() && irq < NR_IRQS
      ensures n == Contents().bindcount[irq]
    {
      n := bindcount[irq];
    }

    /** Unmaps a port and clears the packed word of its IRQ. */
    method Erase(irq: nat, port: nat)
      requires Ready() && irq < NR_IRQS && IsPort(port)
      modifies evtchnToIrq, irqInfo
      ensures Ready() && Contents() == old(Contents()).(
        evtchnToIrq := old(Contents()).evtchnToIrq[port := -1],
        irqInfo := old(Contents()).irqInfo[irq := IRQ_UNBOUND])
    {
      evtchnToIrq[port] := -1;
      UnpackAllUpdate(irqInfo[..], irq, IRQ_UNBOUND);
      hide MkIrqInfo, UnpackAll;
      ghost var words := irqInfo[..];
      irqInfo[irq] := MkIrqInfo(IRQ_UNBOUND);
      assert irqInfo[..] == words[irq := MkIrqInfo(IRQ_UNBOUND)];
    }

    /** unbind_from_irq: drops a reference, and with the last one the binding. */
    method UnbindFromIrq(irq: nat)
      requires Valid() && Asked(Contents(), Unbind(irq))
      modifies this`slots, evtchnToIrq, irqInfo, bindcount, cpuEvtchn, cpuMask
      ensures Valid() && Contents() == Apply(old(Contents()), Unbind(irq))
    {
      UnbindCases(Contents(), irq);
      hide Inv, Apply, Shape, Ready, Contents;
      var info := InfoOf(irq);
      var evtchn := info.evtchn;
      Count(irq, -1);
      var left := CountOf(irq);
      if left == 0 && evtchn != 0 {
        if PerCpu(info.kind) {
          var cpu := CpuFromEvtchn(evtchn);
          ClearSlot(Slot(info.kind, cpu, info.index));
        }
        BindEvtchnToCpu(evtchn, 0);
        Erase(irq, evtchn);
      }
    }
  }

  lemma {:induction false} FirstUnbound(bindcount: seq<int>, from: nat, k: nat)
    requires |bindcount| == NR_IRQS && from <= k < NR_IRQS && bindcount[k] == 0
    requires forall j | from <= j < k :: bindcount[j] != 0
    ensures FindUnbound(bindcount, from) == k
    decreases k - from
  {
    if from < k {
      FirstUnbound(bindcount, from + 1, k);
    }
  }

  lemma CallerCases(t: Tables, port: nat)
    requires Inv(t) && IsPort(port)
    ensures var irq, op := t.evtchnToIrq[port], BindCallerPort(port);
            && (Allowed(t, op) <==> irq != -1 || SomeUnbound(t.bindcount))
            && (irq != -1 ==> Dynamic(irq) && Apply(t, op) == Recount(t, irq, 1))
            && (irq == -1 && SomeUnbound(t.bindcount) ==>
                  var free := FindUnbound(t.bindcount, NR_PIRQS);
                  Apply(t, op) == Recount(Attach(t, free, Info(CallerPort, 0, port)), free, 1))
            && (Allowed(t, op) ==>
                  && Inv(Apply(t, op))
                  && Apply(t, op).evtchnToIrq[port]
                     == if irq != -1 then irq else FindUnbound(t.bindcount, NR_PIRQS))
  {
    if Allowed(t, BindCallerPort(port)) {
      ApplyKeeps(t, BindCallerPort(port));
    }
  }

  lemma LocalCase(t: Tables, port: nat)
    requires Inv(t) && FreshPort(t, port)
    ensures Allowed(t, BindLocalPort(port)) <==> SomeUnbound(t.bindcount)
    ensures SomeUnbound(t.bindcount) ==>
              var t', irq := Apply(t, BindLocalPort(port)), FindUnbound(t.bindcount, NR_PIRQS);
              && Inv(t') && t'.evtchnToIrq[port] == irq
              && t' == Recount(Attach(t, irq, Info(LocalPort, 0, port)), irq, 1)
  {
    if SomeUnbound(t.bindcount) {
      ApplyKeeps(t, BindLocalPort(port));
    }
  }

  lemma CpuCases(t: Tables, kind: Kind, index: nat, cpu: nat, port: nat)
    requires Inv(t) && Asked(t, BindToCpu(kind, index, cpu, port))
    ensures var slot, op := Slot(kind, cpu, index), BindToCpu(kind, index, cpu, port);
            && (Allowed(t, op) <==> slot in t.slots || SomeUnbound(t.bindcount))
            && (slot in t.slots ==>
                  && Dynamic(t.slots[slot]) && Apply(t, op).slots == t.slots
                  && Apply(t, op) == Recount(t, t.slots[slot], 1))
            && (slot !in t.slots ==> IsPort(port) && t.cpuEvtchn[port] < |t.cpuMask|)
            && (slot !in t.slots && SomeUnbound(t.bindcount) ==>
                  var t', irq := Apply(t, op), FindUnbound(t.bindcount, NR_PIRQS);
                  && slot in t'.slots && t'.slots[slot] == irq
                  && t' == Recount(AttachToCpu(t, irq, Info(kind, index, port), cpu), irq, 1))
            && (Allowed(t, op) ==> Inv(Apply(t, op)))
  {
    if Allowed(t, BindToCpu(kind, index, cpu, port)) {
      ApplyKeeps(t, BindToCpu(kind, index, cpu, port));
    }
  }

  lemma UnbindCases(t: Tables, irq: nat)
    requires Inv(t) && Asked(t, Unbind(irq))
    ensures Allowed(t, Unbind(irq))
    ensures var t', port := Apply(t, Unbind(irq)), t.irqInfo[irq].evtchn;
            && Inv(t') && IsPort(port) && t.cpuEvtchn[port] < |t.cpuMask|
            && t' == if t.bindcount[irq] == 1 && port != 0 then Detach(t, irq) else Recount(t, irq, -1)
  {
    ApplyKeeps(t, Unbind(irq));
  }
}
