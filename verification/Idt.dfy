/** interrupts/idt.c and interrupts/interrupts.c: the gate table and the hardware
    interrupt dispatcher. */
module Idt {
  import opened Chip8259
  import opened PicDriver
  import opened Words

  const NUM_IRQS: int := 16

  /** A registered callback; NULL is the absent one. */
  type Handler = int
  const NULL: Handler := 0

  datatype Gate = Gate(baseLow: u16, sel: u16, zero: u8, flags: u8, baseHigh: u16)

  function MakeGate(base: u32): Gate
  {
    Gate(base % 0x10000, 0x08, 0, 0x8E, base / 0x10000 % 0x10000)
  }

  /** The offset the CPU assembles from a gate (Intel SDM Vol. 3A, section 6.11). */
  function EntryPoint(g: Gate): u32
  {
    0x10000 * g.baseHigh + g.baseLow
  }

  lemma GateRejoins(base: u32)
    ensures EntryPoint(MakeGate(base)) == base
  {
  }

  /** The uint8_t conversion of int_no - PIC_MASTER_OFFSET. */
  function IrqOf(intNo: int): int
  {
    (intNo - 32) % 256
  }

  predicate Spurious(m: Chip, s: Chip, irq: int)
  {
    (irq == 7 && 7 !in m.isr) || (irq == 15 && 7 !in s.isr)
  }

  /** The two chips after irq_handler, given a callback that leaves them alone. */
  function Dispatched(m: Chip, s: Chip, irq: int): (Chip, Chip)
  {
    var m0 := if irq == 7 || irq == 15 then m.(readIsr := true) else m;
    var s0 := if irq == 7 || irq == 15 then s.(readIsr := true) else s;
    if irq == 7 && 7 !in m.isr then (m0, s0)
    else if irq == 15 && 7 !in s.isr then (EndOfInterrupt(m0), s0)
    else (EndOfInterrupt(m0), if irq >= 8 then EndOfInterrupt(s0) else s0)
  }

  /** The callbacks irq_handler runs, each with its line. */
  function Called(m: Chip, s: Chip, handlers: seq<Handler>, irq: int): seq<(int, Handler)>
    requires |handlers| == NUM_IRQS
  {
    if !Spurious(m, s, irq) && 0 <= irq < NUM_IRQS && handlers[irq] != NULL then [(irq, handlers[irq])] else []
  }

  class Dispatcher {
    const gates: array<Gate>
    const handlers: array<Handler>
    const pics: Pics
    var calls: seq<(int, Handler)>   // every callback run so far

    ghost predicate Valid()
      reads this, handlers, gates
    {
      gates.Length == 256 && handlers.Length == NUM_IRQS
    }

    constructor (pics: Pics)
      ensures Valid() && fresh(gates) && fresh(handlers) && this.pics == pics && calls == []
      ensures forall i :: 0 <= i < NUM_IRQS ==> handlers[i] == NULL
    {
      this.pics := pics;
      gates := new Gate[256](_ => Gate(0, 0, 0, 0, 0));
      handlers := new Handler[NUM_IRQS](_ => NULL);
      calls := [];
    }

    method RegisterHandler(irq: int, handler: Handler)
      requires Valid() && 0 <= irq < 256
      modifies handlers
      ensures handlers[..] == if irq < NUM_IRQS then old(handlers[..])[irq := handler] else old(handlers[..])
    {
      if irq < NUM_IRQS {
        handlers[irq] := handler;
      }
    }

    method SetGate(vector: int, base: u32)
      requires Valid() && 0 <= vector < 256
      modifies gates
      ensures gates[..] == old(gates[..])[vector := MakeGate(base)]
    {
      gates[vector] := MakeGate(base);
    }

    /** A registered callback: it runs, the devices may move meanwhile, and it may change masks
        and register handlers. Nested interrupts are left to the step system. */
    method Call(irq: int, handler: Handler)
      requires Valid()
      modifies this`calls, pics, handlers
      ensures calls == old(calls) + [(irq, handler)]
      ensures Bare(pics.master) == old(Bare(pics.master)) && Bare(pics.slave) == old(Bare(pics.slave))
    {
      calls := calls + [(irq, handler)];
      pics.Devices();
      var m: Lines, s: Lines, line: nat, other: Handler := *, *, *, *;
      pics.master, pics.slave := pics.master.(imr := m), pics.slave.(imr := s);
      if line < NUM_IRQS { handlers[line] := other; }
    }

    method IrqHandler(intNo: int)
      requires Valid()
      modifies this`calls, pics, handlers
      ensures (Bare(pics.master), Bare(pics.slave)) ==
              Dispatched(old(Bare(pics.master)), old(Bare(pics.slave)), IrqOf(intNo))
      ensures var called := Called(old(pics.master), old(pics.slave), old(handlers[..]), IrqOf(intNo));
              && calls == old(calls) + called
              && (called == [] ==>
                    && pics.master.imr == old(pics.master.imr) && pics.slave.imr == old(pics.slave.imr)
                    && handlers[..] == old(handlers[..]))
    {
      var irq := (intNo - 32) % 256;
      if irq == 7 {
        var isr := pics.ReadIsr();
        if isr & 0x0080 == 0 {
          return;
        }
      } else if irq == 15 {
        var isr := pics.ReadIsr();
        if isr & 0x8000 == 0 {
          pics.SendEoi(2);
          return;
        }
      }
      Serve(irq);
    }

    /** The rest of irq_handler, for an interrupt that is not spurious. */
    method Serve(irq: int)
      requires Valid() && 0 <= irq < 256
      modifies this`calls, pics, handlers
      ensures Bare(pics.master) == EndOfInterrupt(old(Bare(pics.master)))
      ensures Bare(pics.slave) == if irq >= 8 then EndOfInterrupt(old(Bare(pics.slave))) else old(Bare(pics.slave))
      ensures if irq < NUM_IRQS && old(handlers[irq]) != NULL then calls == old(calls + [(irq, handlers[irq])])
              else && calls == old(calls) && handlers[..] == old(handlers[..])
                   && pics.master.imr == old(pics.master.imr) && pics.slave.imr == old(pics.slave.imr)
    {
      if irq < NUM_IRQS && handlers[irq] != NULL {
        Call(irq, handlers[irq]);
      }
      pics.SendEoi(irq);
    }

    /** The table idt_init builds from the addresses of the stubs isr0..isr31 and irq0..irq15. */
    method Init(isr: seq<u32>, irq: seq<u32>)
      requires Valid() && |isr| == 32 && |irq| == 16
      modifies gates
      ensures Installed(gates[..], isr, irq)
      ensures forall v :: 48 <= v < 256 ==> gates[v] == old(gates[v])
    {
      InitExceptions(isr);
      SetEight(32, irq, 0);
      SetEight(40, irq, 8);
    }

    method InitExceptions(isr: seq<u32>)
      requires Valid() && |isr| == 32
      modifies gates
      ensures forall v :: 0 <= v < 32 ==> gates[v] == MakeGate(isr[v])
      ensures forall v :: 32 <= v < 256 ==> gates[v] == old(gates[v])
    {
      SetEight(0, isr, 0);
      SetEight(8, isr, 8);
      SetEight(16, isr, 16);
      SetEight(24, isr, 24);
    }

    /** Eight of its lines. */
    method SetEight(num: int, stubs: seq<u32>, k: int)
      requires Valid() && 0 <= num <= 40 && 0 <= k <= |stubs| - 8
      modifies gates
      ensures forall v :: num <= v < num + 8 ==> gates[v] == MakeGate(stubs[v - num + k])
      ensures forall v :: 0 <= v < num || num + 8 <= v < 256 ==> gates[v] == old(gates[v])
    {
      SetGate(num, stubs[k]);
      SetGate(num + 1, stubs[k + 1]);
      SetGate(num + 2, stubs[k + 2]);
      SetGate(num + 3, stubs[k + 3]);
      SetGate(num + 4, stubs[k + 4]);
      SetGate(num + 5, stubs[k + 5]);
      SetGate(num + 6, stubs[k + 6]);
      SetGate(num + 7, stubs[k + 7]);
    }
  }

  /** Vectors 0..31 enter the exception stubs and 32..47 the interrupt stubs, in order. */
  predicate Installed(gates: seq<Gate>, isr: seq<u32>, irq: seq<u32>)
    requires |gates| == 256 && |isr| == 32 && |irq| == 16
  {
    && (forall v :: 0 <= v < 32 ==> gates[v] == MakeGate(isr[v]))
    && (forall v :: 32 <= v < 48 ==> gates[v] == MakeGate(irq[v - 32]))
  }

  /** interrupts_init: remap, build the table, open the cascade line. */
  method InterruptsInit(d: Dispatcher, isr: seq<u32>, irq: seq<u32>)
    requires d.Valid() && |isr| == 32 && |irq| == 16
    modifies d.gates, d.pics
    ensures Installed(d.gates[..], isr, irq)
    ensures PairConfigured(d.pics.master, d.pics.slave)
    ensures Masked(d.pics.master, d.pics.slave) == old(Masked(d.pics.master, d.pics.slave)) - {2}
    ensures d.pics.master.isr == old(d.pics.master.isr) && d.pics.slave.isr == old(d.pics.slave.isr)
  {
    d.pics.Init();
    d.Init(isr, irq);
    d.pics.ClearMask(2);
  }

  /** The line that a source raised, in the numbering of irq_handler. */
  function LineOf(source: Source): int
  {
    match source
    case MasterLine(l) => l
    case SlaveLine(l) => l + 8
    case LostMaster => 7
    case LostSlave => 15
  }

  /** An acknowledge whose request was lost while the line it is mistaken for is in service. */
  predicate Masquerades(m: Chip, s: Chip, source: Source)
  {
    (source == LostMaster && 7 in m.isr) || (source == LostSlave && 7 in s.isr)
  }

  /** What an acknowledge of the pair serves: on each chip that takes part the highest line that is
      requested and unmasked, and nothing where no such line is above what is in service. */
  lemma AcknowledgeServes(m: Chip, s: Chip)
    requires PairConfigured(m, s)
    ensures var c := Acknowledge(m, s);
            match c.source
            case MasterLine(l) => l != 2 && Serves(m, c.master, l) && c.slave == s
            case SlaveLine(k) => Serves(m, c.master, 2) && Serves(s, c.slave, k)
            case LostMaster => Blocked(m) && c.master == m && c.slave == s
            case LostSlave => Serves(m, c.master, 2) && Blocked(s) && c.slave == s
  {
    RequestingOrBlocked(m);
    RequestingOrBlocked(s);
    OnlyTwoIsCascaded(m, s);
    if Requesting(m) { InServiceServes(m, MASTER_OFFSET, 0x04); }
    if Requesting(s) { InServiceServes(s, SLAVE_OFFSET, 0x02); }
  }

  lemma OnlyTwoIsCascaded(m: Chip, s: Chip)
    requires PairConfigured(m, s)
    ensures forall l :: 0 <= l < 8 ==> (Bit(m.setup.icw3, l) <==> l == 2)
    ensures Listens(s.setup.icw3, 2)
  {
  }

  /** The vector of an acknowledge leads irq_handler to the line that was acknowledged. */
  lemma VectorNamesLine(m: Chip, s: Chip)
    requires PairConfigured(m, s)
    ensures var c := Acknowledge(m, s);
            32 <= c.vector < 48 && IrqOf(c.vector) == LineOf(c.source)
  {
  }

  /** Whatever is in service, and whichever of the four kinds of acknowledge occurs: running
      irq_handler on it puts both in-service registers back exactly when a lost request was
      not mistaken for a line in service. */
  lemma HandlerRestoresService(m: Chip, s: Chip)
    requires PairConfigured(m, s)
    ensures var c := Acknowledge(m, s);
            var (m', s') := Dispatched(Settled(c.master), Settled(c.slave), IrqOf(c.vector));
            (m'.isr == m.isr && s'.isr == s.isr) <==> !Masquerades(m, s, c.source)
  {
    var c := Acknowledge(m, s);
    var irq := IrqOf(c.vector);
    VectorNamesLine(m, s);
    var (m', s') := Dispatched(Settled(c.master), Settled(c.slave), irq);
    match c.source
    case MasterLine(l) =>
      assert Highest(c.master.isr) == l;
    case SlaveLine(l) =>
      assert Highest(c.slave.isr) == l && Highest(c.master.isr) < 8;
    case LostMaster =>
      if 7 in m.isr {
        assert Highest(m.isr) in m.isr && Highest(m.isr) !in m'.isr;
      }
    case LostSlave =>
      if 7 in s.isr {
        assert Highest(s.isr) in s.isr && Highest(s.isr) !in s'.isr;
      }
  }

  /** What irq_handler does to the service bits depends on them alone. */
  lemma DispatchSeesService(m: Chip, s: Chip, irq: int)
    ensures Dispatched(m, s, irq).0.isr ==
            if irq == 7 && 7 !in m.isr then m.isr else m.isr - {Highest(m.isr)}
    ensures Dispatched(m, s, irq).1.isr ==
            if irq >= 8 && (irq == 15 ==> 7 in s.isr) then s.isr - {Highest(s.isr)} else s.isr
  {
    EndRemovesHighest(m);
    EndRemovesHighest(s);
  }

  lemma EndRemovesHighest(c: Chip)
    ensures EndOfInterrupt(c).isr == EndOfInterrupt(c.(readIsr := true)).isr == c.isr - {Highest(c.isr)}
  {
  }

  lemma HandlerKeepsSetup(m: Chip, s: Chip, irq: int)
    requires PairConfigured(m, s)
    ensures var (m', s') := Dispatched(Settled(m), Settled(s), irq);
            PairConfigured(m', s')
  {
  }

  /** A request that arrived runs the callback registered for its line, once, and no other;
      a lost one runs none. */
  lemma HandlerRunsItsLine(m: Chip, s: Chip, handlers: seq<Handler>)
    requires PairConfigured(m, s) && |handlers| == NUM_IRQS
    ensures var c := Acknowledge(m, s);
            !Masquerades(m, s, c.source) ==>
            Called(c.master, c.slave, handlers, IrqOf(c.vector)) ==
            if c.source.LostMaster? || c.source.LostSlave? || handlers[LineOf(c.source)] == NULL then []
            else [(LineOf(c.source), handlers[LineOf(c.source)])]
  {
    VectorNamesLine(m, s);
  }
}
