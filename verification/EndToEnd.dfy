/** From a request line to the registered callback and back: controller, gate table, stub,
    dispatcher, end of interrupt, iret. */
module EndToEnd {
  import opened Words
  import opened Chip8259
  import opened PicDriver
  import opened Idt
  import opened IsrStubs

  /** Vectors whose delivery pushes an error code: this varies with the CPU. */
  type ErrorVectors = s: set<int> | forall v :: v in s ==> 0 <= v < 32

  /** Intel SDM Vol. 3A, table 6-1. */
  const INTEL: ErrorVectors := {8, 10, 11, 12, 13, 14, 17, 21}

  /** AMD64 Architecture Programmer's Manual Vol. 2, section 8.2: also the VMM communication and
      the security exception. */
  const AMD: ErrorVectors := INTEL + {29, 30}

  /** The stubs that isr.s makes with ISR_ERR; all the others push a zero. */
  const ISR_ERR_STUBS: set<int> := {8, 10, 11, 12, 13, 14, 17, 21}

  predicate Present(g: Gate)
  {
    g.flags / 0x80 == 1
  }

  /** The S bit and the type; 14 is a 32-bit interrupt gate, 15 a 32-bit trap gate. */
  function GateType(g: Gate): int
  {
    g.flags % 0x20
  }

  predicate Deliverable(g: Gate)
  {
    Present(g) && (GateType(g) == 14 || GateType(g) == 15)
  }

  predicate InterruptsOn(flags: u32)
  {
    flags / 0x200 % 2 == 1
  }

  /** An interrupt gate clears IF, bit 9, and a trap gate does not (Intel SDM Vol. 3A, section 6.12.1). */
  function GateFlags(g: Gate, flags: u32): u32
  {
    if GateType(g) == 14 && InterruptsOn(flags) then flags - 0x200 else flags
  }

  /** Every gate of the table is present, of ring 0, an interrupt gate, and enters the kernel's code
      segment: whatever the flags, interrupts are off behind it. */
  lemma GateTurnsInterruptsOff(base: u32, flags: u32)
    ensures var g := MakeGate(base);
            && Deliverable(g) && g.flags / 0x20 % 4 == 0 && g.sel == 0x08 && g.zero == 0
            && !InterruptsOn(GateFlags(g, flags))
  {
  }

  /** Delivery through a gate to the same ring. */
  function Deliver(c: Cpu, vector: int, gate: Gate, coded: ErrorVectors, errCode: u32): Cpu
    requires Deliverable(gate)
  {
    var pushed := Push(Push(Push(c, c.eflags), c.cs), c.eip);
    var full := if vector in coded then Push(pushed, errCode) else pushed;
    full.(cs := gate.sel, eip := EntryPoint(gate), eflags := GateFlags(gate, c.eflags))
  }

  /** The number of the stub that starts at an address; 48 when none does. */
  function StubAt(addresses: seq<u32>, eip: u32): (n: nat)
    ensures n <= |addresses|
    ensures n < |addresses| ==> addresses[n] == eip
    ensures forall i :: 0 <= i < n ==> addresses[i] != eip
  {
    if addresses == [] || addresses[0] == eip then 0 else 1 + StubAt(addresses[1..], eip)
  }

  predicate Distinct(addresses: seq<u32>)
  {
    forall i, j :: 0 <= i < j < |addresses| ==> addresses[i] != addresses[j]
  }

  /** The pushes of stub n before its jump to the common stub. */
  function Stub(c: Cpu, n: nat): Cpu
    requires n < 48
  {
    Push(if n in ISR_ERR_STUBS then c else Push(c, 0), n)
  }

  /** The stub of a vector is right for a CPU. */
  predicate Agrees(vector: int, coded: ErrorVectors)
  {
    vector in coded <==> vector in ISR_ERR_STUBS
  }

  /** The stubs are right for all vectors of an Intel CPU, and for all but two of an AMD CPU. */
  lemma StubsAgreeWith(vector: int)
    ensures Agrees(vector, INTEL)
    ensures Agrees(vector, AMD) <==> vector != 29 && vector != 30
  {
  }

  /** The words pushed by the jump to the common stub. */
  function Pushed(c: Cpu, vector: nat, coded: ErrorVectors, errCode: u32): seq<u32>
    requires vector < 48
  {
    [vector] + (if vector in ISR_ERR_STUBS then [] else [0]) + (if vector in coded then [errCode] else [])
    + [c.eip, c.cs, c.eflags]
  }

  lemma StubEntry(c: Cpu, vector: int, gate: Gate, coded: ErrorVectors, errCode: u32)
    requires 0 <= vector < 48 && Deliverable(gate)
    ensures var s := Stub(Deliver(c, vector, gate, coded, errCode), vector);
            var pushed := Pushed(c, vector, coded, errCode);
            && s == c.(esp := c.esp - 4 * |pushed|, cs := gate.sel, eip := EntryPoint(gate),
                       eflags := GateFlags(gate, c.eflags), stack := pushed + c.stack)
            && (Agrees(vector, coded) <==> |pushed| == 5)
  {
  }

  /** The gate of a vector leads to the stub of that vector. */
  lemma GateLeadsToStub(gates: seq<Gate>, isr: seq<u32>, irq: seq<u32>, vector: int)
    requires |gates| == 256 && |isr| == 32 && |irq| == 16 && 0 <= vector < 48
    requires Installed(gates, isr, irq) && Distinct(isr + irq)
    ensures StubAt(isr + irq, EntryPoint(gates[vector])) == vector
    ensures Deliverable(gates[vector]) && gates[vector] == MakeGate((isr + irq)[vector])
  {
    GateTurnsInterruptsOff((isr + irq)[vector], 0);
    GateRejoins((isr + irq)[vector]);
    assert gates[vector] == MakeGate((isr + irq)[vector]);
  }

  /** The CPU delivers a vector, its stub and the common stub run, and the C function is about
      to be called with a pointer to the frame, in the kernel's segments, interrupts off. */
  method Arrive(c: Cpu, vector: int, gates: seq<Gate>, isr: seq<u32>, irq: seq<u32>,
                coded: ErrorVectors, errCode: u32, leftover: u16)
    returns (s: Cpu, atCall: Cpu, frame: Frame)
    requires |gates| == 256 && |isr| == 32 && |irq| == 16 && 0 <= vector < 48
    requires Installed(gates, isr, irq) && Distinct(isr + irq)
    requires vector in ISR_ERR_STUBS && vector !in coded ==> c.stack != []   // the stub takes a word of it
    ensures |s.stack| >= 5 && s.stack == Pushed(c, vector, coded, errCode) + c.stack
    ensures s == c.(esp := c.esp - 4 * |Pushed(c, vector, coded, errCode)|, stack := s.stack,
                    cs := s.cs, eip := s.eip, eflags := s.eflags)
    ensures AtCall(s, atCall) && atCall.cs == 0x08 && !InterruptsOn(atCall.eflags)
    ensures Agrees(vector, coded) ==>
              && frame.ds % 0x10000 == c.ds
              && frame == Frame(frame.ds, c.edi, c.esi, c.ebp, frame.espDummy, c.ebx, c.edx, c.ecx, c.eax,
                                vector, if vector in coded then errCode else 0, c.eip, c.cs, c.eflags)
  {
    GateLeadsToStub(gates, isr, irq, vector);
    GateTurnsInterruptsOff((isr + irq)[vector], c.eflags);
    s := Deliver(c, vector, gates[vector], coded, errCode);
    s := Stub(s, StubAt(isr + irq, s.eip));
    StubEntry(c, vector, gates[vector], coded, errCode);
    PushedWords(c, vector, coded, errCode);
    atCall := Enter(s, leftover);
    FrameIsDeclared(s, atCall);
    frame := FrameAt(atCall, atCall.esp + 4);
  }

  /** Every exception and interrupt stub presents interrupt_frame_t to its C function, with the
      vector and the CPU's error code or zero, and afterwards resumes the interrupted code
      with everything but ES, FS and GS as it was, those three equal to DS. It does so exactly
      on a CPU that pushes an error code for those vectors for which the stub expects one. */
  method Interrupt(c: Cpu, vector: int, gates: seq<Gate>, isr: seq<u32>, irq: seq<u32>,
                   coded: ErrorVectors, errCode: u32, handler: Cpu -> Cpu, leftover: u16)
    returns (frame: Frame, r: Cpu)
    requires |gates| == 256 && |isr| == 32 && |irq| == 16 && 0 <= vector < 48
    requires Installed(gates, isr, irq) && Distinct(isr + irq)
    requires forall x :: CalleeKeeps(x, handler(x))
    requires vector in ISR_ERR_STUBS && vector !in coded ==> c.stack != []   // the stub takes a word of it
    ensures Agrees(vector, coded) ==>
              && frame.ds % 0x10000 == c.ds
              && frame == Frame(frame.ds, c.edi, c.esi, c.ebp, frame.espDummy, c.ebx, c.edx, c.ecx, c.eax,
                                vector, if vector in coded then errCode else 0, c.eip, c.cs, c.eflags)
    ensures r == c.(es := c.ds, fs := c.ds, gs := c.ds) <==> Agrees(vector, coded)
  {
    var s, atCall;
    s, atCall, frame := Arrive(c, vector, gates, isr, irq, coded, errCode, leftover);
    r := Resume(s, atCall, handler);
    TransparentIff(c, vector, coded, errCode, s, r);
  }

  lemma PushedWords(c: Cpu, vector: int, coded: ErrorVectors, errCode: u32)
    requires 0 <= vector < 48
    ensures var pushed := Pushed(c, vector, coded, errCode);
            && 4 <= |pushed| <= 6 && (|pushed| == 5 <==> Agrees(vector, coded))
            && (|pushed| == 5 ==>
                  pushed == [vector, if vector in coded then errCode else 0, c.eip, c.cs, c.eflags])
            && (|pushed| == 4 ==> vector in ISR_ERR_STUBS && vector !in coded)
  {
  }

  /** The unwinding takes five words off: the interrupted code's stack pointer is right exactly
      when five were pushed. */
  lemma TransparentIff(c: Cpu, vector: int, coded: ErrorVectors, errCode: u32, s: Cpu, r: Cpu)
    requires 0 <= vector < 48 && |s.stack| >= 5
    requires s.stack == Pushed(c, vector, coded, errCode) + c.stack
    requires s == c.(esp := c.esp - 4 * |Pushed(c, vector, coded, errCode)|, stack := s.stack,
                     cs := s.cs, eip := s.eip, eflags := s.eflags)
    requires r == s.(esp := s.esp + 20, stack := s.stack[5..], es := s.ds, fs := s.ds, gs := s.ds,
                     eip := s.stack[2], cs := s.stack[3] % 0x10000, eflags := s.stack[4])
    ensures r == c.(es := c.ds, fs := c.ds, gs := c.ds) <==> Agrees(vector, coded)
  {
    PushedWords(c, vector, coded, errCode);
    if Agrees(vector, coded) {
      assert s.stack[5..] == c.stack;
    } else {
      assert r.esp != c.esp;
    }
  }

  /** The CPU takes a hardware interrupt. Unless a lost request was mistaken for a line in
      service, the callback registered for the acknowledged line runs once and no other,
      the in-service registers come back, and so does the interrupted code. */
  method HardwareInterrupt(d: Dispatcher, c: Cpu, isr: seq<u32>, irq: seq<u32>,
                           coded: ErrorVectors, handler: Cpu -> Cpu, leftover: u16)
    returns (r: Cpu, ghost source: Source)
    requires d.Valid() && PairConfigured(d.pics.master, d.pics.slave)
    requires |isr| == 32 && |irq| == 16 && Installed(d.gates[..], isr, irq) && Distinct(isr + irq)
    requires forall x :: CalleeKeeps(x, handler(x))
    modifies d`calls, d.pics, d.handlers
    ensures r == c.(es := c.ds, fs := c.ds, gs := c.ds)
    ensures source == Acknowledge(old(d.pics.master), old(d.pics.slave)).source
    ensures PairConfigured(d.pics.master, d.pics.slave)
    ensures (d.pics.master.isr == old(d.pics.master.isr) && d.pics.slave.isr == old(d.pics.slave.isr))
            <==> !Masquerades(old(d.pics.master), old(d.pics.slave), source)
    ensures !Masquerades(old(d.pics.master), old(d.pics.slave), source) ==>
              d.calls == old(d.calls) +
              if source.LostMaster? || source.LostSlave? || old(d.handlers[LineOf(source)]) == NULL then []
              else [(LineOf(source), old(d.handlers[LineOf(source)]))]
  {
    ghost var m, s := d.pics.master, d.pics.slave;
    var cycle := Acknowledge(d.pics.master, d.pics.slave);
    source := cycle.source;
    VectorNamesLine(m, s);
    ghost var handlers := d.handlers[..];
    d.pics.master, d.pics.slave := cycle.master, cycle.slave;
    var entered, atCall, frame := Arrive(c, cycle.vector, d.gates[..], isr, irq, coded, 0, leftover);
    d.IrqHandler(frame.intNo);
    HandlerRunsItsLine(m, s, handlers);
    BareOutcome(m, s, d.pics.master, d.pics.slave);
    r := Resume(entered, atCall, handler);
    TransparentIff(c, cycle.vector, coded, 0, entered, r);
  }

  /** What a whole call of irq_handler leaves of an acknowledge, callbacks' masks apart. */
  lemma BareOutcome(m: Chip, s: Chip, m': Chip, s': Chip)
    requires PairConfigured(m, s)
    requires var c := Acknowledge(m, s);
             (Bare(m'), Bare(s')) == Dispatched(Bare(c.master), Bare(c.slave), IrqOf(c.vector))
    ensures PairConfigured(m', s')
    ensures (m'.isr == m.isr && s'.isr == s.isr) <==> !Masquerades(m, s, Acknowledge(m, s).source)
  {
    var c := Acknowledge(m, s);
    AcknowledgeKeepsSetup(m, s);
    BareKeepsSetup(c.master, c.slave, IrqOf(c.vector), m', s');
    HandlerRestoresService(m, s);
    DispatchSeesService(Bare(c.master), Bare(c.slave), IrqOf(c.vector));
    DispatchSeesService(Settled(c.master), Settled(c.slave), IrqOf(c.vector));
    assert m'.isr == Bare(m').isr && s'.isr == Bare(s').isr;
  }

  lemma AcknowledgeKeepsSetup(m: Chip, s: Chip)
    requires PairConfigured(m, s)
    ensures var c := Acknowledge(m, s);
            PairConfigured(c.master, c.slave)
  {
  }

  lemma BareKeepsSetup(m: Chip, s: Chip, irq: int, m': Chip, s': Chip)
    requires PairConfigured(m, s) && (Bare(m'), Bare(s')) == Dispatched(Bare(m), Bare(s), irq)
    ensures PairConfigured(m', s')
  {
  }
}
