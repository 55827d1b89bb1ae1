/** One Intel 8259A interrupt controller: its registers and what the data sheet makes of
    each command byte, data byte and interrupt acknowledge. The registers are sets of
    lines; bytes appear only at the ports. */
module Chip8259 {

  /** The contents of an eight-bit register, as the set of its one bits. */
  type Lines = s: set<int> | forall l :: l in s ==> 0 <= l < 8

  /** The C expression 1u << l, truncated to a byte. */
  function Weight(l: int): bv8
    requires 0 <= l < 8
  {
    if l == 0 then 0x01 else if l == 1 then 0x02 else if l == 2 then 0x04 else if l == 3 then 0x08
    else if l == 4 then 0x10 else if l == 5 then 0x20 else if l == 6 then 0x40 else 0x80
  }

  predicate Bit(b: bv8, l: int)
    requires 0 <= l < 8
  {
    b & Weight(l) != 0
  }

  function FromByte(b: bv8): (s: Lines)
  {
    set l | 0 <= l < 8 && Bit(b, l)
  }

  function ToByte(s: Lines): bv8
  {
    (if 0 in s then 0x01 else 0) | (if 1 in s then 0x02 else 0)
    | (if 2 in s then 0x04 else 0) | (if 3 in s then 0x08 else 0)
    | (if 4 in s then 0x10 else 0) | (if 5 in s then 0x20 else 0)
    | (if 6 in s then 0x40 else 0) | (if 7 in s then 0x80 else 0)
  }

  /** A register survives the trip through its port. */
  lemma ByteRoundTrip(s: Lines)
    ensures FromByte(ToByte(s)) == s
    ensures forall l :: 0 <= l < 8 ==> (Bit(ToByte(s), l) <==> l in s)
  {
    forall l | 0 <= l < 8
      ensures Bit(ToByte(s), l) <==> l in s
    {
      ToByteBit(s, l);
    }
  }

  lemma ToByteBit(s: Lines, l: int)
    requires 0 <= l < 8
    ensures Bit(ToByte(s), l) <==> l in s
  {
    var b := ToByte(s);
    assert (b & 0x01 != 0 <==> 0 in s) && (b & 0x02 != 0 <==> 1 in s);
    assert (b & 0x04 != 0 <==> 2 in s) && (b & 0x08 != 0 <==> 3 in s);
    assert (b & 0x10 != 0 <==> 4 in s) && (b & 0x20 != 0 <==> 5 in s);
    assert (b & 0x40 != 0 <==> 6 in s) && (b & 0x80 != 0 <==> 7 in s);
  }

  /** The read-modify-write of one bit is set insertion and set removal. */
  lemma OrInserts(b: bv8, l: int)
    requires 0 <= l < 8
    ensures FromByte(b | Weight(l)) == FromByte(b) + {l}
  {
    forall k | 0 <= k < 8
      ensures Bit(b | Weight(l), k) <==> k == l || Bit(b, k)
    {
    }
  }

  lemma AndNotRemoves(b: bv8, l: int)
    requires 0 <= l < 8
    ensures FromByte(b & !Weight(l)) == FromByte(b) - {l}
  {
    forall k | 0 <= k < 8
      ensures Bit(b & !Weight(l), k) <==> k != l && Bit(b, k)
    {
    }
  }

  /** The member with the highest priority, that is the lowest line; 8 for no member. */
  function Highest(s: Lines): (h: int)
    ensures 0 <= h <= 8
    ensures h == 8 <==> s == {}
    ensures h < 8 ==> h in s
    ensures forall l :: l in s ==> h <= l
  {
    if 0 in s then 0 else if 1 in s then 1 else if 2 in s then 2 else if 3 in s then 3
    else if 4 in s then 4 else if 5 in s then 5 else if 6 in s then 6 else if 7 in s then 7
    else assert forall l :: l in s ==> l == 0 || l == 1 || l == 2 || l == 3 || l == 4 || l == 5 || l == 6 || l == 7; 8
  }

  /** Which initialisation command word the data port expects next. */
  datatype Phase = Ready | WantIcw2 | WantIcw3 | WantIcw4

  /** What the initialisation command words set. */
  datatype Setup = Setup(
    base: bv8,        // ICW2: vector of line 0
    level: bool,      // ICW1, bit 3: requests are levels, not edges
    single: bool,     // ICW1, bit 1
    needIcw4: bool,   // ICW1, bit 0
    icw3: bv8,        // a master's lines with a slave, or a slave's identity
    autoEoi: bool,    // ICW4, bit 1: no line stays in service
    mode8086: bool)   // ICW4, bit 0: the acknowledge reads a vector

  datatype Chip = Chip(
    irr: Lines,       // interrupt requests
    isr: Lines,       // interrupts in service
    imr: Lines,       // masked lines
    setup: Setup,
    phase: Phase,
    readIsr: bool)    // OCW3: the command port reads the ISR, not the IRR

  /** The non-specific EOI: the line of highest priority leaves service. */
  function EndOfInterrupt(c: Chip): Chip
  {
    c.(isr := c.isr - {Highest(c.isr)})
  }

  /** A write with A0 = 0: ICW1, OCW2 or OCW3, told apart by bits 4 and 3. */
  function WriteCommand(c: Chip, b: bv8): Chip
  {
    if b & 0x10 != 0 then
      c.(irr := {}, imr := {}, readIsr := false, phase := WantIcw2, setup := BeginSetup(c.setup, b))
    else if b & 0x08 != 0 then
      if b & 0x02 != 0 then c.(readIsr := b & 0x01 != 0) else c
    else if b & 0xE0 == 0x20 then
      EndOfInterrupt(c)
    else
      c
  }

  function BeginSetup(u: Setup, icw1: bv8): Setup
  {
    var needIcw4 := icw1 & 0x01 != 0;
    u.(level := icw1 & 0x08 != 0, single := icw1 & 0x02 != 0, needIcw4 := needIcw4,
       autoEoi := needIcw4 && u.autoEoi, mode8086 := needIcw4 && u.mode8086)
  }

  /** A write with A0 = 1: the command word the chip is waiting for, or OCW1. */
  function WriteData(c: Chip, b: bv8): Chip
  {
    var u := c.setup;
    match c.phase
    case WantIcw2 =>
      c.(setup := u.(base := b & 0xF8),
         phase := if !u.single then WantIcw3 else if u.needIcw4 then WantIcw4 else Ready)
    case WantIcw3 => c.(setup := u.(icw3 := b), phase := if u.needIcw4 then WantIcw4 else Ready)
    case WantIcw4 => c.(setup := u.(autoEoi := b & 0x02 != 0, mode8086 := b & 0x01 != 0), phase := Ready)
    case Ready => c.(imr := FromByte(b))
  }

  function ReadCommand(c: Chip): bv8
  {
    ToByte(if c.readIsr then c.isr else c.irr)
  }

  function ReadData(c: Chip): bv8
  {
    ToByte(c.imr)
  }

  /** The chip apart from its request lines, which the devices move at any time. */
  function Settled(c: Chip): Chip
  {
    c.(irr := {})
  }

  /** The INT output in fully nested mode: an unmasked request of higher priority than
      everything in service. */
  predicate Requesting(c: Chip)
  {
    Highest(c.irr - c.imr) < Highest(c.isr)
  }

  /** The chip after an acknowledge that finds a request: its highest request goes in service. */
  function InService(c: Chip): Chip
    requires Requesting(c)
  {
    var l := Highest(c.irr - c.imr);
    c.(irr := if c.setup.level then c.irr else c.irr - {l}, isr := if c.setup.autoEoi then c.isr else c.isr + {l})
  }

  /** What the CPU reads when no chip drives the bus. */
  const FLOATING: int := 0xFF

  /** What an 8080 would take for a CALL instruction. */
  const CALL_OPCODE: int := 0xCD

  function Vector(c: Chip, l: int): int
  {
    if c.setup.mode8086 then c.setup.base as int + l else CALL_OPCODE
  }

  /** The low three bits of a slave's ICW3 are its identity on the cascade bus. */
  predicate Listens(icw3: bv8, l: int)
    requires 0 <= l < 8
  {
    var id := icw3 & 0x07;
    if l == 0 then id == 0 else if l == 1 then id == 1 else if l == 2 then id == 2 else if l == 3 then id == 3
    else if l == 4 then id == 4 else if l == 5 then id == 5 else if l == 6 then id == 6 else id == 7
  }

  /** What an acknowledge cycle found. A request gone by then reads as level 7 and sets no
      in-service bit on the chip that lost it. */
  datatype Source = MasterLine(line: int) | SlaveLine(line: int) | LostMaster | LostSlave

  datatype Cycle = Cycle(master: Chip, slave: Chip, vector: int, source: Source)

  /** The CPU's interrupt acknowledge on the cascaded pair. The slave answers when the master
      puts its identity on the cascade bus, as it does for a line that ICW3 gave to a slave. */
  function Acknowledge(m: Chip, s: Chip): Cycle
  {
    if !Requesting(m) then
      Cycle(m, s, Vector(m, 7), LostMaster)
    else
      var l := Highest(m.irr - m.imr);
      if !Bit(m.setup.icw3, l) then
        Cycle(InService(m), s, Vector(m, l), MasterLine(l))
      else if !Listens(s.setup.icw3, l) then
        Cycle(InService(m), s, FLOATING, LostSlave)
      else if Requesting(s) then
        var k := Highest(s.irr - s.imr);
        Cycle(InService(m), InService(s), Vector(s, k), SlaveLine(k))
      else
        Cycle(InService(m), s, Vector(s, 7), LostSlave)
  }

  /** How a chip is to be set up: its vectors, its part in the cascade, edges, a vector read by the
      acknowledge, and lines that stay in service until their EOI. */
  predicate Configured(c: Chip, offset: bv8, wiring: bv8)
  {
    c.phase == Ready && c.setup == Setup(offset, false, false, true, wiring, false, true)
  }

  /** From one state to the other a chip put a line in service: it was requested, not masked, and
      above every other such line and everything in service; it is requested no more. Nothing
      else in the chip moved. */
  predicate Serves(before: Chip, after: Chip, line: int)
  {
    && line in before.irr && line !in before.imr && line !in before.isr
    && (forall k :: k in before.irr && k !in before.imr ==> line <= k)
    && (forall k :: k in before.isr ==> line < k)
    && after == before.(irr := before.irr - {line}, isr := before.isr + {line})
  }

  /** Every unmasked request is at or below something in service. */
  ghost predicate Blocked(c: Chip)
  {
    forall k :: k in c.irr && k !in c.imr ==> exists j :: j in c.isr && j <= k
  }

  lemma InServiceServes(c: Chip, offset: bv8, wiring: bv8)
    requires Configured(c, offset, wiring) && Requesting(c)
    ensures Serves(c, InService(c), Highest(c.irr - c.imr))
  {
  }

  lemma RequestingOrBlocked(c: Chip)
    ensures Requesting(c) <==> !Blocked(c)
  {
    if Requesting(c) {
      assert Highest(c.irr - c.imr) in c.irr - c.imr;
    } else {
      forall k | k in c.irr && k !in c.imr
        ensures exists j :: j in c.isr && j <= k
      {
        assert k in c.irr - c.imr && Highest(c.isr) in c.isr;
      }
    }
  }
}
