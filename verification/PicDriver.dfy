/** interrupts/pic.c: the driver's port traffic against the two cascaded chips. */
module PicDriver {
  import opened Chip8259

  const MASTER_CMD: int := 0x20
  const MASTER_DATA: int := 0x21
  const SLAVE_CMD: int := 0xA0
  const SLAVE_DATA: int := 0xA1
  const UNUSED_PORT: int := 0x80

  const MASTER_OFFSET: bv8 := 0x20
  const SLAVE_OFFSET: bv8 := 0x28
  const ICW1: bv8 := 0x11
  const ICW4_8086: bv8 := 0x01
  const EOI: bv8 := 0x20
  const OCW3_ISR: bv8 := 0x0B

  /** How pic_init leaves the pair. */
  predicate PairConfigured(m: Chip, s: Chip)
  {
    Configured(m, MASTER_OFFSET, 0x04) && Configured(s, SLAVE_OFFSET, 0x02)
  }

  /** The mask registers as one set of the sixteen lines. */
  function Masked(m: Chip, s: Chip): set<int>
  {
    m.imr + set l | l in s.imr :: l + 8
  }

  /** The chip apart from its request lines and its masks, which callbacks may change. */
  function Bare(c: Chip): Chip
  {
    c.(irr := {}, imr := {})
  }

  /** What a written byte does never depends on the request lines. */
  lemma CommandIgnoresRequests(c: Chip, requests: Lines, b: bv8)
    ensures Settled(WriteCommand(c.(irr := requests), b)) == Settled(WriteCommand(c, b))
  {
  }

  lemma DataIgnoresRequests(c: Chip, requests: Lines, b: bv8)
    ensures Settled(WriteData(c.(irr := requests), b)) == Settled(WriteData(c, b))
  {
    match c.phase
    case WantIcw2 =>
    case WantIcw3 =>
    case WantIcw4 =>
    case Ready =>
  }

  lemma MaskMaster(m: Chip, s: Chip, line: int)
    requires 0 <= line < 8
    ensures Masked(m.(imr := m.imr + {line}), s) == Masked(m, s) + {line}
    ensures Masked(m.(imr := m.imr - {line}), s) == Masked(m, s) - {line}
  {
  }

  lemma MaskSlave(m: Chip, s: Chip, line: int)
    requires 0 <= line < 8
    ensures Masked(m, s.(imr := s.imr + {line})) == Masked(m, s) + {line + 8}
    ensures Masked(m, s.(imr := s.imr - {line})) == Masked(m, s) - {line + 8}
  {
    var more, less := s.(imr := s.imr + {line}), s.(imr := s.imr - {line});
    forall n
      ensures n in Masked(m, more) <==> n in Masked(m, s) + {line + 8}
      ensures n in Masked(m, less) <==> n in Masked(m, s) - {line + 8}
    {
      InMasked(m, s, n);
      InMasked(m, more, n);
      InMasked(m, less, n);
    }
  }

  lemma InMasked(m: Chip, s: Chip, n: int)
    ensures n in Masked(m, s) <==> n in m.imr || n - 8 in s.imr
  {
    if n - 8 in s.imr {
      assert n == (n - 8) + 8;
    }
  }

  class Pics {
    var master: Chip
    var slave: Chip

    /** Any device may raise or drop any line; nothing else in the chips moves. */
    method Devices()
      modifies this
      ensures Settled(master) == old(Settled(master)) && Settled(slave) == old(Settled(slave))
    {
      var m: Lines, s: Lines := *, *;
      master, slave := master.(irr := m), slave.(irr := s);
    }

    method OutB(port: int, b: bv8)
      modifies this
      ensures Settled(master) == Settled(
        if port == MASTER_CMD then WriteCommand(old(master), b)
        else if port == MASTER_DATA then WriteData(old(master), b) else old(master))
      ensures Settled(slave) == Settled(
        if port == SLAVE_CMD then WriteCommand(old(slave), b)
        else if port == SLAVE_DATA then WriteData(old(slave), b) else old(slave))
    {
      Devices();
      CommandIgnoresRequests(old(master), master.irr, b);
      CommandIgnoresRequests(old(slave), slave.irr, b);
      DataIgnoresRequests(old(master), master.irr, b);
      DataIgnoresRequests(old(slave), slave.irr, b);
      if port == MASTER_CMD { master := WriteCommand(master, b); }
      else if port == MASTER_DATA { master := WriteData(master, b); }
      else if port == SLAVE_CMD { slave := WriteCommand(slave, b); }
      else if port == SLAVE_DATA { slave := WriteData(slave, b); }
    }

    method InB(port: int) returns (b: bv8)
      requires port in {MASTER_CMD, MASTER_DATA, SLAVE_CMD, SLAVE_DATA}
      modifies this
      ensures Settled(master) == old(Settled(master)) && Settled(slave) == old(Settled(slave))
      ensures port == MASTER_CMD ==> b == ReadCommand(master)
      ensures port == MASTER_DATA ==> b == ReadData(master)
      ensures port == SLAVE_CMD ==> b == ReadCommand(slave)
      ensures port == SLAVE_DATA ==> b == ReadData(slave)
    {
      Devices();
      if port == MASTER_CMD { b := ReadCommand(master); }
      else if port == MASTER_DATA { b := ReadData(master); }
      else if port == SLAVE_CMD { b := ReadCommand(slave); }
      else { b := ReadData(slave); }
    }

    method IoWait()
      modifies this
      ensures Settled(master) == old(Settled(master)) && Settled(slave) == old(Settled(slave))
    {
      OutB(UNUSED_PORT, 0);
    }

    /** From any state of the two chips, even one left half initialised. */
    method Init()
      modifies this
      ensures PairConfigured(master, slave)
      ensures master.imr == old(master.imr) && slave.imr == old(slave.imr)
      ensures master.isr == old(master.isr) && slave.isr == old(slave.isr)
      ensures !master.readIsr && !slave.readIsr
      ensures forall l :: 0 <= l < 8 ==> Vector(master, l) == 32 + l && Vector(slave, l) == 40 + l
    {
      var maskMaster := InB(MASTER_DATA);
      var maskSlave := InB(SLAVE_DATA);
      ByteRoundTrip(master.imr);
      ByteRoundTrip(slave.imr);

      OutB(MASTER_CMD, ICW1); IoWait();
      OutB(SLAVE_CMD, ICW1); IoWait();

      OutB(MASTER_DATA, MASTER_OFFSET); IoWait();
      OutB(SLAVE_DATA, SLAVE_OFFSET); IoWait();

      OutB(MASTER_DATA, 0x04); IoWait();
      OutB(SLAVE_DATA, 0x02); IoWait();

      OutB(MASTER_DATA, ICW4_8086); IoWait();
      OutB(SLAVE_DATA, ICW4_8086); IoWait();

      OutB(MASTER_DATA, maskMaster);
      OutB(SLAVE_DATA, maskSlave);
    }

    method SendEoi(irq: int)
      modifies this
      ensures Settled(slave) == if irq >= 8 then EndOfInterrupt(old(Settled(slave))) else old(Settled(slave))
      ensures Settled(master) == EndOfInterrupt(old(Settled(master)))
    {
      if irq >= 8 { OutB(SLAVE_CMD, EOI); }
      OutB(MASTER_CMD, EOI);
    }

    /** Masks the named one of the sixteen lines and changes nothing else. For the numbers 16 to
        39 the shifted one falls off the byte and nothing changes at all. */
    method SetMask(irq: int)
      requires 0 <= irq < 40 && master.phase == Ready && slave.phase == Ready
      modifies this
      ensures Masked(master, slave) == old(Masked(master, slave)) + if irq < 16 then {irq} else {}
      ensures Bare(master) == old(Bare(master))
      ensures Bare(slave) == old(Bare(slave))
    {
      var port, line := MASTER_DATA, irq;
      if irq >= 8 { port, line := SLAVE_DATA, irq - 8; }
      var was := InB(port);
      MaskWritten(master, slave, irq, true);
      OutB(port, MaskByte(was, line, true));
    }

    method ClearMask(irq: int)
      requires 0 <= irq < 40 && master.phase == Ready && slave.phase == Ready
      modifies this
      ensures Masked(master, slave) == old(Masked(master, slave)) - if irq < 16 then {irq} else {}
      ensures Bare(master) == old(Bare(master))
      ensures Bare(slave) == old(Bare(slave))
    {
      var port, line := MASTER_DATA, irq;
      if irq >= 8 { port, line := SLAVE_DATA, irq - 8; }
      var was := InB(port);
      MaskWritten(master, slave, irq, false);
      OutB(port, MaskByte(was, line, false));
    }

    /** Both in-service registers as one word, the slave's in the high byte. */
    method ReadIsr() returns (word: bv16)
      modifies this
      ensures Settled(master) == old(Settled(master)).(readIsr := true)
      ensures Settled(slave) == old(Settled(slave)).(readIsr := true)
      ensures word == IsrWord(master, slave)
      ensures word & 0x0080 != 0 <==> 7 in master.isr
      ensures word & 0x8000 != 0 <==> 7 in slave.isr
    {
      OutB(MASTER_CMD, OCW3_ISR);
      OutB(SLAVE_CMD, OCW3_ISR);
      var high := InB(SLAVE_CMD);
      var low := InB(MASTER_CMD);
      word := Join(high, low);
      IsrWordHoldsBoth(master, slave);
    }
  }

  /** The C expression (uint8_t)(1u << irq). */
  function Shifted(irq: int): bv8
    requires 0 <= irq < 32
  {
    if irq < 8 then Weight(irq) else 0
  }

  /** The byte that pic_set_mask or pic_clear_mask makes of the one it read. */
  function MaskByte(was: bv8, line: int, masked: bool): bv8
    requires 0 <= line < 32
  {
    if masked then was | Shifted(line) else was & !Shifted(line)
  }

  /** Writing it changes the named line of the sixteen and nothing else. */
  lemma MaskWritten(m: Chip, s: Chip, irq: int, masked: bool)
    requires 0 <= irq < 40 && m.phase == Ready && s.phase == Ready
    ensures var m' := if irq < 8 then WriteData(m, MaskByte(ReadData(m), irq, masked)) else m;
            var s' := if irq < 8 then s else WriteData(s, MaskByte(ReadData(s), irq - 8, masked));
            && Bare(m') == Bare(m) && Bare(s') == Bare(s) && m'.irr == m.irr && s'.irr == s.irr
            && Masked(m', s') == if irq >= 16 then Masked(m, s)
                                 else if masked then Masked(m, s) + {irq} else Masked(m, s) - {irq}
  {
    if irq < 8 {
      MaskByteIsSet(m, irq, masked);
      MaskMaster(m, s, irq);
    } else if irq < 16 {
      MaskByteIsSet(s, irq - 8, masked);
      MaskSlave(m, s, irq - 8);
    } else {
      ByteRoundTrip(s.imr);
    }
  }

  lemma MaskByteIsSet(c: Chip, line: int, masked: bool)
    requires 0 <= line < 8
    ensures FromByte(MaskByte(ReadData(c), line, masked)) == if masked then c.imr + {line} else c.imr - {line}
  {
    ByteRoundTrip(c.imr);
    MaskByteChanges(ReadData(c), line, masked);
  }

  lemma MaskByteChanges(b: bv8, line: int, masked: bool)
    requires 0 <= line < 8
    ensures FromByte(MaskByte(b, line, masked)) == if masked then FromByte(b) + {line} else FromByte(b) - {line}
  {
    if masked { OrInserts(b, line); } else { AndNotRemoves(b, line); }
  }

  function Join(high: bv8, low: bv8): bv16
  {
    (high as bv16 << 8) | low as bv16
  }

  function IsrWord(m: Chip, s: Chip): bv16
  {
    Join(ToByte(s.isr), ToByte(m.isr))
  }

  lemma JoinedBytes(high: bv8, low: bv8)
    ensures (Join(high, low) & 0xFF) as bv8 == low && (Join(high, low) >> 8) as bv8 == high
    ensures FromByte((Join(high, low) & 0xFF) as bv8) == FromByte(low)
    ensures FromByte((Join(high, low) >> 8) as bv8) == FromByte(high)
    ensures Join(high, low) & 0x0080 != 0 <==> Bit(low, 7)
    ensures Join(high, low) & 0x8000 != 0 <==> Bit(high, 7)
  {
    assert Weight(7) == 0x80;
  }

  /** The word holds both registers, and the two bits the dispatcher tests are line 7 of each. */
  lemma IsrWordHoldsBoth(m: Chip, s: Chip)
    ensures FromByte((IsrWord(m, s) & 0xFF) as bv8) == m.isr
    ensures FromByte((IsrWord(m, s) >> 8) as bv8) == s.isr
    ensures IsrWord(m, s) & 0x0080 != 0 <==> 7 in m.isr
    ensures IsrWord(m, s) & 0x8000 != 0 <==> 7 in s.isr
  {
    JoinedBytes(ToByte(s.isr), ToByte(m.isr));
    ByteRoundTrip(m.isr);
    ByteRoundTrip(s.isr);
  }
}
