/** What every run of the interrupt steps keeps: the in-service bits are the stack of
    unfinished activations, on top of whatever was in service before the first of them. */
module IrqProtocol {
  import opened Chip8259
  import opened PicDriver
  import opened Idt
  import opened IrqSteps

  /** In-service bits from before: pic_init clears none that the firmware left. */
  datatype Residue = Residue(m: Lines, s: Lines)

  const NOTHING: Residue := Residue({}, {})

  /** The master line an activation still holds in service; 8 for none. */
  function MasterBit(a: Activation): int
  {
    if a.pc == Leave then 8
    else match a.source
      case MasterLine(l) => l
      case SlaveLine(_) => 2
      case LostMaster => 8
      case LostSlave => 2
  }

  function SlaveBit(a: Activation): int
  {
    if a.source.SlaveLine? && a.pc != EoiMaster && a.pc != Leave then a.source.line else 8
  }

  /** Above the residue, the in-service registers are exactly the lines held by the activations,
      each holding a strictly higher priority than everything below it. */
  ghost predicate Stacked(stack: seq<Activation>, m: Lines, s: Lines, rest: Residue)
  {
    if stack == [] then
      m == rest.m && s == rest.s
    else
      var a := Top(stack);
      && (MasterBit(a) < 8 ==> MasterBit(a) == Highest(m))
      && (SlaveBit(a) < 8 ==> SlaveBit(a) == Highest(s))
      && Stacked(Below(stack), m - {MasterBit(a)}, s - {SlaveBit(a)}, rest)
  }

  /** What the code knows of an activation agrees with what the hardware did. */
  predicate Consistent(a: Activation)
  {
    && IrqOf(a.vector) == LineOf(a.source) && a.savedIf
    && match a.source
       case MasterLine(l) => 0 <= l < 8 && l != 2 && a.pc != EoiSlave
       case SlaveLine(l) => 0 <= l < 8
       case LostMaster => a.pc == Entry || a.pc == Leave
       case LostSlave => a.pc == Entry || a.pc == EoiMaster || a.pc == Leave
  }

  predicate Fresh(a: Activation)
  {
    a.pc == Entry || a.pc == Dispatch
  }

  ghost predicate Inv(sys: System, rest: Residue)
  {
    && PairConfigured(sys.m, sys.s) && |sys.handlers| == NUM_IRQS
    && Stacked(sys.stack, sys.m.isr, sys.s.isr, rest)
    && (forall i :: 0 <= i < |sys.stack| ==> Consistent(sys.stack[i]))
    && (forall i :: 0 <= i < |sys.stack| - 1 ==> !Fresh(sys.stack[i]))
    && (sys.stack != [] ==>
          var a := Top(sys.stack);
          && (Fresh(a) ==> !sys.iflag)
          && (a.pc == Entry && a.source.LostMaster? ==> 7 !in sys.m.isr)
          && (a.pc == Entry && a.source.LostSlave? ==> 7 !in sys.s.isr))
    && sys.acked == LinesOf(sys.dispatched) + Pending(sys.stack)
  }

  function LinesOf(calls: seq<(int, Handler)>): seq<int>
  {
    seq(|calls|, i requires 0 <= i < |calls| => calls[i].0)
  }

  /** The line acknowledged but not yet dispatched, if there is one. */
  function Pending(stack: seq<Activation>): seq<int>
  {
    if stack == [] then []
    else
      var a := Top(stack);
      if Fresh(a) && !a.source.LostMaster? && !a.source.LostSlave? then [LineOf(a.source)] else []
  }

  /** Whatever was in service before becomes the residue. */
  lemma InitialInv(m: Chip, s: Chip, handlers: seq<Handler>)
    requires PairConfigured(m, s) && |handlers| == NUM_IRQS
    ensures Inv(Start(m, s, handlers), Residue(m.isr, s.isr))
    ensures MaskCallsNest(Start(m, s, handlers))
  {
  }

  /** The hazard: a request is lost while the line it will be mistaken for is in service. */
  predicate Mistaken(sys: System, e: Event)
  {
    e.Ack? && sys.iflag && Masquerades(sys.m, sys.s, Acknowledge(sys.m, sys.s).source)
  }

  ghost predicate Sound(sys: System, es: seq<Event>)
    requires |sys.handlers| == NUM_IRQS
    decreases |es|
  {
    es == [] || (!Mistaken(sys, es[0]) && (StepKeepsTable(sys, es[0]); Sound(Step(sys, es[0]), es[1..])))
  }

  /** A slave line in service implies that the cascade line is, if the residue is like that. */
  lemma {:induction false} SlaveUnderCascade(stack: seq<Activation>, m: Lines, s: Lines, rest: Residue)
    requires Stacked(stack, m, s, rest) && s != {}
    requires rest.s != {} ==> 2 in rest.m
    ensures 2 in m
  {
    if stack != [] {
      var a := Top(stack);
      if SlaveBit(a) == 8 {
        SlaveUnderCascade(Below(stack), m - {MasterBit(a)}, s - {SlaveBit(a)}, rest);
      }
    }
  }

  /** The stack determines both registers. */
  lemma {:induction false} StackDetermines(stack: seq<Activation>, m: Lines, s: Lines, m': Lines, s': Lines,
                                           rest: Residue)
    requires Stacked(stack, m, s, rest) && Stacked(stack, m', s', rest)
    requires forall i :: 0 <= i < |stack| ==> Consistent(stack[i])
    ensures m == m' && s == s'
  {
    if stack != [] {
      var a, below := Top(stack), Below(stack);
      assert Consistent(a);
      assert forall i :: 0 <= i < |below| ==> below[i] == stack[i];
      StackDetermines(below, m - {MasterBit(a)}, s - {SlaveBit(a)}, m' - {MasterBit(a)}, s' - {SlaveBit(a)}, rest);
      SameWithout(m, m', MasterBit(a));
      SameWithout(s, s', SlaveBit(a));
    }
  }

  lemma SameWithout(x: Lines, y: Lines, l: int)
    requires x - {l} == y - {l} && (l < 8 ==> l == Highest(x) && l == Highest(y)) && 0 <= l <= 8
    ensures x == y
  {
    forall k
      ensures k in x <==> k in y
    {
      assert k in x - {l} <==> k in x && k != l;
      assert k in y - {l} <==> k in y && k != l;
    }
  }

  /** The residue is never touched. */
  lemma {:induction false} ResidueStays(stack: seq<Activation>, m: Lines, s: Lines, rest: Residue)
    requires Stacked(stack, m, s, rest)
    ensures rest.m <= m && rest.s <= s
  {
    if stack != [] {
      var a := Top(stack);
      ResidueStays(Below(stack), m - {MasterBit(a)}, s - {SlaveBit(a)}, rest);
    }
  }

  lemma StackedPush(stack: seq<Activation>, a: Activation, m: Lines, s: Lines, m': Lines, s': Lines, rest: Residue)
    requires Stacked(stack, m, s, rest)
    requires (MasterBit(a) == 8 && m' == m) || (MasterBit(a) < Highest(m) && m' == m + {MasterBit(a)})
    requires (SlaveBit(a) == 8 && s' == s) || (SlaveBit(a) < Highest(s) && s' == s + {SlaveBit(a)})
    ensures Stacked(stack + [a], m', s', rest)
  {
    assert Top(stack + [a]) == a && Below(stack + [a]) == stack;
    assert m' - {MasterBit(a)} == m && s' - {SlaveBit(a)} == s;
  }

  /** What an acknowledge puts in service is what the new activation holds. */
  lemma HoldsItsLine(sys: System)
    requires PairConfigured(sys.m, sys.s)
    ensures var next := TakeInterrupt(sys);
            var a := Top(next.stack);
            && PairConfigured(next.m, next.s)
            && ((MasterBit(a) == 8 && next.m.isr == sys.m.isr)
                || (MasterBit(a) < Highest(sys.m.isr) && next.m.isr == sys.m.isr + {MasterBit(a)}))
            && ((SlaveBit(a) == 8 && next.s.isr == sys.s.isr)
                || (SlaveBit(a) < Highest(sys.s.isr) && next.s.isr == sys.s.isr + {SlaveBit(a)}))
  {
    assert Bit(0x04, 2) && forall l :: 0 <= l < 8 && l != 2 ==> !Bit(0x04, l);
  }

  /** An acknowledge pushes an activation that holds what it put in service. */
  lemma TakePushes(sys: System, rest: Residue)
    requires PairConfigured(sys.m, sys.s) && Stacked(sys.stack, sys.m.isr, sys.s.isr, rest)
    ensures var next := TakeInterrupt(sys);
            Stacked(next.stack, next.m.isr, next.s.isr, rest) && PairConfigured(next.m, next.s)
  {
    var next := TakeInterrupt(sys);
    HoldsItsLine(sys);
    StackedPush(sys.stack, Top(next.stack), sys.m.isr, sys.s.isr, next.m.isr, next.s.isr, rest);
    assert next.stack == sys.stack + [Top(next.stack)];
  }

  lemma NewIsConsistent(sys: System)
    requires PairConfigured(sys.m, sys.s) && sys.iflag && !Mistaken(sys, Ack)
    ensures var next := TakeInterrupt(sys);
            var a := Top(next.stack);
            && Consistent(a) && a.pc == Entry
            && (a.source.LostMaster? ==> 7 !in next.m.isr)
            && (a.source.LostSlave? ==> 7 !in next.s.isr)
  {
    VectorNamesLine(sys.m, sys.s);
  }

  lemma TakeKeepsInv(sys: System, rest: Residue)
    requires Inv(sys, rest) && sys.iflag && !Mistaken(sys, Ack)
    ensures Inv(TakeInterrupt(sys), rest)
  {
    var next := TakeInterrupt(sys);
    TakePushes(sys, rest);
    NewIsConsistent(sys);
    PushKeepsOthers(sys, next);
    assert sys.stack != [] ==> !Fresh(Top(sys.stack));
  }

  lemma PushKeepsOthers(sys: System, next: System)
    requires |next.stack| == |sys.stack| + 1 && next.stack[..|sys.stack|] == sys.stack
    requires forall i :: 0 <= i < |sys.stack| ==> Consistent(sys.stack[i])
    requires forall i :: 0 <= i < |sys.stack| - 1 ==> !Fresh(sys.stack[i])
    requires sys.stack != [] ==> !Fresh(Top(sys.stack))
    ensures forall i :: 0 <= i < |next.stack| - 1 ==> Consistent(next.stack[i]) && !Fresh(next.stack[i])
  {
    forall i | 0 <= i < |next.stack| - 1
      ensures Consistent(next.stack[i]) && !Fresh(next.stack[i])
    {
      assert next.stack[i] == next.stack[..|sys.stack|][i] == sys.stack[i];
      if i == |sys.stack| - 1 { assert sys.stack[i] == Top(sys.stack); }
    }
  }

  /** The innermost activation moves, keeping or giving up what it holds. */
  lemma AtKeepsInv(sys: System, next: System, pc: Pc, rest: Residue)
    requires Inv(sys, rest) && sys.stack != []
    requires next.stack == At(sys, pc).stack && next.handlers == sys.handlers && next.iflag == sys.iflag
    requires PairConfigured(next.m, next.s) && pc != Entry && (pc == Dispatch ==> !sys.iflag)
    requires var a := Top(sys.stack);
             var b := a.(pc := pc);
             && Consistent(b)
             && next.m.isr - {MasterBit(b)} == sys.m.isr - {MasterBit(a)}
             && next.s.isr - {SlaveBit(b)} == sys.s.isr - {SlaveBit(a)}
             && (MasterBit(b) < 8 ==> MasterBit(b) == Highest(next.m.isr))
             && (SlaveBit(b) < 8 ==> SlaveBit(b) == Highest(next.s.isr))
    requires next.acked == LinesOf(next.dispatched) + Pending(next.stack)
    ensures Inv(next, rest)
  {
    var a := Top(sys.stack);
    var b := a.(pc := pc);
    assert Top(next.stack) == b && Below(next.stack) == Below(sys.stack);
    forall i | 0 <= i < |next.stack| - 1
      ensures Consistent(next.stack[i]) && !Fresh(next.stack[i])
    {
      assert next.stack[i] == sys.stack[i];
    }
  }

  lemma AdvanceKeepsInv(sys: System, rest: Residue)
    requires Inv(sys, rest) && sys.stack != []
    ensures Inv(AdvanceTop(sys), rest)
  {
    match Top(sys.stack).pc
    case Leave => LeaveKeepsInv(sys, rest);
    case EoiSlave => EoiKeepsInv(sys, rest);
    case EoiMaster => EoiKeepsInv(sys, rest);
    case Entry => SoftwareKeepsInv(sys, rest);
    case Dispatch => SoftwareKeepsInv(sys, rest);
    case InHandler => SoftwareKeepsInv(sys, rest);
  }

  lemma LeaveKeepsInv(sys: System, rest: Residue)
    requires Inv(sys, rest) && sys.stack != [] && Top(sys.stack).pc == Leave
    ensures Inv(AdvanceTop(sys), rest)
  {
    var next := AdvanceTop(sys);
    assert 8 !in sys.m.isr && 8 !in sys.s.isr;
    assert sys.m.isr - {8} == sys.m.isr && sys.s.isr - {8} == sys.s.isr;
    if next.stack != [] { assert Top(next.stack) == sys.stack[|sys.stack| - 2]; }
  }

  lemma EoiKeepsInv(sys: System, rest: Residue)
    requires Inv(sys, rest) && sys.stack != []
    requires Top(sys.stack).pc == EoiSlave || Top(sys.stack).pc == EoiMaster
    ensures Inv(AdvanceTop(sys), rest)
  {
    var a, next := Top(sys.stack), AdvanceTop(sys);
    assert Consistent(a);
    var b := a.(pc := Top(next.stack).pc);
    assert Top(next.stack) == b;
    assert 8 !in sys.m.isr && 8 !in sys.s.isr;
    if a.pc == EoiMaster {
      assert next.m == EndOfInterrupt(sys.m) && next.s == sys.s;
    } else {
      assert next.s == EndOfInterrupt(sys.s) && next.m == sys.m;
    }
    DispatchedLines(sys, rest);
    AtKeepsInv(sys, next, b.pc, rest);
  }

  lemma SoftwareKeepsInv(sys: System, rest: Residue)
    requires Inv(sys, rest) && sys.stack != []
    requires Top(sys.stack).pc == Entry || Top(sys.stack).pc == Dispatch || Top(sys.stack).pc == InHandler
    ensures Inv(AdvanceTop(sys), rest)
  {
    var a, next := Top(sys.stack), AdvanceTop(sys);
    SoftwareHolds(sys, rest);
    DispatchedLines(sys, rest);
    AtKeepsInv(sys, next, Top(next.stack).pc, rest);
  }

  /** Up to the first EOI an activation holds what it was acknowledged with. */
  lemma SoftwareHolds(sys: System, rest: Residue)
    requires Inv(sys, rest) && sys.stack != []
    requires Top(sys.stack).pc == Entry || Top(sys.stack).pc == Dispatch || Top(sys.stack).pc == InHandler
    ensures var a, next := Top(sys.stack), AdvanceTop(sys);
            var b := a.(pc := Top(next.stack).pc);
            && next.stack == At(sys, b.pc).stack && Consistent(b) && b.pc != Entry
            && MasterBit(b) == MasterBit(a) && SlaveBit(b) == SlaveBit(a)
            && next == sys.(m := next.m, s := next.s, stack := next.stack, dispatched := next.dispatched)
            && next.m == sys.m.(readIsr := next.m.readIsr) && next.s == sys.s.(readIsr := next.s.readIsr)
  {
    assert Consistent(Top(sys.stack));
    if Top(sys.stack).pc == Entry { EntrySeesService(sys, rest); }
  }

  /** At its entry the code finds the tested in-service bit set exactly for a real request. */
  lemma EntrySeesService(sys: System, rest: Residue)
    requires Inv(sys, rest) && sys.stack != [] && Top(sys.stack).pc == Entry
    ensures var a := Top(sys.stack);
            && (IrqOf(a.vector) == 7 ==> (7 in sys.m.isr <==> a.source == MasterLine(7)))
            && (IrqOf(a.vector) == 15 ==> (7 in sys.s.isr <==> a.source == SlaveLine(7)))
  {
    assert Consistent(Top(sys.stack));
  }

  lemma DispatchedLines(sys: System, rest: Residue)
    requires Inv(sys, rest) && sys.stack != [] && Top(sys.stack).pc != Leave
    ensures var next := AdvanceTop(sys);
            next.acked == LinesOf(next.dispatched) + Pending(next.stack)
  {
    var next := AdvanceTop(sys);
    assert Consistent(Top(sys.stack));
    if Top(sys.stack).pc == Dispatch {
      var irq := IrqOf(Top(sys.stack).vector);
      assert LinesOf(next.dispatched) == LinesOf(sys.dispatched) + [irq];
    }
  }

  lemma MaskKeepsSetup(sys: System)
    requires PairConfigured(sys.m, sys.s) && sys.maskCalls != []
    ensures var next := EndMaskCall(sys);
            next == sys.(m := sys.m.(imr := next.m.imr), s := sys.s.(imr := next.s.imr),
                         maskCalls := next.maskCalls, wanted := next.wanted)
  {
  }

  lemma StepKeepsInv(sys: System, e: Event, rest: Residue)
    requires Inv(sys, rest) && !Mistaken(sys, e)
    ensures Inv(Step(sys, e), rest)
  {
    match e
    case Ack => if sys.iflag { TakeKeepsInv(sys, rest); }
    case Advance => if sys.stack != [] { AdvanceKeepsInv(sys, rest); }
    case EndMask => if sys.maskCalls != [] { MaskKeepsSetup(sys); }
    case BeginMask(_, _) =>
    case Devices(_, _) =>
    case SetIf(_) =>
    case Register(_, _) =>
  }

  /** Main result. Over every run, nested or not, in which no lost request is mistaken for a
      line in service, the in-service registers are exactly the lines of the unfinished
      activations in strict priority order above the residue, and the lines dispatched are
      exactly the lines acknowledged, in order, but for the one not yet dispatched. */
  lemma {:induction false} RunKeepsInv(sys: System, es: seq<Event>, rest: Residue)
    requires Inv(sys, rest) && Sound(sys, es)
    ensures Inv(Run(sys, es), rest)
    decreases |es|
  {
    if es != [] {
      StepKeepsInv(sys, es[0], rest);
      RunKeepsInv(Step(sys, es[0]), es[1..], rest);
    }
  }

  /** Each end-of-interrupt clears the bit of the activation that sends it, and no other. */
  lemma EoiClearsItsSender(sys: System, rest: Residue)
    requires Inv(sys, rest) && sys.stack != [] && !Masking(sys)
    ensures var a := Top(sys.stack);
            var next := Step(sys, Advance);
            && (a.pc == EoiMaster ==> MasterBit(a) in sys.m.isr && next.m.isr == sys.m.isr - {MasterBit(a)}
                                      && next.s.isr == sys.s.isr)
            && (a.pc == EoiSlave ==> SlaveBit(a) in sys.s.isr && next.s.isr == sys.s.isr - {SlaveBit(a)}
                                     && next.m.isr == sys.m.isr)
  {
    assert Consistent(Top(sys.stack));
  }

  /** Whenever the nesting is back to what it was, so is every in-service bit: irq_handler
      leaves the controllers as its acknowledge found them. */
  lemma ReturnRestoresService(sys: System, es: seq<Event>, rest: Residue)
    requires Inv(sys, rest) && Sound(sys, es) && Run(sys, es).stack == sys.stack
    ensures Run(sys, es).m.isr == sys.m.isr && Run(sys, es).s.isr == sys.s.isr
  {
    RunKeepsInv(sys, es, rest);
    var end := Run(sys, es);
    StackDetermines(sys.stack, sys.m.isr, sys.s.isr, end.m.isr, end.s.isr, rest);
  }

  /** With no handler active a chip passes on its requests exactly when the highest unmasked one
      is above everything in the residue: with no residue, any of them. Everything
      acknowledged has been dispatched, once and in order. */
  lemma QuiescentIsOpen(sys: System, rest: Residue)
    requires Inv(sys, rest) && sys.stack == []
    ensures Requesting(sys.m) <==> exists l :: l in sys.m.irr - sys.m.imr && l < Highest(rest.m)
    ensures Requesting(sys.s) <==> exists l :: l in sys.s.irr - sys.s.imr && l < Highest(rest.s)
    ensures rest == NOTHING ==> Highest(rest.m) == 8 && Highest(rest.s) == 8
    ensures LinesOf(sys.dispatched) == sys.acked
  {
    HighestBelow(sys.m.irr - sys.m.imr, Highest(rest.m));
    HighestBelow(sys.s.irr - sys.s.imr, Highest(rest.s));
  }

  lemma HighestBelow(s: Lines, h: int)
    requires 0 <= h <= 8
    ensures Highest(s) < h <==> exists l :: l in s && l < h
  {
    if Highest(s) < h { assert Highest(s) in s; }
  }

  /** The lines that the residue leaves usable. */
  predicate Usable(irq: int, rest: Residue)
  {
    if irq < 8 then irq < Highest(rest.m) else 2 < Highest(rest.m) && irq - 8 < Highest(rest.s)
  }

  predicate AllUsable(irqs: seq<int>, rest: Residue)
  {
    forall i :: 0 <= i < |irqs| ==> Usable(irqs[i], rest)
  }

  /** Over every run, the lines that a residue blocks are never served again. */
  lemma {:induction false} BlockedAreNeverServed(sys: System, es: seq<Event>, rest: Residue)
    requires Inv(sys, rest) && Sound(sys, es) && AllUsable(sys.acked, rest)
    ensures AllUsable(Run(sys, es).acked, rest)
    decreases |es|
  {
    if es != [] {
      StepKeepsUsable(sys, es[0], rest);
      StepKeepsInv(sys, es[0], rest);
      BlockedAreNeverServed(Step(sys, es[0]), es[1..], rest);
    }
  }

  lemma StepKeepsUsable(sys: System, e: Event, rest: Residue)
    requires Inv(sys, rest) && AllUsable(sys.acked, rest)
    ensures AllUsable(Step(sys, e).acked, rest)
  {
    match e
    case Ack => if sys.iflag { TakenIsUsable(sys, rest); }
    case Advance => if sys.stack != [] { AdvanceKeepsAcked(sys); }
    case EndMask => if sys.maskCalls != [] { MaskKeepsSetup(sys); }
    case BeginMask(_, _) =>
    case Devices(_, _) =>
    case SetIf(_) =>
    case Register(_, _) =>
  }

  lemma AdvanceKeepsAcked(sys: System)
    requires |sys.handlers| == NUM_IRQS && sys.stack != []
    ensures AdvanceTop(sys).acked == sys.acked
  {
  }

  lemma TakenIsUsable(sys: System, rest: Residue)
    requires Inv(sys, rest) && sys.iflag
    ensures var next := TakeInterrupt(sys);
            next.acked == sys.acked ||
            (next.acked == sys.acked + [LineOf(Top(next.stack).source)] && Usable(LineOf(Top(next.stack).source), rest))
  {
    ResidueStays(sys.stack, sys.m.isr, sys.s.isr, rest);
    HighestShrinks(rest.m, sys.m.isr);
    HighestShrinks(rest.s, sys.s.isr);
  }

  lemma HighestShrinks(a: Lines, b: Lines)
    requires a <= b
    ensures Highest(b) <= Highest(a)
  {
    if a != {} { assert Highest(a) in b; }
  }

  /** With interrupts on and nothing running, a request that the master passes on is served: the
      CPU takes it, and left alone irq_handler dispatches its line and gives everything back. */
  lemma RequestIsServed(sys: System, rest: Residue) returns (es: seq<Event>)
    requires Inv(sys, rest) && MaskCallsNest(sys) && sys.iflag && sys.stack == []
    requires Requesting(sys.m) && !Acknowledge(sys.m, sys.s).source.LostSlave?
    ensures var line, end := LineOf(Acknowledge(sys.m, sys.s).source), Run(sys, [Ack] + es);
            && 0 <= line < NUM_IRQS && end.stack == [] && end.iflag
            && end.m.isr == sys.m.isr && end.s.isr == sys.s.isr
            && end.dispatched == sys.dispatched + [(line, sys.handlers[line])]
  {
    var c, taken := Acknowledge(sys.m, sys.s), TakeInterrupt(sys);
    VectorNamesLine(sys.m, sys.s);
    StepKeepsNest(sys, Ack);
    EntryIsNotMasking(taken);
    assert Top(taken.stack).vector == c.vector && Below(taken.stack) == [];
    es := UninterruptedIsIrqHandler(taken);
    RunFirst(sys, Ack, es);
    RealIsNotSpurious(sys.m, sys.s);
    ServiceComesBack(sys.m, sys.s);
  }

  lemma EntryIsNotMasking(sys: System)
    requires MaskCallsNest(sys) && sys.stack != [] && Top(sys.stack).pc == Entry
    ensures !Masking(sys)
  {
    if sys.maskCalls != [] { assert Supported(sys, sys.maskCalls[|sys.maskCalls| - 1].depth); }
  }

  lemma RealIsNotSpurious(m: Chip, s: Chip)
    requires PairConfigured(m, s)
    ensures var c := Acknowledge(m, s);
            c.source.MasterLine? || c.source.SlaveLine? ==> !Spurious(c.master, c.slave, IrqOf(c.vector))
  {
    VectorNamesLine(m, s);
    AcknowledgeServes(m, s);
  }

  lemma ServiceComesBack(m: Chip, s: Chip)
    requires PairConfigured(m, s) && !Masquerades(m, s, Acknowledge(m, s).source)
    ensures var c := Acknowledge(m, s);
            var (m', s') := Dispatched(c.master, c.slave, IrqOf(c.vector));
            m'.isr == m.isr && s'.isr == s.isr
  {
    var c := Acknowledge(m, s);
    HandlerRestoresService(m, s);
    DispatchSeesService(c.master, c.slave, IrqOf(c.vector));
    DispatchSeesService(Settled(c.master), Settled(c.slave), IrqOf(c.vector));
  }
}
