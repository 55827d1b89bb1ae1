/** The request that irq_handler mistakes: when it can occur, what it does, and what a kernel
    must do for it never to occur. */
module IrqHazard {
  import opened Chip8259
  import opened PicDriver
  import opened Idt
  import opened IrqSteps
  import opened IrqProtocol

  /** Slave lines in service before the first activation came through the cascade. */
  predicate Wired(rest: Residue)
  {
    rest.s != {} ==> 2 in rest.m
  }

  /** A default level 7 on the master while its line 7 is in service. */
  predicate LostInSeven(sys: System, e: Event)
  {
    e.Ack? && sys.iflag && !Requesting(sys.m) && 7 in sys.m.isr
  }

  /** Only the master's line 7 can be mistaken: while the slave's is in service the cascade line
      is too, and keeps the slave from being acknowledged. */
  lemma OnlySevenIsMistaken(sys: System, e: Event, rest: Residue)
    requires Inv(sys, rest) && Wired(rest)
    ensures Mistaken(sys, e) <==> LostInSeven(sys, e)
  {
    if 7 in sys.s.isr { SlaveUnderCascade(sys.stack, sys.m.isr, sys.s.isr, rest); }
  }

  /** A run after which the nesting is back and an in-service bit is not. */
  predicate Loses(sys: System, es: seq<Event>)
    requires |sys.handlers| == NUM_IRQS
  {
    var end := Run(sys, es);
    end.stack == sys.stack && (end.m.isr != sys.m.isr || end.s.isr != sys.s.isr)
  }

  /** The exclusion in the main result is exact: a mistaken request leads, without further
      interrupts, to a state where the nesting is back and an in-service bit is lost. */
  lemma MistakenBreaks(sys: System, rest: Residue)
    requires Inv(sys, rest) && MaskCallsNest(sys) && Mistaken(sys, Ack)
    ensures exists es :: Loses(sys, es)
  {
    var next := Step(sys, Ack);
    VectorNamesLine(sys.m, sys.s);
    StepKeepsNest(sys, Ack);
    EntryIsNotMasking(next);
    assert Below(next.stack) == sys.stack;
    var es := UninterruptedIsIrqHandler(next);
    MistakenServiceDiffers(sys);
    RunFirst(sys, Ack, es);
    assert Loses(sys, [Ack] + es);
  }

  lemma MistakenServiceDiffers(sys: System)
    requires PairConfigured(sys.m, sys.s) && Mistaken(sys, Ack)
    ensures var next := TakeInterrupt(sys);
            var (m, s) := Dispatched(next.m, next.s, IrqOf(Top(next.stack).vector));
            m.isr != sys.m.isr || s.isr != sys.s.isr
  {
    var c := Acknowledge(sys.m, sys.s);
    HandlerRestoresService(sys.m, sys.s);
    DispatchSeesService(c.master, c.slave, IrqOf(c.vector));
    DispatchSeesService(Settled(c.master), Settled(c.slave), IrqOf(c.vector));
    assert Top(TakeInterrupt(sys).stack).vector == c.vector;
  }

  /** Interrupts are off while line 7 is in service, and it belongs to the innermost activation,
      or to the firmware before any activation. The state after initialisation is like that. */
  ghost predicate SevenAlone(sys: System, rest: Residue)
  {
    7 in sys.m.isr ==>
      && !sys.iflag
      && if 7 in rest.m then sys.stack == [] else sys.stack != [] && MasterBit(Top(sys.stack)) == 7
  }

  lemma StartsAlone(m: Chip, s: Chip, handlers: seq<Handler>)
    ensures SevenAlone(Start(m, s, handlers), Residue(m.isr, s.isr))
  {
  }

  /** Kernel code turns interrupts on while line 7 is in service. */
  predicate EnablesInSeven(sys: System, e: Event)
  {
    e == SetIf(true) && Free(sys) && 7 in sys.m.isr
  }

  predicate NeverEnablesInSeven(sys: System, es: seq<Event>)
    requires |sys.handlers| == NUM_IRQS
    decreases |es|
  {
    es == [] || (!EnablesInSeven(sys, es[0])
                 && (StepKeepsTable(sys, es[0]); NeverEnablesInSeven(Step(sys, es[0]), es[1..])))
  }

  lemma SevenStaysAlone(sys: System, e: Event, rest: Residue)
    requires Inv(sys, rest) && Wired(rest) && SevenAlone(sys, rest) && !EnablesInSeven(sys, e)
    ensures !Mistaken(sys, e) && SevenAlone(Step(sys, e), rest)
  {
    OnlySevenIsMistaken(sys, e, rest);
    ResidueStays(sys.stack, sys.m.isr, sys.s.isr, rest);
    match e
    case Ack => if sys.iflag { HoldsItsLine(sys); }
    case Advance => if sys.stack != [] && !Masking(sys) { AdvanceKeepsSevenAlone(sys, rest); }
    case EndMask => if sys.maskCalls != [] { MaskKeepsSetup(sys); }
    case BeginMask(_, _) =>
    case Devices(_, _) =>
    case SetIf(_) =>
    case Register(_, _) =>
  }

  lemma AdvanceKeepsSevenAlone(sys: System, rest: Residue)
    requires Inv(sys, rest) && SevenAlone(sys, rest) && sys.stack != [] && !Masking(sys)
    ensures SevenAlone(AdvanceTop(sys), rest)
  {
    var a, next := Top(sys.stack), AdvanceTop(sys);
    EoiClearsItsSender(sys, rest);
    ResidueStays(sys.stack, sys.m.isr, sys.s.isr, rest);
    if a.pc != Leave && a.pc != EoiSlave && a.pc != EoiMaster { SoftwareHolds(sys, rest); }
  }

  /** A kernel whose callbacks do not turn interrupts on while line 7 is in service is safe
      whatever the devices do. */
  lemma {:induction false} NeverEnablingIsSound(sys: System, es: seq<Event>, rest: Residue)
    requires Inv(sys, rest) && Wired(rest) && SevenAlone(sys, rest) && NeverEnablesInSeven(sys, es)
    ensures Sound(sys, es)
    decreases |es|
  {
    if es != [] {
      SevenStaysAlone(sys, es[0], rest);
      StepKeepsInv(sys, es[0], rest);
      NeverEnablingIsSound(Step(sys, es[0]), es[1..], rest);
    }
  }

  /** So it never loses an in-service bit. */
  lemma NeverEnablingLosesNone(sys: System, es: seq<Event>, rest: Residue)
    requires Inv(sys, rest) && Wired(rest) && SevenAlone(sys, rest) && NeverEnablesInSeven(sys, es)
    ensures !Loses(sys, es)
  {
    NeverEnablingIsSound(sys, es, rest);
    if Loses(sys, es) { ReturnRestoresService(sys, es, rest); }
  }

  /** And only such a kernel is: wherever one turns interrupts on at such a moment, some run from
      there loses one. */
  lemma EnablingLosesOne(sys: System, rest: Residue)
    requires Inv(sys, rest) && MaskCallsNest(sys) && EnablesInSeven(sys, SetIf(true))
    ensures exists es :: Loses(sys, es)
  {
    var enabled := Step(sys, SetIf(true));
    EnablingIsHazardous(sys, rest);
    StepKeepsInv(sys, SetIf(true), rest);
    StepKeepsInv(enabled, Devices({}, {}), rest);
    StepKeepsNest(sys, SetIf(true));
    StepKeepsNest(enabled, Devices({}, {}));
    var dropped := Step(enabled, Devices({}, {}));
    MistakenBreaks(dropped, rest);
    var es :| Loses(dropped, es);
    RunFirst(enabled, Devices({}, {}), es);
    RunFirst(sys, SetIf(true), [Devices({}, {})] + es);
    assert Loses(sys, [SetIf(true)] + ([Devices({}, {})] + es));
  }

  /** Turned on at such a moment, interrupts are open to a request
      that a device drops. */
  lemma EnablingIsHazardous(sys: System, rest: Residue)
    requires Inv(sys, rest) && EnablesInSeven(sys, SetIf(true))
    ensures Mistaken(Step(Step(sys, SetIf(true)), Devices({}, {})), Ack)
  {
    var next := Step(Step(sys, SetIf(true)), Devices({}, {}));
    assert next.m.irr - next.m.imr == {};
  }

  /** Interrupts are turned on in the main program only. */
  predicate NoneReenables(sys: System, es: seq<Event>)
    requires |sys.handlers| == NUM_IRQS
    decreases |es|
  {
    es == [] || ((es[0] == SetIf(true) ==> sys.stack == [])
                 && (StepKeepsTable(sys, es[0]); NoneReenables(Step(sys, es[0]), es[1..])))
  }

  predicate Flat(sys: System)
  {
    |sys.stack| <= 1 && (sys.stack != [] ==> !sys.iflag)
  }

  lemma StepStaysFlat(sys: System, e: Event)
    requires |sys.handlers| == NUM_IRQS && Flat(sys)
    requires e == SetIf(true) ==> sys.stack == []
    ensures Flat(Step(sys, e))
  {
    if e == EndMask && sys.maskCalls != [] { assert EndMaskCall(sys).stack == sys.stack; }
  }

  /** Then activations never nest and every run is sound. */
  lemma {:induction false} UnnestedIsSound(sys: System, es: seq<Event>, rest: Residue)
    requires Inv(sys, rest) && Wired(rest) && 7 !in rest.m && SevenAlone(sys, rest) && Flat(sys)
    requires NoneReenables(sys, es)
    ensures Sound(sys, es) && Flat(Run(sys, es))
    decreases |es|
  {
    if es != [] {
      SevenStaysAlone(sys, es[0], rest);
      StepKeepsInv(sys, es[0], rest);
      StepStaysFlat(sys, es[0]);
      UnnestedIsSound(Step(sys, es[0]), es[1..], rest);
    }
  }

  /** One more step of a run. */
  lemma Extend(sys: System, es: seq<Event>, e: Event, rest: Residue) returns (next: seq<Event>)
    requires |sys.handlers| == NUM_IRQS
    requires Inv(Run(sys, es), rest) && !Mistaken(Run(sys, es), e)
    ensures next == es + [e] && Run(sys, next) == Step(Run(sys, es), e) && Inv(Run(sys, next), rest)
  {
    next := es + [e];
    RunLast(sys, es, e);
    StepKeepsInv(Run(sys, es), e, rest);
  }

  /** The hazard is real: from the state that interrupts_init leaves, with line 7 unmasked and
      a callback on it that turns interrupts on. */
  lemma HazardIsReachable(m: Chip, s: Chip, handlers: seq<Handler>)
    requires PairConfigured(m, s) && m.isr == {} && s.isr == {} && m.imr == {}
    requires |handlers| == NUM_IRQS && handlers[7] != NULL
    ensures exists es ::
              var end := Run(Start(m, s, handlers), es);
              Inv(end, NOTHING) && MaskCallsNest(end) && Mistaken(end, Ack)
  {
    var start := Start(m, s, handlers);
    InitialInv(m, s, handlers);
    var es := SevenWaits(m, s, handlers);
    es := SevenRuns(start, es);
    EnablingIsHazardous(Run(start, es), NOTHING);
    es := Extend(start, es, SetIf(true), NOTHING);
    es := Extend(start, es, Devices({}, {}), NOTHING);
    RunKeepsNest(start, es);
  }

  /** Line 7 is requested and the main program turns interrupts on. */
  lemma SevenWaits(m: Chip, s: Chip, handlers: seq<Handler>) returns (es: seq<Event>)
    requires PairConfigured(m, s) && m.isr == {} && s.isr == {} && m.imr == {} && |handlers| == NUM_IRQS
    ensures var waiting := Run(Start(m, s, handlers), es);
            && waiting == Start(m, s, handlers).(m := m.(irr := {7}), s := s.(irr := {}), iflag := true)
            && Inv(waiting, NOTHING)
  {
    var start := Start(m, s, handlers);
    InitialInv(m, s, handlers);
    assert Run(start, []) == start;
    es := Extend(start, [], Devices({7}, {}), NOTHING);
    es := Extend(start, es, SetIf(true), NOTHING);
  }

  /** The CPU takes it and its callback runs. */
  lemma SevenRuns(start: System, before: seq<Event>) returns (es: seq<Event>)
    requires |start.handlers| == NUM_IRQS && Inv(Run(start, before), NOTHING)
    requires var sys := Run(start, before);
             && sys.handlers[7] != NULL && sys.m.irr == {7} && sys.m.imr == {} && sys.m.isr == {}
             && sys.iflag && sys.stack == [] && sys.maskCalls == []
    ensures Inv(Run(start, es), NOTHING) && EnablesInSeven(Run(start, es), SetIf(true))
  {
    SevenIsTaken(Run(start, before));
    es := Extend(start, before, Ack, NOTHING);
    es := Extend(start, es, Advance, NOTHING);
    es := Extend(start, es, Advance, NOTHING);
  }

  lemma SevenIsTaken(sys: System)
    requires PairConfigured(sys.m, sys.s) && |sys.handlers| == NUM_IRQS && sys.handlers[7] != NULL
    requires sys.m.irr == {7} && sys.m.imr == {} && sys.m.isr == {}
    requires sys.iflag && sys.stack == [] && sys.maskCalls == []
    ensures !Mistaken(sys, Ack)
    ensures var entered := Step(Step(sys, Ack), Advance);
            && |entered.handlers| == NUM_IRQS
            && Free(Step(entered, Advance)) && 7 in Step(entered, Advance).m.isr
  {
    SevenIsPushed(sys);
    var taken := TakeInterrupt(sys);
    CallbackIsEntered(taken);
    TwoAdvances(sys, taken);
  }

  lemma TwoAdvances(sys: System, taken: System)
    requires |sys.handlers| == NUM_IRQS && sys.iflag && taken == TakeInterrupt(sys)
    requires taken.stack != [] && taken.maskCalls == []
    requires var entered := AdvanceTop(taken);
             |entered.handlers| == NUM_IRQS && entered.stack != [] && entered.maskCalls == []
    ensures Step(sys, Ack) == taken && Step(taken, Advance) == AdvanceTop(taken)
    ensures Step(AdvanceTop(taken), Advance) == AdvanceTop(AdvanceTop(taken))
  {
  }

  lemma SevenIsPushed(sys: System)
    requires PairConfigured(sys.m, sys.s) && |sys.handlers| == NUM_IRQS
    requires sys.m.irr == {7} && sys.m.imr == {} && sys.m.isr == {} && sys.iflag && sys.stack == []
    ensures !Mistaken(sys, Ack)
    ensures var taken := TakeInterrupt(sys);
            && taken.stack == [Activation(MasterLine(7), 39, Entry, true)] && 7 in taken.m.isr
            && taken.handlers == sys.handlers && taken.maskCalls == sys.maskCalls
  {
    SevenIsAcknowledged(sys.m, sys.s);
  }

  lemma SevenIsAcknowledged(m: Chip, s: Chip)
    requires PairConfigured(m, s) && m.irr == {7} && m.imr == {} && m.isr == {}
    ensures var c := Acknowledge(m, s);
            c.source == MasterLine(7) && c.vector == 39 && 7 in c.master.isr
  {
    assert m.irr - m.imr == {7} && Highest({7}) == 7 && !Bit(0x04, 7);
  }

  lemma CallbackIsEntered(sys: System)
    requires |sys.handlers| == NUM_IRQS && sys.handlers[7] != NULL && sys.maskCalls == []
    requires sys.stack == [Activation(MasterLine(7), 39, Entry, true)] && 7 in sys.m.isr
    ensures var entered := AdvanceTop(sys);
            && |entered.handlers| == NUM_IRQS && entered.stack != [] && entered.maskCalls == []
            && Free(AdvanceTop(entered)) && 7 in AdvanceTop(entered).m.isr
  {
    assert IrqOf(39) == 7;
  }
}
