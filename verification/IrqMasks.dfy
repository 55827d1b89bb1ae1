/** The mask registers over runs: pic_set_mask and pic_clear_mask read, then write, and an
    interrupt may come between. */
module IrqMasks {
  import opened Chip8259
  import opened PicDriver
  import opened Idt
  import opened IrqSteps

  predicate SameChip(a: Irq, b: Irq)
  {
    (a < 8) == (b < 8)
  }

  predicate UpToDate(sys: System, c: MaskCall)
  {
    c.byte == ReadData(ChipOf(sys, c.irq))
  }

  /** The registers hold what the finished calls asked for, and the calls under way are on
      different chips, each with the present value of its register in hand. */
  predicate MaskInv(sys: System)
  {
    && sys.m.phase == Ready && sys.s.phase == Ready && Masked(sys.m, sys.s) == sys.wanted
    && (forall i :: 0 <= i < |sys.maskCalls| ==> UpToDate(sys, sys.maskCalls[i]))
    && forall i, j :: 0 <= i < j < |sys.maskCalls| ==> !SameChip(sys.maskCalls[i].irq, sys.maskCalls[j].irq)
  }

  /** A mask call begins inside another one on the same chip. */
  predicate Collides(sys: System, e: Event)
  {
    e.BeginMask? && Free(sys) && exists i :: 0 <= i < |sys.maskCalls| && SameChip(sys.maskCalls[i].irq, e.irq)
  }

  predicate NoneCollide(sys: System, es: seq<Event>)
    requires |sys.handlers| == NUM_IRQS
    decreases |es|
  {
    es == [] || (!Collides(sys, es[0]) && (StepKeepsTable(sys, es[0]); NoneCollide(Step(sys, es[0]), es[1..])))
  }

  lemma EndKeepsMaskInv(sys: System)
    requires MaskInv(sys) && sys.maskCalls != []
    ensures MaskInv(EndMaskCall(sys))
  {
    var n := |sys.maskCalls| - 1;
    var call, next := sys.maskCalls[n], EndMaskCall(sys);
    MaskWritten(sys.m, sys.s, call.irq, call.masked);
    forall i | 0 <= i < n
      ensures UpToDate(next, sys.maskCalls[i])
    {
      assert UpToDate(sys, sys.maskCalls[i]) && !SameChip(sys.maskCalls[i].irq, call.irq);
    }
  }

  /** Everything MaskInv speaks of. */
  predicate MasksAlike(a: System, b: System)
  {
    && a.m.imr == b.m.imr && a.s.imr == b.s.imr && a.m.phase == b.m.phase && a.s.phase == b.s.phase
    && a.maskCalls == b.maskCalls && a.wanted == b.wanted
  }

  lemma AlikeKeepsMaskInv(sys: System, next: System)
    requires MaskInv(sys) && MasksAlike(sys, next)
    ensures MaskInv(next)
  {
  }

  /** Nothing else writes a mask register. */
  lemma AdvanceKeepsMasks(sys: System)
    requires |sys.handlers| == NUM_IRQS && sys.stack != []
    ensures MasksAlike(sys, AdvanceTop(sys))
  {
    if Top(sys.stack).pc == EoiSlave || Top(sys.stack).pc == EoiMaster { EoiKeepsMasks(sys); }
  }

  lemma EoiKeepsMasks(sys: System)
    requires |sys.handlers| == NUM_IRQS && sys.stack != []
    requires Top(sys.stack).pc == EoiSlave || Top(sys.stack).pc == EoiMaster
    ensures MasksAlike(sys, AdvanceTop(sys))
  {
    EoiCommand(sys.m);
    EoiCommand(sys.s);
  }

  lemma TakeKeepsMasks(sys: System)
    ensures MasksAlike(sys, TakeInterrupt(sys))
  {
  }

  lemma BeginKeepsMaskInv(sys: System, irq: Irq, masked: bool)
    requires MaskInv(sys) && forall i :: 0 <= i < |sys.maskCalls| ==> !SameChip(sys.maskCalls[i].irq, irq)
    ensures MaskInv(BeginMaskCall(sys, irq, masked))
  {
  }

  lemma StepKeepsMaskInv(sys: System, e: Event)
    requires |sys.handlers| == NUM_IRQS && MaskInv(sys) && !Collides(sys, e)
    ensures MaskInv(Step(sys, e))
  {
    var next := Step(sys, e);
    match e
    case EndMask => if InCode(sys) && Masking(sys) { EndKeepsMaskInv(sys); }
    case BeginMask(irq, masked) => if Free(sys) { BeginKeepsMaskInv(sys, irq, masked); }
    case _ =>
      OthersKeepMasks(sys, e);
      AlikeKeepsMaskInv(sys, next);
  }

  lemma OthersKeepMasks(sys: System, e: Event)
    requires |sys.handlers| == NUM_IRQS && !e.BeginMask? && !e.EndMask?
    ensures MasksAlike(sys, Step(sys, e))
  {
    if e == Advance && sys.stack != [] {
      AdvanceKeepsMasks(sys);
    } else if e == Ack {
      TakeKeepsMasks(sys);
    }
  }

  /** This and AllByMain hold where initialisation leaves the system. */
  lemma StartIsClean(m: Chip, s: Chip, handlers: seq<Handler>)
    requires PairConfigured(m, s)
    ensures MaskInv(Start(m, s, handlers)) && AllByMain(Start(m, s, handlers))
  {
  }

  /** Over every run in which no mask call begins inside another on the same chip, the masks are
      a set that each call changes by its line. */
  lemma {:induction false} MasksAreASet(sys: System, es: seq<Event>)
    requires |sys.handlers| == NUM_IRQS && MaskInv(sys) && NoneCollide(sys, es)
    ensures MaskInv(Run(sys, es))
    decreases |es|
  {
    if es != [] {
      StepKeepsMaskInv(sys, es[0]);
      MasksAreASet(Step(sys, es[0]), es[1..]);
    }
  }

  /** Masks are changed in the main program only. */
  predicate MainOnly(sys: System, es: seq<Event>)
    requires |sys.handlers| == NUM_IRQS
    decreases |es|
  {
    es == [] || ((es[0].BeginMask? ==> sys.stack == [])
                 && (StepKeepsTable(sys, es[0]); MainOnly(Step(sys, es[0]), es[1..])))
  }

  predicate AllByMain(sys: System)
  {
    forall i :: 0 <= i < |sys.maskCalls| ==> sys.maskCalls[i].depth == 0
  }

  lemma StepByMain(sys: System, e: Event)
    requires |sys.handlers| == NUM_IRQS && AllByMain(sys) && (e.BeginMask? ==> sys.stack == [])
    ensures AllByMain(Step(sys, e)) && !Collides(sys, e)
  {
    if e == Advance && sys.stack != [] { AdvanceKeepsMasks(sys); }
  }

  /** Which is enough. */
  lemma {:induction false} MainOnlyNeverCollides(sys: System, es: seq<Event>)
    requires |sys.handlers| == NUM_IRQS && AllByMain(sys) && MainOnly(sys, es)
    ensures NoneCollide(sys, es)
    decreases |es|
  {
    if es != [] {
      StepByMain(sys, es[0]);
      MainOnlyNeverCollides(Step(sys, es[0]), es[1..]);
    }
  }

  /** Left uninterrupted, a mask call masks or unmasks its line and changes nothing else. */
  lemma UninterruptedMaskCall(sys: System, irq: Irq, masked: bool)
    requires |sys.handlers| == NUM_IRQS && Free(sys) && sys.m.phase == Ready && sys.s.phase == Ready
    ensures var end := Run(sys, [BeginMask(irq, masked), EndMask]);
            && Masked(end.m, end.s) == (if masked then Masked(sys.m, sys.s) + {irq} else Masked(sys.m, sys.s) - {irq})
            && end == sys.(m := sys.m.(imr := end.m.imr), s := sys.s.(imr := end.s.imr), wanted := end.wanted)
            && (irq in end.wanted <==> masked) && end.wanted - {irq} == sys.wanted - {irq}
  {
    TwoSteps(sys, BeginMask(irq, masked), EndMask);
    BegunIsMasking(sys, irq, masked);
    BegunEnds(sys, irq, masked);
  }

  lemma BegunIsMasking(sys: System, irq: Irq, masked: bool)
    requires |sys.handlers| == NUM_IRQS && Free(sys)
    ensures var begun := BeginMaskCall(sys, irq, masked);
            && Step(sys, BeginMask(irq, masked)) == begun && |begun.handlers| == NUM_IRQS
            && Step(begun, EndMask) == EndMaskCall(begun)
  {
    var begun := BeginMaskCall(sys, irq, masked);
    assert InCode(begun) && Masking(begun);
  }

  lemma BegunEnds(sys: System, irq: Irq, masked: bool)
    requires sys.m.phase == Ready && sys.s.phase == Ready
    ensures var end := EndMaskCall(BeginMaskCall(sys, irq, masked));
            && Masked(end.m, end.s) == (if masked then Masked(sys.m, sys.s) + {irq} else Masked(sys.m, sys.s) - {irq})
            && end == sys.(m := sys.m.(imr := end.m.imr), s := sys.s.(imr := end.s.imr), wanted := end.wanted)
            && (irq in end.wanted <==> masked) && end.wanted - {irq} == sys.wanted - {irq}
  {
    MaskWritten(sys.m, sys.s, irq, masked);
    assert BeginMaskCall(sys, irq, masked).maskCalls[..|sys.maskCalls|] == sys.maskCalls;
  }

  /** A line is masked, and no call under way is to unmask it. */
  predicate StaysMasked(sys: System, irq: Irq)
  {
    irq in sys.wanted && forall i :: 0 <= i < |sys.maskCalls| && sys.maskCalls[i].irq == irq ==> sys.maskCalls[i].masked
  }

  /** No acknowledge from some moment on was of this line. */
  predicate NotServed(sys: System, irq: Irq, from: nat)
  {
    forall i :: from <= i < |sys.acked| ==> sys.acked[i] != irq
  }

  lemma MaskedIsNotTaken(sys: System, irq: Irq, from: nat)
    requires MaskInv(sys) && irq in sys.wanted && NotServed(sys, irq, from)
    ensures NotServed(TakeInterrupt(sys), irq, from)
  {
    InMasked(sys.m, sys.s, irq);
    TakenIsUnmasked(sys);
  }

  lemma TakenIsUnmasked(sys: System)
    ensures var c, next := Acknowledge(sys.m, sys.s), TakeInterrupt(sys);
            match c.source
            case MasterLine(l) => next.acked == sys.acked + [l] && 0 <= l < 8 && l !in sys.m.imr
            case SlaveLine(k) => next.acked == sys.acked + [k + 8] && 0 <= k < 8 && k !in sys.s.imr
            case _ => next.acked == sys.acked
  {
  }

  lemma StepStaysMasked(sys: System, e: Event, irq: Irq, from: nat)
    requires |sys.handlers| == NUM_IRQS && MaskInv(sys) && StaysMasked(sys, irq) && NotServed(sys, irq, from)
    requires e != BeginMask(irq, false)
    ensures StaysMasked(Step(sys, e), irq) && NotServed(Step(sys, e), irq, from)
  {
    if e == Ack && sys.iflag {
      MaskedIsNotTaken(sys, irq, from);
      TakeKeepsMasks(sys);
    } else if e == Advance && sys.stack != [] && !Masking(sys) {
      AdvanceKeepsMasks(sys);
      assert AdvanceTop(sys).acked == sys.acked;
    }
  }

  /** Over every run without colliding mask calls, a masked line is not served until a call
      unmasks it, whatever is requested. */
  lemma {:induction false} MaskedIsNeverServed(sys: System, es: seq<Event>, irq: Irq, from: nat)
    requires |sys.handlers| == NUM_IRQS && MaskInv(sys) && NoneCollide(sys, es)
    requires StaysMasked(sys, irq) && NotServed(sys, irq, from)
    requires forall i :: 0 <= i < |es| ==> es[i] != BeginMask(irq, false)
    ensures NotServed(Run(sys, es), irq, from)
    decreases |es|
  {
    if es != [] {
      StepKeepsMaskInv(sys, es[0]);
      StepStaysMasked(sys, es[0], irq, from);
      MaskedIsNeverServed(Step(sys, es[0]), es[1..], irq, from);
    }
  }

  /** A write is right exactly when its register, but for the line it changes, still is what it
      was when it was read. */
  lemma WriteIsRightIff(sys: System)
    requires sys.m.phase == Ready && sys.s.phase == Ready && Masked(sys.m, sys.s) == sys.wanted
    requires sys.maskCalls != []
    ensures var call, next := sys.maskCalls[|sys.maskCalls| - 1], EndMaskCall(sys);
            var line := Bit8(call.irq);
            Masked(next.m, next.s) == next.wanted <==>
            FromByte(call.byte) - {line} == ChipOf(sys, call.irq).imr - {line}
  {
    var call, next := sys.maskCalls[|sys.maskCalls| - 1], EndMaskCall(sys);
    var line, chip := Bit8(call.irq), ChipOf(sys, call.irq);
    var right := if call.masked then chip.imr + {line} else chip.imr - {line};
    RightWrite(sys.m, sys.s, call.irq, call.masked, right);
    var m := if call.irq < 8 then sys.m.(imr := right) else sys.m;
    var s := if call.irq < 8 then sys.s else sys.s.(imr := right);
    assert Masked(m, s) == next.wanted;
    MaskedDetermines(next.m, next.s, m, s);
    WrittenRegister(sys, right);
  }

  /** What the register should become. */
  lemma RightWrite(m: Chip, s: Chip, irq: Irq, masked: bool, right: Lines)
    requires var line, imr := Bit8(irq), if irq < 8 then m.imr else s.imr;
             right == if masked then imr + {line} else imr - {line}
    ensures Masked(if irq < 8 then m.(imr := right) else m, if irq < 8 then s else s.(imr := right)) ==
            if masked then Masked(m, s) + {irq} else Masked(m, s) - {irq}
  {
    if irq < 8 { MaskMaster(m, s, irq); } else { MaskSlave(m, s, irq - 8); }
  }

  /** What it becomes. */
  lemma WrittenRegister(sys: System, right: Lines)
    requires sys.m.phase == Ready && sys.s.phase == Ready && sys.maskCalls != []
    requires var call := sys.maskCalls[|sys.maskCalls| - 1];
             var line, imr := Bit8(call.irq), ChipOf(sys, call.irq).imr;
             right == if call.masked then imr + {line} else imr - {line}
    ensures var call, next := sys.maskCalls[|sys.maskCalls| - 1], EndMaskCall(sys);
            var line := Bit8(call.irq);
            && (ChipOf(next, call.irq).imr == right <==>
                FromByte(call.byte) - {line} == ChipOf(sys, call.irq).imr - {line})
            && (if call.irq < 8 then next.s == sys.s else next.m == sys.m)
  {
    var call, next := sys.maskCalls[|sys.maskCalls| - 1], EndMaskCall(sys);
    var line, chip := Bit8(call.irq), ChipOf(sys, call.irq);
    MaskByteChanges(call.byte, line, call.masked);
    SameBut(ChipOf(next, call.irq).imr, right, FromByte(call.byte), chip.imr, line);
  }

  lemma SameBut(written: Lines, right: Lines, was: Lines, now: Lines, line: int)
    requires (written == was + {line} && right == now + {line}) || (written == was - {line} && right == now - {line})
    ensures written == right <==> was - {line} == now - {line}
  {
    assert written - {line} == was - {line} && right - {line} == now - {line};
    if written - {line} == right - {line} {
      assert line in written <==> line in right;
      assert forall k :: k in written <==> (k == line && line in written) || k in written - {line};
      assert forall k :: k in right <==> (k == line && line in right) || k in right - {line};
    }
  }

  lemma MaskedDetermines(m: Chip, s: Chip, m': Chip, s': Chip)
    ensures Masked(m, s) == Masked(m', s') <==> m.imr == m'.imr && s.imr == s'.imr
  {
    if Masked(m, s) == Masked(m', s') {
      forall l | 0 <= l < 8
        ensures (l in m.imr <==> l in m'.imr) && (l in s.imr <==> l in s'.imr)
      {
        InMasked(m, s, l);
        InMasked(m', s', l);
        InMasked(m, s, l + 8);
        InMasked(m', s', l + 8);
      }
    }
  }

  /** It does go wrong: the main program is interrupted inside pic_set_mask(1) and the callback
      of line 0 masks line 3, which the main program's write then undoes. */
  lemma MaskCanBeLost(m: Chip, s: Chip, handlers: seq<Handler>)
    requires PairConfigured(m, s) && m.isr == {} && s.isr == {} && m.imr == {}
    requires |handlers| == NUM_IRQS && handlers[0] != NULL
    ensures exists es ::
              var end := Run(Start(m, s, handlers), es);
              end.stack == [] && 3 in end.wanted && 3 !in Masked(end.m, end.s)
  {
    var start := Start(m, s, handlers);
    var es := InterruptedCall(start);
    es := CallbackRuns(start, es);
    es := CallbackMasks(start, es);
    var inside := Run(start, es);
    var more := FinishRun(inside);
    RunInTwo(start, es, more);
    RunLast(start, es + more, EndMask);
    LateWrite(Run(start, es + more));
    assert Run(start, es + more + [EndMask]).stack == [];
  }

  /** The master's mask register as pic_set_mask(1) reads it on a machine with nothing masked. */
  const CALL: MaskCall := MaskCall(0, 1, true, 0)

  lemma InterruptedCall(start: System) returns (es: seq<Event>)
    requires |start.handlers| == NUM_IRQS && start.m.imr == {}
    requires start.stack == [] && start.maskCalls == []
    ensures Run(start, es) == start.(m := start.m.(irr := {0}), s := start.s.(irr := {}), iflag := true,
                                     maskCalls := [CALL])
  {
    assert ToByte({}) == 0;
    assert Run(start, []) == start;
    RunLast(start, [], SetIf(true));
    es := [] + [SetIf(true)];
    RunLast(start, es, BeginMask(1, true));
    es := es + [BeginMask(1, true)];
    RunLast(start, es, Devices({0}, {}));
    es := es + [Devices({0}, {})];
  }

  lemma CallbackRuns(start: System, before: seq<Event>) returns (es: seq<Event>)
    requires |start.handlers| == NUM_IRQS
    requires var sys := Run(start, before);
             && PairConfigured(sys.m, sys.s) && sys.m.irr == {0} && sys.m.imr == {} && sys.m.isr == {}
             && sys.handlers[0] != NULL && sys.iflag && sys.stack == [] && sys.maskCalls == [CALL]
    ensures var sys := Run(start, es);
            && sys.m.phase == Ready && sys.m.imr == {} && sys.maskCalls == [CALL]
            && |sys.stack| == 1 && Top(sys.stack).pc == InHandler && IrqOf(Top(sys.stack).vector) == 0
  {
    var sys := Run(start, before);
    ZeroIsAcknowledged(sys.m, sys.s);
    RunLast(start, before, Ack);
    es := before + [Ack];
    var taken := TakeInterrupt(sys);
    assert taken.stack == [Activation(MasterLine(0), 32, Entry, true)];
    CallbackIsEntered(taken);
    RunLast(start, es, Advance);
    es := es + [Advance];
    RunLast(start, es, Advance);
    es := es + [Advance];
  }

  lemma ZeroIsAcknowledged(m: Chip, s: Chip)
    requires PairConfigured(m, s) && m.irr == {0} && m.imr == {} && m.isr == {}
    ensures var c := Acknowledge(m, s);
            && c.source == MasterLine(0) && c.vector == 32
            && c.master.imr == {} && c.master.phase == Ready
  {
    assert m.irr - m.imr == {0} && Highest({0}) == 0 && !Bit(0x04, 0);
  }

  lemma CallbackIsEntered(sys: System)
    requires |sys.handlers| == NUM_IRQS && sys.handlers[0] != NULL && sys.maskCalls == [CALL]
    requires sys.stack == [Activation(MasterLine(0), 32, Entry, true)]
    ensures var a := Step(sys, Advance);
            && |a.handlers| == NUM_IRQS
            && Step(a, Advance) == sys.(stack := [Activation(MasterLine(0), 32, InHandler, true)],
                                        dispatched := sys.dispatched + [(0, sys.handlers[0])])
  {
    assert IrqOf(32) == 0;
    var a := sys.(stack := [Activation(MasterLine(0), 32, Dispatch, true)]);
    assert !Masking(sys) && AdvanceTop(sys) == a;
    CallbackIsCalled(a);
  }

  lemma CallbackIsCalled(sys: System)
    requires |sys.handlers| == NUM_IRQS && sys.handlers[0] != NULL && sys.maskCalls == [CALL]
    requires sys.stack == [Activation(MasterLine(0), 32, Dispatch, true)]
    ensures Step(sys, Advance) == sys.(stack := [Activation(MasterLine(0), 32, InHandler, true)],
                                       dispatched := sys.dispatched + [(0, sys.handlers[0])])
  {
    assert IrqOf(32) == 0 && !Masking(sys);
  }

  lemma CallbackMasks(start: System, before: seq<Event>) returns (es: seq<Event>)
    requires |start.handlers| == NUM_IRQS
    requires var sys := Run(start, before);
             && sys.m.phase == Ready && sys.m.imr == {} && sys.maskCalls == [CALL]
             && |sys.stack| == 1 && Top(sys.stack).pc == InHandler && IrqOf(Top(sys.stack).vector) == 0
    ensures var sys := Run(start, es);
            && sys.m.phase == Ready && sys.maskCalls == [CALL] && 3 in sys.wanted && !Masking(sys)
            && |sys.stack| == 1 && Top(sys.stack).pc == InHandler && IrqOf(Top(sys.stack).vector) == 0
  {
    RunLast(start, before, BeginMask(3, true));
    es := before + [BeginMask(3, true)];
    RunLast(start, es, EndMask);
    es := es + [EndMask];
    MaskThree(Run(start, before));
  }

  /** A whole mask call inside the callback. */
  lemma MaskThree(sys: System)
    requires |sys.handlers| == NUM_IRQS && sys.m.phase == Ready && sys.maskCalls == [CALL]
    requires |sys.stack| == 1 && Top(sys.stack).pc == InHandler
    ensures var begun := Step(sys, BeginMask(3, true));
            && |begun.handlers| == NUM_IRQS
            && var next := Step(begun, EndMask);
               && next.m.phase == Ready && next.maskCalls == [CALL] && 3 in next.wanted && next.stack == sys.stack
               && !Masking(next)
  {
    var begun := BeginMaskCall(sys, 3, true);
    assert begun.maskCalls == [CALL, MaskCall(1, 3, true, ReadData(sys.m))];
    EndThree(begun);
  }

  lemma EndThree(sys: System)
    requires sys.m.phase == Ready && |sys.maskCalls| == 2 && sys.maskCalls[0] == CALL
    requires var call := sys.maskCalls[1];
             call.irq == 3 && call.masked
    requires |sys.stack| == 1
    ensures var next := EndMaskCall(sys);
            && next.m.phase == Ready && next.maskCalls == [CALL] && 3 in next.wanted && next.stack == sys.stack
            && !Masking(next)
  {
    assert sys.maskCalls[..1] == [CALL];
  }

  lemma LateWrite(sys: System)
    requires |sys.handlers| == NUM_IRQS && sys.m.phase == Ready
    requires sys.stack == [] && sys.maskCalls == [CALL] && 3 in sys.wanted
    ensures var end := Step(sys, EndMask);
            end.stack == [] && 3 in end.wanted && 3 !in Masked(end.m, end.s)
  {
    var end := EndMaskCall(sys);
    MaskByteChanges(0, 1, true);
    InMasked(end.m, end.s, 3);
  }
}
