/** Interrupt delivery as a step system: devices, the two controllers, the CPU's interrupt
    flag, and any number of nested runs of irq_handler, in any interleaving. Callbacks may
    re-enable interrupts, mask lines and register other callbacks. */
module IrqSteps {
  import opened Chip8259
  import opened PicDriver
  import opened Idt

  /** Where one run of irq_handler stands. */
  datatype Pc =
    | Entry       // about to look at the in-service registers
    | Dispatch    // about to call the registered callback
    | InHandler   // the callback is running
    | EoiSlave    // pic_send_eoi, before the write to the slave
    | EoiMaster   // pic_send_eoi, before the write to the master
    | Leave       // before iret

  /** A run of irq_handler. The code sees the vector; the source is history. */
  datatype Activation = Activation(source: Source, vector: int, pc: Pc, savedIf: bool)

  type Irq = i: int | 0 <= i < NUM_IRQS witness 0

  /** A call of pic_set_mask or pic_clear_mask between its read of the mask register and its
      write, made at some depth of nesting. */
  datatype MaskCall = MaskCall(depth: nat, irq: Irq, masked: bool, byte: bv8)

  datatype System = System(
    m: Chip, s: Chip, iflag: bool, stack: seq<Activation>, handlers: seq<Handler>,
    maskCalls: seq<MaskCall>,             // under way, the innermost last
    acked: seq<int>,                      // lines of the requests that were really there
    dispatched: seq<(int, Handler)>,      // lines dispatched, with the table entry used
    wanted: set<int>)                     // the lines that the finished mask calls leave masked

  datatype Event =
    | Devices(mLines: Lines, sLines: Lines)
    | Ack                                 // the CPU takes an interrupt
    | Advance                             // the innermost irq_handler makes its next step
    | SetIf(on: bool)                     // sti or cli in the running callback or main program
    | BeginMask(irq: Irq, masked: bool)   // pic_set_mask or pic_clear_mask reads the register
    | EndMask                             // and writes it
    | Register(line: int, handler: Handler)

  function Top(stack: seq<Activation>): Activation
    requires stack != []
  {
    stack[|stack| - 1]
  }

  function Below(stack: seq<Activation>): seq<Activation>
    requires stack != []
  {
    stack[..|stack| - 1]
  }

  function At(sys: System, pc: Pc): System
    requires sys.stack != []
  {
    sys.(stack := Below(sys.stack) + [Top(sys.stack).(pc := pc)])
  }

  /** Ordinary kernel code runs: the main program or a callback. */
  predicate InCode(sys: System)
  {
    sys.stack == [] || Top(sys.stack).pc == InHandler
  }

  function FirstEoi(irq: int): Pc
  {
    if irq >= 8 then EoiSlave else EoiMaster
  }

  function AdvanceTop(sys: System): System
    requires sys.stack != [] && |sys.handlers| == NUM_IRQS
  {
    var irq := IrqOf(Top(sys.stack).vector);
    match Top(sys.stack).pc
    case Entry =>
      var read := if irq == 7 || irq == 15
                  then sys.(m := sys.m.(readIsr := true), s := sys.s.(readIsr := true)) else sys;
      At(read, if irq == 7 && 7 !in sys.m.isr then Leave
               else if irq == 15 && 7 !in sys.s.isr then EoiMaster else Dispatch)
    case Dispatch =>
      if irq < NUM_IRQS then
        At(sys, if sys.handlers[irq] != NULL then InHandler else FirstEoi(irq))
        .(dispatched := sys.dispatched + [(irq, sys.handlers[irq])])
      else
        At(sys, FirstEoi(irq))
    case InHandler => At(sys, FirstEoi(irq))
    case EoiSlave => At(sys, EoiMaster).(s := WriteCommand(sys.s, EOI))
    case EoiMaster => At(sys, Leave).(m := WriteCommand(sys.m, EOI))
    case Leave => sys.(iflag := Top(sys.stack).savedIf, stack := Below(sys.stack))
  }

  /** The interrupt gate clears IF; the acknowledge may find its request gone. */
  function TakeInterrupt(sys: System): System
  {
    var c := Acknowledge(sys.m, sys.s);
    sys.(m := c.master, s := c.slave, iflag := false,
         stack := sys.stack + [Activation(c.source, c.vector, Entry, sys.iflag)],
         acked := if c.source.LostMaster? || c.source.LostSlave? then sys.acked
                  else sys.acked + [LineOf(c.source)])
  }

  /** The innermost running code is inside pic_set_mask or pic_clear_mask. */
  predicate Masking(sys: System)
  {
    sys.maskCalls != [] && sys.maskCalls[|sys.maskCalls| - 1].depth == |sys.stack|
  }

  /** It is elsewhere, where it may call kernel functions. */
  predicate Free(sys: System)
  {
    InCode(sys) && !Masking(sys)
  }

  function ChipOf(sys: System, irq: Irq): Chip
  {
    if irq < 8 then sys.m else sys.s
  }

  function Bit8(irq: Irq): int
  {
    if irq < 8 then irq else irq - 8
  }

  function BeginMaskCall(sys: System, irq: Irq, masked: bool): System
  {
    sys.(maskCalls := sys.maskCalls + [MaskCall(|sys.stack|, irq, masked, ReadData(ChipOf(sys, irq)))])
  }

  function EndMaskCall(sys: System): System
    requires sys.maskCalls != []
  {
    var n := |sys.maskCalls| - 1;
    var call := sys.maskCalls[n];
    var written := WriteData(ChipOf(sys, call.irq), MaskByte(call.byte, Bit8(call.irq), call.masked));
    sys.(m := if call.irq < 8 then written else sys.m,
         s := if call.irq < 8 then sys.s else written,
         maskCalls := sys.maskCalls[..n],
         wanted := if call.masked then sys.wanted + {call.irq} else sys.wanted - {call.irq})
  }

  /** One step; an event whose time has not come changes nothing. */
  function Step(sys: System, e: Event): System
    requires |sys.handlers| == NUM_IRQS
  {
    match e
    case Devices(mLines, sLines) => sys.(m := sys.m.(irr := mLines), s := sys.s.(irr := sLines))
    case Ack => if sys.iflag then TakeInterrupt(sys) else sys
    case Advance => if sys.stack != [] && !Masking(sys) then AdvanceTop(sys) else sys
    case SetIf(on) => if Free(sys) then sys.(iflag := on) else sys
    case BeginMask(irq, masked) => if Free(sys) then BeginMaskCall(sys, irq, masked) else sys
    case EndMask => if InCode(sys) && Masking(sys) then EndMaskCall(sys) else sys
    case Register(irq, handler) =>
      if Free(sys) && 0 <= irq < NUM_IRQS then sys.(handlers := sys.handlers[irq := handler]) else sys
  }

  function Run(sys: System, es: seq<Event>): (end: System)
    requires |sys.handlers| == NUM_IRQS
    ensures |end.handlers| == NUM_IRQS
    decreases |es|
  {
    if es == [] then sys else StepKeepsTable(sys, es[0]); Run(Step(sys, es[0]), es[1..])
  }

  /** The system as interrupts_init leaves it, IF still clear. */
  function Start(m: Chip, s: Chip, handlers: seq<Handler>): System
  {
    System(m, s, false, [], handlers, [], [], [], Masked(m, s))
  }

  lemma StepKeepsTable(sys: System, e: Event)
    requires |sys.handlers| == NUM_IRQS
    ensures |Step(sys, e).handlers| == NUM_IRQS
  {
  }

  lemma RunFirst(sys: System, e: Event, rest: seq<Event>)
    requires |sys.handlers| == NUM_IRQS
    ensures |Step(sys, e).handlers| == NUM_IRQS
    ensures Run(sys, [e] + rest) == Run(Step(sys, e), rest)
  {
    assert ([e] + rest)[1..] == rest;
  }

  lemma {:induction false} RunInTwo(sys: System, es: seq<Event>, more: seq<Event>)
    requires |sys.handlers| == NUM_IRQS
    ensures Run(sys, es + more) == Run(Run(sys, es), more)
    decreases |es|
  {
    if es == [] {
      assert es + more == more;
    } else {
      assert (es + more)[1..] == es[1..] + more;
      StepKeepsTable(sys, es[0]);
      RunInTwo(Step(sys, es[0]), es[1..], more);
    }
  }

  lemma RunLast(sys: System, es: seq<Event>, e: Event)
    requires |sys.handlers| == NUM_IRQS
    ensures Run(sys, es + [e]) == Step(Run(sys, es), e)
  {
    RunInTwo(sys, es, [e]);
    RunFirst(Run(sys, es), e, []);
    assert [e] + [] == [e];
  }

  lemma TwoSteps(sys: System, a: Event, b: Event)
    requires |sys.handlers| == NUM_IRQS
    ensures |Step(sys, a).handlers| == NUM_IRQS && Run(sys, [a, b]) == Step(Step(sys, a), b)
  {
    RunFirst(sys, a, [b]);
    RunFirst(Step(sys, a), b, []);
    assert [a] + [b] == [a, b] && [b] + [] == [b];
  }

  /** Mask calls nest as the activations do: each is made by the main program or by a callback
      that has not returned, and the innermost call by the innermost of them. */
  predicate MaskCallsNest(sys: System)
  {
    && (forall i :: 0 <= i < |sys.maskCalls| ==> Supported(sys, sys.maskCalls[i].depth))
    && forall i, j :: 0 <= i < j < |sys.maskCalls| ==> sys.maskCalls[i].depth < sys.maskCalls[j].depth
  }

  predicate Supported(sys: System, depth: nat)
  {
    depth <= |sys.stack| && (depth > 0 ==> sys.stack[depth - 1].pc == InHandler)
  }

  lemma StepKeepsNest(sys: System, e: Event)
    requires |sys.handlers| == NUM_IRQS && MaskCallsNest(sys)
    ensures MaskCallsNest(Step(sys, e))
  {
    match e
    case Advance => if sys.stack != [] && !Masking(sys) { AdvanceKeepsNest(sys); }
    case Ack => if sys.iflag { StackKeepsNest(sys, TakeInterrupt(sys)); }
    case BeginMask(irq, masked) => if Free(sys) { BeginKeepsNest(sys, irq, masked); }
    case EndMask =>
    case Devices(_, _) =>
    case SetIf(_) =>
    case Register(_, _) =>
  }

  lemma BeginKeepsNest(sys: System, irq: Irq, masked: bool)
    requires MaskCallsNest(sys) && Free(sys)
    ensures MaskCallsNest(BeginMaskCall(sys, irq, masked))
  {
    var n := |sys.maskCalls|;
    if n > 0 { assert Supported(sys, sys.maskCalls[n - 1].depth); }
  }

  lemma AdvanceKeepsNest(sys: System)
    requires |sys.handlers| == NUM_IRQS && sys.stack != [] && !Masking(sys) && MaskCallsNest(sys)
    ensures MaskCallsNest(AdvanceTop(sys))
  {
    var n := |sys.maskCalls|;
    AdvanceKeepsBelow(sys);
    if n > 0 {
      var d := sys.maskCalls[n - 1].depth;
      assert Supported(sys, d) && d < |sys.stack|;
      assert AdvanceTop(sys).stack[..d] == AdvanceTop(sys).stack[..|sys.stack| - 1][..d];
    }
    StackKeepsNest(sys, AdvanceTop(sys));
  }

  lemma AdvanceKeepsBelow(sys: System)
    requires |sys.handlers| == NUM_IRQS && sys.stack != []
    ensures var next, n := AdvanceTop(sys), |sys.stack| - 1;
            n <= |next.stack| && next.stack[..n] == sys.stack[..n] && next.maskCalls == sys.maskCalls
  {
  }

  /** The calls stay, and so do the activations below the innermost call. */
  lemma StackKeepsNest(sys: System, next: System)
    requires MaskCallsNest(sys) && next.maskCalls == sys.maskCalls
    requires sys.maskCalls != [] ==>
               var d := sys.maskCalls[|sys.maskCalls| - 1].depth;
               d <= |next.stack| && d <= |sys.stack| && next.stack[..d] == sys.stack[..d]
    ensures MaskCallsNest(next)
  {
    var n := |sys.maskCalls|;
    forall i | 0 <= i < n
      ensures Supported(next, sys.maskCalls[i].depth)
    {
      var d, last := sys.maskCalls[i].depth, sys.maskCalls[n - 1].depth;
      assert Supported(sys, d) && d <= last;
      if d > 0 { assert next.stack[d - 1] == next.stack[..last][d - 1] == sys.stack[..last][d - 1]; }
    }
  }

  lemma {:induction false} RunKeepsNest(sys: System, es: seq<Event>)
    requires |sys.handlers| == NUM_IRQS && MaskCallsNest(sys)
    ensures MaskCallsNest(Run(sys, es))
    decreases |es|
  {
    if es != [] {
      StepKeepsNest(sys, es[0]);
      RunKeepsNest(Step(sys, es[0]), es[1..]);
    }
  }

  /** Left uninterrupted, an activation does to the system what one call of irq_handler does. */
  lemma UninterruptedIsIrqHandler(sys: System) returns (es: seq<Event>)
    requires |sys.handlers| == NUM_IRQS && sys.stack != [] && Top(sys.stack).pc == Entry && !Masking(sys)
    requires 0 <= IrqOf(Top(sys.stack).vector) < NUM_IRQS
    ensures var irq := IrqOf(Top(sys.stack).vector);
            var end := Run(sys, es);
            && (end.m, end.s) == Dispatched(sys.m, sys.s, irq)
            && end.stack == Below(sys.stack) && end.iflag == Top(sys.stack).savedIf
            && end.dispatched == sys.dispatched +
                                 if Spurious(sys.m, sys.s, irq) then [] else [(irq, sys.handlers[irq])]
  {
    var next := Step(sys, Advance);
    AdvanceMovesTop(sys);
    es := FinishRun(next);
    RunFirst(sys, Advance, es);
    es := [Advance] + es;
  }

  /** What is left of an uninterrupted activation, by where it stands after its entry. */
  predicate Finishes(sys: System, end: System)
    requires |sys.handlers| == NUM_IRQS && sys.stack != [] && 0 <= IrqOf(Top(sys.stack).vector) < NUM_IRQS
  {
    var irq, pc := IrqOf(Top(sys.stack).vector), Top(sys.stack).pc;
    && end.m == (if pc == Leave then sys.m else EndOfInterrupt(sys.m))
    && end.s == (if pc == Leave || pc == EoiMaster || (irq < 8 && pc != EoiSlave) then sys.s
                 else EndOfInterrupt(sys.s))
    && end.stack == Below(sys.stack) && end.iflag == Top(sys.stack).savedIf
    && end.maskCalls == sys.maskCalls && end.wanted == sys.wanted
    && end.dispatched == sys.dispatched + if pc == Dispatch then [(irq, sys.handlers[irq])] else []
  }

  lemma FinishRun(sys: System) returns (es: seq<Event>)
    requires |sys.handlers| == NUM_IRQS && sys.stack != []
    requires Top(sys.stack).pc != Entry && !Masking(sys)
    requires 0 <= IrqOf(Top(sys.stack).vector) < NUM_IRQS
    ensures Finishes(sys, Run(sys, es))
    decreases Remaining(Top(sys.stack).pc)
  {
    if Top(sys.stack).pc == Leave {
      es := [];
    } else {
      AdvanceMovesTop(sys);
      es := FinishRun(AdvanceTop(sys));
      FinishStep(sys, Run(AdvanceTop(sys), es));
    }
    RunFirst(sys, Advance, es);
    es := [Advance] + es;
  }

  lemma FinishStep(sys: System, end: System)
    requires |sys.handlers| == NUM_IRQS && sys.stack != []
    requires Top(sys.stack).pc != Entry && Top(sys.stack).pc != Leave && !Masking(sys)
    requires 0 <= IrqOf(Top(sys.stack).vector) < NUM_IRQS
    requires |AdvanceTop(sys).handlers| == NUM_IRQS && AdvanceTop(sys).stack != []
    requires IrqOf(Top(AdvanceTop(sys).stack).vector) == IrqOf(Top(sys.stack).vector)
    requires Finishes(AdvanceTop(sys), end)
    ensures Finishes(sys, end)
  {
    AdvanceMovesTop(sys);
    EoiCommand(sys.m);
    EoiCommand(sys.s);
  }

  lemma AdvanceMovesTop(sys: System)
    requires |sys.handlers| == NUM_IRQS && sys.stack != [] && Top(sys.stack).pc != Leave && !Masking(sys)
    ensures var next := AdvanceTop(sys);
            && |next.stack| == |sys.stack| && Below(next.stack) == Below(sys.stack)
            && Top(next.stack) == Top(sys.stack).(pc := Top(next.stack).pc) && next.iflag == sys.iflag
            && next.handlers == sys.handlers && !Masking(next)
            && next.maskCalls == sys.maskCalls && next.wanted == sys.wanted
  {
    AdvanceIsAt(sys);
    AtMovesTop(sys, Top(AdvanceTop(sys).stack).pc);
  }

  lemma AdvanceIsAt(sys: System)
    requires |sys.handlers| == NUM_IRQS && sys.stack != [] && Top(sys.stack).pc != Leave
    ensures var next := AdvanceTop(sys);
            && next.stack != [] && next.stack == At(sys, Top(next.stack).pc).stack
            && next.iflag == sys.iflag && next.handlers == sys.handlers
            && next.maskCalls == sys.maskCalls && next.wanted == sys.wanted
  {
  }

  lemma AtMovesTop(sys: System, pc: Pc)
    requires sys.stack != []
    ensures var next := At(sys, pc);
            && |next.stack| == |sys.stack| && Below(next.stack) == Below(sys.stack)
            && Top(next.stack) == Top(sys.stack).(pc := pc)
  {
  }

  lemma EoiCommand(c: Chip)
    ensures WriteCommand(c, EOI) == EndOfInterrupt(c)
  {
  }

  function Remaining(pc: Pc): nat
  {
    match pc
    case Entry => 5
    case Dispatch => 4
    case InHandler => 3
    case EoiSlave => 2
    case EoiMaster => 1
    case Leave => 0
  }

  /** From its entry an activation is in its callback two steps later exactly when irq_handler
      has one to run. */
  lemma EntryReachesCallback(sys: System)
    requires |sys.handlers| == NUM_IRQS && sys.stack != [] && Top(sys.stack).pc == Entry && !Masking(sys)
    requires 0 <= IrqOf(Top(sys.stack).vector) < NUM_IRQS
    ensures var two := Run(sys, [Advance, Advance]);
            (|two.stack| == |sys.stack| && Top(two.stack).pc == InHandler) <==>
            Called(sys.m, sys.s, sys.handlers, IrqOf(Top(sys.stack).vector)) != []
  {
    var one := AdvanceTop(sys);
    AdvanceMovesTop(sys);
    TwoSteps(sys, Advance, Advance);
    SecondStep(one);
  }

  lemma SecondStep(sys: System)
    requires |sys.handlers| == NUM_IRQS && sys.stack != [] && Top(sys.stack).pc != Entry && !Masking(sys)
    requires 0 <= IrqOf(Top(sys.stack).vector) < NUM_IRQS && Top(sys.stack).pc != InHandler
    ensures var irq := IrqOf(Top(sys.stack).vector);
            var next := Step(sys, Advance);
            (|next.stack| == |sys.stack| && Top(next.stack).pc == InHandler) <==>
            (Top(sys.stack).pc == Dispatch && sys.handlers[irq] != NULL)
  {
  }

  /** A step in which the innermost activation starts its callback. */
  predicate Enters(sys: System, e: Event)
    requires |sys.handlers| == NUM_IRQS
  {
    StartsCallback(sys.stack, Step(sys, e).stack)
  }

  predicate StartsCallback(before: seq<Activation>, after: seq<Activation>)
  {
    && before != [] && |after| == |before|
    && Top(before).pc != InHandler && Top(after).pc == InHandler
  }

  /** The callbacks entered in the course of a run, each with its line. */
  function Entered(sys: System, es: seq<Event>): seq<(int, Handler)>
    requires |sys.handlers| == NUM_IRQS
    decreases |es|
  {
    if es == [] then [] else
    StepKeepsTable(sys, es[0]);
    var rest := Entered(Step(sys, es[0]), es[1..]);
    if Enters(sys, es[0]) then [EntryOf(sys)] + rest else rest
  }

  function EntryOf(sys: System): (int, Handler)
    requires |sys.handlers| == NUM_IRQS && sys.stack != []
  {
    var irq := IrqOf(Top(sys.stack).vector);
    (irq, if irq < NUM_IRQS then sys.handlers[irq] else NULL)
  }

  /** The dispatches that found a callback. */
  function Callbacks(calls: seq<(int, Handler)>): seq<(int, Handler)>
  {
    if calls == [] then []
    else Callbacks(calls[..|calls| - 1]) + if calls[|calls| - 1].1 != NULL then [calls[|calls| - 1]] else []
  }

  lemma CallbacksSnoc(calls: seq<(int, Handler)>, call: (int, Handler))
    ensures Callbacks(calls + [call]) == Callbacks(calls) + if call.1 != NULL then [call] else []
  {
    assert (calls + [call])[..|calls|] == calls;
  }

  lemma StepEnters(sys: System, e: Event)
    requires |sys.handlers| == NUM_IRQS
    ensures Callbacks(Step(sys, e).dispatched) ==
            Callbacks(sys.dispatched) + if Enters(sys, e) then [EntryOf(sys)] else []
  {
    DispatchesOrNot(sys, e);
    if sys.stack != [] { CallbacksSnoc(sys.dispatched, EntryOf(sys)); }
  }

  /** A step dispatches nothing and enters nothing, or dispatches the innermost activation and
      enters its callback if it has one. */
  lemma DispatchesOrNot(sys: System, e: Event)
    requires |sys.handlers| == NUM_IRQS
    ensures var next := Step(sys, e);
            || (next.dispatched == sys.dispatched && !Enters(sys, e))
            || (&& sys.stack != [] && next.dispatched == sys.dispatched + [EntryOf(sys)]
                && (Enters(sys, e) <==> EntryOf(sys).1 != NULL))
  {
    if e == Advance && sys.stack != [] && !Masking(sys) {
      AdvanceEnters(sys);
    } else {
      OthersEnterNone(sys, e);
    }
  }

  lemma AdvanceEnters(sys: System)
    requires |sys.handlers| == NUM_IRQS && sys.stack != [] && !Masking(sys)
    ensures var next := AdvanceTop(sys);
            if Top(sys.stack).pc == Dispatch && IrqOf(Top(sys.stack).vector) < NUM_IRQS then
              && next.dispatched == sys.dispatched + [EntryOf(sys)]
              && (Enters(sys, Advance) <==> EntryOf(sys).1 != NULL)
            else next.dispatched == sys.dispatched && !Enters(sys, Advance)
  {
    if Top(sys.stack).pc != Leave { AdvanceMovesTop(sys); }
  }

  lemma OthersEnterNone(sys: System, e: Event)
    requires |sys.handlers| == NUM_IRQS && !(e == Advance && sys.stack != [] && !Masking(sys))
    ensures Step(sys, e).dispatched == sys.dispatched && !Enters(sys, e)
  {
    match e
    case Ack => if sys.iflag { TakeDispatchesNone(sys); }
    case EndMask => if sys.maskCalls != [] { EndMaskKeepsStack(sys); }
    case _ =>
  }

  lemma TakeDispatchesNone(sys: System)
    ensures var next := TakeInterrupt(sys);
            |next.stack| == |sys.stack| + 1 && next.dispatched == sys.dispatched
  {
  }

  lemma EndMaskKeepsStack(sys: System)
    requires sys.maskCalls != []
    ensures EndMaskCall(sys).stack == sys.stack && EndMaskCall(sys).dispatched == sys.dispatched
  {
  }

  /** Over every run: the callbacks entered are exactly the dispatches that found one, in order. */
  lemma {:induction false} DispatchedAreEntered(sys: System, es: seq<Event>)
    requires |sys.handlers| == NUM_IRQS
    ensures Callbacks(Run(sys, es).dispatched) == Callbacks(sys.dispatched) + Entered(sys, es)
    decreases |es|
  {
    if es != [] {
      StepEnters(sys, es[0]);
      EnteredFirst(sys, es);
      var next, rest := Step(sys, es[0]), es[1..];
      DispatchedAreEntered(next, rest);
      Regroup(Callbacks(sys.dispatched), if Enters(sys, es[0]) then [EntryOf(sys)] else [], Entered(next, rest));
    }
  }

  lemma EnteredFirst(sys: System, es: seq<Event>)
    requires |sys.handlers| == NUM_IRQS && es != []
    ensures |Step(sys, es[0]).handlers| == NUM_IRQS
    ensures Entered(sys, es) ==
            (if Enters(sys, es[0]) then [EntryOf(sys)] else []) + Entered(Step(sys, es[0]), es[1..])
  {
    StepKeepsTable(sys, es[0]);
  }

  lemma Regroup(a: seq<(int, Handler)>, b: seq<(int, Handler)>, c: seq<(int, Handler)>)
    ensures (a + b) + c == a + (b + c)
  {
  }

  /** The dispatches of a line from some moment on used its present table entry. */
  predicate UsedEntry(sys: System, line: int, from: nat)
    requires 0 <= line < |sys.handlers|
  {
    forall i :: from <= i < |sys.dispatched| && sys.dispatched[i].0 == line ==>
      sys.dispatched[i].1 == sys.handlers[line]
  }

  lemma StepUsesEntry(sys: System, e: Event, line: int, from: nat)
    requires |sys.handlers| == NUM_IRQS && 0 <= line < NUM_IRQS && UsedEntry(sys, line, from)
    requires e.Register? ==> e.line != line
    ensures var next := Step(sys, e);
            && |next.handlers| == NUM_IRQS && next.handlers[line] == sys.handlers[line]
            && UsedEntry(next, line, from)
  {
    StepKeepsTable(sys, e);
  }

  /** A line whose registration is never changed runs its callback at every dispatch. */
  lemma {:induction false} KeptHandlerRuns(sys: System, es: seq<Event>, line: int, from: nat)
    requires |sys.handlers| == NUM_IRQS && 0 <= line < NUM_IRQS && UsedEntry(sys, line, from)
    requires forall i :: 0 <= i < |es| && es[i].Register? ==> es[i].line != line
    ensures Run(sys, es).handlers[line] == sys.handlers[line] && UsedEntry(Run(sys, es), line, from)
    decreases |es|
  {
    if es != [] {
      StepUsesEntry(sys, es[0], line, from);
      KeptHandlerRuns(Step(sys, es[0]), es[1..], line, from);
    }
  }

  /** Once registered, a callback is the one that every later dispatch of its line uses. */
  lemma RegisteredIsUsed(sys: System, line: int, handler: Handler, es: seq<Event>)
    requires |sys.handlers| == NUM_IRQS && Free(sys) && 0 <= line < NUM_IRQS
    requires forall i :: 0 <= i < |es| && es[i].Register? ==> es[i].line != line
    ensures var end := Run(sys, [Register(line, handler)] + es);
            forall i :: |sys.dispatched| <= i < |end.dispatched| && end.dispatched[i].0 == line ==>
              end.dispatched[i].1 == handler
  {
    RunFirst(sys, Register(line, handler), es);
    KeptHandlerRuns(Step(sys, Register(line, handler)), es, line, |sys.dispatched|);
  }
}
