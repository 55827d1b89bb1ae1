/** Runs of pmm_alloc_frame and pmm_free_frame after pmm_init, by clients that hand frames back. */
module PmmRuns {
  import opened Words
  import opened FrameBitmap
  import opened Families
  import opened MultibootMap
  import opened Pmm

  /** The allocator and the addresses its clients hold; zero is taken as a failure. */
  datatype World = World(v: View, live: multiset<int>)

  datatype Op = Alloc | Free(addr: u32)

  function Step(w: World, op: Op, maxFrames: nat): World
    requires maxFrames <= 0x10_0000
  {
    match op
    case Alloc =>
      var (v, addr) := Allocated(w.v, maxFrames);
      World(v, if addr == 0 then w.live else w.live + multiset{addr})
    case Free(addr) =>
      World(Freed(w.v, addr, maxFrames), w.live - multiset{addr})
  }

  function Run(w: World, ops: seq<Op>, maxFrames: nat): World
    requires maxFrames <= 0x10_0000
    decreases |ops|
  {
    if ops == [] then w else Run(Step(w, ops[0], maxFrames), ops[1..], maxFrames)
  }

  /** The allocator itself, called in any order: its view goes where Run says. */
  method Play(a: FrameAllocator, ops: seq<Op>) returns (live: multiset<int>)
    requires a.Valid()
    modifies a, a.bitmap
    ensures a.Valid()
    ensures World(a.AsView(), live) == Run(World(old(a.AsView()), multiset{}), ops, a.MaxFrames())
  {
    live := multiset{};
    assert ops[0..] == ops;
    for i := 0 to |ops|
      invariant a.Valid()
      invariant Run(World(a.AsView(), live), ops[i..], a.MaxFrames()) ==
                Run(World(old(a.AsView()), multiset{}), ops, a.MaxFrames())
    {
      assert ops[i..][1..] == ops[i + 1..];
      match ops[i]
      case Alloc =>
        var addr := a.AllocFrame();
        if addr != 0 { live := live + multiset{addr}; }
      case Free(addr) =>
        a.FreeFrame(addr);
        live := live - multiset{addr};
    }
  }

  /** Every address freed is held at that moment. */
  predicate FreesOnlyHeld(w: World, ops: seq<Op>, maxFrames: nat)
    requires maxFrames <= 0x10_0000
    decreases |ops|
  {
    ops == [] || ((ops[0].Free? ==> ops[0].addr in w.live)
                  && FreesOnlyHeld(Step(w, ops[0], maxFrames), ops[1..], maxFrames))
  }

  function LiveFrames(live: multiset<int>): set<int>
  {
    set a | a in live :: a / FRAME_SIZE
  }

  /** Clients hold distinct, non-zero, page-aligned addresses, and together with the free
      frames these are exactly the frames free at the start. */
  ghost predicate Safe(w: World, initial: set<int>, surplus: nat, maxFrames: nat)
  {
    && (forall a :: a in w.live ==> w.live[a] == 1 && a % FRAME_SIZE == 0 && a > 0)
    && w.v.free !! LiveFrames(w.live) && w.v.free + LiveFrames(w.live) == initial
    && Leads(w.v.counter, w.v.free, maxFrames, surplus)
  }

  predicate Bounded(frames: set<int>, maxFrames: nat)
  {
    forall f :: f in frames ==> 0 < f < maxFrames
  }

  lemma InLiveFrames(live: multiset<int>, a: int)
    requires a in live
    ensures a / FRAME_SIZE in LiveFrames(live)
  {
  }

  lemma AllocKeepsSafe(w: World, initial: set<int>, surplus: nat, maxFrames: nat)
    requires maxFrames <= 0x10_0000 && Bounded(initial, maxFrames) && Safe(w, initial, surplus, maxFrames)
    ensures Safe(Step(w, Alloc, maxFrames), initial, surplus, maxFrames)
  {
    var f := Least(w.v.free, 0, maxFrames);
    if f < maxFrames {
      var next, addr := Step(w, Alloc, maxFrames), f * FRAME_SIZE;
      assert f in initial;
      if addr in w.live { InLiveFrames(w.live, addr); }
      forall g
        ensures g in LiveFrames(next.live) <==> g == f || g in LiveFrames(w.live)
      {
        if g in LiveFrames(next.live) {
          var a :| a in next.live && a / FRAME_SIZE == g;
          if a != addr { InLiveFrames(w.live, a); }
        }
        if g in LiveFrames(w.live) {
          var a :| a in w.live && a / FRAME_SIZE == g;
          InLiveFrames(next.live, a);
        }
        InLiveFrames(next.live, addr);
      }
      assert LiveFrames(next.live) == LiveFrames(w.live) + {f};
      CounterFollows(w.v.free, f, surplus, maxFrames);
    }
  }

  lemma FreeKeepsSafe(w: World, addr: u32, initial: set<int>, surplus: nat, maxFrames: nat)
    requires maxFrames <= 0x10_0000 && Bounded(initial, maxFrames) && Safe(w, initial, surplus, maxFrames)
    requires addr in w.live
    ensures Safe(Step(w, Free(addr), maxFrames), initial, surplus, maxFrames)
  {
    var f, next := addr / FRAME_SIZE, Step(w, Free(addr), maxFrames);
    InLiveFrames(w.live, addr);
    assert f in initial;
    forall g
      ensures g in LiveFrames(next.live) <==> g != f && g in LiveFrames(w.live)
    {
      if g in LiveFrames(next.live) {
        var a :| a in next.live && a / FRAME_SIZE == g;
        assert a in w.live && a != addr && a == g * FRAME_SIZE && addr == f * FRAME_SIZE;
        InLiveFrames(w.live, a);
      }
      if g != f && g in LiveFrames(w.live) {
        var a :| a in w.live && a / FRAME_SIZE == g;
        assert a in next.live;
        InLiveFrames(next.live, a);
      }
    }
    assert LiveFrames(next.live) == LiveFrames(w.live) - {f};
    SizeAdd(w.v.free, f, maxFrames);
  }

  /** Main result: over every run that frees only what it holds. */
  lemma {:induction false} RunKeepsSafe(w: World, ops: seq<Op>, initial: set<int>, surplus: nat, maxFrames: nat)
    requires maxFrames <= 0x10_0000 && Bounded(initial, maxFrames) && Safe(w, initial, surplus, maxFrames)
    requires FreesOnlyHeld(w, ops, maxFrames)
    ensures Safe(Run(w, ops, maxFrames), initial, surplus, maxFrames)
    decreases |ops|
  {
    if ops != [] {
      match ops[0] {
        case Alloc => AllocKeepsSafe(w, initial, surplus, maxFrames);
        case Free(addr) => FreeKeepsSafe(w, addr, initial, surplus, maxFrames);
      }
      RunKeepsSafe(Step(w, ops[0], maxFrames), ops[1..], initial, surplus, maxFrames);
    }
  }

  /** Where the frames free after pmm_init lie: above the first MiB, above the kernel, and
      among the frames that the boot loader offered. */
  lemma InitialFrames(info: BootInfo, kernelEnd: u32, records: seq<Record>, maxFrames: nat, f: int)
    requires maxFrames <= 0x10_0000
    requires f in Offered(info, records, maxFrames) - Reserved(kernelEnd, maxFrames)
    ensures LOW_FRAMES <= f < maxFrames && KernelEndFrame(kernelEnd) <= f
    ensures HasMap(info) ==> exists i :: 0 <= i < |records| && f in Taken(records[i], maxFrames)
  {
    if HasMap(info) {
      TakenBounds(records, maxFrames, f);
      InTakenAll(records, maxFrames, f);
    }
    assert f in Frames(0, Min(LOW_FRAMES, maxFrames)) <==> 0 <= f < Min(LOW_FRAMES, maxFrames);
  }

  /** Started from an allocator that nobody holds anything of, every address ever held is the
      page address of a frame free at the start. */
  lemma HeldWasFree(v: View, ops: seq<Op>, surplus: nat, maxFrames: nat, addr: int)
    requires maxFrames <= 0x10_0000 && Bounded(v.free, maxFrames)
    requires Leads(v.counter, v.free, maxFrames, surplus)
    requires FreesOnlyHeld(World(v, multiset{}), ops, maxFrames)
    requires addr in Run(World(v, multiset{}), ops, maxFrames).live
    ensures addr % FRAME_SIZE == 0 && addr / FRAME_SIZE in v.free
  {
    var start := World(v, multiset{});
    assert LiveFrames(start.live) == {};
    RunKeepsSafe(start, ops, v.free, surplus, maxFrames);
    InLiveFrames(Run(start, ops, maxFrames).live, addr);
  }

  lemma InitialBounded(info: BootInfo, kernelEnd: u32, records: seq<Record>, maxFrames: nat)
    requires maxFrames <= 0x10_0000
    ensures Bounded(Offered(info, records, maxFrames) - Reserved(kernelEnd, maxFrames), maxFrames)
  {
    forall f | f in Offered(info, records, maxFrames) - Reserved(kernelEnd, maxFrames)
      ensures 0 < f < maxFrames
    {
      InitialFrames(info, kernelEnd, records, maxFrames, f);
    }
  }

  /** From pmm_init on: every address any client ever holds is above the first MiB and the
      kernel's last page, and all its 4096 bytes are in an available region of the map when
      the available regions start on page boundaries. */
  lemma HeldFramesAreAvailable(info: BootInfo, kernelEnd: u32, records: seq<Record>, maxFrames: nat,
                               v: View, ops: seq<Op>, addr: int)
    requires maxFrames <= 0x10_0000
    requires v.free == Offered(info, records, maxFrames) - Reserved(kernelEnd, maxFrames)
    requires Leads(v.counter, v.free, maxFrames, Overshoot(info, records, maxFrames))
    requires FreesOnlyHeld(World(v, multiset{}), ops, maxFrames)
    requires addr in Run(World(v, multiset{}), ops, maxFrames).live
    ensures addr % FRAME_SIZE == 0 && addr >= 0x10_0000
    ensures kernelEnd <= 0xFFFF_F000 ==> addr >= kernelEnd
    ensures HasMap(info) && (forall r :: r in records && r.kind == 1 ==> r.addr % FRAME_SIZE == 0) ==>
              exists r :: r in records && r.kind == 1 && FrameInside(addr / FRAME_SIZE, r)
  {
    InitialBounded(info, kernelEnd, records, maxFrames);
    HeldWasFree(v, ops, Overshoot(info, records, maxFrames), maxFrames, addr);
    InitialFrameAvailable(info, kernelEnd, records, maxFrames, addr / FRAME_SIZE);
    assert addr == addr / FRAME_SIZE * FRAME_SIZE;
  }

  lemma InitialFrameAvailable(info: BootInfo, kernelEnd: u32, records: seq<Record>, maxFrames: nat, f: int)
    requires maxFrames <= 0x10_0000
    requires f in Offered(info, records, maxFrames) - Reserved(kernelEnd, maxFrames)
    ensures f * FRAME_SIZE >= 0x10_0000
    ensures kernelEnd <= 0xFFFF_F000 ==> f * FRAME_SIZE >= kernelEnd
    ensures HasMap(info) && (forall r :: r in records && r.kind == 1 ==> r.addr % FRAME_SIZE == 0) ==>
              exists r :: r in records && r.kind == 1 && FrameInside(f, r)
  {
    InitialFrames(info, kernelEnd, records, maxFrames, f);
    if HasMap(info) && forall r :: r in records && r.kind == 1 ==> r.addr % FRAME_SIZE == 0 {
      TakenInside(records, maxFrames, f);
    }
  }

  lemma TakenInside(records: seq<Record>, maxFrames: nat, f: int)
    requires maxFrames <= 0x10_0000
    requires forall r :: r in records && r.kind == 1 ==> r.addr % FRAME_SIZE == 0
    requires exists i :: 0 <= i < |records| && f in Taken(records[i], maxFrames)
    ensures exists r :: r in records && r.kind == 1 && FrameInside(f, r)
  {
    var i :| 0 <= i < |records| && f in Taken(records[i], maxFrames);
    InsideIffAligned(records[i], maxFrames);
  }

  /** On the map path, in unbounded arithmetic: the frames free after pmm_init are those that the
      regions describe, from the first MiB up and from the kernel's end up. */
  lemma InitialIsDescribed(info: BootInfo, kernelEnd: u32, records: seq<Record>, f: int)
    requires HasMap(info) && kernelEnd <= 0xFFFF_F000
    requires forall r :: r in records ==> r.addr + r.len < TWO64
    ensures f in Offered(info, records, 0x10_0000) - Reserved(kernelEnd, 0x10_0000) <==>
            (exists i :: 0 <= i < |records| && f in Described(records[i]))
            && f * FRAME_SIZE >= 0x10_0000 && f * FRAME_SIZE >= kernelEnd
  {
    MapIsDescribed(records, f);
    if f in TakenAll(records, 0x10_0000) {
      TakenBounds(records, 0x10_0000, f);
      InReserved(kernelEnd, f);
    }
  }

  /** When available regions start on page boundaries: a frame is free after pmm_init exactly when
      all its bytes are available memory below 4 GiB, above the first MiB and above the kernel. */
  lemma InitialIsAvailable(info: BootInfo, kernelEnd: u32, records: seq<Record>, f: int)
    requires BitSet(info.flags, 6) && kernelEnd <= 0xFFFF_F000
    requires forall r :: r in records ==> r.addr + r.len < TWO64 && r.addr % FRAME_SIZE == 0
    ensures f in Offered(info, records, 0x10_0000) - Reserved(kernelEnd, 0x10_0000) <==>
            (exists i :: 0 <= i < |records| && records[i].kind == 1 && FrameInside(f, records[i]))
            && f < 0x10_0000 && f * FRAME_SIZE >= 0x10_0000 && f * FRAME_SIZE >= kernelEnd
  {
    MapIsBitSix(info);
    InitialIsDescribed(info, kernelEnd, records, f);
    forall i | 0 <= i < |records|
      ensures f in Described(records[i]) <==> records[i].kind == 1 && f < 0x10_0000 && FrameInside(f, records[i])
    {
      assert records[i] in records;
      DescribedIsInside(records[i], f);
    }
  }

  /** Without a map: exactly when all its bytes are below the end of the memory that mem_upper
      describes, above the first MiB and above the kernel. The counter is exact. */
  lemma InitialIsUpper(info: BootInfo, kernelEnd: u32, records: seq<Record>, f: int)
    requires !BitSet(info.flags, 6) && kernelEnd <= 0xFFFF_F000 && info.memUpper < 4193280
    ensures f in Offered(info, records, 0x10_0000) - Reserved(kernelEnd, 0x10_0000) <==>
            (f + 1) * FRAME_SIZE <= 0x10_0000 + info.memUpper * 1024
            && f * FRAME_SIZE >= 0x10_0000 && f * FRAME_SIZE >= kernelEnd
    ensures Overshoot(info, records, 0x10_0000) == 0
  {
    MapIsBitSix(info);
    FallbackExactIff(info.memUpper);
    var end := LOW_FRAMES + info.memUpper / 4;
    assert f in Offered(info, records, 0x10_0000) <==> LOW_FRAMES <= f < end;
    if LOW_FRAMES <= f < end { InReserved(kernelEnd, f); }
  }

  lemma InReserved(kernelEnd: u32, f: int)
    requires 0 <= f < 0x10_0000 && kernelEnd <= 0xFFFF_F000
    ensures f in Reserved(kernelEnd, 0x10_0000) <==> f * FRAME_SIZE < 0x10_0000 || f * FRAME_SIZE < kernelEnd
  {
    var end := KernelEndFrame(kernelEnd);
    assert f in Frames(0, LOW_FRAMES) <==> f < LOW_FRAMES;
    assert f in Frames(LOW_FRAMES, end) <==> LOW_FRAMES <= f < end;
  }

  lemma MultipleOf32(surplus: nat)
    ensures surplus < TWO32 ==> (surplus % TWO32 == 0 <==> surplus == 0)
  {
  }

  lemma SameModulo(n: nat, surplus: nat)
    requires n < TWO32
    ensures (n + surplus) % TWO32 == n <==> surplus % TWO32 == 0
  {
    var q, r := surplus / TWO32, surplus % TWO32;
    assert surplus == q * TWO32 + r;
    Reduce(n + r, q);
    if n + r < TWO32 {
      Reduce(n + r, 0);
    } else {
      Reduce(n + r - TWO32, 1);
    }
  }

  lemma Reduce(x: nat, q: nat)
    ensures (x + q * TWO32) % TWO32 == x % TWO32
    ensures x < TWO32 ==> x % TWO32 == x
  {
    var a, b := x / TWO32, x % TWO32;
    assert x + q * TWO32 == (a + q) * TWO32 + b;
  }

  lemma CounterReads(n: nat, surplus: nat)
    requires n < TWO32
    ensures Advance(0, n + surplus) == n <==> surplus % TWO32 == 0
  {
    AdvanceIsSum(0, n + surplus);
    SameModulo(n, surplus);
  }

  lemma CounterOfFree(free: set<int>, surplus: nat, maxFrames: nat)
    requires maxFrames <= 0x10_0000 && forall f :: f in free ==> 0 <= f < maxFrames
    ensures Advance(0, Size(free, maxFrames) + surplus) == |free| <==> surplus % TWO32 == 0
  {
    SizeIsCardinality(free, maxFrames);
    SizeBound(free, maxFrames);
    CounterReads(Size(free, maxFrames), surplus);
  }

  /** The counter law: what pmm_free_frames reports is the number of free frames exactly when
      the overshoot is a multiple of 2^32. */
  lemma CounterExactIff(info: BootInfo, records: seq<Record>, maxFrames: nat, v: View)
    requires maxFrames <= 0x10_0000 && Leads(v.counter, v.free, maxFrames, Overshoot(info, records, maxFrames))
    requires forall f :: f in v.free ==> 0 <= f < maxFrames
    ensures v.counter == |v.free| <==> Overshoot(info, records, maxFrames) % TWO32 == 0
  {
    CounterOfFree(v.free, Overshoot(info, records, maxFrames), maxFrames);
  }

  /** For maps whose regions hold fewer than 2^32 frames together: exactly when no two regions
      share a frame. */
  lemma CounterExactIffNoneShared(info: BootInfo, records: seq<Record>, maxFrames: nat)
    requires HasMap(info) && CountAll(records, maxFrames) < TWO32
    ensures Overshoot(info, records, maxFrames) % TWO32 == 0 <==> NoneShared(records, maxFrames)
  {
    ExcessIsSharing(records, maxFrames);
    MultipleOf32(Overshoot(info, records, maxFrames));
  }

  /** And then it neither wraps nor underflows, whatever part of the frames is free. */
  lemma CounterNeverWraps(info: BootInfo, records: seq<Record>, maxFrames: nat, v: View)
    requires Leads(v.counter, v.free, maxFrames, Overshoot(info, records, maxFrames))
    requires OfferedCount(info, records, maxFrames) < TWO32 && v.free <= Offered(info, records, maxFrames)
    ensures v.counter == Size(v.free, maxFrames) + Overshoot(info, records, maxFrames)
  {
    OvershootIsExtra(info, records, maxFrames);
    CounterIsSum(v.free, Offered(info, records, maxFrames), Overshoot(info, records, maxFrames), maxFrames);
  }

  lemma CounterIsSum(free: set<int>, offered: set<int>, surplus: nat, maxFrames: nat)
    requires free <= offered && Size(offered, maxFrames) + surplus < TWO32
    ensures Advance(0, Size(free, maxFrames) + surplus) == Size(free, maxFrames) + surplus
  {
    SizeMonotone(free, offered, maxFrames);
    AdvanceFromZero(Size(free, maxFrames) + surplus);
  }

  lemma AdvanceFromZero(n: nat)
    requires n < TWO32
    ensures Advance(0, n) == n
  {
    AdvanceIsSum(0, n);
    Reduce(n, 0);
  }

  /** First fit, and when the answer is zero. */
  lemma AllocIsFirstFit(v: View, maxFrames: nat)
    requires maxFrames <= 0x10_0000 && forall f :: f in v.free ==> 0 <= f < maxFrames
    ensures var (v', addr) := Allocated(v, maxFrames);
            && (addr == 0 <==> 0 in v.free || v.free == {})
            && (v.free != {} ==>
                  && addr / FRAME_SIZE in v.free && (forall g :: g in v.free ==> addr / FRAME_SIZE <= g)
                  && v'.free == v.free - {addr / FRAME_SIZE})
  {
    var f := Least(v.free, 0, maxFrames);
    if f == maxFrames {
      forall g | g in v.free
        ensures false
      {
      }
    }
  }

  /** Freeing what was just allocated puts everything back; freeing it again does nothing. */
  lemma FreeUndoesAlloc(v: View, maxFrames: nat)
    requires maxFrames <= 0x10_0000 && v.free != {}
    requires forall f :: f in v.free ==> 0 <= f < maxFrames
    ensures var (v', addr) := Allocated(v, maxFrames);
            Freed(v', addr, maxFrames) == v && Freed(v, addr, maxFrames) == v
  {
    AllocIsFirstFit(v, maxFrames);
  }

  /** The price of trusting the caller: freeing an address that no client holds keeps the
      world safe exactly when the call does nothing, its frame being free or out of range. */
  lemma StrayFreeSafeIff(w: World, addr: u32, initial: set<int>, surplus: nat, maxFrames: nat)
    requires maxFrames <= 0x10_0000 && Bounded(initial, maxFrames) && Safe(w, initial, surplus, maxFrames)
    requires addr !in w.live
    ensures Safe(Step(w, Free(addr), maxFrames), initial, surplus, maxFrames) <==>
            addr / FRAME_SIZE in w.v.free || addr / FRAME_SIZE >= maxFrames
  {
    assert w.live - multiset{addr} == w.live;
  }
}
