/** memory/pmm.c: the frame allocator over its bitmap and counters. */
module Pmm {
  import opened Words
  import opened FrameBitmap
  import opened Families
  import opened MultibootMap

  const LOW_FRAMES: int := 256   // the first MiB

  /** What pmm_init reads of multiboot_info_t. */
  datatype BootInfo = BootInfo(flags: u32, memUpper: u32, mmapLength: u32, mmapAddr: u32)

  predicate HasMap(info: BootInfo)
  {
    info.flags / 64 % 2 == 1
  }

  /** Bit 6 of the flags says that there is a memory map. */
  lemma MapIsBitSix(info: BootInfo)
    ensures HasMap(info) <==> BitSet(info.flags, 6)
  {
    ShrSix(info.flags);
  }

  lemma ShrSix(w: nat)
    ensures Shr(w, 6) == w / 64
  {
    var w1 := w / 2;
    var w2 := w1 / 2;
    var w3 := w2 / 2;
    var w4 := w3 / 2;
    var w5 := w4 / 2;
    assert Shr(w, 6) == Shr(w1, 5) == Shr(w2, 4) == Shr(w3, 3);
    assert Shr(w3, 3) == Shr(w4, 2) == Shr(w5, 1) == Shr(w5 / 2, 0);
  }

  /** end_frame of the fallback, in 32-bit arithmetic. */
  function FallbackEnd(memUpper: u32): int
  {
    (0x10_0000 + memUpper * 1024 % TWO32) % TWO32 / FRAME_SIZE
  }

  /** k_end, in 32-bit arithmetic. */
  function KernelEndFrame(kernelEnd: u32): int
  {
    (kernelEnd + FRAME_SIZE - 1) % TWO32 / FRAME_SIZE
  }

  /** The frames taken back: the first MiB and the kernel. */
  function Reserved(kernelEnd: u32, maxFrames: nat): set<int>
  {
    Frames(0, Min(LOW_FRAMES, maxFrames)) + Frames(LOW_FRAMES, Min(KernelEndFrame(kernelEnd), maxFrames))
  }

  /** The frames described by the boot loader, map or fallback. */
  ghost function Offered(info: BootInfo, records: seq<Record>, maxFrames: nat): set<int>
  {
    if HasMap(info) then TakenAll(records, maxFrames)
    else Frames(LOW_FRAMES, Min(FallbackEnd(info.memUpper), maxFrames))
  }

  /** How far free_frames runs ahead of the bitmap from pmm_init on. */
  ghost function Overshoot(info: BootInfo, records: seq<Record>, maxFrames: nat): nat
  {
    ExcessIsSharing(records, maxFrames);
    if HasMap(info) then Excess(records, maxFrames) else 0
  }

  ghost function OfferedCount(info: BootInfo, records: seq<Record>, maxFrames: nat): nat
  {
    if HasMap(info) then CountAll(records, maxFrames)
    else SpanLength(LOW_FRAMES, Min(FallbackEnd(info.memUpper), maxFrames))
  }

  lemma OvershootIsExtra(info: BootInfo, records: seq<Record>, maxFrames: nat)
    ensures OfferedCount(info, records, maxFrames) ==
            Size(Offered(info, records, maxFrames), maxFrames) + Overshoot(info, records, maxFrames)
  {
    if HasMap(info) {
      forall f | f in TakenAll(records, maxFrames)
        ensures 0 <= f < maxFrames
      {
        TakenBounds(records, maxFrames, f);
      }
      ExcessIsSharing(records, maxFrames);
    } else {
      FrameCount(LOW_FRAMES, Min(FallbackEnd(info.memUpper), maxFrames));
    }
    SizeIsCardinality(Offered(info, records, maxFrames), maxFrames);
  }

  predicate Leads(counter: u32, free: set<int>, maxFrames: nat, surplus: nat)
  {
    counter == Advance(0, Size(free, maxFrames) + surplus)
  }

  lemma CounterStarts(info: BootInfo, records: seq<Record>, maxFrames: nat, free: set<int>, counter: u32)
    requires free == Offered(info, records, maxFrames)
    requires counter == Advance(0, OfferedCount(info, records, maxFrames))
    ensures Leads(counter, free, maxFrames, Overshoot(info, records, maxFrames))
  {
    OvershootIsExtra(info, records, maxFrames);
  }

  /** The records that the walk over the map in memory reads, well formed or not. */
  ghost predicate MapInMemory(mem: Memory, info: BootInfo, records: seq<Record>)
  {
    Walks(mem, info.mmapAddr, Add32(info.mmapAddr, info.mmapLength), records)
  }

  function Least(free: set<int>, from: int, limit: int): (f: int)
    ensures from <= limit ==> from <= f <= limit
    ensures f < limit ==> f in free
    ensures forall g :: g in free && from <= g < limit ==> f <= g
    decreases limit - from
  {
    if from >= limit || from in free then from else Least(free, from + 1, limit)
  }

  /** The allocator after pmm_init, seen as a set of free frames and a counter. */
  datatype View = View(free: set<int>, counter: u32)

  /** pmm_alloc_frame: the least free frame leaves the set; without one, zero and no change. */
  function Allocated(v: View, maxFrames: nat): (View, u32)
    requires maxFrames <= 0x10_0000
  {
    var f := Least(v.free, 0, maxFrames);
    if f < maxFrames then (View(v.free - {f}, Prev(v.counter)), f * FRAME_SIZE) else (v, 0)
  }

  /** pmm_free_frame, on any address. */
  function Freed(v: View, physAddr: u32, maxFrames: nat): View
  {
    var f := physAddr / FRAME_SIZE;
    if f < maxFrames && f !in v.free then View(v.free + {f}, Next(v.counter)) else v
  }

  class FrameAllocator {
    const bitmap: array<u32>
    var totalFrames: u32
    var freeFrames: u32
    ghost var free: set<int>   // the frames whose bit is zero

    ghost predicate Valid()
      reads this`free, bitmap
    {
      0 < bitmap.Length <= 32768 && free == FreeSet(bitmap[..])
    }

    function MaxFrames(): int
    {
      32 * bitmap.Length
    }

    ghost function AsView(): View
      reads this
    {
      View(free, freeFrames)
    }

    /** The state after these records, each visited once. */
    ghost predicate Loaded(records: seq<Record>)
      reads this, bitmap
    {
      && Valid() && free == TakenAll(records, MaxFrames())
      && freeFrames == totalFrames == Advance(0, CountAll(records, MaxFrames()))
    }

    /** The counter is the number of zero bits plus a fixed surplus, modulo 2^32. */
    ghost predicate Ahead(surplus: nat)
      reads this, bitmap
    {
      Valid() && Leads(freeFrames, free, MaxFrames(), surplus)
    }

    /** The zero-filled statics; the kernel's bitmap has 32768 words. */
    constructor (words: nat)
      requires 0 < words <= 32768
      ensures Valid() && fresh(bitmap) && bitmap.Length == words && freeFrames == 0 && totalFrames == 0
    {
      bitmap := new u32[words](_ => 0);
      totalFrames, freeFrames := 0, 0;
      new;
      free := FreeSet(bitmap[..]);
    }

    method BitmapSet(frame: int)
      requires Valid() && 0 <= frame < MaxFrames()
      modifies this`free, bitmap
      ensures Valid() && free == old(free) - {frame}
    {
      MarkRemoves(bitmap[..], frame);
      ghost var was := bitmap[..];
      bitmap[frame / 32] := WithBit(bitmap[frame / 32], frame % 32);
      assert bitmap[..] == Mark(was, frame);
      free := free - {frame};
    }

    method BitmapClear(frame: int)
      requires Valid() && 0 <= frame < MaxFrames()
      modifies this`free, bitmap
      ensures Valid() && free == old(free) + {frame}
    {
      ReleaseAdds(bitmap[..], frame);
      ghost var was := bitmap[..];
      bitmap[frame / 32] := WithoutBit(bitmap[frame / 32], frame % 32);
      assert bitmap[..] == Release(was, frame);
      free := free + {frame};
    }

    method BitmapTest(frame: int) returns (used: bool)
      requires Valid() && 0 <= frame < MaxFrames()
      ensures used <==> frame !in free
    {
      used := Shr(bitmap[frame / 32], frame % 32) % 2 == 1;
      assert used == Used(bitmap[..], frame);
    }

    /** Step 1 of pmm_init. */
    method MarkAllUsed()
      requires Valid()
      modifies this`free, bitmap
      ensures Valid() && free == {}
    {
      for i := 0 to bitmap.Length
        invariant forall k :: 0 <= k < i ==> bitmap[k] == 0xFFFF_FFFF
      {
        bitmap[i] := 0xFFFF_FFFF;
      }
      FullWord(0xFFFF_FFFF);
      assert forall f :: 0 <= f < MaxFrames() ==> Used(bitmap[..], f);
      free := {};
    }

    /** The loop over one region's frames. */
    method FreeRange(first: int, last: int)
      requires Valid() && 0 <= first
      modifies this, bitmap
      ensures Valid() && free == old(free) + Frames(first, Min(last, MaxFrames()))
      ensures freeFrames == Advance(old(freeFrames), SpanLength(first, Min(last, MaxFrames())))
      ensures totalFrames == Advance(old(totalFrames), SpanLength(first, Min(last, MaxFrames())))
    {
      ghost var stop := Min(last, MaxFrames());
      var f := first;
      while f < last && f < MaxFrames()
        invariant Valid() && (f == first || first < f <= stop)
        invariant free == old(free) + Frames(first, f)
        invariant freeFrames == Advance(old(freeFrames), f - first)
        invariant totalFrames == Advance(old(totalFrames), f - first)
        decreases last - f
      {
        FramesGrow(first, f);
        OneByOne(old(free), Frames(first, f), f);
        BitmapClear(f);
        freeFrames := Next(freeFrames);
        totalFrames := Next(totalFrames);
        f := f + 1;
      }
      if f != stop { FramesEmpty(first, f); FramesEmpty(first, stop); }
    }

    method ReserveFrame(f: int, ghost surplus: nat)
      requires Ahead(surplus) && 0 <= f < MaxFrames()
      modifies this`freeFrames, this`free, bitmap
      ensures Ahead(surplus) && free == old(free) - {f}
    {
      var used := BitmapTest(f);
      if !used {
        CounterFollows(free, f, surplus, MaxFrames());
        BitmapSet(f);
        freeFrames := Prev(freeFrames);
      }
    }

    /** The loop that takes a range back. The counter moves only when a bit does. */
    method ReserveRange(first: int, last: int, ghost surplus: nat)
      requires Ahead(surplus) && 0 <= first
      modifies this`freeFrames, this`free, bitmap
      ensures Ahead(surplus) && free == old(free) - Frames(first, Min(last, MaxFrames()))
    {
      ghost var stop := Min(last, MaxFrames());
      var f := first;
      while f < last && f < MaxFrames()
        invariant Ahead(surplus) && (f == first || first < f <= stop)
        invariant free == old(free) - Frames(first, f)
        decreases last - f
      {
        FramesGrow(first, f);
        OneByOne(old(free), Frames(first, f), f);
        ReserveFrame(f, surplus);
        f := f + 1;
      }
      if f != stop { FramesEmpty(first, f); FramesEmpty(first, stop); }
    }

    /** The part of the loop body that clips a region and frees its frames. */
    method FreeRegion(regionStart: u64, len: u64)
      requires Valid() && regionStart < TWO32
      modifies this, bitmap
      ensures var first, last := FirstFrame(regionStart), Min(LastFrame(regionStart, len), MaxFrames());
              && Valid() && free == old(free) + Frames(first, last)
              && freeFrames == Advance(old(freeFrames), SpanLength(first, last))
              && totalFrames == Advance(old(totalFrames), SpanLength(first, last))
    {
      var regionLen := len;
      if Add64(regionStart, regionLen) > TWO32 {
        regionLen := TWO32 - regionStart;
      }
      var firstFrame := regionStart / FRAME_SIZE;
      var numFrames := regionLen / FRAME_SIZE % TWO32;
      FreeRange(firstFrame, Add32(firstFrame, numFrames));
    }

    /** What the loop body does with the record at addr. */
    method FreeRecord(mem: Memory, addr: u32, ghost r: Record)
      requires Valid() && addr + 24 <= |mem| && ReadsAs(mem, addr, r)
      modifies this, bitmap
      ensures Valid() && free == old(free) + Taken(r, MaxFrames())
      ensures freeFrames == Advance(old(freeFrames), TakenCount(r, MaxFrames()))
      ensures totalFrames == Advance(old(totalFrames), TakenCount(r, MaxFrames()))
    {
      if Load32(mem, addr + 20) == 1 {
        var regionStart, regionLen := Load64(mem, addr + 4), Load64(mem, addr + 12);
        if regionStart >= TWO32 {
          return;
        }
        FreeRegion(regionStart, regionLen);
      }
    }

    /** The body of the loop at the i-th record read; either path through it goes on at size + 4. */
    method VisitRecord(mem: Memory, addr: u32, ghost end: u32, ghost records: seq<Record>, ghost i: nat)
      returns (next: u32)
      requires i < |records| && Walks(mem, addr, end, records[i..]) && Loaded(records[..i])
      modifies this, bitmap
      ensures Loaded(records[..i + 1]) && Walks(mem, next, end, records[i + 1..])
    {
      next := Add32(Add32(addr, Size32(mem, addr)), 4);
      WalkGoesOn(mem, addr, end, records, i);
      CountersGoOn(records, i, MaxFrames());
      FreeRecord(mem, addr, records[i]);
    }

    /** Step 2 with a memory map: every record that the walk reads is taken account of, once. */
    method WalkMap(mem: Memory, info: BootInfo, ghost records: seq<Record>)
      requires Valid() && MapInMemory(mem, info, records)
      requires free == {} && freeFrames == 0 && totalFrames == 0
      modifies this, bitmap
      ensures Loaded(records)
    {
      var addr, end := info.mmapAddr, Add32(info.mmapAddr, info.mmapLength);
      ghost var i: nat := 0;
      assert records[..0] == [] && records[0..] == records;
      NothingTaken(MaxFrames());
      while addr < end
        invariant i <= |records| && Walks(mem, addr, end, records[i..]) && Loaded(records[..i])
        decreases |records| - i
      {
        addr := VisitRecord(mem, addr, end, records, i);
        i := i + 1;
      }
      assert i == |records| && records[..i] == records;
    }

    /** Step 2. */
    method FreeOffered(mem: Memory, info: BootInfo, ghost records: seq<Record>)
      requires Valid() && free == {} && freeFrames == 0 && totalFrames == 0
      requires HasMap(info) ==> MapInMemory(mem, info, records)
      modifies this, bitmap
      ensures Valid() && free == Offered(info, records, MaxFrames())
      ensures freeFrames == totalFrames == Advance(0, OfferedCount(info, records, MaxFrames()))
    {
      if !HasMap(info) {
        FreeRange(0x10_0000 / FRAME_SIZE, FallbackEnd(info.memUpper));
      } else {
        WalkMap(mem, info, records);
      }
    }

    /** Step 3. */
    method TakeBack(kernelEnd: u32, ghost surplus: nat)
      requires Ahead(surplus)
      modifies this`freeFrames, this`free, bitmap
      ensures Ahead(surplus) && free == old(free) - Reserved(kernelEnd, MaxFrames())
    {
      ReserveRange(0, LOW_FRAMES, surplus);
      ReserveRange(LOW_FRAMES, KernelEndFrame(kernelEnd), surplus);
    }

    method Init(mem: Memory, info: BootInfo, kernelEnd: u32, ghost records: seq<Record>)
      requires Valid() && freeFrames == 0 && totalFrames == 0
      requires HasMap(info) ==> MapInMemory(mem, info, records)
      modifies this, bitmap
      ensures Valid() && free == Offered(info, records, MaxFrames()) - Reserved(kernelEnd, MaxFrames())
      ensures free == (if BitSet(info.flags, 6) then TakenAll(records, MaxFrames())
                       else Frames(LOW_FRAMES, Min(FallbackEnd(info.memUpper), MaxFrames())))
                      - Reserved(kernelEnd, MaxFrames())
      ensures Ahead(Overshoot(info, records, MaxFrames()))
      ensures totalFrames == Advance(0, OfferedCount(info, records, MaxFrames()))
    {
      MarkAllUsed();
      FreeOffered(mem, info, records);
      CounterStarts(info, records, MaxFrames(), free, freeFrames);
      MapIsBitSix(info);
      TakeBack(kernelEnd, Overshoot(info, records, MaxFrames()));
    }

    /** First fit: the least free frame, or zero and no change. */
    method AllocFrame() returns (addr: u32)
      requires Valid()
      modifies this`freeFrames, this`free, bitmap
      ensures Valid()
      ensures (AsView(), addr) == Allocated(old(AsView()), MaxFrames())
    {
      for i := 0 to bitmap.Length
        invariant Valid() && free == old(free) && freeFrames == old(freeFrames) && bitmap[..] == old(bitmap[..])
        invariant forall g :: g in free ==> g >= 32 * i
      {
        FullWord(bitmap[i]);
        if bitmap[i] == 0xFFFF_FFFF {
          assert forall g :: 32 * i <= g < 32 * i + 32 ==> Used(bitmap[..], g);
          continue;
        }
        ghost var k: nat :| k < 32 && !BitSet(bitmap[i], k);
        assert (32 * i + k) / 32 == i && (32 * i + k) % 32 == k && 32 * i + k in free;
        for bit := 0 to 32
          invariant Valid() && free == old(free) && freeFrames == old(freeFrames) && bitmap[..] == old(bitmap[..])
          invariant forall g :: g in free ==> g >= 32 * i + bit
        {
          var frame := i * 32 + bit;
          var used := BitmapTest(frame);
          if !used {
            BitmapSet(frame);
            freeFrames := Prev(freeFrames);
            return frame * FRAME_SIZE;
          }
        }
        assert false;
      }
      return 0;
    }

    method FreeFrame(physAddr: u32)
      requires Valid()
      modifies this`freeFrames, this`free, bitmap
      ensures Valid()
      ensures AsView() == Freed(old(AsView()), physAddr, MaxFrames())
    {
      var frame := physAddr / FRAME_SIZE;
      if frame < MaxFrames() {
        var used := BitmapTest(frame);
        if used {
          BitmapClear(frame);
          freeFrames := Next(freeFrames);
        }
      }
    }
  }

  lemma WalkGoesOn(mem: Memory, at: u32, end: u32, records: seq<Record>, i: nat)
    requires i < |records| && Walks(mem, at, end, records[i..])
    ensures at + 24 <= |mem| && ReadsAs(mem, at, records[i]) && Walks(mem, After(mem, at), end, records[i + 1..])
  {
    assert records[i..][1..] == records[i + 1..];
  }

  lemma CountersGoOn(records: seq<Record>, i: nat, maxFrames: nat)
    requires i < |records|
    ensures var before, after := records[..i], records[..i + 1];
            && TakenAll(after, maxFrames) == TakenAll(before, maxFrames) + Taken(records[i], maxFrames)
            && Advance(0, CountAll(after, maxFrames)) ==
               Advance(Advance(0, CountAll(before, maxFrames)), TakenCount(records[i], maxFrames))
  {
    assert records[..i] + [records[i]] == records[..i + 1];
    OneMore(records[..i], records[i], maxFrames);
    AdvanceTwice(0, CountAll(records[..i], maxFrames), TakenCount(records[i], maxFrames));
  }

  lemma CounterFollows(free: set<int>, f: int, surplus: nat, maxFrames: nat)
    requires f in free && 0 <= f < maxFrames
    ensures Prev(Advance(0, Size(free, maxFrames) + surplus)) == Advance(0, Size(free - {f}, maxFrames) + surplus)
  {
    SizeRemove(free, f, maxFrames);
  }

  /** The fallback frees what mem_upper describes exactly when it stays below 4 GiB: from
      4 GiB less the first MiB on, the sum wraps and memory is lost. */
  lemma FallbackExactIff(memUpper: u32)
    ensures FallbackEnd(memUpper) == Min(LOW_FRAMES + memUpper / 4, 0x10_0000) <==> memUpper < 4193280
  {
  }

  /** The kernel's bytes are all reserved exactly when rounding its end up does not wrap. */
  lemma KernelCoveredIff(kernelEnd: u32)
    ensures (forall b: int :: 0 <= b < kernelEnd ==> b / FRAME_SIZE in Reserved(kernelEnd, 0x10_0000))
            <==> kernelEnd <= 0xFFFF_F000
  {
    if kernelEnd > 0xFFFF_F000 {
      var b := 0x10_0000;
      assert b / FRAME_SIZE !in Reserved(kernelEnd, 0x10_0000);
    }
  }
}
