/** The Multiboot memory map (section 3.3 of the Multiboot Specification 0.6.96) as pmm_init
    reads it: packed variable-size records, and the frames it takes from each of them. */
module MultibootMap {
  import opened Words
  import opened Families

  const FRAME_SIZE: int := 4096

  /** One record; extra are bytes beyond the fields the kernel knows. */
  datatype Record = Record(addr: u64, len: u64, kind: u32, extra: seq<u8>)

  /** The size field counts the record without itself. */
  function SizeField(r: Record): nat
  {
    20 + |r.extra|
  }

  /** The n low bytes of v, least significant first. */
  function LittleEndian(v: nat, n: nat): (bytes: seq<u8>)
    ensures |bytes| == n
  {
    if n == 0 then [] else [v % 256] + LittleEndian(v / 256, n - 1)
  }

  function Encode(r: Record): (bytes: seq<u8>)
    ensures |bytes| == SizeField(r) + 4
  {
    LittleEndian(SizeField(r), 4) + LittleEndian(r.addr, 8) + LittleEndian(r.len, 8)
    + LittleEndian(r.kind, 4) + r.extra
  }

  function EncodeAll(records: seq<Record>): seq<u8>
  {
    if records == [] then [] else Encode(records[0]) + EncodeAll(records[1..])
  }

  /** Physical memory by address, and a little-endian load of n bytes from it. */
  type Memory = seq<u8>

  function Load(mem: Memory, at: int, n: nat): nat
    requires 0 <= at <= at + n <= |mem|
    decreases n
  {
    if n == 0 then 0 else mem[at] + 256 * Load(mem, at + 1, n - 1)
  }

  ghost predicate Holds(mem: Memory, at: int, bytes: seq<u8>)
  {
    0 <= at && at + |bytes| <= |mem| && mem[at..at + |bytes|] == bytes
  }

  function Pow256(n: nat): nat
  {
    if n == 0 then 1 else 256 * Pow256(n - 1)
  }

  /** A load reads back what was stored little-endian. */
  lemma {:induction false} LoadInverts(mem: Memory, at: int, v: nat, n: nat)
    requires Holds(mem, at, LittleEndian(v, n)) && v < Pow256(n)
    ensures Load(mem, at, n) == v
    decreases n
  {
    if n > 0 {
      var bytes := LittleEndian(v, n);
      assert bytes[0] == v % 256 && bytes[1..] == LittleEndian(v / 256, n - 1);
      assert mem[at..at + n][0] == mem[at] && mem[at + 1..at + n] == mem[at..at + n][1..];
      LoadInverts(mem, at + 1, v / 256, n - 1);
    }
  }

  lemma HoldsPart(mem: Memory, at: int, part: seq<u8>, after: seq<u8>)
    requires Holds(mem, at, part + after)
    ensures Holds(mem, at, part) && Holds(mem, at + |part|, after)
  {
    var all := part + after;
    assert mem[at..at + |all|][..|part|] == mem[at..at + |part|];
    assert mem[at..at + |all|][|part|..] == mem[at + |part|..at + |all|];
    assert all[..|part|] == part && all[|part|..] == after;
  }

  lemma FieldsHeld(mem: Memory, at: int, r: Record)
    requires Holds(mem, at, Encode(r))
    ensures Holds(mem, at, LittleEndian(SizeField(r), 4)) && Holds(mem, at + 4, LittleEndian(r.addr, 8))
    ensures Holds(mem, at + 12, LittleEndian(r.len, 8)) && Holds(mem, at + 20, LittleEndian(r.kind, 4))
  {
    var size, addr := LittleEndian(SizeField(r), 4), LittleEndian(r.addr, 8);
    var len, kind := LittleEndian(r.len, 8), LittleEndian(r.kind, 4);
    HoldsParts(mem, at, size, addr, len, kind, r.extra);
  }

  lemma HoldsParts(mem: Memory, at: int, a: seq<u8>, b: seq<u8>, c: seq<u8>, d: seq<u8>, e: seq<u8>)
    requires Holds(mem, at, a + b + c + d + e)
    ensures Holds(mem, at, a) && Holds(mem, at + |a|, b) && Holds(mem, at + |a| + |b|, c)
    ensures Holds(mem, at + |a| + |b| + |c|, d) && Holds(mem, at + |a| + |b| + |c| + |d|, e)
  {
    HoldsPart(mem, at, a + b + c + d, e);
    HoldsPart(mem, at, a + b + c, d);
    HoldsPart(mem, at, a + b, c);
    HoldsPart(mem, at, a, b);
  }

  lemma {:induction false} LoadBound(mem: Memory, at: int, n: nat)
    requires 0 <= at <= at + n <= |mem|
    ensures Load(mem, at, n) < Pow256(n)
    decreases n
  {
    if n > 0 { LoadBound(mem, at + 1, n - 1); }
  }

  lemma WordSizes()
    ensures Pow256(4) == TWO32 && Pow256(8) == TWO64
  {
  }

  function Load32(mem: Memory, at: int): u32
    requires 0 <= at && at + 4 <= |mem|
  {
    LoadBound(mem, at, 4); WordSizes();
    Load(mem, at, 4)
  }

  function Load64(mem: Memory, at: int): u64
    requires 0 <= at && at + 8 <= |mem|
  {
    LoadBound(mem, at, 8); WordSizes();
    Load(mem, at, 8)
  }

  /** The byte at the lower address weighs less. */
  lemma LowByteFirst(mem: Memory, at: int)
    requires 0 <= at && at + 4 <= |mem|
    ensures var b0: int, b1: int, b2: int, b3: int := mem[at], mem[at + 1], mem[at + 2], mem[at + 3];
            Load32(mem, at) == b0 + 0x100 * b1 + 0x1_0000 * b2 + 0x100_0000 * b3
  {
    var top := Load(mem, at + 3, 1);
    assert top == mem[at + 3] + 256 * Load(mem, at + 4, 0);
    assert Load(mem, at + 2, 2) == mem[at + 2] + 256 * top;
    assert Load(mem, at + 1, 3) == mem[at + 1] + 256 * Load(mem, at + 2, 2);
  }

  /** What pmm_init reads of the entry at an address: size, and the other three fields. */
  function Size32(mem: Memory, at: int): u32
    requires 0 <= at && at + 24 <= |mem|
  {
    Load32(mem, at)
  }

  predicate ReadsAs(mem: Memory, at: int, r: Record)
    requires 0 <= at && at + 24 <= |mem|
  {
    Load64(mem, at + 4) == r.addr && Load64(mem, at + 12) == r.len && Load32(mem, at + 20) == r.kind
  }

  lemma FieldsDecode(mem: Memory, at: int, r: Record)
    requires Holds(mem, at, Encode(r)) && SizeField(r) < TWO32
    ensures at + 24 <= |mem| && Size32(mem, at) == SizeField(r) == 20 + |r.extra| && ReadsAs(mem, at, r)
    ensures Load64(mem, at + 4) == r.addr && Load64(mem, at + 12) == r.len && Load32(mem, at + 20) == r.kind
  {
    FieldsHeld(mem, at, r);
    WordSizes();
    LoadInverts(mem, at, SizeField(r), 4);
    LoadInverts(mem, at + 4, r.addr, 8);
    LoadInverts(mem, at + 12, r.len, 8);
    LoadInverts(mem, at + 20, r.kind, 4);
  }

  /** addr += entry->size + 4, in 32-bit arithmetic. */
  function After(mem: Memory, at: u32): u32
    requires at + 24 <= |mem|
  {
    Add32(Add32(at, Size32(mem, at)), 4)
  }

  /** The walk from an address, over any memory: it stays in memory, it stops, and these are the
      records it reads on the way. */
  ghost predicate Walks(mem: Memory, at: u32, end: u32, records: seq<Record>)
    decreases |records|
  {
    if records == [] then at >= end
    else && at < end && at + 24 <= |mem| && ReadsAs(mem, at, records[0])
         && Walks(mem, After(mem, at), end, records[1..])
  }

  /** It reads one sequence of records only. */
  lemma {:induction false} WalkIsDetermined(mem: Memory, at: u32, end: u32, a: seq<Record>, b: seq<Record>)
    requires Walks(mem, at, end, a) && Walks(mem, at, end, b)
    ensures |a| == |b|
    ensures forall i :: 0 <= i < |a| ==> a[i].addr == b[i].addr && a[i].len == b[i].len && a[i].kind == b[i].kind
    decreases |a|
  {
    if a != [] {
      WalkIsDetermined(mem, After(mem, at), end, a[1..], b[1..]);
      assert forall i :: 0 < i < |a| ==> a[i] == a[1..][i - 1] && b[i] == b[1..][i - 1];
    }
  }

  /** It need not end: a size field that brings it back to the same entry keeps it there. */
  lemma {:induction false} WalkCanBeEndless(mem: Memory, at: u32, end: u32, records: seq<Record>)
    requires at < end && at + 24 <= |mem| && Size32(mem, at) == 0xFFFF_FFFC
    ensures !Walks(mem, at, end, records)
    decreases |records|
  {
    assert After(mem, at) == at;
    if records != [] { WalkCanBeEndless(mem, at, end, records[1..]); }
  }

  /** On a packed map that ends below 2^32 the walk meets every record, once and in order. */
  lemma {:induction false} PackedIsWalked(mem: Memory, at: u32, end: u32, records: seq<Record>)
    requires Holds(mem, at, EncodeAll(records)) && end == at + |EncodeAll(records)|
    ensures Walks(mem, at, end, records)
    decreases |records|
  {
    if records != [] {
      FirstIsRead(mem, at, records);
      PackedIsWalked(mem, After(mem, at), end, records[1..]);
      OneRecord(mem, at, end, records);
    }
  }

  lemma OneRecord(mem: Memory, at: u32, end: u32, records: seq<Record>)
    requires records != [] && at < end && at + 24 <= |mem| && ReadsAs(mem, at, records[0])
    requires Walks(mem, After(mem, at), end, records[1..])
    ensures Walks(mem, at, end, records)
  {
  }

  lemma FirstIsRead(mem: Memory, at: u32, records: seq<Record>)
    requires records != [] && Holds(mem, at, EncodeAll(records)) && at + |EncodeAll(records)| < TWO32
    ensures at + 24 <= |mem| && ReadsAs(mem, at, records[0])
    ensures var rest := EncodeAll(records[1..]);
            && at < After(mem, at) == at + |EncodeAll(records)| - |rest| && Holds(mem, After(mem, at), rest)
  {
    var first, rest := Encode(records[0]), EncodeAll(records[1..]);
    HoldsPart(mem, at, first, rest);
    FieldsDecode(mem, at, records[0]);
    assert After(mem, at) == at + |first|;
  }

  /** And only on such a map: one that reaches 2^32 is not looked at. */
  lemma PackedIsWalkedIff(mem: Memory, at: u32, length: u32, records: seq<Record>)
    requires Holds(mem, at, EncodeAll(records)) && length == |EncodeAll(records)|
    ensures Walks(mem, at, Add32(at, length), records) <==> at + length < TWO32 || records == []
    ensures at + length >= TWO32 ==> Walks(mem, at, Add32(at, length), [])
  {
    if at + length < TWO32 {
      PackedIsWalked(mem, at, at + length, records);
    } else {
      assert Add32(at, length) <= at;
    }
  }

  predicate Within(f: int, first: int, last: int)
  {
    first <= f < last
  }

  /** The frames from first up to but not including last. */
  function Frames(first: int, last: int): set<int>
  {
    set f | first <= f < last && Within(f, first, last)
  }

  function SpanLength(first: int, last: int): nat
  {
    if first < last then last - first else 0
  }

  lemma FramesGrow(first: int, last: int)
    requires first <= last
    ensures Frames(first, last + 1) == Frames(first, last) + {last}
  {
  }

  lemma FramesEmpty(first: int, last: int)
    requires last <= first
    ensures Frames(first, last) == {}
  {
  }

  lemma {:induction false} FrameCount(first: int, last: int)
    ensures |Frames(first, last)| == SpanLength(first, last)
    decreases last - first
  {
    if first < last {
      FrameCount(first, last - 1);
      assert Frames(first, last) == Frames(first, last - 1) + {last - 1};
    } else {
      assert Frames(first, last) == {};
    }
  }

  function Min(a: int, b: int): int
  {
    if a < b then a else b
  }

  /** region_len after the clip to 4 GiB, the addition being a 64-bit one. */
  function ClippedLength(start: u64, len: u64): u64
    requires start < TWO32
  {
    if Add64(start, len) > TWO32 then TWO32 - start else len
  }

  function FirstFrame(start: u64): u32
    requires start < TWO32
  {
    start / FRAME_SIZE
  }

  /** first_frame + num_frames, with the conversions to uint32_t. */
  function LastFrame(start: u64, len: u64): u32
    requires start < TWO32
  {
    Add32(FirstFrame(start), ClippedLength(start, len) / FRAME_SIZE % TWO32)
  }

  /** The frames pmm_init frees for one record, below the bitmap's last. */
  function Taken(r: Record, maxFrames: nat): set<int>
  {
    if r.kind == 1 && r.addr < TWO32 then Frames(FirstFrame(r.addr), Min(LastFrame(r.addr, r.len), maxFrames))
    else {}
  }

  /** What each record of a map gives. */
  function Parts(records: seq<Record>, maxFrames: nat): (parts: seq<set<int>>)
    ensures |parts| == |records|
    ensures forall i :: 0 <= i < |records| ==> parts[i] == Taken(records[i], maxFrames)
  {
    seq(|records|, i requires 0 <= i < |records| => Taken(records[i], maxFrames))
  }

  /** Over a map: the frames that come free, and how often the counters move. */
  function TakenAll(records: seq<Record>, maxFrames: nat): set<int>
  {
    Union(Parts(records, maxFrames))
  }

  function CountAll(records: seq<Record>, maxFrames: nat): nat
  {
    TotalSize(Parts(records, maxFrames))
  }

  /** The number of turns of the loop over one record's frames. */
  function TakenCount(r: Record, maxFrames: nat): nat
  {
    if r.kind == 1 && r.addr < TWO32 then SpanLength(FirstFrame(r.addr), Min(LastFrame(r.addr, r.len), maxFrames))
    else 0
  }

  lemma CountIsSize(r: Record, maxFrames: nat)
    ensures |Taken(r, maxFrames)| == TakenCount(r, maxFrames)
  {
    if r.kind == 1 && r.addr < TWO32 {
      FrameCount(FirstFrame(r.addr), Min(LastFrame(r.addr, r.len), maxFrames));
    }
  }

  lemma NothingTaken(maxFrames: nat)
    ensures TakenAll([], maxFrames) == {} && CountAll([], maxFrames) == 0
  {
  }

  lemma OneMore(records: seq<Record>, r: Record, maxFrames: nat)
    ensures TakenAll(records + [r], maxFrames) == TakenAll(records, maxFrames) + Taken(r, maxFrames)
    ensures CountAll(records + [r], maxFrames) == CountAll(records, maxFrames) + TakenCount(r, maxFrames)
  {
    var parts := Parts(records + [r], maxFrames);
    assert parts[..|parts| - 1] == Parts(records, maxFrames);
    assert parts[|parts| - 1] == Taken(r, maxFrames);
    CountIsSize(r, maxFrames);
  }

  lemma InTakenAll(records: seq<Record>, maxFrames: nat, f: int)
    ensures f in TakenAll(records, maxFrames) <==>
            exists i :: 0 <= i < |records| && f in Taken(records[i], maxFrames)
  {
    var parts := Parts(records, maxFrames);
    InUnion(parts, f);
    assert forall i :: 0 <= i < |records| ==> parts[i] == Taken(records[i], maxFrames);
  }

  lemma TakenBounds(records: seq<Record>, maxFrames: nat, f: int)
    requires f in TakenAll(records, maxFrames)
    ensures 0 <= f < maxFrames
  {
    InTakenAll(records, maxFrames, f);
    var i :| 0 <= i < |records| && f in Taken(records[i], maxFrames);
  }

  /** How far the counters overshoot: frames shared between records are counted again. */
  function Excess(records: seq<Record>, maxFrames: nat): int
  {
    CountAll(records, maxFrames) - |TakenAll(records, maxFrames)|
  }

  predicate NoneShared(records: seq<Record>, maxFrames: nat)
  {
    forall i, j :: 0 <= i < j < |records| ==> Taken(records[i], maxFrames) !! Taken(records[j], maxFrames)
  }

  /** The overshoot is never negative, and nothing exactly when no two records share a frame. */
  lemma ExcessIsSharing(records: seq<Record>, maxFrames: nat)
    ensures Excess(records, maxFrames) >= 0
    ensures Excess(records, maxFrames) == 0 <==> NoneShared(records, maxFrames)
  {
    OvercountIsOverlap(Parts(records, maxFrames));
  }

  /** What a record describes, on unbounded integers: its part below 4 GiB, in whole frames. */
  function Described(r: Record): set<int>
  {
    if r.kind == 1 && r.addr < TWO32
    then Frames(FirstFrame(r.addr), FirstFrame(r.addr) + (Min(r.addr + r.len, TWO32) - r.addr) / FRAME_SIZE)
    else {}
  }

  /** Exactly when the kernel's 64- and 32-bit arithmetic takes the frames described: the
      region must not pass 2^64, unless it starts in the last page below 4 GiB and falls
      short of 2^64 bytes by at most 4 GiB less a page. */
  lemma TakenIsDescribedIff(r: Record)
    requires r.kind == 1 && r.addr < TWO32
    ensures Taken(r, 0x10_0000) == Described(r) <==>
            r.addr + r.len < TWO64 || (r.addr > TWO32 - FRAME_SIZE && TWO64 - r.len <= TWO32 - FRAME_SIZE)
  {
    var first, last := FirstFrame(r.addr), LastFrame(r.addr, r.len);
    var end := first + (Min(r.addr + r.len, TWO32) - r.addr) / FRAME_SIZE;
    LastFrameWraps(r.addr, r.len);
    if r.addr + r.len >= TWO64 {
      if r.addr <= TWO32 - FRAME_SIZE {
        if last <= first {
          assert first in Described(r) && first !in Taken(r, 0x10_0000);
        } else {
          assert 0xF_FFFF in Taken(r, 0x10_0000) && 0xF_FFFF !in Described(r);
        }
      } else {
        assert end == first;
        if last > first { assert first in Taken(r, 0x10_0000); }
      }
    }
  }

  /** For a whole map without a region that passes 2^64: the frames taken are those described. */
  lemma MapIsDescribed(records: seq<Record>, f: int)
    requires forall r :: r in records ==> r.addr + r.len < TWO64
    ensures f in TakenAll(records, 0x10_0000) <==> exists i :: 0 <= i < |records| && f in Described(records[i])
  {
    InTakenAll(records, 0x10_0000, f);
    forall i | 0 <= i < |records|
      ensures Taken(records[i], 0x10_0000) == Described(records[i])
    {
      var r := records[i];
      assert r in records;
      if r.kind == 1 && r.addr < TWO32 { TakenIsDescribedIff(r); }
    }
  }

  /** The last frame, case by case: past 2^64 nothing is left of the region, or everything
      up to the end of the bitmap is taken. */
  lemma LastFrameWraps(start: u64, len: u64)
    requires start < TWO32
    ensures var first, last := FirstFrame(start), LastFrame(start, len);
            if start + len < TWO64 then last == first + (Min(start + len, TWO32) - start) / FRAME_SIZE <= 0x10_0000
            else
              var short := (TWO64 - len + FRAME_SIZE - 1) / FRAME_SIZE;
              && first >= short - 1
              && last == if first >= short then first - short else TWO32 - 1
  {
    if start + len >= TWO64 {
      var short := (TWO64 - len + FRAME_SIZE - 1) / FRAME_SIZE;
      assert len / FRAME_SIZE == TWO64 / FRAME_SIZE - short && 1 <= short <= 0x10_0000;
      PagesLeft(short);
    } else {
      assert ClippedLength(start, len) == Min(start + len, TWO32) - start;
    }
  }

  lemma PagesLeft(short: int)
    requires 1 <= short <= 0x10_0000
    ensures (TWO64 / FRAME_SIZE - short) % TWO32 == TWO32 - short
  {
  }

  /** A frame lies in a region when all its bytes do. */
  predicate FrameInside(f: int, r: Record)
  {
    r.addr <= f * FRAME_SIZE && (f + 1) * FRAME_SIZE <= r.addr + r.len
  }

  /** The start of a region is rounded down. All bytes of all frames taken lie in the region
      exactly when it starts on a page boundary, or nothing is taken. */
  lemma InsideIffAligned(r: Record, maxFrames: nat)
    requires r.kind == 1 && r.addr < TWO32 && maxFrames <= 0x10_0000
    ensures (forall f :: f in Taken(r, maxFrames) ==> FrameInside(f, r)) <==>
            r.addr % FRAME_SIZE == 0 || Taken(r, maxFrames) == {}
  {
    if r.addr % FRAME_SIZE == 0 {
      AlignedIsInside(r, maxFrames);
    } else if Taken(r, maxFrames) != {} {
      var g :| g in Taken(r, maxFrames);
      assert FirstFrame(r.addr) in Taken(r, maxFrames);
      assert !FrameInside(FirstFrame(r.addr), r);
    }
  }

  lemma AlignedIsInside(r: Record, maxFrames: nat)
    requires r.kind == 1 && r.addr < TWO32 && maxFrames <= 0x10_0000 && r.addr % FRAME_SIZE == 0
    ensures forall f :: f in Taken(r, maxFrames) ==> FrameInside(f, r)
  {
    var first, last := FirstFrame(r.addr), LastFrame(r.addr, r.len);
    LastFrameWraps(r.addr, r.len);
    if r.addr + r.len < TWO64 {
      assert r.addr == first * FRAME_SIZE && last <= first + r.len / FRAME_SIZE;
    } else {
      assert r.addr + r.len >= 0x10_0000 * FRAME_SIZE;
    }
  }

  /** What a region that starts on a page boundary describes: the frames below 4 GiB that lie in it
      with all their bytes, if it is available memory. */
  lemma DescribedIsInside(r: Record, f: int)
    requires r.addr % FRAME_SIZE == 0
    ensures f in Described(r) <==> r.kind == 1 && f < 0x10_0000 && FrameInside(f, r)
  {
    if r.kind == 1 && r.addr < TWO32 {
      var first := FirstFrame(r.addr);
      var end := Min(r.addr + r.len, TWO32);
      assert r.addr == first * FRAME_SIZE;
      WholeFrames(first, end, f);
    }
  }

  lemma WholeFrames(first: int, end: int, f: int)
    ensures f < first + (end - first * FRAME_SIZE) / FRAME_SIZE <==> (f + 1) * FRAME_SIZE <= end
  {
  }
}
