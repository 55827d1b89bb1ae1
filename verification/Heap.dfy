/** kmalloc of memory/memory.c: a bump allocator over a fixed array. */
module Heap {
  import opened Words

  const HEAP_SIZE := 256 * 1024

  /** The request, rounded up to sixteen bytes on a 32-bit size_t. */
  function Rounded(size: u32): u32
  {
    Add32(size, 15) / 16 * 16
  }

  datatype Outcome = Panic | Granted(start: int, next: int)

  /** The test and the new offset; the sum is a uint32_t. */
  function Request(offset: int, size: u32): Outcome
    requires 0 <= offset <= HEAP_SIZE
  {
    var next := Add32(offset, Rounded(size));
    if next > HEAP_SIZE then Panic else Granted(offset, next)
  }

  /** A request that would fit the empty heap is refused exactly for want of room. A larger one
      is refused unless its rounding or the sum wraps. */
  lemma PanicsIff(offset: int, size: u32)
    requires 0 <= offset <= HEAP_SIZE && offset % 16 == 0
    ensures size <= HEAP_SIZE ==> (Request(offset, size).Panic? <==> offset + size > 0x4_0000)
    ensures size > HEAP_SIZE ==> (Request(offset, size).Panic? <==> offset + size <= 0xFFFF_FFF0)
  {
  }

  /** A request granted to a caller that asks for no more than the heap: its block starts at the old
      offset, holds what was asked for, and wastes fewer than sixteen bytes. */
  lemma GrantedIsTight(offset: int, size: u32)
    requires 0 <= offset <= HEAP_SIZE && offset % 16 == 0 && size <= HEAP_SIZE && Request(offset, size).Granted?
    ensures var r := Request(offset, size);
            r.start == offset && offset + size <= r.next < offset + size + 16 && r.next % 16 == 0
  {
    var q := (size + 15) / 16;
    assert Add32(size, 15) == size + 15 && 16 * q <= size + 15 < 16 * q + 16;
    assert Rounded(size) == 16 * q && Add32(offset, 16 * q) == offset + 16 * q;
  }

  /** `size` is what the caller asked for. */
  datatype Block = Block(start: int, size: u32)

  predicate Apart(a: Block, b: Block)
  {
    a.start + a.size <= b.start || b.start + b.size <= a.start
  }

  predicate Within(b: Block, offset: int)
  {
    b.start % 16 == 0 && 0 <= b.start && b.start + b.size <= offset
  }

  /** What callers rely on: aligned blocks, in use below the offset, none overlapping another. */
  predicate Sound(blocks: seq<Block>, offset: int)
  {
    && (forall i :: 0 <= i < |blocks| ==> Within(blocks[i], offset))
    && forall i, j :: 0 <= i < j < |blocks| ==> Apart(blocks[i], blocks[j])
  }

  datatype State = State(offset: int, blocks: seq<Block>, panicked: bool)

  predicate Bounded(s: State)
  {
    0 <= s.offset <= HEAP_SIZE && s.offset % 16 == 0
  }

  function Kmalloc(s: State, size: u32): (t: State)
    requires Bounded(s)
    ensures Bounded(t)
  {
    if s.panicked then s else
    match Request(s.offset, size)
    case Panic => s.(panicked := true)
    case Granted(start, next) => State(next, s.blocks + [Block(start, size)], false)
  }

  function Run(sizes: seq<u32>): (t: State)
    ensures Bounded(t)
  {
    if sizes == [] then State(0, [], false) else Kmalloc(Run(sizes[..|sizes| - 1]), sizes[|sizes| - 1])
  }

  /** Every call that does not panic hands out one more block, of the size asked for, at the offset. */
  lemma KmallocHandsOut(s: State, size: u32)
    requires Bounded(s) && !s.panicked
    ensures var t := Kmalloc(s, size);
            if t.panicked then t.blocks == s.blocks && t.offset == s.offset
            else t.blocks == s.blocks + [Block(s.offset, size)]
    ensures size <= HEAP_SIZE ==> (Kmalloc(s, size).panicked <==> s.offset + size > HEAP_SIZE)
  {
    PanicsIff(s.offset, size);
  }

  predicate NoneHuge(blocks: seq<Block>)
  {
    forall i :: 0 <= i < |blocks| ==> blocks[i].size <= HEAP_SIZE
  }

  /** Over any run of calls, the blocks are sound exactly when no granted request was larger
      than the heap. */
  lemma {:induction false} SoundIffNoneHuge(sizes: seq<u32>)
    ensures var s := Run(sizes); Sound(s.blocks, s.offset) <==> NoneHuge(s.blocks)
  {
    if sizes != [] {
      var s := Run(sizes[..|sizes| - 1]);
      SoundIffNoneHuge(sizes[..|sizes| - 1]);
      GrantKeepsSound(s, sizes[|sizes| - 1]);
    }
  }

  lemma GrantKeepsSound(s: State, size: u32)
    requires Bounded(s) && (Sound(s.blocks, s.offset) <==> NoneHuge(s.blocks))
    ensures var t := Kmalloc(s, size); Sound(t.blocks, t.offset) <==> NoneHuge(t.blocks)
  {
    var t := Kmalloc(s, size);
    PanicsIff(s.offset, size);
    if t.blocks != s.blocks {
      var n := |s.blocks|;
      assert t.blocks[n] == Block(s.offset, size);
      if NoneHuge(t.blocks) {
        forall i | 0 <= i < n ensures s.blocks[i].size <= HEAP_SIZE {
          assert s.blocks[i] == t.blocks[i];
        }
        assert NoneHuge(s.blocks);
      } else {
        var i :| 0 <= i < |t.blocks| && t.blocks[i].size > HEAP_SIZE;
        HugeIsOutside(t.blocks[i], t.offset);
      }
    }
  }

  lemma HugeIsOutside(b: Block, offset: int)
    requires b.size > HEAP_SIZE && offset <= HEAP_SIZE
    ensures !Within(b, offset)
  {
  }

  class Allocator {
    var heapOffset: u32

    constructor ()
      ensures heapOffset == 0
    {
      heapOffset := 0;
    }

    /** The start is relative to the 16-aligned array. */
    method Kmalloc(size: u32) returns (r: Outcome)
      requires heapOffset <= HEAP_SIZE
      modifies this
      ensures r == Request(old(heapOffset), size)
      ensures heapOffset == (if r.Panic? then old(heapOffset) else r.next)
      ensures heapOffset <= HEAP_SIZE
    {
      var rounded := Rounded(size);
      if Add32(heapOffset, rounded) > HEAP_SIZE {
        return Panic;
      }
      var start := heapOffset;
      heapOffset := Add32(heapOffset, rounded);
      return Granted(start, heapOffset);
    }
  }
}
