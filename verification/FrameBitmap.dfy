/** memory/pmm.c: the C operators on 32-bit words, the bitmap helpers, and the set of free
    frames that a bitmap stands for. */
module FrameBitmap {
  import opened Words

  function Pow2(k: nat): nat
    ensures Pow2(k) > 0
  {
    if k == 0 then 1 else 2 * Pow2(k - 1)
  }

  /** w >> k */
  function Shr(w: nat, k: nat): nat
  {
    if k == 0 then w else Shr(w / 2, k - 1)
  }

  /** (w >> k) & 1 */
  predicate BitSet(w: nat, k: nat)
  {
    Shr(w, k) % 2 == 1
  }

  /** a | b, digit by binary digit. */
  function BitOr(a: nat, b: nat): nat
    decreases a + b
  {
    if a == 0 && b == 0 then 0
    else 2 * BitOr(a / 2, b / 2) + if a % 2 == 1 || b % 2 == 1 then 1 else 0
  }

  /** a & b */
  function BitAnd(a: nat, b: nat): nat
    decreases a + b
  {
    if a == 0 || b == 0 then 0
    else 2 * BitAnd(a / 2, b / 2) + if a % 2 == 1 && b % 2 == 1 then 1 else 0
  }

  /** ~a on n bits */
  function Complement(a: nat, n: nat): nat
    requires a < Pow2(n)
  {
    Pow2(n) - 1 - a
  }

  lemma {:induction false} OrBits(a: nat, b: nat, k: nat)
    ensures BitSet(BitOr(a, b), k) <==> BitSet(a, k) || BitSet(b, k)
    decreases k
  {
    if a == 0 && b == 0 {
      ZeroBits(k);
    } else if k > 0 {
      OrBits(a / 2, b / 2, k - 1);
    }
  }

  lemma {:induction false} AndBits(a: nat, b: nat, k: nat)
    ensures BitSet(BitAnd(a, b), k) <==> BitSet(a, k) && BitSet(b, k)
    decreases k
  {
    if a == 0 || b == 0 {
      ZeroBits(k);
    } else if k > 0 {
      AndBits(a / 2, b / 2, k - 1);
    }
  }

  lemma {:induction false} ZeroBits(k: nat)
    ensures !BitSet(0, k)
  {
    if k > 0 { ZeroBits(k - 1); }
  }

  lemma {:induction false} PowBits(i: nat, k: nat)
    ensures BitSet(Pow2(i), k) <==> i == k
  {
    if i == 0 {
      if k > 0 { ZeroBits(k - 1); }
    } else if k > 0 {
      assert Pow2(i) / 2 == Pow2(i - 1);
      PowBits(i - 1, k - 1);
    }
  }

  lemma {:induction false} ComplementBits(a: nat, n: nat, k: nat)
    requires a < Pow2(n) && k < n
    ensures BitSet(Complement(a, n), k) <==> !BitSet(a, k)
  {
    if k > 0 {
      assert Complement(a, n) / 2 == Complement(a / 2, n - 1);
      ComplementBits(a / 2, n - 1, k - 1);
    }
  }

  lemma {:induction false} OrBound(a: nat, b: nat, n: nat)
    requires a < Pow2(n) && b < Pow2(n)
    ensures BitOr(a, b) < Pow2(n)
  {
    if n > 0 && (a > 0 || b > 0) { OrBound(a / 2, b / 2, n - 1); }
  }

  lemma {:induction false} AndBound(a: nat, b: nat, n: nat)
    requires a < Pow2(n) && b < Pow2(n)
    ensures BitAnd(a, b) < Pow2(n)
  {
    if n > 0 && a > 0 && b > 0 { AndBound(a / 2, b / 2, n - 1); }
  }

  lemma {:induction false} PowGrows(i: nat, n: nat)
    requires i <= n
    ensures Pow2(i) <= Pow2(n)
  {
    if i < n { PowGrows(i, n - 1); }
  }

  /** The low n bits determine a number below 2^n. */
  lemma {:induction false} BitsDetermine(a: nat, b: nat, n: nat)
    requires a < Pow2(n) && b < Pow2(n)
    requires forall k :: 0 <= k < n ==> (BitSet(a, k) <==> BitSet(b, k))
    ensures a == b
  {
    if n > 0 {
      assert BitSet(a, 0) <==> BitSet(b, 0);
      forall k | 0 <= k < n - 1
        ensures BitSet(a / 2, k) <==> BitSet(b / 2, k)
      {
        assert BitSet(a, k + 1) <==> BitSet(b, k + 1);
      }
      BitsDetermine(a / 2, b / 2, n - 1);
    }
  }

  lemma Pow32()
    ensures Pow2(32) == TWO32
  {
    assert Pow2(8) == 0x100;
    assert Pow2(16) == 0x1_0000;
    assert Pow2(24) == 0x100_0000;
  }

  /** word | (1u << bit) */
  function WithBit(w: u32, bit: nat): (r: u32)
    requires bit < 32
    ensures forall k: nat :: k < 32 ==> (BitSet(r, k) <==> k == bit || BitSet(w, k))
  {
    Pow32(); PowGrows(bit, 31); OrBound(w, Pow2(bit), 32);
    assert forall k: nat :: k < 32 ==> (BitSet(BitOr(w, Pow2(bit)), k) <==> k == bit || BitSet(w, k)) by {
      forall k: nat | k < 32
        ensures BitSet(BitOr(w, Pow2(bit)), k) <==> k == bit || BitSet(w, k)
      {
        OrBits(w, Pow2(bit), k); PowBits(bit, k);
      }
    }
    BitOr(w, Pow2(bit))
  }

  /** word & ~(1u << bit) */
  function WithoutBit(w: u32, bit: nat): (r: u32)
    requires bit < 32
    ensures forall k: nat :: k < 32 ==> (BitSet(r, k) <==> k != bit && BitSet(w, k))
  {
    Pow32(); PowGrows(bit, 31);
    var mask := Complement(Pow2(bit), 32);
    AndBound(w, mask, 32);
    assert forall k: nat :: k < 32 ==> (BitSet(BitAnd(w, mask), k) <==> k != bit && BitSet(w, k)) by {
      forall k: nat | k < 32
        ensures BitSet(BitAnd(w, mask), k) <==> k != bit && BitSet(w, k)
      {
        AndBits(w, mask, k); ComplementBits(Pow2(bit), 32, k); PowBits(bit, k);
      }
    }
    BitAnd(w, mask)
  }

  /** The scan skips a word exactly when all its bits are set. */
  lemma FullWord(w: u32)
    ensures w == 0xFFFF_FFFF <==> forall k: nat :: k < 32 ==> BitSet(w, k)
  {
    Pow32();
    forall k: nat | k < 32
      ensures BitSet(0xFFFF_FFFF, k)
    {
      ComplementBits(0, 32, k);
      ZeroBits(k);
    }
    if forall k: nat :: k < 32 ==> BitSet(w, k) {
      BitsDetermine(w, 0xFFFF_FFFF, 32);
    }
  }

  /** bitmap_test */
  predicate Used(words: seq<u32>, f: int)
    requires 0 <= f < 32 * |words|
  {
    BitSet(words[f / 32], f % 32)
  }

  /** bitmap_set */
  function Mark(words: seq<u32>, f: int): seq<u32>
    requires 0 <= f < 32 * |words|
  {
    words[f / 32 := WithBit(words[f / 32], f % 32)]
  }

  /** bitmap_clear */
  function Release(words: seq<u32>, f: int): seq<u32>
    requires 0 <= f < 32 * |words|
  {
    words[f / 32 := WithoutBit(words[f / 32], f % 32)]
  }

  function FreeSet(words: seq<u32>): set<int>
  {
    set f | 0 <= f < 32 * |words| && !Used(words, f)
  }

  lemma MarkRemoves(words: seq<u32>, f: int)
    requires 0 <= f < 32 * |words|
    ensures FreeSet(Mark(words, f)) == FreeSet(words) - {f}
  {
    forall g | 0 <= g < 32 * |words|
      ensures Used(Mark(words, f), g) <==> g == f || Used(words, g)
    {
    }
  }

  lemma ReleaseAdds(words: seq<u32>, f: int)
    requires 0 <= f < 32 * |words|
    ensures FreeSet(Release(words, f)) == FreeSet(words) + {f}
  {
    forall g | 0 <= g < 32 * |words|
      ensures Used(Release(words, f), g) <==> g != f && Used(words, g)
    {
    }
  }

  /** The refinement to sets loses nothing: equal free sets are equal bitmaps. */
  lemma FreeSetDetermines(a: seq<u32>, b: seq<u32>)
    requires |a| == |b| && FreeSet(a) == FreeSet(b)
    ensures a == b
  {
    Pow32();
    forall i | 0 <= i < |a|
      ensures a[i] == b[i]
    {
      forall k | 0 <= k < 32
        ensures BitSet(a[i], k) <==> BitSet(b[i], k)
      {
        var f := 32 * i + k;
        assert Used(a, f) <==> f !in FreeSet(a);
        assert Used(b, f) <==> f !in FreeSet(b);
      }
      BitsDetermine(a[i], b[i], 32);
    }
  }
}
