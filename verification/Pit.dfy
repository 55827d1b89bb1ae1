/** drivers/pit.c: the tick counter and the sleep that polls it. */
module Pit {
  import opened Words

  const PIT_FREQUENCY_HZ := 100
  const HALF: int := 0x8000_0000

  /** - on uint32_t. */
  function Sub32(x: u32, y: u32): u32
  {
    if x >= y then x - y else x - y + TWO32
  }

  /** How long the sleep is to be, in ticks. The product and the sum wrap. */
  function TicksNeeded(ms: u32): u32
  {
    (ms * PIT_FREQUENCY_HZ % TWO32 + 999) % TWO32 / 1000
  }

  /** (int32_t)(end - ticks) > 0 */
  predicate Waiting(end: u32, ticks: u32)
  {
    0 < Sub32(end, ticks) < HALF
  }

  function TenthsRoundedUp(ms: nat): nat
  {
    if ms % 10 == 0 then ms / 10 else ms / 10 + 1
  }

  lemma WrapsOnce(ms: u32)
    ensures ms * 100 + 999 < TWO32 ==> TicksNeeded(ms) == (ms * 100 + 999) / 1000
    ensures TicksNeeded(ms) <= 4294967
  {
  }

  lemma RoundsUp(ms: nat)
    ensures (ms * 100 + 999) / 1000 == TenthsRoundedUp(ms)
  {
    var q, r := ms / 10, ms % 10;
    assert ms * 100 + 999 == 1000 * q + (r * 100 + 999);
    assert 0 <= r <= 9;
  }

  /** The arithmetic gives the length asked for up to 42949662 ms and for no longer sleep. */
  lemma NeededIsExactIff(ms: u32)
    ensures TicksNeeded(ms) == TenthsRoundedUp(ms) <==> ms <= 42949662
  {
    WrapsOnce(ms);
    RoundsUp(ms);
    if 42949662 < ms <= 42949670 {
      var p := ms * 100;
      assert p <= 4294967000;
      assert p % TWO32 == p;
      assert (p + 999) % TWO32 == p + 999 - TWO32;
    } else if ms > 42949670 {
      assert TenthsRoundedUp(ms) > 4294967;
    }
  }

  /** As long as fewer than 2^32 ticks have been missed, the signed comparison tells the truth
      exactly when no more than 2^31 have, wherever the counter started. */
  lemma ComparisonIsExactIff(start: u32, needed: u32, elapsed: nat)
    requires needed < HALF && elapsed < needed + TWO32
    ensures (Waiting(Advance(start, needed), Advance(start, elapsed)) <==> elapsed < needed)
            <==> elapsed <= needed + HALF
  {
    AdvanceIsSum(start, needed);
    AdvanceIsSum(start, elapsed);
    DifferenceWraps(start + needed, start + elapsed);
    SmallRemainder(needed - elapsed);
  }

  lemma SmallRemainder(x: int)
    requires -TWO32 < x < TWO32
    ensures x % TWO32 == if x >= 0 then x else x + TWO32
  {
  }

  lemma DifferenceWraps(x: nat, y: nat)
    ensures Sub32(x % TWO32, y % TWO32) == (x - y) % TWO32
  {
    var a, b := x / TWO32, y / TWO32;
    var r, s := x % TWO32, y % TWO32;
    assert x - y == (a - b) * TWO32 + (r - s);
  }

  /** The ticks of the first k gaps between checks. */
  function Elapsed(gaps: seq<nat>, k: nat): nat
    requires k <= |gaps|
  {
    if k == 0 then 0 else Elapsed(gaps, k - 1) + gaps[k - 1]
  }

  class Timer {
    var ticks: u32

    constructor ()
      ensures ticks == 0
    {
      ticks := 0;
    }

    method Irq0Handler()
      modifies this
      ensures ticks == Next(old(ticks))
    {
      ticks := Next(ticks);
    }

    /** The timer line fires n times. */
    method Irqs(n: nat)
      modifies this
      ensures ticks == Advance(old(ticks), n)
    {
      for i := 0 to n
        invariant ticks == Advance(old(ticks), i)
      {
        Irq0Handler();
      }
    }

    /** pit_sleep_ms, with gaps[k] ticks arriving just before check k; a halt may also end by
        another interrupt, with no tick. It returns at the first check that finds the ticks
        elapsed, n being the number of checks. That the ticks do come is the environment's part. */
    method SleepMs(ms: u32, gaps: seq<nat>) returns (n: nat)
      requires gaps != [] && Elapsed(gaps, |gaps|) >= TicksNeeded(ms)
      requires forall i :: 0 <= i < |gaps| ==> gaps[i] <= HALF
      modifies this
      ensures 1 <= n <= |gaps| && Elapsed(gaps, n) >= TicksNeeded(ms)
      ensures forall i :: 1 <= i < n ==> Elapsed(gaps, i) < TicksNeeded(ms)
      ensures ticks == Advance(old(ticks), Elapsed(gaps, n))
      ensures ms <= 42949662 ==> 10 * Elapsed(gaps, n) >= ms
    {
      var needed := TicksNeeded(ms);
      var end := Add32(ticks, needed);
      AddIsAdvance(ticks, needed);
      WrapsOnce(ms);
      n := PollUntil(end, gaps, ticks, needed);
      SleepsLongEnough(ms, Elapsed(gaps, n));
    }

    /** The loop of pit_sleep_ms. */
    method PollUntil(end: u32, gaps: seq<nat>, ghost start: u32, ghost needed: u32) returns (n: nat)
      requires start == ticks && end == Advance(start, needed) && needed < HALF
      requires gaps != [] && Elapsed(gaps, |gaps|) >= needed
      requires forall i :: 0 <= i < |gaps| ==> gaps[i] <= HALF
      modifies this
      ensures 1 <= n <= |gaps| && Elapsed(gaps, n) >= needed
      ensures forall i :: 1 <= i < n ==> Elapsed(gaps, i) < needed
      ensures ticks == Advance(start, Elapsed(gaps, n))
    {
      n := 1;
      Irqs(gaps[0]);
      CheckIsRight(start, needed, gaps, n);
      while Waiting(end, ticks)
        invariant 1 <= n <= |gaps| && ticks == Advance(start, Elapsed(gaps, n))
        invariant n > 1 ==> Elapsed(gaps, n - 1) < needed
        invariant Waiting(end, ticks) <==> Elapsed(gaps, n) < needed
        decreases |gaps| - n
      {
        AdvanceTwice(start, Elapsed(gaps, n), gaps[n]);
        Irqs(gaps[n]);
        n := n + 1;
        CheckIsRight(start, needed, gaps, n);
      }
      forall i | 1 <= i < n ensures Elapsed(gaps, i) < needed {
        ElapsedGrows(gaps, i, n - 1);
      }
    }
  }

  lemma AddIsAdvance(x: u32, y: u32)
    ensures Add32(x, y) == Advance(x, y)
  {
    AdvanceIsSum(x, y);
  }

  /** A tick is ten milliseconds. */
  lemma SleepsLongEnough(ms: u32, elapsed: nat)
    requires elapsed >= TicksNeeded(ms)
    ensures ms <= 42949662 ==> 10 * elapsed >= ms
  {
    NeededIsExactIff(ms);
  }

  lemma CheckIsRight(start: u32, needed: u32, gaps: seq<nat>, n: nat)
    requires 1 <= n <= |gaps| && needed < HALF && gaps[n - 1] <= HALF
    requires n > 1 ==> Elapsed(gaps, n - 1) < needed
    ensures Waiting(Advance(start, needed), Advance(start, Elapsed(gaps, n))) <==> Elapsed(gaps, n) < needed
  {
    assert Elapsed(gaps, 0) == 0 && Elapsed(gaps, n) == Elapsed(gaps, n - 1) + gaps[n - 1];
    ComparisonIsExactIff(start, needed, Elapsed(gaps, n));
  }

  lemma {:induction false} ElapsedGrows(gaps: seq<nat>, j: nat, k: nat)
    requires j <= k <= |gaps|
    ensures Elapsed(gaps, j) <= Elapsed(gaps, k)
  {
    if j < k { ElapsedGrows(gaps, j, k - 1); }
  }
}
