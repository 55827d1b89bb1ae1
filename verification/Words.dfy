/** The machine's unsigned integer types. */
module Words {
  type u8 = x: int | 0 <= x < 0x100
  type u16 = x: int | 0 <= x < 0x1_0000
  type u32 = x: int | 0 <= x < 0x1_0000_0000
  type u64 = x: int | 0 <= x < 0x1_0000_0000_0000_0000

  const TWO32: int := 0x1_0000_0000
  const TWO64: int := 0x1_0000_0000_0000_0000

  /** + on uint32_t and on uint64_t. */
  function Add32(x: u32, y: u32): u32
  {
    if x + y < TWO32 then x + y else x + y - TWO32
  }

  function Add64(x: u64, y: u64): u64
  {
    if x + y < TWO64 then x + y else x + y - TWO64
  }

  /** ++ and -- on a uint32_t. */
  function Next(x: u32): u32
  {
    if x == TWO32 - 1 then 0 else x + 1
  }

  function Prev(x: u32): u32
  {
    if x == 0 then TWO32 - 1 else x - 1
  }

  /** A uint32_t after n increments. */
  function Advance(x: u32, n: nat): u32
  {
    if n == 0 then x else Next(Advance(x, n - 1))
  }

  lemma {:induction false} AdvanceIsSum(x: u32, n: nat)
    ensures Advance(x, n) == (x + n) % TWO32
  {
    if n > 0 {
      AdvanceIsSum(x, n - 1);
      NextIsSum(x + n - 1);
    }
  }

  lemma NextIsSum(y: nat)
    ensures Next(y % TWO32) == (y + 1) % TWO32
  {
    var q, r := y / TWO32, y % TWO32;
    assert y == q * TWO32 + r;
    if r == TWO32 - 1 {
      assert y + 1 == (q + 1) * TWO32;
    }
  }

  lemma {:induction false} AdvanceTwice(x: u32, m: nat, n: nat)
    ensures Advance(Advance(x, m), n) == Advance(x, m + n)
  {
    if n > 0 { AdvanceTwice(x, m, n - 1); }
  }
}
