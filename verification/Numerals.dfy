/** Positional notation: the rendering that emit_uint and the uptime printer must produce. */
module Numerals {
  import opened Words

  function DigitChar(d: int, upper: bool): char
    requires 0 <= d < 16
  {
    if upper then "0123456789ABCDEF"[d] else "0123456789abcdef"[d]
  }

  /** Most significant digit first. */
  function Digits(v: nat, base: int, upper: bool): string
    requires 2 <= base <= 16
  {
    if v < base then [DigitChar(v, upper)] else Digits(v / base, base, upper) + [DigitChar(v % base, upper)]
  }

  function DigitValue(c: char): int
  {
    if '0' <= c <= '9' then c as int - '0' as int
    else if 'a' <= c <= 'f' then c as int - 'a' as int + 10
    else if 'A' <= c <= 'F' then c as int - 'A' as int + 10
    else 0
  }

  /** The number that a string of digits denotes. */
  function Parse(s: string, base: int): int
  {
    if s == "" then 0 else base * Parse(s[..|s| - 1], base) + DigitValue(s[|s| - 1])
  }

  lemma DigitRoundTrip(d: int, upper: bool)
    requires 0 <= d < 16
    ensures DigitValue(DigitChar(d, upper)) == d
    ensures DigitChar(d, upper) == '0' <==> d == 0
    ensures DigitChar(d, upper) !in "-\n\0"
    ensures d < 10 ==> DigitChar(d, upper) == (('0' as int) + d) as char
  {
  }

  lemma DivideRejoins(v: nat, base: int)
    requires base > 0
    ensures base * (v / base) + v % base == v && 0 <= v % base < base
    ensures v / base == 0 <==> v < base
  {
  }

  lemma DivideShrinks(v: nat, base: int)
    requires 2 <= base && v > 0
    ensures 0 <= v / base < v && 0 <= v % base < base
  {
    DivideRejoins(v, base);
    var q := v / base;
    assert base * q >= 2 * q;
  }

  lemma ParseStep(s: string, q: int, d: int, base: int, upper: bool)
    requires Parse(s, base) == q && 0 <= d < 16
    ensures Parse(s + [DigitChar(d, upper)], base) == base * q + d
  {
    var c := DigitChar(d, upper);
    DigitRoundTrip(d, upper);
    assert (s + [c])[..|s|] == s;
  }

  lemma DigitsStep(v: nat, base: int, upper: bool)
    requires 2 <= base <= 16
    ensures v < base ==> Digits(v, base, upper) == "" + [DigitChar(v, upper)]
    ensures v >= base ==> Digits(v, base, upper) == Digits(v / base, base, upper) + [DigitChar(v % base, upper)]
  {
  }

  /** Digits above nine are letters, capital ones when asked for. */
  lemma LetterCase(d: int, upper: bool)
    requires 0 <= d < 16
    ensures d < 10 <==> '0' <= DigitChar(d, upper) <= '9'
    ensures d >= 10 ==> (if upper then 'A' <= DigitChar(d, upper) <= 'F' else 'a' <= DigitChar(d, upper) <= 'f')
  {
  }

  predicate OfCase(c: char, upper: bool)
  {
    '0' <= c <= '9' || (if upper then 'A' <= c <= 'F' else 'a' <= c <= 'f')
  }

  lemma {:induction false} DigitsOfCase(v: nat, base: int, upper: bool)
    requires 2 <= base <= 16
    ensures forall i :: 0 <= i < |Digits(v, base, upper)| ==> OfCase(Digits(v, base, upper)[i], upper)
  {
    DigitsStep(v, base, upper);
    if v < base {
      LetterCase(v, upper);
    } else {
      DivideShrinks(v, base);
      LetterCase(v % base, upper);
      DigitsOfCase(v / base, base, upper);
    }
  }

  /** Reading back what was printed gives the number. */
  lemma {:induction false} ParseInvertsDigits(v: nat, base: int, upper: bool)
    requires 2 <= base <= 16
    ensures Parse(Digits(v, base, upper), base) == v
  {
    DigitsStep(v, base, upper);
    if v < base {
      ParseStep("", 0, v, base, upper);
    } else {
      DivideRejoins(v, base);
      DivideShrinks(v, base);
      ParseInvertsDigits(v / base, base, upper);
      ParseStep(Digits(v / base, base, upper), v / base, v % base, base, upper);
    }
  }

  /** There is no leading zero, but for zero itself. */
  lemma {:induction false} NoLeadingZero(v: nat, base: int, upper: bool)
    requires 2 <= base <= 16
    ensures Digits(v, base, upper)[0] == '0' <==> v == 0
    ensures v == 0 ==> Digits(v, base, upper) == "0"
  {
    DigitsStep(v, base, upper);
    if v < base {
      DigitRoundTrip(v, upper);
    } else {
      DivideShrinks(v, base);
      DivideRejoins(v, base);
      NoLeadingZero(v / base, base, upper);
    }
  }

  lemma {:induction false} FirstIsDigit(v: nat, base: int, upper: bool)
    requires 2 <= base <= 16
    ensures Digits(v, base, upper)[0] != '-'
  {
    if v < base {
      DigitRoundTrip(v, upper);
    } else {
      DivideShrinks(v, base);
      FirstIsDigit(v / base, base, upper);
      assert Digits(v, base, upper)[0] == Digits(v / base, base, upper)[0];
    }
  }

  function Pow(base: nat, n: nat): nat
  {
    if n == 0 then 1 else base * Pow(base, n - 1)
  }

  /** How many digits there are. */
  lemma {:induction false} DigitsFit(v: nat, base: int, upper: bool, n: nat)
    requires 2 <= base <= 16 && n > 0
    ensures |Digits(v, base, upper)| <= n <==> v < Pow(base, n)
    decreases n
  {
    if n == 1 {
      assert Pow(base, 1) == base;
    } else if v < base {
      PowAtLeastBase(base, n);
    } else {
      DigitsFit(v / base, base, upper, n - 1);
      DivideBelow(v, base, Pow(base, n - 1));
    }
  }

  lemma {:induction false} PowAtLeastBase(base: nat, n: nat)
    requires base >= 2 && n > 0
    ensures Pow(base, n) >= base
  {
    if n > 1 { PowAtLeastBase(base, n - 1); }
  }

  lemma DivideBelow(v: nat, base: int, p: nat)
    requires base > 0
    ensures v / base < p <==> v < base * p
  {
    if v / base < p {
      assert base * (v / base) <= base * (p - 1);
    } else {
      assert base * (v / base) >= base * p;
    }
  }

  lemma ProductMonotone(a: nat, b: nat, c: nat, d: nat)
    requires a <= b && c <= d
    ensures a * c <= b * d
  {
    assert a * c <= b * c;
    assert b * c <= b * d;
  }

  lemma {:induction false} PowMonotone(a: nat, b: nat, n: nat)
    requires a <= b
    ensures Pow(a, n) <= Pow(b, n)
  {
    if n > 0 {
      PowMonotone(a, b, n - 1);
      ProductMonotone(a, b, Pow(a, n - 1), Pow(b, n - 1));
    }
  }

  lemma TwoTo32()
    ensures Pow(2, 31) == 0x8000_0000 && Pow(2, 32) == TWO32
  {
    assert Pow(2, 8) == 0x100;
    assert Pow(2, 16) == 0x1_0000;
    assert Pow(2, 24) == 0x100_0000;
  }

  /** Thirty-two characters hold any uint32_t in any base. */
  lemma BufferSuffices(v: u32, base: int, upper: bool)
    requires 2 <= base <= 16
    ensures 1 <= |Digits(v, base, upper)| <= 32
  {
    TwoTo32();
    PowMonotone(2, base, 32);
    DigitsFit(v, base, upper, 32);
  }

  /** And no fewer do: base 2 needs all of them for the upper half of the range. */
  lemma BufferIsTight(v: u32, upper: bool)
    ensures |Digits(v, 2, upper)| == 32 <==> v >= 0x8000_0000
  {
    TwoTo32();
    DigitsFit(v, 2, upper, 31);
    DigitsFit(v, 2, upper, 32);
  }

  /** Ten decimal digits hold any uint32_t. */
  lemma TenDecimals(v: u32)
    ensures |Digits(v, 10, false)| <= 10
  {
    assert Pow(10, 5) == 100000;
    assert Pow(10, 10) == 10000000000;
    DigitsFit(v, 10, false, 10);
  }

  /** The digits still to be produced by the division loop. */
  function Rest(v: nat, base: int, upper: bool): string
    requires 2 <= base <= 16
  {
    if v == 0 then "" else Digits(v, base, upper)
  }

  lemma RestStep(v: nat, base: int, upper: bool)
    requires 2 <= base <= 16 && v > 0
    ensures Rest(v, base, upper) == Rest(v / base, base, upper) + [DigitChar(v % base, upper)]
  {
    DivideRejoins(v, base);
  }

  function Reverse(s: string): (r: string)
    ensures |r| == |s|
  {
    if s == "" then "" else [s[|s| - 1]] + Reverse(s[..|s| - 1])
  }

  lemma {:induction false} ReverseAt(s: string, k: nat)
    requires k < |s|
    ensures Reverse(s)[k] == s[|s| - 1 - k]
  {
    if k > 0 { ReverseAt(s[..|s| - 1], k - 1); }
  }

  lemma ReverseSnoc(s: string, c: char)
    ensures Reverse(s + [c]) == [c] + Reverse(s)
  {
    assert (s + [c])[..|s|] == s;
  }

  /** One round of a division loop: `done` is what the buffer holds, last digit first. */
  lemma DivisionStep(v: nat, base: int, upper: bool, done: string, all: string)
    requires 2 <= base <= 16 && v > 0 && Rest(v, base, upper) + Reverse(done) == all
    ensures |done| < |all| && 0 <= v / base < v && 0 <= v % base < base
    ensures Rest(v / base, base, upper) + Reverse(done + [DigitChar(v % base, upper)]) == all
  {
    DivideShrinks(v, base);
    RestStep(v, base, upper);
    var c := DigitChar(v % base, upper);
    ReverseSnoc(done, c);
    Regroup(Rest(v / base, base, upper), c, Reverse(done));
  }

  /** One round of the loop that empties the buffer. */
  lemma EmptyingStep(sent: string, held: string, i: nat, all: string)
    requires i < |held| && sent + Reverse(held[..i + 1]) == all
    ensures (sent + [held[i]]) + Reverse(held[..i]) == all
  {
    assert held[..i + 1][..i] == held[..i];
    Regroup(sent, held[i], Reverse(held[..i]));
  }

  lemma Regroup(a: string, c: char, b: string)
    ensures (a + [c]) + b == a + ([c] + b)
  {
  }
}
