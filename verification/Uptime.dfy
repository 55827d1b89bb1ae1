/** The uptime line of the idle loop (kernel/kernel.c). */
module Uptime {
  import opened Words
  import opened Numerals
  import opened Serial

  lemma {:induction false} DigitsArePlain(v: nat)
    ensures '\n' !in Digits(v, 10, false) && '\0' !in Digits(v, 10, false)
  {
    DigitRoundTrip(v % 10, false);
    if v >= 10 { DigitsArePlain(v / 10); }
  }

  lemma LineOfThree(prefix: string, digits: string, unit: string)
    requires '\n' !in prefix && '\n' !in digits && '\n' !in unit
    ensures LineEnds(prefix) + LineEnds(digits + unit + "\n") == prefix + (digits + unit + "\r\n")
  {
    PlainText(prefix);
    PlainText(digits + unit);
    NewlineAfter(digits + unit);
  }

  const PREFIX := "[TICK] uptime="

  /** The report for one second. */
  function Report(sec: u32): string
  {
    PREFIX + (Digits(sec, 10, false) + "s" + "\r\n")
  }

  /** The number of seconds can be read from the line. */
  lemma ReportReadsBack(sec: u32)
    ensures var line := Report(sec);
            && |line| > |PREFIX| + 3 && line[..|PREFIX|] == PREFIX && line[|line| - 3..] == "s\r\n"
            && Parse(line[|PREFIX|..|line| - 3], 10) == sec
  {
    var digits, line := Digits(sec, 10, false), Report(sec);
    ParseInvertsDigits(sec, 10, false);
    assert line[|PREFIX|..|line| - 3] == digits;
  }

  class IdleLoop {
    const port: Com1
    var lastSec: u32

    constructor (port: Com1)
      ensures this.port == port && lastSec == 0
    {
      this.port := port;
      lastSec := 0;
    }

    /** The digits are written last first. */
    method Fill(buf: array<char>, sec: u32) returns (i: int)
      requires buf.Length == 13
      modifies buf
      ensures 1 <= i <= 10 && Reverse(buf[..i]) == Digits(sec, 10, false)
    {
      i := 0;
      var v: int := sec;
      ghost var all := Digits(sec, 10, false);
      TenDecimals(sec);
      if v == 0 {
        buf[i] := '0';
        i := i + 1;
        ReverseSnoc("", '0');
        assert buf[..i] == "" + ['0'];
        assert Rest(v, 10, false) + Reverse(buf[..i]) == all;
      } else {
        assert Reverse(buf[..i]) == "";
      }
      while v > 0
        invariant 0 <= v && 0 <= i <= |all| && (v == 0 ==> i > 0)
        invariant Rest(v, 10, false) + Reverse(buf[..i]) == all
      {
        DivisionStep(v, 10, false, buf[..i], all);
        ghost var before := buf[..i];
        var d := v % 10;
        DigitRoundTrip(d, false);
        buf[i] := (('0' as int) + d) as char;
        assert buf[..i + 1] == before + [DigitChar(d, false)];
        i, v := i + 1, v / 10;
      }
    }

    /** The swapping loop. */
    method ReversePrefix(buf: array<char>, n: int)
      requires 1 <= n <= buf.Length
      modifies buf
      ensures buf[..n] == Reverse(old(buf[..n]))
    {
      var a, b := 0, n - 1;
      while a < b
        invariant 0 <= a <= b + 1 && a + b == n - 1
        invariant forall k :: 0 <= k < a ==> buf[k] == old(buf[n - 1 - k]) && buf[n - 1 - k] == old(buf[k])
        invariant forall k :: a <= k <= b ==> buf[k] == old(buf[k])
      {
        buf[a], buf[b] := buf[b], buf[a];
        a, b := a + 1, b - 1;
      }
      ghost var was := old(buf[..n]);
      forall k | 0 <= k < n ensures buf[k] == Reverse(was)[k] {
        ReverseAt(was, k);
      }
    }

    /** The rest of the line goes after the digits. */
    method Finish(buf: array<char>, i: int, ghost digits: string)
      requires buf.Length == 13 && 1 <= i <= 10 && buf[..i] == digits && '\0' !in digits
      modifies port, buf
      ensures port.sent == old(port.sent) + LineEnds(digits + "s" + "\n")
    {
      buf[i], buf[i + 1], buf[i + 2] := 's', '\n', '\0';
      assert buf[..i + 3] == (digits + "s" + "\n") + "\0";
      port.Puts(buf, digits + "s" + "\n");
    }

    method PrintPrefix()
      modifies port
      ensures port.sent == old(port.sent) + LineEnds(PREFIX)
    {
      var prefix := new char[15] ['[', 'T', 'I', 'C', 'K', ']', ' ', 'u', 'p', 't', 'i', 'm', 'e', '=', '\0'];
      assert prefix[..15] == PREFIX + "\0";
      port.Puts(prefix, PREFIX);
    }

    method PrintUptime(sec: u32)
      modifies port
      ensures port.sent == old(port.sent) + Report(sec)
    {
      PrintPrefix();
      var buf := new char[13];
      var i := Fill(buf, sec);
      ReversePrefix(buf, i);
      DigitsArePlain(sec);
      Finish(buf, i, Digits(sec, 10, false));
      LineOfThree(PREFIX, Digits(sec, 10, false), "s");
    }

    /** One pass of the loop at tick count `ticks`: a second that was not the last one
        reported gets its line, built in 13 bytes. */
    method Pass(ticks: u32)
      modifies this, port
      ensures lastSec == ticks / 100
      ensures port.sent == old(port.sent) + if lastSec != old(lastSec) then Report(lastSec) else ""
    {
      var sec: u32 := ticks / 100;
      if sec != lastSec {
        lastSec := sec;
        PrintUptime(sec);
      }
    }
  }
}
