/** kernel/kprintf.c: formatted output to the screen and the serial line at once. */
module Kprintf {
  import opened Words
  import opened VgaLog
  import opened Vga
  import opened Numerals
  import opened Serial

  /** What the two devices have received. */
  datatype Output = Output(log: Log, serial: string)

  function Send(o: Output, s: string): Output
    requires WellFormed(o.log)
  {
    Output(PutAll(o.log, s), o.serial + s)
  }

  lemma SendTwice(o: Output, s: string, t: string)
    requires WellFormed(o.log)
    ensures Send(Send(o, s), t) == Send(o, s + t)
  {
    PutAllAppends(o.log, s, t);
  }

  lemma SendOne(o: Output, c: char)
    requires WellFormed(o.log)
    ensures Send(o, [c]) == Output(Put(o.log, c), o.serial + [c])
    ensures Send(o, "") == o
  {
    assert [c][..0] == "";
    assert PutAll(o.log, "") == o.log;
    assert PutAll(o.log, [c]) == Put(PutAll(o.log, ""), c);
  }

  lemma MinusFirst(o: Output, size: int)
    requires WellFormed(o.log) && size > 0
    ensures Send(Send(o, ['-']), Digits(size, 10, false)) == Send(o, SignedDigits(-size))
  {
    SendTwice(o, "-", Digits(size, 10, false));
  }

  /** A char pointer argument. */
  datatype CString = NullPointer | Text(s: string)

  /** One variadic argument: a 32-bit word or a string pointer. */
  datatype Arg = Word(w: u32) | Str(p: CString)

  function Signed(w: u32): int
  {
    if w < 0x8000_0000 then w else w - TWO32
  }

  /** %d */
  function SignedDigits(v: int): string
  {
    if v < 0 then "-" + Digits(-v, 10, false) else Digits(v, 10, false)
  }

  function ParseSigned(s: string): int
  {
    if s != "" && s[0] == '-' then -Parse(s[1..], 10) else Parse(s, 10)
  }

  lemma ParseMinus(s: string)
    ensures ParseSigned("-" + s) == -Parse(s, 10)
  {
    assert ("-" + s)[1..] == s;
  }

  /** %d reads back as the signed value of its argument, the most negative one included. */
  lemma SignedRoundTrip(w: u32)
    ensures ParseSigned(SignedDigits(Signed(w))) == Signed(w)
    ensures SignedDigits(Signed(w))[0] == '-' <==> w >= 0x8000_0000
  {
    var size := if w < 0x8000_0000 then w else TWO32 - w;
    ParseInvertsDigits(size, 10, false);
    FirstIsDigit(size, 10, false);
    ParseMinus(Digits(size, 10, false));
  }

  function Chars(p: CString): string
  {
    match p
    case NullPointer => "(null)"
    case Text(s) => s
  }

  predicate TakesWord(c: char)
  {
    c in "cduxX"
  }

  /** The next argument is there, with the type that the conversion expects. */
  predicate Accepts(c: char, args: seq<Arg>)
  {
    && (TakesWord(c) ==> args != [] && args[0].Word?)
    && (c == 's' ==> args != [] && args[0].Str?)
  }

  /** The rendering of one conversion. */
  function Conversion(c: char, args: seq<Arg>): string
    requires Accepts(c, args)
  {
    if c == 'c' then [(args[0].w % 256) as char]
    else if c == 's' then Chars(args[0].p)
    else if c == 'd' then SignedDigits(Signed(args[0].w))
    else if c == 'u' then Digits(args[0].w, 10, false)
    else if c == 'x' then Digits(args[0].w, 16, false)
    else if c == 'X' then Digits(args[0].w, 16, true)
    else if c == '%' then "%"
    else ['%', c]
  }

  function Left(c: char, args: seq<Arg>): seq<Arg>
    requires Accepts(c, args)
  {
    if TakesWord(c) || c == 's' then args[1..] else args
  }

  /** The interpreter works on memory from the format pointer on: it stops at the first NUL that
      it does not take for a conversion, and every conversion finds its argument. */
  predicate Match(mem: string, args: seq<Arg>)
    decreases |mem|
  {
    if |mem| == 0 then false
    else if mem[0] == '\0' then true
    else if mem[0] != '%' then Match(mem[1..], args)
    else |mem| > 1 && Accepts(mem[1], args) && Match(mem[2..], Left(mem[1], args))
  }

  /** What it sends. */
  function Render(mem: string, args: seq<Arg>): string
    requires Match(mem, args)
    decreases |mem|
  {
    if mem[0] == '\0' then ""
    else if mem[0] != '%' then [mem[0]] + Render(mem[1..], args)
    else Conversion(mem[1], args) + Render(mem[2..], Left(mem[1], args))
  }

  /** Where it stops. */
  function Stop(mem: string): nat
    decreases |mem|
  {
    if |mem| == 0 || mem[0] == '\0' then 0
    else if mem[0] != '%' || |mem| == 1 then 1 + Stop(mem[1..])
    else 2 + Stop(mem[2..])
  }

  /** The interpreter meets a '%' with nothing after it in the string. */
  predicate EndsInsideConversion(fmt: string)
    decreases |fmt|
  {
    if |fmt| == 0 then false
    else if fmt[0] != '%' then EndsInsideConversion(fmt[1..])
    else |fmt| == 1 || EndsInsideConversion(fmt[2..])
  }

  /** What the numeric conversions print reads back as the argument: u and d in decimal, x and X in
      hexadecimal with small and with capital letters. */
  lemma NumbersReadBack(w: u32, rest: seq<Arg>)
    ensures var args := [Word(w)] + rest;
            && Parse(Conversion('u', args), 10) == w && ParseSigned(Conversion('d', args)) == Signed(w)
            && Parse(Conversion('x', args), 16) == w && Parse(Conversion('X', args), 16) == w
  {
    ParseInvertsDigits(w, 10, false);
    ParseInvertsDigits(w, 16, false);
    ParseInvertsDigits(w, 16, true);
    SignedRoundTrip(w);
  }

  lemma HexadecimalCase(w: u32, rest: seq<Arg>)
    ensures var args := [Word(w)] + rest;
            && (forall i :: 0 <= i < |Conversion('x', args)| ==> OfCase(Conversion('x', args)[i], false))
            && (forall i :: 0 <= i < |Conversion('X', args)| ==> OfCase(Conversion('X', args)[i], true))
  {
    DigitsOfCase(w, 16, false);
    DigitsOfCase(w, 16, true);
  }

  /** And none has a leading zero. */
  lemma NumbersHaveNoLeadingZero(w: u32, rest: seq<Arg>)
    ensures var args := [Word(w)] + rest;
            && (Conversion('u', args)[0] == '0' <==> w == 0) && (Conversion('d', args)[0] == '0' <==> w == 0)
            && (Conversion('x', args)[0] == '0' <==> w == 0) && (Conversion('X', args)[0] == '0' <==> w == 0)
  {
    NoLeadingZero(w, 10, false);
    NoLeadingZero(w, 16, false);
    NoLeadingZero(w, 16, true);
  }

  /** The other conversions: a character by its low byte, a string or the word for a null pointer,
      a percent sign, and any other letter as it stands. */
  lemma OthersAreSent(c: char, w: u32, s: string, rest: seq<Arg>)
    ensures |Conversion('c', [Word(w)] + rest)| == 1 && Conversion('c', [Word(w)] + rest)[0] as int == w % 0x100
    ensures Conversion('s', [Str(Text(s))] + rest) == s
    ensures Conversion('s', [Str(NullPointer)] + rest) == "(null)"
    ensures Conversion('%', rest) == "%"
    ensures c !in "csduxX%" ==> Accepts(c, rest) && Conversion(c, rest) == ['%', c]
  {
  }

  /** Which conversions take an argument: one each. */
  lemma TakesOne(c: char, a: Arg, rest: seq<Arg>)
    requires Accepts(c, [a] + rest)
    ensures Left(c, [a] + rest) == if c in "csduxX" then rest else [a] + rest
    ensures c in "cduxX" ==> a.Word?
    ensures c == 's' ==> a.Str?
  {
    assert ([a] + rest)[1..] == rest;
  }

  /** Text without percent signs is sent as it is, whatever follows it. */
  lemma {:induction false} PlainIsSent(text: string, mem: string, args: seq<Arg>)
    requires '%' !in text && '\0' !in text
    ensures Match(text + mem, args) <==> Match(mem, args)
    ensures Match(mem, args) ==> Render(text + mem, args) == text + Render(mem, args)
    decreases |text|
  {
    if text == "" {
      assert text + mem == mem;
    } else {
      assert (text + mem)[1..] == text[1..] + mem && (text + mem)[0] == text[0];
      PlainIsSent(text[1..], mem, args);
      if Match(mem, args) { assert [text[0]] + (text[1..] + Render(mem, args)) == text + Render(mem, args); }
    }
  }

  /** A conversion is sent by what it means, and the rest is rendered on the arguments it leaves. */
  lemma ConversionIsSent(c: char, mem: string, args: seq<Arg>)
    requires Accepts(c, args)
    ensures Match(['%', c] + mem, args) <==> Match(mem, Left(c, args))
    ensures Match(mem, Left(c, args)) ==>
              Render(['%', c] + mem, args) == Conversion(c, args) + Render(mem, Left(c, args))
  {
    assert (['%', c] + mem)[2..] == mem;
  }

  /** The end of the string is the end of the output. */
  lemma EndIsSilent(mem: string, args: seq<Arg>)
    ensures Match("\0" + mem, args) && Render("\0" + mem, args) == ""
  {
  }

  function TrailingPercents(fmt: string): nat
  {
    if fmt == "" || fmt[|fmt| - 1] != '%' then 0 else 1 + TrailingPercents(fmt[..|fmt| - 1])
  }

  lemma {:induction false} TrailingOfSuffix(a: string, b: string)
    ensures TrailingPercents(b) <= |b|
    ensures TrailingPercents(a + b) ==
            if TrailingPercents(b) == |b| then |b| + TrailingPercents(a) else TrailingPercents(b)
    decreases |b|
  {
    if b == "" {
      assert a + b == a;
    } else {
      var n := |b| - 1;
      assert (a + b)[..|a + b| - 1] == a + b[..n];
      TrailingOfSuffix(a, b[..n]);
    }
  }

  lemma TrailingAfterPlain(c: char, rest: string)
    requires c != '%'
    ensures TrailingPercents([c] + rest) == TrailingPercents(rest)
  {
    TrailingOfSuffix([c], rest);
  }

  lemma TrailingAfterPair(c: char, rest: string)
    ensures TrailingPercents(['%', c] + rest) % 2 == TrailingPercents(rest) % 2
  {
    TrailingOfSuffix(['%', c], rest);
    TrailingOfSuffix(['%'], [c]);
    assert ['%'] + [c] == ['%', c] && ['%'][..0] == "" && [c][..0] == "";
  }

  /** Which formats those are: the ones that end in an odd number of percent signs. */
  lemma {:induction false} LonePercentIffOdd(fmt: string)
    ensures EndsInsideConversion(fmt) <==> TrailingPercents(fmt) % 2 == 1
    decreases |fmt|
  {
    if |fmt| > 0 {
      if fmt[0] != '%' {
        LonePercentIffOdd(fmt[1..]);
        TrailingAfterPlain(fmt[0], fmt[1..]);
        assert fmt == [fmt[0]] + fmt[1..];
      } else if |fmt| == 1 {
        assert fmt[..0] == "";
      } else {
        LonePercentIffOdd(fmt[2..]);
        TrailingAfterPair(fmt[1], fmt[2..]);
        assert fmt == ['%', fmt[1]] + fmt[2..];
      }
    }
  }

  /** A C string ends at its first NUL. */
  predicate NoInnerNul(args: seq<Arg>)
  {
    forall k :: 0 <= k < |args| && args[k].Str? && args[k].p.Text? ==> '\0' !in args[k].p.s
  }

  /** A string without a lone '%' at its end is rendered up to its terminator, where the
      interpreter stops: what lies beyond in memory does not matter. */
  lemma {:induction false} StringIsRendered(fmt: string, after: string, args: seq<Arg>)
    requires '\0' !in fmt && !EndsInsideConversion(fmt)
    ensures Match(fmt + "\0" + after, args) <==> Match(fmt + "\0", args)
    ensures Match(fmt + "\0", args) ==> Render(fmt + "\0" + after, args) == Render(fmt + "\0", args)
    ensures Stop(fmt + "\0" + after) == |fmt|
    decreases |fmt|
  {
    var long, short := fmt + "\0" + after, fmt + "\0";
    if fmt != "" {
      var n := if fmt[0] == '%' then 2 else 1;
      assert long[n..] == fmt[n..] + "\0" + after && short[n..] == fmt[n..] + "\0";
      assert long[0] == short[0] == fmt[0];
      if fmt[0] != '%' {
        StringIsRendered(fmt[1..], after, args);
      } else {
        assert long[1] == short[1] == fmt[1];
        if Accepts(fmt[1], args) {
          StringIsRendered(fmt[2..], after, Left(fmt[1], args));
        } else {
          StopOfRest(fmt[2..], after);
        }
      }
    }
  }

  lemma StopOfRest(fmt: string, after: string)
    requires '\0' !in fmt && !EndsInsideConversion(fmt)
    ensures Stop(fmt + "\0" + after) == |fmt|
    decreases |fmt|
  {
    if fmt != "" {
      var n := if fmt[0] == '%' then 2 else 1;
      assert (fmt + "\0" + after)[n..] == fmt[n..] + "\0" + after;
      StopOfRest(fmt[n..], after);
    }
  }

  /** The arguments left after a string. */
  function LeftAfter(fmt: string, args: seq<Arg>): seq<Arg>
    decreases |fmt|
  {
    if |fmt| == 0 then args
    else if fmt[0] != '%' || |fmt| == 1 then LeftAfter(fmt[1..], args)
    else if Accepts(fmt[1], args) then LeftAfter(fmt[2..], Left(fmt[1], args)) else []
  }

  /** With a lone '%' it takes the terminator for a conversion, sends both, and goes on with
      whatever lies beyond in memory, on the arguments left. */
  lemma {:induction false} LonePercentOverruns(fmt: string, after: string, args: seq<Arg>)
    requires '\0' !in fmt && EndsInsideConversion(fmt) && Match(fmt + "\0" + after, args)
    ensures var shown, left := fmt[..|fmt| - 1] + "\0", LeftAfter(fmt, args);
            && Match(shown, args) && Match(after, left)
            && Render(fmt + "\0" + after, args) == Render(shown, args) + ("%\0" + Render(after, left))
    ensures Stop(fmt + "\0" + after) == |fmt| + 1 + Stop(after)
    decreases |fmt|
  {
    var long := fmt + "\0" + after;
    if |fmt| == 1 {
      assert long[2..] == after && fmt[..0] + "\0" == "\0";
      assert Render("\0", args) == "" && Left('\0', args) == args;
    } else {
      var n := if fmt[0] == '%' then 2 else 1;
      var ap := if fmt[0] == '%' then Left(fmt[1], args) else args;
      assert long[n..] == fmt[n..] + "\0" + after;
      LonePercentOverruns(fmt[n..], after, ap);
      OverrunStep(fmt, after, args, n, ap);
    }
  }

  lemma OverrunStep(fmt: string, after: string, args: seq<Arg>, n: int, ap: seq<Arg>)
    requires 0 < n < |fmt| && n == if fmt[0] == '%' then 2 else 1
    requires fmt[0] != '\0' && (fmt[0] == '%' ==> Accepts(fmt[1], args))
    requires ap == if fmt[0] == '%' then Left(fmt[1], args) else args
    requires Match(fmt[n..][..|fmt| - n - 1] + "\0", ap) && Match(after, LeftAfter(fmt, args))
    requires Match(fmt[n..] + "\0" + after, ap)
    requires Render(fmt[n..] + "\0" + after, ap) ==
             Render(fmt[n..][..|fmt| - n - 1] + "\0", ap) + ("%\0" + Render(after, LeftAfter(fmt, args)))
    ensures Match(fmt + "\0" + after, args) && Match(fmt[..|fmt| - 1] + "\0", args)
    ensures Render(fmt + "\0" + after, args) ==
            Render(fmt[..|fmt| - 1] + "\0", args) + ("%\0" + Render(after, LeftAfter(fmt, args)))
  {
    var long, shown := fmt + "\0" + after, fmt[..|fmt| - 1] + "\0";
    SuffixesAgree(fmt, after, n);
    RenderFirst(long, args);
    RenderFirst(shown, args);
    Associate(Piece(fmt, args), Render(shown[n..], ap), "%\0" + Render(after, LeftAfter(fmt, args)));
  }

  lemma SuffixesAgree(fmt: string, after: string, n: int)
    requires 0 < n < |fmt|
    ensures var long, shown := fmt + "\0" + after, fmt[..|fmt| - 1] + "\0";
            && long[n..] == fmt[n..] + "\0" + after && long[..n] == fmt[..n] && long[0] == fmt[0]
            && shown[n..] == fmt[n..][..|fmt| - n - 1] + "\0" && shown[..n] == fmt[..n] && shown[0] == fmt[0]
            && (n == 2 ==> long[1] == shown[1] == fmt[1])
  {
  }

  predicate HasPiece(mem: string, args: seq<Arg>)
  {
    mem != "" && mem[0] != '\0' && (mem[0] == '%' ==> |mem| > 1 && Accepts(mem[1], args))
  }

  /** The output of one turn of the interpreter. */
  function Piece(mem: string, args: seq<Arg>): string
    requires HasPiece(mem, args)
  {
    if mem[0] == '%' then Conversion(mem[1], args) else [mem[0]]
  }

  lemma RenderFirst(mem: string, args: seq<Arg>)
    requires HasPiece(mem, args)
    ensures var n := if mem[0] == '%' then 2 else 1;
            var ap := if mem[0] == '%' then Left(mem[1], args) else args;
            && (Match(mem, args) <==> Match(mem[n..], ap))
            && (Match(mem, args) ==> Render(mem, args) == Piece(mem, args) + Render(mem[n..], ap))
  {
  }

  lemma Associate(a: string, b: string, c: string)
    ensures (a + b) + c == a + (b + c)
  {
  }

  /** Which strings those are: the interpreter stops at the terminator exactly when the format
      ends in an even number of percent signs. */
  lemma StopsAtEndIff(fmt: string, after: string, args: seq<Arg>)
    requires '\0' !in fmt && Match(fmt + "\0" + after, args)
    ensures Stop(fmt + "\0" + after) == |fmt| <==> TrailingPercents(fmt) % 2 == 0
  {
    LonePercentIffOdd(fmt);
    if EndsInsideConversion(fmt) {
      LonePercentOverruns(fmt, after, args);
    } else {
      StringIsRendered(fmt, after, args);
    }
  }

  /** The output when the rest of the format has been rendered. */
  function Goal(o: Output, rest: string, ap: seq<Arg>): Output
    requires WellFormed(o.log) && Match(rest, ap)
  {
    Send(o, Render(rest, ap))
  }

  lemma PlainStep(o: Output, rest: string, ap: seq<Arg>)
    requires WellFormed(o.log) && Match(rest, ap) && rest[0] != '\0' && rest[0] != '%'
    ensures Match(rest[1..], ap) && Stop(rest) == 1 + Stop(rest[1..])
    ensures Goal(Send(o, [rest[0]]), rest[1..], ap) == Goal(o, rest, ap)
  {
    SendTwice(o, [rest[0]], Render(rest[1..], ap));
  }

  lemma ConversionStep(o: Output, rest: string, ap: seq<Arg>)
    requires WellFormed(o.log) && Match(rest, ap) && rest[0] == '%'
    ensures |rest| > 1 && Accepts(rest[1], ap)
    ensures Match(rest[2..], Left(rest[1], ap)) && Stop(rest) == 2 + Stop(rest[2..])
    ensures Goal(Send(o, Conversion(rest[1], ap)), rest[2..], Left(rest[1], ap)) == Goal(o, rest, ap)
  {
    var shown, tail := Conversion(rest[1], ap), Render(rest[2..], Left(rest[1], ap));
    SendTwice(o, shown, tail);
    assert Render(rest, ap) == shown + tail;
  }

  lemma GoalReached(o: Output, rest: string, ap: seq<Arg>)
    requires WellFormed(o.log) && Match(rest, ap) && rest[0] == '\0'
    ensures Goal(o, rest, ap) == o && Stop(rest) == 0
  {
    SendOne(o, ' ');
  }

  class Console {
    const screen: Screen
    const port: Com1

    ghost predicate Valid()
      reads screen, screen.buffer
    {
      screen.Valid()
    }

    ghost function Out(): (o: Output)
      requires Valid()
      reads port, screen, screen.buffer
      ensures WellFormed(o.log)
    {
      Output(screen.log, port.sent)
    }

    constructor (screen: Screen, port: Com1)
      requires screen.Valid()
      ensures Valid() && this.screen == screen && this.port == port
    {
      this.screen := screen;
      this.port := port;
    }

    method Emit(c: char)
      requires Valid()
      modifies port, screen, screen.buffer
      ensures Valid() && Out() == Send(old(Out()), [c])
      ensures screen.log == Put(old(screen.log), c) && port.sent == old(port.sent) + [c]
    {
      SendOne(Out(), c);
      screen.PutChar(c);
      port.PutChar(c);
    }

    method EmitStr(p: CString)
      requires Valid() && (p.Text? ==> '\0' !in p.s)
      modifies port, screen, screen.buffer
      ensures Valid() && Out() == Send(old(Out()), Chars(p))
    {
      var s := if p.NullPointer? then "(null)\0" else p.s + "\0";
      var i := 0;
      ghost var n, start, sent := |s| - 1, Out(), "";
      SendOne(start, ' ');
      while s[i] != '\0'
        invariant 0 <= i <= n && Valid() && sent == s[..i] && Out() == Send(start, sent)
        decreases n - i
      {
        Emit(s[i]);
        SendTwice(start, sent, [s[i]]);
        sent := sent + [s[i]];
        i := i + 1;
      }
      assert s[..i] == Chars(p);
    }

    method EmitUint(value: u32, base: int, upper: bool)
      requires Valid() && 2 <= base <= 16
      modifies port, screen, screen.buffer
      ensures Valid() && Out() == Send(old(Out()), Digits(value, base, upper))
    {
      var buf := new char[32];
      if value == 0 {
        Emit('0');
        return;
      }
      var i := FillBackwards(buf, value, base, upper);
      EmitBackwards(buf, i);
    }

    /** The first loop of emit_uint: the last digit goes to the front. */
    static method FillBackwards(buf: array<char>, value: u32, base: int, upper: bool) returns (i: int)
      requires buf.Length == 32 && value > 0 && 2 <= base <= 16
      modifies buf
      ensures 0 <= i <= 32 && Reverse(buf[..i]) == Digits(value, base, upper)
    {
      i := 0;
      ghost var all, done := Digits(value, base, upper), "";
      BufferSuffices(value, base, upper);
      assert Rest(value, base, upper) + Reverse(done) == all;
      var v: int := value;
      while v > 0
        invariant 0 <= i == |done| <= |all| && 0 <= v
        invariant forall k :: 0 <= k < i ==> buf[k] == done[k]
        invariant Rest(v, base, upper) + Reverse(done) == all
      {
        var q, c := NextDigit(v, base, upper, done, all);
        done := done + [c];
        buf[i] := c;
        i, v := i + 1, q;
      }
      assert buf[..i] == done;
    }

    /** digits[val % base], and val /= base. */
    static method NextDigit(v: int, base: int, upper: bool, ghost done: string, ghost all: string)
      returns (q: int, c: char)
      requires 2 <= base <= 16 && v > 0 && Rest(v, base, upper) + Reverse(done) == all
      ensures 0 <= q < v && |done| < |all| && Rest(q, base, upper) + Reverse(done + [c]) == all
    {
      DivisionStep(v, base, upper, done, all);
      q, c := v / base, DigitChar(v % base, upper);
    }

    /** Its second loop. */
    method EmitBackwards(buf: array<char>, n: int)
      requires Valid() && 0 <= n <= buf.Length && buf as object != screen.buffer
      modifies port, screen, screen.buffer
      ensures Valid() && Out() == Send(old(Out()), Reverse(old(buf[..n])))
    {
      var i := n;
      ghost var held, sent, start := buf[..n], "", Out();
      ghost var all := Reverse(held);
      SendOne(start, ' ');
      assert held[..n] == held;
      while i > 0
        invariant 0 <= i <= n && Valid() && forall k :: 0 <= k < n ==> buf[k] == held[k]
        invariant Out() == Send(start, sent) && sent + Reverse(held[..i]) == all
      {
        i := i - 1;
        EmptyingStep(sent, held, i, all);
        Emit(buf[i]);
        SendTwice(start, sent, [held[i]]);
        sent := sent + [held[i]];
      }
      assert sent + Reverse(held[..0]) == sent;
    }

    method EmitInt(value: int)
      requires Valid() && -0x8000_0000 <= value < 0x8000_0000
      modifies port, screen, screen.buffer
      ensures Valid() && Out() == Send(old(Out()), SignedDigits(value))
    {
      ghost var start := Out();
      if value < 0 {
        var size := -value;
        Emit('-');
        EmitUint(size, 10, false);
        MinusFirst(start, size);
      } else {
        EmitUint(value, 10, false);
      }
    }

    /** One case of the switch; the character may be the terminator. */
    method Convert(c: char, args: seq<Arg>)
      requires Valid() && Accepts(c, args) && NoInnerNul(args)
      modifies port, screen, screen.buffer
      ensures Valid() && Out() == Send(old(Out()), Conversion(c, args))
    {
      match c
      case 'c' => Emit((args[0].w % 256) as char);
      case 's' => EmitStr(args[0].p);
      case 'd' => EmitInt(Signed(args[0].w));
      case 'u' => EmitUint(args[0].w, 10, false);
      case 'x' => EmitUint(args[0].w, 16, false);
      case 'X' => EmitUint(args[0].w, 16, true);
      case '%' => Emit('%');
      case _ =>
        Emit('%');
        Emit(c);
        SendTwice(old(Out()), "%", [c]);
        assert "%" + [c] == ['%', c];
    }

    /** One turn of the loop: a plain character or a conversion. */
    method Turn(mem: string, i: nat, ap: seq<Arg>) returns (j: nat, left: seq<Arg>)
      requires Valid() && i < |mem| && mem[i] != '\0' && Match(mem[i..], ap) && NoInnerNul(ap)
      modifies port, screen, screen.buffer
      ensures Valid() && i < j < |mem| && Match(mem[j..], left) && NoInnerNul(left)
      ensures j + Stop(mem[j..]) == i + Stop(mem[i..])
      ensures Goal(Out(), mem[j..], left) == Goal(old(Out()), mem[i..], ap)
    {
      ghost var rest := mem[i..];
      if mem[i] != '%' {
        PlainStep(Out(), rest, ap);
        assert rest[1..] == mem[i + 1..];
        Emit(mem[i]);
        j, left := i + 1, ap;
      } else {
        ConversionStep(Out(), rest, ap);
        assert rest[2..] == mem[i + 2..] && rest[1] == mem[i + 1];
        Convert(mem[i + 1], ap);
        j, left := i + 2, Left(mem[i + 1], ap);
      }
    }

    /** On memory from the format pointer on. Screen and serial line get the same rendering;
        stop is where the format pointer ends up. */
    method Printf(mem: string, args: seq<Arg>) returns (stop: nat)
      requires Valid() && Match(mem, args) && NoInnerNul(args)
      modifies port, screen, screen.buffer
      ensures Valid() && Out() == Send(old(Out()), Render(mem, args)) && stop == Stop(mem)
      ensures screen.log == PutAll(old(screen.log), Render(mem, args))
      ensures port.sent == old(port.sent) + Render(mem, args)
    {
      stop := 0;
      var ap := args;
      assert mem[0..] == mem;
      while mem[stop] != '\0'
        invariant Valid() && stop < |mem| && Match(mem[stop..], ap) && NoInnerNul(ap)
        invariant stop + Stop(mem[stop..]) == Stop(mem)
        invariant Goal(Out(), mem[stop..], ap) == Goal(old(Out()), mem, args)
        decreases |mem| - stop
      {
        stop, ap := Turn(mem, stop, ap);
      }
      GoalReached(Out(), mem[stop..], ap);
    }
  }
}
