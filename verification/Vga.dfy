/** drivers/vga.c: the 80 by 25 text buffer, updated in place. */
module Vga {
  import opened Words
  import opened VgaLog

  class Screen {
    const buffer: array<Cell>
    var row: int
    var col: int
    var color: u8
    ghost var log: Log

    /** The buffer shows the last 25 rows of the log, and the cursors agree. */
    ghost predicate Valid()
      reads this, buffer
    {
      && buffer.Length == WIDTH * HEIGHT && WellFormed(log)
      && row == log.row && col == log.col && color == log.color
      && Shows(buffer[..], log)
    }

    /** The buffer holds whatever the firmware left there. */
    constructor (firmware: seq<Cell>)
      requires |firmware| == WIDTH * HEIGHT
      ensures Valid() && fresh(buffer)
      ensures log == Log(Screenful(firmware), 0, 0, 0)
    {
      buffer := new Cell[WIDTH * HEIGHT](i requires 0 <= i < |firmware| => firmware[i]);
      row, col, color := 0, 0, 0;
      log := Log(Screenful(firmware), 0, 0, 0);
    }

    /** vga_scroll, entered with the cursor just below the last row. */
    method Scroll()
      requires buffer.Length == WIDTH * HEIGHT
      modifies this`row, buffer
      ensures row == HEIGHT - 1
      ensures buffer[..] == old(buffer[..])[WIDTH..] + BlankRow(color)
    {
      for y := 0 to HEIGHT - 1
        invariant forall i :: 0 <= i < WIDTH * y ==> buffer[i] == old(buffer[i + WIDTH])
        invariant forall i :: WIDTH * y <= i < WIDTH * HEIGHT ==> buffer[i] == old(buffer[i])
      {
        CopyRowUp(y);
      }
      BlankLastRow();
      row := HEIGHT - 1;
    }

    /** Its inner loop. */
    method CopyRowUp(y: int)
      requires buffer.Length == WIDTH * HEIGHT && 0 <= y < HEIGHT - 1
      modifies buffer
      ensures forall i :: WIDTH * y <= i < WIDTH * (y + 1) ==> buffer[i] == old(buffer[i + WIDTH])
      ensures forall i :: 0 <= i < WIDTH * y || WIDTH * (y + 1) <= i < WIDTH * HEIGHT ==> buffer[i] == old(buffer[i])
    {
      for x := 0 to WIDTH
        invariant forall i :: WIDTH * y <= i < WIDTH * y + x ==> buffer[i] == old(buffer[i + WIDTH])
        invariant forall i :: 0 <= i < WIDTH * y || WIDTH * y + x <= i < WIDTH * HEIGHT ==> buffer[i] == old(buffer[i])
      {
        buffer[y * WIDTH + x] := buffer[(y + 1) * WIDTH + x];
      }
    }

    /** Its second loop. */
    method BlankLastRow()
      requires buffer.Length == WIDTH * HEIGHT
      modifies buffer
      ensures buffer[..] == old(buffer[..])[..WIDTH * (HEIGHT - 1)] + BlankRow(color)
    {
      for x := 0 to WIDTH
        invariant forall i :: 0 <= i < WIDTH * (HEIGHT - 1) ==> buffer[i] == old(buffer[i])
        invariant forall i :: WIDTH * (HEIGHT - 1) <= i < WIDTH * (HEIGHT - 1) + x ==>
                    buffer[i] == MakeEntry(' ', color)
      {
        buffer[(HEIGHT - 1) * WIDTH + x] := MakeEntry(' ', color);
      }
    }

    method Clear()
      requires Valid()
      modifies this`row, this`col, this`log, buffer
      ensures Valid() && log == Cleared(old(log))
      ensures row == 0 && col == 0
      ensures forall i :: 0 <= i < WIDTH * HEIGHT ==> buffer[i] == MakeEntry(' ', color)
    {
      row := 0;
      col := 0;
      for y := 0 to HEIGHT
        modifies buffer
        invariant forall i :: 0 <= i < WIDTH * y ==> buffer[i] == MakeEntry(' ', color)
      {
        for x := 0 to WIDTH
          modifies buffer
          invariant forall i :: 0 <= i < WIDTH * y + x ==> buffer[i] == MakeEntry(' ', color)
        {
          buffer[y * WIDTH + x] := MakeEntry(' ', color);
        }
      }
      log := Cleared(log);
    }

    method Init()
      requires Valid()
      modifies this, buffer
      ensures Valid() && log == Cleared(old(log).(color := MakeColor(7, 0)))
      ensures forall i :: 0 <= i < WIDTH * HEIGHT ==> buffer[i] == MakeEntry(' ', MakeColor(7, 0))
    {
      SetColor(7, 0);
      Clear();
    }

    method SetColor(fg: Color, bg: Color)
      requires Valid()
      modifies this`color, this`log
      ensures Valid() && log == Apply(old(log), VgaLog.SetColor(fg, bg)) && color == MakeColor(fg, bg)
    {
      color := MakeColor(fg, bg);
      log := log.(color := color);
      ShowsIgnoresCursor(buffer[..], old(log), log);
    }

    /** ++vga_row, and the scroll when it runs off the screen. */
    method NewLine()
      requires Valid()
      modifies this`row, this`col, this`log, buffer
      ensures Valid() && log == NextLine(old(log))
    {
      ghost var was := buffer[..];
      col := 0;
      row := row + 1;
      log := NextLine(log);
      if row == HEIGHT {
        Scroll();
        ScrollShows(was, old(log));
      } else {
        ShowsIgnoresCursor(was, old(log), log);
      }
    }

    method PutChar(c: char)
      requires Valid()
      modifies this`row, this`col, this`log, buffer
      ensures Valid() && log == Put(old(log), c)
    {
      if c == '\n' {
        NewLine();
        return;
      }
      if c == '\r' {
        col := 0;
        log := log.(col := 0);
        ShowsIgnoresCursor(buffer[..], old(log), log);
        return;
      }
      ghost var was := buffer[..];
      buffer[row * WIDTH + col] := MakeEntry(c, color);
      DrawShows(was, log, c);
      log := Drawn(log, c);
      if col + 1 == WIDTH {
        NewLine();
      } else {
        col := col + 1;
        ghost var drawn := log;
        log := log.(col := col);
        ShowsIgnoresCursor(buffer[..], drawn, log);
      }
    }

    /** Any sequence of calls: the buffer goes on showing the last 25 rows of the log that the
        same sequence makes. */
    method Play(ops: seq<Op>)
      requires Valid()
      modifies this`row, this`col, this`color, this`log, buffer
      ensures Valid() && log == ApplyAll(old(log), ops)
    {
      assert ops[0..] == ops;
      for i := 0 to |ops|
        invariant Valid() && ApplyAll(log, ops[i..]) == ApplyAll(old(log), ops)
      {
        ApplyLast(log, ops, i);
        match ops[i]
        case PutChar(c) => PutChar(c);
        case SetColor(fg, bg) => SetColor(fg, bg);
        case Clear => Clear();
      }
    }

    /** vga_puts on a string and its terminator. */
    method Puts(str: string)
      requires Valid() && |str| > 0 && str[|str| - 1] == '\0'
      requires forall i :: 0 <= i < |str| - 1 ==> str[i] != '\0'
      modifies this`row, this`col, this`log, buffer
      ensures Valid() && log == PutAll(old(log), str[..|str| - 1])
    {
      var i := 0;
      while str[i] != '\0'
        invariant 0 <= i < |str| && Valid() && log == PutAll(old(log), str[..i])
        decreases |str| - i
      {
        PutChar(str[i]);
        assert str[..i + 1][..i] == str[..i];
        i := i + 1;
      }
    }
  }

  /** The firmware's screen cut into rows. */
  function Screenful(cells: seq<Cell>): seq<seq<Cell>>
    requires |cells| == WIDTH * HEIGHT
  {
    seq(HEIGHT, y requires 0 <= y < HEIGHT => cells[WIDTH * y..WIDTH * (y + 1)])
  }

  ghost predicate Shows(cells: seq<Cell>, log: Log)
    requires WellFormed(log)
  {
    |cells| == WIDTH * HEIGHT &&
    forall y, x :: 0 <= y < HEIGHT && 0 <= x < WIDTH ==> cells[WIDTH * y + x] == Shown(log, y, x)
  }

  /** The log after the character is drawn, before the cursor moves. */
  ghost function Drawn(log: Log, c: char): Log
    requires WellFormed(log)
  {
    var line := log.rows[CursorRow(log)];
    log.(rows := log.rows[CursorRow(log) := line[log.col := MakeEntry(c, log.color)]])
  }

  lemma ShowsIgnoresCursor(cells: seq<Cell>, a: Log, b: Log)
    requires WellFormed(a) && WellFormed(b) && Shows(cells, a) && a.rows == b.rows
    ensures Shows(cells, b)
  {
    assert forall y, x :: 0 <= y < HEIGHT && 0 <= x < WIDTH ==> Shown(a, y, x) == Shown(b, y, x);
  }

  lemma ScrollShows(cells: seq<Cell>, log: Log)
    requires WellFormed(log) && Shows(cells, log) && log.row == HEIGHT - 1
    ensures WellFormed(NextLine(log)) && Shows(cells[WIDTH..] + BlankRow(log.color), NextLine(log))
  {
    var next, scrolled := NextLine(log), cells[WIDTH..] + BlankRow(log.color);
    forall y, x | 0 <= y < HEIGHT && 0 <= x < WIDTH
      ensures scrolled[WIDTH * y + x] == Shown(next, y, x)
    {
      if y < HEIGHT - 1 { assert Shown(next, y, x) == Shown(log, y + 1, x); }
    }
  }

  lemma DrawShows(cells: seq<Cell>, log: Log, c: char)
    requires WellFormed(log) && Shows(cells, log)
    ensures WellFormed(Drawn(log, c))
    ensures Shows(cells[log.row * WIDTH + log.col := MakeEntry(c, log.color)], Drawn(log, c))
  {
    var drawn := Drawn(log, c);
    forall y, x | 0 <= y < HEIGHT && 0 <= x < WIDTH
      ensures cells[log.row * WIDTH + log.col := MakeEntry(c, log.color)][WIDTH * y + x] == Shown(drawn, y, x)
    {
      if y != log.row || x != log.col { assert Shown(drawn, y, x) == Shown(log, y, x); }
    }
  }
}
