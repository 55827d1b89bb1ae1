/** The console as an unbounded log of 80-column rows of which the screen shows the last 25. */
module VgaLog {
  import opened Words

  const WIDTH: int := 80
  const HEIGHT: int := 25

  type Cell = int

  /** make_entry: the operands share no bits. */
  function MakeEntry(c: char, color: u8): Cell
  {
    c as int % 256 + 256 * color
  }

  /** vga_color_t: the sixteen VGA colours. */
  type Color = c: int | 0 <= c < 16

  function MakeColor(fg: Color, bg: Color): u8
  {
    fg + 16 * bg
  }

  /** Character and colours can be read back from a cell: character in the low byte, foreground
      in the low half of the attribute and background in the high half. */
  lemma CellReadsBack(c: char, fg: Color, bg: Color)
    ensures var cell := MakeEntry(c, MakeColor(fg, bg));
            && 0 <= cell < 0x1_0000 && cell % 0x100 == c as int % 0x100
            && cell / 0x100 % 0x10 == fg && cell / 0x1000 == bg
  {
  }

  /** Rows written so far, and the cursor as row and column of the screen. */
  datatype Log = Log(rows: seq<seq<Cell>>, row: nat, col: nat, color: u8)

  predicate WellFormed(log: Log)
  {
    |log.rows| >= HEIGHT && (forall r :: 0 <= r < |log.rows| ==> |log.rows[r]| == WIDTH)
    && log.row < HEIGHT && log.col < WIDTH
  }

  function BlankRow(color: u8): seq<Cell>
  {
    seq(WIDTH, _ => MakeEntry(' ', color))
  }

  /** The log's row under the cursor. */
  function CursorRow(log: Log): int
  {
    |log.rows| - HEIGHT + log.row
  }

  function NextLine(log: Log): Log
  {
    if log.row + 1 == HEIGHT then log.(rows := log.rows + [BlankRow(log.color)], col := 0)
    else log.(row := log.row + 1, col := 0)
  }

  /** vga_putchar on the log. */
  function Put(log: Log, c: char): (r: Log)
    requires WellFormed(log)
    ensures WellFormed(r)
  {
    if c == '\n' then NextLine(log)
    else if c == '\r' then log.(col := 0)
    else
      var line := log.rows[CursorRow(log)];
      var drawn := log.(rows := log.rows[CursorRow(log) := line[log.col := MakeEntry(c, log.color)]]);
      if log.col + 1 == WIDTH then NextLine(drawn) else drawn.(col := log.col + 1)
  }

  /** vga_clear starts a new screen below everything written so far. */
  function Cleared(log: Log): (r: Log)
    requires WellFormed(log)
    ensures WellFormed(r)
  {
    log.(rows := log.rows + seq(HEIGHT, _ => BlankRow(log.color)), row := 0, col := 0)
  }

  function PutAll(log: Log, s: string): (r: Log)
    requires WellFormed(log)
    ensures WellFormed(r)
  {
    if s == "" then log else Put(PutAll(log, s[..|s| - 1]), s[|s| - 1])
  }

  lemma {:induction false} PutAllAppends(log: Log, s: string, t: string)
    requires WellFormed(log)
    ensures PutAll(log, s + t) == PutAll(PutAll(log, s), t)
  {
    if t == "" {
      assert s + t == s;
    } else {
      assert (s + t)[..|s + t| - 1] == s + t[..|t| - 1];
      PutAllAppends(log, s, t[..|t| - 1]);
    }
  }

  /** What the screen shows at row y, column x. */
  function Shown(log: Log, y: int, x: int): Cell
    requires WellFormed(log) && 0 <= y < HEIGHT && 0 <= x < WIDTH
  {
    log.rows[|log.rows| - HEIGHT + y][x]
  }

  /** A cleared screen is blank in every cell, and the cursor is home. */
  lemma ClearedIsBlank(log: Log)
    requires WellFormed(log)
    ensures var r := Cleared(log);
            && r.row == 0 && r.col == 0 && r.color == log.color && |r.rows| == |log.rows| + HEIGHT
            && forall y, x :: 0 <= y < HEIGHT && 0 <= x < WIDTH ==> Shown(r, y, x) == MakeEntry(' ', log.color)
  {
  }

  /** The screen shows the end of the log read as one line. */
  lemma ShownIsLinear(log: Log, y: int, x: int)
    requires WellFormed(log) && 0 <= y < HEIGHT && 0 <= x < WIDTH
    ensures var p := WIDTH * (|log.rows| - HEIGHT + y) + x;
            0 <= p < WIDTH * |log.rows| && Shown(log, y, x) == Linear(log, p)
  {
    var p := WIDTH * (|log.rows| - HEIGHT + y) + x;
    assert p / WIDTH == |log.rows| - HEIGHT + y && p % WIDTH == x;
  }

  /** A character ends its line when it is a line feed or lands in the last column. */
  predicate EndsLine(log: Log, c: char)
  {
    c == '\n' || (c != '\r' && log.col == 79)
  }

  /** Where the cursor goes on the screen, and when the screen scrolls: for the end of its last
      line, and only then. */
  lemma CursorMoves(log: Log, c: char)
    requires WellFormed(log)
    ensures var r := Put(log, c);
            && r.row == (if EndsLine(log, c) && log.row < 24 then log.row + 1 else log.row)
            && r.col == (if EndsLine(log, c) || c == '\r' then 0 else log.col + 1)
            && |r.rows| == |log.rows| + (if EndsLine(log, c) && log.row == 24 then 1 else 0)
  {
  }

  /** Every character but these two is drawn where the cursor was, in the current colour. */
  lemma CharacterIsDrawn(log: Log, c: char)
    requires WellFormed(log) && c != '\n' && c != '\r'
    ensures CursorRow(log) < |Put(log, c).rows|
    ensures Put(log, c).rows[CursorRow(log)][log.col] == MakeEntry(c, log.color)
  {
  }

  datatype Op = PutChar(c: char) | SetColor(fg: Color, bg: Color) | Clear

  function Apply(log: Log, op: Op): (r: Log)
    requires WellFormed(log)
    ensures WellFormed(r)
  {
    match op
    case PutChar(c) => Put(log, c)
    case SetColor(fg, bg) => log.(color := MakeColor(fg, bg))
    case Clear => Cleared(log)
  }

  function ApplyAll(log: Log, ops: seq<Op>): (r: Log)
    requires WellFormed(log)
    ensures WellFormed(r)
    decreases |ops|
  {
    if ops == [] then log else ApplyAll(Apply(log, ops[0]), ops[1..])
  }

  lemma ApplyLast(log: Log, ops: seq<Op>, i: nat)
    requires WellFormed(log) && i < |ops|
    ensures ApplyAll(log, ops[i..]) == ApplyAll(Apply(log, ops[i]), ops[i + 1..])
  {
    assert ops[i..][1..] == ops[i + 1..];
  }

  lemma {:induction false} ApplyAppends(log: Log, a: seq<Op>, b: seq<Op>)
    requires WellFormed(log)
    ensures ApplyAll(log, a + b) == ApplyAll(ApplyAll(log, a), b)
    decreases |a|
  {
    if a == [] {
      assert a + b == b;
    } else {
      assert (a + b)[1..] == a[1..] + b;
      ApplyAppends(Apply(log, a[0]), a[1..], b);
    }
  }

  function Characters(s: string): (ops: seq<Op>)
    ensures |ops| == |s|
  {
    seq(|s|, i requires 0 <= i < |s| => PutChar(s[i]))
  }

  /** Operations on single characters write text. */
  lemma {:induction false} TextIsPlayed(log: Log, s: string)
    requires WellFormed(log)
    ensures ApplyAll(log, Characters(s)) == PutAll(log, s)
  {
    if s != "" {
      var n := |s| - 1;
      TextIsPlayed(log, s[..n]);
      assert Characters(s) == Characters(s[..n]) + [PutChar(s[n])];
      ApplyAppends(log, Characters(s[..n]), [PutChar(s[n])]);
      assert ApplyAll(Put(PutAll(log, s[..n]), s[n]), []) == PutAll(log, s);
    }
  }

  /** Rows above the cursor are final: no later operation changes one or moves the cursor
      back into it. What the screen loses at the top it loses only by moving up. */
  lemma {:induction false} HistoryIsFinal(log: Log, ops: seq<Op>)
    requires WellFormed(log)
    ensures var r := ApplyAll(log, ops);
            && |r.rows| >= |log.rows| && CursorRow(r) >= CursorRow(log)
            && r.rows[..CursorRow(log)] == log.rows[..CursorRow(log)]
    decreases |ops|
  {
    if ops != [] {
      var next := Apply(log, ops[0]);
      assert CursorRow(next) >= CursorRow(log) && next.rows[..CursorRow(log)] == log.rows[..CursorRow(log)];
      HistoryIsFinal(next, ops[1..]);
      var r := ApplyAll(next, ops[1..]);
      assert r.rows[..CursorRow(log)] == r.rows[..CursorRow(next)][..CursorRow(log)];
      assert next.rows[..CursorRow(log)] == next.rows[..CursorRow(next)][..CursorRow(log)];
    }
  }

  /** The log read as one line, row after row. */
  function Linear(log: Log, p: int): Cell
    requires WellFormed(log) && 0 <= p < WIDTH * |log.rows|
  {
    log.rows[p / WIDTH][p % WIDTH]
  }

  function Position(log: Log): int
  {
    WIDTH * CursorRow(log) + log.col
  }

  predicate Printable(c: char)
  {
    c != '\n' && c != '\r'
  }

  /** Where a character takes the cursor on the one long line. */
  function Move(p: int, c: char): int
  {
    if c == '\n' then p - p % WIDTH + WIDTH else if c == '\r' then p - p % WIDTH else p + 1
  }

  function Path(p: int, s: string): int
  {
    if s == "" then p else Move(Path(p, s[..|s| - 1]), s[|s| - 1])
  }

  datatype Ink = Blank | Ink(c: char)

  /** The last character that text written from p on leaves at q. */
  function InkAt(p: int, s: string, q: int): Ink
  {
    if s == "" then Blank
    else
      var before := s[..|s| - 1];
      if Printable(s[|s| - 1]) && Path(p, before) == q then Ink(s[|s| - 1]) else InkAt(p, before, q)
  }

  /** The cell a fresh row has, or the one already there. */
  function Under(log: Log, q: int): Cell
    requires WellFormed(log) && 0 <= q
  {
    if q < WIDTH * |log.rows| then Linear(log, q) else MakeEntry(' ', log.color)
  }

  lemma PutOnLine(log: Log, c: char)
    requires WellFormed(log)
    ensures var r := Put(log, c);
            && Position(r) == Move(Position(log), c) && r.color == log.color && |r.rows| >= |log.rows|
            && forall q :: 0 <= q < WIDTH * |r.rows| ==>
                 Linear(r, q) == if Printable(c) && q == Position(log) then MakeEntry(c, log.color) else Under(log, q)
  {
    var r := Put(log, c);
    assert Position(log) / WIDTH == CursorRow(log) && Position(log) % WIDTH == log.col;
    forall q | 0 <= q < WIDTH * |r.rows|
      ensures Linear(r, q) == if Printable(c) && q == Position(log) then MakeEntry(c, log.color) else Under(log, q)
    {
      assert q == Position(log) <==> q / WIDTH == CursorRow(log) && q % WIDTH == log.col;
    }
  }

  /** Any text, with its line ends, returns, wraps and scrolls, leaves in every cell of the
      log the last character written there, and elsewhere what was there, or blank in rows
      that it scrolled in. */
  lemma {:induction false} TextIsRendered(log: Log, s: string)
    requires WellFormed(log)
    ensures var r := PutAll(log, s);
            && Position(r) == Path(Position(log), s) && r.color == log.color && |r.rows| >= |log.rows|
            && forall q :: 0 <= q < WIDTH * |r.rows| ==>
                 Linear(r, q) == match InkAt(Position(log), s, q)
                                 case Ink(c) => MakeEntry(c, log.color)
                                 case Blank => Under(log, q)
  {
    if s != "" {
      var n := |s| - 1;
      var before := PutAll(log, s[..n]);
      TextIsRendered(log, s[..n]);
      PutOnLine(before, s[n]);
      forall q | 0 <= q < WIDTH * |PutAll(log, s).rows|
        ensures Linear(PutAll(log, s), q) == match InkAt(Position(log), s, q)
                                             case Ink(c) => MakeEntry(c, log.color)
                                             case Blank => Under(log, q)
      {
        if q >= WIDTH * |before.rows| { NoInkBeyond(log, s[..n], q); }
      }
    }
  }

  /** Nothing is written below the last row. */
  lemma {:induction false} NoInkBeyond(log: Log, s: string, q: int)
    requires WellFormed(log) && q >= WIDTH * |PutAll(log, s).rows|
    ensures InkAt(Position(log), s, q) == Blank
  {
    if s != "" {
      var n := |s| - 1;
      var before := PutAll(log, s[..n]);
      PutOnLine(before, s[n]);
      NoInkBeyond(log, s[..n], q);
      PositionFollows(log, s[..n]);
    }
  }

  lemma {:induction false} PositionFollows(log: Log, s: string)
    requires WellFormed(log)
    ensures Position(PutAll(log, s)) == Path(Position(log), s)
  {
    if s != "" {
      PositionFollows(log, s[..|s| - 1]);
      PutOnLine(PutAll(log, s[..|s| - 1]), s[|s| - 1]);
    }
  }
}
