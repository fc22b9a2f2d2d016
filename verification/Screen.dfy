/** The VGA text writer (kernel/src/vga.rs). */
module Screen {
  import opened FsTypes

  const HEIGHT := 25
  const WIDTH := 80
  const NEWLINE: byte := 10
  const SPACE: byte := 32
  const UNPRINTABLE: byte := 0xfe

  datatype ScreenChar = ScreenChar(character: byte, color: byte)

  type Row = seq<ScreenChar>

  // ---------------------------------------------------------------------
  // The unbounded log
  // ---------------------------------------------------------------------

  /** Every row ever started, oldest first; writing happens in the last one. */
  datatype Log = Log(rows: seq<Row>, column: nat, color: byte)

  ghost predicate LogOk(l: Log) {
    && |l.rows| >= HEIGHT
    && l.column <= WIDTH
    && forall i :: 0 <= i < |l.rows| ==> |l.rows[i]| == WIDTH
  }

  function BlankRow(color: byte): Row {
    seq(WIDTH, i => ScreenChar(SPACE, color))
  }

  function LogNewLine(l: Log): Log {
    l.(rows := l.rows + [BlankRow(l.color)], column := 0)
  }

  /** Puts a character at the cursor of the last row. */
  function Put(l: Log, b: byte): (l': Log)
    requires LogOk(l) && l.column < WIDTH
    ensures LogOk(l')
  {
    var last := |l.rows| - 1;
    l.(rows := l.rows[last := l.rows[last][l.column := ScreenChar(b, l.color)]], column := l.column + 1)
  }

  function LogByte(l: Log, b: byte): (l': Log)
    requires LogOk(l)
    ensures LogOk(l')
  {
    if b == NEWLINE then LogNewLine(l)
    else Put(if l.column >= WIDTH then LogNewLine(l) else l, b)
  }

  /** Bytes outside printable ASCII show as a block. */
  function Printable(b: byte): byte {
    if 0x20 <= b <= 0x7e || b == NEWLINE then b else UNPRINTABLE
  }

  function LogString(l: Log, s: seq<byte>): (l': Log)
    requires LogOk(l)
    ensures LogOk(l')
  {
    if s == [] then l else LogByte(LogString(l, s[..|s| - 1]), Printable(s[|s| - 1]))
  }

  // ---------------------------------------------------------------------
  // The writer
  // ---------------------------------------------------------------------

  class Writer {
    const buffer: array2<ScreenChar>
    var column: nat
    var color: byte
    ghost var rows: seq<Row>

    ghost function Value(): Log
      reads this
    {
      Log(rows, column, color)
    }

    /** The row of the log shown in row `r` of the grid. */
    static function Shown(rows: seq<Row>, r: nat): Row
      requires r < HEIGHT <= |rows|
    {
      rows[|rows| - HEIGHT + r]
    }

    /** The grid is the last rows of the log. */
    ghost predicate Valid()
      reads this, buffer
    {
      && buffer.Length0 == 25 && buffer.Length1 == 80
      && LogOk(Value())
      && forall r, c :: 0 <= r < HEIGHT && 0 <= c < WIDTH ==> buffer[r, c] == Shown(rows, r)[c]
    }

    /** Takes over the video memory with whatever it shows. */
    constructor (buffer: array2<ScreenChar>, color: byte)
      requires buffer.Length0 == 25 && buffer.Length1 == 80
      ensures Valid() && this.buffer == buffer && column == 0 && this.color == color
    {
      this.buffer := buffer;
      this.column, this.color := 0, color;
      rows := seq(HEIGHT, r requires 0 <= r < HEIGHT reads buffer =>
                            seq(WIDTH, c requires 0 <= c < WIDTH reads buffer => buffer[r, c]));
    }

    /** Shifts every row up by one, in place. */
    method ShiftUp()
      requires buffer.Length0 == HEIGHT && buffer.Length1 == WIDTH
      modifies buffer
      ensures forall r, c :: 0 <= r < HEIGHT - 1 && 0 <= c < WIDTH ==> buffer[r, c] == old(buffer[r + 1, c])
    {
      var row := 1;
      while row < HEIGHT
        invariant 1 <= row <= HEIGHT
        invariant forall r, c :: 0 <= r < row - 1 && 0 <= c < WIDTH ==> buffer[r, c] == old(buffer[r + 1, c])
        invariant forall r, c :: row - 1 <= r < HEIGHT && 0 <= c < WIDTH ==> buffer[r, c] == old(buffer[r, c])
      {
        var col := 0;
        while col < WIDTH
          invariant 0 <= col <= WIDTH
          invariant forall r, c :: 0 <= r < row - 1 && 0 <= c < WIDTH ==> buffer[r, c] == old(buffer[r + 1, c])
          invariant forall c :: 0 <= c < col ==> buffer[row - 1, c] == old(buffer[row, c])
          invariant forall r, c :: row <= r < HEIGHT && 0 <= c < WIDTH ==> buffer[r, c] == old(buffer[r, c])
        {
          buffer[row - 1, col] := buffer[row, col];
          col := col + 1;
        }
        row := row + 1;
      }
    }

    method ClearRow(row: nat)
      requires row < HEIGHT && buffer.Length0 == HEIGHT && buffer.Length1 == WIDTH
      modifies buffer
      ensures forall c :: 0 <= c < WIDTH ==> buffer[row, c] == ScreenChar(SPACE, color)
      ensures forall r, c :: 0 <= r < HEIGHT && r != row && 0 <= c < WIDTH ==> buffer[r, c] == old(buffer[r, c])
    {
      var col := 0;
      while col < WIDTH
        invariant 0 <= col <= WIDTH
        invariant forall c :: 0 <= c < col ==> buffer[row, c] == ScreenChar(SPACE, color)
        invariant forall r, c :: 0 <= r < HEIGHT && r != row && 0 <= c < WIDTH ==> buffer[r, c] == old(buffer[r, c])
      {
        buffer[row, col] := ScreenChar(SPACE, color);
        col := col + 1;
      }
    }

    /** Scrolling starts a row in the log and loses only what leaves the screen. */
    method NewLine()
      requires Valid()
      modifies this, buffer
      ensures Valid() && Value() == LogNewLine(old(Value()))
    {
      ghost var was := rows;
      ShiftUp();
      ClearRow(HEIGHT - 1);
      column := 0;
      rows := was + [BlankRow(color)];
      assert forall r :: 0 <= r < HEIGHT - 1 ==> Shown(rows, r) == Shown(was, r + 1);
    }

    method WriteByte(b: byte)
      requires Valid()
      modifies this, buffer
      ensures Valid() && Value() == LogByte(old(Value()), b)
    {
      if b == NEWLINE {
        NewLine();
        return;
      }
      if column >= WIDTH {
        NewLine();
      }
      ghost var before := Value();
      buffer[HEIGHT - 1, column] := ScreenChar(b, color);
      rows := Put(before, b).rows;
      column := column + 1;
    }

    method WriteString(s: seq<byte>)
      requires Valid()
      modifies this, buffer
      ensures Valid() && Value() == LogString(old(Value()), s)
    {
      var i := 0;
      while i < |s|
        invariant 0 <= i <= |s| && Valid()
        invariant Value() == LogString(old(Value()), s[..i])
      {
        assert s[..i + 1][..i] == s[..i] && s[..i + 1][i] == s[i];
        if 0x20 <= s[i] <= 0x7e || s[i] == NEWLINE {
          WriteByte(s[i]);
        } else {
          WriteByte(UNPRINTABLE);
        }
        i := i + 1;
      }
      assert s[..i] == s;
    }

    /** Moves the cursor within the current line. */
    method SetColumnPosition(position: byte)
      requires Valid()
      modifies this`column
      ensures Valid()
      ensures Value() == old(Value()).(column := if position as int < WIDTH then position as int else WIDTH)
    {
      column := if position as int < WIDTH then position as int else WIDTH;
    }
  }

  // ---------------------------------------------------------------------
  // Where text lands
  // ---------------------------------------------------------------------

  predicate OneLine(s: seq<byte>) {
    forall i :: 0 <= i < |s| ==> s[i] != 10
  }

  /** What a byte of text looks like: printable ASCII as itself, others as a block. */
  function Glyph(b: byte, color: byte): ScreenChar {
    ScreenChar(if 0x20 <= b <= 0x7e then b else 0xfe, color)
  }

  function Blank(color: byte): ScreenChar {
    ScreenChar(0x20, color)
  }

  /** Text without newlines wraps at the width: it starts exactly as many rows as
      it overflows, and ends in the column after its last character. */
  lemma {:induction false} TextWraps(l: Log, s: seq<byte>)
    requires LogOk(l) && OneLine(s) && s != []
    ensures var l' := LogString(l, s);
            && |l'.rows| == |l.rows| + (l.column + |s| - 1) / 80
            && l'.column == (l.column + |s| - 1) % 80 + 1
            && l'.color == l.color
  {
    var n := |s| - 1;
    if n > 0 {
      TextWraps(l, s[..n]);
    }
  }

  /** A byte other than a newline changes one cell, if need be on a new blank row. */
  lemma ByteCell(l: Log, b: byte, row: nat, col: nat)
    requires LogOk(l) && b != 10 && row < |LogByte(l, b).rows| && col < 80
    ensures var l' := LogByte(l, b);
            l'.rows[row][col] ==
            if row == |l'.rows| - 1 && col == l'.column - 1 then ScreenChar(b, l.color)
            else if row < |l.rows| then l.rows[row][col]
            else Blank(l.color)
  {
  }

  /** What every cell of the log shows after such a text: the text, laid out from
      the cursor on; to its left and above what was there before; to its right,
      on the row it began in, what was there before, and on later rows blanks. */
  lemma {:induction false} TextLayout(l: Log, s: seq<byte>, row: nat, col: nat)
    requires LogOk(l) && OneLine(s) && row < |LogString(l, s).rows| && col < 80
    ensures var l' := LogString(l, s);
            var at := (row - (|l.rows| - 1)) * 80 + col - l.column;
            l'.rows[row][col] ==
            if 0 <= at < |s| then Glyph(s[at], l.color)
            else if row < |l.rows| then l.rows[row][col]
            else Blank(l.color)
    decreases |s|
  {
    hide LogByte;
    if s != [] {
      var n := |s| - 1;
      var before := s[..n];
      TextWraps(l, s);
      if n > 0 {
        TextWraps(l, before);
      }
      var l1 := LogString(l, before);
      ByteCell(l1, Printable(s[n]), row, col);
      if row < |l1.rows| {
        TextLayout(l, before, row, col);
      }
    }
  }

  // ---------------------------------------------------------------------
  // Any text, line by line
  // ---------------------------------------------------------------------

  lemma {:induction false} LogAppend(l: Log, a: seq<byte>, b: seq<byte>)
    requires LogOk(l)
    ensures LogString(l, a + b) == LogString(LogString(l, a), b)
    decreases |b|
  {
    hide LogByte;
    if b == [] {
      assert a + b == a;
    } else {
      var n := |b| - 1;
      assert (a + b)[..|a + b| - 1] == a + b[..n] && (a + b)[|a + b| - 1] == b[n];
      LogAppend(l, a, b[..n]);
    }
  }

  /** A newline starts a blank row at its first column and leaves the others alone. */
  lemma NewlineStarts(l: Log)
    requires LogOk(l)
    ensures var l' := LogString(l, [10]);
            && |l'.rows| == |l.rows| + 1 && l'.rows[..|l.rows|] == l.rows
            && (forall col :: 0 <= col < 80 ==> l'.rows[|l.rows|][col] == Blank(l.color))
            && l'.column == 0 && l'.color == l.color
  {
    assert [10 as byte][..0] == [];
  }

  /** The row a text begins in is the first that it changes. */
  lemma {:induction false} RowsStay(l: Log, s: seq<byte>)
    requires LogOk(l)
    ensures var l' := LogString(l, s);
            && |l'.rows| >= |l.rows| && l'.color == l.color
            && l'.rows[..|l.rows| - 1] == l.rows[..|l.rows| - 1]
  {
    if s != [] {
      RowsStay(l, s[..|s| - 1]);
    }
  }

  /** Where the first line of a text ends. */
  function LineEnd(s: seq<byte>): (k: nat)
    ensures k <= |s| && OneLine(s[..k]) && (k < |s| ==> s[k] == 10)
  {
    if s == [] || s[0] == 10 then 0
    else
      var k := LineEnd(s[1..]);
      assert s[..k + 1] == [s[0]] + s[1..][..k];
      k + 1
  }

  /** The rows a text starts: one per newline, and the wraps of each line. */
  function RowsStarted(column: nat, s: seq<byte>): nat
    decreases |s|
  {
    var k := LineEnd(s);
    var wraps := if k == 0 then 0 else (column + k - 1) / 80;
    wraps + if k == |s| then 0 else 1 + RowsStarted(0, s[k + 1..])
  }

  /** The column after a text: that of its last line. */
  function EndColumn(column: nat, s: seq<byte>): nat
    decreases |s|
  {
    var k := LineEnd(s);
    if k < |s| then EndColumn(0, s[k + 1..]) else if s == [] then column else (column + |s| - 1) % 80 + 1
  }

  /** A text up to a newline, the newline, and the rest. */
  lemma CutAtNewline(l: Log, a: seq<byte>, b: seq<byte>)
    requires LogOk(l)
    ensures LogString(l, a + [10] + b) == LogString(LogString(LogString(l, a), [10]), b)
  {
    hide LogString;
    LogAppend(l, a + [10], b);
    LogAppend(l, a, [10]);
  }

  lemma {:induction false} AnyTextWraps(l: Log, s: seq<byte>)
    requires LogOk(l)
    ensures var l' := LogString(l, s);
            |l'.rows| == |l.rows| + RowsStarted(l.column, s) && l'.column == EndColumn(l.column, s)
    decreases |s|
  {
    hide LogByte;
    var k := LineEnd(s);
    if k > 0 {
      TextWraps(l, s[..k]);
    }
    if k < |s| {
      CutAtNewline(l, s[..k], s[k + 1..]);
      assert s == s[..k] + [10] + s[k + 1..];
      var l1 := LogString(l, s[..k]);
      assert k == 0 ==> s[..k] == [];
      NewlineStarts(l1);
      AnyTextWraps(LogString(l1, [10]), s[k + 1..]);
    } else {
      assert s[..k] == s;
    }
  }

  /** After any text, a newline lays the next line out from the first column of a
      blank row below all that was written, which stays as it is. */
  lemma LineLayout(l: Log, a: seq<byte>, b: seq<byte>, row: nat, col: nat)
    requires LogOk(l) && OneLine(b) && row < |LogString(l, a + [10] + b).rows| && col < 80
    ensures var la, l' := LogString(l, a), LogString(l, a + [10] + b);
            && |l'.rows| == |la.rows| + 1 + (if b == [] then 0 else (|b| - 1) / 80)
            && l'.rows[row][col] ==
               if row < |la.rows| then la.rows[row][col]
               else
                 var at := (row - |la.rows|) * 80 + col;
                 if at < |b| then Glyph(b[at], l.color) else Blank(l.color)
  {
    hide LogString, Glyph, LogOk;
    var la := LogString(l, a);
    CutAtNewline(l, a, b);
    RowsStay(l, a);
    AfterNewline(la, b, row, col);
  }

  lemma AfterNewline(l: Log, b: seq<byte>, row: nat, col: nat)
    requires LogOk(l) && OneLine(b) && row < |LogString(LogString(l, [10]), b).rows| && col < 80
    ensures var l' := LogString(LogString(l, [10]), b);
            && |l'.rows| == |l.rows| + 1 + (if b == [] then 0 else (|b| - 1) / 80)
            && l'.rows[row][col] ==
               if row < |l.rows| then l.rows[row][col]
               else
                 var at := (row - |l.rows|) * 80 + col;
                 if at < |b| then Glyph(b[at], l.color) else Blank(l.color)
  {
    hide LogString, Glyph, LogOk;
    NewlineStarts(l);
    OnBlankRow(l, LogString(l, [10]), b, row, col);
  }

  lemma OnBlankRow(l: Log, l1: Log, b: seq<byte>, row: nat, col: nat)
    requires LogOk(l) && LogOk(l1) && OneLine(b) && row < |LogString(l1, b).rows| && col < 80
    requires |l1.rows| == |l.rows| + 1 && l1.rows[..|l.rows|] == l.rows && l1.column == 0 && l1.color == l.color
    requires forall c :: 0 <= c < 80 ==> l1.rows[|l.rows|][c] == Blank(l.color)
    ensures var l' := LogString(l1, b);
            && |l'.rows| == |l.rows| + 1 + (if b == [] then 0 else (|b| - 1) / 80)
            && l'.rows[row][col] ==
               if row < |l.rows| then l.rows[row][col]
               else
                 var at := (row - |l.rows|) * 80 + col;
                 if at < |b| then Glyph(b[at], l.color) else Blank(l.color)
  {
    hide LogString, LogOk, Glyph;
    LogNothing(l1);
    if b != [] {
      TextWraps(l1, b);
    }
    TextLayout(l1, b, row, col);
    if row < |l.rows| {
      assert l1.rows[..|l.rows|][row] == l.rows[row];
    }
  }

  lemma LogNothing(l: Log)
    requires LogOk(l)
    ensures LogString(l, []) == l
  {
  }

  /** Every text is a line, or some text, a newline and a line: with the two layouts
      every cell is determined, whatever was written. */
  lemma {:induction false} LastLine(s: seq<byte>) returns (a: seq<byte>, b: seq<byte>)
    ensures OneLine(b) && (s == b || s == a + [10] + b)
    ensures OneLine(s) ==> s == b
  {
    if s == [] {
      a, b := [], [];
    } else {
      var n := |s| - 1;
      var a1, b1 := LastLine(s[..n]);
      if s[n] == 10 {
        a, b := s[..n], [];
        assert s == s[..n] + [10] + [];
      } else {
        a, b := a1, b1 + [s[n]];
        assert s == s[..n] + [s[n]];
        assert s[..n] == a1 + [10] + b1 ==> s == a1 + [10] + b;
      }
    }
  }
}
