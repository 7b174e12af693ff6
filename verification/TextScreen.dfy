/** The plain terminal: a list of rows of character cells, with no framebuffer and no start line. */
module TextScreen {
  import opened Words
  import opened Panel

  const BELL: byte := 7
  const BACKSPACE: byte := 8
  const NEWLINE: byte := 10
  const RETURN: byte := 13

  datatype CursorMode = Hide | Show

  datatype Cell = Blank | Glyph(c: byte)

  /** What a program sends to the terminal. */
  datatype Op = Move(row: int, col: int, mode: CursorMode) | Put(c: byte)

  /** `scrolls` counts rows scrolled up minus rows scrolled down; `rung` records a bell. */
  datatype Screen = Screen(
    row: int, col: int, lines: seq<seq<Cell>>, mode: CursorMode, scrolls: int, rung: bool)

  ghost predicate WellFormed(g: Geometry, p: Screen) {
    && 1 <= p.row <= g.rows
    && 1 <= p.col <= g.cols + 1
    && |p.lines| == g.rows
    && forall r :: 0 <= r < g.rows ==> |p.lines[r]| == g.cols
  }

  predicate IsPrintable(c: byte) {
    c != BELL && c != BACKSPACE && c != NEWLINE && c != RETURN
  }

  function Blanks(n: nat): (line: seq<Cell>)
    ensures |line| == n && forall i :: 0 <= i < n ==> line[i] == Blank
  {
    seq(n, _ => Blank)
  }

  function BlankFrom(line: seq<Cell>, from: int): (cleared: seq<Cell>)
    requires 0 <= from <= |line|
    ensures |cleared| == |line|
    ensures forall i :: 0 <= i < |line| ==> cleared[i] == if i < from then line[i] else Blank
  {
    line[..from] + Blanks(|line| - from)
  }

  /** Row numbers below 1 and above the last scroll by one row; the row that comes in is cleared from `col` on. */
  function MoveTo(g: Geometry, p: Screen, row: int, col: int, mode: CursorMode): (q: Screen)
    requires g.Valid() && WellFormed(g, p) && 1 <= col <= g.cols + 1
    ensures WellFormed(g, q)
  {
    if row < 1 then
      p.(row := 1, col := col, mode := mode, scrolls := p.scrolls - 1,
         lines := [BlankFrom(p.lines[g.rows - 1], col - 1)] + p.lines[..g.rows - 1])
    else if row > g.rows then
      p.(row := g.rows, col := col, mode := mode, scrolls := p.scrolls + 1,
         lines := p.lines[1..] + [BlankFrom(p.lines[0], col - 1)])
    else
      p.(row := row, col := col, mode := mode)
  }

  function PrintInRow(g: Geometry, p: Screen, c: byte): (q: Screen)
    requires g.Valid() && WellFormed(g, p) && p.col <= g.cols
    ensures WellFormed(g, q)
  {
    p.(col := p.col + 1, lines := p.lines[p.row - 1 := p.lines[p.row - 1][p.col - 1 := Glyph(c)]])
  }

  /** A character beyond the last column first starts a new line. */
  function Print(g: Geometry, p: Screen, c: byte): (q: Screen)
    requires g.Valid() && WellFormed(g, p)
    ensures WellFormed(g, q)
  {
    PrintInRow(g, if p.col == g.cols + 1 then MoveTo(g, p, p.row + 1, 1, p.mode) else p, c)
  }

  /** The columns a program may move to: one past the last is where a full row leaves the cursor. */
  ghost predicate Fits(g: Geometry, op: Op) {
    op.Move? ==> 1 <= op.col <= g.cols + 1
  }

  function Apply(g: Geometry, p: Screen, op: Op): (q: Screen)
    requires g.Valid() && WellFormed(g, p) && Fits(g, op)
    ensures WellFormed(g, q)
  {
    match op
    case Move(row, col, mode) => MoveTo(g, p, row, col, mode)
    case Put(c) =>
      if c == BELL then p.(rung := true)
      else if c == BACKSPACE then
        if p.col > 1 then MoveTo(g, p, p.row, p.col - 1, p.mode) else MoveTo(g, p, p.row - 1, g.cols, p.mode)
      else if c == NEWLINE then MoveTo(g, p, p.row + 1, 1, p.mode)
      else if c == RETURN then MoveTo(g, p, p.row, 1, p.mode)
      else Print(g, p, c)
  }

  ghost predicate ColumnsFit(g: Geometry, ops: seq<Op>) {
    forall i :: 0 <= i < |ops| ==> Fits(g, ops[i])
  }

  /** A move that scrolls to a real column clears the row that comes in by whole cells. */
  ghost predicate Legal(g: Geometry, op: Op) {
    Fits(g, op) && (op.Move? ==> 1 <= op.row <= g.rows || op.col <= g.cols)
  }

  ghost predicate AllLegal(g: Geometry, ops: seq<Op>) {
    forall i :: 0 <= i < |ops| ==> Legal(g, ops[i])
  }

  function Run(g: Geometry, p: Screen, ops: seq<Op>): (q: Screen)
    requires g.Valid() && WellFormed(g, p) && ColumnsFit(g, ops)
    ensures WellFormed(g, q)
  {
    if ops == [] then p else Apply(g, Run(g, p, ops[..|ops| - 1]), ops[|ops| - 1])
  }

  lemma {:induction false} RunConcat(g: Geometry, p: Screen, a: seq<Op>, b: seq<Op>)
    requires g.Valid() && WellFormed(g, p) && ColumnsFit(g, a) && ColumnsFit(g, b)
    ensures Run(g, p, a + b) == Run(g, Run(g, p, a), b)
  {
    if b == [] {
      assert a + b == a;
    } else {
      RunConcat(g, p, a, b[..|b| - 1]);
      assert (a + b)[..|a + b| - 1] == a + b[..|b| - 1];
    }
  }

  function Puts(text: seq<byte>): (ops: seq<Op>)
    ensures |ops| == |text| && forall i :: 0 <= i < |text| ==> ops[i] == Put(text[i])
  {
    seq(|text|, i requires 0 <= i < |text| => Put(text[i]))
  }

  function Glyphs(text: seq<byte>): (line: seq<Cell>)
    ensures |line| == |text| && forall i :: 0 <= i < |text| ==> line[i] == Glyph(text[i])
  {
    seq(|text|, i requires 0 <= i < |text| => Glyph(text[i]))
  }

  function Overwrite(line: seq<Cell>, at: int, cells: seq<Cell>): (r: seq<Cell>)
    requires 0 <= at && at + |cells| <= |line|
    ensures |r| == |line|
    ensures forall i :: 0 <= i < |line| ==> r[i] == if at <= i < at + |cells| then cells[i - at] else line[i]
  {
    line[..at] + cells + line[at + |cells|..]
  }

  lemma NoGlyphs(line: seq<Cell>, at: int)
    requires 0 <= at <= |line|
    ensures Overwrite(line, at, Glyphs([])) == line
  {
  }

  lemma OneMoreGlyph(line: seq<Cell>, at: int, text: seq<byte>)
    requires text != [] && 0 <= at && at + |text| <= |line|
    ensures var front := text[..|text| - 1];
            Overwrite(line, at, Glyphs(front))[at + |front| := Glyph(text[|text| - 1])] == Overwrite(line, at, Glyphs(text))
  {
  }

  /** Text that fits in the current row overwrites exactly its own cells, and scrolls nothing. */
  lemma {:induction false} PutsInRow(g: Geometry, p: Screen, text: seq<byte>)
    requires g.Valid() && WellFormed(g, p) && p.col - 1 + |text| <= g.cols
    requires forall i :: 0 <= i < |text| ==> IsPrintable(text[i])
    ensures Run(g, p, Puts(text)) == p.(
              col := p.col + |text|,
              lines := p.lines[p.row - 1 := Overwrite(p.lines[p.row - 1], p.col - 1, Glyphs(text))])
  {
    hide Overwrite, Glyphs, MoveTo;
    if text == [] {
      NoGlyphs(p.lines[p.row - 1], p.col - 1);
    } else {
      var front := text[..|text| - 1];
      PutsInRow(g, p, front);
      assert Puts(text)[..|text| - 1] == Puts(front);
      OneMoreGlyph(p.lines[p.row - 1], p.col - 1, text);
    }
  }

  lemma RunNone(g: Geometry, p: Screen)
    requires g.Valid() && WellFormed(g, p)
    ensures Run(g, p, []) == p
  {
  }

  lemma RunOne(g: Geometry, p: Screen, op: Op)
    requires g.Valid() && WellFormed(g, p) && Fits(g, op)
    ensures Run(g, p, [op]) == Apply(g, p, op)
  {
    assert [op][..0] == [];
  }

  /** Placing the cursor and then writing text that fits. */
  lemma WriteAt(g: Geometry, p: Screen, row: int, col: int, mode: CursorMode, text: seq<byte>)
    requires g.Valid() && WellFormed(g, p) && 1 <= row <= g.rows && 1 <= col && col - 1 + |text| <= g.cols
    requires forall i :: 0 <= i < |text| ==> IsPrintable(text[i])
    ensures AllLegal(g, [Move(row, col, mode)] + Puts(text))
    ensures Run(g, p, [Move(row, col, mode)] + Puts(text)) == p.(
              row := row, col := col + |text|, mode := mode,
              lines := p.lines[row - 1 := Overwrite(p.lines[row - 1], col - 1, Glyphs(text))])
  {
    hide Run;
    RunConcat(g, p, [Move(row, col, mode)], Puts(text));
    RunOne(g, p, Move(row, col, mode));
    PutsInRow(g, MoveTo(g, p, row, col, mode), text);
  }

  /** A line feed on the bottom row drops the top row and appends an empty one. */
  lemma NewlineAtBottom(g: Geometry, p: Screen)
    requires g.Valid() && WellFormed(g, p) && p.row == g.rows
    ensures Apply(g, p, Put(NEWLINE)).lines == p.lines[1..] + [Blanks(g.cols)]
  {
    assert BlankFrom(p.lines[0], 0) == Blanks(g.cols);
  }

  /** A backspace at the home position pulls the bottom row to the top, less its last character. */
  lemma BackspaceAtHome(g: Geometry, p: Screen)
    requires g.Valid() && WellFormed(g, p) && p.row == 1 && p.col == 1
    ensures var q := Apply(g, p, Put(BACKSPACE));
            && q.row == 1 && q.col == g.cols
            && q.lines == [p.lines[g.rows - 1][g.cols - 1 := Blank]] + p.lines[..g.rows - 1]
  {
    assert BlankFrom(p.lines[g.rows - 1], g.cols - 1) == p.lines[g.rows - 1][g.cols - 1 := Blank];
  }

  // ----- In codes -----

  /** A move on the screen only moves the cursor; one above or below it brings in a row. */
  lemma MoveIs(g: Geometry, p: Screen, row: int, col: int, mode: CursorMode)
    requires g.Valid() && WellFormed(g, p) && 1 <= col <= g.cols + 1
    ensures var q := Apply(g, p, Move(row, col, mode));
            && q.col == col && q.mode == mode && q.rung == p.rung
            && (1 <= row <= g.rows ==> q.row == row && q.lines == p.lines && q.scrolls == p.scrolls)
            && (row < 1 ==> q.row == 1 && q.scrolls == p.scrolls - 1
                            && q.lines == [p.lines[g.rows - 1][..col - 1] + Blanks(g.cols + 1 - col)] + p.lines[..g.rows - 1])
            && (row > g.rows ==> q.row == g.rows && q.scrolls == p.scrolls + 1
                                 && q.lines == p.lines[1..] + [p.lines[0][..col - 1] + Blanks(g.cols + 1 - col)])
  {
  }

  /** Bell, backspace, line feed and return. */
  lemma ControlCodes(g: Geometry, p: Screen)
    requires g.Valid() && WellFormed(g, p)
    ensures Apply(g, p, Put(0x07)) == p.(rung := true)
    ensures p.col > 1 ==> Apply(g, p, Put(0x08)) == p.(col := p.col - 1)
    ensures p.col == 1 && p.row > 1 ==> Apply(g, p, Put(0x08)) == p.(row := p.row - 1, col := g.cols)
    ensures p.row < g.rows ==> Apply(g, p, Put(0x0A)) == p.(row := p.row + 1, col := 1)
    ensures p.row == g.rows ==>
              Apply(g, p, Put(0x0A)) == p.(col := 1, scrolls := p.scrolls + 1, lines := p.lines[1..] + [Blanks(g.cols)])
    ensures Apply(g, p, Put(0x0D)) == p.(col := 1)
  {
    assert BlankFrom(p.lines[0], 0) == Blanks(g.cols);
  }

  /** Every other byte is drawn: at the cursor, or behind a full row after a line feed. */
  lemma OtherCodes(g: Geometry, p: Screen, c: byte)
    requires g.Valid() && WellFormed(g, p) && c != 0x07 && c != 0x08 && c != 0x0A && c != 0x0D
    ensures p.col <= g.cols ==>
              Apply(g, p, Put(c)) ==
              p.(col := p.col + 1, lines := p.lines[p.row - 1 := p.lines[p.row - 1][p.col - 1 := Glyph(c)]])
    ensures p.col == g.cols + 1 ==> Apply(g, p, Put(c)) == Apply(g, Apply(g, p, Put(0x0A)), Put(c))
  {
  }
}
