/** The terminal of os3k.c on values: a cursor, a start line and the pixels, and its refinement of the plain terminal. */
module Terminal {
  import opened Words
  import opened Panel
  import T = TextScreen

  /** `row`, `col`, `roll`: g_CurRow, g_CurCol, g_CurLcdRoll. `x`, `y`: CURSOR_STRUCT. `startLine`, `allOn`, `lcd`: the panel. */
  datatype Term = Term(
    row: int, col: int, roll: int, x: int, y: int, mode: T.CursorMode, startLine: int, allOn: bool, lcd: Pixels)

  /** The pixel column of a text column; the one past the last is parked on the last pixel. */
  function CursorX(g: Geometry, col: int): int {
    if col == g.cols + 1 then g.Width() - 1 else CELL_WIDTH * (col - 1)
  }

  /** All that moving the cursor relies on: a start line on a row boundary, and the panel. */
  ghost predicate Sound(g: Geometry, t: Term) {
    g.Valid() && Aligned(g, t.roll) && Covers(g, t.lcd)
  }

  /** Row and column have been set or are still 0; the cursor structure and the panel's start line may disagree with them. */
  ghost predicate Usable(g: Geometry, t: Term) {
    Sound(g, t) && 0 <= t.row <= g.rows && 0 <= t.col <= g.cols + 1
  }

  ghost predicate Valid(g: Geometry, t: Term) {
    && Sound(g, t)
    && 1 <= t.row <= g.rows
    && 1 <= t.col <= g.cols + 1
    && t.startLine == t.roll
    && t.x == CursorX(g, t.col)
    && t.y == g.Line(t.roll, t.row - 1, 0)
  }

  function Blank(g: Geometry): (lcd: Pixels)
    ensures Covers(g, lcd)
  {
    map x, y | 0 <= x < g.Width() && 0 <= y < g.Lcd() :: Point(x, y) := false
  }

  function Home(g: Geometry, mode: T.CursorMode, allOn: bool): Term {
    Term(1, 1, 0, 0, 0, mode, 0, allOn, Blank(g))
  }

  /** Losing the focus and getting it back: the panel's start line and cursor structure are reset, the panel is blanked. */
  function Refocused(g: Geometry, t: Term): Term {
    t.(startLine := 0, x := 0, y := 0, lcd := Blank(g))
  }

  /** As linked: all registers zero, and nothing cleared yet but the panel. */
  function Reset(g: Geometry): Term {
    Term(0, 0, 0, 0, 0, T.Hide, 0, false, Blank(g))
  }

  predicate AtHome(t: Term) {
    t.row == 1 && t.col == 1 && t.roll == 0
  }

  /** The start line after moving to `row`: out-of-range rows scroll by one, either way round the ring. */
  function RollTo(g: Geometry, roll: int, row: int): (r: int)
    requires g.Valid() && Aligned(g, roll)
    ensures Aligned(g, r)
  {
    RollStep(g, roll);
    if row < 1 then g.Wrap(roll - g.height) else if row > g.rows then g.Wrap(roll + g.height) else roll
  }

  function Clamp(g: Geometry, row: int): int {
    if row < 1 then 1 else if row > g.rows then g.rows else row
  }

  /** Only a scroll sends the start line to the panel; row, column, x and y are worked out afresh in any case. */
  function SetCursor(g: Geometry, t: Term, row: int, col: int, mode: T.CursorMode): (u: Term)
    requires Sound(g, t) && 1 <= col <= g.cols + 1
    ensures Usable(g, u)
    ensures Valid(g, u) <==> t.startLine == t.roll || !(1 <= row <= g.rows)
  {
    var roll := RollTo(g, t.roll, row);
    var x, y := CursorX(g, col), g.Line(roll, Clamp(g, row) - 1, 0);
    var scrolls := Clamp(g, row) != row;
    var lcd := if scrolls then Whiten(t.lcd, x, y, g.Width(), g.height) else t.lcd;
    Term(Clamp(g, row), col, roll, x, y, mode, if scrolls then roll else t.startLine, t.allOn, lcd)
  }

  /** The additions and conditional wraps by which os3k.c computes the start line and the cursor's line. */
  lemma ScrollArithmetic(g: Geometry, roll: int, row: int)
    requires g.Valid() && Aligned(g, roll)
    ensures row < 1 ==> RollTo(g, roll, row) == if roll - g.height < 0 then roll - g.height + g.Lcd() else roll - g.height
    ensures row > g.rows ==>
              RollTo(g, roll, row) == if roll + g.height >= g.Lcd() then roll + g.height - g.Lcd() else roll + g.height
    ensures 1 <= row <= g.rows ==> RollTo(g, roll, row) == roll
  {
  }

  lemma CursorLine(g: Geometry, roll: int, row: int)
    requires g.Valid() && Aligned(g, roll) && 1 <= row <= g.rows
    ensures var v := (row - 1) * g.height + roll;
            g.Line(roll, row - 1, 0) == if v >= g.Lcd() then v - g.Lcd() else v
  {
    BandIsProduct(g, row - 1);
  }

  function PrintInRow(g: Geometry, t: Term, c: byte): (u: Term)
    requires Sound(g, t)
    ensures Sound(g, u)
    ensures Valid(g, t) && t.col <= g.cols ==> Valid(g, u)
  {
    t.(col := t.col + 1, x := Advance(g.Width(), t.x), lcd := Draw(g, t.lcd, t.x, t.y, c))
  }

  /** A cursor parked on the last pixel column means that the next character wraps. */
  function Print(g: Geometry, t: Term, c: byte): (u: Term)
    requires Sound(g, t)
    ensures Sound(g, u)
    ensures Valid(g, t) ==> Valid(g, u)
  {
    PrintInRow(g, if t.x == g.Width() - 1 then SetCursor(g, t, t.row + 1, 1, t.mode) else t, c)
  }

  /** `g_CurRow - 1` as the `uint8_t` that SetCursor takes. */
  function RowAbove(row: int): int {
    if row == 0 then 255 else row - 1
  }

  function Apply(g: Geometry, t: Term, op: T.Op): (u: Term)
    requires Usable(g, t) && T.Fits(g, op)
    ensures Sound(g, u)
    ensures Valid(g, t) ==> Valid(g, u)
  {
    match op
    case Move(row, col, mode) => SetCursor(g, t, row, col, mode)
    case Put(c) =>
      if c == T.BELL then t.(allOn := true)
      else if c == T.BACKSPACE then
        if t.col > 1 then SetCursor(g, t, t.row, t.col - 1, t.mode) else SetCursor(g, t, RowAbove(t.row), g.cols, t.mode)
      else if c == T.NEWLINE then SetCursor(g, t, t.row + 1, 1, t.mode)
      else if c == T.RETURN then SetCursor(g, t, t.row, 1, t.mode)
      else Print(g, t, c)
  }

  function Run(g: Geometry, t: Term, ops: seq<T.Op>): (u: Term)
    requires Valid(g, t) && T.ColumnsFit(g, ops)
    ensures Valid(g, u)
  {
    if ops == [] then t else Apply(g, Run(g, t, ops[..|ops| - 1]), ops[|ops| - 1])
  }

  lemma RunNone(g: Geometry, t: Term)
    requires Valid(g, t)
    ensures Run(g, t, []) == t
  {
  }

  lemma RunOne(g: Geometry, t: Term, op: T.Op)
    requires Valid(g, t) && T.Fits(g, op)
    ensures Run(g, t, [op]) == Apply(g, t, op)
  {
    assert [op][..0] == [];
  }

  lemma {:induction false} RunConcat(g: Geometry, t: Term, a: seq<T.Op>, b: seq<T.Op>)
    requires Valid(g, t) && T.ColumnsFit(g, a) && T.ColumnsFit(g, b)
    ensures Run(g, t, a + b) == Run(g, Run(g, t, a), b)
  {
    if b == [] {
      assert a + b == a;
    } else {
      RunConcat(g, t, a, b[..|b| - 1]);
      assert (a + b)[..|a + b| - 1] == a + b[..|b| - 1];
    }
  }

  // ----- Refinement of the plain terminal -----

  function Ink(g: Geometry, cell: T.Cell, px: int, py: int): bool {
    cell.Glyph? && g.font(cell.c, px, py)
  }

  ghost predicate CellShows(g: Geometry, lcd: Pixels, roll: int, r: int, c: int, cell: T.Cell) {
    forall px, py :: InCell(g, r, c, px, py) ==> CellPixel(g, lcd, roll, r, c, px, py) == Ink(g, cell, px, py)
  }

  /** The panel, read from its start line, is the plain screen drawn in the font. */
  ghost predicate Displays(g: Geometry, lcd: Pixels, roll: int, lines: seq<seq<T.Cell>>)
    requires |lines| == g.rows && forall r :: 0 <= r < g.rows ==> |lines[r]| == g.cols
  {
    forall r, c :: 0 <= r < g.rows && 0 <= c < g.cols ==> CellShows(g, lcd, roll, r, c, lines[r][c])
  }

  ghost predicate Shows(g: Geometry, t: Term, p: T.Screen) {
    && Valid(g, t) && T.WellFormed(g, p)
    && t.row == p.row && t.col == p.col && t.mode == p.mode && t.allOn == p.rung
    && t.roll == g.Band(p.scrolls % g.rows)
    && Displays(g, t.lcd, t.startLine, p.lines)
  }
}
