/** The ring-scrolled terminal shows exactly what the plain terminal holds. */
module Refinement {
  import opened Words
  import opened Panel
  import opened Terminal
  import Modular
  import T = TextScreen

  lemma RollTracksScrolls(g: Geometry, roll: int, scrolls: int)
    requires g.Valid() && Aligned(g, roll) && roll == g.Band(scrolls % g.rows)
    ensures g.Wrap(roll + g.height) == g.Band((scrolls + 1) % g.rows)
    ensures g.Wrap(roll - g.height) == g.Band((scrolls - 1) % g.rows)
  {
    Modular.Successor(scrolls, g.rows);
    RollStep(g, roll);
  }

  /** Drawing a glyph at the cursor. */
  lemma DrawShows(g: Geometry, lcd: Pixels, roll: int, lines: seq<seq<T.Cell>>, r0: int, c0: int, ch: byte)
    requires g.Valid() && Aligned(g, roll) && Covers(g, lcd)
    requires |lines| == g.rows && forall r :: 0 <= r < g.rows ==> |lines[r]| == g.cols
    requires Displays(g, lcd, roll, lines) && 0 <= r0 < g.rows && 0 <= c0 < g.cols
    ensures Displays(g, Draw(g, lcd, CELL_WIDTH * c0, g.Line(roll, r0, 0), ch), roll,
                     lines[r0 := lines[r0][c0 := T.Glyph(ch)]])
  {
    var lcd' := Draw(g, lcd, CELL_WIDTH * c0, g.Line(roll, r0, 0), ch);
    var lines' := lines[r0 := lines[r0][c0 := T.Glyph(ch)]];
    forall r, c | 0 <= r < g.rows && 0 <= c < g.cols ensures CellShows(g, lcd', roll, r, c, lines'[r][c]) {
      assert CellShows(g, lcd, roll, r, c, lines[r][c]);
      forall px, py | InCell(g, r, c, px, py)
        ensures CellPixel(g, lcd', roll, r, c, px, py) == Ink(g, lines'[r][c], px, py)
      {
        DrawFillsOneCell(g, lcd, roll, r0, c0, ch, r, c, px, py);
      }
    }
  }

  /** Clearing the row that a scroll brought in. */
  lemma WhitenShows(g: Geometry, lcd: Pixels, roll: int, lines: seq<seq<T.Cell>>, r0: int, c0: int)
    requires g.Valid() && Aligned(g, roll) && Covers(g, lcd)
    requires |lines| == g.rows && forall r :: 0 <= r < g.rows ==> |lines[r]| == g.cols
    requires Displays(g, lcd, roll, lines) && 0 <= r0 < g.rows && 0 <= c0 < g.cols
    ensures Displays(g, Whiten(lcd, CELL_WIDTH * c0, g.Line(roll, r0, 0), g.Width(), g.height), roll,
                     lines[r0 := T.BlankFrom(lines[r0], c0)])
  {
    var lcd' := Whiten(lcd, CELL_WIDTH * c0, g.Line(roll, r0, 0), g.Width(), g.height);
    var lines' := lines[r0 := T.BlankFrom(lines[r0], c0)];
    forall r, c | 0 <= r < g.rows && 0 <= c < g.cols ensures CellShows(g, lcd', roll, r, c, lines'[r][c]) {
      assert CellShows(g, lcd, roll, r, c, lines[r][c]);
      forall px, py | InCell(g, r, c, px, py)
        ensures CellPixel(g, lcd', roll, r, c, px, py) == Ink(g, lines'[r][c], px, py)
      {
        WhitenClearsTail(g, lcd, roll, r0, c0, r, c, px, py);
      }
    }
  }

  /** Moving the start line rotates the rows; no pixel moves. */
  lemma RollShows(g: Geometry, lcd: Pixels, roll: int, lines: seq<seq<T.Cell>>)
    requires g.Valid() && Aligned(g, roll)
    requires |lines| == g.rows && forall r :: 0 <= r < g.rows ==> |lines[r]| == g.cols
    requires Displays(g, lcd, roll, lines)
    ensures Displays(g, lcd, g.Wrap(roll + g.height), lines[1..] + lines[..1])
    ensures Displays(g, lcd, g.Wrap(roll - g.height), lines[g.rows - 1..] + lines[..g.rows - 1])
  {
    var up, down := lines[1..] + lines[..1], lines[g.rows - 1..] + lines[..g.rows - 1];
    forall r, c | 0 <= r < g.rows && 0 <= c < g.cols
      ensures CellShows(g, lcd, g.Wrap(roll + g.height), r, c, up[r][c])
      ensures CellShows(g, lcd, g.Wrap(roll - g.height), r, c, down[r][c])
    {
      var next, prior := if r + 1 == g.rows then 0 else r + 1, if r == 0 then g.rows - 1 else r - 1;
      assert CellShows(g, lcd, roll, next, c, lines[next][c]) && CellShows(g, lcd, roll, prior, c, lines[prior][c]);
      forall px, py | InCell(g, r, c, px, py)
        ensures CellPixel(g, lcd, g.Wrap(roll + g.height), r, c, px, py) == Ink(g, up[r][c], px, py)
        ensures CellPixel(g, lcd, g.Wrap(roll - g.height), r, c, px, py) == Ink(g, down[r][c], px, py)
      {
        RollShiftsRows(g, roll, r, py);
        assert InCell(g, next, c, px, py) && InCell(g, prior, c, px, py);
      }
    }
  }

  /** Rotating and then replacing the row that came in is the plain terminal's scroll. */
  lemma ScrollIsRotation<A>(s: seq<A>, a: A)
    requires |s| >= 1
    ensures (s[1..] + s[..1])[|s| - 1 := a] == s[1..] + [a]
    ensures (s[|s| - 1..] + s[..|s| - 1])[0 := a] == [a] + s[..|s| - 1]
  {
  }

  /** One scroll either way, then clearing the incoming row from column `col` on. */
  lemma ScrollShows(g: Geometry, lcd: Pixels, roll: int, lines: seq<seq<T.Cell>>, col: int)
    requires g.Valid() && Aligned(g, roll) && Covers(g, lcd) && 1 <= col <= g.cols
    requires |lines| == g.rows && forall r :: 0 <= r < g.rows ==> |lines[r]| == g.cols
    requires Displays(g, lcd, roll, lines)
    ensures var up := g.Wrap(roll + g.height);
            Displays(g, Whiten(lcd, CursorX(g, col), g.Line(up, g.rows - 1, 0), g.Width(), g.height), up,
                     lines[1..] + [T.BlankFrom(lines[0], col - 1)])
    ensures var down := g.Wrap(roll - g.height);
            Displays(g, Whiten(lcd, CursorX(g, col), g.Line(down, 0, 0), g.Width(), g.height), down,
                     [T.BlankFrom(lines[g.rows - 1], col - 1)] + lines[..g.rows - 1])
  {
    hide Displays, Aligned, Covers, Whiten, Geometry.Band, Geometry.Wrap, Geometry.Line;
    RollStep(g, roll);
    RollShows(g, lcd, roll, lines);
    var upward, downward := lines[1..] + lines[..1], lines[g.rows - 1..] + lines[..g.rows - 1];
    WhitenShows(g, lcd, g.Wrap(roll + g.height), upward, g.rows - 1, col - 1);
    WhitenShows(g, lcd, g.Wrap(roll - g.height), downward, 0, col - 1);
    ScrollIsRotation(lines, T.BlankFrom(lines[0], col - 1));
    ScrollIsRotation(lines, T.BlankFrom(lines[g.rows - 1], col - 1));
  }

  lemma LegalMoveShows(g: Geometry, t: Term, p: T.Screen, row: int, col: int, mode: T.CursorMode)
    requires Shows(g, t, p) && T.Legal(g, T.Move(row, col, mode))
    ensures Shows(g, SetCursor(g, t, row, col, mode), T.MoveTo(g, p, row, col, mode))
  {
    hide Displays, Covers, Whiten, Geometry.Band, Geometry.Wrap, Geometry.Line;
    var u, q := SetCursor(g, t, row, col, mode), T.MoveTo(g, p, row, col, mode);
    if Clamp(g, row) != row {
      RollTracksScrolls(g, t.roll, p.scrolls);
      ScrollShows(g, t.lcd, t.roll, p.lines, col);
    }
    assert Valid(g, u);
    assert Displays(g, u.lcd, u.roll, q.lines);
  }

  // ----- A scroll to the column behind the last one -----

  /** The last pixel column of a cell. */
  const EDGE: int := CELL_WIDTH - 1

  /** The glyph has nothing there. */
  ghost predicate EdgeIsClear(g: Geometry, cell: T.Cell) {
    forall py :: 0 <= py < g.height ==> !Ink(g, cell, EDGE, py)
  }

  /** The visible row that comes in when the program moves to `row`. */
  function Incoming(g: Geometry, p: T.Screen, row: int): seq<T.Cell>
    requires g.Valid() && T.WellFormed(g, p)
  {
    if row < 1 then p.lines[g.rows - 1] else p.lines[0]
  }

  /** Such a scroll clears only the last pixel column of the row that comes in: that must not cut its last glyph. */
  ghost predicate SplitsNoGlyph(g: Geometry, p: T.Screen, op: T.Op)
    requires g.Valid() && T.WellFormed(g, p)
  {
    op.Move? && !(1 <= op.row <= g.rows) && op.col == g.cols + 1 ==> EdgeIsClear(g, Incoming(g, p, op.row)[g.cols - 1])
  }

  /** Clearing from the parked column clears one pixel column of one cell. */
  lemma WhitenClearsEdge(g: Geometry, lcd: Pixels, roll: int, r0: int, r: int, c: int, px: int, py: int)
    requires g.Valid() && Aligned(g, roll) && Covers(g, lcd) && 0 <= r0 < g.rows && InCell(g, r, c, px, py)
    ensures CellPixel(g, Whiten(lcd, g.Width() - 1, g.Line(roll, r0, 0), g.Width(), g.height), roll, r, c, px, py)
         == (CellPixel(g, lcd, roll, r, c, px, py) && !(r == r0 && c == g.cols - 1 && px == EDGE))
  {
    LinesOfRow(g, roll, r0, r, py);
  }

  lemma EdgeClearedShowsIff(g: Geometry, lcd: Pixels, roll: int, lines: seq<seq<T.Cell>>, r0: int)
    requires g.Valid() && Aligned(g, roll) && Covers(g, lcd) && 0 <= r0 < g.rows
    requires |lines| == g.rows && forall r :: 0 <= r < g.rows ==> |lines[r]| == g.cols
    requires Displays(g, lcd, roll, lines)
    ensures Displays(g, Whiten(lcd, g.Width() - 1, g.Line(roll, r0, 0), g.Width(), g.height), roll, lines)
       <==> EdgeIsClear(g, lines[r0][g.cols - 1])
  {
    hide Whiten, CellPixel;
    var lcd' := Whiten(lcd, g.Width() - 1, g.Line(roll, r0, 0), g.Width(), g.height);
    forall r, c | 0 <= r < g.rows && 0 <= c < g.cols
      ensures CellShows(g, lcd', roll, r, c, lines[r][c]) <==>
                !(r == r0 && c == g.cols - 1) || EdgeIsClear(g, lines[r0][g.cols - 1])
    {
      assert CellShows(g, lcd, roll, r, c, lines[r][c]);
      forall px, py | InCell(g, r, c, px, py)
        ensures CellPixel(g, lcd', roll, r, c, px, py) ==
                  (Ink(g, lines[r][c], px, py) && !(r == r0 && c == g.cols - 1 && px == EDGE))
      {
        WhitenClearsEdge(g, lcd, roll, r0, r, c, px, py);
      }
      if r == r0 && c == g.cols - 1 && CellShows(g, lcd', roll, r, c, lines[r][c]) {
        forall py | 0 <= py < g.height ensures !Ink(g, lines[r][c], EDGE, py) {
          assert InCell(g, r, c, EDGE, py);
        }
      }
    }
    if Displays(g, lcd', roll, lines) {
      assert CellShows(g, lcd', roll, r0, g.cols - 1, lines[r0][g.cols - 1]);
    }
  }

  /** One scroll either way to the column behind the last. */
  lemma ParkedRollShowsIff(g: Geometry, lcd: Pixels, roll: int, lines: seq<seq<T.Cell>>)
    requires g.Valid() && Aligned(g, roll) && Covers(g, lcd)
    requires |lines| == g.rows && forall r :: 0 <= r < g.rows ==> |lines[r]| == g.cols
    requires Displays(g, lcd, roll, lines)
    ensures var up := g.Wrap(roll + g.height);
            EdgeIsClear(g, lines[0][g.cols - 1]) <==>
              Displays(g, Whiten(lcd, g.Width() - 1, g.Line(up, g.rows - 1, 0), g.Width(), g.height), up,
                       lines[1..] + [lines[0]])
    ensures var down := g.Wrap(roll - g.height);
            EdgeIsClear(g, lines[g.rows - 1][g.cols - 1]) <==>
              Displays(g, Whiten(lcd, g.Width() - 1, g.Line(down, 0, 0), g.Width(), g.height), down,
                       [lines[g.rows - 1]] + lines[..g.rows - 1])
  {
    hide Displays, Aligned, Covers, Whiten, EdgeIsClear, Geometry.Band, Geometry.Wrap, Geometry.Line;
    RollStep(g, roll);
    RollShows(g, lcd, roll, lines);
    var upward, downward := lines[1..] + [lines[0]], [lines[g.rows - 1]] + lines[..g.rows - 1];
    assert upward == lines[1..] + lines[..1] && downward == lines[g.rows - 1..] + lines[..g.rows - 1];
    EdgeClearedShowsIff(g, lcd, g.Wrap(roll + g.height), upward, g.rows - 1);
    EdgeClearedShowsIff(g, lcd, g.Wrap(roll - g.height), downward, 0);
  }

  lemma NothingBlanked(line: seq<T.Cell>)
    ensures T.BlankFrom(line, |line|) == line
  {
  }

  lemma ParkedScrollShowsIff(g: Geometry, t: Term, p: T.Screen, row: int, mode: T.CursorMode)
    requires Shows(g, t, p) && !(1 <= row <= g.rows)
    ensures Shows(g, SetCursor(g, t, row, g.cols + 1, mode), T.MoveTo(g, p, row, g.cols + 1, mode))
       <==> EdgeIsClear(g, Incoming(g, p, row)[g.cols - 1])
  {
    hide Displays, Covers, Whiten, EdgeIsClear, T.BlankFrom, Geometry.Band, Geometry.Wrap, Geometry.Line;
    var u, q := SetCursor(g, t, row, g.cols + 1, mode), T.MoveTo(g, p, row, g.cols + 1, mode);
    NothingBlanked(Incoming(g, p, row));
    RollTracksScrolls(g, t.roll, p.scrolls);
    ParkedRollShowsIff(g, t.lcd, t.roll, p.lines);
    assert Valid(g, u);
  }

  /** Every move of the ring terminal is the plain terminal's, except exactly the scrolls that cut a glyph. */
  lemma MoveShows(g: Geometry, t: Term, p: T.Screen, row: int, col: int, mode: T.CursorMode)
    requires Shows(g, t, p) && 1 <= col <= g.cols + 1
    ensures Shows(g, SetCursor(g, t, row, col, mode), T.MoveTo(g, p, row, col, mode))
       <==> SplitsNoGlyph(g, p, T.Move(row, col, mode))
  {
    hide Shows, SetCursor, T.MoveTo, EdgeIsClear;
    assert g.Valid() && T.WellFormed(g, p) by {
      ShowsIsWellFormed(g, t, p);
    }
    if T.Legal(g, T.Move(row, col, mode)) {
      LegalMoveShows(g, t, p, row, col, mode);
    } else {
      ParkedScrollShowsIff(g, t, p, row, mode);
    }
  }

  lemma ShowsIsWellFormed(g: Geometry, t: Term, p: T.Screen)
    requires Shows(g, t, p)
    ensures Valid(g, t) && g.Valid() && T.WellFormed(g, p)
  {
  }

  lemma PrintInRowShows(g: Geometry, t: Term, p: T.Screen, c: byte)
    requires Shows(g, t, p) && t.col <= g.cols
    ensures Shows(g, PrintInRow(g, t, c), T.PrintInRow(g, p, c))
  {
    hide Displays, Covers, Draw, Geometry.Band, Geometry.Wrap;
    var u, q := PrintInRow(g, t, c), T.PrintInRow(g, p, c);
    DrawShows(g, t.lcd, t.roll, p.lines, t.row - 1, t.col - 1, c);
    assert Valid(g, u);
    assert Displays(g, u.lcd, u.roll, q.lines);
  }

  lemma PrintShows(g: Geometry, t: Term, p: T.Screen, c: byte)
    requires Shows(g, t, p)
    ensures Shows(g, Print(g, t, c), T.Print(g, p, c))
  {
    hide Displays, Covers, Geometry.Band, Geometry.Wrap, Geometry.Line, PrintInRow, T.PrintInRow;
    var wraps := t.col == g.cols + 1;
    assert wraps <==> t.x == g.Width() - 1;
    if wraps {
      LegalMoveShows(g, t, p, t.row + 1, 1, t.mode);
    }
    var u := if wraps then SetCursor(g, t, t.row + 1, 1, t.mode) else t;
    var q := if wraps then T.MoveTo(g, p, p.row + 1, 1, p.mode) else p;
    assert Print(g, t, c) == PrintInRow(g, u, c) && T.Print(g, p, c) == T.PrintInRow(g, q, c);
    PrintInRowShows(g, u, q, c);
  }

  /** So is every byte and every move. */
  lemma ApplyShows(g: Geometry, t: Term, p: T.Screen, op: T.Op)
    requires Shows(g, t, p) && T.Fits(g, op)
    ensures Shows(g, Apply(g, t, op), T.Apply(g, p, op)) <==> SplitsNoGlyph(g, p, op)
  {
    match op
    case Move(row, col, mode) => MoveShows(g, t, p, row, col, mode);
    case Put(c) =>
      if c == T.BACKSPACE {
        if t.col > 1 {
          LegalMoveShows(g, t, p, t.row, t.col - 1, t.mode);
        } else {
          LegalMoveShows(g, t, p, t.row - 1, g.cols, t.mode);
        }
      } else if c == T.NEWLINE {
        LegalMoveShows(g, t, p, t.row + 1, 1, t.mode);
      } else if c == T.RETURN {
        LegalMoveShows(g, t, p, t.row, 1, t.mode);
      } else if c != T.BELL {
        PrintShows(g, t, p, c);
      }
  }

  ghost predicate SplitsNoGlyphs(g: Geometry, p: T.Screen, ops: seq<T.Op>)
    requires g.Valid() && T.WellFormed(g, p) && T.ColumnsFit(g, ops)
  {
    ops != [] ==>
      var front := ops[..|ops| - 1];
      SplitsNoGlyphs(g, p, front) && SplitsNoGlyph(g, T.Run(g, p, front), ops[|ops| - 1])
  }

  /** The main result: whatever is sent, the ring shows the plain screen. */
  lemma {:induction false} RingRefinesPlain(g: Geometry, t: Term, p: T.Screen, ops: seq<T.Op>)
    requires Shows(g, t, p) && T.ColumnsFit(g, ops) && SplitsNoGlyphs(g, p, ops)
    ensures Shows(g, Run(g, t, ops), T.Run(g, p, ops))
  {
    hide Shows, Apply, T.Apply, SplitsNoGlyph;
    ShowsIsWellFormed(g, t, p);
    if ops == [] {
      RunNone(g, t);
    } else {
      var front := ops[..|ops| - 1];
      RingRefinesPlain(g, t, p, front);
      ApplyShows(g, Run(g, t, front), T.Run(g, p, front), ops[|ops| - 1]);
    }
  }

  /** After every prefix of what is sent. */
  ghost predicate ShowsAllAlong(g: Geometry, t: Term, p: T.Screen, ops: seq<T.Op>)
    requires Valid(g, t) && T.WellFormed(g, p) && T.ColumnsFit(g, ops)
  {
    forall n :: 0 <= n <= |ops| ==> Shows(g, Run(g, t, ops[..n]), T.Run(g, p, ops[..n]))
  }

  /** The condition is exact: the ring is in step with the plain screen all along exactly if no scroll cuts a glyph. */
  lemma {:induction false} InStepIff(g: Geometry, t: Term, p: T.Screen, ops: seq<T.Op>)
    requires Shows(g, t, p) && T.ColumnsFit(g, ops)
    ensures ShowsAllAlong(g, t, p, ops) <==> SplitsNoGlyphs(g, p, ops)
  {
    hide Shows, Apply, T.Apply, SplitsNoGlyph;
    ShowsIsWellFormed(g, t, p);
    if ops == [] {
      RunNone(g, t);
      T.RunNone(g, p);
    } else {
      var front := ops[..|ops| - 1];
      InStepIff(g, t, p, front);
      assert forall n :: 0 <= n <= |front| ==> front[..n] == ops[..n];
      assert ops[..|ops|] == ops && front[..|front|] == front;
      if SplitsNoGlyphs(g, p, front) {
        RingRefinesPlain(g, t, p, front);
        ApplyShows(g, Run(g, t, front), T.Run(g, p, front), ops[|ops| - 1]);
      }
    }
  }

  /** Text alone never cuts a glyph, nor does a program that keeps to the real columns when it scrolls. */
  lemma {:induction false} LegalRunSplitsNothing(g: Geometry, p: T.Screen, ops: seq<T.Op>)
    requires g.Valid() && T.WellFormed(g, p) && T.AllLegal(g, ops)
    ensures SplitsNoGlyphs(g, p, ops)
  {
    if ops != [] {
      LegalRunSplitsNothing(g, p, ops[..|ops| - 1]);
    }
  }

  /** From a cleared screen on, what was sent leaves a terminal that does not show the plain screen. */
  ghost predicate Parts(g: Geometry, mode: T.CursorMode, ops: seq<T.Op>)
    requires g.Valid() && T.ColumnsFit(g, ops)
  {
    !Shows(g, Run(g, Home(g, mode, false), ops), T.Run(g, HomeScreen(g, mode, false), ops))
  }

  /** On any screen: a character with ink at its edge in the top right corner, and a scroll to the column behind it. */
  lemma SplitGlyphParts(g: Geometry, mode: T.CursorMode, c: byte, py: int)
    requires g.Valid() && T.IsPrintable(c) && 0 <= py < g.height && g.font(c, EDGE, py)
    ensures T.ColumnsFit(g, [T.Move(1, g.cols, mode)] + T.Puts([c]) + [T.Move(g.rows + 1, g.cols + 1, mode)])
    ensures Parts(g, mode, [T.Move(1, g.cols, mode)] + T.Puts([c]) + [T.Move(g.rows + 1, g.cols + 1, mode)])
  {
    hide Shows, Run, T.Run, Apply, T.Apply;
    var corner, move := [T.Move(1, g.cols, mode)] + T.Puts([c]), T.Move(g.rows + 1, g.cols + 1, mode);
    var t, p := Home(g, mode, false), HomeScreen(g, mode, false);
    HomeShows(g, mode, false);
    ShowsIsWellFormed(g, t, p);
    T.WriteAt(g, p, 1, g.cols, mode, [c]);
    LegalRunSplitsNothing(g, p, corner);
    RingRefinesPlain(g, t, p, corner);
    var t1, p1 := Run(g, t, corner), T.Run(g, p, corner);
    ShowsIsWellFormed(g, t1, p1);
    assert p1.lines[0][g.cols - 1] == T.Glyph(c);
    assert Ink(g, p1.lines[0][g.cols - 1], EDGE, py);
    MoveShows(g, t1, p1, g.rows + 1, g.cols + 1, mode);
    RunConcat(g, t, corner, [move]);
    T.RunConcat(g, p, corner, [move]);
    RunOne(g, t1, move);
    T.RunOne(g, p1, move);
    MoveIsApplied(g, t1, p1, g.rows + 1, g.cols + 1, mode);
  }

  lemma MoveIsApplied(g: Geometry, t: Term, p: T.Screen, row: int, col: int, mode: T.CursorMode)
    requires Valid(g, t) && T.WellFormed(g, p) && 1 <= col <= g.cols + 1
    ensures Apply(g, t, T.Move(row, col, mode)) == SetCursor(g, t, row, col, mode)
    ensures T.Apply(g, p, T.Move(row, col, mode)) == T.MoveTo(g, p, row, col, mode)
  {
  }

  // ----- What the refinement gives a user of the terminal -----

  /** Pixel `l`, `x` of the glass: the panel shows its memory from the start line on, wrapping at the bottom. */
  function Glass(g: Geometry, t: Term, x: int, l: int): bool {
    Lit(t.lcd, Point(x, g.Wrap(l + t.startLine)))
  }

  /** Every pixel of the glass is the font's pixel for the plain terminal's cell. */
  lemma GlassIsPlainScreen(g: Geometry, t: Term, p: T.Screen, x: int, l: int)
    requires Shows(g, t, p) && 0 <= x < g.Width() && 0 <= l < g.Lcd()
    ensures var r, c := g.RowOf(l), x / CELL_WIDTH;
            && 0 <= r < g.rows && 0 <= c < g.cols
            && Glass(g, t, x, l) == Ink(g, p.lines[r][c], x % CELL_WIDTH, l - g.Band(r))
  {
    var r, c := g.RowOf(l), x / CELL_WIDTH;
    assert InCell(g, r, c, x % CELL_WIDTH, l - g.Band(r));
    assert CellShows(g, t.lcd, t.startLine, r, c, p.lines[r][c]);
    assert CellPixel(g, t.lcd, t.startLine, r, c, x % CELL_WIDTH, l - g.Band(r)) == Glass(g, t, x, l);
  }

  /** In numbers: rows are 16 or 8 lines high, cells 6 pixels wide. */
  lemma GlassInPixels(g: Geometry, t: Term, p: T.Screen, x: int, l: int)
    requires Shows(g, t, p) && 0 <= x < g.Width() && 0 <= l < g.Lcd()
    ensures var r, py := if g.height == 16 then l / 16 else l / 8, if g.height == 16 then l % 16 else l % 8;
            && 0 <= r < g.rows && 0 <= x / 6 < g.cols
            && var cell := p.lines[r][x / 6];
               Glass(g, t, x, l) <==> cell.Glyph? && g.font(cell.c, x % 6, py)
  {
    hide Shows, Glass;
    ShowsIsWellFormed(g, t, p);
    GlassIsPlainScreen(g, t, p, x, l);
  }

  /** The plain screen determines the terminal completely: registers, start line and every framebuffer pixel. */
  lemma ScreenDeterminesTerm(g: Geometry, t: Term, u: Term, p: T.Screen)
    requires Shows(g, t, p) && Shows(g, u, p)
    ensures t == u
  {
    forall q: Point | q in t.lcd ensures q in u.lcd && t.lcd[q] == u.lcd[q] {
      var l := g.Wrap(q.y - t.startLine);
      GlassIsPlainScreen(g, t, p, q.x, l);
      GlassIsPlainScreen(g, u, p, q.x, l);
    }
    assert t.lcd == u.lcd;
  }

  function HomeScreen(g: Geometry, mode: T.CursorMode, rung: bool): (p: T.Screen)
    requires g.Valid()
    ensures T.WellFormed(g, p)
  {
    T.Screen(1, 1, seq(g.rows, _ => T.Blanks(g.cols)), mode, 0, rung)
  }

  lemma HomeShows(g: Geometry, mode: T.CursorMode, allOn: bool)
    requires g.Valid()
    ensures Shows(g, Home(g, mode, allOn), HomeScreen(g, mode, allOn))
  {
    var t, p := Home(g, mode, allOn), HomeScreen(g, mode, allOn);
    assert Valid(g, t);
    forall r, c | 0 <= r < g.rows && 0 <= c < g.cols ensures CellShows(g, t.lcd, 0, r, c, p.lines[r][c]) {
    }
  }
}
