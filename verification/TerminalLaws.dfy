/** Laws of whole runs of the terminal, in closed form. */
module TerminalLaws {
  import opened Words
  import opened Panel
  import opened Terminal
  import opened Refinement
  import Modular
  import T = TextScreen

  /** The invariant in closed arithmetic form; in particular a parked x means "wrap pending" and nothing else. */
  lemma CursorArithmetic(g: Geometry, t: Term)
    requires Valid(g, t)
    ensures t.roll % g.height == 0
    ensures t.x == if (t.col - 1) * CELL_WIDTH < g.Width() then (t.col - 1) * CELL_WIDTH else g.Width() - 1
    ensures t.x == g.Width() - 1 <==> t.col == g.cols + 1
    ensures t.y == ((t.row - 1) * g.height + t.roll) % (g.rows * g.height)
  {
    AlignedIsMultiple(g, t.roll);
    BandIsProduct(g, t.row - 1);
    BandIsProduct(g, g.rows);
    var v, h := g.Band(t.row - 1) + t.roll, g.Lcd();
    if v >= h {
      Modular.DivModUnique(v, h, 1, v - h);
    } else {
      Modular.DivModUnique(v, h, 0, v);
    }
  }

  // ----- Losing and regaining the focus -----

  /** Back in focus, the terminal is in step with its panel exactly if it had been at home and unrolled. */
  lemma RefocusIsValidIff(g: Geometry, t: Term)
    requires Usable(g, t)
    ensures Usable(g, Refocused(g, t)) && (Valid(g, Refocused(g, t)) <==> AtHome(t))
    ensures Valid(g, Refocused(g, t)) ==> Refocused(g, t) == Home(g, t.mode, t.allOn)
  {
    hide Blank;
  }

  /** Otherwise the next move restores the invariant exactly if nothing had rolled, or the move itself rolls. */
  lemma MoveRecoversIff(g: Geometry, t: Term, row: int, col: int, mode: T.CursorMode)
    requires Valid(g, t) && 1 <= col <= g.cols + 1
    ensures Valid(g, SetCursor(g, Refocused(g, t), row, col, mode)) <==> t.roll == 0 || row < 1 || row > g.rows
  {
    hide SetCursor, Blank;
  }

  /** Before anything was cleared, the first move makes the terminal a valid one, as if it had been at home. */
  lemma MoveFromReset(g: Geometry, row: int, col: int, mode: T.CursorMode)
    requires g.Valid() && 1 <= col <= g.cols + 1
    ensures Usable(g, Reset(g)) && !Valid(g, Reset(g)) && Valid(g, SetCursor(g, Reset(g), row, col, mode))
    ensures SetCursor(g, Reset(g), row, col, mode) == SetCursor(g, Home(g, T.Hide, false), row, col, mode)
  {
    hide Blank;
  }

  /** And the first byte does exactly if it moves: a line feed goes home, a return and a backspace roll the panel first. */
  lemma ByteFromReset(g: Geometry, c: byte)
    requires g.Valid()
    ensures Valid(g, Apply(g, Reset(g), T.Put(c))) <==> !T.IsPrintable(c) && c != T.BELL
    ensures c == T.NEWLINE ==> Apply(g, Reset(g), T.Put(c)) == Home(g, T.Hide, false)
    ensures c == T.RETURN ==>
              var u := Apply(g, Reset(g), T.Put(c)); u.row == 1 && u.col == 1 && u.roll == g.Lcd() - g.height
    ensures c == T.BACKSPACE ==>
              var u := Apply(g, Reset(g), T.Put(c));
              u.row == g.rows && u.col == g.cols && u.roll == if g.rows == 1 then 0 else g.height
  {
    hide Blank, Draw;
  }

  /** After a change of focus: which byte restores the invariant, if it is the first one sent. */
  lemma ByteRecoversIff(g: Geometry, t: Term, c: byte)
    requires Valid(g, t)
    ensures Valid(g, Apply(g, Refocused(g, t), T.Put(c))) <==>
              if c == T.RETURN then t.roll == 0
              else if c == T.NEWLINE then t.roll == 0 || t.row == g.rows
              else if c == T.BACKSPACE then t.roll == 0 || (t.row == 1 && t.col == 1)
              else AtHome(t)
  {
    hide SetCursor, Blank, Draw;
    RefocusIsValidIff(g, t);
    var r := Refocused(g, t);
    if c == T.BELL {
      assert Valid(g, r.(allOn := true)) <==> Valid(g, r);
    } else if T.IsPrintable(c) {
      assert r.x != g.Width() - 1;
      assert Apply(g, r, T.Put(c)) == PrintInRow(g, r, c);
      assert t.row > 1 ==> g.Line(0, t.row - 1, 0) > 0;
    }
  }

  /** Wherever a character is drawn, the bitmap lies inside the framebuffer, on one whole cell. */
  lemma DrawsOneWholeCell(g: Geometry, t: Term)
    requires Valid(g, t)
    ensures var u := if t.col == g.cols + 1 then SetCursor(g, t, t.row + 1, 1, t.mode) else t;
            && 0 <= u.x && u.x + CELL_WIDTH <= g.Width() && u.x % CELL_WIDTH == 0
            && 0 <= u.y && u.y + g.height <= g.Lcd() && u.y % g.height == 0
  {
    var u := if t.col == g.cols + 1 then SetCursor(g, t, t.row + 1, 1, t.mode) else t;
    LinesOfRow(g, u.roll, u.row - 1, u.row - 1, 0);
    AlignedIsMultiple(g, u.y);
  }

  lemma OneBell(g: Geometry, t: Term, op: T.Op)
    requires Valid(g, t) && T.Fits(g, op)
    ensures Apply(g, t, op).allOn <==> t.allOn || op == T.Put(T.BELL)
  {
  }

  /** The bell switches all pixels on, and nothing a program sends switches them back. */
  lemma {:induction false} BellLatches(g: Geometry, t: Term, ops: seq<T.Op>)
    requires Valid(g, t) && T.ColumnsFit(g, ops)
    ensures Run(g, t, ops).allOn <==> t.allOn || T.Put(T.BELL) in ops
  {
    hide Apply, Valid;
    if ops == [] {
      RunNone(g, t);
    } else {
      BellLatches(g, t, ops[..|ops| - 1]);
      OneBell(g, Run(g, t, ops[..|ops| - 1]), ops[|ops| - 1]);
      assert ops == ops[..|ops| - 1] + [ops[|ops| - 1]];
    }
  }

  /** What was sent, less the bells. */
  function Silent(ops: seq<T.Op>): seq<T.Op> {
    if ops == [] then []
    else Silent(ops[..|ops| - 1]) + if ops[|ops| - 1] == T.Put(T.BELL) then [] else [ops[|ops| - 1]]
  }

  lemma {:induction false} SilentFits(g: Geometry, ops: seq<T.Op>)
    requires T.ColumnsFit(g, ops)
    ensures T.ColumnsFit(g, Silent(ops))
  {
    if ops != [] {
      SilentFits(g, ops[..|ops| - 1]);
    }
  }

  lemma SetCursorIgnoresBell(g: Geometry, t: Term, allOn: bool, row: int, col: int, mode: T.CursorMode)
    requires Sound(g, t) && 1 <= col <= g.cols + 1
    ensures SetCursor(g, t.(allOn := allOn), row, col, mode) == SetCursor(g, t, row, col, mode).(allOn := allOn)
  {
    hide Whiten, RollTo, Aligned, Covers, Geometry.Band, Geometry.Wrap, Geometry.Line, Geometry.Lcd;
  }

  lemma ApplyIgnoresBell(g: Geometry, t: Term, allOn: bool, op: T.Op)
    requires Usable(g, t) && T.Fits(g, op) && op != T.Put(T.BELL)
    ensures Apply(g, t.(allOn := allOn), op) == Apply(g, t, op).(allOn := allOn)
  {
    hide SetCursor, Draw, Aligned, Covers;
    match op
    case Move(row, col, mode) => SetCursorIgnoresBell(g, t, allOn, row, col, mode);
    case Put(c) =>
      if c == T.BACKSPACE {
        if t.col > 1 {
          SetCursorIgnoresBell(g, t, allOn, t.row, t.col - 1, t.mode);
        } else {
          SetCursorIgnoresBell(g, t, allOn, RowAbove(t.row), g.cols, t.mode);
        }
      } else if c == T.RETURN {
        SetCursorIgnoresBell(g, t, allOn, t.row, 1, t.mode);
      } else {
        SetCursorIgnoresBell(g, t, allOn, t.row + 1, 1, t.mode);
      }
  }

  lemma ValidIsUsable(g: Geometry, t: Term)
    requires Valid(g, t)
    ensures Usable(g, t)
  {
  }

  lemma BellRings(g: Geometry, t: Term)
    requires Valid(g, t)
    ensures Apply(g, t, T.Put(T.BELL)) == t.(allOn := true)
  {
  }

  /** A bell does nothing else: cursor, start line and framebuffer are those of the run without bells. */
  lemma {:induction false} BellChangesNothingElse(g: Geometry, t: Term, ops: seq<T.Op>)
    requires Valid(g, t) && T.ColumnsFit(g, ops)
    ensures T.ColumnsFit(g, Silent(ops))
    ensures Run(g, t, ops) == Run(g, t, Silent(ops)).(allOn := Run(g, t, ops).allOn)
  {
    hide Valid, Apply;
    SilentFits(g, ops);
    if ops == [] {
      RunNone(g, t);
    } else {
      var front, last := ops[..|ops| - 1], ops[|ops| - 1];
      BellChangesNothingElse(g, t, front);
      if last != T.Put(T.BELL) {
        var loud, quiet := Run(g, t, front), Run(g, t, Silent(front));
        ValidIsUsable(g, quiet);
        ApplyIgnoresBell(g, quiet, loud.allOn, last);
        assert Silent(ops)[..|Silent(front)|] == Silent(front);
      } else {
        assert Silent(ops) == Silent(front);
        BellRings(g, Run(g, t, front));
      }
    }
  }

  // ----- Overtyping -----

  /** A later bitmap on the same cell hides the earlier one. */
  lemma DrawOverDraw(g: Geometry, lcd: Pixels, x: int, y: int, c: byte, d: byte)
    ensures Draw(g, Draw(g, lcd, x, y, c), x, y, d) == Draw(g, lcd, x, y, d)
  {
  }

  /** From a cursor inside the row, `c` and backspace only change the cell under the cursor. */
  lemma PrintThenBackspace(g: Geometry, t: Term, c: byte)
    requires Valid(g, t) && t.col <= g.cols
    ensures Apply(g, PrintInRow(g, t, c), T.Put(T.BACKSPACE)) == t.(lcd := Draw(g, t.lcd, t.x, t.y, c))
  {
  }

  lemma RunThree(g: Geometry, t: Term, a: T.Op, b: T.Op, c: T.Op)
    requires Valid(g, t) && T.Fits(g, a) && T.Fits(g, b) && T.Fits(g, c)
    ensures Run(g, t, [a, b, c]) == Apply(g, Apply(g, Apply(g, t, a), b), c)
  {
    hide Apply;
    RunOne(g, t, a);
    assert [a, b, c][..2] == [a, b] && [a, b][..1] == [a];
  }

  lemma OvertypeApply(g: Geometry, t: Term, c: byte, d: byte)
    requires Valid(g, t) && T.IsPrintable(c) && T.IsPrintable(d)
    ensures Apply(g, Apply(g, Apply(g, t, T.Put(c)), T.Put(T.BACKSPACE)), T.Put(d)) == Apply(g, t, T.Put(d))
  {
    hide Draw, Geometry.Band, Geometry.Wrap, Covers;
    var u := if t.x == g.Width() - 1 then SetCursor(g, t, t.row + 1, 1, t.mode) else t;
    assert u.col <= g.cols;
    PrintThenBackspace(g, u, c);
    DrawOverDraw(g, u.lcd, u.x, u.y, c, d);
    var v := u.(lcd := Draw(g, u.lcd, u.x, u.y, c));
    assert Apply(g, t, T.Put(c)) == PrintInRow(g, u, c);
    assert Apply(g, v, T.Put(d)) == PrintInRow(g, v, d);
  }

  /** Printing `c`, a backspace and `d` leaves exactly what printing `d` leaves, even when `c` wraps and scrolls. */
  lemma Overtype(g: Geometry, t: Term, c: byte, d: byte)
    requires Valid(g, t) && T.IsPrintable(c) && T.IsPrintable(d)
    ensures Run(g, t, [T.Put(c), T.Put(T.BACKSPACE), T.Put(d)]) == Run(g, t, [T.Put(d)])
  {
    RunThree(g, t, T.Put(c), T.Put(T.BACKSPACE), T.Put(d));
    RunOne(g, t, T.Put(d));
    OvertypeApply(g, t, c, d);
  }

  // ----- A screenful of text -----

  /** The text position at which the `n`-th wrapped row starts. */
  function Start(g: Geometry, n: int): int {
    n * g.cols
  }

  lemma NextStart(g: Geometry, n: int)
    ensures Start(g, n + 1) == Start(g, n) + g.cols
  {
  }

  function CellAt(text: seq<byte>, i: int): T.Cell {
    if 0 <= i < |text| then T.Glyph(text[i]) else T.Blank
  }

  /** The cursor stands after the last character; every cell holds the character that wrapping at `cols` puts there. */
  ghost predicate Wrapped(g: Geometry, p: T.Screen, text: seq<byte>) {
    && g.Valid() && T.WellFormed(g, p)
    && p.scrolls >= 0 && (p.scrolls > 0 ==> p.row == g.rows)
    && Start(g, p.scrolls + p.row - 1) + (p.col - 1) == |text|
    && (text != [] ==> p.col >= 2)
    && forall r, c :: 0 <= r < g.rows && 0 <= c < g.cols ==> p.lines[r][c] == CellAt(text, Start(g, p.scrolls + r) + c)
  }

  /** Distinct cells hold distinct text positions. */
  lemma PositionsDiffer(n: int, a: int, i: int, b: int, j: int)
    requires 0 <= i < n && 0 <= j < n && a * n + i == b * n + j
    ensures a == b && i == j
  {
    Modular.DivModUnique(a * n + i, n, a, i);
    Modular.DivModUnique(b * n + j, n, b, j);
  }

  lemma StartsDiffer(g: Geometry, a: int, i: int, b: int, j: int)
    requires 0 <= i < g.cols && 0 <= j < g.cols && Start(g, a) + i == Start(g, b) + j
    ensures a == b && i == j
  {
    PositionsDiffer(g.cols, a, i, b, j);
  }

  lemma PrintInRowWraps(g: Geometry, p: T.Screen, text: seq<byte>, ch: byte)
    requires g.Valid() && T.WellFormed(g, p) && p.col <= g.cols
    requires p.scrolls >= 0 && (p.scrolls > 0 ==> p.row == g.rows)
    requires Start(g, p.scrolls + p.row - 1) + (p.col - 1) == |text|
    requires forall r, c :: 0 <= r < g.rows && 0 <= c < g.cols ==> p.lines[r][c] == CellAt(text, Start(g, p.scrolls + r) + c)
    ensures Wrapped(g, T.PrintInRow(g, p, ch), text + [ch])
  {
    hide Start;
    var q := T.PrintInRow(g, p, ch);
    forall r, c | 0 <= r < g.rows && 0 <= c < g.cols
      ensures q.lines[r][c] == CellAt(text + [ch], Start(g, q.scrolls + r) + c)
    {
      if Start(g, q.scrolls + r) + c == |text| {
        StartsDiffer(g, p.scrolls + p.row - 1, p.col - 1, p.scrolls + r, c);
      }
    }
  }

  /** Moving on from a full row: past the bottom, the new last row lies beyond the text. */
  lemma NextRowWraps(g: Geometry, p: T.Screen, text: seq<byte>)
    requires Wrapped(g, p, text) && p.col == g.cols + 1
    ensures var q := T.MoveTo(g, p, p.row + 1, 1, p.mode);
            && q.col == 1 && q.scrolls >= 0 && (q.scrolls > 0 ==> q.row == g.rows)
            && Start(g, q.scrolls + q.row - 1) == |text|
            && forall r, c :: 0 <= r < g.rows && 0 <= c < g.cols ==> q.lines[r][c] == CellAt(text, Start(g, q.scrolls + r) + c)
  {
    hide Start;
    var q := T.MoveTo(g, p, p.row + 1, 1, p.mode);
    var k := p.scrolls + p.row - 1;
    NextStart(g, k);
    assert q.scrolls + q.row - 1 == k + 1;
    if p.row == g.rows {
      forall r, c | 0 <= r < g.rows && 0 <= c < g.cols
        ensures q.lines[r][c] == CellAt(text, Start(g, q.scrolls + r) + c)
      {
        if r + 1 < g.rows {
          assert q.lines[r] == p.lines[r + 1];
          assert q.scrolls + r == p.scrolls + (r + 1);
        } else {
          assert q.scrolls + r == k + 1;
        }
      }
    }
  }

  lemma PrintWraps(g: Geometry, p: T.Screen, text: seq<byte>, ch: byte)
    requires Wrapped(g, p, text)
    ensures Wrapped(g, T.Print(g, p, ch), text + [ch])
  {
    if p.col == g.cols + 1 {
      NextRowWraps(g, p, text);
      PrintInRowWraps(g, T.MoveTo(g, p, p.row + 1, 1, p.mode), text, ch);
    } else {
      PrintInRowWraps(g, p, text, ch);
    }
  }

  lemma {:induction false} TextWraps(g: Geometry, mode: T.CursorMode, rung: bool, text: seq<byte>)
    requires g.Valid() && forall i :: 0 <= i < |text| ==> T.IsPrintable(text[i])
    ensures Wrapped(g, T.Run(g, HomeScreen(g, mode, rung), T.Puts(text)), text)
  {
    if text == [] {
      assert T.Puts(text) == [];
    } else {
      var front, ch := text[..|text| - 1], text[|text| - 1];
      TextWraps(g, mode, rung, front);
      assert T.Puts(text)[..|text| - 1] == T.Puts(front) && front + [ch] == text;
      PrintWraps(g, T.Run(g, HomeScreen(g, mode, rung), T.Puts(front)), front, ch);
    }
  }

  /** How many rows the text has scrolled away, and where it leaves the cursor, in closed form. */
  lemma WrappedArithmetic(g: Geometry, p: T.Screen, text: seq<byte>)
    requires Wrapped(g, p, text) && text != []
    ensures var full := (|text| - 1) / g.cols;
            && p.scrolls == (if full < g.rows then 0 else full + 1 - g.rows)
            && p.row == (if full < g.rows then full + 1 else g.rows)
            && p.col == (|text| - 1) % g.cols + 2
  {
    Modular.DivModUnique(|text| - 1, g.cols, p.scrolls + p.row - 1, p.col - 2);
  }

  /** The visible cell (r, c) holds the character that wrapping puts `scrolls` rows further down. */
  ghost predicate ShowsText(g: Geometry, t: Term, text: seq<byte>, scrolls: int, r: int, c: int) {
    CellShows(g, t.lcd, t.startLine, r, c, CellAt(text, Start(g, scrolls + r) + c))
  }

  lemma ShowsWrapped(g: Geometry, t: Term, p: T.Screen, text: seq<byte>)
    requires Shows(g, t, p) && Wrapped(g, p, text)
    ensures forall r, c :: 0 <= r < g.rows && 0 <= c < g.cols ==> ShowsText(g, t, text, p.scrolls, r, c)
  {
    forall r, c | 0 <= r < g.rows && 0 <= c < g.cols ensures ShowsText(g, t, text, p.scrolls, r, c) {
      assert CellShows(g, t.lcd, t.startLine, r, c, p.lines[r][c]);
    }
  }

  /** After n >= 1 printable bytes from a cleared screen: cursor, scrolling and visible text in closed form. */
  lemma TailOfText(g: Geometry, mode: T.CursorMode, allOn: bool, text: seq<byte>, t: Term, full: int, scrolls: int)
    requires g.Valid() && text != [] && forall i :: 0 <= i < |text| ==> T.IsPrintable(text[i])
    requires t == Run(g, Home(g, mode, allOn), T.Puts(text))
    requires full == (|text| - 1) / g.cols && scrolls == if full < g.rows then 0 else full + 1 - g.rows
    ensures t.col == (|text| - 1) % g.cols + 2
    ensures t.row == if full < g.rows then full + 1 else g.rows
    ensures t.roll == (scrolls * g.height) % g.Lcd()
    ensures forall r, c :: 0 <= r < g.rows && 0 <= c < g.cols ==> ShowsText(g, t, text, scrolls, r, c)
  {
    hide Run, T.Run, Wrapped, ShowsText, Geometry.Band, HomeScreen, Home;
    var home, p := HomeScreen(g, mode, allOn), T.Run(g, HomeScreen(g, mode, allOn), T.Puts(text));
    HomeShows(g, mode, allOn);
    LegalRunSplitsNothing(g, home, T.Puts(text));
    RingRefinesPlain(g, Home(g, mode, allOn), home, T.Puts(text));
    TextWraps(g, mode, allOn, text);
    WrappedArithmetic(g, p, text);
    RollOfScrolls(g, scrolls);
    ShowsWrapped(g, t, p, text);
  }

  lemma RollOfScrolls(g: Geometry, scrolls: int)
    requires g.Valid()
    ensures g.Band(scrolls % g.rows) == (scrolls * g.height) % g.Lcd()
  {
    var q, r := scrolls / g.rows, scrolls % g.rows;
    BandIsProduct(g, scrolls);
    assert scrolls == g.rows * q + r;
    if g.height == 8 {
      assert 8 * scrolls == (8 * g.rows) * q + 8 * r;
    } else {
      assert 16 * scrolls == (16 * g.rows) * q + 16 * r;
    }
    Modular.DivModUnique(scrolls * g.height, g.Lcd(), q, g.Band(r));
  }
}
