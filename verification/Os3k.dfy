/** os3k.c as it runs: the terminal's globals, updated in place. */
module Os3k {
  import opened Words
  import opened Panel
  import opened Terminal
  import opened TerminalLaws
  import T = TextScreen

  lemma NothingPut()
    ensures T.Puts([]) == []
  {
  }

  lemma PutsNext(str: seq<byte>, i: nat)
    requires i < |str|
    ensures T.Puts(str[..i + 1])[..i] == T.Puts(str[..i]) && T.Puts(str[..i + 1])[i] == T.Put(str[i])
  {
  }

  lemma ReadyIsUsable(g: Geometry, t: Term)
    requires Valid(g, t)
    ensures Usable(g, t)
  {
  }

  /** The registers that a cursor move leaves. */
  lemma MovedTerm(g: Geometry, t: Term, row: int, col: int, mode: T.CursorMode)
    requires Sound(g, t) && 1 <= col <= g.cols + 1
    ensures var u, target := Terminal.SetCursor(g, t, row, col, mode), Clamp(g, row);
            && u.row == target && u.col == col && u.mode == mode && u.allOn == t.allOn
            && u.roll == RollTo(g, t.roll, row) && u.startLine == (if target != row then u.roll else t.startLine)
            && u.x == CursorX(g, col) && u.y == g.Line(u.roll, target - 1, 0)
            && u.lcd == if target != row then Whiten(t.lcd, u.x, u.y, g.Width(), g.height) else t.lcd
  {
    hide Whiten, RollTo, Aligned, Geometry.Band, Geometry.Wrap, Geometry.Line, Geometry.Lcd;
  }

  lemma RowsFitInByte(g: Geometry)
    requires g.Valid()
    ensures g.rows <= 8
  {
  }

  /** A dark panel is the blank one. */
  lemma DarkPanelIsBlank(g: Geometry, lcd: Pixels)
    requires Covers(g, lcd) && forall p :: !Lit(lcd, p)
    ensures lcd == Blank(g)
  {
    forall p | p in lcd ensures p in Blank(g) && lcd[p] == Blank(g)[p] {
      assert !Lit(lcd, p);
    }
    assert forall p :: p in Blank(g) ==> p in lcd;
  }

  class Console {
    const geometry: Geometry
    var curRow: int
    var curCol: int
    var curLcdRoll: int
    var cursorX: int
    var cursorY: int
    var cursorMode: T.CursorMode
    var startLine: int
    var allPixOn: bool
    var lcd: Pixels

    function State(): Term
      reads this
    {
      Term(curRow, curCol, curLcdRoll, cursorX, cursorY, cursorMode, startLine, allPixOn, lcd)
    }

    ghost predicate Ready()
      reads this
    {
      Valid(geometry, State())
    }

    /** As linked: no valid terminal yet. */
    constructor (g: Geometry)
      requires g.Valid()
      ensures geometry == g && State() == Reset(g) && !Ready() && Usable(g, State())
    {
      geometry := g;
      curRow, curCol, curLcdRoll, cursorX, cursorY := 0, 0, 0, 0, 0;
      cursorMode, startLine, allPixOn := T.Hide, 0, false;
      lcd := Blank(g);
    }

    /** `_OS3K_ClearScreen`, which is firmware and knows nothing of the terminal's registers. */
    method FirmwareClearScreen()
      modifies this`lcd, this`cursorX, this`cursorY
      ensures Covers(geometry, lcd) && forall p :: !Lit(lcd, p)
      ensures cursorX == 0 && cursorY == 0
    {
      lcd := Blank(geometry);
      cursorX, cursorY := 0, 0;
    }

    method ClearScreen()
      modifies this
      ensures State() == Home(geometry, old(cursorMode), old(allPixOn))
    {
      FirmwareClearScreen();
      DarkPanelIsBlank(geometry, lcd);
      curCol := 1;
      curRow := 1;
      curLcdRoll := 0;
      startLine := curLcdRoll;
    }

    /** MSG_KILLFOCUS: a terminal that has rolled is no longer in step with its panel. */
    method KillFocus()
      modifies this`startLine
      ensures startLine == 0
      ensures old(Ready()) ==> Usable(geometry, State()) && (Ready() <==> curLcdRoll == 0)
    {
      startLine := 0;
    }

    /** MSG_SETFOCUS before the applet sees it: an empty panel, which the terminal may use at once only if it stands at home. */
    method SetFocus()
      modifies this`lcd, this`cursorX, this`cursorY
      ensures Covers(geometry, lcd) && (forall p :: !Lit(lcd, p)) && cursorX == 0 && cursorY == 0
      ensures old(Usable(geometry, State())) ==> Usable(geometry, State())
      ensures old(Usable(geometry, State())) && startLine == 0 ==> (Ready() <==> AtHome(State()))
      ensures Ready() && startLine == 0 ==> State() == Home(geometry, cursorMode, allPixOn)
    {
      FirmwareClearScreen();
      DarkPanelIsBlank(geometry, lcd);
      assert startLine == 0 ==> State() == Refocused(geometry, old(State()));
      if old(Usable(geometry, State())) {
        RefocusIsValidIff(geometry, old(State()));
      }
    }

    /** The first half of SetCursor: a row off the screen turns the start line. */
    method ScrollTo(row: int) returns (target: int, clearRow: bool)
      requires Sound(geometry, State())
      modifies this`curLcdRoll, this`startLine
      ensures target == Clamp(geometry, row) && (clearRow <==> target != row)
      ensures curLcdRoll == RollTo(geometry, old(curLcdRoll), row)
      ensures startLine == if clearRow then curLcdRoll else old(startLine)
    {
      hide RollTo, Aligned, Covers, Geometry.Band, Geometry.Wrap, Geometry.Line, Geometry.Lcd;
      ScrollArithmetic(geometry, curLcdRoll, row);
      target, clearRow := row, false;
      if row < 1 || row > geometry.rows {
        if row < 1 {
          target := 1;
          curLcdRoll := curLcdRoll - geometry.height;
          if curLcdRoll < 0 {
            curLcdRoll := curLcdRoll + geometry.Lcd();
          }
        } else {
          target := geometry.rows;
          curLcdRoll := curLcdRoll + geometry.height;
          if curLcdRoll >= geometry.Lcd() {
            curLcdRoll := curLcdRoll - geometry.Lcd();
          }
        }
        startLine := curLcdRoll;
        clearRow := true;
      }
    }

    method SetCursor(row: int, col: int, mode: T.CursorMode)
      requires Sound(geometry, State()) && 0 <= row < 256 && 1 <= col <= geometry.cols + 1
      modifies this
      ensures State() == Terminal.SetCursor(geometry, old(State()), row, col, mode)
    {
      hide Whiten, RollTo, Aligned, Covers, Geometry.Band, Geometry.Wrap, Geometry.Line, Geometry.Lcd, Terminal.SetCursor;
      ghost var u := Terminal.SetCursor(geometry, State(), row, col, mode);
      MovedTerm(geometry, State(), row, col, mode);
      cursorMode := T.Hide;
      var target, clearRow := ScrollTo(row);
      CursorLine(geometry, u.roll, u.row);
      curRow := target;
      curCol := col;
      cursorX := (col - 1) * CELL_WIDTH;
      if cursorX == geometry.Width() {
        cursorX := cursorX - 1;
      }
      cursorY := (target - 1) * geometry.height + curLcdRoll;
      if cursorY >= geometry.Lcd() {
        cursorY := cursorY - geometry.Lcd();
      }
      assert cursorX == u.x && cursorY == u.y;
      if clearRow {
        lcd := Whiten(lcd, cursorX, cursorY, geometry.Width(), geometry.height);
      }
      cursorMode := mode;
    }

    /** What follows the switch of `fputc`. */
    method Print(c: byte)
      requires Usable(geometry, State())
      modifies this
      ensures State() == Terminal.Print(geometry, old(State()), c)
    {
      hide Whiten, Draw, RollTo, Aligned, Covers, Geometry.Band, Geometry.Wrap, Geometry.Line, Geometry.Lcd;
      RowsFitInByte(geometry);
      var mode := cursorMode;
      ghost var t := State();
      if cursorX == geometry.Width() - 1 {
        SetCursor(curRow + 1, 1, T.Hide);
      } else {
        cursorMode := T.Hide;
      }
      ghost var u := if t.x == geometry.Width() - 1 then Terminal.SetCursor(geometry, t, t.row + 1, 1, t.mode) else t;
      assert State() == u.(mode := T.Hide);
      lcd := Draw(geometry, lcd, cursorX, cursorY, c);
      cursorX := cursorX + CELL_WIDTH;
      if cursorX == geometry.Width() {
        cursorX := cursorX - 1;
      }
      curCol := curCol + 1;
      cursorMode := mode;
      assert State() == PrintInRow(geometry, u, c);
    }

    method Fputc(c: byte)
      requires Usable(geometry, State())
      modifies this
      ensures State() == Apply(geometry, old(State()), T.Put(c))
    {
      hide Terminal.SetCursor, Terminal.Print, Aligned, Covers, Geometry.Band, Geometry.Wrap, Geometry.Line, Geometry.Lcd;
      RowsFitInByte(geometry);
      var mode := cursorMode;
      if c == T.BELL {
        cursorMode := T.Hide;
        allPixOn := true;
        // _LCD_AllPixOn(false) sends the same command: it ignores its argument.
        allPixOn := true;
        cursorMode := mode;
      } else if c == T.BACKSPACE {
        if curCol > 1 {
          SetCursor(curRow, curCol - 1, mode);
        } else {
          var row := curRow - 1;
          if row < 0 {
            row := 255;
          }
          SetCursor(row, geometry.cols, mode);
        }
      } else if c == T.NEWLINE {
        SetCursor(curRow + 1, 1, mode);
      } else if c == T.RETURN {
        SetCursor(curRow, 1, mode);
      } else {
        Print(c);
      }
    }

    /** `str` is a C string: everything up to the first NUL is sent. */
    method Fputs(str: seq<byte>)
      requires Ready() && 0 in str
      modifies this
      ensures Ready()
      ensures exists n :: 0 <= n < |str| && str[n] == 0 && 0 !in str[..n]
                       && State() == Run(geometry, old(State()), T.Puts(str[..n]))
    {
      hide Apply, Usable, T.Puts;
      var i := 0;
      NothingPut();
      RunNone(geometry, State());
      assert str[..0] == [];
      while str[i] != 0
        invariant 0 <= i < |str| && 0 !in str[..i]
        invariant Ready() && State() == Run(geometry, old(State()), T.Puts(str[..i]))
        decreases |str| - i
      {
        PutsNext(str, i);
        ReadyIsUsable(geometry, State());
        assert 0 !in str[..i + 1] && 0 in str[i + 1..] by {
          assert str == str[..i + 1] + str[i + 1..];
        }
        Fputc(str[i]);
        i := i + 1;
      }
    }
  }
}
