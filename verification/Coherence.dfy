/** Over whole sessions, what the tool shows is what a fresh redraw would show. */
module Coherence {
  import opened Words
  import opened Hex
  import opened Panel
  import opened Editor
  import opened DumpScreen
  import opened Painting
  import Refinement
  import Terminal
  import T = TextScreen

  lemma ImageHasBlankMargins(g: Geometry, s: Setup, e: Core)
    requires Fits(g, s)
    ensures BlankMargins(g, ImageLines(g, s, e))
  {
    hide RowText;
  }

  /** Lines are a matter of the window's address and of memory, not of cursor or mode. */
  lemma LinesIgnoreCursor(g: Geometry, s: Setup, e: Core, f: Core)
    requires Fits(g, s) && e.address == f.address && e.mem == f.mem
    ensures ImageLines(g, s, e) == ImageLines(g, s, f)
  {
  }

  lemma CursorPaintsImage(g: Geometry, s: Setup, e: Core, p: T.Screen)
    requires Fits(g, s) && InWindow(s, e) && T.WellFormed(g, p) && p.lines == ImageLines(g, s, e) && p.scrolls == 0
    ensures T.AllLegal(g, [CursorOp(e)]) && T.Run(g, p, [CursorOp(e)]) == Image(g, s, e, p.rung)
  {
    hide T.Run, ImageLines;
    CursorOpLands(g, s, e);
    T.RunOne(g, p, CursorOp(e));
  }

  lemma SettlePaintsImage(g: Geometry, s: Setup, e: Core, f: Core, p: T.Screen)
    requires Fits(g, s) && InWindow(s, f) && T.WellFormed(g, p) && p.scrolls == 0
    requires p.lines == ImageLines(g, s, e.(mem := f.mem))
    ensures T.AllLegal(g, SettleOps(s, e, f)) && T.Run(g, p, SettleOps(s, e, f)) == Image(g, s, f, p.rung)
  {
    hide T.Run, ImageLines;
    if f.address == e.address {
      LinesIgnoreCursor(g, s, e.(mem := f.mem), f);
      CursorPaintsImage(g, s, f, p);
    } else {
      ImageHasBlankMargins(g, s, e.(mem := f.mem));
      RedrawPaintsImage(g, s, f, p);
    }
  }

  lemma RedrawKeyPaintsImage(g: Geometry, s: Setup, e: Core, f: Core, rung: bool)
    requires Fits(g, s) && InWindow(s, e) && InWindow(s, f)
    ensures T.AllLegal(g, RedrawOps(s, f)) && T.Run(g, Image(g, s, e, rung), RedrawOps(s, f)) == Image(g, s, f, rung)
  {
    hide T.Run;
    ImageHasBlankMargins(g, s, e);
    RedrawPaintsImage(g, s, f, Image(g, s, e, rung));
  }

  /** A byte stored under the cursor, repainted, and the cursor then moved on. */
  lemma StorePaintsImage(g: Geometry, s: Setup, e: Core, v: byte, f: Core, rung: bool)
    requires Fits(g, s) && InWindow(s, e) && InWindow(s, f) && f.mem == e.mem[e.Position() := v]
    ensures var ops := RepaintOps(e.(mem := f.mem)) + SettleOps(s, e, f);
            T.AllLegal(g, ops) && T.Run(g, Image(g, s, e, rung), ops) == Image(g, s, f, rung)
  {
    hide T.Run, ImageLines, SettleOps, RepaintOps;
    var p, w := Image(g, s, e, rung), e.(mem := f.mem);
    RepaintPaintsImage(g, s, e, v, p);
    SettlePaintsImage(g, s, e, f, T.Run(g, p, RepaintOps(w)));
    T.RunConcat(g, p, RepaintOps(w), SettleOps(s, e, f));
  }

  /** Neither the mode nor the remembered address changes what a repaint sends. */
  lemma RepaintIgnoresMode(e: Core, f: Core)
    requires e.address == f.address && e.cursor == f.cursor && e.mem == f.mem
    ensures RepaintOps(e) == RepaintOps(f)
  {
  }

  lemma CharPaintsImage(g: Geometry, s: Setup, e: Core, param: word32, rung: bool)
    requires Fits(g, s) && InWindow(s, e)
    ensures InWindow(s, OnChar(s, e, param))
    ensures var ops := MessageOps(s, e, Char(param));
            T.AllLegal(g, ops) && T.Run(g, Image(g, s, e, rung), ops) == Image(g, s, OnChar(s, e, param), rung)
  {
    hide T.Run, ImageLines, RedrawOps, RepaintOps;
    var p, f := Image(g, s, e, rung), OnChar(s, e, param);
    StepStaysInWindow(s, e, Char(param));
    T.RunNone(g, p);
    if param == TAB {
      LinesIgnoreCursor(g, s, e, f);
      CursorPaintsImage(g, s, f, p);
    } else if param != CR {
      var nibble := HexCharToNibble(LowByte(param));
      if e.mode == Ascii {
        StorePaintsImage(g, s, e, f.mem[e.Position()], f, rung);
      } else if nibble < 0x80 {
        StorePaintsImage(g, s, e, f.mem[e.Position()], f, rung);
        RepaintIgnoresMode(e.(mem := f.mem), e.(mem := f.mem, mode := NibbleHi));
      }
    }
  }

  lemma KeyPaintsImage(g: Geometry, s: Setup, e: Core, param: word32, rung: bool)
    requires Fits(g, s) && InWindow(s, e) && Modelled(KeyDown(param))
    ensures InWindow(s, OnKey(s, e, KeyOf(param)))
    ensures var ops := MessageOps(s, e, KeyDown(param));
            T.AllLegal(g, ops) && T.Run(g, Image(g, s, e, rung), ops) == Image(g, s, OnKey(s, e, KeyOf(param)), rung)
  {
    hide T.Run, ImageLines, RedrawOps, KeyOf;
    var p, key, f := Image(g, s, e, rung), KeyOf(param), OnKey(s, e, KeyOf(param));
    KeysNavigate(s, e, key);
    T.RunNone(g, p);
    RedrawKeyPaintsImage(g, s, e, f, rung);
    if key != ClearScratch {
      SettlePaintsImage(g, s, e, f, p);
    }
  }

  /** One message keeps the screen a picture of memory. */
  lemma MessagePaintsImage(g: Geometry, s: Setup, e: Core, m: Message, rung: bool)
    requires Fits(g, s) && InWindow(s, e) && Modelled(m)
    ensures InWindow(s, Step(s, e, m))
    ensures var ops := MessageOps(s, e, m);
            T.AllLegal(g, ops) && T.Run(g, Image(g, s, e, rung), ops) == Image(g, s, Step(s, e, m), rung)
  {
    StepStaysInWindow(s, e, m);
    match m
    case Char(param) => CharPaintsImage(g, s, e, param, rung);
    case KeyDown(param) => KeyPaintsImage(g, s, e, param, rung);
  }

  ghost predicate AllModelled(ms: seq<Message>) {
    forall i :: 0 <= i < |ms| ==> Modelled(ms[i])
  }

  lemma {:induction false} SessionPaintsImage(g: Geometry, s: Setup, e: Core, ms: seq<Message>, rung: bool)
    requires Fits(g, s) && InWindow(s, e) && AllModelled(ms)
    ensures InWindow(s, Session(s, e, ms))
    ensures var ops := SessionOps(s, e, ms);
            T.AllLegal(g, ops) && T.Run(g, Image(g, s, e, rung), ops) == Image(g, s, Session(s, e, ms), rung)
  {
    hide T.Run, ImageLines, MessageOps, Step;
    SessionStaysInWindow(s, e, ms);
    if ms == [] {
      T.RunNone(g, Image(g, s, e, rung));
    } else {
      var front, last := ms[..|ms| - 1], ms[|ms| - 1];
      var f := Session(s, e, front);
      SessionPaintsImage(g, s, e, front, rung);
      MessagePaintsImage(g, s, f, last, rung);
      T.RunConcat(g, Image(g, s, e, rung), SessionOps(s, e, front), MessageOps(s, f, last));
    }
  }

  // ----- On the real terminal -----

  /** MSG_SETFOCUS: clear the screen and redraw. */
  function Focused(g: Geometry, s: Setup, e: Core, mode: T.CursorMode, allOn: bool): Terminal.Term
    requires Fits(g, s) && InWindow(s, e)
  {
    RedrawOnTerminal(g, s, e, mode, allOn);
    Terminal.Run(g, Terminal.Home(g, mode, allOn), RedrawOps(s, e))
  }

  lemma RedrawOnTerminal(g: Geometry, s: Setup, e: Core, mode: T.CursorMode, allOn: bool)
    requires Fits(g, s) && InWindow(s, e)
    ensures Terminal.Valid(g, Terminal.Home(g, mode, allOn)) && T.AllLegal(g, RedrawOps(s, e))
    ensures Terminal.Shows(g, Terminal.Run(g, Terminal.Home(g, mode, allOn), RedrawOps(s, e)), Image(g, s, e, allOn))
  {
    hide Image, RedrawOps, Terminal.Run, T.Run;
    var p := Refinement.HomeScreen(g, mode, allOn);
    Refinement.HomeShows(g, mode, allOn);
    RedrawPaintsImage(g, s, e, p);
    Refinement.LegalRunSplitsNothing(g, p, RedrawOps(s, e));
    Refinement.RingRefinesPlain(g, Terminal.Home(g, mode, allOn), p, RedrawOps(s, e));
  }

  /** The main result: after focus and any session, registers, start line and every pixel are those of a fresh redraw. */
  lemma SessionEqualsFreshRedraw(
      g: Geometry, s: Setup, e: Core, ms: seq<Message>, mode: T.CursorMode, other: T.CursorMode, allOn: bool)
    requires Fits(g, s) && InWindow(s, e) && AllModelled(ms)
    ensures InWindow(s, Session(s, e, ms)) && T.AllLegal(g, SessionOps(s, e, ms))
    ensures Terminal.Run(g, Focused(g, s, e, mode, allOn), SessionOps(s, e, ms))
         == Focused(g, s, Session(s, e, ms), other, allOn)
    ensures Terminal.Shows(g, Focused(g, s, Session(s, e, ms), other, allOn), Image(g, s, Session(s, e, ms), allOn))
  {
    hide Image, RedrawOps, SessionOps, Terminal.Run, T.Run;
    var f, ops := Session(s, e, ms), SessionOps(s, e, ms);
    RedrawOnTerminal(g, s, e, mode, allOn);
    SessionPaintsImage(g, s, e, ms, allOn);
    Refinement.LegalRunSplitsNothing(g, Image(g, s, e, allOn), ops);
    Refinement.RingRefinesPlain(g, Focused(g, s, e, mode, allOn), Image(g, s, e, allOn), ops);
    RedrawOnTerminal(g, s, f, other, allOn);
    Refinement.ScreenDeterminesTerm(g, Terminal.Run(g, Focused(g, s, e, mode, allOn), ops),
                                    Focused(g, s, f, other, allOn), Image(g, s, f, allOn));
  }

  // ----- A cursor left over from a taller screen -----

  /** MSG_SETFOCUS recounts the rows but keeps g_cursor: the redraw shows memory's picture exactly when g_cursor still fits. */
  lemma FocusShowsMemoryIff(g: Geometry, s: Setup, e: Core, mode: T.CursorMode, allOn: bool)
    requires Fits(g, s) && 0 <= e.cursor
    ensures T.AllLegal(g, RedrawOps(s, e))
    ensures var p := T.Run(g, Refinement.HomeScreen(g, mode, allOn), RedrawOps(s, e));
            && Terminal.Shows(g, Terminal.Run(g, Terminal.Home(g, mode, allOn), RedrawOps(s, e)), p)
            && (p.lines == ImageLines(g, s, e) <==> e.cursor < s.Bytes())
  {
    hide T.Run, Terminal.Run, RowText;
    var home := Refinement.HomeScreen(g, mode, allOn);
    RowsOpsPaint(g, s, e, home, s.rows);
    CursorOpLands(g, s, e);
    var q := T.Run(g, home, RowsOps(e, s.rows));
    T.RunOne(g, q, CursorOp(e));
    T.RunConcat(g, home, RowsOps(e, s.rows), [CursorOp(e)]);
    assert q.lines == ImageLines(g, s, e);
    if e.cursor >= s.Bytes() {
      var p := T.Apply(g, q, CursorOp(e));
      assert p.lines[g.rows - 1][LAST_COL - 1] == T.Blank;
      assert ImageLines(g, s, e)[g.rows - 1][LAST_COL - 1].Glyph?;
    }
    Refinement.HomeShows(g, mode, allOn);
    Refinement.LegalRunSplitsNothing(g, home, RedrawOps(s, e));
    Refinement.RingRefinesPlain(g, Terminal.Home(g, mode, allOn), home, RedrawOps(s, e));
  }

  /** For instance: cursor on the fifth row of an eight-row screen, then focus with a four-row font. */
  lemma FocusAfterFontChangeGoesWrong(g: Geometry, e: Core, scratch: word32, mode: T.CursorMode, allOn: bool)
    requires Fits(g, Setup(4, scratch)) && e.cursor == 32
    ensures InWindow(Setup(8, scratch), e.(address := 0)) && !InWindow(Setup(4, scratch), e.(address := 0))
    ensures T.AllLegal(g, RedrawOps(Setup(4, scratch), e))
    ensures T.Run(g, Refinement.HomeScreen(g, mode, allOn), RedrawOps(Setup(4, scratch), e)).lines
         != ImageLines(g, Setup(4, scratch), e)
  {
    hide T.Run, ImageLines, RedrawOps;
    FocusShowsMemoryIff(g, Setup(4, scratch), e, mode, allOn);
  }
}
