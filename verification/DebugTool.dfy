/** The dump editor of DebugTool.c as it runs, drawing through the terminal of os3k.c. */
module DebugTool {
  import opened Bits
  import opened Words
  import opened Hex
  import opened Panel
  import opened Editor
  import opened DumpScreen
  import opened Painting
  import opened Coherence
  import opened Os3k
  import Refinement
  import Terminal
  import T = TextScreen

  lemma PutsConcat(a: seq<byte>, b: seq<byte>)
    ensures T.Puts(a + b) == T.Puts(a) + T.Puts(b)
  {
  }

  /** One text after another is their concatenation. */
  lemma SentText(g: Geometry, t: Terminal.Term, sent: seq<byte>, text: seq<byte>)
    requires Terminal.Valid(g, t)
    ensures Terminal.Run(g, Terminal.Run(g, t, T.Puts(sent)), T.Puts(text)) == Terminal.Run(g, t, T.Puts(sent + text))
  {
    hide Terminal.Run;
    PutsConcat(sent, text);
    Terminal.RunConcat(g, t, T.Puts(sent), T.Puts(text));
  }

  lemma AddressHasNoNul(a: word32)
    ensures 0 !in AddressText(a)
  {
    HexNIsHex(a, 8);
  }

  lemma HexTextHasNoNul(c: byte)
    ensures 0 !in HexText(c)
  {
    HexDigitRoundTrip((c >> 4) as int);
    HexDigitRoundTrip((c & 0x0F) as int);
  }

  lemma FirstNul(text: seq<byte>, n: int)
    requires 0 !in text && 0 <= n <= |text| && (text + [0])[n] == 0
    ensures (text + [0])[..n] == text
  {
    assert forall k :: 0 <= k < |text| ==> text[k] in text;
  }

  /** One more than the last cursor of the tallest screen. */
  const MAX_CURSOR: int := 64

  const BUFFER_COUNT: int := 7

  class Applet {
    const console: Console
    const scratch: word32
    var address: word32
    var prevAddress: word32
    var mode: Mode
    var cursor: int
    var rowsPerScreen: int
    var mem: Memory
    /** g_buffer: what the invoke dialog's seven fields start with. */
    var buffers: seq<seq<byte>>

    function State(): Core
      reads this
    {
      Core(address, prevAddress, mode, cursor, mem)
    }

    function Settings(): Setup
      reads this
    {
      Setup(rowsPerScreen, scratch)
    }

    /** Enough to draw; after a focus change the cursor may lie below the screen. */
    ghost predicate Drawable()
      reads this, console
    {
      console.Ready() && Fits(console.geometry, Settings()) && 0 <= cursor < MAX_CURSOR
    }

    ghost predicate Ready()
      reads this, console
    {
      Drawable() && InWindow(Settings(), State())
    }

    /** The terminal shows the picture of the current memory, window and cursor. */
    ghost predicate Coherent()
      reads this, console
    {
      Ready() && Terminal.Shows(console.geometry, console.State(),
                                Image(console.geometry, Settings(), State(), console.allPixOn))
    }

    /** MSG_INIT. */
    constructor (console: Console, scratch: word32, memory: Memory)
      ensures this.console == console && this.scratch == scratch
      ensures State() == Core(0, 0, NibbleHi, 0, memory)
      ensures |buffers| == BUFFER_COUNT && forall i :: 0 <= i < BUFFER_COUNT ==> buffers[i] == [SPACE, 0]
    {
      this.console, this.scratch := console, scratch;
      address, prevAddress, mode, cursor, rowsPerScreen, mem := 0, 0, NibbleHi, 0, 0, memory;
      buffers := seq(BUFFER_COUNT, _ => [SPACE, 0]);
    }

    method PutText(text: seq<byte>)
      requires console.Ready() && 0 !in text
      modifies console
      ensures console.Ready()
      ensures console.State() == Terminal.Run(console.geometry, old(console.State()), T.Puts(text))
    {
      hide Terminal.Run, Terminal.Valid;
      ghost var before := console.State();
      console.Fputs(text + [0]);
      ghost var n :| 0 <= n < |text + [0]| && (text + [0])[n] == 0 && 0 !in (text + [0])[..n]
                  && console.State() == Terminal.Run(console.geometry, before, T.Puts((text + [0])[..n]));
      FirstNul(text, n);
    }

    method DumpSetCursor(offset: int, mode: Mode, cursorMode: T.CursorMode)
      requires console.Ready() && 0 <= offset < 128 && LAST_COL <= console.geometry.cols
      modifies console
      ensures console.Ready()
      ensures console.State() == Terminal.SetCursor(console.geometry, old(console.State()),
                                                    RowAt(offset), ColAt(offset, mode), cursorMode)
    {
      var row := 1 + offset / BYTES_PER_ROW;
      var col := offset % BYTES_PER_ROW;
      if mode == Ascii {
        col := col + BYTES_PER_ROW * 3;
      } else {
        col := col * 3;
        if mode == NibbleLo {
          col := col + 1;
        }
      }
      col := col + 12;
      console.SetCursor(row, col, cursorMode);
    }

    method DumpSetCursorCur()
      requires Drawable()
      modifies console
      ensures Drawable()
      ensures console.State() == Terminal.Run(console.geometry, old(console.State()), [CursorOp(State())])
    {
      CursorOpLands(console.geometry, Settings(), State());
      Terminal.RunOne(console.geometry, console.State(), CursorOp(State()));
      DumpSetCursor(cursor, mode, T.Show);
    }

    method DumpRedrawByteHex(c: byte)
      requires console.Ready()
      modifies console
      ensures console.Ready()
      ensures console.State() == Terminal.Run(console.geometry, old(console.State()), T.Puts(HexText(c)))
    {
      HexTextHasNoNul(c);
      PutText(HexText(c));
    }

    method DumpRedrawByteAscii(c: byte)
      requires console.Ready()
      modifies console
      ensures console.Ready()
      ensures console.State() == Terminal.Run(console.geometry, old(console.State()), T.Puts([AsciiOf(c)]))
    {
      var shown := c;
      if c < 0x20 {
        shown := DOT;
      }
      Terminal.RunOne(console.geometry, console.State(), T.Put(shown));
      assert T.Puts([shown]) == [T.Put(shown)];
      console.Fputc(shown);
    }

    /** The second half of DumpWriteAndRedrawCur. */
    method RedrawCur(c: byte)
      requires Ready() && c == mem[Word(address + cursor)]
      modifies console
      ensures Ready()
      ensures T.ColumnsFit(console.geometry, RepaintOps(State()))
      ensures console.State() == Terminal.Run(console.geometry, old(console.State()), RepaintOps(State()))
    {
      hide Terminal.Run, Terminal.Valid, Terminal.SetCursor, HexText, AsciiOf, Word;
      ghost var g, t := console.geometry, console.State();
      ghost var hex := T.Move(RowAt(cursor), ColAt(cursor, NibbleHi), T.Hide);
      ghost var ascii := T.Move(RowAt(cursor), ColAt(cursor, Ascii), T.Hide);
      DumpSetCursor(cursor, NibbleHi, T.Hide);
      Terminal.RunOne(g, t, hex);
      DumpRedrawByteHex(c);
      Terminal.RunConcat(g, t, [hex], T.Puts(HexText(c)));
      ghost var t2 := console.State();
      DumpSetCursor(cursor, Ascii, T.Hide);
      Terminal.RunOne(g, t2, ascii);
      DumpRedrawByteAscii(c);
      Terminal.RunConcat(g, t2, [ascii], T.Puts([AsciiOf(c)]));
      Terminal.RunConcat(g, t, [hex] + T.Puts(HexText(c)), [ascii] + T.Puts([AsciiOf(c)]));
    }

    method DumpWriteAndRedrawCur(value: byte, mask: byte)
      requires Ready()
      modifies this`mem, console
      ensures Ready() && State() == Store(old(State()), value, mask)
      ensures T.ColumnsFit(console.geometry, RepaintOps(State()))
      ensures console.State() == Terminal.Run(console.geometry, old(console.State()), RepaintOps(State()))
    {
      hide Terminal.Run, RepaintOps, Word;
      var p := Word(address + cursor);
      var stored := (mem[p] & mask) | value;
      mem := mem[p := stored];
      var c := mem[p];
      RedrawCur(c);
    }

    ghost predicate Buffered(buffer: array<byte>, pAddr: word32, n: int)
      requires n <= buffer.Length
      reads this, buffer
    {
      forall k :: 0 <= k < n ==> buffer[k] == mem[Word(pAddr + k)]
    }

    // The row loop of DumpRedrawScreen and the three loops inside it.

    method ReadRow(pAddr: word32) returns (buffer: array<byte>, next: word32)
      ensures fresh(buffer) && buffer.Length == BYTES_PER_ROW && Buffered(buffer, pAddr, BYTES_PER_ROW)
      ensures next == Word(pAddr + BYTES_PER_ROW)
    {
      buffer := new byte[BYTES_PER_ROW];
      next := pAddr;
      for i := 0 to BYTES_PER_ROW
        invariant next == Word(pAddr + i) && Buffered(buffer, pAddr, i)
      {
        buffer[i] := mem[next];
        next := Word(next + 1);
      }
    }

    method DrawHexPane(buffer: array<byte>, ghost pAddr: word32)
      requires console.Ready() && buffer.Length == BYTES_PER_ROW && Buffered(buffer, pAddr, BYTES_PER_ROW)
      modifies console
      ensures console.Ready()
      ensures console.State() == Terminal.Run(console.geometry, old(console.State()), T.Puts(HexPane(mem, pAddr, 8)))
    {
      hide Terminal.Run, HexText;
      ghost var g, t := console.geometry, console.State();
      Terminal.RunNone(g, t);
      assert T.Puts([]) == [];
      for i := 0 to BYTES_PER_ROW
        invariant console.Ready() && Buffered(buffer, pAddr, BYTES_PER_ROW)
        invariant console.State() == Terminal.Run(g, t, T.Puts(HexPane(mem, pAddr, i)))
      {
        DumpRedrawByteHex(buffer[i]);
        SentText(g, t, HexPane(mem, pAddr, i), HexText(buffer[i]));
      }
    }

    method DrawAsciiPane(buffer: array<byte>, ghost pAddr: word32)
      requires console.Ready() && buffer.Length == BYTES_PER_ROW && Buffered(buffer, pAddr, BYTES_PER_ROW)
      modifies console
      ensures console.Ready()
      ensures console.State() == Terminal.Run(console.geometry, old(console.State()), T.Puts(AsciiPane(mem, pAddr, 8)))
    {
      hide Terminal.Run, AsciiOf;
      ghost var g, t := console.geometry, console.State();
      Terminal.RunNone(g, t);
      assert T.Puts([]) == [];
      for i := 0 to BYTES_PER_ROW
        invariant console.Ready() && Buffered(buffer, pAddr, BYTES_PER_ROW)
        invariant console.State() == Terminal.Run(g, t, T.Puts(AsciiPane(mem, pAddr, i)))
      {
        DumpRedrawByteAscii(buffer[i]);
        SentText(g, t, AsciiPane(mem, pAddr, i), [AsciiOf(buffer[i])]);
      }
    }

    /** `pAddr` is where this row's bytes begin; the next row's is returned. */
    method DumpRedrawRow(row: int, pAddr: word32) returns (next: word32)
      requires Drawable() && 1 <= row <= rowsPerScreen
      requires pAddr == Word(address + BYTES_PER_ROW * (row - 1))
      modifies console
      ensures Drawable() && next == Word(address + BYTES_PER_ROW * row)
      ensures T.ColumnsFit(console.geometry, RowOps(State(), row - 1))
      ensures console.State() == Terminal.Run(console.geometry, old(console.State()), RowOps(State(), row - 1))
    {
      hide Terminal.Run, AddressText, HexPane, AsciiPane, Word;
      ghost var g, t := console.geometry, console.State();
      WordAbsorbs(address + BYTES_PER_ROW * (row - 1), BYTES_PER_ROW);
      ghost var move := T.Move(row, ADDRESS_COL, T.Hide);
      console.SetCursor(row, 3, T.Hide);
      Terminal.RunOne(g, t, move);
      ghost var t1 := console.State();
      AddressHasNoNul(pAddr);
      PutText(AddressText(pAddr));
      var buffer;
      buffer, next := ReadRow(pAddr);
      DrawHexPane(buffer, pAddr);
      SentText(g, t1, AddressText(pAddr), HexPane(mem, pAddr, 8));
      DrawAsciiPane(buffer, pAddr);
      SentText(g, t1, AddressText(pAddr) + HexPane(mem, pAddr, 8), AsciiPane(mem, pAddr, 8));
      Terminal.RunConcat(g, t, [move], T.Puts(RowText(mem, pAddr)));
    }

    method DumpRedrawScreen()
      requires Drawable()
      modifies console
      ensures Drawable()
      ensures T.ColumnsFit(console.geometry, RedrawOps(Settings(), State()))
      ensures console.State() == Terminal.Run(console.geometry, old(console.State()), RedrawOps(Settings(), State()))
    {
      hide Terminal.Run, RowOps;
      ghost var g, t, e := console.geometry, console.State(), State();
      Terminal.RunNone(g, t);
      var pAddr := address;
      for row := 1 to rowsPerScreen + 1
        invariant Drawable() && pAddr == Word(address + BYTES_PER_ROW * (row - 1))
        invariant T.ColumnsFit(g, RowsOps(e, row - 1))
        invariant console.State() == Terminal.Run(g, t, RowsOps(e, row - 1))
      {
        pAddr := DumpRedrawRow(row, pAddr);
        Terminal.RunConcat(g, t, RowsOps(e, row - 1), RowOps(e, row - 1));
        assert RowsOps(e, row) == RowsOps(e, row - 1) + RowOps(e, row - 1);
      }
      DumpSetCursorCur();
      CursorOpLands(g, Settings(), e);
      Terminal.RunConcat(g, t, RowsOps(e, rowsPerScreen), [CursorOp(e)]);
    }

    method DumpMoveCursor(target: int)
      requires Ready() && -BYTES_PER_ROW <= target < Settings().Bytes() + BYTES_PER_ROW
      modifies this`address, this`cursor, console
      ensures Ready() && State() == MoveCursor(Settings(), old(State()), target)
      ensures T.ColumnsFit(console.geometry, SettleOps(Settings(), old(State()), State()))
      ensures console.State() == Terminal.Run(console.geometry, old(console.State()),
                                              SettleOps(Settings(), old(State()), State()))
    {
      hide Terminal.Run, RedrawOps;
      MoveIsExact(Settings(), State(), target);
      cursor := target;
      if cursor < 0 {
        address := Word(address - BYTES_PER_ROW);
        cursor := cursor + BYTES_PER_ROW;
        DumpRedrawScreen();
      } else if cursor >= BYTES_PER_ROW * rowsPerScreen {
        address := Word(address + BYTES_PER_ROW);
        cursor := cursor - BYTES_PER_ROW;
        DumpRedrawScreen();
      } else {
        CursorOpLands(console.geometry, Settings(), State());
        DumpSetCursorCur();
      }
    }

    method DumpSetAddress(addr: word32)
      requires Ready()
      modifies this`address, this`prevAddress, this`cursor, this`mode
      ensures Ready() && State() == SetAddress(old(State()), addr)
    {
      hide And, AndNot;
      JumpStaysInWindow(Settings(), State(), addr);
      SplitAddress(addr);
      prevAddress := Word(address + cursor);
      address := AndNot(addr, BYTES_PER_ROW - 1);
      cursor := And(addr, BYTES_PER_ROW - 1);
      if mode == NibbleLo {
        mode := NibbleHi;
      }
    }

    /** MSG_SETFOCUS, from the framework's part on: whatever was on the panel, a cursor that fits gets a coherent screen. */
    method SetFocus()
      requires console.geometry.Valid() && scratch + SCRATCH_SIZE <= TWO32 && LAST_COL <= console.geometry.cols
      requires console.geometry.rows in {1, 2, 4, 8} && 0 <= cursor < MAX_CURSOR
      modifies this`rowsPerScreen, console
      ensures rowsPerScreen == console.geometry.rows && Drawable()
      ensures InWindow(Settings(), State()) ==> Coherent()
      ensures T.ColumnsFit(console.geometry, RedrawOps(Settings(), State()))
      ensures console.State() == Terminal.Run(console.geometry,
                Terminal.Home(console.geometry, old(console.cursorMode), old(console.allPixOn)),
                RedrawOps(Settings(), State()))
    {
      ghost var mode, allOn := console.cursorMode, console.allPixOn;
      console.SetFocus();
      rowsPerScreen := console.geometry.rows;
      Refinement.HomeShows(console.geometry, mode, allOn);
      console.ClearScreen();
      DumpRedrawScreen();
      if InWindow(Settings(), State()) {
        RedrawOnTerminal(console.geometry, Settings(), State(), mode, allOn);
        ImageKeepsBell(console.geometry, Settings(), State(), allOn);
      }
    }

    /** Typing a low nibble or a character: store, and on to the next byte. */
    method StoreAndAdvance(value: byte, mask: byte, next: Mode)
      requires Ready()
      modifies this`mem, this`mode, this`address, this`cursor, console
      ensures Ready() && State() == MoveCursor(Settings(), Store(old(State()), value, mask).(mode := next), old(cursor) + 1)
      ensures var ops := RepaintOps(Store(old(State()), value, mask).(mode := next)) + SettleOps(Settings(), old(State()), State());
              && T.ColumnsFit(console.geometry, ops)
              && console.State() == Terminal.Run(console.geometry, old(console.State()), ops)
    {
      hide Terminal.Run, RedrawOps, RepaintOps, Merge, Word;
      ghost var g, t, s, e := console.geometry, console.State(), Settings(), State();
      DumpWriteAndRedrawCur(value, mask);
      RepaintIgnoresMode(State(), State().(mode := next));
      mode := next;
      ghost var w := State();
      DumpMoveCursor(cursor + 1);
      Terminal.RunConcat(g, t, RepaintOps(w), SettleOps(s, e, State()));
    }

    /** MSG_CHAR. */
    method OnCharMessage(param: word32)
      requires Ready()
      modifies this, console
      ensures Ready() && Settings() == old(Settings()) && State() == OnChar(Settings(), old(State()), param)
      ensures T.ColumnsFit(console.geometry, MessageOps(Settings(), old(State()), Char(param)))
      ensures console.State() == Terminal.Run(console.geometry, old(console.State()),
                                              MessageOps(Settings(), old(State()), Char(param)))
    {
      hide Terminal.Run, RedrawOps, RepaintOps, SettleOps, MoveCursor, HexCharToNibble;
      ghost var g, t, e := console.geometry, console.State(), State();
      Terminal.RunNone(g, t);
      if param == TAB {
        mode := if mode == Ascii then NibbleHi else Ascii;
        DumpSetCursorCur();
      } else if param == CR {
        // Do nothing.
      } else if mode == NibbleHi {
        var nibble := HexCharToNibble(LowByte(param));
        if nibble < 0x80 {
          DumpWriteAndRedrawCur(nibble << 4, 0x0F);
          ghost var w := State();
          mode := NibbleLo;
          DumpSetCursorCur();
          Terminal.RunConcat(g, t, RepaintOps(w), [CursorOp(State())]);
        }
      } else if mode == NibbleLo {
        var nibble := HexCharToNibble(LowByte(param));
        if nibble < 0x80 {
          StoreAndAdvance(nibble, 0xF0, NibbleHi);
        }
      } else {
        StoreAndAdvance(LowByte(param), 0x00, Ascii);
      }
    }

    method KeyLeft()
      requires Ready()
      modifies this, console
      ensures Ready() && Settings() == old(Settings()) && State() == OnKey(Settings(), old(State()), Left)
      ensures T.ColumnsFit(console.geometry, SettleOps(Settings(), old(State()), State()))
      ensures console.State() == Terminal.Run(console.geometry, old(console.State()),
                                              SettleOps(Settings(), old(State()), State()))
    {
      hide Terminal.Run, RedrawOps;
      if mode == NibbleLo {
        mode := NibbleHi;
        DumpSetCursorCur();
      } else {
        if mode == NibbleHi {
          mode := NibbleLo;
        }
        DumpMoveCursor(cursor - 1);
      }
    }

    method KeyRight()
      requires Ready()
      modifies this, console
      ensures Ready() && Settings() == old(Settings()) && State() == OnKey(Settings(), old(State()), Right)
      ensures T.ColumnsFit(console.geometry, SettleOps(Settings(), old(State()), State()))
      ensures console.State() == Terminal.Run(console.geometry, old(console.State()),
                                              SettleOps(Settings(), old(State()), State()))
    {
      hide Terminal.Run, RedrawOps;
      if mode == NibbleHi {
        mode := NibbleLo;
        DumpSetCursorCur();
      } else {
        if mode == NibbleLo {
          mode := NibbleHi;
        }
        DumpMoveCursor(cursor + 1);
      }
    }

    /** Up and Down. */
    method KeyVertical(key: Key)
      requires Ready() && (key == Up || key == Down)
      modifies this`address, this`cursor, console
      ensures Ready() && Settings() == old(Settings()) && State() == OnKey(Settings(), old(State()), key)
      ensures T.ColumnsFit(console.geometry, SettleOps(Settings(), old(State()), State()))
      ensures console.State() == Terminal.Run(console.geometry, old(console.State()),
                                              SettleOps(Settings(), old(State()), State()))
    {
      hide Terminal.Run, RedrawOps, MoveCursor;
      DumpMoveCursor(if key == Up then cursor - BYTES_PER_ROW else cursor + BYTES_PER_ROW);
    }

    /** Home and End, of the row and of the screen. */
    method KeyEdge(key: Key)
      requires Ready() && key in {Home, End, ScreenHome, ScreenEnd}
      modifies this`address, this`cursor, console
      ensures Ready() && Settings() == old(Settings()) && State() == OnKey(Settings(), old(State()), key)
      ensures T.ColumnsFit(console.geometry, SettleOps(Settings(), old(State()), State()))
      ensures console.State() == Terminal.Run(console.geometry, old(console.State()),
                                              SettleOps(Settings(), old(State()), State()))
    {
      hide Terminal.Run, RedrawOps, And, Or, AndNot;
      KeyIsMove(Settings(), State(), key);
      ClearLowBits(Settings(), cursor);
      SetLowBits(Settings(), cursor);
      match key
      case Home => DumpMoveCursor(AndNot(cursor, BYTES_PER_ROW - 1));
      case End => DumpMoveCursor(Or(cursor, BYTES_PER_ROW - 1));
      case ScreenHome => DumpMoveCursor(AndNot(cursor, Settings().Bytes() - 1));
      case ScreenEnd => DumpMoveCursor(Or(cursor, Settings().Bytes() - 1));
    }

    /** MSG_KEY, without the branches that open dialogs. */
    method OnKeyMessage(param: word32)
      requires Ready() && Modelled(KeyDown(param))
      modifies this, console
      ensures Ready() && Settings() == old(Settings()) && State() == OnKey(Settings(), old(State()), KeyOf(param))
      ensures T.ColumnsFit(console.geometry, MessageOps(Settings(), old(State()), KeyDown(param)))
      ensures console.State() == Terminal.Run(console.geometry, old(console.State()),
                                              MessageOps(Settings(), old(State()), KeyDown(param)))
    {
      hide Terminal.Run, RedrawOps, KeyOf, ReadLong, Zeroed, SetAddress, And;
      Terminal.RunNone(console.geometry, console.State());
      match KeyOf(param)
      case Left => KeyLeft();
      case Right => KeyRight();
      case Up | Down => KeyVertical(KeyOf(param));
      case PageUp =>
        PageIsExact(Settings(), State(), -Settings().Bytes());
        address := Word(address - Settings().Bytes());
        DumpRedrawScreen();
      case PageDown =>
        PageIsExact(Settings(), State(), Settings().Bytes());
        address := Word(address + Settings().Bytes());
        DumpRedrawScreen();
      case Home | End | ScreenHome | ScreenEnd => KeyEdge(KeyOf(param));
      case Follow =>
        SplitAddress(cursor);
        if And(cursor, 1) == 0 {
          DumpSetAddress(ReadLong(mem, Word(address + cursor)));
          DumpRedrawScreen();
        }
      case Back =>
        DumpSetAddress(prevAddress);
        DumpRedrawScreen();
      case Refresh => DumpRedrawScreen();
      case ClearScratch =>
        mem := Zeroed(mem, scratch, SCRATCH_SIZE);
        DumpRedrawScreen();
      case NoKey =>
    }

    /** Every modelled message keeps the screen a picture of memory, window and cursor. */
    method ProcessMessage(m: Message)
      requires Coherent() && Modelled(m)
      modifies this, console
      ensures Coherent() && Settings() == old(Settings()) && State() == Step(Settings(), old(State()), m)
    {
      hide Terminal.Run, T.Run, Image, MessageOps;
      ghost var g, t, s, e, rung := console.geometry, console.State(), Settings(), State(), console.allPixOn;
      MessagePaintsImage(g, s, e, m, rung);
      Refinement.LegalRunSplitsNothing(g, Image(g, s, e, rung), MessageOps(s, e, m));
      Refinement.RingRefinesPlain(g, t, Image(g, s, e, rung), MessageOps(s, e, m));
      match m {
        case Char(param) => OnCharMessage(param);
        case KeyDown(param) => OnKeyMessage(param);
      }
      assert console.State() == Terminal.Run(g, t, MessageOps(s, e, m));
      ImageKeepsBell(g, s, State(), rung);
    }
  }

  lemma ImageKeepsBell(g: Geometry, s: Setup, e: Core, rung: bool)
    requires Fits(g, s) && InWindow(s, e)
    ensures Image(g, s, e, rung).rung == rung
  {
  }
}
