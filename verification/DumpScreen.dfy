/** What DebugTool.c draws: the full redraw, the one-byte repaint, and the picture both must leave. */
module DumpScreen {
  import opened Words
  import opened Hex
  import opened Panel
  import opened Editor
  import T = TextScreen

  const SPACE: byte := 0x20
  /** The small dot shown for control characters. */
  const DOT: byte := 0xB7

  // Columns, from 1.
  const ADDRESS_COL: int := 3
  const HEX_COL: int := 12
  const LAST_COL: int := 43

  /** Eight digits, a space, eight times two digits and a space, eight characters. */
  const ROW_LENGTH: int := 41

  /** The cell just right of the last one drawn must still be a column the cursor may take. */
  ghost predicate Fits(g: Geometry, s: Setup) {
    g.Valid() && s.Valid() && g.rows == s.rows && LAST_COL <= g.cols
  }

  // ----- Drawing -----

  /** `DumpSetCursor`: row and column of the byte at `offset`. */
  function RowAt(offset: int): int {
    1 + offset / BYTES_PER_ROW
  }

  function ColAt(offset: int, mode: Mode): int {
    var col := offset % BYTES_PER_ROW;
    HEX_COL + match mode
              case Ascii => col + BYTES_PER_ROW * 3
              case NibbleLo => col * 3 + 1
              case NibbleHi => col * 3
  }

  function CursorOp(e: Core): T.Op {
    T.Move(RowAt(e.cursor), ColAt(e.cursor, e.mode), T.Show)
  }

  function HexText(c: byte): (text: seq<byte>)
    ensures |text| == 3
  {
    Hex2(c) + [SPACE]
  }

  function AsciiOf(c: byte): byte {
    if c < 0x20 then DOT else c
  }

  function AddressText(a: word32): (text: seq<byte>)
    ensures |text| == 9
  {
    HexN(a, 8) + [SPACE]
  }

  /** The first `n` bytes at `a` in the hex pane. */
  function HexPane(mem: Memory, a: word32, n: nat): (text: seq<byte>)
    ensures |text| == 3 * n
  {
    if n == 0 then [] else HexPane(mem, a, n - 1) + HexText(mem[Word(a + n - 1)])
  }

  /** The first `n` bytes at `a` in the ASCII pane. */
  function AsciiPane(mem: Memory, a: word32, n: nat): (text: seq<byte>)
    ensures |text| == n
  {
    if n == 0 then [] else AsciiPane(mem, a, n - 1) + [AsciiOf(mem[Word(a + n - 1)])]
  }

  function RowText(mem: Memory, a: word32): (text: seq<byte>)
    ensures |text| == ROW_LENGTH
  {
    AddressText(a) + HexPane(mem, a, 8) + AsciiPane(mem, a, 8)
  }

  function RowOps(e: Core, r: int): seq<T.Op> {
    [T.Move(r + 1, ADDRESS_COL, T.Hide)] + T.Puts(RowText(e.mem, Word(e.address + BYTES_PER_ROW * r)))
  }

  function RowsOps(e: Core, n: nat): seq<T.Op> {
    if n == 0 then [] else RowsOps(e, n - 1) + RowOps(e, n - 1)
  }

  /** `DumpRedrawScreen`. */
  function RedrawOps(s: Setup, e: Core): seq<T.Op>
    requires s.Valid()
  {
    RowsOps(e, s.rows) + [CursorOp(e)]
  }

  /** The drawing half of `DumpWriteAndRedrawCur`, after the store. */
  function RepaintOps(e: Core): seq<T.Op> {
    var c := e.mem[e.Position()];
    [T.Move(RowAt(e.cursor), ColAt(e.cursor, NibbleHi), T.Hide)] + T.Puts(HexText(c))
    + ([T.Move(RowAt(e.cursor), ColAt(e.cursor, Ascii), T.Hide)] + T.Puts([AsciiOf(c)]))
  }

  /** After a cursor move: a window that moved is redrawn, otherwise only the cursor is placed. */
  function SettleOps(s: Setup, e: Core, f: Core): seq<T.Op>
    requires s.Valid()
  {
    if f.address == e.address then [CursorOp(f)] else RedrawOps(s, f)
  }

  /** All that `ProcessMessage` sends to the terminal for one message. */
  function MessageOps(s: Setup, e: Core, m: Message): seq<T.Op>
    requires s.Valid()
  {
    var f := Step(s, e, m);
    match m
    case Char(param) =>
      if param == TAB then [CursorOp(f)]
      else if param == CR then []
      else if e.mode == Ascii then
        var w := Store(e, LowByte(param), 0x00);
        RepaintOps(w) + SettleOps(s, e, f)
      else
        var nibble := HexCharToNibble(LowByte(param));
        if nibble >= 0x80 then []
        else if e.mode == NibbleHi then RepaintOps(Store(e, nibble << 4, 0x0F)) + [CursorOp(f)]
        else
          var w := Store(e, nibble, 0xF0).(mode := NibbleHi);
          RepaintOps(w) + SettleOps(s, e, f)
    case KeyDown(param) =>
      match KeyOf(param)
      case Left | Right | Up | Down | Home | End | ScreenHome | ScreenEnd =>
        SettleOps(s, e, f)
      case Follow => if e.cursor % 2 == 1 then [] else RedrawOps(s, f)
      case PageUp | PageDown | Back | Refresh | ClearScratch => RedrawOps(s, f)
      case Dialog | NoKey => []
  }

  function SessionOps(s: Setup, e: Core, ms: seq<Message>): seq<T.Op>
    requires s.Valid()
  {
    if ms == [] then []
    else SessionOps(s, e, ms[..|ms| - 1]) + MessageOps(s, Session(s, e, ms[..|ms| - 1]), ms[|ms| - 1])
  }

  // ----- The picture -----

  function ImageLine(g: Geometry, mem: Memory, a: word32): (line: seq<T.Cell>)
    requires LAST_COL <= g.cols
    ensures |line| == g.cols
  {
    T.Overwrite(T.Blanks(g.cols), ADDRESS_COL - 1, T.Glyphs(RowText(mem, a)))
  }

  function ImageLines(g: Geometry, s: Setup, e: Core): (lines: seq<seq<T.Cell>>)
    requires Fits(g, s)
    ensures |lines| == g.rows && forall r :: 0 <= r < g.rows ==> |lines[r]| == g.cols
  {
    seq(s.rows, r requires 0 <= r < s.rows => ImageLine(g, e.mem, Word(e.address + BYTES_PER_ROW * r)))
  }

  /** The whole screen as memory, window and cursor dictate it. */
  function Image(g: Geometry, s: Setup, e: Core, rung: bool): (p: T.Screen)
    requires Fits(g, s) && InWindow(s, e)
    ensures T.WellFormed(g, p)
  {
    T.Screen(RowAt(e.cursor), ColAt(e.cursor, e.mode), ImageLines(g, s, e), T.Show, 0, rung)
  }
}
