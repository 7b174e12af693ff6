/** DebugTool.c without its screen: the dump window, the cursor and the memory being edited. */
module Editor {
  import opened Bits
  import opened Words
  import opened Hex
  import Modular

  const BYTES_PER_ROW: int := 8
  const TAB: word32 := 9
  const CR: word32 := 13
  const SCRATCH_SIZE: int := 256

  type Memory = m: seq<byte> | |m| == TWO32 witness seq(TWO32, _ => 0)

  datatype Mode = NibbleHi | NibbleLo | Ascii

  /** g_pAddress, g_pPrevAddress, g_mode, g_cursor and memory. */
  datatype Core = Core(address: word32, prev: word32, mode: Mode, cursor: int, mem: Memory) {
    function Position(): word32 {
      Word(address + cursor)
    }
  }

  /** g_rowsPerScreen, and where the applet's scratch buffer lies. */
  datatype Setup = Setup(rows: int, scratch: word32) {
    ghost predicate Valid() {
      (rows == 1 || rows == 2 || rows == 4 || rows == 8) && scratch + SCRATCH_SIZE <= TWO32
    }

    /** g_bytesPerScreen. */
    function Bytes(): int {
      BYTES_PER_ROW * rows
    }
  }

  ghost predicate InWindow(s: Setup, e: Core) {
    s.Valid() && e.address % BYTES_PER_ROW == 0 && 0 <= e.cursor < s.Bytes()
  }

  // ----- Keys -----

  datatype Key =
    | Left | Right | Up | Down | PageUp | PageDown | Home | End | ScreenHome | ScreenEnd
    | Follow | Back | Refresh | ClearScratch | Dialog | NoKey

  datatype Message = Char(param: word32) | KeyDown(param: word32)

  /** `param & ~KEY_MOD_CAPS_LOCK`. */
  function ClearCapsLock(param: word32): (k: word32)
    ensures k == if param / 0x200 % 2 == 1 then param - 0x200 else param
  {
    Powers();
    OneBit(param, 0x200, param / 0x200);
    AndNot(param, 0x200)
  }

  /** The key codes of os3k.h as ProcessMessage switches on them; `Dialog` stands for its three interactive branches. */
  function KeyOf(param: word32): Key {
    var k := ClearCapsLock(param);
    if k == 0x49 then Left
    else if k == 0x4A then Right
    else if k == 0x4B then Up
    else if k == 0x804B then PageUp
    else if k == 0x0D then Down
    else if k == 0x800D then PageDown
    else if k == 0x1F then Home
    else if k == 0x801F then ScreenHome
    else if k == 0x3E then End
    else if k == 0x803E then ScreenEnd
    else if k == 0x801C || k == 0x8010 || k == 0xC04E then Dialog
    else if k == 0x8410 || k == 0x8810 then Follow
    else if k == 0x03 then Back
    else if k == 0x8023 then Refresh
    else if k == 0x34 then ClearScratch
    else NoKey
  }

  predicate Modelled(m: Message) {
    m.KeyDown? ==> KeyOf(m.param) != Dialog
  }

  // ----- What each message does to the editor -----

  /** `DumpMoveCursor`: a cursor off the window moves the window by one row. */
  function MoveCursor(s: Setup, e: Core, cursor: int): Core {
    if cursor < 0 then
      e.(address := Word(e.address - BYTES_PER_ROW), cursor := cursor + BYTES_PER_ROW)
    else if cursor >= s.Bytes() then
      e.(address := Word(e.address + BYTES_PER_ROW), cursor := cursor - BYTES_PER_ROW)
    else
      e.(cursor := cursor)
  }

  /** `DumpSetAddress`. */
  function SetAddress(e: Core, addr: word32): Core {
    e.(prev := e.Position(),
       address := addr - addr % BYTES_PER_ROW,
       cursor := addr % BYTES_PER_ROW,
       mode := if e.mode == NibbleLo then NibbleHi else e.mode)
  }

  /** The memory half of `DumpWriteAndRedrawCur`. */
  function Store(e: Core, value: byte, mask: byte): Core {
    e.(mem := e.mem[e.Position() := Merge(e.mem[e.Position()], value, mask)])
  }

  function OnChar(s: Setup, e: Core, param: word32): Core {
    if param == TAB then
      e.(mode := if e.mode == Ascii then NibbleHi else Ascii)
    else if param == CR then
      e
    else
      var nibble := HexCharToNibble(LowByte(param));
      match e.mode
      case NibbleHi =>
        if nibble < 0x80 then Store(e, nibble << 4, 0x0F).(mode := NibbleLo) else e
      case NibbleLo =>
        if nibble < 0x80 then MoveCursor(s, Store(e, nibble, 0xF0).(mode := NibbleHi), e.cursor + 1) else e
      case Ascii =>
        MoveCursor(s, Store(e, LowByte(param), 0x00), e.cursor + 1)
  }

  /** The big-endian 32-bit word at `a`. */
  function ReadLong(mem: Memory, a: word32): word32 {
    var b := (k: int) => mem[Word(a + k)] as int;
    b(0) * 0x100_0000 + b(1) * 0x1_0000 + b(2) * 0x100 + b(3)
  }

  /** `memset(g_scratch, 0, sizeof(g_scratch))`. */
  function Zeroed(mem: Memory, from: word32, n: int): (zeroed: Memory)
    requires 0 <= n && from + n <= TWO32
    ensures forall a :: 0 <= a < TWO32 ==> zeroed[a] == if from <= a < from + n then 0 else mem[a]
  {
    mem[..from] + seq(n, _ => 0) + mem[from + n..]
  }

  /** `v & ~(m - 1)` for a power of two `m`; see `ClearLowBits` and `SetLowBits`. */
  function MaskLow(v: int, m: int): int
    requires m > 0
  {
    v - v % m
  }

  function OnKey(s: Setup, e: Core, key: Key): Core
    requires s.Valid()
  {
    match key
    case Left =>
      if e.mode == NibbleLo then e.(mode := NibbleHi)
      else MoveCursor(s, e.(mode := if e.mode == NibbleHi then NibbleLo else e.mode), e.cursor - 1)
    case Right =>
      if e.mode == NibbleHi then e.(mode := NibbleLo)
      else MoveCursor(s, e.(mode := if e.mode == NibbleLo then NibbleHi else e.mode), e.cursor + 1)
    case Up => MoveCursor(s, e, e.cursor - BYTES_PER_ROW)
    case Down => MoveCursor(s, e, e.cursor + BYTES_PER_ROW)
    case PageUp => e.(address := Word(e.address - s.Bytes()))
    case PageDown => e.(address := Word(e.address + s.Bytes()))
    case Home => MoveCursor(s, e, MaskLow(e.cursor, BYTES_PER_ROW))
    case End => MoveCursor(s, e, MaskLow(e.cursor, BYTES_PER_ROW) + BYTES_PER_ROW - 1)
    case ScreenHome => MoveCursor(s, e, MaskLow(e.cursor, s.Bytes()))
    case ScreenEnd => MoveCursor(s, e, MaskLow(e.cursor, s.Bytes()) + s.Bytes() - 1)
    case Follow => if e.cursor % 2 == 1 then e else SetAddress(e, ReadLong(e.mem, e.Position()))
    case Back => SetAddress(e, e.prev)
    case ClearScratch => e.(mem := Zeroed(e.mem, s.scratch, SCRATCH_SIZE))
    case Refresh | Dialog | NoKey => e
  }

  function Step(s: Setup, e: Core, m: Message): Core
    requires s.Valid()
  {
    match m
    case Char(param) => OnChar(s, e, param)
    case KeyDown(param) => OnKey(s, e, KeyOf(param))
  }

  function Session(s: Setup, e: Core, ms: seq<Message>): Core
    requires s.Valid()
  {
    if ms == [] then e else Step(s, Session(s, e, ms[..|ms| - 1]), ms[|ms| - 1])
  }

  // ----- Navigation -----

  lemma RowAndScreenArePowers(s: Setup)
    requires s.Valid()
    ensures IsPowerOfTwo(BYTES_PER_ROW) && IsPowerOfTwo(s.Bytes())
  {
    hide IsPowerOfTwo;
    Powers();
  }

  /** The bit masks that Home and Ctrl+Home apply go to the start of the row and of the screen. */
  lemma ClearLowBits(s: Setup, v: nat)
    requires s.Valid()
    ensures AndNot(v, BYTES_PER_ROW - 1) == MaskLow(v, BYTES_PER_ROW) && AndNot(v, s.Bytes() - 1) == MaskLow(v, s.Bytes())
  {
    hide AndNot, IsPowerOfTwo;
    RowAndScreenArePowers(s);
    MaskLowBits(v, BYTES_PER_ROW);
    MaskLowBits(v, s.Bytes());
  }

  /** The bit masks that End and Ctrl+End apply go to the last byte of the row and of the screen. */
  lemma SetLowBits(s: Setup, v: nat)
    requires s.Valid()
    ensures Or(v, BYTES_PER_ROW - 1) == MaskLow(v, BYTES_PER_ROW) + BYTES_PER_ROW - 1
    ensures Or(v, s.Bytes() - 1) == MaskLow(v, s.Bytes()) + s.Bytes() - 1
  {
    hide Or, IsPowerOfTwo;
    RowAndScreenArePowers(s);
    MaskLowBits(v, BYTES_PER_ROW);
    MaskLowBits(v, s.Bytes());
  }

  // The code masks with g_bytesPerScreen - 1 whatever the number of rows.

  /** Where Ctrl+Home asks to go. */
  function ScreenStart(s: Setup, cursor: nat): nat
    requires s.rows >= 1
  {
    AndNot(cursor, s.Bytes() - 1)
  }

  /** Where Ctrl+End asks to go. */
  function ScreenLast(s: Setup, cursor: nat): nat
    requires s.rows >= 1
  {
    Or(cursor, s.Bytes() - 1)
  }

  ghost predicate CursorFits(s: Setup, cursor: int) {
    0 <= cursor < s.Bytes()
  }

  lemma OrStep(x: nat, y: nat, half: nat)
    requires x > 1 && x % 2 == 0 && y % 2 == 1 && half == Or(x / 2, y / 2)
    ensures Or(x, y) == 2 * half + 1
  {
  }

  lemma UnevenScreens()
    ensures Or(8, 23) == 31 && Or(8, 39) == 47 && Or(16, 39) == 55 && Or(16, 47) == 63 && Or(8, 55) == 63
  {
    assert Or(1, 2) == 3 && Or(1, 4) == 5 && Or(1, 6) == 7 && Or(2, 4) == 6;
    hide Or;
    OrStep(2, 5, 3);
    OrStep(4, 11, 7);
    OrStep(8, 23, 15);
    OrStep(16, 47, 31);
    OrStep(2, 9, 5);
    OrStep(4, 19, 11);
    OrStep(8, 39, 23);
    OrStep(4, 9, 6);
    OrStep(8, 19, 13);
    OrStep(16, 39, 27);
    OrStep(2, 13, 7);
    OrStep(4, 27, 15);
    OrStep(8, 55, 31);
  }

  /** Ctrl+Home and Ctrl+End reach the first and the last byte of the screen exactly if the rows number 1, 2, 4 or 8. */
  lemma ScreenKeysReachIff(s: Setup)
    requires 1 <= s.rows <= 8
    ensures (forall c: nat :: CursorFits(s, c) ==> ScreenStart(s, c) == 0 && ScreenLast(s, c) == s.Bytes() - 1)
       <==> s.rows == 1 || s.rows == 2 || s.rows == 4 || s.rows == 8
  {
    hide And, Or, AndNot, IsPowerOfTwo;
    if s.rows == 1 || s.rows == 2 || s.rows == 4 || s.rows == 8 {
      Powers();
      forall c: nat | CursorFits(s, c) ensures ScreenStart(s, c) == 0 && ScreenLast(s, c) == s.Bytes() - 1 {
        MaskLowBits(c, s.Bytes());
        Modular.DivModUnique(c, s.Bytes(), 0, c);
      }
    } else {
      UnevenScreens();
      assert CursorFits(s, if s.rows == 6 then 16 else 8);
      assert ScreenLast(s, if s.rows == 6 then 16 else 8) != s.Bytes() - 1;
    }
  }

  lemma {:induction false} OrBelow(x: nat, y: nat, p: nat)
    requires IsPowerOfTwo(p) && x < p && y < p
    ensures x <= Or(x, y) < p
    decreases x
  {
    if x != 0 && y != 0 {
      OrBelow(x / 2, y / 2, p / 2);
    }
  }

  /** Ctrl+End leaves the cursor in the window exactly if the rows do not number 5 or 6; for 5 rows, cursor 16 ends at 47. */
  lemma ScreenEndFitsIff(s: Setup, e: Core)
    requires 1 <= s.rows <= 8
    ensures (forall c: nat :: CursorFits(s, c) ==> CursorFits(s, MoveCursor(s, e, ScreenLast(s, c)).cursor))
       <==> s.rows != 5 && s.rows != 6
    ensures s.rows == 5 ==> MoveCursor(s, e, ScreenLast(s, 16)).cursor == 47
  {
    hide And, Or, AndNot, IsPowerOfTwo;
    UnevenScreens();
    Powers();
    if s.rows == 5 || s.rows == 6 {
      assert CursorFits(s, 16) && !CursorFits(s, MoveCursor(s, e, ScreenLast(s, 16)).cursor);
    } else {
      forall c: nat | CursorFits(s, c) ensures CursorFits(s, MoveCursor(s, e, ScreenLast(s, c)).cursor) {
        OrBelow(c, s.Bytes() - 1, if s.rows == 3 then 32 else if s.rows == 7 then 64 else s.Bytes());
      }
    }
  }

  /** The two halves of an address that DumpSetAddress masks out, and the test for an odd cursor. */
  lemma SplitAddress(v: nat)
    ensures AndNot(v, BYTES_PER_ROW - 1) == v - v % BYTES_PER_ROW && And(v, BYTES_PER_ROW - 1) == v % BYTES_PER_ROW
    ensures And(v, 1) == v % 2
  {
    hide And, AndNot, IsPowerOfTwo;
    Powers();
    AndLowBits(v, 2);
    AndLowBits(v, BYTES_PER_ROW);
    MaskLowBits(v, BYTES_PER_ROW);
  }

  lemma WordAbsorbs(a: int, d: int)
    ensures Word(Word(a) + d) == Word(a + d)
  {
  }

  /** Moving by any amount up to a row beyond the window lands exactly there, whether or not the window scrolls. */
  lemma MoveIsExact(s: Setup, e: Core, cursor: int)
    requires InWindow(s, e) && -BYTES_PER_ROW <= cursor < s.Bytes() + BYTES_PER_ROW
    ensures InWindow(s, MoveCursor(s, e, cursor))
    ensures MoveCursor(s, e, cursor).Position() == Word(e.address + cursor)
  {
    hide Word;
    if cursor < 0 {
      WordAbsorbs(e.address - BYTES_PER_ROW, cursor + BYTES_PER_ROW);
      WordKeepsAlignment(e.address, -1);
    } else if cursor >= s.Bytes() {
      WordAbsorbs(e.address + BYTES_PER_ROW, cursor - BYTES_PER_ROW);
      WordKeepsAlignment(e.address, 1);
    }
  }

  lemma WordKeepsAlignment(x: int, rows: int)
    requires x % BYTES_PER_ROW == 0
    ensures Word(x + BYTES_PER_ROW * rows) % BYTES_PER_ROW == 0
  {
  }

  /** How far each key moves the position. */
  function Displacement(s: Setup, e: Core, key: Key): int {
    match key
    case Left => if e.mode == NibbleLo then 0 else -1
    case Right => if e.mode == NibbleHi then 0 else 1
    case Up => -BYTES_PER_ROW
    case Down => BYTES_PER_ROW
    case PageUp => -s.Bytes()
    case PageDown => s.Bytes()
    case Home => -(e.cursor % BYTES_PER_ROW)
    case End => BYTES_PER_ROW - 1 - e.cursor % BYTES_PER_ROW
    case ScreenHome => -e.cursor
    case ScreenEnd => s.Bytes() - 1 - e.cursor
    case _ => 0
  }

  /** All but the page and jump keys are one cursor move. */
  lemma KeyIsMove(s: Setup, e: Core, key: Key)
    requires InWindow(s, e) && key != PageUp && key != PageDown && key != Follow && key != Back
    ensures OnKey(s, e, key).address == MoveCursor(s, e, e.cursor + Displacement(s, e, key)).address
    ensures OnKey(s, e, key).cursor == MoveCursor(s, e, e.cursor + Displacement(s, e, key)).cursor
    ensures -BYTES_PER_ROW <= e.cursor + Displacement(s, e, key) < s.Bytes() + BYTES_PER_ROW
  {
    Modular.DivModUnique(e.cursor, s.Bytes(), 0, e.cursor);
  }

  lemma PageIsExact(s: Setup, e: Core, d: int)
    requires InWindow(s, e) && (d == s.Bytes() || d == -s.Bytes())
    ensures Word(e.address + d) % BYTES_PER_ROW == 0
    ensures Word(Word(e.address + d) + e.cursor) == Word(e.Position() + d)
  {
    hide Word;
    WordAbsorbs(e.address + d, e.cursor);
    WordAbsorbs(e.address + e.cursor, d);
    WordKeepsAlignment(e.address, if d == s.Bytes() then s.rows else -s.rows);
  }

  lemma JumpStaysInWindow(s: Setup, e: Core, addr: word32)
    requires s.Valid()
    ensures InWindow(s, SetAddress(e, addr))
  {
  }

  lemma KeysStayInWindow(s: Setup, e: Core, key: Key)
    requires InWindow(s, e)
    ensures InWindow(s, OnKey(s, e, key))
  {
    hide MoveCursor, ReadLong, Zeroed, SetAddress;
    if key == PageUp || key == PageDown {
      PageIsExact(s, e, Displacement(s, e, key));
    } else if key == Follow {
      JumpStaysInWindow(s, e, ReadLong(e.mem, e.Position()));
    } else if key == Back {
      JumpStaysInWindow(s, e, e.prev);
    } else {
      KeyIsMove(s, e, key);
      MoveIsExact(s, e, e.cursor + Displacement(s, e, key));
    }
  }

  /** Every key keeps the window aligned and the cursor in it, and moves the position by the requested amount modulo 2^32. */
  lemma KeysNavigate(s: Setup, e: Core, key: Key)
    requires InWindow(s, e)
    ensures InWindow(s, OnKey(s, e, key))
    ensures key != Follow && key != Back ==>
              OnKey(s, e, key).Position() == Word(e.Position() + Displacement(s, e, key))
  {
    hide MoveCursor, ReadLong, Zeroed, SetAddress, Word, MaskLow;
    KeysStayInWindow(s, e, key);
    if key == PageUp || key == PageDown {
      PageIsExact(s, e, Displacement(s, e, key));
    } else if key != Follow && key != Back {
      KeyIsMove(s, e, key);
      MoveIsExact(s, e, e.cursor + Displacement(s, e, key));
      WordAbsorbs(e.address + e.cursor, Displacement(s, e, key));
    }
  }

  lemma StepStaysInWindow(s: Setup, e: Core, m: Message)
    requires InWindow(s, e)
    ensures InWindow(s, Step(s, e, m))
  {
    match m
    case Char(param) =>
      MoveIsExact(s, e, e.cursor + 1);
    case KeyDown(param) => KeysNavigate(s, e, KeyOf(param));
  }

  /** Over every session. */
  lemma {:induction false} SessionStaysInWindow(s: Setup, e: Core, ms: seq<Message>)
    requires InWindow(s, e)
    ensures InWindow(s, Session(s, e, ms))
  {
    if ms != [] {
      SessionStaysInWindow(s, e, ms[..|ms| - 1]);
      StepStaysInWindow(s, Session(s, e, ms[..|ms| - 1]), ms[|ms| - 1]);
    }
  }

  /** Jumping anywhere and pressing Backspace returns; two Backspaces restore both addresses. */
  lemma BackUndoesJump(s: Setup, e: Core, addr: word32)
    requires InWindow(s, e)
    ensures var j := SetAddress(e, addr);
            j.Position() == addr && j.prev == e.Position()
            && OnKey(s, j, Back).Position() == e.Position() && OnKey(s, j, Back).prev == addr
    ensures var b := OnKey(s, OnKey(s, e, Back), Back); b.Position() == e.Position() && b.prev == e.prev
  {
  }

  /** Caps lock changes no key. */
  lemma CapsLockIsIgnored(param: word32)
    requires param / 0x200 % 2 == 0 && param + 0x200 < TWO32
    ensures KeyOf(param + 0x200) == KeyOf(param)
  {
    hide AndNot, IsPowerOfTwo;
  }

  // ----- Following a pointer -----

  /** The two hex digits of a number below 256. */
  function TwoDigits(c: int): seq<byte>
    requires 0 <= c < 256
  {
    [HexDigit(c / 16), HexDigit(c % 16)]
  }

  lemma HexNStep(w: nat, n: nat)
    ensures HexN(w, n + 1) == HexN(w / 16, n) + [HexDigit(w % 16)]
  {
  }

  lemma HexNOfByte(v: nat, c: int, n: nat)
    requires 0 <= c < 256
    ensures HexN(v * 256 + c, n + 2) == HexN(v, n) + TwoDigits(c)
  {
    hide HexN, HexDigit;
    var w := v * 256 + c;
    assert w / 16 == v * 16 + c / 16 && w % 16 == c % 16 && w / 16 / 16 == v && w / 16 % 16 == c / 16;
    HexNStep(w, n + 1);
    HexNStep(w / 16, n);
  }

  lemma Hex2Digits(b: byte)
    ensures Hex2(b) == [HexDigit(b as int / 16), HexDigit(b as int % 16)]
  {
    hide HexDigit;
    NibblesOfByte(b);
  }

  lemma Hex2IsTwoDigits(b: byte)
    ensures Hex2(b) == TwoDigits(b as int)
  {
    hide Hex2, HexDigit;
    Hex2Digits(b);
  }

  lemma ReadLongByBytes(mem: Memory, a: word32)
    ensures ReadLong(mem, a) ==
              ((mem[Word(a)] as int * 256 + mem[Word(a + 1)] as int) * 256 + mem[Word(a + 2)] as int) * 256 + mem[Word(a + 3)] as int
  {
  }

  lemma EmptyFront(a: seq<byte>)
    ensures [] + a == a
  {
  }

  lemma HexOfFourOctets(c0: int, c1: int, c2: int, c3: int)
    requires 0 <= c0 < 256 && 0 <= c1 < 256 && 0 <= c2 < 256 && 0 <= c3 < 256
    ensures HexN(((c0 * 256 + c1) * 256 + c2) * 256 + c3, 8) == TwoDigits(c0) + TwoDigits(c1) + TwoDigits(c2) + TwoDigits(c3)
  {
    hide HexN, TwoDigits;
    var w2 := c0 * 256 + c1;
    HexOfTwoOctets(c0, c1);
    HexNOfByte(w2, c2, 4);
    HexNOfByte(w2 * 256 + c2, c3, 6);
  }

  lemma HexOfTwoOctets(c0: int, c1: int)
    requires 0 <= c0 < 256 && 0 <= c1 < 256
    ensures HexN(c0 * 256 + c1, 4) == TwoDigits(c0) + TwoDigits(c1)
  {
    hide HexN, TwoDigits;
    HexNOfByte(0, c0, 0);
    NoDigits();
    EmptyFront(TwoDigits(c0));
    HexNOfByte(c0, c1, 2);
  }

  lemma HexOfFourBytes(b0: byte, b1: byte, b2: byte, b3: byte)
    ensures HexN(((b0 as int * 256 + b1 as int) * 256 + b2 as int) * 256 + b3 as int, 8)
         == Hex2(b0) + Hex2(b1) + Hex2(b2) + Hex2(b3)
  {
    hide HexN, Hex2, TwoDigits;
    HexOfFourOctets(b0 as int, b1 as int, b2 as int, b3 as int);
    Hex2IsTwoDigits(b0);
    Hex2IsTwoDigits(b1);
    Hex2IsTwoDigits(b2);
    Hex2IsTwoDigits(b3);
  }

  lemma NoDigits()
    ensures HexN(0, 0) == []
  {
  }

  lemma ReadLongIsShown(mem: Memory, a: word32)
    ensures HexN(ReadLong(mem, a), 8)
         == Hex2(mem[Word(a)]) + Hex2(mem[Word(a + 1)]) + Hex2(mem[Word(a + 2)]) + Hex2(mem[Word(a + 3)])
  {
    hide HexN, Hex2, ReadLong, Word;
    ReadLongByBytes(mem, a);
    HexOfFourBytes(mem[Word(a)], mem[Word(a + 1)], mem[Word(a + 2)], mem[Word(a + 3)]);
  }

  /** On an even cursor Ctrl+Shift+G goes to the address whose eight digits the hex pane shows there; Backspace returns. */
  lemma FollowGoesToShownDigits(s: Setup, e: Core)
    requires InWindow(s, e)
    ensures e.cursor % 2 == 1 ==> OnKey(s, e, Follow) == e
    ensures e.cursor % 2 == 0 ==>
              var f, p := OnKey(s, e, Follow), e.Position();
              && HexN(f.Position(), 8)
                   == Hex2(e.mem[Word(p)]) + Hex2(e.mem[Word(p + 1)]) + Hex2(e.mem[Word(p + 2)]) + Hex2(e.mem[Word(p + 3)])
              && InWindow(s, f) && f.mem == e.mem && OnKey(s, f, Back).Position() == p
  {
    hide HexN, Hex2, ReadLong;
    var a := ReadLong(e.mem, e.Position());
    JumpStaysInWindow(s, e, a);
    BackUndoesJump(s, e, a);
    ReadLongIsShown(e.mem, e.Position());
  }

  // ----- Typing text -----

  /** In the ASCII pane every character but Tab and Return is stored as it is, and the cursor goes on to the next byte. */
  lemma AsciiCharIsStored(s: Setup, e: Core, param: word32)
    requires InWindow(s, e) && e.mode == Ascii && param != TAB && param != CR
    ensures var f := OnChar(s, e, param);
            && f.mem == e.mem[e.Position() := LowByte(param)]
            && f.Position() == Word(e.Position() + 1) && f.mode == Ascii && InWindow(s, f)
  {
    hide LowByte;
    var c := LowByte(param);
    assert Merge(e.mem[e.Position()], c, 0x00) == c;
    MoveIsExact(s, Store(e, c, 0x00), e.cursor + 1);
    WordAbsorbs(e.address + e.cursor, 1);
  }

  /** Typing text of any length up to all of memory. */
  lemma {:induction false} AsciiTextIsStored(s: Setup, e: Core, ms: seq<Message>, a: word32)
    requires InWindow(s, e) && e.mode == Ascii && |ms| <= TWO32
    requires forall i :: 0 <= i < |ms| ==> ms[i].Char? && ms[i].param != TAB && ms[i].param != CR
    ensures var f, j := Session(s, e, ms), (a - e.Position()) % TWO32;
            && f.mem[a] == (if j < |ms| then LowByte(ms[j].param) else e.mem[a])
            && f.Position() == Word(e.Position() + |ms|) && f.mode == Ascii && InWindow(s, f)
  {
    hide OnChar, LowByte, InWindow;
    if ms != [] {
      var front, last := ms[..|ms| - 1], ms[|ms| - 1];
      AsciiTextIsStored(s, e, front, a);
      assert s.Valid() by { AsciiNeedsSetup(s, e); }
      AsciiCharIsStored(s, Session(s, e, front), last.param);
      DistanceAhead(e.Position(), a, |front|);
    }
  }

  lemma AsciiNeedsSetup(s: Setup, e: Core)
    requires InWindow(s, e)
    ensures s.Valid()
  {
  }

  lemma DistanceAhead(p: word32, a: word32, n: int)
    requires 0 <= n < TWO32
    ensures Word(p + n) == a <==> (a - p) % TWO32 == n
    ensures Word(Word(p + n) + 1) == Word(p + n + 1)
  {
  }
}
