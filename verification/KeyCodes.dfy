/** What each key code of os3k.h does to the dump editor, in codes and numbers. */
module KeyCodes {
  import opened Words
  import opened Bits
  import opened Editor
  import Modular

  /** `f` is `e` after a cursor move by `d`: within the window if possible, else with the window moved by one row. */
  ghost predicate Moved(rows: int, e: Core, f: Core, d: int) {
    var c := e.cursor + d;
    && f.mem == e.mem && f.prev == e.prev
    && f.address == (if c < 0 then (e.address - 8) % 0x1_0000_0000
                     else if c >= 8 * rows then (e.address + 8) % 0x1_0000_0000 else e.address)
    && f.cursor == if c < 0 then c + 8 else if c >= 8 * rows then c - 8 else c
  }

  /** The key codes that do something, less the three that open dialogs. */
  predicate IsKeyCode(code: int) {
    code in {0x49, 0x4A, 0x4B, 0x0D, 0x1F, 0x3E, 0x804B, 0x800D, 0x801F, 0x803E, 0x8410, 0x8810, 0x03, 0x8023, 0x34}
  }

  lemma CodeOf(code: word32)
    requires code / 0x200 % 2 == 0
    ensures ClearCapsLock(code) == code
  {
  }

  /** KEY_LEFT and KEY_RIGHT. */
  lemma LeftAndRight(s: Setup, e: Core)
    requires InWindow(s, e)
    ensures var l := Step(s, e, KeyDown(0x49));
            && (e.mode == NibbleLo ==> l == e.(mode := NibbleHi))
            && (e.mode == NibbleHi ==> l.mode == NibbleLo && Moved(s.rows, e, l, -1))
            && (e.mode == Ascii ==> l.mode == Ascii && Moved(s.rows, e, l, -1))
    ensures var r := Step(s, e, KeyDown(0x4A));
            && (e.mode == NibbleHi ==> r == e.(mode := NibbleLo))
            && (e.mode == NibbleLo ==> r.mode == NibbleHi && Moved(s.rows, e, r, 1))
            && (e.mode == Ascii ==> r.mode == Ascii && Moved(s.rows, e, r, 1))
  {
    hide AndNot, ReadLong, Zeroed, SetAddress;
    CodeOf(0x49);
    CodeOf(0x4A);
  }

  /** KEY_UP, KEY_DOWN, KEY_HOME and KEY_END. */
  lemma RowKeys(s: Setup, e: Core)
    requires InWindow(s, e)
    ensures var up, down := Step(s, e, KeyDown(0x4B)), Step(s, e, KeyDown(0x0D));
            Moved(s.rows, e, up, -8) && Moved(s.rows, e, down, 8) && up.mode == down.mode == e.mode
    ensures var home, end := Step(s, e, KeyDown(0x1F)), Step(s, e, KeyDown(0x3E));
            && home == e.(cursor := e.cursor / 8 * 8)
            && end == e.(cursor := e.cursor / 8 * 8 + 7)
  {
    hide AndNot, ReadLong, Zeroed, SetAddress;
    CodeOf(0x4B);
    CodeOf(0x0D);
    CodeOf(0x1F);
    CodeOf(0x3E);
  }

  /** KEY_MOD_CTRL with KEY_UP and KEY_DOWN: by whole screens. */
  lemma PageKeys(s: Setup, e: Core)
    requires InWindow(s, e)
    ensures Step(s, e, KeyDown(0x804B)) == e.(address := (e.address - 8 * s.rows) % 0x1_0000_0000)
    ensures Step(s, e, KeyDown(0x800D)) == e.(address := (e.address + 8 * s.rows) % 0x1_0000_0000)
  {
    hide AndNot, ReadLong, Zeroed, SetAddress, MoveCursor;
    CodeOf(0x804B);
    CodeOf(0x800D);
  }

  /** KEY_MOD_CTRL with KEY_HOME and KEY_END. */
  lemma ScreenKeys(s: Setup, e: Core)
    requires InWindow(s, e)
    ensures Step(s, e, KeyDown(0x801F)) == e.(cursor := 0)
    ensures Step(s, e, KeyDown(0x803E)) == e.(cursor := 8 * s.rows - 1)
  {
    hide AndNot, ReadLong, Zeroed, SetAddress;
    CodeOf(0x801F);
    CodeOf(0x803E);
    Modular.DivModUnique(e.cursor, s.Bytes(), 0, e.cursor);
  }

  /** The editor at another address: aligned window, high nibble, and where it was is remembered. */
  ghost predicate Jumped(e: Core, f: Core, addr: word32) {
    && f.address == addr / 8 * 8 && f.cursor == addr % 8
    && f.prev == (e.address + e.cursor) % 0x1_0000_0000 && f.mem == e.mem
    && f.mode == if e.mode == Ascii then Ascii else NibbleHi
  }

  lemma SetAddressJumps(e: Core, addr: word32)
    ensures Jumped(e, SetAddress(e, addr), addr)
  {
  }

  /** KEY_BACKSPACE. */
  lemma BackKey(s: Setup, e: Core)
    requires InWindow(s, e)
    ensures Jumped(e, Step(s, e, KeyDown(0x03)), e.prev)
  {
    hide AndNot, ReadLong, Zeroed, SetAddress, MoveCursor;
    CodeOf(0x03);
    SetAddressJumps(e, e.prev);
  }

  /** The four bytes from the cursor on, the first one highest. */
  function LongAt(mem: Memory, p: int): int {
    ((mem[p % 0x1_0000_0000] as int * 256 + mem[(p + 1) % 0x1_0000_0000] as int) * 256
     + mem[(p + 2) % 0x1_0000_0000] as int) * 256 + mem[(p + 3) % 0x1_0000_0000] as int
  }

  lemma ReadLongIsLongAt(mem: Memory, p: int)
    ensures ReadLong(mem, Word(p)) == LongAt(mem, p)
  {
    hide Word, ReadLong;
    ReadLongByBytes(mem, Word(p));
    WordAbsorbs(p, 0);
    WordAbsorbs(p, 1);
    WordAbsorbs(p, 2);
    WordAbsorbs(p, 3);
    WordIsModulo(p);
    WordIsModulo(p + 1);
    WordIsModulo(p + 2);
    WordIsModulo(p + 3);
  }

  lemma WordIsModulo(p: int)
    ensures Word(p) == p % 0x1_0000_0000
  {
  }

  /** KEY_MOD_CTRL, either shift and KEY_G. */
  lemma FollowKeys(s: Setup, e: Core)
    requires InWindow(s, e)
    ensures Step(s, e, KeyDown(0x8410)) == Step(s, e, KeyDown(0x8810))
    ensures var f, long := Step(s, e, KeyDown(0x8410)), LongAt(e.mem, e.address + e.cursor);
            if e.cursor % 2 == 1 then f == e else 0 <= long < 0x1_0000_0000 && Jumped(e, f, long)
  {
    hide AndNot, ReadLong, Zeroed, SetAddress, MoveCursor, LongAt;
    CodeOf(0x8410);
    CodeOf(0x8810);
    ReadLongIsLongAt(e.mem, e.address + e.cursor);
    SetAddressJumps(e, ReadLong(e.mem, e.Position()));
  }

  /** KEY_CLEAR_FILE zeroes the 256 bytes of g_scratch; Ctrl and KEY_R, and all codes without a case, change nothing. */
  lemma OtherKeys(s: Setup, e: Core, code: word32)
    requires InWindow(s, e)
    ensures var f := Step(s, e, KeyDown(0x34));
            && f.(mem := e.mem) == e
            && forall a :: 0 <= a < 0x1_0000_0000 ==> f.mem[a] == if s.scratch <= a < s.scratch + 256 then 0 else e.mem[a]
    ensures Step(s, e, KeyDown(0x8023)) == e
    ensures code / 0x200 % 2 == 0 ==> (Modelled(KeyDown(code)) <==> code !in {0x801C, 0x8010, 0xC04E})
    ensures code / 0x200 % 2 == 0 && !IsKeyCode(code) && Modelled(KeyDown(code)) ==> Step(s, e, KeyDown(code)) == e
  {
    hide AndNot, ReadLong, Zeroed, SetAddress, MoveCursor;
    CodeOf(0x34);
    CodeOf(0x8023);
    if code / 0x200 % 2 == 0 {
      CodeOf(code);
    }
  }
}
