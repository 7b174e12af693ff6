/** The dump's picture, cell by cell, in character codes and column numbers. */
module Picture {
  import opened Words
  import opened Hex
  import opened Panel
  import opened Editor
  import opened DumpScreen
  import opened Painting
  import T = TextScreen

  /** The cell holds the character with this code. */
  predicate Holds(cell: T.Cell, code: int) {
    cell.Glyph? && cell.c as int == code
  }

  /** The value of each of eight hex digits. */
  const PLACES: seq<int> := [0x1000_0000, 0x100_0000, 0x10_0000, 0x1_0000, 0x1000, 0x100, 0x10, 1]

  function Shifted(w: nat, k: nat): nat {
    if k == 0 then w else Shifted(w / 16, k - 1)
  }

  lemma {:induction false} HexNAt(w: nat, n: nat, i: nat)
    requires i < n
    ensures HexN(w, n)[i] == HexDigit(Shifted(w, n - 1 - i) % 16)
  {
    if i < n - 1 {
      HexNAt(w / 16, n - 1, i);
    }
  }

  lemma ShiftedIsQuotient(w: nat, i: nat)
    requires i < 8
    ensures Shifted(w, 7 - i) == w / PLACES[i]
  {
    ShiftedOn(w, 0);
    ShiftedOn(w, 1);
    ShiftedOn(w, 2);
    ShiftedOn(w, 3);
    ShiftedOn(w, 4);
    ShiftedOn(w, 5);
    ShiftedOn(w, 6);
  }

  lemma {:induction false} ShiftedOn(w: nat, k: nat)
    ensures Shifted(w, k + 1) == Shifted(w, k) / 16
  {
    if k > 0 {
      ShiftedOn(w / 16, k - 1);
    }
  }

  lemma GlyphOfDigit(c: byte, n: int)
    requires 0 <= n < 16 && c == HexDigit(n)
    ensures Holds(T.Glyph(c), DigitCode(n, false))
  {
    PrintedDigit(n);
  }

  /** What a cell of dump row `r` is on the screen: columns are counted from 0. */
  ghost predicate CellIs(g: Geometry, s: Setup, e: Core, cell: T.Cell, r: int, i: int) {
    var a := (e.address + 8 * r) % 0x1_0000_0000;
    if i < 2 || 43 <= i then cell == T.Blank
    else if i < 10 then Holds(cell, DigitCode(a / PLACES[i - 2] % 16, false))
    else if i == 10 then Holds(cell, 0x20)
    else if i < 35 then
      var b := e.mem[(a + (i - 11) / 3) % 0x1_0000_0000] as int;
      Holds(cell, if (i - 11) % 3 == 0 then DigitCode(b / 16, false)
                  else if (i - 11) % 3 == 1 then DigitCode(b % 16, false) else 0x20)
    else
      var b := e.mem[(a + (i - 35)) % 0x1_0000_0000] as int;
      Holds(cell, if b < 0x20 then 0xB7 else b)
  }

  lemma AddressCell(a: word32, i: int)
    requires 0 <= i < 9
    ensures Holds(T.Glyph(AddressText(a)[i]), if i < 8 then DigitCode(a / PLACES[i] % 16, false) else 0x20)
  {
    hide HexN, Shifted, HexDigit, DigitCode;
    if i < 8 {
      HexNAt(a, 8, i);
      ShiftedIsQuotient(a, i);
      GlyphOfDigit(HexN(a, 8)[i], a / PLACES[i] % 16);
    }
  }

  lemma HexCell(b: byte, j: int)
    requires 0 <= j < 3
    ensures Holds(T.Glyph(HexText(b)[j]),
                  if j == 0 then DigitCode(b as int / 16, false) else if j == 1 then DigitCode(b as int % 16, false) else 0x20)
  {
    hide Hex2, HexDigit, DigitCode;
    Hex2Digits(b);
    GlyphOfDigit(HexDigit(b as int / 16), b as int / 16);
    GlyphOfDigit(HexDigit(b as int % 16), b as int % 16);
  }

  lemma AsciiCell(b: byte)
    ensures Holds(T.Glyph(AsciiOf(b)), if b as int < 0x20 then 0xB7 else b as int)
  {
  }

  /** Every cell of every row: address, both panes, spaces between, and nothing to their left and right. */
  lemma PictureCell(g: Geometry, s: Setup, e: Core, r: int, i: int)
    requires Fits(g, s) && 0 <= r < s.rows && 0 <= i < g.cols
    ensures CellIs(g, s, e, ImageLines(g, s, e)[r][i], r, i)
  {
    hide RowText, HexText, AsciiOf, AddressText, DigitCode, T.Glyphs, T.Overwrite;
    var a := Word(e.address + 8 * r);
    if 2 <= i < 43 {
      RowTextAt(e.mem, a, i - 2);
      if i < 11 {
        AddressCell(a, i - 2);
      } else if i < 35 {
        HexCell(e.mem[Word(a + (i - 11) / 3)], (i - 11) % 3);
      } else {
        AsciiCell(e.mem[Word(a + (i - 35))]);
      }
    }
  }

  /** And the cursor: shown on the row and at the digit or character of its byte, nothing scrolled. */
  lemma PictureCursor(g: Geometry, s: Setup, e: Core, rung: bool)
    requires Fits(g, s) && InWindow(s, e)
    ensures var p := Image(g, s, e, rung);
            && p.row == 1 + e.cursor / 8
            && p.col == (match e.mode
                         case NibbleHi => 12 + 3 * (e.cursor % 8)
                         case NibbleLo => 13 + 3 * (e.cursor % 8)
                         case Ascii => 36 + e.cursor % 8)
            && p.mode == T.Show && p.scrolls == 0 && p.rung == rung
  {
    hide ImageLines;
  }
}
