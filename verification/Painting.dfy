/** The one-byte repaint never diverges from the full redraw. */
module Painting {
  import opened Words
  import opened Hex
  import opened Panel
  import opened Editor
  import opened DumpScreen
  import T = TextScreen

  // ----- Text layout -----

  lemma {:induction false} HexPaneAt(mem: Memory, a: word32, n: nat, j: nat)
    requires j < 3 * n
    ensures HexPane(mem, a, n)[j] == HexText(mem[Word(a + j / 3)])[j % 3]
  {
    if j < 3 * (n - 1) {
      HexPaneAt(mem, a, n - 1, j);
    }
  }

  lemma {:induction false} AsciiPaneAt(mem: Memory, a: word32, n: nat, j: nat)
    requires j < n
    ensures AsciiPane(mem, a, n)[j] == AsciiOf(mem[Word(a + j)])
  {
    if j < n - 1 {
      AsciiPaneAt(mem, a, n - 1, j);
    }
  }

  /** Column `i` of a dump row, counted from the address's first digit. */
  function RowChar(mem: Memory, a: word32, i: int): byte
    requires 0 <= i < ROW_LENGTH
  {
    if i < 9 then AddressText(a)[i]
    else if i < 33 then HexText(mem[Word(a + (i - 9) / 3)])[(i - 9) % 3]
    else AsciiOf(mem[Word(a + (i - 33))])
  }

  lemma RowTextAt(mem: Memory, a: word32, i: int)
    requires 0 <= i < ROW_LENGTH
    ensures RowText(mem, a)[i] == RowChar(mem, a, i)
  {
    hide AddressText, HexPane, AsciiPane, HexText, AsciiOf, Word;
    if 9 <= i < 33 {
      HexPaneAt(mem, a, 8, i - 9);
      assert RowText(mem, a)[i] == HexPane(mem, a, 8)[i - 9];
    } else if 33 <= i {
      AsciiPaneAt(mem, a, 8, i - 33);
      assert RowText(mem, a)[i] == AsciiPane(mem, a, 8)[i - 33];
    }
  }

  lemma AsciiIsPrintable(c: byte)
    ensures T.IsPrintable(AsciiOf(c))
  {
  }

  lemma HexTextIsPrintable(c: byte)
    ensures forall i :: 0 <= i < 3 ==> T.IsPrintable(HexText(c)[i])
  {
    HexDigitRoundTrip((c >> 4) as int);
    HexDigitRoundTrip((c & 0x0F) as int);
  }

  lemma {:induction false} PanesArePrintable(mem: Memory, a: word32, n: nat)
    ensures forall i :: 0 <= i < 3 * n ==> T.IsPrintable(HexPane(mem, a, n)[i])
    ensures forall i :: 0 <= i < n ==> T.IsPrintable(AsciiPane(mem, a, n)[i])
  {
    if n > 0 {
      PanesArePrintable(mem, a, n - 1);
      HexTextIsPrintable(mem[Word(a + n - 1)]);
      AsciiIsPrintable(mem[Word(a + n - 1)]);
    }
  }

  /** No byte in memory and no address can send a control character. */
  lemma RowIsPrintable(mem: Memory, a: word32)
    ensures forall i :: 0 <= i < ROW_LENGTH ==> T.IsPrintable(RowText(mem, a)[i])
  {
    HexNIsHex(a, 8);
    PanesArePrintable(mem, a, 8);
  }

  lemma CursorFindsDigits(mem: Memory, a: word32, k: int)
    requires 0 <= k < BYTES_PER_ROW
    ensures var text, digits := RowText(mem, a), HexText(mem[Word(a + k)]);
            text[9 + 3 * k] == digits[0] && text[10 + 3 * k] == digits[1] && text[11 + 3 * k] == digits[2]
  {
    hide RowText, HexText, AddressText;
    assert (9 + 3 * k - 9) / 3 == k && (10 + 3 * k - 9) / 3 == k && (11 + 3 * k - 9) / 3 == k;
    RowTextAt(mem, a, 9 + 3 * k);
    RowTextAt(mem, a, 10 + 3 * k);
    RowTextAt(mem, a, 11 + 3 * k);
  }

  /** The cursor positions of both panes are the cells where the redraw put that byte's characters. */
  lemma CursorFindsByte(mem: Memory, a: word32, offset: int)
    requires 0 <= offset
    ensures var text, c := RowText(mem, a), mem[Word(a + offset % BYTES_PER_ROW)];
            && text[ColAt(offset, NibbleHi) - ADDRESS_COL] == Hex2(c)[0]
            && text[ColAt(offset, NibbleLo) - ADDRESS_COL] == Hex2(c)[1]
            && text[ColAt(offset, NibbleLo) + 1 - ADDRESS_COL] == SPACE
            && text[ColAt(offset, Ascii) - ADDRESS_COL] == AsciiOf(c)
  {
    hide RowText, Hex2, AsciiOf;
    CursorFindsDigits(mem, a, offset % BYTES_PER_ROW);
    RowTextAt(mem, a, 33 + offset % BYTES_PER_ROW);
  }

  /** The address `j` bytes after `a`, wrapping at 2^32. */
  lemma WordDistance(a: word32, p: word32, j: int)
    requires 0 <= j < TWO32
    ensures Word(a + j) == p <==> (p - a) % TWO32 == j
    ensures (Word(a + j) - a) % TWO32 == j
  {
  }

  /** Which of the row's bytes column `i` belongs to. */
  function ByteOf(i: int): int {
    if i < 33 then (i - 9) / 3 else i - 33
  }

  lemma RowCharAfterStore(mem: Memory, a: word32, p: word32, v: byte, i: int)
    requires 0 <= i < ROW_LENGTH
    ensures i < 9 || (p - a) % TWO32 != ByteOf(i) ==> RowChar(mem[p := v], a, i) == RowChar(mem, a, i)
    ensures 9 <= i && (p - a) % TWO32 == ByteOf(i) ==>
              RowChar(mem[p := v], a, i) == if i < 33 then HexText(v)[(i - 9) % 3] else AsciiOf(v)
  {
    if 9 <= i {
      WordDistance(a, p, ByteOf(i));
    }
  }

  lemma ColumnsOfByte(i: int, k: int)
    requires 9 <= i < ROW_LENGTH && 0 <= k < BYTES_PER_ROW
    ensures ByteOf(i) == k <==> 9 + 3 * k <= i < 12 + 3 * k || i == 33 + k
    ensures i < 33 && ByteOf(i) == k ==> (i - 9) % 3 == i - 9 - 3 * k
  {
  }

  /** Changing one byte of a row changes that byte's three characters and nothing else. */
  lemma RowTextAfterStore(mem: Memory, a: word32, k: int, v: byte, i: int)
    requires 0 <= k < BYTES_PER_ROW && 0 <= i < ROW_LENGTH
    ensures RowText(mem[Word(a + k) := v], a)[i] ==
              if 9 + 3 * k <= i < 12 + 3 * k then HexText(v)[i - 9 - 3 * k]
              else if i == 33 + k then AsciiOf(v) else RowText(mem, a)[i]
  {
    hide RowText, RowChar, HexText, AsciiOf, ByteOf, Word;
    RowTextAt(mem, a, i);
    RowTextAt(mem[Word(a + k) := v], a, i);
    if 9 <= i {
      WordDistance(a, Word(a + k), k);
      ColumnsOfByte(i, k);
    }
    RowCharAfterStore(mem, a, Word(a + k), v, i);
  }

  /** A byte outside the row's eight addresses does not show in the row. */
  lemma RowTextIgnoresOtherBytes(mem: Memory, a: word32, p: word32, v: byte)
    requires (p - a) % TWO32 >= BYTES_PER_ROW
    ensures RowText(mem[p := v], a) == RowText(mem, a)
  {
    forall i | 0 <= i < ROW_LENGTH ensures RowText(mem[p := v], a)[i] == RowText(mem, a)[i] {
      RowTextAt(mem, a, i);
      RowTextAt(mem[p := v], a, i);
      RowCharAfterStore(mem, a, p, v, i);
    }
  }

  // ----- The redraw -----

  /** Nothing but dump rows on the screen: the columns left and right of them are empty. */
  ghost predicate BlankMargins(g: Geometry, lines: seq<seq<T.Cell>>)
    requires |lines| == g.rows && forall r :: 0 <= r < g.rows ==> |lines[r]| == g.cols
  {
    forall r, i :: 0 <= r < g.rows && 0 <= i < g.cols && (i < ADDRESS_COL - 1 || LAST_COL <= i) ==> lines[r][i] == T.Blank
  }

  lemma RowOpsPaint(g: Geometry, s: Setup, e: Core, p: T.Screen, r: int)
    requires Fits(g, s) && T.WellFormed(g, p) && 0 <= r < s.rows
    ensures T.AllLegal(g, RowOps(e, r))
    ensures var q, text := T.Run(g, p, RowOps(e, r)), RowText(e.mem, Word(e.address + BYTES_PER_ROW * r));
            && q.scrolls == p.scrolls && q.rung == p.rung
            && q.lines == p.lines[r := T.Overwrite(p.lines[r], ADDRESS_COL - 1, T.Glyphs(text))]
  {
    hide T.Run, HexN, HexPane, AsciiPane;
    var a := Word(e.address + BYTES_PER_ROW * r);
    RowIsPrintable(e.mem, a);
    T.WriteAt(g, p, r + 1, ADDRESS_COL, T.Hide, RowText(e.mem, a));
  }

  lemma RowBecomesImage(g: Geometry, line: seq<T.Cell>, mem: Memory, a: word32)
    requires LAST_COL <= g.cols == |line|
    requires forall i :: 0 <= i < g.cols && (i < ADDRESS_COL - 1 || LAST_COL <= i) ==> line[i] == T.Blank
    ensures T.Overwrite(line, ADDRESS_COL - 1, T.Glyphs(RowText(mem, a))) == ImageLine(g, mem, a)
  {
  }

  lemma OneMoreLine<A>(image: seq<A>, lines: seq<A>, n: nat)
    requires 0 < n <= |image| == |lines|
    ensures (image[..n - 1] + lines[n - 1..])[n - 1 := image[n - 1]] == image[..n] + lines[n..]
  {
  }

  lemma {:induction false} RowsOpsPaint(g: Geometry, s: Setup, e: Core, p: T.Screen, n: nat)
    requires Fits(g, s) && T.WellFormed(g, p) && BlankMargins(g, p.lines) && n <= s.rows
    ensures T.AllLegal(g, RowsOps(e, n))
    ensures var q := T.Run(g, p, RowsOps(e, n));
            && q.scrolls == p.scrolls && q.rung == p.rung
            && q.lines == ImageLines(g, s, e)[..n] + p.lines[n..]
  {
    hide T.Run, RowText, RowOps, ImageLine, T.Overwrite, T.Glyphs, Word;
    if n > 0 {
      RowsOpsPaint(g, s, e, p, n - 1);
      var q := T.Run(g, p, RowsOps(e, n - 1));
      RowOpsPaint(g, s, e, q, n - 1);
      T.RunConcat(g, p, RowsOps(e, n - 1), RowOps(e, n - 1));
      assert RowsOps(e, n) == RowsOps(e, n - 1) + RowOps(e, n - 1);
      RowBecomesImage(g, p.lines[n - 1], e.mem, Word(e.address + BYTES_PER_ROW * (n - 1)));
      assert q.lines[n - 1] == p.lines[n - 1];
      OneMoreLine(ImageLines(g, s, e), p.lines, n);
      assert T.Run(g, p, RowsOps(e, n)).lines == ImageLines(g, s, e)[..n] + p.lines[n..];
    } else {
      T.RunNone(g, p);
      assert ImageLines(g, s, e)[..n] + p.lines[n..] == p.lines;
    }
  }

  lemma CursorOpLands(g: Geometry, s: Setup, e: Core)
    requires Fits(g, s) && 0 <= e.cursor
    ensures T.Legal(g, CursorOp(e)) && 1 <= RowAt(e.cursor)
    ensures RowAt(e.cursor) <= g.rows <==> e.cursor < s.Bytes()
  {
  }

  /** A full redraw over empty margins leaves exactly the image, whatever was in the panes before. */
  lemma RedrawPaintsImage(g: Geometry, s: Setup, e: Core, p: T.Screen)
    requires Fits(g, s) && InWindow(s, e) && T.WellFormed(g, p) && BlankMargins(g, p.lines) && p.scrolls == 0
    ensures T.AllLegal(g, RedrawOps(s, e))
    ensures T.Run(g, p, RedrawOps(s, e)) == Image(g, s, e, p.rung)
  {
    RowsOpsPaint(g, s, e, p, s.rows);
    CursorOpLands(g, s, e);
    assert [CursorOp(e)][..0] == [];
    T.RunConcat(g, p, RowsOps(e, s.rows), [CursorOp(e)]);
  }

  // ----- Where the cursor finds what was drawn -----

  /** The cell of the picture that the cursor takes for the byte at `offset`. */
  function CellAt(g: Geometry, s: Setup, e: Core, offset: int, mode: Mode): T.Cell
    requires Fits(g, s) && 0 <= offset < s.Bytes()
  {
    ImageLines(g, s, e)[RowAt(offset) - 1][ColAt(offset, mode) - 1]
  }

  /** On the whole screen, the cell the cursor takes for a byte, in any mode, holds that byte's digit or character. */
  lemma CursorFindsByteOnScreen(g: Geometry, s: Setup, e: Core, offset: int)
    requires Fits(g, s) && 0 <= offset < s.Bytes()
    ensures var c := e.mem[Word(e.address + offset)];
            && CellAt(g, s, e, offset, NibbleHi) == T.Glyph(Hex2(c)[0])
            && CellAt(g, s, e, offset, NibbleLo) == T.Glyph(Hex2(c)[1])
            && CellAt(g, s, e, offset, Ascii) == T.Glyph(AsciiOf(c))
  {
    hide RowText, Hex2, AsciiOf, T.Blanks, Word;
    var r, k := offset / BYTES_PER_ROW, offset % BYTES_PER_ROW;
    CursorFindsByte(e.mem, Word(e.address + BYTES_PER_ROW * r), offset);
    WordAbsorbs(e.address + BYTES_PER_ROW * r, k);
    assert Word(e.address + offset) == Word(Word(e.address + BYTES_PER_ROW * r) + k);
  }

  /** Different bytes and different modes have different cells: in particular the two panes never overlap. */
  lemma CellsAreDistinct(i: int, m: Mode, j: int, n: Mode)
    requires 0 <= i && 0 <= j && RowAt(i) == RowAt(j) && ColAt(i, m) == ColAt(j, n)
    ensures i == j && m == n
  {
  }

  // ----- The repaint -----

  /** On the row of the stored byte, overwriting its two fields gives the new row. */
  lemma RepaintedRow(g: Geometry, mem: Memory, a: word32, k: int, v: byte)
    requires LAST_COL <= g.cols && 0 <= k < BYTES_PER_ROW
    ensures var hexed := T.Overwrite(ImageLine(g, mem, a), ColAt(k, NibbleHi) - 1, T.Glyphs(HexText(v)));
            T.Overwrite(hexed, ColAt(k, Ascii) - 1, T.Glyphs([AsciiOf(v)])) == ImageLine(g, mem[Word(a + k) := v], a)
  {
    hide RowText, HexText, T.Overwrite, T.Blanks, T.Glyphs, AsciiOf;
    var hexed := T.Overwrite(ImageLine(g, mem, a), ColAt(k, NibbleHi) - 1, T.Glyphs(HexText(v)));
    var line := T.Overwrite(hexed, ColAt(k, Ascii) - 1, T.Glyphs([AsciiOf(v)]));
    forall i | 0 <= i < g.cols ensures line[i] == ImageLine(g, mem[Word(a + k) := v], a)[i] {
      if ADDRESS_COL - 1 <= i < LAST_COL {
        RowTextAfterStore(mem, a, k, v, i - (ADDRESS_COL - 1));
      }
    }
  }

  lemma WordDifference(x: int, y: int)
    ensures (Word(x) - Word(y)) % TWO32 == (x - y) % TWO32
  {
  }

  /** The rows of a window lie in different places of memory. */
  lemma OtherRows(s: Setup, e: Core, r: int)
    requires InWindow(s, e) && 0 <= r < s.rows
    ensures var a := Word(e.address + BYTES_PER_ROW * r);
            if r == e.cursor / BYTES_PER_ROW then e.Position() == Word(a + e.cursor % BYTES_PER_ROW)
            else (e.Position() - a) % TWO32 >= BYTES_PER_ROW
  {
    hide Word;
    var d := e.cursor - BYTES_PER_ROW * r;
    WordDifference(e.address + e.cursor, e.address + BYTES_PER_ROW * r);
    WordAbsorbs(e.address + BYTES_PER_ROW * r, d);
    assert -64 <= d < 64;
    assert d % TWO32 == if d < 0 then d + TWO32 else d;
  }

  lemma RepaintedLines(g: Geometry, s: Setup, e: Core, v: byte)
    requires Fits(g, s) && InWindow(s, e)
    ensures var r, k, lines := e.cursor / BYTES_PER_ROW, e.cursor % BYTES_PER_ROW, ImageLines(g, s, e);
            var hexed := T.Overwrite(lines[r], ColAt(k, NibbleHi) - 1, T.Glyphs(HexText(v)));
            lines[r := T.Overwrite(hexed, ColAt(k, Ascii) - 1, T.Glyphs([AsciiOf(v)]))]
              == ImageLines(g, s, e.(mem := e.mem[e.Position() := v]))
  {
    hide RowText, HexText, AsciiOf, Word, T.Overwrite, T.Glyphs, T.Blanks;
    forall r | 0 <= r < s.rows
      ensures var a := Word(e.address + BYTES_PER_ROW * r);
              if r == e.cursor / BYTES_PER_ROW then e.Position() == Word(a + e.cursor % BYTES_PER_ROW)
              else ImageLine(g, e.mem[e.Position() := v], a) == ImageLine(g, e.mem, a)
    {
      OtherRows(s, e, r);
      if r != e.cursor / BYTES_PER_ROW {
        RowTextIgnoresOtherBytes(e.mem, Word(e.address + BYTES_PER_ROW * r), e.Position(), v);
      }
    }
    var r := e.cursor / BYTES_PER_ROW;
    RepaintedRow(g, e.mem, Word(e.address + BYTES_PER_ROW * r), e.cursor % BYTES_PER_ROW, v);
  }

  /** Writing one byte and repainting it turns the picture of the old memory into that of the new. */
  lemma RepaintPaintsImage(g: Geometry, s: Setup, e: Core, v: byte, p: T.Screen)
    requires Fits(g, s) && InWindow(s, e) && T.WellFormed(g, p) && p.lines == ImageLines(g, s, e)
    ensures var f := e.(mem := e.mem[e.Position() := v]);
            && T.AllLegal(g, RepaintOps(f))
            && var q := T.Run(g, p, RepaintOps(f));
               q.lines == ImageLines(g, s, f) && q.scrolls == p.scrolls && q.rung == p.rung
  {
    hide T.Run, HexText, AsciiOf, ImageLine, Word, T.Overwrite, T.Glyphs;
    var row, k := RowAt(e.cursor), e.cursor % BYTES_PER_ROW;
    HexTextIsPrintable(v);
    AsciiIsPrintable(v);
    T.WriteAt(g, p, row, ColAt(k, NibbleHi), T.Hide, HexText(v));
    var first := [T.Move(row, ColAt(k, NibbleHi), T.Hide)] + T.Puts(HexText(v));
    var second := [T.Move(row, ColAt(k, Ascii), T.Hide)] + T.Puts([AsciiOf(v)]);
    T.WriteAt(g, T.Run(g, p, first), row, ColAt(k, Ascii), T.Hide, [AsciiOf(v)]);
    assert RepaintOps(e.(mem := e.mem[e.Position() := v])) == first + second;
    T.RunConcat(g, p, first, second);
    RepaintedLines(g, s, e, v);
  }
}
