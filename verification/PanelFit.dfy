/** os3k.c wraps and scrolls against the size of the panel, not of the text: which panels it is right for. */
module PanelFit {
  import opened Words
  import opened Bits
  import opened Panel
  import opened Terminal

  // ----- Wrapping -----

  /** The pixel column after `n` characters from the left edge, if none of them wrapped. */
  function XAfter(width: int, n: nat): int {
    if n == 0 then 0 else Advance(width, XAfter(width, n - 1))
  }

  lemma {:induction false} XWithinRow(width: int, n: nat)
    requires CELL_WIDTH <= width && n <= width / CELL_WIDTH
    ensures XAfter(width, n) == if CELL_WIDTH * n == width then width - 1 else CELL_WIDTH * n
  {
    if n > 0 {
      XWithinRow(width, n - 1);
    }
  }

  /** The wrap test, `x == g_LcdWidth - 1`, after `n` characters. */
  predicate WrapPending(width: int, n: nat) {
    XAfter(width, n) == width - 1
  }

  /** A row wraps when it is full, and not before, exactly if at most one pixel is left over at its right end. */
  lemma WrapsWhenFullIff(width: int)
    requires CELL_WIDTH <= width
    ensures (forall n :: 0 <= n <= width / CELL_WIDTH ==> (WrapPending(width, n) <==> n == width / CELL_WIDTH))
       <==> width % CELL_WIDTH <= 1
  {
    var cols := width / CELL_WIDTH;
    forall n | 0 <= n <= cols ensures WrapPending(width, n) <==> n == cols && width % CELL_WIDTH <= 1 {
      XWithinRow(width, n);
    }
    assert WrapPending(width, cols) <==> width % CELL_WIDTH <= 1;
  }

  /** With more left over it does not wrap before the 16-bit x overflows: characters cross the right edge. */
  lemma {:induction false} OverlongRow(width: int, n: nat)
    requires CELL_WIDTH <= width && width % CELL_WIDTH >= 2 && CELL_WIDTH * n < 0x1_0000
    ensures XAfter(width, n) == CELL_WIDTH * n && !WrapPending(width, n)
    ensures n >= width / CELL_WIDTH ==> XAfter(width, n) + CELL_WIDTH > width
  {
    if n > 0 {
      OverlongRow(width, n - 1);
    }
  }

  // ----- Scrolling -----

  /** The start line after a scroll up or down. */
  function Rolled(lcd: int, height: int, roll: int, up: bool): int {
    if up then
      if roll + height >= lcd then roll + height - lcd else roll + height
    else
      if roll - height < 0 then roll - height + lcd else roll - height
  }

  function RollAfter(lcd: int, height: int, scrolls: seq<bool>): int {
    if scrolls == [] then 0
    else Rolled(lcd, height, RollAfter(lcd, height, scrolls[..|scrolls| - 1]), scrolls[|scrolls| - 1])
  }

  /** The framebuffer line at which visible row `r` is drawn, counting rows from 0. */
  function RowLine(lcd: int, height: int, roll: int, r: int): int {
    var y := r * height + roll;
    if y >= lcd then y - lcd else y
  }

  ghost predicate RowInside(lcd: int, height: int, roll: int, r: int) {
    0 <= RowLine(lcd, height, roll, r) <= lcd - height
  }

  function Rows(lcd: int, height: int): int {
    if height == 16 then lcd / 16 else lcd / 8
  }

  function Rest(lcd: int, height: int): int {
    if height == 16 then lcd % 16 else lcd % 8
  }

  lemma RolledStaysAligned(lcd: int, height: int, roll: int, up: bool)
    requires (height == 8 || height == 16) && height <= lcd && Rest(lcd, height) == 0
    requires 0 <= roll <= lcd - height && Rest(roll, height) == 0
    ensures 0 <= Rolled(lcd, height, roll, up) <= lcd - height && Rest(Rolled(lcd, height, roll, up), height) == 0
  {
    if height == 8 {
      StaysAlignedBy8(lcd / 8, roll / 8, up);
    } else {
      StaysAlignedBy16(lcd / 16, roll / 16, up);
    }
  }

  lemma StaysAlignedBy8(a: int, b: int, up: bool)
    requires 0 <= b < a
    ensures Rolled(8 * a, 8, 8 * b, up) == 8 * if up then if b + 1 == a then 0 else b + 1 else if b == 0 then a - 1 else b - 1
  {
  }

  lemma StaysAlignedBy16(a: int, b: int, up: bool)
    requires 0 <= b < a
    ensures Rolled(16 * a, 16, 16 * b, up) == 16 * if up then if b + 1 == a then 0 else b + 1 else if b == 0 then a - 1 else b - 1
  {
  }

  lemma {:induction false} RollIsAligned(lcd: int, height: int, scrolls: seq<bool>)
    requires (height == 8 || height == 16) && height <= lcd && Rest(lcd, height) == 0
    ensures 0 <= RollAfter(lcd, height, scrolls) <= lcd - height && Rest(RollAfter(lcd, height, scrolls), height) == 0
  {
    hide Rolled, Rest;
    if scrolls == [] {
      ZeroRest(height);
    } else {
      RollIsAligned(lcd, height, scrolls[..|scrolls| - 1]);
      RolledStaysAligned(lcd, height, RollAfter(lcd, height, scrolls[..|scrolls| - 1]), scrolls[|scrolls| - 1]);
    }
  }

  lemma ZeroRest(height: int)
    ensures Rest(0, height) == 0
  {
  }

  /** Every row stays inside the framebuffer through all scrolling exactly if the rows fill the panel's height. */
  lemma RowsStayInsideIff(lcd: int, height: int)
    requires (height == 8 || height == 16) && height <= lcd
    ensures (forall scrolls, r :: 0 <= r < Rows(lcd, height) ==> RowInside(lcd, height, RollAfter(lcd, height, scrolls), r))
       <==> Rest(lcd, height) == 0
  {
    if Rest(lcd, height) == 0 {
      forall scrolls, r | 0 <= r < Rows(lcd, height) ensures RowInside(lcd, height, RollAfter(lcd, height, scrolls), r) {
        RollIsAligned(lcd, height, scrolls);
      }
    } else {
      FirstScrollLeaves(lcd, height);
    }
  }

  /** Otherwise the very first scroll brings in a row that runs past the end of the framebuffer. */
  lemma FirstScrollLeaves(lcd: int, height: int)
    requires (height == 8 || height == 16) && height <= lcd && Rest(lcd, height) != 0
    ensures Rows(lcd, height) >= 1 && !RowInside(lcd, height, RollAfter(lcd, height, [true]), Rows(lcd, height) - 1)
  {
    assert [true][..0] == [];
    assert RollAfter(lcd, height, [true]) == Rolled(lcd, height, 0, true);
  }

  /** For instance 268 by 60 pixels: the 45th character is drawn across the right edge, the first scroll brings in a row beyond line 59. */
  lemma UnevenPanelGoesWrong()
    ensures !WrapPending(268, 268 / CELL_WIDTH) && XAfter(268, 44) + CELL_WIDTH > 268
    ensures !RowInside(60, 16, RollAfter(60, 16, [true]), Rows(60, 16) - 1)
  {
    OverlongRow(268, 44);
    FirstScrollLeaves(60, 16);
  }

  // ----- The terminal's geometry -----

  /** On a panel that cells fill, the terminal's geometry has the panel's sizes. */
  lemma GeometryFills(width: nat, lcd: nat, height: int, font: (byte, int, int) -> bool)
    requires (height == 8 || height == 16) && CELL_WIDTH <= width <= 254 * CELL_WIDTH && height <= lcd <= 64
    requires width % CELL_WIDTH == 0 && Rest(lcd, height) == 0
    ensures var g := PanelGeometry(width, lcd, height, font);
            g.Valid() && g.height == height && g.Width() == width && g.Lcd() == lcd && g.cols == width / CELL_WIDTH
  {
    hide AndNot;
    EvenHeight(lcd);
  }

  /** And its positions and scrolls are those worked out from the panel's sizes. */
  lemma GeometryAgrees(g: Geometry, roll: int, r: int, n: nat)
    requires g.Valid() && Aligned(g, roll) && 0 <= r < g.rows && n <= g.cols
    ensures CursorX(g, n + 1) == XAfter(g.Width(), n)
    ensures g.Line(roll, r, 0) == RowLine(g.Lcd(), g.height, roll, r)
    ensures RollTo(g, roll, g.rows + 1) == Rolled(g.Lcd(), g.height, roll, true)
    ensures RollTo(g, roll, 0) == Rolled(g.Lcd(), g.height, roll, false)
  {
    hide Geometry.Band, Geometry.Line, Geometry.Wrap, Geometry.Lcd, RollTo, Aligned, XAfter;
    assert g.Width() / CELL_WIDTH == g.cols;
    XWithinRow(g.Width(), n);
    ScrollArithmetic(g, roll, g.rows + 1);
    ScrollArithmetic(g, roll, 0);
    CursorLine(g, roll, r + 1);
    assert g.Line(roll, r, 0) == RowLine(g.Lcd(), g.height, roll, r);
  }

  lemma EvenHeight(lcd: nat)
    requires lcd % 8 == 0
    ensures AndNot(lcd, 1) == lcd
  {
    hide AndNot, Or, IsPowerOfTwo;
    Powers();
    MaskLowBits(lcd, 2);
    assert lcd % 2 == 0;
  }
}
