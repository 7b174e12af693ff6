/** The LCD panel under the terminal: a grid of pixel lines, shown from a movable start line. */
module Panel {
  import opened Bits
  import opened Words

  /** `max_width` of every font the terminal accepts; os3k.c divides the panel width by it. */
  const CELL_WIDTH: int := 6

  datatype Point = Point(x: int, y: int)

  /** Panel memory; `true` is a dark pixel. */
  type Pixels = map<Point, bool>

  /** Font height, text rows, text columns, and the font's glyph bitmaps. */
  datatype Geometry = Geometry(height: int, rows: int, cols: int, font: (byte, int, int) -> bool) {
    /** 64 is the reach of the start-line register; 255 that of an 8-bit column number. */
    ghost predicate Valid() {
      (height == 8 || height == 16) && 1 <= rows && 1 <= cols <= 254 && Lcd() <= 64
    }

    /** The first pixel line of the text row with `n` rows above it. */
    function Band(n: int): int {
      if height == 16 then 16 * n else 8 * n
    }

    /** The inverse of `Band`. */
    function RowOf(line: int): int {
      if height == 16 then line / 16 else line / 8
    }

    /** `g_LcdHeight`. */
    function Lcd(): int {
      Band(rows)
    }

    /** `g_LcdWidth`. */
    function Width(): int {
      CELL_WIDTH * cols
    }

    /** The framebuffer line `v` reaches after wrapping once in either direction. */
    function Wrap(v: int): int {
      if v >= Lcd() then v - Lcd() else if v < 0 then v + Lcd() else v
    }

    /** The framebuffer line that holds line `py` of visible row `r` when the display starts at `roll`. */
    function Line(roll: int, r: int, py: int): int {
      Wrap(Band(r) + py + roll)
    }
  }

  /** The pixel column after drawing a cell at `x`: the panel's right edge is parked on the last pixel. */
  function Advance(width: int, x: int): int {
    if x + CELL_WIDTH == width then width - 1 else x + CELL_WIDTH
  }

  /** The geometry that os3k.c works out on MSG_INIT and MSG_SETFOCUS from the panel's and the font's size. */
  function PanelGeometry(lcdWidth: nat, lcdHeight: nat, height: int, font: (byte, int, int) -> bool): Geometry {
    var lcd := AndNot(lcdHeight, 1);
    Geometry(height, if height == 16 then lcd / 16 else lcd / 8, lcdWidth / 6, font)
  }

  predicate Lit(lcd: Pixels, p: Point) {
    p in lcd && lcd[p]
  }

  ghost predicate Covers(g: Geometry, lcd: Pixels) {
    forall p: Point :: p in lcd <==> 0 <= p.x < g.Width() && 0 <= p.y < g.Lcd()
  }

  /** `RasterOp(..., ROP_WHITENESS)`, clipped to the panel. */
  function Whiten(lcd: Pixels, x: int, y: int, w: int, h: int): Pixels {
    map p | p in lcd :: lcd[p] && !(x <= p.x < x + w && y <= p.y < y + h)
  }

  /** `DrawBitmap` with the glyph of `c`. */
  function Draw(g: Geometry, lcd: Pixels, x: int, y: int, c: byte): Pixels {
    map p | p in lcd ::
      if x <= p.x < x + CELL_WIDTH && y <= p.y < y + g.height then g.font(c, p.x - x, p.y - y) else lcd[p]
  }

  /** Pixel (px, py) of the character cell at visible row `r`, column `c`, both from 0. */
  function CellPixel(g: Geometry, lcd: Pixels, roll: int, r: int, c: int, px: int, py: int): bool {
    Lit(lcd, Point(CELL_WIDTH * c + px, g.Line(roll, r, py)))
  }

  ghost predicate InCell(g: Geometry, r: int, c: int, px: int, py: int) {
    0 <= r < g.rows && 0 <= c < g.cols && 0 <= px < CELL_WIDTH && 0 <= py < g.height
  }

  /** A start line on a text-row boundary. */
  ghost predicate Aligned(g: Geometry, roll: int) {
    0 <= roll < g.Lcd() && roll == g.Band(g.RowOf(roll))
  }

  lemma BandIsProduct(g: Geometry, n: int)
    requires g.Valid()
    ensures g.Band(n) == n * g.height
  {
  }

  lemma AlignedIsMultiple(g: Geometry, v: int)
    requires g.Valid()
    ensures v == g.Band(g.RowOf(v)) <==> v % g.height == 0
  {
    if g.height == 8 {
      assert v % g.height == v % 8;
    } else {
      assert v % g.height == v % 16;
    }
  }

  /** Drawing at a cell's corner replaces that cell's pixels and no other cell's. */
  lemma DrawFillsOneCell(g: Geometry, lcd: Pixels, roll: int, r0: int, c0: int, ch: byte, r: int, c: int, px: int, py: int)
    requires g.Valid() && Aligned(g, roll) && Covers(g, lcd)
    requires 0 <= r0 < g.rows && 0 <= c0 < g.cols && InCell(g, r, c, px, py)
    ensures CellPixel(g, Draw(g, lcd, CELL_WIDTH * c0, g.Line(roll, r0, 0), ch), roll, r, c, px, py)
         == if r == r0 && c == c0 then g.font(ch, px, py) else CellPixel(g, lcd, roll, r, c, px, py)
  {
    LinesOfRow(g, roll, r0, r, py);
  }

  /** Clearing from a cell's corner to the right edge blanks the rest of that row and nothing else. */
  lemma WhitenClearsTail(g: Geometry, lcd: Pixels, roll: int, r0: int, c0: int, r: int, c: int, px: int, py: int)
    requires g.Valid() && Aligned(g, roll) && Covers(g, lcd)
    requires 0 <= r0 < g.rows && 0 <= c0 < g.cols && InCell(g, r, c, px, py)
    ensures CellPixel(g, Whiten(lcd, CELL_WIDTH * c0, g.Line(roll, r0, 0), g.Width(), g.height), roll, r, c, px, py)
         == (CellPixel(g, lcd, roll, r, c, px, py) && !(r == r0 && c0 <= c))
  {
    LinesOfRow(g, roll, r0, r, py);
  }

  /** A row's lines are contiguous, never split by the wrap, and disjoint from every other row's. */
  lemma LinesOfRow(g: Geometry, roll: int, r0: int, r: int, py: int)
    requires g.Valid() && Aligned(g, roll) && 0 <= r0 < g.rows && 0 <= r < g.rows && 0 <= py < g.height
    ensures 0 <= g.Line(roll, r0, 0) <= g.Lcd() - g.height
    ensures g.Line(roll, r0, 0) == g.Band(g.RowOf(g.Line(roll, r0, 0)))
    ensures 0 <= g.Line(roll, r, py) < g.Lcd()
    ensures g.Line(roll, r0, 0) <= g.Line(roll, r, py) < g.Line(roll, r0, 0) + g.height <==> r == r0
    ensures r == r0 ==> g.Line(roll, r, py) - g.Line(roll, r0, 0) == py
  {
    if g.height == 8 {
      assert g.Lcd() == 8 * g.rows;
    } else {
      assert g.Lcd() == 16 * g.rows;
    }
  }

  /** The start line one text row further, and one text row back. */
  lemma RollStep(g: Geometry, roll: int)
    requires g.Valid() && Aligned(g, roll)
    ensures g.Wrap(roll + g.height) == g.Band(if g.RowOf(roll) + 1 == g.rows then 0 else g.RowOf(roll) + 1)
    ensures g.Wrap(roll - g.height) == g.Band(if g.RowOf(roll) == 0 then g.rows - 1 else g.RowOf(roll) - 1)
    ensures Aligned(g, g.Wrap(roll + g.height)) && Aligned(g, g.Wrap(roll - g.height))
  {
    var k := g.RowOf(roll);
    assert g.Band(k + 1) == roll + g.height && g.Band(k - 1) == roll - g.height;
    assert forall n {:trigger g.Band(n)} :: g.RowOf(g.Band(n)) == n;
  }

  /** Advancing the start line by one text row moves every visible row up by one. */
  lemma RollShiftsRows(g: Geometry, roll: int, r: int, py: int)
    requires g.Valid() && Aligned(g, roll) && 0 <= r < g.rows && 0 <= py < g.height
    ensures g.Line(g.Wrap(roll + g.height), r, py) == g.Line(roll, if r + 1 == g.rows then 0 else r + 1, py)
    ensures g.Line(g.Wrap(roll - g.height), r, py) == g.Line(roll, if r == 0 then g.rows - 1 else r - 1, py)
  {
    RollStep(g, roll);
    var k := g.RowOf(roll);
    if g.height == 8 {
      assert 0 <= k < g.rows;
    } else {
      assert 0 <= k < g.rows;
    }
  }
}
