/**
 * The file browser's histogram rasteriser and its small state helpers.
 *
 * A one-dimensional histogram is drawn column by column: terminal column
 * 1+x shows ROOT bins 2x and 2x+1 (bin 0 is the underflow bin) as the
 * left and right halves of each cell.  A cell `blockmode` pixel rows high
 * compares each pixel row with both bin heights, packs the answers into a
 * code and shows the glyph the code maps to.  The first empty cell of a
 * column blanks the rest of it.  A two-dimensional histogram paints every
 * non-empty bin with a grey level taken from a clamped linear ramp.
 *
 * The window is a grid of cells; a write outside it is dropped, as
 * ncurses drops it.
 */
module Browser {
  import opened CppLib
  import opened Definitions
  import Axis
  import Console

  /** One character cell of a window: the text written there and the colour pair it was written with. */
  datatype Cell = Cell(text: string, pair: int)

  /** What wclear leaves in every cell. */
  const Cleared: Cell := Cell(" ", 0)

  /** The blank the 1D plot writes above the top of a bar. */
  const Blank: Cell := Cell(" ", ColWhiteblue)

  /** The single block the 2D plot paints a bin with. */
  const FullBlock: string := "█"

  /** top_hist_clear: the float nearest to 1.1, which is 9227469 / 2^23. */
  const TopHistClear: real := 9227469.0 / 8388608.0

  // ---------------------------------------------------------------------
  // The probe
  // ---------------------------------------------------------------------

  /** Pixel row k of cell row y reaches below a bin of height c. */
  predicate SubRowFilled(mode: int, y: int, k: int, pixelY: real, c: real) {
    ((mode * y + k) as real) * pixelY < c
  }

  /**
   * The code bits of one bin for pixel rows k < n of cell row y, counted
   * as the right-hand bit of each pair (pixel row k owns 4^(mode-1-k)).
   */
  function SideBits(mode: nat, y: int, pixelY: real, c: real, n: nat): nat
    requires n <= mode
  {
    if n == 0 then 0
    else SideBits(mode, y, pixelY, c, n - 1) + (if SubRowFilled(mode, y, n - 1, pixelY, c) then Pow4(mode - n) else 0)
  }

  /** The code of cell row y: the left bin owns the high bit of every pair. */
  function Probe(mode: nat, y: int, pixelY: real, cl: real, cr: real): nat {
    2 * SideBits(mode, y, pixelY, cl, mode) + SideBits(mode, y, pixelY, cr, mode)
  }

  /**
   * The probe packing loop: for every pixel row k, OR the left comparison
   * into bit 2(mode-1-k)+1 and the right one into bit 2(mode-1-k).  The
   * bits are distinct, so OR-ing them in is adding them.
   */
  method PackProbe(mode: nat, y: int, pixelY: real, cl: real, cr: real) returns (probe: nat)
    requires IsBlockMode(mode)
    ensures probe == Probe(mode, y, pixelY, cl, cr)
  {
    probe := 0;
    var k := 0;
    while k < mode
      invariant 0 <= k <= mode
      invariant probe == 2 * SideBits(mode, y, pixelY, cl, k) + SideBits(mode, y, pixelY, cr, k)
    {
      SideBitsStep(mode, y, pixelY, cl, k);
      SideBitsStep(mode, y, pixelY, cr, k);
      if SubRowFilled(mode, y, k, pixelY, cl) {
        probe := probe + 2 * Pow4(mode - 1 - k);
      }
      if SubRowFilled(mode, y, k, pixelY, cr) {
        probe := probe + Pow4(mode - 1 - k);
      }
      k := k + 1;
    }
  }

  /** One more pixel row adds its bit when it reaches below c. */
  lemma SideBitsStep(mode: nat, y: int, pixelY: real, c: real, k: nat)
    requires k < mode
    ensures SideBits(mode, y, pixelY, c, k + 1) ==
      SideBits(mode, y, pixelY, c, k) + (if SubRowFilled(mode, y, k, pixelY, c) then Pow4(mode - 1 - k) else 0)
  {
  }

  /** How many of the pixel rows k < n reach below height c. */
  function FilledRows(mode: nat, y: int, pixelY: real, c: real, n: nat): (count: nat)
    requires n <= mode
    ensures count <= n
  {
    if n == 0 then 0
    else FilledRows(mode, y, pixelY, c, n - 1) + (if SubRowFilled(mode, y, n - 1, pixelY, c) then 1 else 0)
  }

  /** With a non-negative pixel height a higher pixel row reaching below c implies every lower one does. */
  lemma PixelRowMonotone(mode: nat, pixelY: real, c: real, y1: int, k1: int, y2: int, k2: int)
    requires pixelY >= 0.0 && mode * y1 + k1 <= mode * y2 + k2
    requires SubRowFilled(mode, y2, k2, pixelY, c)
    ensures SubRowFilled(mode, y1, k1, pixelY, c)
  {
    var a := (mode * y1 + k1) as real;
    var b := (mode * y2 + k2) as real;
    assert b * pixelY - a * pixelY == (b - a) * pixelY;
    assert (b - a) * pixelY >= 0.0;
  }

  /** Within one cell row, the same for pixel rows k1 <= k2. */
  lemma SubRowMonotone(mode: nat, y: int, pixelY: real, c: real, k1: int, k2: int)
    requires pixelY >= 0.0 && k1 <= k2
    requires SubRowFilled(mode, y, k2, pixelY, c)
    ensures SubRowFilled(mode, y, k1, pixelY, c)
  {
    PixelRowMonotone(mode, pixelY, c, y, k1, y, k2);
  }

  /** The filled pixel rows of a bin form a prefix from the bottom of the cell. */
  lemma {:induction false} FilledRowsPrefix(mode: nat, y: int, pixelY: real, c: real, n: nat)
    requires pixelY >= 0.0 && n <= mode
    ensures forall k :: 0 <= k < n ==> (SubRowFilled(mode, y, k, pixelY, c) <==> k < FilledRows(mode, y, pixelY, c, n))
  {
    if n > 0 {
      FilledRowsPrefix(mode, y, pixelY, c, n - 1);
      if SubRowFilled(mode, y, n - 1, pixelY, c) {
        forall k | 0 <= k < n - 1
          ensures SubRowFilled(mode, y, k, pixelY, c)
        {
          SubRowMonotone(mode, y, pixelY, c, k, n - 1);
        }
      }
    }
  }

  /** When pixel row n-1 reaches below c, so do all rows under it: the bin fills n rows. */
  lemma {:induction false} AllFilledBelow(mode: nat, y: int, pixelY: real, c: real, n: nat)
    requires pixelY >= 0.0 && 1 <= n <= mode
    requires SubRowFilled(mode, y, n - 1, pixelY, c)
    ensures FilledRows(mode, y, pixelY, c, n) == n
    ensures SideBits(mode, y, pixelY, c, n) == Ramp(mode, n)
  {
    if n > 1 {
      SubRowMonotone(mode, y, pixelY, c, n - 2, n - 1);
      AllFilledBelow(mode, y, pixelY, c, n - 1);
    }
  }

  /** One bin's bits are the ramp of its filled-row count. */
  lemma {:induction false} SideBitsAreRamp(mode: nat, y: int, pixelY: real, c: real, n: nat)
    requires pixelY >= 0.0 && n <= mode
    ensures SideBits(mode, y, pixelY, c, n) == Ramp(mode, FilledRows(mode, y, pixelY, c, n))
  {
    if n > 0 {
      if SubRowFilled(mode, y, n - 1, pixelY, c) {
        AllFilledBelow(mode, y, pixelY, c, n);
      } else {
        SideBitsAreRamp(mode, y, pixelY, c, n - 1);
      }
    }
  }

  /** A bin fills no pixel row of a cell exactly when it does not reach the cell's lowest pixel row. */
  lemma {:induction false} FilledRowsZero(mode: nat, y: int, pixelY: real, c: real, n: nat)
    requires pixelY >= 0.0 && 1 <= n <= mode
    ensures FilledRows(mode, y, pixelY, c, n) == 0 <==> !SubRowFilled(mode, y, 0, pixelY, c)
  {
    if n > 1 {
      FilledRowsZero(mode, y, pixelY, c, n - 1);
      if SubRowFilled(mode, y, n - 1, pixelY, c) {
        SubRowMonotone(mode, y, pixelY, c, 0, n - 1);
      }
    }
  }

  /**
   * With pixel_y >= 0 the probe is the fill code of the cell: the left and
   * right bins fill the number of pixel rows that reach below them.
   */
  lemma ProbeIsFillCode(mode: int, y: int, pixelY: real, cl: real, cr: real)
    requires IsBlockMode(mode) && pixelY >= 0.0
    ensures Probe(mode, y, pixelY, cl, cr) ==
      FillCode(mode, FilledRows(mode, y, pixelY, cl, mode), FilledRows(mode, y, pixelY, cr, mode))
  {
    SideBitsAreRamp(mode, y, pixelY, cl, mode);
    SideBitsAreRamp(mode, y, pixelY, cr, mode);
  }

  /**
   * With pixel_y >= 0 every probe is a key of the mode's map, and a
   * non-empty probe indexes the glyph table: the `catch` fallback of the
   * lookup is never taken.
   */
  lemma ProbeHasGlyph(mode: int, y: int, pixelY: real, cl: real, cr: real)
    requires IsBlockMode(mode) && pixelY >= 0.0
    ensures Probe(mode, y, pixelY, cl, cr) in CodeTable(mode)
    ensures Probe(mode, y, pixelY, cl, cr) != 0 ==>
      0 <= CodeTable(mode)[Probe(mode, y, pixelY, cl, cr)] < |GlyphTable(mode)|
  {
    ProbeIsFillCode(mode, y, pixelY, cl, cr);
    var l := FilledRows(mode, y, pixelY, cl, mode);
    var r := FilledRows(mode, y, pixelY, cr, mode);
    FillCodeHasGlyph(mode, l, r);
    RampPositive(mode, l);
    RampPositive(mode, r);
  }

  /** With pixel_y >= 0 a cell is empty exactly when its lowest pixel row reaches neither bin. */
  lemma ProbeVoidIff(mode: int, y: int, pixelY: real, cl: real, cr: real)
    requires IsBlockMode(mode) && pixelY >= 0.0
    ensures Probe(mode, y, pixelY, cl, cr) == 0 <==>
      !SubRowFilled(mode, y, 0, pixelY, cl) && !SubRowFilled(mode, y, 0, pixelY, cr)
  {
    SideBitsAreRamp(mode, y, pixelY, cl, mode);
    SideBitsAreRamp(mode, y, pixelY, cr, mode);
    RampPositive(mode, FilledRows(mode, y, pixelY, cl, mode));
    RampPositive(mode, FilledRows(mode, y, pixelY, cr, mode));
    FilledRowsZero(mode, y, pixelY, cl, mode);
    FilledRowsZero(mode, y, pixelY, cr, mode);
  }

  /** With pixel_y >= 0, once a cell of a column is empty every cell above it is empty too. */
  lemma VoidAbove(mode: int, y1: int, y2: int, pixelY: real, cl: real, cr: real)
    requires IsBlockMode(mode) && pixelY >= 0.0 && y1 <= y2
    requires Probe(mode, y1, pixelY, cl, cr) == 0
    ensures Probe(mode, y2, pixelY, cl, cr) == 0
  {
    ProbeVoidIff(mode, y1, pixelY, cl, cr);
    ProbeVoidIff(mode, y2, pixelY, cl, cr);
    assert mode * y1 <= mode * y2 by {
      assert mode * y2 - mode * y1 == mode * (y2 - y1);
    }
    if SubRowFilled(mode, y2, 0, pixelY, cl) {
      PixelRowMonotone(mode, pixelY, cl, y1, 0, y2, 0);
    }
    if SubRowFilled(mode, y2, 0, pixelY, cr) {
      PixelRowMonotone(mode, pixelY, cr, y1, 0, y2, 0);
    }
  }

  // ---------------------------------------------------------------------
  // The expected picture
  // ---------------------------------------------------------------------

  /** The first empty cell row at or after y in a column of `rows` cells (rows if none). */
  function FirstVoid(mode: nat, pixelY: real, cl: real, cr: real, y: int, rows: int): (v: int)
    ensures y <= rows ==> y <= v <= rows
    ensures y > rows ==> v == y
    ensures forall k :: y <= k < v ==> Probe(mode, k, pixelY, cl, cr) != 0
    ensures v < rows ==> Probe(mode, v, pixelY, cl, cr) == 0
    decreases rows - y
  {
    if y >= rows then y
    else if Probe(mode, y, pixelY, cl, cr) == 0 then y
    else FirstVoid(mode, pixelY, cl, cr, y + 1, rows)
  }

  /** The cell a probe is drawn as: its glyph, or its number when the lookup fails. */
  function GlyphCell(mode: int, probe: int): Cell
    requires IsBlockMode(mode)
  {
    if probe in CodeTable(mode) && 0 <= CodeTable(mode)[probe] < |GlyphTable(mode)|
    then Cell(GlyphTable(mode)[CodeTable(mode)[probe]], ColWhiteblue)
    else Cell(IntToString(probe), ColWhiteblue)
  }

  /** Cell row y of column x of a 1D plot. */
  function ColumnCell(heights: seq<real>, mode: int, pixelY: real, rows: int, x: int, y: int): Cell
    requires IsBlockMode(mode) && 0 <= x && 2 * x + 1 < |heights|
  {
    var cl := heights[2 * x];
    var cr := heights[2 * x + 1];
    if y < FirstVoid(mode, pixelY, cl, cr, 0, rows) then GlyphCell(mode, Probe(mode, y, pixelY, cl, cr))
    else Blank
  }

  /**
   * Window cell (r, c) after the first `cols` columns of a 1D plot are
   * drawn: column x sits at c = 1+x, cell row y at r = mainwinY-2-y.
   */
  function PlotCell(heights: seq<real>, mode: int, pixelY: real, rows: int, cols: int,
                    mainwinY: int, r: int, c: int, before: Cell): Cell
    requires IsBlockMode(mode) && 2 * cols <= |heights|
  {
    var x := c - 1;
    var y := mainwinY - 2 - r;
    if 0 <= x < cols && 0 <= y < rows then ColumnCell(heights, mode, pixelY, rows, x, y) else before
  }

  /** Window cell (r, c) once the first `y` cells of column x are drawn. */
  function PartColumn(heights: seq<real>, mode: int, pixelY: real, rows: int, x: int, y: int,
                      mainwinY: int, r: int, c: int, before: Cell): Cell
    requires IsBlockMode(mode) && 0 <= x && 2 * x + 1 < |heights|
  {
    if c == 1 + x && 0 <= mainwinY - 2 - r < y then ColumnCell(heights, mode, pixelY, rows, x, mainwinY - 2 - r)
    else before
  }

  /** pixel_y = max_height / binsy; with no rows to draw its value does not matter. */
  function PixelY(maxHeight: real, binsy: int): real {
    if binsy == 0 then 0.0 else maxHeight / (binsy as real)
  }

  /** The top of a linear-scale plot: the largest bin times top_hist_clear. */
  function PlotTop(maxBin: real): (top: real)
    ensures maxBin >= 0.0 ==> top >= maxBin
  {
    maxBin * TopHistClear
  }

  /** No glyph of any mode is a blank, so a drawn bar cell never looks like the space above a bar. */
  lemma GlyphsNotBlank(mode: int, i: int)
    requires IsBlockMode(mode) && 0 <= i < |GlyphTable(mode)|
    ensures GlyphTable(mode)[i] != " "
  {
  }

  /**
   * With pixel_y >= 0 a cell of a drawn column is left blank exactly when
   * its probe is empty: the blanking loop writes what the probes above the
   * first empty cell would have given.
   */
  lemma ColumnCellBlankIff(heights: seq<real>, mode: int, pixelY: real, rows: int, x: int, y: int)
    requires IsBlockMode(mode) && pixelY >= 0.0
    requires 0 <= x && 2 * x + 1 < |heights| && 0 <= y < rows
    ensures ColumnCell(heights, mode, pixelY, rows, x, y) == Blank <==>
      Probe(mode, y, pixelY, heights[2 * x], heights[2 * x + 1]) == 0
  {
    var cl := heights[2 * x];
    var cr := heights[2 * x + 1];
    var v := FirstVoid(mode, pixelY, cl, cr, 0, rows);
    if y >= v {
      VoidAbove(mode, v, y, pixelY, cl, cr);
    } else {
      var probe := Probe(mode, y, pixelY, cl, cr);
      ProbeHasGlyph(mode, y, pixelY, cl, cr);
      GlyphsNotBlank(mode, CodeTable(mode)[probe]);
    }
  }

  /**
   * With pixel_y >= 0 a drawn cell that is not blank shows the glyph of its
   * fill pattern: the numbers of pixel rows the left and right bins reach.
   */
  lemma ColumnCellGlyph(heights: seq<real>, mode: int, pixelY: real, rows: int, x: int, y: int)
    requires IsBlockMode(mode) && pixelY >= 0.0
    requires 0 <= x && 2 * x + 1 < |heights| && 0 <= y < rows
    requires ColumnCell(heights, mode, pixelY, rows, x, y) != Blank
    ensures var code := FillCode(mode, FilledRows(mode, y, pixelY, heights[2 * x], mode),
                                       FilledRows(mode, y, pixelY, heights[2 * x + 1], mode));
            code in CodeTable(mode) && 0 <= CodeTable(mode)[code] < |GlyphTable(mode)| &&
            ColumnCell(heights, mode, pixelY, rows, x, y) == Cell(GlyphTable(mode)[CodeTable(mode)[code]], ColWhiteblue)
  {
    var cl := heights[2 * x];
    var cr := heights[2 * x + 1];
    ProbeIsFillCode(mode, y, pixelY, cl, cr);
    ProbeHasGlyph(mode, y, pixelY, cl, cr);
    ColumnCellBlankIff(heights, mode, pixelY, rows, x, y);
  }

  /** The 2D plot's colour pair for a bin at fraction t of the maximum. */
  function GrayscalePair(t: real): (pair: int)
    ensures ColGrayscaleStart <= pair <= ColGrayscaleEnd - 1
  {
    var lerp := ColGrayscaleStart as real + t * ((ColGrayscaleEnd + 1 - ColGrayscaleStart) as real);
    Clamp(Trunc(lerp), ColGrayscaleStart, ColGrayscaleEnd - 1)
  }

  /**
   * The ramp in closed form: the lowest pair for t <= 0, then one pair per
   * 27th of the maximum, topping out at the last initialised pair.
   */
  lemma GrayscalePairClosedForm(t: real)
    ensures t <= 0.0 ==> GrayscalePair(t) == ColGrayscaleStart
    ensures t >= 0.0 ==> GrayscalePair(t) == Min(ColGrayscaleStart + (27.0 * t).Floor, ColGrayscaleEnd - 1)
    ensures t >= 1.0 ==> GrayscalePair(t) == ColGrayscaleEnd - 1
  {
  }

  /** A larger bin is never painted a darker pair. */
  lemma GrayscalePairMonotone(t1: real, t2: real)
    requires t1 <= t2
    ensures GrayscalePair(t1) <= GrayscalePair(t2)
  {
    var d := (ColGrayscaleEnd + 1 - ColGrayscaleStart) as real;
    assert t1 * d <= t2 * d;
  }

  /** Window cell (r, c) after a 2D plot: bin (x, y) sits at c = x, r = binsy+1-y. */
  function Plot2DCell(grid: seq<seq<real>>, binsy: int, binsx: int, maxHeight: real, r: int, c: int): Cell
    requires binsx < |grid| && forall x :: 0 <= x <= binsx ==> binsy < |grid[x]|
    requires maxHeight == 0.0 ==> forall x, y :: 0 <= x <= binsx && 0 <= y <= binsy ==> grid[x][y] == 0.0
  {
    var x := c;
    var y := binsy + 1 - r;
    if 0 <= x <= binsx && 0 <= y <= binsy && grid[x][y] != 0.0
    then Cell(FullBlock, GrayscalePair(grid[x][y] / maxHeight))
    else Cleared
  }

  // ---------------------------------------------------------------------
  // Colour pair initialisation (initNcurses, index arithmetic only)
  // ---------------------------------------------------------------------

  /**
   * The grey pairs: true black, the 24 grey levels 232..255 of the
   * 256-colour palette, then true white; the foreground colour of each pair.
   */
  method InitGrayscalePairs() returns (foreground: map<int, int>)
    ensures forall p :: p in foreground <==> ColGrayscaleStart <= p < ColGrayscaleEnd
    ensures foreground[ColGrayscaleStart] == 16 && foreground[ColGrayscaleEnd - 1] == 15
    ensures forall p :: ColGrayscaleStart < p < ColGrayscaleEnd - 1 ==> foreground[p] == p - ColGrayscaleStart + 231
  {
    var grayscale := ColGrayscaleStart;
    foreground := map[grayscale := 16];
    grayscale := grayscale + 1;
    var c := 232;
    while c <= 255
      invariant 232 <= c <= 256 && grayscale == ColGrayscaleStart + 1 + (c - 232)
      invariant forall p :: p in foreground <==> ColGrayscaleStart <= p < grayscale
      invariant foreground[ColGrayscaleStart] == 16
      invariant forall p :: ColGrayscaleStart < p < grayscale ==> foreground[p] == p - ColGrayscaleStart + 231
    {
      foreground := foreground[grayscale := c];
      grayscale := grayscale + 1;
      c := c + 1;
    }
    foreground := foreground[grayscale := 15];
  }

  /** The palette pairs col_start_palette.. take the 256-colour entries 17..230. */
  method InitPalettePairs() returns (foreground: map<int, int>)
    ensures forall p :: p in foreground <==> ColStartPalette <= p < ColEndPalette
    ensures forall p :: ColStartPalette <= p < ColEndPalette ==> foreground[p] == p - ColStartPalette + 17
  {
    foreground := map[];
    var c := ColStartPalette;
    var col256 := 17;
    while col256 < 231
      invariant 17 <= col256 <= 231 && c == ColStartPalette + (col256 - 17)
      invariant forall p :: p in foreground <==> ColStartPalette <= p < c
      invariant forall p :: ColStartPalette <= p < c ==> foreground[p] == p - ColStartPalette + 17
    {
      foreground := foreground[c := col256];
      c := c + 1;
      col256 := col256 + 1;
    }
  }

  /** The 2D plot paints only with pairs initNcurses gave a grey; they are apart from the palette and the UI colours. */
  lemma GrayscalePairsAreInitialised(t: real)
    ensures ColGrayscaleStart <= GrayscalePair(t) < ColGrayscaleEnd
    ensures ColWhiteblue < ColStartPalette && ColEndPalette < ColGrayscaleStart
    ensures ColGrayscaleEnd - ColGrayscaleStart == 26 && ColEndPalette - ColStartPalette == 214
  {
  }

  // ---------------------------------------------------------------------
  // Settings and input helpers
  // ---------------------------------------------------------------------

  /** The blockmode a settings string selects; anything unknown selects 2. */
  function BlockModeFromSetting(setting: string): (mode: int)
    ensures IsBlockMode(mode)
  {
    if setting == "2x2" then 2 else if setting == "3x2" then 3 else if setting == "4x2" then 4 else 2
  }

  /** The settings string saved for a blockmode; other values leave the setting as it was. */
  function BlockModeSetting(mode: int): (setting: Option<string>)
    ensures setting.Some? <==> IsBlockMode(mode)
  {
    if mode == 2 then Some("2x2") else if mode == 3 then Some("3x2") else if mode == 4 then Some("4x2") else None
  }

  /** Saving then loading a blockmode gives it back, and loading then saving a known setting too. */
  lemma BlockModeSettingRoundTrip(mode: int, setting: string)
    ensures IsBlockMode(mode) ==> BlockModeFromSetting(BlockModeSetting(mode).value) == mode
    ensures BlockModeSetting(BlockModeFromSetting(setting)) == Some(setting) <==>
      setting in {"2x2", "3x2", "4x2"}
  {
  }

  /** isClickInWindow: strictly inside the window's border. */
  function IsClickInWindow(posy: int, posx: int, sizey: int, sizex: int, y: int, x: int): (inside: bool)
    ensures inside <==> 0 <= y - posy - 1 < sizey - 2 && 0 <= x - posx - 1 < sizex - 2
  {
    x > posx && x < posx + sizex - 1 && y > posy && y < posy + sizey - 1
  }

  /**
   * A click inside the menu window selects a line of the menu: the row
   * y - posy - 1 that handleMouseClick stores lies in the window's interior.
   */
  lemma ClickSelectsMenuLine(posy: int, posx: int, sizey: int, sizex: int, y: int, x: int)
    requires IsClickInWindow(posy, posx, sizey, sizex, y, x)
    ensures 0 <= y - posy - 1 <= sizey - 3
    ensures sizey >= 3 && sizex >= 3
  {
  }

  /** SearchMode::isBranchChar: a byte that may occur in a branch name. */
  function IsBranchChar(key: int): (accepted: bool)
    ensures accepted ==> 0 < key < 128
  {
    key > 0 && key < 256 && (IsAlnum(key as char) || key == '_' as int)
  }

  /**
   * Search mode accepts exactly the identifier characters that tab
   * completion extends, and every one of them can also be typed into the
   * draw console.
   */
  lemma BranchCharsAreIdentChars(key: int)
    ensures IsBranchChar(key) <==> 0 < key < 128 && Console.IsIdentChar(key as char)
    ensures IsBranchChar(key) ==> Console.ValidChar(key)
  {
    if IsBranchChar(key) && key == '_' as int {
      assert Console.AllowedChars[4] == '_';
    }
  }

  // ---------------------------------------------------------------------
  // The single-value fix of the two-dimensional plot
  // ---------------------------------------------------------------------

  /**
   * plot2DHistogram's single-value fix as written, on either axis: the new
   * maximum is taken from the already lowered minimum.
   */
  function SingleValueAxisRange(min: real, max: real): (r: (real, real))
    ensures min == max ==> r.1 == max && r.0 < r.1
    ensures min != max ==> r == (min, max)
  {
    if min == max then
      var lo := min - 1.0;
      (lo, lo + 1.0)
    else (min, max)
  }

  /**
   * As written, data that all take the value v get the axis [v - 1, v], on
   * which v itself is off the axis.  Without the fix the axis's own range
   * check widens to [v - 1, v + 1], on which v lands on the axis.
   */
  lemma SingleValueOffAxis(v: real, npixel: int)
    requires npixel > 0
    ensures SingleValueAxisRange(v, v) == (v - 1.0, v)
    ensures Axis.CharPosition(v, v - 1.0, v, npixel) == -999
    ensures Axis.CheckedRange(v, v) == Success((v - 1.0, v + 1.0))
    ensures 0 <= Axis.CharPosition(v, v - 1.0, v + 1.0, npixel) < npixel
  {
    Axis.CharPositionEnds(v - 1.0, v, npixel);
    Axis.CharPositionInside(v, v - 1.0, v + 1.0, npixel);
  }

  // ---------------------------------------------------------------------
  // The browser's state
  // ---------------------------------------------------------------------

  class FileBrowser {
    var selectedPos: int
    var menuScrollPos: int
    var blockmode: int
    var yaxisSpacing: int
    var logscale: bool
    var mainwinX: int
    var mainwinY: int
    /** getmaxy(dir_window): the menu window's height. */
    var dirWindowHeight: int
    var mainWindow: array2<Cell>

    ghost predicate Valid()
      reads this
    {
      IsBlockMode(blockmode)
    }

    constructor(mainwinY: nat, mainwinX: nat, dirWindowHeight: int)
      ensures Valid() && fresh(mainWindow)
      ensures this.mainwinY == mainwinY && this.mainwinX == mainwinX && this.dirWindowHeight == dirWindowHeight
      ensures mainWindow.Length0 == mainwinY && mainWindow.Length1 == mainwinX
      ensures selectedPos == 0 && menuScrollPos == 0
      ensures blockmode == 2 && yaxisSpacing == 5 && !logscale
    {
      selectedPos := 0;
      menuScrollPos := 0;
      blockmode := 2;
      yaxisSpacing := 5;
      logscale := false;
      this.mainwinX := mainwinX;
      this.mainwinY := mainwinY;
      this.dirWindowHeight := dirWindowHeight;
      mainWindow := new Cell[mainwinY, mainwinX]((r, c) => Cleared);
    }

    function GetBinsx(): (bins: int)
      reads this
      ensures mainwinX >= 2 ==> Quot(bins, 2) == mainwinX - 2
    {
      2 * mainwinX - 4
    }

    function GetBinsy(): (bins: int)
      reads this
      requires Valid()
      ensures mainwinY >= 2 ==> Quot(bins, blockmode) == mainwinY - 2
    {
      blockmode * mainwinY - 2 * blockmode
    }

    /**
     * With the bin counts the browser uses, a 1D plot covers exactly the
     * window's interior: columns 1..mainwin_x-2 and rows 1..mainwin_y-2.
     */
    lemma RasterFitsWindow(x: int, y: int)
      requires Valid() && mainwinX >= 2 && mainwinY >= 2
      ensures 0 <= x < Quot(GetBinsx(), 2) <==> 1 <= 1 + x <= mainwinX - 2
      ensures 0 <= y < Quot(GetBinsy(), blockmode) <==> 1 <= mainwinY - 2 - y <= mainwinY - 2
    {
    }

    method SelectionDown(menuLength: int)
      modifies this
      ensures old(selectedPos) == dirWindowHeight - 3 ==>
        selectedPos == old(selectedPos) && menuScrollPos == old(menuScrollPos) + 1
      ensures old(selectedPos) != dirWindowHeight - 3 ==>
        selectedPos == Min(Min(menuLength, dirWindowHeight - 3), old(selectedPos) + 1) &&
        menuScrollPos == old(menuScrollPos)
      ensures blockmode == old(blockmode) && yaxisSpacing == old(yaxisSpacing)
      ensures unchanged(this`mainWindow) && unchanged(this`dirWindowHeight)
      ensures 0 <= old(selectedPos) <= dirWindowHeight - 3 && menuLength >= 0 ==>
        0 <= selectedPos <= dirWindowHeight - 3
    {
      if selectedPos == dirWindowHeight - 3 {
        menuScrollPos := menuScrollPos + 1;
      } else {
        selectedPos := Min(Min(menuLength, dirWindowHeight - 3), selectedPos + 1);
      }
    }

    method SelectionUp()
      modifies this
      ensures old(selectedPos) == 0 && old(menuScrollPos) > 0 ==> menuScrollPos == old(menuScrollPos) - 1
      ensures !(old(selectedPos) == 0 && old(menuScrollPos) > 0) ==> menuScrollPos == old(menuScrollPos)
      ensures selectedPos == Max(0, old(selectedPos) - 1)
      ensures selectedPos >= 0 && (old(menuScrollPos) >= 0 ==> menuScrollPos >= 0)
      ensures blockmode == old(blockmode) && yaxisSpacing == old(yaxisSpacing)
      ensures unchanged(this`mainWindow) && unchanged(this`dirWindowHeight)
    {
      if selectedPos == 0 && menuScrollPos > 0 {
        menuScrollPos := menuScrollPos - 1;
      }
      selectedPos := Max(0, selectedPos - 1);
    }

    method GoTop()
      modifies this
      ensures selectedPos == 0 && menuScrollPos == 0
      ensures blockmode == old(blockmode) && yaxisSpacing == old(yaxisSpacing)
      ensures unchanged(this`mainWindow) && unchanged(this`dirWindowHeight)
    {
      selectedPos := 0;
      menuScrollPos := 0;
    }

    /** goBottom: the selected entry (line plus scroll) becomes the last one. */
    method GoBottom(menuLength: int)
      modifies this
      ensures selectedPos == dirWindowHeight - 3
      ensures selectedPos + menuScrollPos == menuLength - 1
      ensures blockmode == old(blockmode) && yaxisSpacing == old(yaxisSpacing)
      ensures unchanged(this`mainWindow) && unchanged(this`dirWindowHeight)
    {
      selectedPos := dirWindowHeight - 3;
      menuScrollPos := menuLength - dirWindowHeight + 2;
    }

    /** toggleBlockMode: 2 -> 3 -> 4 -> 2. */
    method ToggleBlockMode()
      requires Valid()
      modifies this
      ensures Valid()
      ensures old(blockmode) == 2 ==> blockmode == 3
      ensures old(blockmode) == 3 ==> blockmode == 4
      ensures old(blockmode) == 4 ==> blockmode == 2
      ensures selectedPos == old(selectedPos) && menuScrollPos == old(menuScrollPos)
      ensures yaxisSpacing == old(yaxisSpacing) && unchanged(this`mainWindow)
    {
      blockmode := blockmode + 1;
      if blockmode >= 5 {
        blockmode := 2;
      }
    }

    /** makeSpaceForYaxis: the spacing only ever grows. */
    method MakeSpaceForYaxis(s: int)
      modifies this
      ensures yaxisSpacing == Max(old(yaxisSpacing), s)
      ensures yaxisSpacing >= old(yaxisSpacing) && yaxisSpacing >= s
      ensures blockmode == old(blockmode) && selectedPos == old(selectedPos) && menuScrollPos == old(menuScrollPos)
      ensures unchanged(this`mainWindow)
    {
      yaxisSpacing := Max(yaxisSpacing, s);
    }

    /** The spacing step of plotYAxis: afterwards the widest tick label and its gap fit. */
    method ReserveYAxis(maxLabelWidth: int)
      modifies this
      ensures yaxisSpacing >= maxLabelWidth + 1 && yaxisSpacing >= old(yaxisSpacing)
      ensures old(yaxisSpacing) >= maxLabelWidth + 1 ==> yaxisSpacing == old(yaxisSpacing)
      ensures blockmode == old(blockmode) && selectedPos == old(selectedPos) && menuScrollPos == old(menuScrollPos)
      ensures unchanged(this`mainWindow)
    {
      var reserveXWidth := maxLabelWidth + 1;
      if reserveXWidth > yaxisSpacing {
        MakeSpaceForYaxis(reserveXWidth);
      }
    }

    /** The blockmode part of loadSettings: a present setting selects the mode. */
    method LoadBlockMode(setting: Option<string>)
      modifies this
      ensures Valid() || (setting.None? && blockmode == old(blockmode))
      ensures setting.Some? ==> blockmode == BlockModeFromSetting(setting.value)
      ensures setting.None? ==> blockmode == old(blockmode)
      ensures selectedPos == old(selectedPos) && menuScrollPos == old(menuScrollPos)
      ensures yaxisSpacing == old(yaxisSpacing) && unchanged(this`mainWindow)
    {
      if setting.Some? {
        blockmode := BlockModeFromSetting(setting.value);
      }
    }

    /** A cell write; ncurses drops writes outside the window. */
    method Put(r: int, c: int, cell: Cell)
      modifies mainWindow
      ensures forall i, j :: 0 <= i < mainWindow.Length0 && 0 <= j < mainWindow.Length1 ==>
        mainWindow[i, j] == if i == r && j == c then cell else old(mainWindow[i, j])
    {
      if 0 <= r < mainWindow.Length0 && 0 <= c < mainWindow.Length1 {
        mainWindow[r, c] := cell;
      }
    }

    /** Probe cell row y of column x and draw it when it is not empty. */
    method DrawCell(mode: int, pixelY: real, cl: real, cr: real, x: int, y: int) returns (filled: bool)
      requires IsBlockMode(mode)
      modifies mainWindow
      ensures filled == (Probe(mode, y, pixelY, cl, cr) != 0)
      ensures forall r, c :: 0 <= r < mainWindow.Length0 && 0 <= c < mainWindow.Length1 ==>
        mainWindow[r, c] == if filled && r == mainwinY - 2 - y && c == 1 + x
                            then GlyphCell(mode, Probe(mode, y, pixelY, cl, cr)) else old(mainWindow[r, c])
    {
      var probe := PackProbe(mode, y, pixelY, cl, cr);
      filled := probe != 0;
      if filled {
        Put(mainwinY - 2 - y, 1 + x, GlyphCell(mode, probe));
      }
    }

    /** Cell rows from..to-1 of window column `col` become blanks. */
    method BlankRows(col: int, from: int, to: int)
      modifies mainWindow
      ensures forall r, c :: 0 <= r < mainWindow.Length0 && 0 <= c < mainWindow.Length1 ==>
        mainWindow[r, c] == if c == col && from <= mainwinY - 2 - r < to then Blank else old(mainWindow[r, c])
    {
      var f := from;
      while f < to
        invariant from <= f && (from <= to ==> f <= to) && (to < from ==> f == from)
        invariant forall r, c :: 0 <= r < mainWindow.Length0 && 0 <= c < mainWindow.Length1 ==>
          mainWindow[r, c] == if c == col && from <= mainwinY - 2 - r < f then Blank else old(mainWindow[r, c])
      {
        Put(mainwinY - 2 - f, col, Blank);
        f := f + 1;
      }
    }

    /**
     * One column of plotASCIIHistogram: probe and draw cells bottom-up
     * until the first empty one, then blank the rest of the column.
     */
    method DrawColumn(heights: seq<real>, mode: int, pixelY: real, rows: int, x: int)
      requires IsBlockMode(mode) && 0 <= x && 2 * x + 1 < |heights|
      modifies mainWindow
      ensures forall r, c :: 0 <= r < mainWindow.Length0 && 0 <= c < mainWindow.Length1 ==>
        mainWindow[r, c] == if c == 1 + x && 0 <= mainwinY - 2 - r < rows
                            then ColumnCell(heights, mode, pixelY, rows, x, mainwinY - 2 - r)
                            else old(mainWindow[r, c])
    {
      var cl := heights[2 * x];
      var cr := heights[2 * x + 1];
      ghost var v := FirstVoid(mode, pixelY, cl, cr, 0, rows);
      var y := 0;
      while y < rows
        invariant 0 <= y <= v
        invariant forall r, c :: 0 <= r < mainWindow.Length0 && 0 <= c < mainWindow.Length1 ==>
          mainWindow[r, c] == PartColumn(heights, mode, pixelY, rows, x, y, mainwinY, r, c, old(mainWindow[r, c]))
      {
        var filled := DrawCell(mode, pixelY, cl, cr, x, y);
        if !filled {
          BlankRows(1 + x, y, rows);
          return;
        }
        y := y + 1;
      }
    }

    /**
     * plotASCIIHistogram: `heights` are the bin contents by ROOT bin number
     * and `maxHeight` the plot top (both after the log transform when the
     * y axis is logarithmic).
     */
    method PlotASCIIHistogram(heights: seq<real>, binsy: int, binsx: int, maxHeight: real)
      requires Valid()
      requires 2 * Quot(binsx, 2) <= |heights|
      modifies mainWindow
      ensures forall r, c :: 0 <= r < mainWindow.Length0 && 0 <= c < mainWindow.Length1 ==>
        mainWindow[r, c] == PlotCell(heights, blockmode, PixelY(maxHeight, binsy), Quot(binsy, blockmode),
                                     Quot(binsx, 2), mainwinY, r, c, old(mainWindow[r, c]))
    {
      var mode := blockmode;
      var pixelY := PixelY(maxHeight, binsy);
      var rows := Quot(binsy, mode);
      var cols := Quot(binsx, 2);
      var x := 0;
      while x < cols
        invariant 0 <= x <= (if cols < 0 then 0 else cols)
        invariant forall r, c :: 0 <= r < mainWindow.Length0 && 0 <= c < mainWindow.Length1 ==>
          mainWindow[r, c] == PlotCell(heights, mode, pixelY, rows, x, mainwinY, r, c, old(mainWindow[r, c]))
      {
        DrawColumn(heights, mode, pixelY, rows, x);
        x := x + 1;
      }
    }

    /** plotASCIIHistogram2D: `grid[x][y]` is the content of ROOT bin (x, y). */
    method PlotASCIIHistogram2D(grid: seq<seq<real>>, binsy: int, binsx: int, maxHeight: real)
      requires binsx < |grid| && forall x :: 0 <= x <= binsx ==> binsy < |grid[x]|
      requires maxHeight == 0.0 ==> forall x, y :: 0 <= x <= binsx && 0 <= y <= binsy ==> grid[x][y] == 0.0
      modifies mainWindow
      ensures forall r, c :: 0 <= r < mainWindow.Length0 && 0 <= c < mainWindow.Length1 ==>
        mainWindow[r, c] == Plot2DCell(grid, binsy, binsx, maxHeight, r, c)
    {
      forall r, c | 0 <= r < mainWindow.Length0 && 0 <= c < mainWindow.Length1 {
        mainWindow[r, c] := Cleared;
      }
      var x := 0;
      while x < binsx + 1
        invariant 0 <= x && (binsx >= 0 ==> x <= binsx + 1)
        invariant forall r, c :: 0 <= r < mainWindow.Length0 && 0 <= c < mainWindow.Length1 ==>
          mainWindow[r, c] == if c < x then Plot2DCell(grid, binsy, binsx, maxHeight, r, c) else Cleared
      {
        var y := 0;
        while y < binsy + 1
          invariant 0 <= y && (binsy >= 0 ==> y <= binsy + 1)
          invariant forall r, c :: 0 <= r < mainWindow.Length0 && 0 <= c < mainWindow.Length1 ==>
            mainWindow[r, c] == if c < x || (c == x && binsy + 1 - r < y) then Plot2DCell(grid, binsy, binsx, maxHeight, r, c)
                                else Cleared
        {
          var z := grid[x][y];
          if z == 0.0 {
            y := y + 1;
            continue;
          }
          var pixelColor := GrayscalePair(z / maxHeight);
          Put(binsy + 1 - y, x, Cell(FullBlock, pixelColor));
          y := y + 1;
        }
        x := x + 1;
      }
    }
  }
}
