/**
 * The earlier file browser: the superscript writer for exponents, a 1D
 * plot in 2x2 blocks only, the tick row of the x axis, and the range of a
 * histogram whose values are all equal.
 */
module EarlyBrowser {
  import opened CppLib
  import opened Definitions
  import opened Axis
  import opened Browser
  import opened EarlyDefinitions

  // ---------------------------------------------------------------------
  // make_superscript
  // ---------------------------------------------------------------------

  /**
   * make_superscript: one raised glyph per character of std::to_string(n)
   * in the Unicode build, the plain decimal text otherwise.
   */
  method WriteSuperscript(n: int, unicode: bool) returns (sup: string)
    ensures unicode ==> sup == MakeSuperscript(n)
    ensures !unicode ==> sup == IntToString(n)
  {
    var digits := IntToString(n);
    if !unicode {
      return digits;
    }
    IntToStringChars(n);
    sup := "";
    var i := 0;
    while i < |digits|
      invariant 0 <= i <= |digits| && |sup| == i
      invariant forall k :: 0 <= k < i ==> sup[k] == SuperChar(digits[k])
    {
      sup := sup + [SuperChar(digits[i])];
      i := i + 1;
    }
  }

  // ---------------------------------------------------------------------
  // The 2x2 plot
  // ---------------------------------------------------------------------

  /**
   * The probe of cell row y: the lower pixel row of the left and right bins
   * in bits 3 and 2, the upper one in bits 1 and 0.
   */
  function EarlyProbe(y: int, pixelY: real, cl: real, cr: real): (probe: nat)
    ensures probe < 16
  {
    (if ((2 * y + 0) as real) * pixelY < cl then 8 else 0) +
    (if ((2 * y + 0) as real) * pixelY < cr then 4 else 0) +
    (if ((2 * y + 1) as real) * pixelY < cl then 2 else 0) +
    (if ((2 * y + 1) as real) * pixelY < cr then 1 else 0)
  }

  /** The early probe is the block-mode-2 probe of the current plot. */
  lemma EarlyProbeIsProbe(y: int, pixelY: real, cl: real, cr: real)
    ensures EarlyProbe(y, pixelY, cl, cr) == Probe(2, y, pixelY, cl, cr)
  {
    assert Pow4(1) == 4 && Pow4(0) == 1;
    assert SubRowFilled(2, y, 0, pixelY, cl) == (((2 * y + 0) as real) * pixelY < cl);
    assert SubRowFilled(2, y, 1, pixelY, cl) == (((2 * y + 1) as real) * pixelY < cl);
    assert SubRowFilled(2, y, 0, pixelY, cr) == (((2 * y + 0) as real) * pixelY < cr);
    assert SubRowFilled(2, y, 1, pixelY, cr) == (((2 * y + 1) as real) * pixelY < cr);
    assert SideBits(2, y, pixelY, cl, 0) == 0 && SideBits(2, y, pixelY, cr, 0) == 0;
    assert SideBits(2, y, pixelY, cl, 1) == (if SubRowFilled(2, y, 0, pixelY, cl) then 4 else 0);
    assert SideBits(2, y, pixelY, cr, 1) == (if SubRowFilled(2, y, 0, pixelY, cr) then 4 else 0);
    assert SideBits(2, y, pixelY, cl, 2) ==
      (if SubRowFilled(2, y, 0, pixelY, cl) then 4 else 0) + (if SubRowFilled(2, y, 1, pixelY, cl) then 1 else 0);
    assert SideBits(2, y, pixelY, cr, 2) ==
      (if SubRowFilled(2, y, 0, pixelY, cr) then 4 else 0) + (if SubRowFilled(2, y, 1, pixelY, cr) then 1 else 0);
  }

  /**
   * With pixel_y >= 0 every early probe is a key of ascii_map_2x2, a
   * non-empty one has a glyph (the catch branch is never taken), and once a
   * cell of a column is empty so is every cell above it.
   */
  lemma EarlyProbeDrawn(y: int, y2: int, pixelY: real, cl: real, cr: real)
    requires pixelY >= 0.0 && y <= y2
    ensures EarlyProbe(y, pixelY, cl, cr) in EarlyAsciiMap2x2
    ensures EarlyProbe(y, pixelY, cl, cr) != 0 ==> EarlyGlyph(2, EarlyProbe(y, pixelY, cl, cr)).Some?
    ensures EarlyProbe(y, pixelY, cl, cr) == 0 ==> EarlyProbe(y2, pixelY, cl, cr) == 0
  {
    EarlyProbeIsProbe(y, pixelY, cl, cr);
    EarlyProbeIsProbe(y2, pixelY, cl, cr);
    EarlyTablesAreCurrent();
    ProbeHasGlyph(2, y, pixelY, cl, cr);
    if EarlyProbe(y, pixelY, cl, cr) == 0 {
      VoidAbove(2, y, y2, pixelY, cl, cr);
    }
  }

  // ---------------------------------------------------------------------
  // The range of a single-valued histogram
  // ---------------------------------------------------------------------

  /** The single-value fix as written: the new maximum is taken from the already lowered minimum. */
  function SingleValueRangeAsWritten(min: real, max: real): (r: (real, real))
    ensures r.0 < r.1 || min > max
  {
    if min == max then
      var lo := min - 1.0;
      (lo, lo + 1.0)
    else (min, max)
  }

  /**
   * As written, a histogram whose values all equal 5 gets the range [4, 5];
   * with the step 0.1 snapped from it the adjusted range ends at 5 as well,
   * so the value falls on the excluded upper edge.  The intended range,
   * one unit either side, holds it inside for every step.
   */
  lemma SingleValueOnUpperEdge(step: real)
    requires step > 0.0
    ensures SingleValueRangeAsWritten(5.0, 5.0) == (4.0, 5.0)
    ensures AdjustedMax(5.0, 1.0 / 10.0) == 5.0
    ensures CheckedRange(5.0, 5.0) == Success((4.0, 6.0))
    ensures AdjustedMin(4.0, step) <= 5.0 < AdjustedMax(6.0, step)
  {
    assert 5.0 / (1.0 / 10.0) == 50.0;
  }

  // ---------------------------------------------------------------------
  // The tick row of plotAxes
  // ---------------------------------------------------------------------

  /** The column of a tick: its fraction of the axis times the width, truncated toward zero. */
  function TickCharPos(tick: real, xmin: real, xmax: real, nchars: int): int
    requires xmin < xmax
  {
    Trunc((tick - xmin) / (xmax - xmin) * (nchars as real))
  }

  /** The tick positions: each factored value times 10^E. */
  function TickPositions(values: seq<real>, E: int): (ticks: seq<real>)
    ensures |ticks| == |values|
    ensures forall i :: 0 <= i < |values| ==> ticks[i] == values[i] * Pow10R(E)
  {
    seq(|values|, i requires 0 <= i < |values| => values[i] * Pow10R(E))
  }

  /** The columns of the ticks at the positions ticks, in order. */
  function TickColumns(ticks: seq<real>, xmin: real, xmax: real, nchars: int): (cols: seq<int>)
    requires xmin < xmax
    ensures |cols| == |ticks|
    ensures forall i :: 0 <= i < |ticks| ==> cols[i] == TickCharPos(ticks[i], xmin, xmax, nchars)
  {
    if ticks == [] then []
    else
      var init := ticks[..|ticks| - 1];
      assert forall i :: 0 <= i < |init| ==> init[i] == ticks[i];
      TickColumns(init, xmin, xmax, nchars) + [TickCharPos(ticks[|ticks| - 1], xmin, xmax, nchars)]
  }

  /** Column i of the factored ticks is the column of value i times 10^E. */
  lemma ColumnOfValue(values: seq<real>, E: int, xmin: real, xmax: real, nchars: int, i: int)
    requires xmin < xmax && 0 <= i < |values|
    ensures TickColumns(TickPositions(values, E), xmin, xmax, nchars)[i] == TickCharPos(values[i] * Pow10R(E), xmin, xmax, nchars)
  {
  }

  /** One more tick: the row before it, with its column marked when it is not left of the axis. */
  lemma MarkRowStep(cols: seq<int>, i: int, nchars: int)
    requires nchars >= 1 && 0 <= i < |cols|
    ensures MarkRow(cols[..i + 1], nchars) ==
      (if cols[i] < 0 then MarkRow(cols[..i], nchars) else MarkRow(cols[..i], nchars)[Min(cols[i], nchars - 1) := '+'])
  {
    assert cols[..i + 1][..i] == cols[..i];
  }

  /** A tick in column c marks column j: it is not left of the axis, and j is c clamped to the last column. */
  predicate MarksColumn(c: int, nchars: int, j: int) {
    c >= 0 && Min(c, nchars - 1) == j
  }

  /** The dash buffer after the ticks in the columns cols have been marked. */
  function MarkRow(cols: seq<int>, nchars: int): (row: seq<char>)
    requires nchars >= 1
    ensures |row| == nchars
  {
    if cols == [] then seq(nchars, _ => '-')
    else
      var row := MarkRow(cols[..|cols| - 1], nchars);
      var c := cols[|cols| - 1];
      if c < 0 then row else row[Min(c, nchars - 1) := '+']
  }

  /** A column shows '+' exactly when some tick marks it, and '-' otherwise. */
  lemma {:induction false} MarkRowMarks(cols: seq<int>, nchars: int)
    requires nchars >= 1
    ensures forall j :: 0 <= j < nchars ==>
      (MarkRow(cols, nchars)[j] == '+' <==> exists i :: 0 <= i < |cols| && MarksColumn(cols[i], nchars, j))
    ensures forall j :: 0 <= j < nchars ==> MarkRow(cols, nchars)[j] == '+' || MarkRow(cols, nchars)[j] == '-'
  {
    if cols != [] {
      var last := |cols| - 1;
      var init := cols[..last];
      var row := MarkRow(init, nchars);
      var full := MarkRow(cols, nchars);
      MarkRowMarks(init, nchars);
      forall j | 0 <= j < nchars
        ensures full[j] == '+' <==> exists i :: 0 <= i < |cols| && MarksColumn(cols[i], nchars, j)
        ensures full[j] == '+' || full[j] == '-'
      {
        var byLast := MarksColumn(cols[last], nchars, j);
        assert full[j] == (if byLast then '+' else row[j]);
        if full[j] == '+' && !byLast {
          var i :| 0 <= i < |init| && MarksColumn(init[i], nchars, j);
          assert init[i] == cols[i];
        }
        if exists i :: 0 <= i < |cols| && MarksColumn(cols[i], nchars, j) {
          var i :| 0 <= i < |cols| && MarksColumn(cols[i], nchars, j);
          if i < last {
            assert init[i] == cols[i];
          }
        }
      }
    }
  }

  /** The axis minimum falls in column 0 and the maximum one past the last column. */
  lemma EndColumns(xmin: real, xmax: real, nchars: int)
    requires xmin < xmax && nchars >= 1
    ensures TickCharPos(xmin, xmin, xmax, nchars) == 0
    ensures TickCharPos(xmax, xmin, xmax, nchars) == nchars
  {
    assert (xmin - xmin) / (xmax - xmin) == 0.0;
    assert (xmax - xmin) / (xmax - xmin) == 1.0;
  }

  /**
   * When the ticks run exactly from the axis minimum to its maximum, the
   * first column and the last one both carry a tick mark.
   */
  lemma EndTicksMarked(values: seq<real>, E: int, edges: seq<real>, xmin: real, xmax: real, nchars: int)
    requires xmin < xmax && nchars >= 1
    requires ExactAxis(edges, values, E, xmin, xmax)
    ensures MarkRow(TickColumns(TickPositions(values, E), xmin, xmax, nchars), nchars)[0] == '+'
    ensures MarkRow(TickColumns(TickPositions(values, E), xmin, xmax, nchars), nchars)[nchars - 1] == '+'
  {
    TickPositionsExact(values, E, edges);
    var cols := TickColumns(edges, xmin, xmax, nchars);
    var last := |edges| - 1;
    MarkRowMarks(cols, nchars);
    EndColumns(xmin, xmax, nchars);
    assert MarksColumn(cols[0], nchars, 0);
    assert MarksColumn(cols[last], nchars, nchars - 1);
  }

  /** Factored values that give the ticks exactly are placed at the ticks. */
  lemma TickPositionsExact(values: seq<real>, E: int, edges: seq<real>)
    requires ExactTicks(edges, values, E)
    ensures TickPositions(values, E) == edges
  {
    forall i | 0 <= i < |values|
      ensures TickPositions(values, E)[i] == edges[i]
    {
      assert Rescales(values[i], E, edges[i]);
    }
  }

  /** The tick loop of plotAxes: a dash per column, '+' where a tick falls, the last column taking any tick past it. */
  method TickMarks(values: seq<real>, E: int, xmin: real, xmax: real, nchars: int) returns (marks: array<char>)
    requires xmin < xmax && nchars >= 1
    ensures fresh(marks) && marks[..] == MarkRow(TickColumns(TickPositions(values, E), xmin, xmax, nchars), nchars)
  {
    ghost var cols := TickColumns(TickPositions(values, E), xmin, xmax, nchars);
    marks := new char[nchars](_ => '-');
    var i := 0;
    while i < |values|
      invariant 0 <= i <= |values| && marks.Length == nchars
      invariant marks[..] == MarkRow(cols[..i], nchars)
    {
      MarkRowStep(cols, i, nchars);
      ColumnOfValue(values, E, xmin, xmax, nchars, i);
      var charpos := TickCharPos(values[i] * Pow10R(E), xmin, xmax, nchars);
      if charpos >= 0 {
        marks[Min(charpos, nchars - 1)] := '+';
      }
      i := i + 1;
    }
    assert cols[..i] == cols;
  }
}
