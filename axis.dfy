/**
 * Axis tick generation.  From a data range [min, max] the generator
 * rounds the bounds outward to a multiple of a "nice" step, lays out
 * equally spaced ticks between them, factors a shared power of ten out of
 * the tick labels, and places each tick on a pixel scale.  A logarithmic
 * axis enumerates the integer decades instead.
 *
 * The floating-point parts are given as inputs: the snapped step of a
 * linear axis, and the decade bounds and log10 values of a logarithmic
 * one.  Everything else is computed over int and real.
 */
module Axis {
  import opened CppLib
  import opened Definitions

  /** The "not yet set" values of the shared exponent. */
  const PlusIntfinity: int := 10000
  const MinusIntfinity: int := -1000

  /** Only the ticks of an axis are drawn; the label of each and its character column. */
  datatype Tick = Tick(charPosition: int, tickstr: string, tickstrLength: int)

  /** The runtime_error of the constructor, and its closing assertions. */
  datatype AxisError = MinGreaterThanMax | AssertionFailure

  /** How an axis is scaled, with the floating-point results it starts from. */
  datatype Scale =
    | Linear(step: real)
    | Logarithmic(minMag: int, maxMag: int, logMin: real, logMax: real)

  // ---------------------------------------------------------------------
  // The range check
  // ---------------------------------------------------------------------

  /** The constructor's range check: min > max throws; min == max is widened by one each way. */
  function CheckedRange(min: real, max: real): (r: Result<(real, real), AxisError>)
    ensures r.Failure? <==> min > max
    ensures r.Failure? ==> r.error == MinGreaterThanMax
    ensures r.Success? ==> r.value.0 < r.value.1 && r.value.0 <= min && max <= r.value.1
    ensures r.Success? && min < max ==> r.value == (min, max)
    ensures r.Success? && min == max ==> r.value.1 - r.value.0 == 2.0 && r.value.0 + 1.0 == min
  {
    if min > max then Failure(MinGreaterThanMax)
    else if min == max then Success((min - 1.0, max + 1.0))
    else Success((min, max))
  }

  // ---------------------------------------------------------------------
  // Outward rounding and the equally spaced ticks
  // ---------------------------------------------------------------------

  /** ceil on reals. */
  function Ceil(x: real): (c: int)
    ensures x <= c as real < x + 1.0
  {
    -((-x).Floor)
  }

  /** floor(vmin / step) * step: the largest step multiple not above vmin. */
  function AdjustedMin(vmin: real, step: real): (lo: real)
    requires step > 0.0
    ensures lo <= vmin < lo + step
  {
    var f := (vmin / step).Floor;
    FloorScaled(vmin, step, f);
    f as real * step
  }

  /** ceil(vmax / step) * step: the smallest step multiple not below vmax. */
  function AdjustedMax(vmax: real, step: real): (hi: real)
    requires step > 0.0
    ensures hi - step < vmax <= hi
  {
    var c := Ceil(vmax / step);
    MulStrict((c - 1) as real, vmax / step, step);
    MulLe(vmax / step, c as real, step);
    DivMul(vmax, step);
    AddOneMul((c - 1) as real, step);
    c as real * step
  }

  /** f <= v/s < f+1 scales to f*s <= v < f*s + s. */
  lemma FloorScaled(v: real, s: real, f: int)
    requires s > 0.0 && f as real <= v / s < f as real + 1.0
    ensures f as real * s <= v < f as real * s + s
  {
    var q := v / s;
    var b := f as real + 1.0;
    MulStrict(q, b, s);
    MulLe(f as real, q, s);
    DivMul(v, s);
    AddOneMul(f as real, s);
  }

  /** Multiplying by a positive factor keeps a strict order. */
  lemma MulStrict(x: real, b: real, s: real)
    requires s > 0.0 && x < b
    ensures x * s < b * s
  {
    assert b * s - x * s == (b - x) * s;
  }

  /** Multiplying by a positive factor keeps a weak order. */
  lemma MulLe(a: real, x: real, s: real)
    requires s > 0.0 && a <= x
    ensures a * s <= x * s
  {
    assert x * s - a * s == (x - a) * s;
  }

  lemma DivMul(x: real, s: real)
    requires s != 0.0
    ensures (x / s) * s == x
  {
  }

  lemma MulDiv(x: real, s: real)
    requires s != 0.0
    ensures (x * s) / s == x
  {
  }

  lemma AddOneMul(x: real, s: real)
    ensures (x + 1.0) * s == x * s + s
  {
  }

  /** p * a compared with c turns into a compared with c / p. */
  lemma ProductBounds(p: real, a: real, c: real)
    requires p > 0.0
    ensures p * a <= c ==> a <= c / p
    ensures c < p * a ==> c / p < a
  {
    DivMul(c, p);
    if p * a <= c {
      if a > c / p {
        MulStrict(c / p, a, p);
      }
    }
    if c < p * a {
      if a <= c / p {
        MulLe(a, c / p, p);
      }
    }
  }

  /** The number of steps between the adjusted bounds. */
  function NumSteps(vmin: real, vmax: real, step: real): (n: int)
    requires step > 0.0 && vmin < vmax
    ensures n >= 1
  {
    var f := (vmin / step).Floor;
    var c := Ceil(vmax / step);
    DivStrictMonotone(vmin, vmax, step);
    c - f
  }

  /** The adjusted bounds lie exactly NumSteps steps apart. */
  lemma NumStepsSpan(vmin: real, vmax: real, step: real)
    requires step > 0.0 && vmin < vmax
    ensures AdjustedMax(vmax, step) - AdjustedMin(vmin, step) == NumSteps(vmin, vmax, step) as real * step
  {
    var f := (vmin / step).Floor;
    var c := Ceil(vmax / step);
    assert c as real * step - f as real * step == (c - f) as real * step;
  }

  /** A positive number divided by itself. */
  lemma DivSelf(d: real)
    requires d > 0.0
    ensures d / d == 1.0
  {
    var q := d / d;
    assert q * d == d;
    assert (q - 1.0) * d == 0.0;
  }

  /** Division by a positive number keeps a strict order. */
  lemma DivStrictMonotone(a: real, b: real, s: real)
    requires a < b && s > 0.0
    ensures a / s < b / s
  {
    assert b / s - a / s == (b - a) / s;
  }

  /** round((vmax_adjust - vmin_adjust) / step) is the step count exactly. */
  lemma RoundedStepCount(vmin: real, vmax: real, step: real)
    requires step > 0.0 && vmin < vmax
    ensures RoundHalfAway((AdjustedMax(vmax, step) - AdjustedMin(vmin, step)) / step) == NumSteps(vmin, vmax, step)
  {
    NumStepsSpan(vmin, vmax, step);
    RoundOfMultiple(AdjustedMax(vmax, step) - AdjustedMin(vmin, step), NumSteps(vmin, vmax, step), step);
  }

  lemma RoundOfMultiple(d: real, n: int, step: real)
    requires step > 0.0 && d == n as real * step
    ensures RoundHalfAway(d / step) == n
  {
    MulDiv(n as real, step);
  }

  /** TAxis::GetBinLowEdge(i+1) of n fixed-width bins over [lo, hi]. */
  function LowEdge(lo: real, hi: real, n: int, i: int): real
    requires n >= 1
  {
    lo + (i as real) * ((hi - lo) / (n as real))
  }

  /** The tick values of n steps: the low edges of the n bins and of the overflow bin. */
  function Edges(lo: real, hi: real, n: int): (ticks: seq<real>)
    requires n >= 1
    ensures |ticks| == n + 1
  {
    seq(n + 1, i requires 0 <= i <= n => LowEdge(lo, hi, n, i))
  }

  /** An exact multiple divided by its multiplier. */
  lemma DivOfMultiple(d: real, n: int, s: real)
    requires n >= 1 && d == n as real * s
    ensures d / (n as real) == s
  {
    var q := d / (n as real);
    assert q * (n as real) == s * (n as real);
    assert (q - s) * (n as real) == 0.0;
  }

  /** Low edge i of bins of width step starting at the step multiple f * step. */
  lemma EdgeValue(lo: real, hi: real, n: int, f: int, step: real, i: int)
    requires n >= 1 && lo == f as real * step && (hi - lo) / (n as real) == step
    ensures LowEdge(lo, hi, n, i) == (f + i) as real * step
  {
    assert (f + i) as real * step == f as real * step + i as real * step;
  }

  /** n bins of width step from the step multiple lo = f * step to hi. */
  lemma EdgesOfMultiples(lo: real, hi: real, n: int, f: int, step: real)
    requires n >= 1 && step > 0.0 && lo == f as real * step && hi - lo == n as real * step
    ensures var ticks := Edges(lo, hi, n);
            ticks[0] == lo && ticks[n] == hi &&
            (forall i :: 0 <= i <= n ==> ticks[i] == (f + i) as real * step) &&
            (forall i :: 0 <= i < n ==> ticks[i] < ticks[i + 1])
  {
    DivOfMultiple(hi - lo, n, step);
    var ticks := Edges(lo, hi, n);
    forall i | 0 <= i <= n
      ensures ticks[i] == (f + i) as real * step
    {
      EdgeValue(lo, hi, n, f, step, i);
    }
    forall i | 0 <= i < n
      ensures ticks[i] < ticks[i + 1]
    {
      EdgeValue(lo, hi, n, f, step, i);
      EdgeValue(lo, hi, n, f, step, i + 1);
      MulStrict((f + i) as real, (f + i + 1) as real, step);
    }
    EdgeValue(lo, hi, n, f, step, 0);
    EdgeValue(lo, hi, n, f, step, n);
    assert (f + n) as real * step == f as real * step + n as real * step;
  }

  /**
   * The ticks run from the lower to the upper adjusted bound in equal
   * increasing steps; on a linear axis every tick is a multiple of the step.
   */
  lemma EdgesShape(vmin: real, vmax: real, step: real)
    requires step > 0.0 && vmin < vmax
    ensures var lo := AdjustedMin(vmin, step);
            var hi := AdjustedMax(vmax, step);
            var n := NumSteps(vmin, vmax, step);
            var ticks := Edges(lo, hi, n);
            ticks[0] == lo && ticks[n] == hi &&
            (forall i :: 0 <= i <= n ==> ticks[i] == ((vmin / step).Floor + i) as real * step) &&
            (forall i :: 0 <= i < n ==> ticks[i] < ticks[i + 1])
  {
    NumStepsSpan(vmin, vmax, step);
    EdgesOfMultiples(AdjustedMin(vmin, step), AdjustedMax(vmax, step), NumSteps(vmin, vmax, step), (vmin / step).Floor, step);
  }

  // ---------------------------------------------------------------------
  // Trailing zeros and the integer exponent
  // ---------------------------------------------------------------------

  /** The number of trailing decimal zeros of i; 0 for i = 0. */
  function TrailingZeros(i: int): (n: nat)
    decreases Abs(i)
  {
    if i != 0 && i % 10 == 0 then 1 + TrailingZeros(Quot(i, 10)) else 0
  }

  /** Euclidean division of an exact multiple gives the multiplier. */
  lemma DivUnique(x: int, d: int, q: int)
    requires d > 0 && x == q * d
    ensures x / d == q && x % d == 0
  {
    var q0 := x / d;
    var r0 := x % d;
    assert (q - q0) * d == r0;
    if q - q0 >= 1 {
      MulAtLeast(q - q0, d);
    } else if q - q0 <= -1 {
      MulAtLeast(q0 - q, d);
    }
  }

  lemma MulAtLeast(a: int, d: int)
    requires a >= 1 && d > 0
    ensures a * d >= d
  {
    assert a * d == (a - 1) * d + d;
  }

  /** C++ division by a positive divisor that divides exactly. */
  lemma QuotExact(i: int, d: int)
    requires d > 0 && i % d == 0
    ensures Quot(i, d) * d == i
  {
    var q := i / d;
    assert i == q * d;
    if i < 0 {
      assert -i == (-q) * d;
      DivUnique(-i, d, -q);
    }
  }

  /** 10^k divides i exactly when k is at most its trailing-zero count (i != 0). */
  lemma {:induction false} TrailingZerosDivide(i: int, k: nat)
    requires i != 0
    ensures i % Pow10(k) == 0 <==> k <= TrailingZeros(i)
    decreases k
  {
    if k > 0 {
      if i % 10 == 0 {
        var q := Quot(i, 10);
        QuotExact(i, 10);
        TrailingZerosDivide(q, k - 1);
        DividesScaled(q, Pow10(k - 1));
      } else {
        NotDividesByTen(i, k);
      }
    }
  }

  /** q*10 is a multiple of 10p exactly when q is a multiple of p. */
  lemma DividesScaled(q: int, p: int)
    requires p > 0
    ensures (q * 10) % (10 * p) == 0 <==> q % p == 0
  {
    if q % p == 0 {
      var t := q / p;
      assert q == t * p;
      assert q * 10 == t * (10 * p);
      DivUnique(q * 10, 10 * p, t);
    }
    if (q * 10) % (10 * p) == 0 {
      var s := (q * 10) / (10 * p);
      assert q * 10 == s * (10 * p);
      assert q * 10 == (s * p) * 10;
      assert q == s * p;
      DivUnique(q, p, s);
    }
  }

  /** A number that is not a multiple of 10 is no multiple of 10^k, k >= 1. */
  lemma NotDividesByTen(i: int, k: nat)
    requires k >= 1 && i % 10 != 0
    ensures i % Pow10(k) != 0
  {
    if i % Pow10(k) == 0 {
      var t := i / Pow10(k);
      assert i == t * Pow10(k);
      assert Pow10(k) == 10 * Pow10(k - 1);
      assert i == (t * Pow10(k - 1)) * 10;
      DivUnique(i, 10, t * Pow10(k - 1));
    }
  }

  /** count_0: strip trailing zeros with truncating division, counting them. */
  method CountZeros(value: int) returns (c: nat)
    ensures c == TrailingZeros(value)
  {
    var i := value;
    c := 0;
    while i % 10 == 0 && i != 0
      invariant TrailingZeros(value) == c + TrailingZeros(i)
      decreases Abs(i)
    {
      i := Quot(i, 10);
      c := c + 1;
    }
  }

  /** The loop over the ticks: the least trailing-zero count of a nonzero tick, from the sentinel. */
  function MinZeros(values: seq<int>): (m: int)
    ensures m <= PlusIntfinity
    ensures forall i :: 0 <= i < |values| && values[i] != 0 ==> m <= TrailingZeros(values[i])
    ensures m < PlusIntfinity ==> exists i :: 0 <= i < |values| && values[i] != 0 && TrailingZeros(values[i]) == m
  {
    if |values| == 0 then PlusIntfinity
    else
      var m := MinZeros(values[..|values| - 1]);
      var v := values[|values| - 1];
      if v != 0 && TrailingZeros(v) < m then TrailingZeros(v) else m
  }

  /** value times 10^e is x: tickPosition puts the factored power of ten back. */
  predicate Rescales(value: real, e: int, x: real) {
    value * Pow10R(e) == x
  }

  /** The exponent shared by integer ticks: at least three common zeros, otherwise none. */
  function IntegerExponent(values: seq<int>): (e: nat)
  {
    var m := MinZeros(values);
    if m >= 3 then m else 0
  }

  /**
   * The exponent divides every tick, and when it is not the sentinel no
   * larger power of ten divides them all: it is the largest shared one, if
   * that has at least three zeros.
   */
  lemma IntegerExponentIsShared(values: seq<int>)
    ensures forall i :: 0 <= i < |values| ==> values[i] % Pow10(IntegerExponent(values)) == 0
    ensures 0 < IntegerExponent(values) < PlusIntfinity ==>
      exists i :: 0 <= i < |values| && values[i] % Pow10(IntegerExponent(values) + 1) != 0
    ensures IntegerExponent(values) == 0 <==> MinZeros(values) < 3
  {
    var e := IntegerExponent(values);
    forall i | 0 <= i < |values|
      ensures values[i] % Pow10(e) == 0
    {
      if values[i] != 0 {
        TrailingZerosDivide(values[i], e);
      }
    }
    if 0 < e < PlusIntfinity {
      var i :| 0 <= i < |values| && values[i] != 0 && TrailingZeros(values[i]) == e;
      TrailingZerosDivide(values[i], e + 1);
    }
  }

  /** The zero-counting loop of the integer branch. */
  method FewestZeros(values: seq<int>) returns (minNumZero: int)
    ensures minNumZero == MinZeros(values)
  {
    minNumZero := PlusIntfinity;
    var j := 0;
    while j < |values|
      invariant 0 <= j <= |values|
      invariant minNumZero == MinZeros(values[..j])
    {
      var n0 := CountZeros(values[j]);
      assert values[..j + 1][..j] == values[..j];
      if values[j] != 0 && n0 < minNumZero {
        minNumZero := n0;
      }
      j := j + 1;
    }
    assert values[..|values|] == values;
  }

  /**
   * The integer branch of init_linear: count the zeros of every tick, and
   * with at least three in common divide them all by that power of ten.
   */
  method FactorIntegerTicks(values: seq<int>) returns (e: nat, factored: seq<int>)
    ensures e == IntegerExponent(values)
    ensures |factored| == |values|
    ensures forall j :: 0 <= j < |values| ==> factored[j] * Pow10(e) == values[j]
  {
    var minNumZero := FewestZeros(values);
    IntegerExponentIsShared(values);
    if minNumZero >= 3 {
      e := minNumZero;
      factored := DivideExactly(values, e);
    } else {
      e := 0;
      factored := values;
    }
  }

  /** The division loop of the integer branch: every tick divided by 10^e, which divides it. */
  method DivideExactly(values: seq<int>, e: nat) returns (factored: seq<int>)
    requires forall i :: 0 <= i < |values| ==> values[i] % Pow10(e) == 0
    ensures |factored| == |values|
    ensures forall j :: 0 <= j < |values| ==> factored[j] * Pow10(e) == values[j]
  {
    factored := [];
    var k := 0;
    while k < |values|
      invariant 0 <= k <= |values| && |factored| == k
      invariant forall i :: 0 <= i < k ==> factored[i] * Pow10(e) == values[i]
    {
      QuotExact(values[k], Pow10(e));
      factored := factored + [Quot(values[k], Pow10(e))];
      k := k + 1;
    }
  }

  // ---------------------------------------------------------------------
  // Magnitudes and the real exponent
  // ---------------------------------------------------------------------

  /** floor(log10(x)) for x >= 1. */
  function FloorLog10(x: real): (r: nat)
    requires x >= 1.0
    ensures Pow10R(r) <= x < Pow10R(r + 1)
    decreases x.Floor
  {
    if x < 10.0 then 0
    else
      assert (x / 10.0).Floor < x.Floor;
      var r := FloorLog10(x / 10.0);
      Pow10RStep(r);
      Pow10RStep(r + 1);
      r + 1
  }

  /** 10^-e is the reciprocal of 10^e. */
  lemma Pow10RNegate(e: int)
    ensures Pow10R(-e) == 1.0 / Pow10R(e)
  {
  }

  /** trunc(log10(a)) for a > 0: toward zero, so below 1 it is minus the floor of log10(1/a). */
  function TruncLog10(a: real): (r: int)
    requires a > 0.0
    ensures a >= 1.0 ==> r >= 0 && Pow10R(r) <= a < Pow10R(r + 1)
    ensures a < 1.0 ==> r <= 0 && Pow10R(r - 1) < a <= Pow10R(r)
  {
    if a >= 1.0 then FloorLog10(a)
    else
      var f: int := FloorLog10(1.0 / a);
      ReciprocalBounds(a, Pow10R(f), Pow10R(f + 1), 1.0);
      Pow10RNegate(f);
      Pow10RNegate(f + 1);
      -f
  }

  /** 10^f <= c/a < 10^(f+1) turns into c/10^(f+1) < a <= c/10^f. */
  lemma ReciprocalBounds(a: real, p: real, q: real, c: real)
    requires 0.0 < a && 0.0 < p && 0.0 < q && p <= c / a < q
    ensures c / q < a <= c / p
  {
    var r := c / a;
    DivMul(c, a);
    assert r * a == c;
    MulLe(p, r, a);
    assert p * a <= r * a;
    MulStrict(r, q, a);
    assert r * a < q * a;
    assert p * a <= c;
    assert c < q * a;
    ProductBounds(p, a, c);
    ProductBounds(q, a, c);
  }

  /** The loop over the ticks: the largest magnitude of a nonzero tick, from the sentinel. */
  function MaxMagnitude(values: seq<real>): int
  {
    if |values| == 0 then MinusIntfinity
    else
      var m := MaxMagnitude(values[..|values| - 1]);
      var v := values[|values| - 1];
      if v != 0.0 && TruncLog10(AbsR(v)) > m then TruncLog10(AbsR(v)) else m
  }

  /**
   * The loop finds the largest magnitude of a nonzero tick, or keeps the
   * sentinel when every tick is zero or smaller.
   */
  lemma {:induction false} MaxMagnitudeIsLargest(values: seq<real>)
    ensures MaxMagnitude(values) >= MinusIntfinity
    ensures forall i :: 0 <= i < |values| && values[i] != 0.0 ==> TruncLog10(AbsR(values[i])) <= MaxMagnitude(values)
    ensures MaxMagnitude(values) > MinusIntfinity ==>
      exists i :: 0 <= i < |values| && values[i] != 0.0 && TruncLog10(AbsR(values[i])) == MaxMagnitude(values)
  {
    if |values| > 0 {
      var init := values[..|values| - 1];
      MaxMagnitudeIsLargest(init);
      assert forall i :: 0 <= i < |init| ==> init[i] == values[i];
    }
  }

  /** The exponent of non-integer ticks: the largest magnitude if it is at least 2 in size. */
  function RealExponent(values: seq<real>): int {
    ExponentOf(MaxMagnitude(values))
  }

  /** The exponent kept for a largest magnitude m. */
  function ExponentOf(m: int): int {
    if Abs(m) >= 2 then m else 0
  }

  /** The magnitude loop of the non-integer branch. */
  method LargestMagnitude(values: seq<real>) returns (e: int)
    ensures e == MaxMagnitude(values)
  {
    e := MinusIntfinity;
    var j := 0;
    while j < |values|
      invariant 0 <= j <= |values|
      invariant e == MaxMagnitude(values[..j])
    {
      var v := values[j];
      assert values[..j + 1][..j] == values[..j];
      if v != 0.0 {
        var mag := TruncLog10(AbsR(v));
        if mag > e {
          e := mag;
        }
      }
      j := j + 1;
    }
    assert values[..|values|] == values;
  }

  /**
   * The non-integer branch of init_linear: find the largest magnitude and,
   * if it is at least 2 in size, divide every tick by that power of ten.
   */
  method FactorRealTicks(values: seq<real>) returns (e: int, factored: seq<real>)
    ensures e == RealExponent(values)
    ensures |factored| == |values|
    ensures forall j :: 0 <= j < |values| ==> Rescales(factored[j], e, values[j])
  {
    var m := LargestMagnitude(values);
    e, factored := ScaleTicks(values, m);
  }

  /** Divide the ticks by 10^m when m is at least 2 in size; otherwise leave them. */
  method ScaleTicks(values: seq<real>, m: int) returns (e: int, factored: seq<real>)
    ensures e == ExponentOf(m)
    ensures |factored| == |values|
    ensures forall j :: 0 <= j < |values| ==> Rescales(factored[j], e, values[j])
  {
    e := m;
    if Abs(e) >= 2 {
      factored := DivideAll(values, Pow10R(e));
    } else {
      e := 0;
      factored := values;
      forall j | 0 <= j < |values|
        ensures Rescales(factored[j], e, values[j])
      {
        MulOne(values[j]);
      }
    }
  }

  lemma MulOne(x: real)
    ensures x * Pow10R(0) == x
  {
  }

  /** v /= d for every tick. */
  method DivideAll(values: seq<real>, d: real) returns (factored: seq<real>)
    requires d != 0.0
    ensures |factored| == |values|
    ensures forall j :: 0 <= j < |values| ==> factored[j] * d == values[j]
  {
    factored := [];
    var k := 0;
    while k < |values|
      invariant 0 <= k <= |values| && |factored| == k
      invariant forall i :: 0 <= i < k ==> factored[i] * d == values[i]
    {
      DivMul(values[k], d);
      factored := factored + [values[k] / d];
      k := k + 1;
    }
  }

  lemma MagnitudeBound(a: real, pt: real, pt1: real, pm: real, pm1: real)
    requires a > 0.0 && pt <= pm && pt1 <= pm1 && pt < pt1
    requires a < pt1 || a <= pt
    ensures a < pm1
  {
  }

  /**
   * Once the largest magnitude m is factored out, every label is below 10
   * in size, and the largest one is at least 1 when m >= 0.
   */
  lemma RealFactoringBounds(values: seq<real>, j: int)
    requires 0 <= j < |values| && values[j] != 0.0
    requires MaxMagnitude(values) > MinusIntfinity
    ensures AbsR(values[j]) < 10.0 * Pow10R(MaxMagnitude(values))
  {
    var m := MaxMagnitude(values);
    var a := AbsR(values[j]);
    var t := TruncLog10(a);
    MaxMagnitudeIsLargest(values);
    assert t <= m;
    Pow10RStep(m);
    Pow10RMonotone(t + 1, m + 1);
    Pow10RMonotone(t, m);
    Pow10RStep(t);
    MagnitudeBound(a, Pow10R(t), Pow10R(t + 1), Pow10R(m), Pow10R(m + 1));
  }

  // ---------------------------------------------------------------------
  // Labels
  // ---------------------------------------------------------------------

  /** The labels of integer ticks: std::to_string of each. */
  method IntLabels(values: seq<int>) returns (labels: seq<string>)
    ensures |labels| == |values|
    ensures forall j :: 0 <= j < |values| ==> labels[j] == IntToString(values[j])
  {
    labels := [];
    var j := 0;
    while j < |values|
      invariant 0 <= j <= |values| && |labels| == j
      invariant forall i :: 0 <= i < j ==> labels[i] == IntToString(values[i])
    {
      labels := labels + [IntToString(values[j])];
      j := j + 1;
    }
  }

  /** The labels of non-integer ticks, written by the given {:.7g} formatter. */
  method RealLabels(values: seq<real>, format: real -> string) returns (labels: seq<string>)
    ensures |labels| == |values|
    ensures forall j :: 0 <= j < |values| ==> labels[j] == format(values[j])
  {
    labels := [];
    var j := 0;
    while j < |values|
      invariant 0 <= j <= |values| && |labels| == j
      invariant forall i :: 0 <= i < j ==> labels[i] == format(values[i])
    {
      labels := labels + [format(values[j])];
      j := j + 1;
    }
  }

  /** maxLabelWidth: the length of the longest label, 0 without labels. */
  function MaxLabelWidth(labels: seq<string>): (w: nat)
    ensures forall i :: 0 <= i < |labels| ==> |labels[i]| <= w
    ensures |labels| == 0 ==> w == 0
    ensures |labels| > 0 ==> exists i :: 0 <= i < |labels| && |labels[i]| == w
  {
    if |labels| == 0 then 0
    else
      var w := MaxLabelWidth(labels[..|labels| - 1]);
      var last := |labels[|labels| - 1]|;
      if last > w then last else w
  }

  /** All ticks are whole numbers (trunc(v) == v for each). */
  predicate AllIntegral(values: seq<real>) {
    forall i :: 0 <= i < |values| ==> values[i].Floor as real == values[i]
  }

  // ---------------------------------------------------------------------
  // Placement and labels
  // ---------------------------------------------------------------------

  /** The values before factoring: lround of every tick. */
  function RoundAll(ticks: seq<real>): (values: seq<int>)
    ensures |values| == |ticks|
    ensures forall j :: 0 <= j < |ticks| ==> values[j] == RoundHalfAway(ticks[j])
  {
    seq(|ticks|, j requires 0 <= j < |ticks| => RoundHalfAway(ticks[j]))
  }

  /** The exponent before the sentinel check. */
  function RawExponent(ticks: seq<real>): int {
    if AllIntegral(ticks) then IntegerExponent(RoundAll(ticks)) else RealExponent(ticks)
  }

  /** Rounding a whole number gives it back. */
  lemma RoundIntegral(x: real)
    requires x.Floor as real == x
    ensures RoundHalfAway(x) as real == x
  {
    var k := x.Floor;
    var t := RoundHalfAway(x);
    assert (t - k) as real <= 0.5 && (k - t) as real <= 0.5;
    assert t - k <= 0 && k - t <= 0;
  }

  /**
   * The character column of a value on an npixel-wide axis from lo to hi,
   * with -999 for a value that falls off the axis.
   */
  function CharPosition(x: real, lo: real, hi: real, npixel: int): (pos: int)
    requires lo < hi
    ensures pos == -999 || 0 <= pos < npixel
  {
    var p := Trunc(AxisFraction(x, lo, hi, npixel));
    if p < 0 || p >= npixel then -999 else p
  }

  /** The value's share of the axis from lo to hi, scaled to npixel columns. */
  function AxisFraction(x: real, lo: real, hi: real, npixel: int): real
    requires lo < hi
  {
    (x - lo) / (hi - lo) * (npixel as real)
  }

  /** Columns keep the order of the values they place on the axis. */
  lemma CharPositionMonotone(x: real, y: real, lo: real, hi: real, npixel: int)
    requires lo <= x <= y < hi && npixel > 0
    ensures 0 <= CharPosition(x, lo, hi, npixel) <= CharPosition(y, lo, hi, npixel)
  {
    CharPositionInside(x, lo, hi, npixel);
    CharPositionInside(y, lo, hi, npixel);
    FractionOrdered(x, y, lo, hi, npixel);
    FloorsOrdered(CharPosition(x, lo, hi, npixel), CharPosition(y, lo, hi, npixel),
                  AxisFraction(x, lo, hi, npixel), AxisFraction(y, lo, hi, npixel));
  }

  /** A value further along the axis has a larger share of it. */
  lemma FractionOrdered(x: real, y: real, lo: real, hi: real, npixel: int)
    requires lo <= x <= y < hi && npixel > 0
    ensures 0.0 <= AxisFraction(x, lo, hi, npixel) <= AxisFraction(y, lo, hi, npixel)
  {
    var p, q, d, n := x - lo, y - lo, hi - lo, npixel as real;
    assert 0.0 <= p / d <= q / d by {
      if p < q {
        DivStrictMonotone(p, q, d);
      }
      if 0.0 < p {
        DivStrictMonotone(0.0, p, d);
      }
    }
    MulLe(p / d, q / d, n);
    MulLe(0.0, p / d, n);
  }

  /** The floors of two ordered nonnegative reals are ordered and nonnegative. */
  lemma FloorsOrdered(m: int, n: int, a: real, b: real)
    requires 0.0 <= a <= b && m == a.Floor && n == b.Floor
    ensures 0 <= m <= n
  {
    assert a.Floor as real <= a && b < b.Floor as real + 1.0;
  }

  /** The lower bound sits in column 0 and the upper bound is off the axis. */
  lemma CharPositionEnds(lo: real, hi: real, npixel: int)
    requires lo < hi && npixel > 0
    ensures CharPosition(lo, lo, hi, npixel) == 0
    ensures CharPosition(hi, lo, hi, npixel) == -999
  {
    DivSelf(hi - lo);
  }

  /** Inside [lo, hi) a value lands in the column its fraction of the axis selects. */
  lemma CharPositionInside(x: real, lo: real, hi: real, npixel: int)
    requires lo <= x < hi && npixel > 0
    ensures CharPosition(x, lo, hi, npixel) == AxisFraction(x, lo, hi, npixel).Floor
  {
    var t := (x - lo) / (hi - lo);
    var n := npixel as real;
    DivStrictMonotone(x - lo, hi - lo, hi - lo);
    DivSelf(hi - lo);
    assert 0.0 <= t < 1.0;
    MulStrict(t, 1.0, n);
    MulLe(0.0, t, n);
    var y := t * n;
    assert 0.0 <= y < n;
    assert Trunc(y) == y.Floor < npixel;
  }

  /**
   * The label of decade m: the plain decimal 10^m up to m = 2 (0 below
   * m = 0, where the integer cast truncates), else 10 with m in superscript.
   */
  function LogLabel(m: int): (text: string)
  {
    if m <= 2 then IntToString(Trunc(Pow10R(m))) else "10" + MakeSuperscript(m)
  }

  /** The log labels spelled out; the superscript part reads back as the decade. */
  lemma LogLabelShape(m: int)
    ensures m < 0 ==> LogLabel(m) == "0"
    ensures 0 <= m <= 2 ==> LogLabel(m) == IntToString(Pow10(m))
    ensures m > 2 ==> |LogLabel(m)| == 2 + |IntToString(m)| && LogLabel(m)[..2] == "10" &&
                      UnSuperscript(LogLabel(m)[2..]) == Some(IntToString(m))
  {
    if m < 0 {
      assert Pow10R(m) <= 1.0 / 10.0 by {
        Pow10RMonotone(m, -1);
      }
    }
    if m > 2 {
      MakeSuperscriptRoundTrip(m);
      assert LogLabel(m)[2..] == MakeSuperscript(m);
    }
  }

  /** The decades min..last. */
  function Decades(first: int, last: int): (ds: seq<int>)
    ensures |ds| == if last < first then 0 else last - first + 1
    ensures forall j :: 0 <= j < |ds| ==> ds[j] == first + j
  {
    if last < first then [] else seq(last - first + 1, j => first + j)
  }

  /** vmax_adjust of a logarithmic axis: the upper decade, bumped when it equals the lower one. */
  function TopDecade(minMag: int, maxMag: int): int {
    if minMag == maxMag then maxMag + 1 else maxMag
  }

  /** The last decade enumerated: one more when the span is not positive. */
  function LastDecade(minMag: int, maxMag: int): int {
    var top := TopDecade(minMag, maxMag);
    if top - minMag <= 0 then top + 1 else top
  }

  /**
   * With ordered decade bounds the log axis enumerates at least two
   * consecutive decades from the lower bound to its adjusted upper bound;
   * with reversed bounds the adjusted bounds come out reversed.
   */
  lemma LogDecadesShape(minMag: int, maxMag: int)
    ensures minMag <= maxMag ==>
      var ds := Decades(minMag, LastDecade(minMag, maxMag));
      |ds| >= 2 && ds[0] == minMag && ds[|ds| - 1] == TopDecade(minMag, maxMag) &&
      TopDecade(minMag, maxMag) > minMag
    ensures minMag > maxMag ==> TopDecade(minMag, maxMag) < minMag
  {
  }

  // ---------------------------------------------------------------------
  // The tick generator's state
  // ---------------------------------------------------------------------

  class AxisTicks {
    var valuesD: seq<real>
    var valuesI: seq<int>
    var valuesStr: seq<string>
    var integer: bool
    var E: int
    var nticks: int
    var logarithmic: bool
    var vmin: real
    var vmax: real
    var vminAdjust: real
    var vmaxAdjust: real
    var npixel: int
    /** The tick values before a power of ten is factored out of them. */
    ghost var edges: seq<real>

    /** The constructor's closing assertions, and integer labels matching their values. */
    ghost predicate Valid()
      reads this
    {
      |valuesD| == nticks && |valuesI| == nticks && |valuesStr| == nticks &&
      vmax > vmin && vmaxAdjust > vminAdjust && (logarithmic ==> integer) &&
      (integer ==> DecimalLabels(valuesI, valuesStr))
    }

    /** A linear axis whose factored ticks still give the exact tick values. */
    ghost predicate LinearTicksExact()
      reads this
    {
      !logarithmic && |edges| == nticks && ExactAxis(edges, valuesD, E, vminAdjust, vmaxAdjust) &&
      Increasing(edges)
    }

    /** The member initialisers and the range check, before the ticks are built. */
    constructor(min: real, max: real)
      requires min <= max
      ensures (vmin, vmax) == CheckedRange(min, max).value
      ensures valuesD == [] && valuesI == [] && valuesStr == []
      ensures E == 0 && nticks == 1 && !logarithmic && npixel == 0
    {
      var range := CheckedRange(min, max).value;
      vmin := range.0;
      vmax := range.1;
      valuesD := [];
      valuesI := [];
      valuesStr := [];
      integer := false;
      E := 0;
      nticks := 1;
      logarithmic := false;
      vminAdjust := 0.0;
      vmaxAdjust := 0.0;
      npixel := 0;
      edges := [];
    }

    /** init_linear, from the snapped step. */
    method InitLinear(step: real, format: real -> string)
      requires step > 0.0 && vmin < vmax && !logarithmic
      modifies this`vminAdjust, this`vmaxAdjust, this`edges, this`nticks, this`integer, this`E,
               this`valuesD, this`valuesI, this`valuesStr
      ensures vmin == old(vmin) && vmax == old(vmax) && !logarithmic && npixel == old(npixel)
      ensures vminAdjust == AdjustedMin(vmin, step) && vmaxAdjust == AdjustedMax(vmax, step)
      ensures edges == Edges(vminAdjust, vmaxAdjust, NumSteps(vmin, vmax, step)) && nticks == |edges|
      ensures integer == AllIntegral(edges)
      ensures Factored(edges, RawExponent(edges), integer, E, valuesD, valuesI, valuesStr, format)
      ensures E == RawExponent(edges) ==> LinearTicksExact()
      ensures Valid()
    {
      var lo, hi, ticks, isInt, e, ds, ints, strs := LinearTicks(vmin, vmax, step, format);
      StoreTicks(lo, hi, ticks, isInt, e, ds, ints, strs);
    }

    /** The fields init_linear fills in. */
    method StoreTicks(lo: real, hi: real, ticks: seq<real>, isInt: bool, e: int,
                      ds: seq<real>, ints: seq<int>, strs: seq<string>)
      modifies this`vminAdjust, this`vmaxAdjust, this`edges, this`nticks, this`integer, this`E,
               this`valuesD, this`valuesI, this`valuesStr
      ensures vminAdjust == lo && vmaxAdjust == hi && edges == ticks && nticks == |ticks|
      ensures integer == isInt && E == e && valuesD == ds && valuesI == ints && valuesStr == strs
    {
      vminAdjust, vmaxAdjust, edges, nticks := lo, hi, ticks, |ticks|;
      integer, E, valuesD, valuesI, valuesStr := isInt, e, ds, ints, strs;
    }

    /** init_logarithmic, from floor(log10) of the clamped lower bound, ceil(log10) of the upper one and the log10 of both. */
    method InitLogarithmic(minMag: int, maxMag: int, logMin: real, logMax: real)
      requires valuesD == [] && valuesI == [] && valuesStr == []
      modifies this`logarithmic, this`vmin, this`vmax, this`vminAdjust, this`vmaxAdjust, this`edges, this`nticks,
               this`integer, this`E, this`valuesD, this`valuesI, this`valuesStr
      ensures logarithmic && integer && E == 0 && npixel == old(npixel)
      ensures vmin == logMin && vmax == logMax
      ensures vminAdjust == minMag as real && vmaxAdjust == TopDecade(minMag, maxMag) as real
      ensures valuesI == Decades(minMag, LastDecade(minMag, maxMag)) && nticks == |valuesI|
      ensures RealsOf(valuesD, valuesI) && DecimalLabels(valuesI, valuesStr)
    {
      SetLogBounds(minMag, maxMag, logMin, logMax);
      SetDecades(minMag, LastDecade(minMag, maxMag));
    }

    /** The first half of init_logarithmic: the log10 bounds, and the decade bounds with the upper one bumped when they coincide. */
    method SetLogBounds(minMag: int, maxMag: int, logMin: real, logMax: real)
      modifies this`logarithmic, this`vmin, this`vmax, this`vminAdjust, this`vmaxAdjust
      ensures logarithmic && vmin == logMin && vmax == logMax
      ensures vminAdjust == minMag as real && vmaxAdjust == TopDecade(minMag, maxMag) as real
    {
      logarithmic := true;
      vmin := logMin;
      vmax := logMax;
      vminAdjust := minMag as real;
      vmaxAdjust := TopDecade(minMag, maxMag) as real;
    }

    /** The second half of init_logarithmic: one integer tick per decade from first to last, labelled in decimal. */
    method SetDecades(first: int, last: int)
      modifies this`edges, this`nticks, this`integer, this`E, this`valuesD, this`valuesI, this`valuesStr
      ensures integer && E == 0
      ensures valuesI == Decades(first, last) && nticks == |valuesI|
      ensures RealsOf(valuesD, valuesI) && DecimalLabels(valuesI, valuesStr)
    {
      valuesD, valuesI, valuesStr := DecadeTicks(first, last);
      E := 0;
      nticks := |valuesD|;
      integer := true;
      edges := valuesD;
    }

    /** setAxisPixels. */
    method SetAxisPixels(npix: int)
      modifies this`npixel
      ensures npixel == npix
    {
      npixel := npix;
    }

    /** tickPosition: the value of tick i with the shared power of ten put back. */
    function TickPosition(i: int): (pos: real)
      reads this
      requires 0 <= i < |valuesD|
      ensures ExactTicks(edges, valuesD, E) ==> pos == edges[i]
    {
      valuesD[i] * Pow10R(E)
    }

    /**
     * The column of tick i: its decade on a logarithmic axis, its value on a
     * linear one, placed on the adjusted or the requested range.
     */
    function TickColumn(i: int, adjustedRange: bool): (pos: int)
      reads this
      requires Valid() && 0 <= i < nticks
      ensures pos == -999 || 0 <= pos < npixel
    {
      if logarithmic then CharPosition(valuesI[i] as real, vminAdjust, vmaxAdjust, npixel)
      else if adjustedRange then CharPosition(valuesD[i] * Pow10R(E), vminAdjust, vmaxAdjust, npixel)
      else CharPosition(valuesD[i] * Pow10R(E), vmin, vmax, npixel)
    }

    /** getTick: None stands for the default Tick returned for an index out of range. */
    function GetTick(i: int, adjustedRange: bool): (tick: Option<Tick>)
      reads this
      requires Valid()
      ensures tick.None? <==> i < 0 || i >= nticks
      ensures tick.Some? ==> tick.value.charPosition == TickColumn(i, adjustedRange)
      ensures tick.Some? ==> tick.value.tickstrLength == |tick.value.tickstr|
      ensures tick.Some? && logarithmic ==> tick.value.tickstr == LogLabel(valuesI[i])
      ensures tick.Some? && !logarithmic ==> tick.value.tickstr == valuesStr[i]
    {
      if i < 0 || i >= nticks then None
      else
        var pos := TickColumn(i, adjustedRange);
        if logarithmic then
          if valuesI[i] <= 2 then
            var s := IntToString(Trunc(Pow10R(valuesI[i])));
            Some(Tick(pos, s, |s|))
          else
            var s := "10" + MakeSuperscript(valuesI[i]);
            Some(Tick(pos, s, 2 + |valuesStr[i]|))
        else
          Some(Tick(pos, valuesStr[i], |valuesStr[i]|))
    }

    /**
     * On a linear axis drawn over the adjusted range the first tick sits in
     * column 0 and the last one, at the adjusted maximum, is off the axis.
     */
    lemma AdjustedRangeEnds()
      requires Valid() && LinearTicksExact() && npixel > 0
      ensures TickColumn(0, true) == 0
      ensures TickColumn(nticks - 1, true) == -999
    {
      assert ExactAxis(edges, valuesD, E, vminAdjust, vmaxAdjust);
      TickColumnOfEdge(0);
      TickColumnOfEdge(nticks - 1);
      CharPositionEnds(vminAdjust, vmaxAdjust, npixel);
    }

    /**
     * On a linear axis drawn over the adjusted range every tick but the last
     * lands on the axis, and a later tick never lands left of an earlier one.
     */
    lemma TickColumnsOrdered(i: int, j: int)
      requires Valid() && LinearTicksExact() && npixel > 0 && 0 <= i <= j < nticks - 1
      ensures 0 <= TickColumn(i, true) <= TickColumn(j, true) < npixel
    {
      assert ExactAxis(edges, valuesD, E, vminAdjust, vmaxAdjust);
      TickColumnOfEdge(i);
      TickColumnOfEdge(j);
      assert Increasing(edges);
      assert vminAdjust <= edges[i] by {
        if i > 0 {
          assert edges[0] < edges[i];
        }
      }
      assert edges[i] <= edges[j] by {
        if i < j {
          assert edges[i] < edges[j];
        }
      }
      assert edges[j] < vmaxAdjust by {
        assert edges[j] < edges[nticks - 1];
      }
      CharPositionMonotone(edges[i], edges[j], vminAdjust, vmaxAdjust, npixel);
    }

    /** On an exactly factored linear axis a tick's column is that of its unfactored value. */
    lemma TickColumnOfEdge(i: int)
      requires Valid() && LinearTicksExact() && 0 <= i < nticks
      ensures TickColumn(i, true) == CharPosition(edges[i], vminAdjust, vmaxAdjust, npixel)
    {
      assert ExactAxis(edges, valuesD, E, vminAdjust, vmaxAdjust);
      assert ExactTicks(edges, valuesD, E);
    }
  }

  /** The exponent kept: a sentinel exponent is reset to 0. */
  function ResetSentinel(e: int): (kept: int)
    ensures kept == e <==> e != PlusIntfinity && e != MinusIntfinity
  {
    if e == PlusIntfinity || e == MinusIntfinity then 0 else e
  }

  /**
   * What init_linear makes of its ticks: the exponent (reset when it is a
   * sentinel), factored values that still give the ticks whenever the
   * exponent was kept, the rounded integers, and labels (decimal integers
   * for integer ticks, the caller's format otherwise).
   */
  ghost predicate Factored(ticksD: seq<real>, raw: int, integer: bool, E: int, valuesD: seq<real>, valuesI: seq<int>,
                           valuesStr: seq<string>, format: real -> string)
  {
    |valuesD| == |ticksD| && |valuesI| == |ticksD| && |valuesStr| == |ticksD| &&
    E == ResetSentinel(raw) &&
    forall j :: 0 <= j < |ticksD| ==>
      TickFactored(ticksD[j], integer, E, raw, valuesD[j], valuesI[j], valuesStr[j], format)
  }

  /** One tick of Factored. */
  ghost predicate TickFactored(tick: real, integer: bool, E: int, raw: int, d: real, i: int, str: string, format: real -> string)
  {
    (E == raw ==> Rescales(d, E, tick)) &&
    if integer then d == i as real && str == IntToString(i)
    else i == RoundHalfAway(tick) && str == format(d)
  }

  /** init_linear on values: the adjusted bounds, the ticks, and their factoring. */
  method LinearTicks(vmin: real, vmax: real, step: real, format: real -> string)
    returns (lo: real, hi: real, ticks: seq<real>, integer: bool, E: int,
             valuesD: seq<real>, valuesI: seq<int>, valuesStr: seq<string>)
    requires step > 0.0 && vmin < vmax
    ensures lo == AdjustedMin(vmin, step) && hi == AdjustedMax(vmax, step) && lo < hi
    ensures ticks == Edges(lo, hi, NumSteps(vmin, vmax, step))
    ensures |ticks| >= 2 && ticks[0] == lo && ticks[|ticks| - 1] == hi
    ensures integer == AllIntegral(ticks)
    ensures Factored(ticks, RawExponent(ticks), integer, E, valuesD, valuesI, valuesStr, format)
    ensures integer ==> DecimalLabels(valuesI, valuesStr)
    ensures E == RawExponent(ticks) ==> ExactAxis(ticks, valuesD, E, lo, hi)
    ensures Increasing(ticks)
  {
    var ticksI;
    lo, hi, ticks, ticksI := AdjustedTicks(vmin, vmax, step);
    integer, E, valuesD, valuesI, valuesStr := FactorTicks(ticks, ticksI, format);
    FactoredConsequences(ticks, RawExponent(ticks), integer, E, valuesD, valuesI, valuesStr, format);
  }

  /**
   * The first half of init_linear: the bounds snapped outward to the step,
   * the number of steps between them rounded, and the ticks collected.
   */
  method AdjustedTicks(vmin: real, vmax: real, step: real) returns (lo: real, hi: real, ticks: seq<real>, ticksI: seq<int>)
    requires step > 0.0 && vmin < vmax
    ensures lo == AdjustedMin(vmin, step) && hi == AdjustedMax(vmax, step) && lo <= vmin < vmax <= hi
    ensures ticks == Edges(lo, hi, NumSteps(vmin, vmax, step)) && ticksI == RoundAll(ticks)
    ensures |ticks| >= 2 && ticks[0] == lo && ticks[|ticks| - 1] == hi
    ensures Increasing(ticks)
  {
    lo := AdjustedMin(vmin, step);
    hi := AdjustedMax(vmax, step);
    var n := RoundHalfAway((hi - lo) / step);
    RoundedStepCount(vmin, vmax, step);
    ticks, ticksI := CollectTicks(lo, hi, n);
    EdgesShape(vmin, vmax, step);
    StepsIncreasing(ticks);
  }

  /** The second half of init_linear: factor, reset a sentinel exponent, label. */
  method FactorTicks(ticksD: seq<real>, ticksI: seq<int>, format: real -> string)
    returns (integer: bool, E: int, valuesD: seq<real>, valuesI: seq<int>, valuesStr: seq<string>)
    requires ticksI == RoundAll(ticksD)
    ensures integer == AllIntegral(ticksD)
    ensures Factored(ticksD, RawExponent(ticksD), integer, E, valuesD, valuesI, valuesStr, format)
  {
    integer := AllIntegral(ticksD);
    var e;
    if integer {
      e, valuesD, valuesI := FactorIntegral(ticksD, ticksI);
      valuesStr := IntLabels(valuesI);
      E := ResetSentinel(e);
      IntegralFactored(ticksD, e, E, valuesD, valuesI, valuesStr, format);
    } else {
      e, valuesD := FactorRealTicks(ticksD);
      valuesI := ticksI;
      valuesStr := RealLabels(valuesD, format);
      E := ResetSentinel(e);
      FractionalFactored(ticksD, e, E, valuesD, valuesI, valuesStr, format);
    }
  }

  lemma IntegralFactored(ticksD: seq<real>, e: int, E: int, valuesD: seq<real>, valuesI: seq<int>,
                         valuesStr: seq<string>, format: real -> string)
    requires E == ResetSentinel(e)
    requires |valuesD| == |ticksD| && |valuesI| == |ticksD| && |valuesStr| == |ticksD|
    requires forall j :: 0 <= j < |ticksD| ==> valuesD[j] == valuesI[j] as real && Rescales(valuesD[j], e, ticksD[j])
    requires forall j :: 0 <= j < |ticksD| ==> valuesStr[j] == IntToString(valuesI[j])
    ensures Factored(ticksD, e, true, E, valuesD, valuesI, valuesStr, format)
  {
    EveryIntegralTickFactored(ticksD, e, E, valuesD, valuesI, valuesStr, format);
  }

  lemma EveryIntegralTickFactored(ticksD: seq<real>, e: int, E: int, valuesD: seq<real>, valuesI: seq<int>,
                                  valuesStr: seq<string>, format: real -> string)
    requires E == ResetSentinel(e)
    requires |valuesD| == |ticksD| && |valuesI| == |ticksD| && |valuesStr| == |ticksD|
    requires forall j :: 0 <= j < |ticksD| ==> valuesD[j] == valuesI[j] as real && Rescales(valuesD[j], e, ticksD[j])
    requires forall j :: 0 <= j < |ticksD| ==> valuesStr[j] == IntToString(valuesI[j])
    ensures forall j :: 0 <= j < |ticksD| ==>
      TickFactored(ticksD[j], true, E, e, valuesD[j], valuesI[j], valuesStr[j], format)
  {
    forall j | 0 <= j < |ticksD|
      ensures TickFactored(ticksD[j], true, E, e, valuesD[j], valuesI[j], valuesStr[j], format)
    {
      IntegralTickFactored(ticksD[j], e, E, valuesD[j], valuesI[j], valuesStr[j], format);
    }
  }

  lemma IntegralTickFactored(tick: real, e: int, E: int, d: real, i: int, str: string, format: real -> string)
    requires E == ResetSentinel(e)
    requires d == i as real && Rescales(d, e, tick) && str == IntToString(i)
    ensures TickFactored(tick, true, E, e, d, i, str, format)
  {
  }

  lemma FractionalFactored(ticksD: seq<real>, e: int, E: int, valuesD: seq<real>, valuesI: seq<int>,
                           valuesStr: seq<string>, format: real -> string)
    requires E == ResetSentinel(e)
    requires |valuesD| == |ticksD| && valuesI == RoundAll(ticksD) && |valuesStr| == |ticksD|
    requires forall j :: 0 <= j < |ticksD| ==> Rescales(valuesD[j], e, ticksD[j])
    requires forall j :: 0 <= j < |ticksD| ==> valuesStr[j] == format(valuesD[j])
    ensures Factored(ticksD, e, false, E, valuesD, valuesI, valuesStr, format)
  {
    forall j | 0 <= j < |ticksD|
      ensures TickFactored(ticksD[j], false, E, e, valuesD[j], valuesI[j], valuesStr[j], format)
    {
    }
  }

  /** Every label is the decimal spelling of its integer value. */
  ghost predicate DecimalLabels(values: seq<int>, labels: seq<string>) {
    |labels| == |values| && forall j :: 0 <= j < |values| ==> labels[j] == IntToString(values[j])
  }

  /** Every real value is its integer counterpart. */
  ghost predicate RealsOf(reals: seq<real>, values: seq<int>) {
    |reals| == |values| && forall j :: 0 <= j < |values| ==> reals[j] == values[j] as real
  }

  /** The factored values times 10^E are the ticks. */
  ghost predicate ExactTicks(ticks: seq<real>, values: seq<real>, E: int) {
    |values| == |ticks| && forall j :: 0 <= j < |ticks| ==> Rescales(values[j], E, ticks[j])
  }

  /** Ticks from lo to hi, at least two, that the factored values give exactly. */
  ghost predicate ExactAxis(ticks: seq<real>, values: seq<real>, E: int, lo: real, hi: real) {
    |ticks| >= 2 && ticks[0] == lo && ticks[|ticks| - 1] == hi && ExactTicks(ticks, values, E)
  }

  /** Every tick lies strictly below every later one. */
  ghost predicate Increasing(ticks: seq<real>) {
    forall i, j :: 0 <= i < j < |ticks| ==> ticks[i] < ticks[j]
  }

  /** Ticks that each rise above the one before are increasing throughout. */
  lemma {:induction false} StepsIncreasing(ticks: seq<real>)
    requires forall i :: 0 <= i < |ticks| - 1 ==> ticks[i] < ticks[i + 1]
    ensures Increasing(ticks)
  {
    if |ticks| > 1 {
      var rest := ticks[1..];
      assert forall i :: 0 <= i < |rest| - 1 ==> rest[i] < rest[i + 1] by {
        forall i | 0 <= i < |rest| - 1 ensures rest[i] < rest[i + 1] {
          assert rest[i] == ticks[i + 1] && rest[i + 1] == ticks[i + 2];
        }
      }
      StepsIncreasing(rest);
      forall i, j | 0 <= i < j < |ticks| ensures ticks[i] < ticks[j] {
        if i > 0 {
          assert ticks[i] == rest[i - 1] && ticks[j] == rest[j - 1];
        } else if j > 1 {
          assert ticks[1] == rest[0] && ticks[j] == rest[j - 1];
        }
      }
    }
  }

  /** What Valid and LinearTicksExact need from Factored. */
  lemma FactoredConsequences(ticksD: seq<real>, raw: int, integer: bool, E: int, valuesD: seq<real>, valuesI: seq<int>,
                             valuesStr: seq<string>, format: real -> string)
    requires Factored(ticksD, raw, integer, E, valuesD, valuesI, valuesStr, format)
    ensures integer ==> DecimalLabels(valuesI, valuesStr)
    ensures E == raw ==> ExactTicks(ticksD, valuesD, E)
  {
    forall j | 0 <= j < |ticksD|
      ensures integer ==> valuesStr[j] == IntToString(valuesI[j])
      ensures E == raw ==> Rescales(valuesD[j], E, ticksD[j])
    {
      TickConsequences(ticksD[j], integer, E, raw, valuesD[j], valuesI[j], valuesStr[j], format);
    }
  }

  /** FactoredConsequences for one tick. */
  lemma TickConsequences(tick: real, integer: bool, E: int, raw: int, d: real, i: int, str: string, format: real -> string)
    requires TickFactored(tick, integer, E, raw, d, i, str, format)
    ensures integer ==> str == IntToString(i)
    ensures E == raw ==> Rescales(d, E, tick)
  {
  }

  /** Integer ticks: the shared power of ten comes out of the integers, and the reals follow when it is at least 3. */
  method FactorIntegral(ticksD: seq<real>, ticksI: seq<int>) returns (e: nat, valuesD: seq<real>, valuesI: seq<int>)
    requires AllIntegral(ticksD) && ticksI == RoundAll(ticksD)
    ensures e == RawExponent(ticksD)
    ensures |valuesD| == |ticksD| && |valuesI| == |ticksD|
    ensures forall j :: 0 <= j < |ticksD| ==>
      valuesD[j] == valuesI[j] as real && valuesI[j] * Pow10(e) == ticksI[j] && Rescales(valuesD[j], e, ticksD[j])
  {
    var factored;
    e, factored := FactorIntegerTicks(ticksI);
    valuesI := factored;
    if e >= 3 {
      valuesD := ToReals(factored);
    } else {
      valuesD := ticksD;
    }
    RoundAllIntegral(ticksD);
    IntegerTicksExact(ticksD, ticksI, e, factored, valuesD);
  }

  /** The tick loop of init_logarithmic: every decade from first to last, as real, integer and label. */
  method DecadeTicks(first: int, last: int) returns (ds: seq<real>, ints: seq<int>, strs: seq<string>)
    ensures ints == Decades(first, last)
    ensures RealsOf(ds, ints) && DecimalLabels(ints, strs)
  {
    ds, ints, strs := [], [], [];
    var mag := first;
    while mag <= last
      invariant first <= mag && (first <= last + 1 ==> mag <= last + 1) && (last < first ==> mag == first)
      invariant ints == Decades(first, mag - 1)
      invariant |ds| == |ints| && |strs| == |ints|
      invariant forall j :: 0 <= j < |ints| ==> ds[j] == ints[j] as real && strs[j] == IntToString(ints[j])
    {
      assert Decades(first, mag) == ints + [mag];
      ds := ds + [mag as real];
      ints := ints + [mag];
      strs := strs + [IntToString(mag)];
      mag := mag + 1;
    }
    if last < first {
      assert |Decades(first, last)| == 0;
    }
  }

  /** The tick loop: GetBinLowEdge(i+1) and its lround for i = 0..n. */
  method CollectTicks(lo: real, hi: real, n: int) returns (ticksD: seq<real>, ticksI: seq<int>)
    requires n >= 1
    ensures ticksD == Edges(lo, hi, n) && ticksI == RoundAll(ticksD)
  {
    ticksD := [];
    ticksI := [];
    var i := 0;
    while i <= n
      invariant 0 <= i <= n + 1 && |ticksD| == i && |ticksI| == i
      invariant forall j :: 0 <= j < i ==> ticksD[j] == LowEdge(lo, hi, n, j) && ticksI[j] == RoundHalfAway(ticksD[j])
    {
      var tickPos := LowEdge(lo, hi, n, i);
      ticksD := ticksD + [tickPos];
      ticksI := ticksI + [RoundHalfAway(tickPos)];
      i := i + 1;
    }
  }

  /** values_d takes the factored integer values. */
  method ToReals(values: seq<int>) returns (reals: seq<real>)
    ensures |reals| == |values| && forall j :: 0 <= j < |values| ==> reals[j] == values[j] as real
  {
    reals := [];
    var j := 0;
    while j < |values|
      invariant 0 <= j <= |values| && |reals| == j
      invariant forall i :: 0 <= i < j ==> reals[i] == values[i] as real
    {
      reals := reals + [values[j] as real];
      j := j + 1;
    }
  }

  /** Factoring integer ticks keeps their values: the reals agree with the integers, and times 10^e they are the ticks. */
  lemma IntegerTicksExact(ticksD: seq<real>, ticksI: seq<int>, e: nat, factored: seq<int>, valuesD: seq<real>)
    requires |ticksI| == |ticksD| && forall j :: 0 <= j < |ticksD| ==> ticksI[j] as real == ticksD[j]
    requires |factored| == |ticksI| && forall j :: 0 <= j < |ticksI| ==> factored[j] * Pow10(e) == ticksI[j]
    requires e >= 3 ==> |valuesD| == |factored| && forall j :: 0 <= j < |factored| ==> valuesD[j] == factored[j] as real
    requires e < 3 ==> valuesD == ticksD && e == 0
    ensures |valuesD| == |ticksD|
    ensures forall j :: 0 <= j < |ticksD| ==> valuesD[j] == factored[j] as real
    ensures forall j :: 0 <= j < |ticksD| ==> Rescales(valuesD[j], e, ticksD[j])
  {
    forall j | 0 <= j < |ticksD|
      ensures valuesD[j] == factored[j] as real && Rescales(valuesD[j], e, ticksD[j])
    {
      IntegerTickExact(ticksD[j], ticksI[j], e, factored[j], valuesD[j]);
    }
  }

  /** IntegerTicksExact for one tick. */
  lemma IntegerTickExact(tick: real, rounded: int, e: nat, f: int, d: real)
    requires rounded as real == tick
    requires f * Pow10(e) == rounded
    requires e >= 3 ==> d == f as real
    requires e < 3 ==> d == tick && e == 0
    ensures d == f as real && Rescales(d, e, tick)
  {
    var p := Pow10(e);
    assert Pow10R(e) == p as real;
    if e < 3 {
      assert p == 1;
    }
    ProductAsReal(f, p);
  }

  /** An integer product read as a real is the product of the reals. */
  lemma ProductAsReal(a: int, b: int)
    ensures (a * b) as real == a as real * b as real
  {
  }

  /** Rounding whole ticks gives them back. */
  lemma RoundAllIntegral(ticksD: seq<real>)
    requires AllIntegral(ticksD)
    ensures forall j :: 0 <= j < |ticksD| ==> RoundAll(ticksD)[j] as real == ticksD[j]
  {
    forall j | 0 <= j < |ticksD|
      ensures RoundAll(ticksD)[j] as real == ticksD[j]
    {
      RoundIntegral(ticksD[j]);
    }
  }

  /**
   * The constructor: the range check, then the ticks of the chosen scale,
   * then the closing assertions (an assertion that fails aborts).
   */
  method NewAxisTicks(min: real, max: real, scale: Scale, format: real -> string) returns (r: Result<AxisTicks, AxisError>)
    requires scale.Linear? ==> scale.step > 0.0
    ensures min > max ==> r == Failure(MinGreaterThanMax)
    ensures r.Success? ==> fresh(r.value) && r.value.Valid() && r.value.logarithmic == scale.Logarithmic?
    ensures min <= max && scale.Linear? ==> r.Success?
    ensures min <= max && scale.Logarithmic? ==>
      (r.Success? <==> scale.minMag <= scale.maxMag && scale.logMin < scale.logMax)
  {
    if min > max {
      return Failure(MinGreaterThanMax);
    }
    var t := new AxisTicks(min, max);
    match scale {
      case Linear(step) =>
        t.InitLinear(step, format);
      case Logarithmic(minMag, maxMag, logMin, logMax) =>
        t.InitLogarithmic(minMag, maxMag, logMin, logMax);
        LogDecadesShape(minMag, maxMag);
    }
    if |t.valuesD| == t.nticks && |t.valuesI| == t.nticks && |t.valuesStr| == t.nticks &&
       t.vmax > t.vmin && t.vmaxAdjust > t.vminAdjust {
      r := Success(t);
    } else {
      r := Failure(AssertionFailure);
    }
  }
}
