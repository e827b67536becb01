/**
 * The earlier axis tick generator: linear ticks only, about ten of them,
 * no range check and no widening of an empty range, and no reset of the
 * sentinel exponents.  The step snapped from (max - min) / 10 is an input,
 * as in the current generator.
 */
module EarlyAxis {
  import opened CppLib
  import opened Axis

  /** The fixed approximate number of ticks the snapped step is taken from. */
  const ApproxTicks := 10

  /**
   * The constructor's computation on values: the adjusted bounds, the ticks,
   * and their factoring.  With no sentinel reset the exponent is always the
   * one the ticks were divided by, so the factored values give back the
   * ticks exactly.
   */
  method EarlyLinearTicks(vmin: real, vmax: real, step: real, format: real -> string)
    returns (lo: real, hi: real, ticks: seq<real>, integer: bool, E: int,
             valuesD: seq<real>, valuesI: seq<int>, valuesStr: seq<string>)
    requires step > 0.0 && vmin < vmax
    ensures lo == AdjustedMin(vmin, step) && hi == AdjustedMax(vmax, step) && lo <= vmin && vmax <= hi
    ensures ticks == Edges(lo, hi, NumSteps(vmin, vmax, step))
    ensures integer == AllIntegral(ticks)
    ensures E == RawExponent(ticks)
    ensures ExactAxis(ticks, valuesD, E, lo, hi)
    ensures |valuesI| == |ticks| && |valuesStr| == |ticks|
    ensures integer ==> (DecimalLabels(valuesI, valuesStr) &&
                         forall j :: 0 <= j < |ticks| ==> valuesD[j] == valuesI[j] as real)
    ensures !integer ==> (valuesI == RoundAll(ticks) &&
                          forall j :: 0 <= j < |ticks| ==> valuesStr[j] == format(valuesD[j]))
  {
    var ticksI;
    lo, hi, ticks, ticksI := AdjustedTicks(vmin, vmax, step);
    integer, E, valuesD, valuesI, valuesStr := EarlyFactorTicks(ticks, ticksI, format);
  }

  /** The factoring half of the constructor: the exponent is kept whatever it is. */
  method EarlyFactorTicks(ticksD: seq<real>, ticksI: seq<int>, format: real -> string)
    returns (integer: bool, E: int, valuesD: seq<real>, valuesI: seq<int>, valuesStr: seq<string>)
    requires ticksI == RoundAll(ticksD)
    ensures integer == AllIntegral(ticksD) && E == RawExponent(ticksD)
    ensures ExactTicks(ticksD, valuesD, E)
    ensures |valuesI| == |ticksD| && |valuesStr| == |ticksD|
    ensures integer ==> (DecimalLabels(valuesI, valuesStr) &&
                         forall j :: 0 <= j < |ticksD| ==> valuesD[j] == valuesI[j] as real)
    ensures !integer ==> (valuesI == RoundAll(ticksD) &&
                          forall j :: 0 <= j < |ticksD| ==> valuesStr[j] == format(valuesD[j]))
  {
    integer := AllIntegral(ticksD);
    if integer {
      var e;
      e, valuesD, valuesI := FactorIntegral(ticksD, ticksI);
      E := e;
      valuesStr := IntLabels(valuesI);
      assert ExactTicks(ticksD, valuesD, E);
    } else {
      E, valuesD := FactorRealTicks(ticksD);
      valuesI := ticksI;
      valuesStr := RealLabels(valuesD, format);
      assert ExactTicks(ticksD, valuesD, E);
    }
  }

  class AxisTicks {
    var vmin: real
    var vmax: real
    var vminAdjust: real
    var vmaxAdjust: real
    var nticks: int
    var integer: bool
    var E: int
    var valuesD: seq<real>
    var valuesI: seq<int>
    var valuesStr: seq<string>
    /** The tick values before a power of ten is factored out of them. */
    ghost var edges: seq<real>

    /** The closing assertions, the bounds around the range, and exact ticks. */
    ghost predicate Valid()
      reads this
    {
      |valuesD| == nticks && |valuesI| == nticks && |valuesStr| == nticks &&
      vminAdjust <= vmin < vmax <= vmaxAdjust &&
      |edges| == nticks && ExactAxis(edges, valuesD, E, vminAdjust, vmaxAdjust)
    }

    /** The constructor, from the snapped step; the range must not be empty. */
    constructor(min: real, max: real, step: real, format: real -> string)
      requires min < max && step > 0.0
      ensures Valid()
      ensures vmin == min && vmax == max
      ensures vminAdjust == AdjustedMin(min, step) && vmaxAdjust == AdjustedMax(max, step)
      ensures edges == Edges(vminAdjust, vmaxAdjust, NumSteps(min, max, step))
      ensures integer == AllIntegral(edges) && E == RawExponent(edges)
      ensures integer ==> DecimalLabels(valuesI, valuesStr)
    {
      vmin := min;
      vmax := max;
      var lo, hi, ticks, isInt, e, ds, ints, strs := EarlyLinearTicks(min, max, step, format);
      vminAdjust, vmaxAdjust := lo, hi;
      edges := ticks;
      nticks := |ints|;
      integer, E := isInt, e;
      valuesD, valuesI, valuesStr := ds, ints, strs;
    }

    function Min(): (m: real)
      reads this
      requires Valid()
      ensures m < Max()
    {
      vmin
    }

    function Max(): (m: real)
      reads this
      requires Valid()
      ensures m <= MaxAdjusted()
    {
      vmax
    }

    /** min_adjusted: at or below the minimum, and the first tick. */
    function MinAdjusted(): (m: real)
      reads this
      requires Valid()
      ensures m <= Min() && m == edges[0]
    {
      vminAdjust
    }

    /** max_adjusted: at or above the maximum, and the last tick. */
    function MaxAdjusted(): (m: real)
      reads this
      requires Valid()
      ensures m >= vmax && m == edges[nticks - 1]
    {
      vmaxAdjust
    }
  }
}
