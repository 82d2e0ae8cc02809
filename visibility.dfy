/**
 * The visibility of a star in process_image: where log10 of its response lies
 * between a lower and an upper limit line (both linear in the magnitude),
 * clamped to [0, 1], and forced to 0 where the upper line drops below the lower one.
 */
module Visibility {
  import opened Wrappers
  import opened Ratios

  /** A limit line `vmag * slope + intercept` (the two numbers of visibleupperlimit / visiblelowerlimit). */
  datatype Line = Line(slope: real, intercept: real)

  /** The line's value at magnitude `m`. */
  function At(l: Line, m: real): real {
    m * l.slope + l.intercept
  }

  /** `np.minimum(1, np.maximum(0, q))` for a finite `q`. */
  function Clamp01(q: real): (c: real)
    ensures 0.0 <= c <= 1.0
    ensures q <= 0.0 ==> c == 0.0
    ensures q >= 1.0 ==> c == 1.0
    ensures 0.0 <= q <= 1.0 ==> c == q
  {
    if q < 0.0 then 0.0 else if q > 1.0 then 1.0 else q
  }

  /** The only error: Python float division by zero in the forced-zero magnitude. */
  datatype VisibilityError = ZeroDivisionError

  /**
   * The clamp as numpy evaluates it, None standing for NaN: a zero denominator
   * gives +inf, -inf or NaN, which the clamp turns into 1, 0 or NaN.
   */
  function ClampedRatio(num: real, den: real): Option<real> {
    if den == 0.0 then (if num > 0.0 then Some(1.0) else if num < 0.0 then Some(0.0) else None)
    else Some(Clamp01(num / den))
  }

  /** The magnitude where the two lines cross, as the code computes it (Python floats). */
  function Crossing(upper: Line, lower: Line): Result<real, VisibilityError> {
    if upper.slope == lower.slope then Failure(ZeroDivisionError)
    else Success((lower.intercept - upper.intercept) / (upper.slope - lower.slope))
  }

  /**
   * The visibility as written: clamp, then set 0 for every magnitude beyond the
   * crossing. The code's comment states the intent as "where upperLimit < lowerLimit".
   */
  function VisibilityAsWritten(logResponse: real, vmag: real, upper: Line, lower: Line): Result<Option<real>, VisibilityError> {
    match Crossing(upper, lower)
    case Failure(e) => Failure(e)
    case Success(c) =>
      if vmag > c then Success(Some(0.0))
      else Success(ClampedRatio(logResponse - At(lower, vmag), At(upper, vmag) - At(lower, vmag)))
  }

  /**
   * The visibility as intended: 0 where the upper line is not above the lower
   * one, otherwise the clamped position of `logResponse` between the two lines.
   */
  function StarVisibility(logResponse: real, vmag: real, upper: Line, lower: Line): real {
    var hi, lo := At(upper, vmag), At(lower, vmag);
    if hi <= lo then 0.0 else Clamp01((logResponse - lo) / (hi - lo))
  }

  // ---------------------------------------------------------------------------
  // Properties of the intended visibility

  /**
   * The visibility lies in [0, 1]; it is 1 exactly when the lines are in order
   * and the response reaches the upper line, and 0 exactly when the lines are
   * crossed or the response does not exceed the lower line.
   */
  lemma VisibilityRange(logResponse: real, vmag: real, upper: Line, lower: Line)
    ensures var v, hi, lo := StarVisibility(logResponse, vmag, upper, lower), At(upper, vmag), At(lower, vmag);
            && 0.0 <= v <= 1.0
            && (v == 1.0 <==> lo < hi && hi <= logResponse)
            && (v == 0.0 <==> hi <= lo || logResponse <= lo)
            && (lo < logResponse < hi ==> v == (logResponse - lo) / (hi - lo))
  {
    var hi, lo := At(upper, vmag), At(lower, vmag);
    if lo < hi {
      RatioBounds(logResponse - lo, hi - lo);
    }
  }

  /** A stronger response is never less visible. */
  lemma VisibilityMonotone(r1: real, r2: real, vmag: real, upper: Line, lower: Line)
    requires r1 <= r2
    ensures StarVisibility(r1, vmag, upper, lower) <= StarVisibility(r2, vmag, upper, lower)
  {
    var hi, lo := At(upper, vmag), At(lower, vmag);
    if lo < hi {
      var d := hi - lo;
      assert (r1 - lo) / d <= (r2 - lo) / d by {
        assert (r2 - lo) / d - (r1 - lo) / d == (r2 - r1) / d;
      }
    }
  }

  /**
   * Where the upper line has the smaller slope, the code's forced-zero test
   * picks exactly the magnitudes where the lines are crossed, and the code
   * agrees with the intended visibility at every magnitude but the crossing.
   */
  lemma AsWrittenAgreesForFallingUpper(logResponse: real, vmag: real, upper: Line, lower: Line)
    requires upper.slope < lower.slope
    requires vmag != Crossing(upper, lower).value
    ensures VisibilityAsWritten(logResponse, vmag, upper, lower) == Success(Some(StarVisibility(logResponse, vmag, upper, lower)))
  {
    var c := Crossing(upper, lower).value;
    var a := upper.slope - lower.slope;
    assert c * a == lower.intercept - upper.intercept;
    assert At(upper, vmag) - At(lower, vmag) == a * (vmag - c);
    if vmag > c {
      assert a * (vmag - c) < 0.0;
    } else {
      assert a * (vmag - c) > 0.0;
    }
  }

  /**
   * The code's clamp keeps every visibility it produces in [0, 1]; NaN appears
   * only where the two lines meet and the response sits exactly on them.
   */
  lemma AsWrittenInUnit(logResponse: real, vmag: real, upper: Line, lower: Line)
    requires upper.slope != lower.slope
    ensures match VisibilityAsWritten(logResponse, vmag, upper, lower)
            case Success(Some(v)) => 0.0 <= v <= 1.0
            case Success(None) => At(upper, vmag) == At(lower, vmag) == logResponse
            case Failure(_) => false
  {
  }

  /** Equal slopes make the forced-zero magnitude a division by zero, which aborts the image. */
  lemma AsWrittenParallelLinesRaise(logResponse: real, vmag: real, upper: Line, lower: Line)
    requires upper.slope == lower.slope
    ensures VisibilityAsWritten(logResponse, vmag, upper, lower) == Failure(ZeroDivisionError)
  {
  }

  /**
   * Where the upper line has the larger slope the code zeroes the wrong side:
   * with upper line `m`, lower line 0, at magnitude 1 the upper line is above the
   * lower one and a log-response of 0.5 lies halfway, yet the code reports 0.
   */
  lemma AsWrittenZeroesVisibleStar()
    ensures At(Line(1.0, 0.0), 1.0) > At(Line(0.0, 0.0), 1.0)
    ensures VisibilityAsWritten(0.5, 1.0, Line(1.0, 0.0), Line(0.0, 0.0)) == Success(Some(0.0))
    ensures StarVisibility(0.5, 1.0, Line(1.0, 0.0), Line(0.0, 0.0)) == 0.5
  {
    var upper, lower := Line(1.0, 0.0), Line(0.0, 0.0);
    assert At(upper, 1.0) == 1.0 && At(lower, 1.0) == 0.0;
    assert Crossing(upper, lower) == Success(0.0);
    assert (0.5 - 0.0) / (1.0 - 0.0) == 0.5;
  }

  /**
   * The other side of the same slip: with the upper line below the lower one at
   * magnitude 0 (upper `m`, lower `1`), the crossing is at 1 and magnitude 0 is not
   * beyond it, so the code keeps the clamp, which turns the two negative
   * differences into a visibility of 1 where the intended value is 0.
   */
  lemma AsWrittenRewardsNoVisibility()
    ensures At(Line(1.0, 0.0), 0.0) < At(Line(0.0, 1.0), 0.0)
    ensures VisibilityAsWritten(0.0, 0.0, Line(1.0, 0.0), Line(0.0, 1.0)) == Success(Some(1.0))
    ensures StarVisibility(0.0, 0.0, Line(1.0, 0.0), Line(0.0, 1.0)) == 0.0
  {
    var upper, lower := Line(1.0, 0.0), Line(0.0, 1.0);
    assert At(upper, 0.0) == 0.0 && At(lower, 0.0) == 1.0;
    assert Crossing(upper, lower) == Success(1.0);
    assert (0.0 - 1.0) / (0.0 - 1.0) == 1.0;
  }
}
