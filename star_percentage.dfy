/**
 * calc_star_percentage: the share of visible stars among the stars within a
 * range of a position, by a hard limit or as a (brightness-weighted) mean.
 */
module StarPercentage {
  import opened Ratios
  import Visibility
  import Ordering

  /** The columns of the star table the statistic reads. */
  datatype Star = Star(x: real, y: real, vmag: real, visible: real)

  /** The position the range is measured from, in pixels (its sky position enters through `sep`). */
  datatype Position = Position(x: real, y: real)

  /** `unit='pixel'` or `unit='deg'`; any other unit raises and is not representable. */
  datatype Unit = Pixel | Degree

  /**
   * isInRange for one star: pixel distance at most `rng`, or angular distance
   * `sep(s)` (degrees, the haversine of the position and the star) at most `rng`.
   */
  predicate InRange(pos: Position, s: Star, rng: real, unit: Unit, sep: Star -> real) {
    match unit
    case Pixel => (pos.x - s.x) * (pos.x - s.x) + (pos.y - s.y) * (pos.y - s.y) <= rng * rng
    case Degree => sep(s) <= rng
  }

  /** The stars in range, in table order; a negative range takes every star. */
  function StarsInRange(stars: seq<Star>, pos: Position, rng: real, unit: Unit, sep: Star -> real): (r: seq<Star>)
    ensures forall s :: s in r <==> s in stars && (rng < 0.0 || InRange(pos, s, rng, unit, sep))
    ensures forall s :: multiset(r)[s] == if rng < 0.0 || InRange(pos, s, rng, unit, sep) then multiset(stars)[s] else 0
    ensures Ordering.Sublist(r, stars)
    ensures |r| <= |stars|
  {
    if rng < 0.0 then
      Ordering.SublistReflexive(stars);
      stars
    else if stars == [] then []
    else
      assert stars == [stars[0]] + stars[1..];
      var rest := StarsInRange(stars[1..], pos, rng, unit, sep);
      if InRange(pos, stars[0], rng, unit, sep) then
        assert ([stars[0]] + rest)[1..] == rest;
        [stars[0]] + rest
      else rest
  }

  /** Number of stars with `visible >= lim`. */
  function CountVisible(s: seq<Star>, lim: real): nat {
    if s == [] then 0 else (if s[0].visible >= lim then 1 else 0) + CountVisible(s[1..], lim)
  }

  /** Sum of the weights `flux(vmag)` of the stars with `visible >= lim`. */
  function WeightVisible(s: seq<Star>, lim: real, flux: real -> real): real {
    if s == [] then 0.0 else (if s[0].visible >= lim then flux(s[0].vmag) else 0.0) + WeightVisible(s[1..], lim, flux)
  }

  /** Sum of the weights of the stars with `visible < lim`. */
  function WeightHidden(s: seq<Star>, lim: real, flux: real -> real): real {
    if s == [] then 0.0 else (if s[0].visible < lim then flux(s[0].vmag) else 0.0) + WeightHidden(s[1..], lim, flux)
  }

  /** Sum of all weights. */
  function Weight(s: seq<Star>, flux: real -> real): real {
    if s == [] then 0.0 else flux(s[0].vmag) + Weight(s[1..], flux)
  }

  /** Sum of `visible * flux(vmag)`. */
  function WeightedVisibility(s: seq<Star>, flux: real -> real): real {
    if s == [] then 0.0 else s[0].visible * flux(s[0].vmag) + WeightedVisibility(s[1..], flux)
  }

  /** Sum of `visible`. */
  function VisibilitySum(s: seq<Star>): real {
    if s == [] then 0.0 else s[0].visible + VisibilitySum(s[1..])
  }

  /** Every weight is positive, as `(100 ** (1/5)) ** -vmag` is. */
  ghost predicate PositiveFlux(flux: real -> real) {
    forall m :: flux(m) > 0.0
  }

  /**
   * calc_star_percentage; `flux(vmag)` stands for `(100 ** (1/5)) ** -vmag`.
   * -1 when no star is in range; with `lim >= 0` the (weighted) share of stars
   * with `visible >= lim`; with `lim < 0` the (weighted) mean visibility.
   */
  function CalcStarPercentage(pos: Position, stars: seq<Star>, rng: real, lim: real, unit: Unit, weight: bool,
                              sep: Star -> real, flux: real -> real): real
    requires weight ==> PositiveFlux(flux)
  {
    var c := StarsInRange(stars, pos, rng, unit, sep);
    if c == [] then -1.0
    else if lim >= 0.0 then
      if weight then
        var vis, notVis := WeightVisible(c, lim, flux), WeightHidden(c, lim, flux);
        WeightSplit(c, lim, flux);
        WeightPositive(c, flux);
        vis / (vis + notVis)
      else CountVisible(c, lim) as real / |c| as real
    else if weight then
      WeightPositive(c, flux);
      WeightedVisibility(c, flux) / Weight(c, flux)
    else VisibilitySum(c) / |c| as real
  }

  // ---------------------------------------------------------------------------
  // Sums

  lemma {:induction false} WeightSplit(s: seq<Star>, lim: real, flux: real -> real)
    ensures WeightVisible(s, lim, flux) + WeightHidden(s, lim, flux) == Weight(s, flux)
  {
    if s != [] {
      WeightSplit(s[1..], lim, flux);
    }
  }

  lemma {:induction false} WeightPositive(s: seq<Star>, flux: real -> real)
    requires PositiveFlux(flux)
    ensures s != [] ==> Weight(s, flux) > 0.0
    ensures 0.0 <= WeightHidden(s, 0.0, flux) && forall lim :: 0.0 <= WeightVisible(s, lim, flux) && 0.0 <= WeightHidden(s, lim, flux)
  {
    if s != [] {
      WeightPositive(s[1..], flux);
    }
  }

  lemma {:induction false} CountBounds(s: seq<Star>, lim: real)
    ensures CountVisible(s, lim) <= |s|
    ensures CountVisible(s, lim) == |s| <==> forall k :: 0 <= k < |s| ==> s[k].visible >= lim
    ensures CountVisible(s, lim) == 0 <==> forall k :: 0 <= k < |s| ==> s[k].visible < lim
  {
    if s != [] {
      CountBounds(s[1..], lim);
      assert forall k :: 1 <= k < |s| ==> s[k] == s[1..][k - 1];
    }
  }

  lemma {:induction false} WeightedBounds(s: seq<Star>, flux: real -> real)
    requires PositiveFlux(flux) && forall k :: 0 <= k < |s| ==> 0.0 <= s[k].visible <= 1.0
    ensures 0.0 <= WeightedVisibility(s, flux) <= Weight(s, flux)
  {
    if s != [] {
      var t := s[1..];
      forall k | 0 <= k < |t| ensures 0.0 <= t[k].visible <= 1.0 {
        assert t[k] == s[k + 1];
      }
      WeightedBounds(t, flux);
      WeightedHead(s, flux);
    }
  }

  /** The first star adds between nothing and its whole weight to the weighted visibility. */
  lemma WeightedHead(s: seq<Star>, flux: real -> real)
    requires s != [] && 0.0 <= s[0].visible <= 1.0 && flux(s[0].vmag) > 0.0
    ensures 0.0 <= WeightedVisibility(s, flux) - WeightedVisibility(s[1..], flux) <= Weight(s, flux) - Weight(s[1..], flux)
  {
    var v, f := s[0].visible, flux(s[0].vmag);
    ScaledBetween(v, f);
    assert WeightedVisibility(s, flux) == v * f + WeightedVisibility(s[1..], flux);
    assert Weight(s, flux) == f + Weight(s[1..], flux);
  }

  lemma {:induction false} VisibilityBounds(s: seq<Star>)
    requires forall k :: 0 <= k < |s| ==> 0.0 <= s[k].visible <= 1.0
    ensures 0.0 <= VisibilitySum(s) <= |s| as real
  {
    if s != [] {
      assert forall k :: 0 <= k < |s| - 1 ==> s[1..][k] == s[k + 1];
      VisibilityBounds(s[1..]);
    }
  }

  lemma {:induction false} HiddenZero(s: seq<Star>, lim: real, flux: real -> real)
    requires PositiveFlux(flux)
    ensures WeightHidden(s, lim, flux) == 0.0 <==> forall k :: 0 <= k < |s| ==> s[k].visible >= lim
    ensures WeightVisible(s, lim, flux) == 0.0 <==> forall k :: 0 <= k < |s| ==> s[k].visible < lim
  {
    if s != [] {
      HiddenZero(s[1..], lim, flux);
      WeightPositive(s[1..], flux);
      assert forall k :: 1 <= k < |s| ==> s[k] == s[1..][k - 1];
    }
  }

  lemma {:induction false} CountAntitone(s: seq<Star>, lim1: real, lim2: real, flux: real -> real)
    requires lim1 <= lim2
    ensures CountVisible(s, lim2) <= CountVisible(s, lim1)
    ensures PositiveFlux(flux) ==> WeightVisible(s, lim2, flux) <= WeightVisible(s, lim1, flux)
  {
    if s != [] {
      CountAntitone(s[1..], lim1, lim2, flux);
    }
  }

  lemma ConstantFluxSums(s: seq<Star>, lim: real, flux: real -> real, w: real)
    requires forall m :: flux(m) == w
    ensures WeightVisible(s, lim, flux) == w * CountVisible(s, lim) as real
    ensures Weight(s, flux) == w * |s| as real
    ensures WeightedVisibility(s, flux) == w * VisibilitySum(s)
  {
    ConstantFluxVisible(s, lim, flux, w);
    ConstantFluxWeight(s, flux, w);
    ConstantFluxMean(s, flux, w);
  }

  lemma {:induction false} ConstantFluxVisible(s: seq<Star>, lim: real, flux: real -> real, w: real)
    requires forall m :: flux(m) == w
    ensures WeightVisible(s, lim, flux) == w * CountVisible(s, lim) as real
  {
    if s != [] {
      var t := s[1..];
      ConstantFluxVisible(t, lim, flux, w);
      assert flux(s[0].vmag) == w;
      if s[0].visible >= lim {
        assert WeightVisible(s, lim, flux) == w + WeightVisible(t, lim, flux);
        assert CountVisible(s, lim) as real == 1.0 + CountVisible(t, lim) as real;
        Distribute(w, 1.0, CountVisible(t, lim) as real);
      } else {
        assert WeightVisible(s, lim, flux) == WeightVisible(t, lim, flux);
        assert CountVisible(s, lim) == CountVisible(t, lim);
      }
    }
  }

  lemma {:induction false} ConstantFluxWeight(s: seq<Star>, flux: real -> real, w: real)
    requires forall m :: flux(m) == w
    ensures Weight(s, flux) == w * |s| as real
  {
    if s != [] {
      var t := s[1..];
      ConstantFluxWeight(t, flux, w);
      assert flux(s[0].vmag) == w;
      assert Weight(s, flux) == w + Weight(t, flux);
      assert |s| as real == 1.0 + |t| as real;
      Distribute(w, 1.0, |t| as real);
    }
  }

  lemma {:induction false} ConstantFluxMean(s: seq<Star>, flux: real -> real, w: real)
    requires forall m :: flux(m) == w
    ensures WeightedVisibility(s, flux) == w * VisibilitySum(s)
  {
    if s != [] {
      var t := s[1..];
      ConstantFluxMean(t, flux, w);
      var v := s[0].visible;
      assert flux(s[0].vmag) == w;
      assert WeightedVisibility(s, flux) == v * w + WeightedVisibility(t, flux);
      assert VisibilitySum(s) == v + VisibilitySum(t);
      Distribute(w, v, VisibilitySum(t));
    }
  }

  lemma Distribute(w: real, a: real, b: real)
    ensures w * (a + b) == w * a + w * b
    ensures a * w == w * a
  {
  }

  // ---------------------------------------------------------------------------
  // What the statistic promises

  /**
   * The result is exactly -1 when no star is in range; otherwise it lies in
   * [0, 1], with the mean branches relying on visibilities in [0, 1].
   */
  lemma PercentageRange(pos: Position, stars: seq<Star>, rng: real, lim: real, unit: Unit, weight: bool,
                        sep: Star -> real, flux: real -> real)
    requires weight ==> PositiveFlux(flux)
    requires lim < 0.0 ==> forall k :: 0 <= k < |stars| ==> 0.0 <= stars[k].visible <= 1.0
    ensures var p, c := CalcStarPercentage(pos, stars, rng, lim, unit, weight, sep, flux), StarsInRange(stars, pos, rng, unit, sep);
            && (p == -1.0 <==> c == [])
            && (c != [] ==> 0.0 <= p <= 1.0)
  {
    var c := StarsInRange(stars, pos, rng, unit, sep);
    if c != [] {
      if lim >= 0.0 {
        if weight {
          WeightSplit(c, lim, flux);
          WeightPositive(c, flux);
          PartOfWhole(WeightVisible(c, lim, flux), Weight(c, flux));
        } else {
          CountBounds(c, lim);
          PartOfWhole(CountVisible(c, lim) as real, |c| as real);
        }
      } else {
        forall k | 0 <= k < |c| ensures 0.0 <= c[k].visible <= 1.0 {
          assert c[k] in stars;
        }
        if weight {
          WeightPositive(c, flux);
          WeightedBounds(c, flux);
          PartOfWhole(WeightedVisibility(c, flux), Weight(c, flux));
        } else {
          VisibilityBounds(c);
          PartOfWhole(VisibilitySum(c), |c| as real);
        }
      }
    }
  }

  /**
   * With a limit, the share is 1 exactly when every star in range reaches the
   * limit and 0 exactly when none does, weighted or not.
   */
  lemma PassRateExtremes(pos: Position, stars: seq<Star>, rng: real, lim: real, unit: Unit, weight: bool,
                         sep: Star -> real, flux: real -> real)
    requires weight ==> PositiveFlux(flux)
    requires lim >= 0.0
    ensures var p, c := CalcStarPercentage(pos, stars, rng, lim, unit, weight, sep, flux), StarsInRange(stars, pos, rng, unit, sep);
            c != [] ==>
              && (p == 1.0 <==> forall k :: 0 <= k < |c| ==> c[k].visible >= lim)
              && (p == 0.0 <==> forall k :: 0 <= k < |c| ==> c[k].visible < lim)
  {
    var c := StarsInRange(stars, pos, rng, unit, sep);
    if c != [] {
      if weight {
        WeightSplit(c, lim, flux);
        WeightPositive(c, flux);
        HiddenZero(c, lim, flux);
        PartOfWhole(WeightVisible(c, lim, flux), Weight(c, flux));
      } else {
        CountBounds(c, lim);
        PartOfWhole(CountVisible(c, lim) as real, |c| as real);
      }
    }
  }

  /** Raising the limit never raises the share of visible stars. */
  lemma PassRateAntitone(pos: Position, stars: seq<Star>, rng: real, lim1: real, lim2: real, unit: Unit, weight: bool,
                         sep: Star -> real, flux: real -> real)
    requires weight ==> PositiveFlux(flux)
    requires 0.0 <= lim1 <= lim2
    ensures CalcStarPercentage(pos, stars, rng, lim2, unit, weight, sep, flux) <= CalcStarPercentage(pos, stars, rng, lim1, unit, weight, sep, flux)
  {
    var c := StarsInRange(stars, pos, rng, unit, sep);
    if c != [] {
      CountAntitone(c, lim1, lim2, flux);
      if weight {
        WeightSplit(c, lim1, flux);
        WeightSplit(c, lim2, flux);
        WeightPositive(c, flux);
        DivMonotone(WeightVisible(c, lim2, flux), WeightVisible(c, lim1, flux), Weight(c, flux));
      } else {
        DivMonotone(CountVisible(c, lim2) as real, CountVisible(c, lim1) as real, |c| as real);
      }
    }
  }

  /** Weighting every star alike gives the unweighted statistic. */
  lemma EqualWeightsAreUnweighted(pos: Position, stars: seq<Star>, rng: real, lim: real, unit: Unit,
                                  sep: Star -> real, flux: real -> real, w: real)
    requires w > 0.0 && forall m :: flux(m) == w
    ensures CalcStarPercentage(pos, stars, rng, lim, unit, true, sep, flux) == CalcStarPercentage(pos, stars, rng, lim, unit, false, sep, flux)
  {
    var c := StarsInRange(stars, pos, rng, unit, sep);
    if c != [] {
      if lim >= 0.0 {
        EqualWeightsPassRate(c, lim, flux, w);
      } else {
        EqualWeightsMean(c, flux, w);
      }
    }
  }

  lemma EqualWeightsPassRate(c: seq<Star>, lim: real, flux: real -> real, w: real)
    requires c != [] && w > 0.0 && forall m :: flux(m) == w
    ensures var vis, notVis := WeightVisible(c, lim, flux), WeightHidden(c, lim, flux);
            vis + notVis > 0.0 && vis / (vis + notVis) == CountVisible(c, lim) as real / |c| as real
  {
    var vis, notVis := WeightVisible(c, lim, flux), WeightHidden(c, lim, flux);
    var k, n := CountVisible(c, lim) as real, |c| as real;
    ConstantFluxSums(c, lim, flux, w);
    WeightSplit(c, lim, flux);
    assert vis == w * k && vis + notVis == w * n;
    ScaledRatio(vis, notVis, w, k, n);
  }

  lemma ScaledRatio(vis: real, notVis: real, w: real, k: real, n: real)
    requires w > 0.0 && n > 0.0 && vis == w * k && vis + notVis == w * n
    ensures vis + notVis > 0.0 && vis / (vis + notVis) == k / n
  {
    CancelFactor(w, k, n);
  }

  lemma EqualWeightsMean(c: seq<Star>, flux: real -> real, w: real)
    requires c != [] && w > 0.0 && forall m :: flux(m) == w
    ensures Weight(c, flux) > 0.0 && WeightedVisibility(c, flux) / Weight(c, flux) == VisibilitySum(c) / |c| as real
  {
    ConstantFluxSums(c, 0.0, flux, w);
    ScaledRatio(WeightedVisibility(c, flux), Weight(c, flux) - WeightedVisibility(c, flux), w, VisibilitySum(c), |c| as real);
  }

  /**
   * With visibilities computed by the clamp of process_image, the statistic is
   * -1 exactly when no star is in range and lies in [0, 1] otherwise, for every limit.
   */
  lemma PercentageOfClampedVisibilities(pos: Position, stars: seq<Star>, logResponse: seq<real>,
                                        upper: Visibility.Line, lower: Visibility.Line,
                                        rng: real, lim: real, unit: Unit, weight: bool,
                                        sep: Star -> real, flux: real -> real)
    requires weight ==> PositiveFlux(flux)
    requires |logResponse| == |stars|
    requires forall k :: 0 <= k < |stars| ==>
               stars[k].visible == Visibility.StarVisibility(logResponse[k], stars[k].vmag, upper, lower)
    ensures var p, c := CalcStarPercentage(pos, stars, rng, lim, unit, weight, sep, flux), StarsInRange(stars, pos, rng, unit, sep);
            && (p == -1.0 <==> c == [])
            && (c != [] ==> 0.0 <= p <= 1.0)
  {
    forall k | 0 <= k < |stars| ensures 0.0 <= stars[k].visible <= 1.0 {
      Visibility.VisibilityRange(logResponse[k], stars[k].vmag, upper, lower);
    }
    PercentageRange(pos, stars, rng, lim, unit, weight, sep, flux);
  }
}
