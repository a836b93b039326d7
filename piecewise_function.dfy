/** The piecewise-constant style function with a zoom cross-fade: a list of
    (zoom, value) stops, a floor-stop search over it, and an evaluation that
    picks the stops to fade from and to, their scales and the blend weight.

    Zooms and times are real numbers (float rounding is not modelled); the
    clock read becomes the parameter `now`. */
module PiecewiseFunction {

  datatype Option<T> = None | Some(value: T)

  /** A faded value: the two representations, their scales and the blend weight `t`. */
  datatype Faded<V> = Faded(from: V, to: V, fromScale: real, toScale: real, t: real)

  /** A stop: from zoom `zoom` on, the function's value is `value`. */
  datatype Stop<V> = Stop(zoom: real, value: Faded<V>)

  /** The largest size_t: what `size() - 1` wraps to on an empty list. */
  const SizeMax: nat := 0x1_0000_0000_0000_0000 - 1

  /** Stop indices are ascending in zoom. */
  predicate Ascending<V>(stops: seq<Stop<V>>)
  {
    forall i, j :: 0 <= i < j < |stops| ==> stops[i].zoom <= stops[j].zoom
  }

  /** The search from index `i` on: at the first stop whose zoom exceeds `z` the
      result is the index before it (0 when that is the first stop); when no
      stop exceeds `z` the result is the last index. */
  function ScanFrom<V>(stops: seq<Stop<V>>, z: real, i: nat): (r: nat)
    requires i <= |stops|
    ensures stops == [] ==> r == SizeMax
    ensures stops != [] ==> r < |stops| && i <= r + 1
    decreases |stops| - i
  {
    if i == |stops| then (if |stops| == 0 then SizeMax else |stops| - 1)
    else if stops[i].zoom > z then (if i == 0 then 0 else i - 1)
    else ScanFrom(stops, z, i + 1)
  }

  /** The floor-stop search. On an empty list the result wraps to SizeMax;
      otherwise it is an index of the list. */
  function BiggestStopLessThan<V>(stops: seq<Stop<V>>, z: real): (r: nat)
    ensures stops == [] ==> r == SizeMax
    ensures stops != [] ==> r < |stops|
  {
    ScanFrom(stops, z, 0)
  }

  /** What the search from `i` returns, given that the stops before `i` do not
      exceed `z`. */
  lemma {:induction false} ScanFromSpec<V>(stops: seq<Stop<V>>, z: real, i: nat)
    requires stops != [] && i <= |stops|
    requires forall k :: 0 <= k < i ==> stops[k].zoom <= z
    ensures var r := ScanFrom(stops, z, i);
            (i == 0 && stops[0].zoom > z ==> r == 0)
            && (0 < i || stops[0].zoom <= z ==>
                  (forall k :: 0 <= k <= r ==> stops[k].zoom <= z)
                  && (r + 1 < |stops| ==> stops[r + 1].zoom > z))
    decreases |stops| - i
  {
    if i < |stops| && stops[i].zoom <= z {
      ScanFromSpec(stops, z, i + 1);
    }
  }

  /** The search, characterised without any order on the stops: when the first
      stop already exceeds `z` the result is 0, although that stop does not lie
      at or below `z`; otherwise the result is the end of the longest run of
      leading stops at or below `z`: those stops do not exceed `z` and the one
      after the result does. */
  lemma BiggestStopLessThanSpec<V>(stops: seq<Stop<V>>, z: real)
    requires stops != []
    ensures var r := BiggestStopLessThan(stops, z);
            (stops[0].zoom > z ==> r == 0)
            && (stops[0].zoom <= z ==>
                  (forall k :: 0 <= k <= r ==> stops[k].zoom <= z)
                  && (r + 1 < |stops| ==> stops[r + 1].zoom > z))
  {
    ScanFromSpec(stops, z, 0);
  }

  /** When no stop exceeds `z` the result is the last index. */
  lemma NoneAboveGivesLast<V>(stops: seq<Stop<V>>, z: real)
    requires stops != []
    requires forall k :: 0 <= k < |stops| ==> stops[k].zoom <= z
    ensures BiggestStopLessThan(stops, z) == |stops| - 1
  {
    BiggestStopLessThanSpec(stops, z);
  }

  /** When stop j is the first to exceed `z`, the result is j - 1 (0 for j = 0). */
  lemma FirstAboveGivesPrevious<V>(stops: seq<Stop<V>>, z: real, j: nat)
    requires j < |stops| && stops[j].zoom > z
    requires forall k :: 0 <= k < j ==> stops[k].zoom <= z
    ensures BiggestStopLessThan(stops, z) == if j == 0 then 0 else j - 1
  {
    BiggestStopLessThanSpec(stops, z);
  }

  /** For ascending stops whose first stop lies at or below `z`, the result is
      the floor stop: the greatest index whose zoom does not exceed `z`. */
  lemma BiggestStopIsFloor<V>(stops: seq<Stop<V>>, z: real)
    requires stops != [] && Ascending(stops) && stops[0].zoom <= z
    ensures var r := BiggestStopLessThan(stops, z);
            stops[r].zoom <= z && forall k :: 0 <= k < |stops| && stops[k].zoom <= z ==> k <= r
  {
    BiggestStopLessThanSpec(stops, z);
  }

  /** The result never decreases as `z` grows, whatever the order of the stops. */
  lemma BiggestStopMonotone<V>(stops: seq<Stop<V>>, z1: real, z2: real)
    requires stops != [] && z1 <= z2
    ensures BiggestStopLessThan(stops, z1) <= BiggestStopLessThan(stops, z2)
  {
    BiggestStopLessThanSpec(stops, z1);
    BiggestStopLessThanSpec(stops, z2);
  }

  /** The integer part of `z`, rounded toward zero. */
  function Trunc(z: real): (r: real)
    ensures r.Floor as real == r
    ensures 0.0 <= z ==> r <= z < r + 1.0
    ensures z < 0.0 ==> r - 1.0 < z <= r
  {
    if z >= 0.0 then z.Floor as real
    else
      var n := (-z).Floor;
      assert (-n) as real == -(n as real);
      (-n) as real
  }

  /** fmod(z, 1): the remainder after removing the whole part of `z` rounded
      toward zero, so it has the sign of `z`. */
  function FMod1(z: real): (f: real)
    ensures (z - f).Floor as real == z - f
    ensures 0.0 <= z ==> 0.0 <= f < 1.0
    ensures z < 0.0 ==> -1.0 < f <= 0.0
  {
    z - Trunc(z)
  }

  /** The inputs of an evaluation. */
  datatype Parameters = Parameters(
    z: real,
    defaultFadeDuration: real,
    lastIntegerZoom: real,
    lastIntegerZoomTime: real)

  /** The fade duration: the function's own when it has one, else the default. */
  function FadeDuration(duration: Option<real>, p: Parameters): (d: real)
    ensures duration.Some? ==> d == duration.value
    ensures duration.None? ==> d == p.defaultFadeDuration
  {
    if duration.Some? then duration.value else p.defaultFadeDuration
  }

  /** Progress through the fade: elapsed time over the duration, capped at 1
      (not bounded below). */
  function FadeProgress(elapsed: real, d: real): (t: real)
    requires d > 0.0
    ensures t <= 1.0
    ensures t == 1.0 <==> elapsed >= d
    ensures 0.0 <= elapsed ==> 0.0 <= t
    ensures elapsed < d ==> t * d == elapsed
  {
    if elapsed / d < 1.0 then elapsed / d else 1.0
  }

  /** The blend weight: zooming in it starts at `fraction` and rises to 1;
      otherwise it starts at 1 - `fraction` and rises to 1. */
  function BlendWeight(zoomingIn: bool, fraction: real, t: real): real
  {
    if zoomingIn then fraction + (1.0 - fraction) * t else 1.0 - (1.0 - t) * fraction
  }

  /** A complete fade (t = 1) gives weight 1 in both directions. */
  lemma BlendWeightFadeComplete(zoomingIn: bool, fraction: real)
    ensures BlendWeight(zoomingIn, fraction, 1.0) == 1.0
  {
  }

  /** At the start of a fade (t = 0) the weight is `fraction` zooming in and
      1 - `fraction` otherwise. */
  lemma BlendWeightFadeStart(zoomingIn: bool, fraction: real)
    ensures BlendWeight(zoomingIn, fraction, 0.0) == if zoomingIn then fraction else 1.0 - fraction
  {
  }

  /** For a fraction in [0, 1] and progress in [0, 1] the weight lies in [0, 1]. */
  lemma BlendWeightInUnitInterval(zoomingIn: bool, fraction: real, t: real)
    requires 0.0 <= fraction <= 1.0 && 0.0 <= t <= 1.0
    ensures 0.0 <= BlendWeight(zoomingIn, fraction, t) <= 1.0
  {
    if zoomingIn {
      ZoomInWeightBounds(fraction, t);
    } else {
      ZoomOutWeightBounds(fraction, t);
    }
  }

  lemma ZoomInWeightBounds(fraction: real, t: real)
    requires 0.0 <= fraction <= 1.0 && 0.0 <= t <= 1.0
    ensures 0.0 <= fraction + (1.0 - fraction) * t <= 1.0
  {
    MulNonNegative(1.0 - fraction, t);
    MulAtMost(1.0 - fraction, t);
  }

  lemma ZoomOutWeightBounds(fraction: real, t: real)
    requires 0.0 <= fraction <= 1.0 && 0.0 <= t <= 1.0
    ensures 0.0 <= 1.0 - (1.0 - t) * fraction <= 1.0
  {
    MulNonNegative(1.0 - t, fraction);
    MulNonNegative(fraction, t);
    assert (1.0 - t) * fraction == fraction - t * fraction;
  }

  /** The weight grows with the progress of the fade, for a fraction in [0, 1]. */
  lemma BlendWeightMonotone(zoomingIn: bool, fraction: real, t1: real, t2: real)
    requires 0.0 <= fraction <= 1.0 && t1 <= t2
    ensures BlendWeight(zoomingIn, fraction, t1) <= BlendWeight(zoomingIn, fraction, t2)
  {
    if zoomingIn {
      MulNonNegative(1.0 - fraction, t2 - t1);
      assert BlendWeight(zoomingIn, fraction, t2) - BlendWeight(zoomingIn, fraction, t1) == (1.0 - fraction) * (t2 - t1);
    } else {
      MulNonNegative(t2 - t1, fraction);
      assert BlendWeight(zoomingIn, fraction, t2) - BlendWeight(zoomingIn, fraction, t1) == (t2 - t1) * fraction;
    }
  }

  lemma MulNonNegative(a: real, b: real)
    requires 0.0 <= a && 0.0 <= b
    ensures 0.0 <= a * b
  {
  }

  lemma MulAtMost(a: real, t: real)
    requires 0.0 <= a && 0.0 <= t <= 1.0
    ensures a * t <= a
  {
    MulNonNegative(a, 1.0 - t);
    assert a - a * t == a * (1.0 - t);
  }

  /** The evaluation: zooming in (z above the last integer zoom) fades from the
      floor stop of z - 1, drawn at scale 2, to the floor stop of z; otherwise
      from the floor stop of z + 1, drawn at scale 1/2, to the floor stop of z.
      Both take the stop value's `to` representation; the target scale is 1. */
  function Evaluate<V>(stops: seq<Stop<V>>, duration: Option<real>, p: Parameters, now: real): (r: Faded<V>)
    requires stops != [] && FadeDuration(duration, p) > 0.0
    ensures r.toScale == 1.0
    ensures p.z > p.lastIntegerZoom ==>
              r.fromScale == 2.0
              && r.from == stops[BiggestStopLessThan(stops, p.z - 1.0)].value.to
              && r.to == stops[BiggestStopLessThan(stops, p.z)].value.to
    ensures p.z <= p.lastIntegerZoom ==>
              r.fromScale == 0.5
              && r.from == stops[BiggestStopLessThan(stops, p.z + 1.0)].value.to
              && r.to == stops[BiggestStopLessThan(stops, p.z)].value.to
  {
    var fraction := FMod1(p.z);
    var t := FadeProgress(now - p.lastIntegerZoomTime, FadeDuration(duration, p));
    var zoomingIn := p.z > p.lastIntegerZoom;
    var from := BiggestStopLessThan(stops, if zoomingIn then p.z - 1.0 else p.z + 1.0);
    var to := BiggestStopLessThan(stops, p.z);
    Faded(stops[from].value.to, stops[to].value.to,
          if zoomingIn then 1.0 * 2.0 else 1.0 / 2.0, 1.0,
          BlendWeight(zoomingIn, fraction, t))
  }

  /** A function with its own fade duration ignores the default one: the
      evaluation is the same whatever the default. */
  lemma EvaluateOwnDurationIgnoresDefault<V>(stops: seq<Stop<V>>, d: real, p: Parameters, e: real, now: real)
    requires stops != [] && d > 0.0
    ensures Evaluate(stops, Some(d), p, now) == Evaluate(stops, Some(d), p.(defaultFadeDuration := e), now)
  {
  }

  /** A function without its own fade duration fades over the default one: it
      evaluates as if the default were its own, and its weight is the blend
      weight at the progress elapsed / default. */
  lemma EvaluateDefaultDuration<V>(stops: seq<Stop<V>>, p: Parameters, now: real)
    requires stops != [] && p.defaultFadeDuration > 0.0
    ensures Evaluate(stops, None, p, now) == Evaluate(stops, Some(p.defaultFadeDuration), p, now)
    ensures Evaluate(stops, None, p, now).t
              == BlendWeight(p.z > p.lastIntegerZoom, FMod1(p.z),
                             FadeProgress(now - p.lastIntegerZoomTime, p.defaultFadeDuration))
  {
  }

  /** Zooming in the fade starts at a stop no later than the one it ends at;
      otherwise at one no earlier. */
  lemma EvaluateStopOrder<V>(stops: seq<Stop<V>>, z: real)
    requires stops != []
    ensures BiggestStopLessThan(stops, z - 1.0) <= BiggestStopLessThan(stops, z)
    ensures BiggestStopLessThan(stops, z) <= BiggestStopLessThan(stops, z + 1.0)
  {
    BiggestStopMonotone(stops, z - 1.0, z);
    BiggestStopMonotone(stops, z, z + 1.0);
  }

  /** With ascending stops and z at or above the first stop plus one (zooming
      in) the evaluation fades from the value of the greatest stop at or below
      z - 1 to the value of the greatest stop at or below z. */
  lemma EvaluateZoomingInUsesFloors<V>(stops: seq<Stop<V>>, duration: Option<real>, p: Parameters, now: real)
    requires stops != [] && FadeDuration(duration, p) > 0.0 && Ascending(stops)
    requires p.z > p.lastIntegerZoom && stops[0].zoom <= p.z - 1.0
    ensures var r := Evaluate(stops, duration, p, now);
            exists i, j :: 0 <= i <= j < |stops|
              && r.from == stops[i].value.to && r.to == stops[j].value.to
              && stops[i].zoom <= p.z - 1.0 && stops[j].zoom <= p.z
              && (forall k :: 0 <= k < |stops| && stops[k].zoom <= p.z - 1.0 ==> k <= i)
              && (forall k :: 0 <= k < |stops| && stops[k].zoom <= p.z ==> k <= j)
  {
    var r := Evaluate(stops, duration, p, now);
    var i, j := BiggestStopLessThan(stops, p.z - 1.0), BiggestStopLessThan(stops, p.z);
    BiggestStopIsFloor(stops, p.z - 1.0);
    BiggestStopIsFloor(stops, p.z);
    EvaluateStopOrder(stops, p.z);
    assert r.from == stops[i].value.to && r.to == stops[j].value.to;
    assert 0 <= i <= j < |stops|;
  }

  /** Once the fade duration has elapsed since the last integer zoom, the
      weight is 1; with z >= 0 and the clock not behind the last integer zoom
      time, the weight lies in [0, 1]. */
  lemma EvaluateWeight<V>(stops: seq<Stop<V>>, duration: Option<real>, p: Parameters, now: real)
    requires stops != [] && FadeDuration(duration, p) > 0.0
    ensures now - p.lastIntegerZoomTime >= FadeDuration(duration, p) ==> Evaluate(stops, duration, p, now).t == 1.0
    ensures 0.0 <= p.z && p.lastIntegerZoomTime <= now ==> 0.0 <= Evaluate(stops, duration, p, now).t <= 1.0
  {
    var t := FadeProgress(now - p.lastIntegerZoomTime, FadeDuration(duration, p));
    var zoomingIn := p.z > p.lastIntegerZoom;
    if t == 1.0 {
      BlendWeightFadeComplete(zoomingIn, FMod1(p.z));
    }
    if 0.0 <= p.z && p.lastIntegerZoomTime <= now {
      BlendWeightInUnitInterval(zoomingIn, FMod1(p.z), t);
    }
  }

  /** Right after crossing a zoom level (no time elapsed) the weight is the
      fractional part of z when zooming in and 1 minus it otherwise; at an
      integer zoom it is the fade progress when zooming in and 1 otherwise. */
  lemma EvaluateFadeStart<V>(stops: seq<Stop<V>>, duration: Option<real>, p: Parameters, now: real)
    requires stops != [] && FadeDuration(duration, p) > 0.0
    ensures now == p.lastIntegerZoomTime ==>
              Evaluate(stops, duration, p, now).t == if p.z > p.lastIntegerZoom then FMod1(p.z) else 1.0 - FMod1(p.z)
    ensures p.z.Floor as real == p.z ==>
              Evaluate(stops, duration, p, now).t
                == if p.z > p.lastIntegerZoom then FadeProgress(now - p.lastIntegerZoomTime, FadeDuration(duration, p)) else 1.0
  {
    var zoomingIn := p.z > p.lastIntegerZoom;
    if now == p.lastIntegerZoomTime {
      BlendWeightFadeStart(zoomingIn, FMod1(p.z));
    }
    if p.z.Floor as real == p.z {
      assert Trunc(p.z) == p.z by {
        if p.z < 0.0 {
          assert (-p.z).Floor == -(p.z.Floor);
        }
      }
    }
  }
}
