/**
 The two derived values the panel paints: the translation of the sliding
 container and the opacity of the backdrop. Both are React Native
 interpolations of the panel's animated value with `extrapolate: 'clamp'`,
 modelled here as exact linear arithmetic on reals.
 */
module Interpolation {

  /** `x` constrained to the closed range `[lo, hi]`. */
  function Clamp(x: real, lo: real, hi: real): real
    requires lo <= hi
  {
    if x < lo then lo else if x > hi then hi else x
  }

  function Min(a: real, b: real): real { if a <= b then a else b }
  function Max(a: real, b: real): real { if a <= b then b else a }

  /**
   A clamped linear interpolation from the input range `[inLo, inHi]` to the
   output range `[outLo, outHi]`: the input is first clamped into its range,
   then mapped linearly, so the result never leaves the output range and
   saturates at the output endpoint of the nearest input endpoint.
   */
  function Interpolate(x: real, inLo: real, inHi: real, outLo: real, outHi: real): (r: real)
    requires inLo < inHi
    ensures x <= inLo ==> r == outLo
    ensures x >= inHi ==> r == outHi
    ensures Min(outLo, outHi) <= r <= Max(outLo, outHi)
  {
    var t := (Clamp(x, inLo, inHi) - inLo) / (inHi - inLo);
    FractionBounds(Clamp(x, inLo, inHi) - inLo, inHi - inLo);
    BetweenEndpoints(t, outLo, outHi);
    outLo + t * (outHi - outLo)
  }

  lemma FractionBounds(a: real, b: real)
    requires 0.0 < b && 0.0 <= a <= b
    ensures 0.0 <= a / b <= 1.0
  {
    DivMonotone(0.0, a, b);
    DivMonotone(a, b, b);
  }

  /** Division by a positive number preserves order. */
  lemma DivMonotone(a: real, b: real, c: real)
    requires c > 0.0 && a <= b
    ensures a / c <= b / c
  {
    assert a / c * c == a && b / c * c == b;
  }

  lemma MulPositive(a: real, b: real)
    requires a > 0.0 && b > 0.0
    ensures a * b > 0.0
  {
  }

  lemma MulNonNegative(a: real, b: real)
    requires a >= 0.0 && b >= 0.0
    ensures a * b >= 0.0
  {
  }

  lemma BetweenEndpoints(t: real, lo: real, hi: real)
    requires 0.0 <= t <= 1.0
    ensures Min(lo, hi) <= lo + t * (hi - lo) <= Max(lo, hi)
  {
    if lo <= hi {
      MulNonNegative(t, hi - lo);
      MulNonNegative(1.0 - t, hi - lo);
      assert (1.0 - t) * (hi - lo) == (hi - lo) - t * (hi - lo);
    } else {
      MulNonNegative(t, lo - hi);
      MulNonNegative(1.0 - t, lo - hi);
      assert (1.0 - t) * (lo - hi) == (lo - hi) - t * (lo - hi);
      assert t * (hi - lo) == -(t * (lo - hi));
    }
  }

  /**
   The translation handed to the renderer: the animated value interpolated
   from `[-height, 0]` onto itself. It is exactly the clamp of the value into
   the panel's travel range.
   */
  function ClampedTranslate(y: real, height: real): (r: real)
    requires height > 0.0
    ensures r == Clamp(y, -height, 0.0)
  {
    var c := Clamp(y, -height, 0.0);
    assert (c - -height) / (0.0 - -height) * (0.0 - -height) == c + height;
    Interpolate(y, -height, 0.0, -height, 0.0)
  }

  /**
   The backdrop opacity: the animated value interpolated from
   `[-visibleHeight, 0]` to `[0.75, 0]`. Inside the range it is the linear map
   `-0.75 * y / visibleHeight` (stated below without the division); outside
   it saturates at 0.75 (open side) or 0 (closed side); it always lies within
   `[0, 0.75]`.
   */
  function BackdropOpacity(y: real, visibleHeight: real): (r: real)
    requires visibleHeight > 0.0
    ensures 0.0 <= r <= 0.75
    ensures y <= -visibleHeight ==> r == 0.75
    ensures y >= 0.0 ==> r == 0.0
    ensures -visibleHeight <= y <= 0.0 ==> r * visibleHeight == -0.75 * y
  {
    OpacityLinear(Clamp(y, -visibleHeight, 0.0), visibleHeight);
    Interpolate(y, -visibleHeight, 0.0, 0.75, 0.0)
  }

  lemma OpacityLinear(c: real, vh: real)
    requires vh > 0.0
    ensures (0.75 + (c - -vh) / (0.0 - -vh) * (0.0 - 0.75)) * vh == -0.75 * c
  {
    var q := (c - -vh) / (0.0 - -vh);
    assert q * vh == c + vh;
    calc {
      (0.75 + q * (0.0 - 0.75)) * vh;
      0.75 * vh - 0.75 * (q * vh);
      -0.75 * c;
    }
  }

  /** Opening the panel further never makes the backdrop lighter. */
  lemma OpacityNonIncreasing(y1: real, y2: real, visibleHeight: real)
    requires visibleHeight > 0.0 && y1 <= y2
    ensures BackdropOpacity(y2, visibleHeight) <= BackdropOpacity(y1, visibleHeight)
  {
    var r1, r2 := BackdropOpacity(y1, visibleHeight), BackdropOpacity(y2, visibleHeight);
    if -visibleHeight <= y1 && y2 <= 0.0 {
      assert (r1 - r2) * visibleHeight == 0.75 * (y2 - y1);
      if r1 < r2 {
        MulPositive(r2 - r1, visibleHeight);
      }
    }
  }

  /**
   The opacity is driven by `visibleHeight`, not by the panel's own height:
   a panel shorter than the visible area, fully opened, leaves the backdrop
   lighter than 0.75, in exact proportion to its height.
   */
  lemma OpenShortPanelBackdrop(height: real, visibleHeight: real)
    requires 0.0 < height < visibleHeight
    ensures BackdropOpacity(-height, visibleHeight) * visibleHeight == 0.75 * height
    ensures BackdropOpacity(-height, visibleHeight) < 0.75
  {
    var r := BackdropOpacity(-height, visibleHeight);
    assert (0.75 - r) * visibleHeight == 0.75 * (visibleHeight - height);
  }

  /** The three sample points for a 500-unit range. */
  lemma OpacitySamples()
    ensures BackdropOpacity(0.0, 500.0) == 0.0
    ensures BackdropOpacity(-500.0, 500.0) == 0.75
    ensures BackdropOpacity(-250.0, 500.0) == 0.375
  {
    assert BackdropOpacity(-250.0, 500.0) * 500.0 == 187.5;
  }

  /** The translate never leaves the travel range and is the identity inside it. */
  lemma TranslateInRange(y: real, height: real)
    requires height > 0.0
    ensures -height <= ClampedTranslate(y, height) <= 0.0
    ensures -height <= y <= 0.0 ==> ClampedTranslate(y, height) == y
    ensures y < -height ==> ClampedTranslate(y, height) == -height
    ensures y > 0.0 ==> ClampedTranslate(y, height) == 0.0
  {
  }
}
