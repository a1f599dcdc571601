/**
 * The colour of a value-bearing point (`NASAPoint.draw`): values below the
 * range are blue, values from the top of the range on are red, and values
 * in between get a hue interpolated linearly from blue down to red.
 */
module ValueColor {

  /**
   * The HSB hue of pure blue, RGB(0, 0, 255): two thirds of the way round
   * the hue circle.
   */
  const MaxHue: real := 2.0 / 3.0

  /** A colour in the hue / saturation / brightness model. */
  datatype Hsb = Hsb(hue: real, saturation: real, brightness: real)

  /** Saturation and brightness used for every value. */
  const Saturation: real := 0.5
  const Brightness: real := 1.0

  /**
   * The linear hue for `value` within `[minValue, maxValue)`: `MaxHue` at
   * `minValue`, falling towards 0 as the value grows.
   */
  function Interpolate(value: real, minValue: real, maxValue: real): (hue: real)
    requires minValue < maxValue
    ensures value == minValue ==> hue == MaxHue
    ensures value == maxValue ==> hue == 0.0
  {
    assert value == maxValue ==> MaxHue * (value - minValue) / (maxValue - minValue) == MaxHue by {
      if value == maxValue {
        assert MaxHue * (value - minValue) == MaxHue * (maxValue - minValue);
      }
    }
    MaxHue - MaxHue * (value - minValue) / (maxValue - minValue)
  }

  /**
   * The colour `NASAPoint.draw` picks for `value` given the half-open range
   * `[minValue, maxValue)`. Every colour has saturation 0.5 and brightness
   * 1, and a hue within `[0, MaxHue]`.
   */
  function ColorOf(value: int, minValue: real, maxValue: real): (c: Hsb)
    ensures c.saturation == 0.5 && c.brightness == 1.0
    ensures 0.0 <= c.hue <= MaxHue
    ensures value as real < minValue ==> c.hue == MaxHue
    ensures minValue <= value as real < maxValue ==> 0.0 < c.hue <= MaxHue
    ensures minValue <= value as real && maxValue <= value as real ==> c.hue == 0.0
  {
    var v := value as real;
    if v < minValue then Hsb(MaxHue, Saturation, Brightness)
    else if v < maxValue then
      InterpolateInRange(v, minValue, maxValue);
      Hsb(Interpolate(v, minValue, maxValue), Saturation, Brightness)
    else Hsb(0.0, Saturation, Brightness)
  }

  /** Inside the range the interpolated hue is above 0 and at most `MaxHue`. */
  lemma InterpolateInRange(v: real, minValue: real, maxValue: real)
    requires minValue <= v < maxValue
    ensures 0.0 < Interpolate(v, minValue, maxValue) <= MaxHue
  {
    var d := maxValue - minValue;
    var t := (v - minValue) / d;
    assert t * d == v - minValue;
    assert 0.0 <= t < 1.0;
    assert MaxHue * (v - minValue) / d == MaxHue * ((v - minValue) / d);
  }

  /**
   * The middle branch: reaching it means `minValue < maxValue`, so its
   * division is defined, and the hue is the linear interpolation, equal to
   * `MaxHue` at `minValue`.
   */
  lemma MiddleBranch(value: int, minValue: real, maxValue: real)
    requires minValue <= value as real < maxValue
    ensures minValue < maxValue
    ensures ColorOf(value, minValue, maxValue).hue == Interpolate(value as real, minValue, maxValue)
    ensures value as real == minValue ==> ColorOf(value, minValue, maxValue).hue == MaxHue
  {
    if value as real == minValue {
      assert MaxHue * (value as real - minValue) == 0.0;
    }
  }

  /**
   * The top of the range belongs to the red branch: a value equal to
   * `maxValue` (above or at `minValue`) gets hue 0. The interpolation would
   * also reach 0 there, so the half-open boundary causes no jump.
   */
  lemma MaxValueIsRed(value: int, minValue: real, maxValue: real)
    requires value as real == maxValue && minValue <= maxValue
    ensures ColorOf(value, minValue, maxValue).hue == 0.0
    ensures minValue < maxValue ==> Interpolate(maxValue, minValue, maxValue) == 0.0
  {
  }

  /** The middle of a non-empty range gets half of `MaxHue`. */
  lemma MidpointHue(minValue: real, maxValue: real)
    requires minValue < maxValue
    ensures Interpolate((minValue + maxValue) / 2.0, minValue, maxValue) == MaxHue / 2.0
  {
    var d := maxValue - minValue;
    assert (minValue + maxValue) / 2.0 - minValue == d / 2.0;
    assert MaxHue * (d / 2.0) / d == MaxHue / 2.0;
  }

  /**
   * The hue never increases with the value, whatever the range (even an
   * empty or inverted one): larger values are never bluer.
   */
  lemma HueMonotone(v1: int, v2: int, minValue: real, maxValue: real)
    requires v1 <= v2
    ensures ColorOf(v2, minValue, maxValue).hue <= ColorOf(v1, minValue, maxValue).hue
  {
    var a := v1 as real;
    var b := v2 as real;
    if minValue <= a && b < maxValue {
      var d := maxValue - minValue;
      assert (a - minValue) / d <= (b - minValue) / d by {
        assert (b - minValue) / d - (a - minValue) / d == (b - a) / d;
      }
      assert MaxHue * (a - minValue) / d == MaxHue * ((a - minValue) / d);
      assert MaxHue * (b - minValue) / d == MaxHue * ((b - minValue) / d);
    }
  }
}
