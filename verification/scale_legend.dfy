/**
 * The legend image of `Plot.drawScale`: a vertical hue gradient and the
 * value labels next to it. The label step is an input: its computation
 * through `Math.log10` and `Math.pow` is not part of this model.
 */
module ScaleLegend {
  import opened Results
  import opened JavaNum
  import opened ValueColor

  /** Font size of the labels, in pixels. */
  const FontSize: int := 24

  /**
   * The hue of pixel row `y` of the gradient bar: 0 (red) at the top,
   * growing towards `MaxHue` (blue) at the bottom.
   */
  function GradientHue(y: int, height: int): (hue: real)
    requires 0 <= y < height
    ensures 0.0 <= hue < MaxHue
  {
    assert (y as real) * MaxHue < (height as real) * MaxHue;
    (y as real) * MaxHue / (height as real)
  }

  /** Lower rows of the bar are bluer: the hue grows strictly with the row. */
  lemma GradientHueIncreasing(y1: int, y2: int, height: int)
    requires 0 <= y1 < y2 < height
    ensures GradientHue(y1, height) < GradientHue(y2, height)
  {
    var h := height as real;
    assert GradientHue(y2, height) - GradientHue(y1, height) == ((y2 - y1) as real) * MaxHue / h;
    assert ((y2 - y1) as real) * MaxHue > 0.0;
  }

  /**
   * `v / step * step` in Java `int` arithmetic: `v` rounded toward zero to
   * a multiple of `step`.
   */
  function RoundToStep(v: int, step: int): (r: int)
    requires step > 0
    ensures r % step == 0
    ensures 0 <= v ==> 0 <= r <= v < r + step
    ensures v <= 0 ==> r - step < v <= r <= 0
  {
    var q := Quot(v, step);
    QuotientSign(v, step);
    DivModUnique(q * step, step, q, 0);
    q * step
  }

  /** Java's quotient by a positive divisor has the sign of the dividend. */
  lemma QuotientSign(v: int, step: int)
    requires step > 0
    ensures 0 <= v ==> 0 <= Quot(v, step) * step
    ensures v <= 0 ==> Quot(v, step) * step <= 0
  {
    var q := Quot(v, step);
    if 0 <= v {
      assert 0 <= q;
    } else {
      assert q <= 0;
    }
  }

  /** The label values `first, first + step, ...` up to `last` inclusive. */
  function LabelValues(first: int, last: int, step: int): (vs: seq<int>)
    requires step > 0
    ensures |vs| > 0 <==> first <= last
    ensures |vs| > 0 ==> vs[0] == first
    ensures forall i :: 0 <= i < |vs| ==> first <= vs[i] <= last
    decreases last - first
  {
    if first > last then [] else [first] + LabelValues(first + step, last, step)
  }

  /** The label at position `i` is `first + i * step`. */
  lemma {:induction false} LabelValueAt(first: int, last: int, step: int, i: int)
    requires step > 0 && 0 <= i < |LabelValues(first, last, step)|
    ensures LabelValues(first, last, step)[i] == first + i * step
    decreases i
  {
    if i > 0 {
      var rest := LabelValues(first + step, last, step);
      assert LabelValues(first, last, step)[i] == rest[i - 1];
      LabelValueAt(first + step, last, step, i - 1);
      assert (i - 1) * step == i * step - step;
    }
  }

  /**
   * The labels form an arithmetic progression from `first` in steps of
   * `step`, all at most `last`, and the next one would pass `last`.
   */
  lemma {:induction false} LabelValuesProgression(first: int, last: int, step: int)
    requires step > 0
    ensures forall i :: 0 <= i < |LabelValues(first, last, step)| ==>
      LabelValues(first, last, step)[i] == first + i * step && LabelValues(first, last, step)[i] <= last
    ensures last < first + |LabelValues(first, last, step)| * step
    decreases last - first
  {
    var vs := LabelValues(first, last, step);
    forall i | 0 <= i < |vs|
      ensures vs[i] == first + i * step
    {
      LabelValueAt(first, last, step, i);
    }
    if first <= last {
      LabelValuesProgression(first + step, last, step);
      var rest := LabelValues(first + step, last, step);
      assert |vs| == |rest| + 1;
      assert |vs| * step == |rest| * step + step;
    }
  }

  /**
   * The label loop of `drawScale`: from the minimum rounded to the step up
   * to the maximum rounded to the step, in Java `int` arithmetic.
   */
  method LabelLoop(minValue: int, maxValue: int, step: int) returns (values: seq<int>)
    requires step > 0
    ensures values == LabelValues(RoundToStep(minValue, step), RoundToStep(maxValue, step), step)
  {
    // Java's `/` rounds toward zero, as `Quot` does
    var minR := Quot(minValue, step) * step;
    var maxR := Quot(maxValue, step) * step;
    assert minR == RoundToStep(minValue, step);
    assert maxR == RoundToStep(maxValue, step);
    values := LabelRange(minR, maxR, step);
  }

  /** The `for (value = first; value <= last; value += step)` loop over labels. */
  method LabelRange(first: int, last: int, step: int) returns (values: seq<int>)
    requires step > 0
    ensures values == LabelValues(first, last, step)
  {
    values := [];
    var value := first;
    while value <= last
      invariant values + LabelValues(value, last, step) == LabelValues(first, last, step)
      decreases last - value
    {
      assert LabelValues(value, last, step) == [value] + LabelValues(value + step, last, step);
      values := values + [value];
      value := value + step;
    }
  }

  /**
   * The labels `drawScale` writes: each is a multiple of the step, the
   * first is the rounded minimum, consecutive labels differ by exactly
   * `step`, none passes the rounded maximum and the next one would.
   */
  lemma LabelLoopProperties(minValue: int, maxValue: int, step: int)
    requires step > 0
    ensures var vs := LabelValues(RoundToStep(minValue, step), RoundToStep(maxValue, step), step);
      && (forall i :: 0 <= i < |vs| ==> vs[i] % step == 0 && vs[i] <= RoundToStep(maxValue, step))
      && (|vs| > 0 ==> vs[0] == RoundToStep(minValue, step))
      && (forall i :: 0 <= i < |vs| - 1 ==> vs[i + 1] == vs[i] + step)
      && RoundToStep(maxValue, step) < RoundToStep(minValue, step) + |vs| * step
  {
    var minR := RoundToStep(minValue, step);
    var maxR := RoundToStep(maxValue, step);
    var vs := LabelValues(minR, maxR, step);
    LabelValuesProgression(minR, maxR, step);
    LabelValuesMultiples(minR, maxR, step);
    forall i | 0 <= i < |vs| - 1
      ensures vs[i + 1] == vs[i] + step
    {
      assert vs[i + 1] == minR + (i + 1) * step;
      assert vs[i] == minR + i * step;
    }
  }

  /** Starting from a multiple of the step, every label is a multiple of it. */
  lemma LabelValuesMultiples(first: int, last: int, step: int)
    requires step > 0 && first % step == 0
    ensures forall i :: 0 <= i < |LabelValues(first, last, step)| ==> LabelValues(first, last, step)[i] % step == 0
  {
    var vs := LabelValues(first, last, step);
    LabelValuesProgression(first, last, step);
    forall i | 0 <= i < |vs|
      ensures vs[i] % step == 0
    {
      DivModUnique(first, step, first / step, 0);
      assert vs[i] == (first / step + i) * step;
      DivModUnique(vs[i], step, first / step + i, 0);
    }
  }

  /**
   * The pixel row of the label for `value` as `drawScale` computes it: the
   * bottom of the bar minus the value's share of the bar height, in Java
   * `int` arithmetic. The division throws when the value range is empty.
   * The share is taken of `value` itself rather than of its distance from
   * the minimum, which places labels correctly only when the minimum is 0.
   */
  function LabelYAsWritten(value: int, minValue: int, maxValue: int, height: int): (r: Result<int>)
    ensures r.Failure? <==> minValue == maxValue
    ensures r.Failure? ==> r.error == DivideByZero
  {
    match Div(value * (height - FontSize), maxValue - minValue)
    case Failure(e) => Failure(e)
    case Success(q) => Success(FontSize + (height - FontSize) - q)
  }

  /**
   * On the range 1000 to 2000 with a 1024-pixel legend, the minimum's label
   * is drawn at the top, where the maximum belongs, and the maximum's label
   * lands far above the image.
   */
  lemma LabelYAsWrittenMisplaces()
    ensures LabelYAsWritten(1000, 1000, 2000, 1024) == Success(FontSize)
    ensures LabelYAsWritten(2000, 1000, 2000, 1024) == Success(-976)
  {
    assert Quot(1000 * 1000, 1000) == 1000;
    assert Quot(2000 * 1000, 1000) == 2000;
  }

  /**
   * The label row with the share taken of `value - minValue`: the minimum's
   * label at the bottom row, the maximum's at the font size below the top.
   */
  function LabelY(value: int, minValue: int, maxValue: int, height: int): (r: Result<int>)
    ensures r.Failure? <==> minValue == maxValue
    ensures r.Failure? ==> r.error == DivideByZero
  {
    match Div((value - minValue) * (height - FontSize), maxValue - minValue)
    case Failure(e) => Failure(e)
    case Success(q) => Success(FontSize + (height - FontSize) - q)
  }

  /** `a / d` lies in `[0, bound]` when `0 <= a <= bound * d`. */
  lemma QuotientInRange(a: int, d: int, bound: int)
    requires 0 < d && 0 <= a <= bound * d
    ensures 0 <= a / d <= bound
  {
    var q := a / d;
    assert q * d <= a;
    if q > bound {
      ProductGrows(bound + 1, q, d);
    }
  }

  /** Multiplying by a non-negative factor keeps the order. */
  lemma ProductGrows(x: int, y: int, k: int)
    requires x <= y && 0 <= k
    ensures x * k <= y * k
  {
    assert y * k - x * k == (y - x) * k;
  }

  /** Euclidean quotients by a positive divisor grow with the dividend. */
  lemma QuotientGrows(a1: int, a2: int, d: int)
    requires 0 <= a1 <= a2 && 0 < d
    ensures a1 / d <= a2 / d
  {
    var q1 := a1 / d;
    var q2 := a2 / d;
    assert q1 * d <= a1 < q1 * d + d;
    assert q2 * d <= a2 < q2 * d + d;
    if q2 < q1 {
      ProductGrows(q2 + 1, q1, d);
    }
  }

  /**
   * For a value at or above the minimum and a legend at least the font
   * size high, the label row is the bottom row minus a Euclidean quotient.
   */
  lemma LabelYValue(value: int, minValue: int, maxValue: int, height: int)
    requires minValue <= value && minValue < maxValue && FontSize <= height
    ensures 0 <= (value - minValue) * (height - FontSize)
    ensures LabelY(value, minValue, maxValue, height)
      == Success(height - (value - minValue) * (height - FontSize) / (maxValue - minValue))
  {
    ProductGrows(0, value - minValue, height - FontSize);
  }

  /**
   * Every value of a non-empty range `[minValue, maxValue]` gets its label
   * inside the legend, between the font size and the bottom row; the
   * minimum lands on the bottom row and the maximum at the font size.
   */
  lemma LabelYInLegend(value: int, minValue: int, maxValue: int, height: int)
    requires minValue <= value <= maxValue && minValue < maxValue && FontSize <= height
    ensures LabelY(value, minValue, maxValue, height).Success?
    ensures FontSize <= LabelY(value, minValue, maxValue, height).value <= height
    ensures value == minValue ==> LabelY(value, minValue, maxValue, height).value == height
    ensures value == maxValue ==> LabelY(value, minValue, maxValue, height).value == FontSize
  {
    var bar := height - FontSize;
    var d := maxValue - minValue;
    var a := (value - minValue) * bar;
    LabelYValue(value, minValue, maxValue, height);
    ProductGrows(value - minValue, d, bar);
    QuotientInRange(a, d, bar);
    if value == maxValue {
      DivModUnique(a, d, bar, 0);
    }
  }

  /** Larger values are labelled higher up (at a smaller or equal row). */
  lemma LabelYMonotone(v1: int, v2: int, minValue: int, maxValue: int, height: int)
    requires minValue <= v1 <= v2 && minValue < maxValue && FontSize <= height
    ensures LabelY(v2, minValue, maxValue, height).value <= LabelY(v1, minValue, maxValue, height).value
  {
    var bar := height - FontSize;
    LabelYValue(v1, minValue, maxValue, height);
    LabelYValue(v2, minValue, maxValue, height);
    ProductGrows(v1 - minValue, v2 - minValue, bar);
    QuotientGrows((v1 - minValue) * bar, (v2 - minValue) * bar, maxValue - minValue);
  }
}
