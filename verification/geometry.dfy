/**
 * Axis-aligned rectangles in world coordinates (SpatialHadoop's `Rectangle`),
 * over exact reals instead of Java doubles.
 */
module Geometry {

  /** A rectangle with lower corner (x1, y1) and upper corner (x2, y2). */
  datatype Rect = Rect(x1: real, y1: real, x2: real, y2: real)

  /** The usual invariant of a bounding box: the corners are ordered. */
  predicate WellFormed(r: Rect) {
    r.x1 <= r.x2 && r.y1 <= r.y2
  }

  /** `Rectangle.getWidth()`. */
  function Width(r: Rect): real {
    r.x2 - r.x1
  }

  /** `Rectangle.getHeight()`. */
  function Height(r: Rect): real {
    r.y2 - r.y1
  }

  /** True when `inner` lies within `outer`, borders included. */
  predicate Contains(outer: Rect, inner: Rect) {
    outer.x1 <= inner.x1 && inner.x2 <= outer.x2 &&
    outer.y1 <= inner.y1 && inner.y2 <= outer.y2
  }

  /**
   * `Rectangle.isIntersected` between two rectangles: their interiors
   * overlap. Rectangle.java is not part of this model; this is the open
   * overlap test that SpatialHadoop's rectangles use.
   */
  predicate Intersects(a: Rect, b: Rect) {
    a.x2 > b.x1 && b.x2 > a.x1 && a.y2 > b.y1 && b.y2 > a.y1
  }

  /**
   * `Rectangle.expand`: the smallest rectangle covering both `acc` and `r`,
   * obtained coordinate by coordinate.
   */
  function Expand(acc: Rect, r: Rect): (e: Rect)
    ensures Contains(e, r)
    ensures e.x1 <= acc.x1 && acc.x2 <= e.x2 && e.y1 <= acc.y1 && acc.y2 <= e.y2
    ensures (e.x1 == acc.x1 || e.x1 == r.x1) && (e.x2 == acc.x2 || e.x2 == r.x2)
    ensures (e.y1 == acc.y1 || e.y1 == r.y1) && (e.y2 == acc.y2 || e.y2 == r.y2)
  {
    Rect(if r.x1 < acc.x1 then r.x1 else acc.x1,
         if r.y1 < acc.y1 then r.y1 else acc.y1,
         if r.x2 > acc.x2 then r.x2 else acc.x2,
         if r.y2 > acc.y2 then r.y2 else acc.y2)
  }

  /**
   * The vertical-flip rewrite of a file MBR: the Y range is negated and its
   * ends swapped, so world Y growing upwards maps to pixel Y growing
   * downwards. Only the Y coordinates move.
   */
  function VFlip(m: Rect): (f: Rect)
    ensures f.x1 == m.x1 && f.x2 == m.x2
    ensures Width(f) == Width(m) && Height(f) == Height(m)
    ensures WellFormed(f) <==> WellFormed(m)
  {
    Rect(m.x1, -m.y2, m.x2, -m.y1)
  }

  /** Flipping twice gives back the original MBR. */
  lemma VFlipInvolution(m: Rect)
    ensures VFlip(VFlip(m)) == m
  {
  }

  /** A world point of `m` at height `y` lies in the flipped MBR at height `-y`. */
  lemma VFlipMapsPoints(m: Rect, y: real)
    ensures m.y1 <= y <= m.y2 <==> VFlip(m).y1 <= -y <= VFlip(m).y2
  {
  }

  /** `x` scaled by the ratio `k / d`. */
  function Scale(x: real, k: real, d: real): real
    requires d > 0.0
  {
    x * k / d
  }

  /** Scaling by `k / d` with `k >= 0` and `d > 0` preserves order. */
  lemma ScaleMonotone(a: real, b: real, k: real, d: real)
    requires a <= b && 0.0 <= k && 0.0 < d
    ensures Scale(a, k, d) <= Scale(b, k, d)
  {
    assert b * k - a * k == (b - a) * k;
    assert b * k / d - a * k / d == (b * k - a * k) / d;
  }

  /** Scaling by `k / d` with `k > 0` and `d > 0` preserves strict order. */
  lemma ScaleStrictlyMonotone(a: real, b: real, k: real, d: real)
    requires a < b && 0.0 < k && 0.0 < d
    ensures Scale(a, k, d) < Scale(b, k, d)
  {
    assert b * k - a * k == (b - a) * k;
    assert b * k / d - a * k / d == (b * k - a * k) / d;
  }

  /**
   * The exact, unrounded position of world coordinate `v` on an axis whose
   * world range `[lo, hi]` is drawn over `n` pixels: `lo` lands on pixel 0,
   * `hi` on pixel `n`, and the range in between on `[0, n]`.
   */
  function Project(v: real, lo: real, hi: real, n: int): (p: real)
    requires lo < hi
    ensures v == lo ==> p == 0.0
    ensures v == hi ==> p == n as real
    ensures lo <= v <= hi && 0 <= n ==> 0.0 <= p <= n as real
  {
    assert Scale(0.0, n as real, hi - lo) == 0.0;
    assert Scale(hi - lo, n as real, hi - lo) == n as real;
    assert lo <= v <= hi && 0 <= n ==>
      Scale(0.0, n as real, hi - lo) <= Scale(v - lo, n as real, hi - lo) <= Scale(hi - lo, n as real, hi - lo)
    by {
      if lo <= v <= hi && 0 <= n {
        ScaleMonotone(0.0, v - lo, n as real, hi - lo);
        ScaleMonotone(v - lo, hi - lo, n as real, hi - lo);
      }
    }
    Scale(v - lo, n as real, hi - lo)
  }

  /** The projection maps the range ends onto pixel 0 and pixel n. */
  lemma ProjectEnds(lo: real, hi: real, n: int)
    requires lo < hi
    ensures Project(lo, lo, hi, n) == 0.0
    ensures Project(hi, lo, hi, n) == n as real
  {
  }

  /** The projection preserves order for a non-negative pixel count. */
  lemma ProjectMonotone(v: real, w: real, lo: real, hi: real, n: int)
    requires lo < hi && 0 <= n && v <= w
    ensures Project(v, lo, hi, n) <= Project(w, lo, hi, n)
  {
    ScaleMonotone(v - lo, w - lo, n as real, hi - lo);
  }

  /** With at least one pixel, distinct coordinates keep their strict order. */
  lemma ProjectStrictlyMonotone(v: real, w: real, lo: real, hi: real, n: int)
    requires lo < hi && 0 < n && v < w
    ensures Project(v, lo, hi, n) < Project(w, lo, hi, n)
  {
    ScaleStrictlyMonotone(v - lo, w - lo, n as real, hi - lo);
  }

  /** With at least one pixel, the projection preserves and reflects order. */
  lemma ProjectOrder(v: real, w: real, lo: real, hi: real, n: int)
    requires lo < hi && 0 < n
    ensures v <= w <==> Project(v, lo, hi, n) <= Project(w, lo, hi, n)
  {
    if v <= w {
      ProjectMonotone(v, w, lo, hi, n);
    } else {
      ProjectStrictlyMonotone(w, v, lo, hi, n);
    }
  }

  /**
   * Drawn over the flipped MBR, a higher world point gets a smaller pixel
   * row: the flip turns world Y (growing upwards) into image rows (growing
   * downwards), and the bottom of the MBR lands on the last row.
   */
  lemma VFlipRaisesHigherPoints(m: Rect, y: real, y': real, n: int)
    requires m.y1 < m.y2 && 0 < n && y < y'
    ensures Project(-y', VFlip(m).y1, VFlip(m).y2, n) < Project(-y, VFlip(m).y1, VFlip(m).y2, n)
    ensures Project(-m.y1, VFlip(m).y1, VFlip(m).y2, n) == n as real
    ensures Project(-m.y2, VFlip(m).y1, VFlip(m).y2, n) == 0.0
  {
    ProjectStrictlyMonotone(-y', -y, VFlip(m).y1, VFlip(m).y2, n);
  }
}
