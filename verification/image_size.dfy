/**
 * The aspect-ratio adjustment of the requested image size, as done in
 * `plotMapReduce`, `plotLocal` and `combineImages`.
 */
module ImageSize {
  import opened JavaNum
  import opened Geometry

  /** Image dimensions in pixels. */
  datatype Size = Size(width: int, height: int)

  /**
   * `h &= 0xfffffffe` on a Java `int`: clears the lowest bit, that is, rounds
   * down to an even number (also for negative numbers in two's complement).
   */
  function ClearLowBit(h: int): (e: int)
    ensures e % 2 == 0
    ensures e <= h <= e + 1
  {
    h - h % 2
  }

  /** `a / b > c / d` for positive denominators compares the cross products. */
  lemma RatioGreater(a: real, b: real, c: real, d: real)
    requires b > 0.0 && d > 0.0
    ensures a / b > c / d <==> a * d > c * b
  {
    assert a / b - c / d == (a * d - c * b) / (b * d);
  }

  /** `x * y / z` lies below `w` exactly when `x * y < w * z`, for positive `z`. */
  lemma QuotientBelow(x: real, y: real, z: real, w: real)
    requires z > 0.0
    ensures x * y / z < w <==> x * y < w * z
    ensures x * y / z <= w <==> x * y <= w * z
  {
    assert x * y / z - w == (x * y - w * z) / z;
  }

  /**
   * The exact length, in pixels, of one MBR side when the other side
   * `otherSide` is drawn over `pixels` pixels.
   */
  function Scaled(side: real, pixels: int, otherSide: real): real
    requires otherSide > 0.0
  {
    side * (pixels as real) / otherSide
  }

  /**
   * Keeps the MBR's aspect ratio: the side that is relatively too long is
   * shrunk, rounding toward zero like Java's `(int)` cast. When `evenHeight`
   * is set (the distributed path, for ffmpeg), a recomputed height is also
   * rounded down to an even number.
   */
  function KeepAspect(mbrWidth: real, mbrHeight: real, width: int, height: int,
                      evenHeight: bool): (r: Size)
    requires mbrWidth > 0.0 && mbrHeight > 0.0 && width > 0 && height > 0
    ensures mbrWidth / mbrHeight > (width as real) / (height as real) ==>
      && r.width == width
      && 0 <= r.height <= height
      && (evenHeight ==> r.height % 2 == 0)
      && r.height as real <= Scaled(mbrHeight, width, mbrWidth)
      && Scaled(mbrHeight, width, mbrWidth) < (r.height + 2) as real
      && (!evenHeight ==> Scaled(mbrHeight, width, mbrWidth) < (r.height + 1) as real)
    ensures !(mbrWidth / mbrHeight > (width as real) / (height as real)) ==>
      && r.height == height
      && 0 <= r.width <= width
      && r.width as real <= Scaled(mbrWidth, height, mbrHeight)
      && Scaled(mbrWidth, height, mbrHeight) < (r.width + 1) as real
  {
    if mbrWidth / mbrHeight > (width as real) / (height as real) then
      FitWidth(mbrWidth, mbrHeight, width, height, evenHeight)
    else
      FitHeight(mbrWidth, mbrHeight, width, height)
  }

  /** The full width is kept and the height shrunk to the MBR's proportion. */
  function FitWidth(mbrWidth: real, mbrHeight: real, width: int, height: int,
                    evenHeight: bool): (r: Size)
    requires mbrWidth > 0.0 && mbrHeight > 0.0 && width > 0 && height > 0
    requires mbrWidth / mbrHeight > (width as real) / (height as real)
    ensures r.width == width && 0 <= r.height <= height
    ensures evenHeight ==> r.height % 2 == 0
    ensures r.height as real <= Scaled(mbrHeight, width, mbrWidth) < (r.height + 2) as real
    ensures !evenHeight ==> Scaled(mbrHeight, width, mbrWidth) < (r.height + 1) as real
  {
    WiderMbrShrinksHeight(mbrWidth, mbrHeight, width as real, height as real);
    Size(width, ShrunkSide(Scaled(mbrHeight, width, mbrWidth), evenHeight))
  }

  /** The full height is kept and the width shrunk to the MBR's proportion. */
  function FitHeight(mbrWidth: real, mbrHeight: real, width: int, height: int): (r: Size)
    requires mbrWidth > 0.0 && mbrHeight > 0.0 && width > 0 && height > 0
    requires !(mbrWidth / mbrHeight > (width as real) / (height as real))
    ensures r.height == height && 0 <= r.width <= width
    ensures r.width as real <= Scaled(mbrWidth, height, mbrHeight) < (r.width + 1) as real
  {
    TallerMbrShrinksWidth(mbrWidth, mbrHeight, width as real, height as real);
    Size(ShrunkSide(Scaled(mbrWidth, height, mbrHeight), false), height)
  }

  /** An MBR relatively wider than the image needs fewer than `h` rows at width `w`. */
  lemma WiderMbrShrinksHeight(mbrWidth: real, mbrHeight: real, w: real, h: real)
    requires mbrWidth > 0.0 && mbrHeight > 0.0 && w > 0.0 && h > 0.0
    requires mbrWidth / mbrHeight > w / h
    ensures 0.0 < mbrHeight * w / mbrWidth < h
  {
    RatioGreater(mbrWidth, mbrHeight, w, h);
    QuotientBelow(mbrHeight, w, mbrWidth, h);
    PositiveQuotient(mbrHeight, w, mbrWidth);
  }

  /** An MBR not relatively wider than the image needs at most `w` columns at height `h`. */
  lemma TallerMbrShrinksWidth(mbrWidth: real, mbrHeight: real, w: real, h: real)
    requires mbrWidth > 0.0 && mbrHeight > 0.0 && w > 0.0 && h > 0.0
    requires !(mbrWidth / mbrHeight > w / h)
    ensures 0.0 < mbrWidth * h / mbrHeight <= w
  {
    RatioGreater(mbrWidth, mbrHeight, w, h);
    QuotientBelow(mbrWidth, h, mbrHeight, w);
    PositiveQuotient(mbrWidth, h, mbrHeight);
  }

  /** A quotient of positive reals is positive. */
  lemma PositiveQuotient(x: real, y: real, z: real)
    requires x > 0.0 && y > 0.0 && z > 0.0
    ensures x * y / z > 0.0
  {
    assert x * y > 0.0;
  }

  /**
   * The `(int)` cast of a positive exact side, followed by rounding down to
   * even when `even` is set: at most 1 pixel (2 when rounded to even) below
   * the exact side and never above it.
   */
  function ShrunkSide(exact: real, even: bool): (a: int)
    requires 0.0 < exact
    ensures 0 <= a && a as real <= exact
    ensures exact < (a + 2) as real
    ensures !even ==> exact < (a + 1) as real
    ensures even ==> a % 2 == 0
  {
    var t := Trunc(exact);
    if even then ClearLowBit(t) else t
  }

  /**
   * The requested size after the optional aspect-ratio adjustment for an
   * MBR with positive sides.
   */
  function AdjustSize(mbr: Rect, width: int, height: int, keepAspectRatio: bool,
                      evenHeight: bool): (r: Size)
    requires Width(mbr) > 0.0 && Height(mbr) > 0.0 && width > 0 && height > 0
    ensures !keepAspectRatio ==> r == Size(width, height)
    ensures 0 <= r.width <= width && 0 <= r.height <= height
    ensures r.width == width || r.height == height
  {
    if keepAspectRatio then KeepAspect(Width(mbr), Height(mbr), width, height, evenHeight)
    else Size(width, height)
  }

  /** Flipping the MBR vertically never changes the adjusted size. */
  lemma AdjustSizeIgnoresVFlip(mbr: Rect, width: int, height: int, keepAspectRatio: bool,
                               evenHeight: bool)
    requires Width(mbr) > 0.0 && Height(mbr) > 0.0 && width > 0 && height > 0
    ensures AdjustSize(VFlip(mbr), width, height, keepAspectRatio, evenHeight)
         == AdjustSize(mbr, width, height, keepAspectRatio, evenHeight)
  {
  }

  /**
   * A square MBR asked for at 100x50 pixels: the ratio 1 is not above 2, so
   * the height stays and the width becomes 10 * 50 / 10 = 50.
   */
  lemma SquareMbrExample()
    ensures AdjustSize(Rect(0.0, 0.0, 10.0, 10.0), 100, 50, true, true) == Size(50, 50)
  {
    var mbr := Rect(0.0, 0.0, 10.0, 10.0);
    assert Width(mbr) / Height(mbr) == 1.0;
    assert (100 as real) / (50 as real) == 2.0;
    assert Width(mbr) * (50 as real) / Height(mbr) == 50.0;
    assert Trunc(50.0) == 50;
  }
}
