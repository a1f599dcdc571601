/**
 * The reduce side of the distributed plot (`Plot.PlotReduce`): the reducer
 * set-up and the pixel rectangle each grid cell is rendered into.
 */
module TileLayout {
  import opened Results
  import opened JavaNum
  import opened Geometry

  /** Defaults of `plot.min_value` / `plot.max_value` in the job. */
  const DefaultMinValue: int := 0
  const DefaultMaxValue: int := 65535

  /** A pixel rectangle `[x1, x2) x [y1, y2)` of the final image. */
  datatype PixelRect = PixelRect(x1: int, y1: int, x2: int, y2: int)

  /** What `PlotReduce.configure` leaves in the reducer's fields. */
  datatype ReduceSetup = ReduceSetup(
    fileMbr: Rect,       // the file MBR, already flipped when vflip is on
    imageWidth: int,
    imageHeight: int,
    vflip: bool,
    scale2: real,        // pixels per unit of world area
    minValue: int,       // the value range handed to NASAPoint
    maxValue: int)

  /**
   * `PlotReduce.configure`: flips the file MBR when vflip is on, computes the
   * area scale and picks up the value range, falling back to 0 and 65535.
   */
  function Configure(fileMbr: Rect, imageWidth: int, imageHeight: int, vflip: bool,
                     minValue: Option<int>, maxValue: Option<int>): (s: ReduceSetup)
    requires Width(fileMbr) > 0.0 && Height(fileMbr) > 0.0
    ensures s.vflip == vflip && s.imageWidth == imageWidth && s.imageHeight == imageHeight
    ensures vflip ==> s.fileMbr == VFlip(fileMbr)
    ensures !vflip ==> s.fileMbr == fileMbr
    ensures Width(s.fileMbr) > 0.0 && Height(s.fileMbr) > 0.0
    ensures s.scale2 * Width(fileMbr) * Height(fileMbr) == (imageWidth * imageHeight) as real
    ensures s.minValue == (if minValue.Some? then minValue.value else DefaultMinValue)
    ensures s.maxValue == (if maxValue.Some? then maxValue.value else DefaultMaxValue)
  {
    var mbr := if vflip then VFlip(fileMbr) else fileMbr;
    ReduceSetup(mbr, imageWidth, imageHeight, vflip,
                (imageWidth as real) * (imageHeight as real) / (Width(mbr) * Height(mbr)),
                if minValue.Some? then minValue.value else DefaultMinValue,
                if maxValue.Some? then maxValue.value else DefaultMaxValue)
  }

  /**
   * The pixel rectangle of one cell in `PlotReduce.reduce`: the lower
   * corner is rounded down and the upper corner up. With vflip the cell's
   * Y range is negated (`-y2` below, `-y1` above) to match the flipped MBR.
   */
  function TileRect(s: ReduceSetup, cell: Rect): (t: PixelRect)
    requires Width(s.fileMbr) > 0.0 && Height(s.fileMbr) > 0.0
    requires 0 <= s.imageWidth && 0 <= s.imageHeight
    ensures WellFormed(cell) ==> t.x2 - t.x1 >= 0 && t.y2 - t.y1 >= 0
    ensures t.x1 as real <= Project(cell.x1, s.fileMbr.x1, s.fileMbr.x2, s.imageWidth)
    ensures Project(cell.x2, s.fileMbr.x1, s.fileMbr.x2, s.imageWidth) <= t.x2 as real
    ensures !s.vflip ==> t.y1 as real <= Project(cell.y1, s.fileMbr.y1, s.fileMbr.y2, s.imageHeight)
    ensures !s.vflip ==> Project(cell.y2, s.fileMbr.y1, s.fileMbr.y2, s.imageHeight) <= t.y2 as real
    ensures s.vflip ==> t.y1 as real <= Project(-cell.y2, s.fileMbr.y1, s.fileMbr.y2, s.imageHeight)
    ensures s.vflip ==> Project(-cell.y1, s.fileMbr.y1, s.fileMbr.y2, s.imageHeight) <= t.y2 as real
  {
    var f := s.fileMbr;
    var lowY := if s.vflip then -cell.y2 else cell.y1;
    var highY := if s.vflip then -cell.y1 else cell.y2;
    assert WellFormed(cell) ==>
      Project(cell.x1, f.x1, f.x2, s.imageWidth) <= Project(cell.x2, f.x1, f.x2, s.imageWidth) &&
      Project(lowY, f.y1, f.y2, s.imageHeight) <= Project(highY, f.y1, f.y2, s.imageHeight) by {
      if WellFormed(cell) {
        ProjectMonotone(cell.x1, cell.x2, f.x1, f.x2, s.imageWidth);
        ProjectMonotone(lowY, highY, f.y1, f.y2, s.imageHeight);
      }
    }
    PixelRect(Floor(Project(cell.x1, f.x1, f.x2, s.imageWidth)),
              Floor(Project(lowY, f.y1, f.y2, s.imageHeight)),
              Ceil(Project(cell.x2, f.x1, f.x2, s.imageWidth)),
              Ceil(Project(highY, f.y1, f.y2, s.imageHeight)))
  }

  /** The cell covering the whole file MBR is rendered onto the whole canvas. */
  lemma WholeMbrTile(fileMbr: Rect, imageWidth: int, imageHeight: int, vflip: bool,
                     minValue: Option<int>, maxValue: Option<int>)
    requires Width(fileMbr) > 0.0 && Height(fileMbr) > 0.0
    requires 0 <= imageWidth && 0 <= imageHeight
    ensures TileRect(Configure(fileMbr, imageWidth, imageHeight, vflip, minValue, maxValue), fileMbr)
            == PixelRect(0, 0, imageWidth, imageHeight)
  {
    var s := Configure(fileMbr, imageWidth, imageHeight, vflip, minValue, maxValue);
    var f := s.fileMbr;
    ProjectEnds(f.x1, f.x2, imageWidth);
    ProjectEnds(f.y1, f.y2, imageHeight);
  }

  /**
   * Two cells side by side (the first's `x2` is the second's `x1`): the
   * second tile starts no later than the first one ends, so no pixel column
   * is left out, and they share at most one column.
   */
  lemma AdjacentColumnsLeaveNoGap(s: ReduceSetup, a: Rect, b: Rect)
    requires Width(s.fileMbr) > 0.0 && Height(s.fileMbr) > 0.0
    requires 0 <= s.imageWidth && 0 <= s.imageHeight
    requires a.x2 == b.x1
    ensures TileRect(s, b).x1 <= TileRect(s, a).x2 <= TileRect(s, b).x1 + 1
  {
  }

  /**
   * Two cells stacked (the first's `y2` is the second's `y1`): their tiles
   * meet without a gap and share at most one pixel row. Without vflip the
   * upper cell's tile continues the lower one's downwards in pixel rows;
   * with vflip the lower cell's tile continues the upper one's.
   */
  lemma AdjacentRowsLeaveNoGap(s: ReduceSetup, a: Rect, b: Rect)
    requires Width(s.fileMbr) > 0.0 && Height(s.fileMbr) > 0.0
    requires 0 <= s.imageWidth && 0 <= s.imageHeight
    requires a.y2 == b.y1
    ensures !s.vflip ==> TileRect(s, b).y1 <= TileRect(s, a).y2 <= TileRect(s, b).y1 + 1
    ensures s.vflip ==> TileRect(s, a).y1 <= TileRect(s, b).y2 <= TileRect(s, a).y1 + 1
  {
  }

  /** Consecutive intervals: each one starts where the previous one ends. */
  predicate Chained(bounds: seq<(real, real)>) {
    forall i :: 0 <= i < |bounds| - 1 ==> bounds[i].1 == bounds[i + 1].0
  }

  /**
   * One axis of the no-gap guarantee: if a chain of intervals ends at `hi`
   * and interval `k` starts at or before pixel `p`, some interval from `k`
   * on, rounded outwards, holds pixel `p`.
   */
  lemma {:induction false} AxisCoveredFrom(bounds: seq<(real, real)>, lo: real, hi: real, n: int,
                                           p: int, k: int)
    requires lo < hi && 0 <= p < n
    requires |bounds| > 0 && bounds[|bounds| - 1].1 == hi && Chained(bounds)
    requires 0 <= k < |bounds| && Project(bounds[k].0, lo, hi, n) <= p as real
    ensures exists i :: (k <= i < |bounds| &&
      Floor(Project(bounds[i].0, lo, hi, n)) <= p < Ceil(Project(bounds[i].1, lo, hi, n)))
    decreases |bounds| - k
  {
    if p < Ceil(Project(bounds[k].1, lo, hi, n)) {
      assert Floor(Project(bounds[k].0, lo, hi, n)) <= p;
    } else {
      if k == |bounds| - 1 {
        ProjectEnds(lo, hi, n);
        assert false;
      }
      assert bounds[k + 1].0 == bounds[k].1;
      AxisCoveredFrom(bounds, lo, hi, n, p, k + 1);
    }
  }

  /** A chain of intervals from `lo` to `hi`, rounded outwards, covers pixels `[0, n)`. */
  lemma AxisCovered(bounds: seq<(real, real)>, lo: real, hi: real, n: int, p: int)
    requires lo < hi && 0 <= p < n
    requires |bounds| > 0 && bounds[0].0 == lo && bounds[|bounds| - 1].1 == hi && Chained(bounds)
    ensures exists i :: (0 <= i < |bounds| &&
      Floor(Project(bounds[i].0, lo, hi, n)) <= p < Ceil(Project(bounds[i].1, lo, hi, n)))
  {
    ProjectEnds(lo, hi, n);
    AxisCoveredFrom(bounds, lo, hi, n, p, 0);
  }

  /**
   * A row of cells spanning the file MBR from left to right, each starting
   * where the previous one ends: every pixel column of the image lies in
   * some cell's tile.
   */
  lemma TilesCoverColumns(s: ReduceSetup, cells: seq<Rect>, p: int)
    requires Width(s.fileMbr) > 0.0 && Height(s.fileMbr) > 0.0
    requires 0 <= s.imageWidth && 0 <= s.imageHeight
    requires |cells| > 0 && cells[0].x1 == s.fileMbr.x1 && cells[|cells| - 1].x2 == s.fileMbr.x2
    requires forall i :: 0 <= i < |cells| - 1 ==> cells[i].x2 == cells[i + 1].x1
    requires 0 <= p < s.imageWidth
    ensures exists i :: 0 <= i < |cells| && TileRect(s, cells[i]).x1 <= p < TileRect(s, cells[i]).x2
  {
    var f := s.fileMbr;
    var bounds := seq(|cells|, i requires 0 <= i < |cells| => (cells[i].x1, cells[i].x2));
    AxisCovered(bounds, f.x1, f.x2, s.imageWidth, p);
    var i :| 0 <= i < |bounds| &&
      Floor(Project(bounds[i].0, f.x1, f.x2, s.imageWidth)) <= p < Ceil(Project(bounds[i].1, f.x1, f.x2, s.imageWidth));
    assert TileRect(s, cells[i]).x1 <= p < TileRect(s, cells[i]).x2;
  }

  /**
   * A column of cells spanning the original (unflipped) MBR from bottom to
   * top, each starting where the previous one ends: every pixel row of the
   * image lies in some cell's tile, with or without vflip.
   */
  lemma TilesCoverRows(s: ReduceSetup, cells: seq<Rect>, p: int)
    requires Width(s.fileMbr) > 0.0 && Height(s.fileMbr) > 0.0
    requires 0 <= s.imageWidth && 0 <= s.imageHeight
    requires |cells| > 0
    requires cells[0].y1 == (if s.vflip then -s.fileMbr.y2 else s.fileMbr.y1)
    requires cells[|cells| - 1].y2 == (if s.vflip then -s.fileMbr.y1 else s.fileMbr.y2)
    requires forall i :: 0 <= i < |cells| - 1 ==> cells[i].y2 == cells[i + 1].y1
    requires 0 <= p < s.imageHeight
    ensures exists i :: 0 <= i < |cells| && TileRect(s, cells[i]).y1 <= p < TileRect(s, cells[i]).y2
  {
    if s.vflip {
      FlippedTilesCoverRows(s, cells, p);
    } else {
      var f := s.fileMbr;
      var n := |cells|;
      var bounds := seq(n, i requires 0 <= i < n => (cells[i].y1, cells[i].y2));
      AxisCovered(bounds, f.y1, f.y2, s.imageHeight, p);
      var i :| 0 <= i < n && Floor(Project(bounds[i].0, f.y1, f.y2, s.imageHeight)) <= p
                           < Ceil(Project(bounds[i].1, f.y1, f.y2, s.imageHeight));
      assert TileRect(s, cells[i]).y1 <= p < TileRect(s, cells[i]).y2;
    }
  }

  /** The Y intervals of `cells` negated and taken in reverse order. */
  function FlippedBounds(cells: seq<Rect>): (bounds: seq<(real, real)>)
    ensures |bounds| == |cells|
    ensures forall i :: 0 <= i < |cells| ==>
      bounds[i] == (-cells[|cells| - 1 - i].y2, -cells[|cells| - 1 - i].y1)
  {
    seq(|cells|, i requires 0 <= i < |cells| => (-cells[|cells| - 1 - i].y2, -cells[|cells| - 1 - i].y1))
  }

  /** Negating and reversing a chain of Y intervals gives a chain. */
  lemma FlippedBoundsChained(cells: seq<Rect>)
    requires forall i :: 0 <= i < |cells| - 1 ==> cells[i].y2 == cells[i + 1].y1
    ensures Chained(FlippedBounds(cells))
  {
    var n := |cells|;
    var bounds := FlippedBounds(cells);
    forall i | 0 <= i < n - 1
      ensures bounds[i].1 == bounds[i + 1].0
    {
      assert cells[n - 2 - i].y2 == cells[n - 1 - i].y1;
    }
  }

  /** With vflip a tile's rows are the projections of the negated Y range. */
  lemma FlippedTileRows(s: ReduceSetup, c: Rect)
    requires Width(s.fileMbr) > 0.0 && Height(s.fileMbr) > 0.0
    requires 0 <= s.imageWidth && 0 <= s.imageHeight && s.vflip
    ensures TileRect(s, c).y1 == Floor(Project(-c.y2, s.fileMbr.y1, s.fileMbr.y2, s.imageHeight))
    ensures TileRect(s, c).y2 == Ceil(Project(-c.y1, s.fileMbr.y1, s.fileMbr.y2, s.imageHeight))
  {
  }

  /** The vflip case of `TilesCoverRows`: the cells are taken top down. */
  lemma FlippedTilesCoverRows(s: ReduceSetup, cells: seq<Rect>, p: int)
    requires Width(s.fileMbr) > 0.0 && Height(s.fileMbr) > 0.0
    requires 0 <= s.imageWidth && 0 <= s.imageHeight && s.vflip
    requires |cells| > 0 && cells[0].y1 == -s.fileMbr.y2 && cells[|cells| - 1].y2 == -s.fileMbr.y1
    requires forall i :: 0 <= i < |cells| - 1 ==> cells[i].y2 == cells[i + 1].y1
    requires 0 <= p < s.imageHeight
    ensures exists i :: 0 <= i < |cells| && TileRect(s, cells[i]).y1 <= p < TileRect(s, cells[i]).y2
  {
    var f := s.fileMbr;
    var n := |cells|;
    var h := s.imageHeight;
    var bounds := FlippedBounds(cells);
    FlippedBoundsChained(cells);
    AxisCovered(bounds, f.y1, f.y2, h, p);
    var i :| 0 <= i < n && Floor(Project(bounds[i].0, f.y1, f.y2, h)) <= p
                         < Ceil(Project(bounds[i].1, f.y1, f.y2, h));
    FlippedTileRows(s, cells[n - 1 - i]);
  }
}
