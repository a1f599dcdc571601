/**
 * The map side of the distributed plot (`Plot.PlotMap.map`): every shape is
 * replicated to each grid cell its MBR overlaps, keyed by the cell number
 * `y * columns + x + 1`.
 */
module PlotMap {
  import opened Results
  import opened JavaNum
  import opened Geometry

  /**
   * The `java.awt.Rectangle` of cell indices that
   * `GridInfo.getOverlappingCells` returns: columns `x .. x+width-1` and rows
   * `y .. y+height-1`. GridInfo.java is not part of this model, so the
   * range is an input.
   */
  datatype CellRange = CellRange(x: int, y: int, width: int, height: int)

  /** One `output.collect(cellNumber, shape)` call. */
  datatype Pair<S> = Pair(key: int, shape: S)

  /** The number of iterations of a Java `for (k = 0; k < n; k++)` loop. */
  function Count(n: int): nat {
    if n > 0 then n else 0
  }

  /** Cell (cx, cy) is one of the cells the range spans. */
  predicate InRange(r: CellRange, cx: int, cy: int) {
    r.x <= cx < r.x + r.width && r.y <= cy < r.y + r.height
  }

  /** The reducer key of the cell at column `cx` and row `cy`. */
  function CellNumber(columns: int, cx: int, cy: int): (k: int)
    ensures 0 <= cx < columns && 0 <= cy ==> k >= 1
  {
    assert 0 <= cx < columns && 0 <= cy ==> cy * columns >= 0 by {
      if 0 <= cy && 0 < columns { assert cy * columns >= 0; }
    }
    cy * columns + cx + 1
  }

  /**
   * Decodes a cell number back into (column, row). The result is the only
   * cell with that number whose column lies in `[0, columns)`.
   */
  function CellOf(columns: int, key: int): (c: (int, int))
    requires columns > 0
    ensures 0 <= c.0 < columns
    ensures CellNumber(columns, c.0, c.1) == key
  {
    ((key - 1) % columns, (key - 1) / columns)
  }

  /** Numbering is injective on cells whose column lies inside the grid. */
  lemma CellNumberRoundTrip(columns: int, cx: int, cy: int)
    requires 0 <= cx < columns
    ensures CellOf(columns, CellNumber(columns, cx, cy)) == (cx, cy)
  {
    DivModUnique(CellNumber(columns, cx, cy) - 1, columns, cy, cx);
  }

  /** The pairs the inner loop emits for column `r.x + i`, rows in order. */
  function ColumnPairs<S>(columns: int, r: CellRange, i: int, shape: S): (ps: seq<Pair<S>>)
    ensures |ps| == Count(r.height)
  {
    seq(Count(r.height), j requires 0 <= j < Count(r.height) =>
      Pair(CellNumber(columns, r.x + i, r.y + j), shape))
  }

  /** The pairs the loops emit from outer iteration `i` onwards. */
  function PairsFrom<S>(columns: int, r: CellRange, i: int, shape: S): seq<Pair<S>>
    decreases r.width - i
  {
    if i >= r.width then []
    else ColumnPairs(columns, r, i, shape) + PairsFrom(columns, r, i + 1, shape)
  }

  /**
   * Everything `PlotMap.map` collects for one shape. A shape without an MBR,
   * or one outside a set query range, yields nothing; otherwise one pair
   * per overlapped cell, column by column.
   */
  function MapOutput<S>(shapeMbr: Option<Rect>, queryRange: Option<Rect>,
                        overlap: CellRange, columns: int, shape: S): (out: seq<Pair<S>>)
    ensures forall p :: p in out ==> p.shape == shape
    ensures |out| == 0 || |out| == Count(overlap.width) * Count(overlap.height)
  {
    PairsFromShapes(columns, overlap, shape);
    PairsFromLength(columns, overlap, 0, shape);
    if shapeMbr.None? then []
    else if queryRange.Some? && !Intersects(shapeMbr.value, queryRange.value) then []
    else PairsFrom(columns, overlap, 0, shape)
  }

  /** Outer iteration `i` onwards emits `(width - i) * height` pairs. */
  lemma {:induction false} PairsFromLength<S>(columns: int, r: CellRange, i: int, shape: S)
    ensures |PairsFrom(columns, r, i, shape)| == Count(r.width - i) * Count(r.height)
    decreases r.width - i
  {
    if i < r.width {
      PairsFromLength(columns, r, i + 1, shape);
      assert Count(r.width - i) == Count(r.width - (i + 1)) + 1;
    }
  }

  /**
   * Every cell of the range (from column `r.x + i` on) gets the shape under
   * its own cell number.
   */
  lemma {:induction false} PairsFromComplete<S>(columns: int, r: CellRange, i: int, shape: S,
                                                cx: int, cy: int)
    requires InRange(r, cx, cy) && r.x + i <= cx
    ensures Pair(CellNumber(columns, cx, cy), shape) in PairsFrom(columns, r, i, shape)
    decreases r.width - i
  {
    if cx == r.x + i {
      var col := ColumnPairs(columns, r, i, shape);
      assert col[cy - r.y] == Pair(CellNumber(columns, cx, cy), shape);
    } else {
      PairsFromComplete(columns, r, i + 1, shape, cx, cy);
    }
  }

  /**
   * Every emitted pair carries the shape itself and the number of a cell of
   * the range (from column `r.x + i` on).
   */
  lemma {:induction false} PairsFromSound<S>(columns: int, r: CellRange, i: int, shape: S, p: Pair<S>)
    requires 0 <= i && p in PairsFrom(columns, r, i, shape)
    ensures p.shape == shape
    ensures exists cx, cy :: InRange(r, cx, cy) && r.x + i <= cx && p.key == CellNumber(columns, cx, cy)
    decreases r.width - i
  {
    var col := ColumnPairs(columns, r, i, shape);
    if p in col {
      var j :| 0 <= j < |col| && col[j] == p;
      assert InRange(r, r.x + i, r.y + j);
    } else {
      PairsFromSound(columns, r, i + 1, shape, p);
    }
  }

  /** The pairs emitted with an index into the grid have pairwise distinct keys. */
  predicate DistinctKeys<S>(ps: seq<Pair<S>>) {
    forall a, b :: 0 <= a < b < |ps| ==> ps[a].key != ps[b].key
  }

  /** Concatenating two key-disjoint sequences of distinct keys keeps them distinct. */
  lemma DistinctKeysAppend<S>(xs: seq<Pair<S>>, ys: seq<Pair<S>>)
    requires DistinctKeys(xs) && DistinctKeys(ys)
    requires forall a, b :: 0 <= a < |xs| && 0 <= b < |ys| ==> xs[a].key != ys[b].key
    ensures DistinctKeys(xs + ys)
  {
    var zs := xs + ys;
    forall a, b | 0 <= a < b < |zs|
      ensures zs[a].key != zs[b].key
    {
      if b < |xs| {
      } else if a >= |xs| {
        assert zs[a] == ys[a - |xs|] && zs[b] == ys[b - |xs|];
      } else {
        assert zs[b] == ys[b - |xs|];
      }
    }
  }

  /**
   * When the range's columns lie inside the grid (`0 <= x` and
   * `x + width <= columns`), no two emitted pairs share a key.
   */
  lemma {:induction false} PairsFromDistinct<S>(columns: int, r: CellRange, i: int, shape: S)
    requires 0 <= r.x && r.x + r.width <= columns && 0 <= i
    ensures DistinctKeys(PairsFrom(columns, r, i, shape))
    decreases r.width - i
  {
    if i < r.width {
      var col := ColumnPairs(columns, r, i, shape);
      var rest := PairsFrom(columns, r, i + 1, shape);
      PairsFromDistinct(columns, r, i + 1, shape);
      forall a, b | 0 <= a < b < |col|
        ensures col[a].key != col[b].key
      {
        CellNumberRoundTrip(columns, r.x + i, r.y + a);
        CellNumberRoundTrip(columns, r.x + i, r.y + b);
      }
      forall a, b | 0 <= a < |col| && 0 <= b < |rest|
        ensures col[a].key != rest[b].key
      {
        assert rest[b] in rest;
        PairsFromSound(columns, r, i + 1, shape, rest[b]);
        var cx, cy :| InRange(r, cx, cy) && r.x + i + 1 <= cx && rest[b].key == CellNumber(columns, cx, cy);
        CellNumberRoundTrip(columns, cx, cy);
        CellNumberRoundTrip(columns, r.x + i, r.y + a);
      }
      DistinctKeysAppend(col, rest);
    }
  }

  /**
   * What the map step promises for one shape: nothing for a shape without
   * an MBR or outside the query range, otherwise `width * height` pairs that
   * all carry the shape; inside the grid the keys are distinct, and from
   * row 0 on they are at least 1.
   */
  lemma MapOutputProperties<S>(shapeMbr: Option<Rect>, queryRange: Option<Rect>,
                               overlap: CellRange, columns: int, shape: S)
    ensures var out := MapOutput(shapeMbr, queryRange, overlap, columns, shape);
      && (shapeMbr.None? ==> out == [])
      && (shapeMbr.Some? && queryRange.Some? && !Intersects(shapeMbr.value, queryRange.value)
          ==> out == [])
      && (shapeMbr.Some? && (queryRange.None? || Intersects(shapeMbr.value, queryRange.value))
          ==> |out| == Count(overlap.width) * Count(overlap.height))
      && (forall p :: p in out ==> p.shape == shape)
      && (0 <= overlap.x && overlap.x + overlap.width <= columns ==> DistinctKeys(out))
      && (0 <= overlap.x && overlap.x + overlap.width <= columns && 0 <= overlap.y
          ==> forall p :: p in out ==> p.key >= 1)
  {
    if shapeMbr.Some? && (queryRange.None? || Intersects(shapeMbr.value, queryRange.value)) {
      PairsFromLength(columns, overlap, 0, shape);
      PairsFromShapes(columns, overlap, shape);
      if 0 <= overlap.x && overlap.x + overlap.width <= columns {
        PairsFromDistinct(columns, overlap, 0, shape);
        if 0 <= overlap.y {
          PairsFromPositive(columns, overlap, shape);
        }
      }
    }
  }

  /** Every emitted pair carries the shape being mapped. */
  lemma PairsFromShapes<S>(columns: int, r: CellRange, shape: S)
    ensures forall p :: p in PairsFrom(columns, r, 0, shape) ==> p.shape == shape
  {
    forall p | p in PairsFrom(columns, r, 0, shape)
      ensures p.shape == shape
    {
      PairsFromSound(columns, r, 0, shape, p);
    }
  }

  /** With columns inside the grid and rows from 0 on, every key is at least 1. */
  lemma PairsFromPositive<S>(columns: int, r: CellRange, shape: S)
    requires 0 <= r.x && r.x + r.width <= columns && 0 <= r.y
    ensures forall p :: p in PairsFrom(columns, r, 0, shape) ==> p.key >= 1
  {
    forall p | p in PairsFrom(columns, r, 0, shape)
      ensures p.key >= 1
    {
      PairsFromSound(columns, r, 0, shape, p);
      var cx, cy :| InRange(r, cx, cy) && r.x <= cx && p.key == CellNumber(columns, cx, cy);
    }
  }

  /**
   * `PlotMap.map` for one input shape, written with the source's two nested
   * loops over the overlap rectangle.
   */
  method Map<S>(shapeMbr: Option<Rect>, queryRange: Option<Rect>,
                overlap: CellRange, columns: int, shape: S) returns (out: seq<Pair<S>>)
    ensures out == MapOutput(shapeMbr, queryRange, overlap, columns, shape)
    ensures shapeMbr.None? ==> out == []
    ensures shapeMbr.Some? && queryRange.Some? && !Intersects(shapeMbr.value, queryRange.value)
            ==> out == []
    ensures shapeMbr.Some? && (queryRange.None? || Intersects(shapeMbr.value, queryRange.value))
            ==> |out| == Count(overlap.width) * Count(overlap.height)
    ensures forall p :: p in out ==> p.shape == shape
    ensures 0 <= overlap.x && overlap.x + overlap.width <= columns ==> DistinctKeys(out)
    ensures 0 <= overlap.x && overlap.x + overlap.width <= columns && 0 <= overlap.y
            ==> forall p :: p in out ==> p.key >= 1
  {
    out := [];
    if shapeMbr.None? {
      return;
    }
    if queryRange.Some? && !Intersects(shapeMbr.value, queryRange.value) {
      return;
    }
    var i := 0;
    while i < overlap.width
      invariant 0 <= i
      invariant out + PairsFrom(columns, overlap, i, shape) == PairsFrom(columns, overlap, 0, shape)
      decreases overlap.width - i
    {
      var column := MapColumn(columns, overlap, i, shape);
      assert PairsFrom(columns, overlap, i, shape) == column + PairsFrom(columns, overlap, i + 1, shape);
      out := out + column;
      i := i + 1;
    }
    MapOutputProperties(shapeMbr, queryRange, overlap, columns, shape);
  }

  /** The inner loop of `PlotMap.map`: column `overlap.x + i`, row by row. */
  method MapColumn<S>(columns: int, overlap: CellRange, i: int, shape: S) returns (out: seq<Pair<S>>)
    ensures out == ColumnPairs(columns, overlap, i, shape)
  {
    out := [];
    var x := overlap.x + i;
    var j := 0;
    while j < overlap.height
      invariant 0 <= j <= Count(overlap.height)
      invariant out == ColumnPairs(columns, overlap, i, shape)[..j]
      decreases overlap.height - j
    {
      var y := overlap.y + j;
      ghost var column := ColumnPairs(columns, overlap, i, shape);
      assert column[j] == Pair(CellNumber(columns, x, y), shape);
      assert column[..j + 1] == column[..j] + [column[j]];
      out := out + [Pair(y * columns + x + 1, shape)];
      j := j + 1;
    }
  }
}
