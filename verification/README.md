# SpatialHadoop plot core in Dafny

This project models the pure logic inside SpatialHadoop's `Plot` operation and inside the value-bearing point `NASAPoint`. All of it is written over exact `real` and unbounded `int`:

- **Map-side replication** (`PlotMap.map`): a shape goes to every grid cell its MBR overlaps, keyed by the cell number `y * columns + x + 1`. Shapes without an MBR, or outside the query range, are dropped.
- **Vertical flip** of the file MBR (`PlotReduce.configure`, `plotLocal`).
- **Tile pixel rectangle** of a cell (`PlotReduce.reduce`): the lower corner is rounded down, the upper corner up, and Y is aware of the flip.
- **Aspect-ratio adjustment** of the requested image size. When `plotMapReduce` recomputes the height, it also rounds it down to an even number. When it keeps the requested height and recomputes the width instead, an odd height stays odd.
- **Local-versus-distributed choice** of `plot`.
- **`combineImages`**: the union of the dataset MBRs, the proportional placement of each dataset image, and the "image not ready" error.
- **`drawScale`**: the hue gradient, the label values, and the label row. The label step is an input.
- **`NASAPoint`**:
  - the three-way colour branch of `draw`, with `MaxHue` = 2/3, the hue of RGB(0, 0, 255);
  - the binary `write`/`readFields` of the value: four big-endian two's-complement bytes after the parent point's fields.

## Modules

| file | module | contents |
|---|---|---|
| results.dfy | `Results` | `Option`, `Result` and the error kinds |
| java_num.dfy | `JavaNum` | Java's `(int)` cast, truncating `/`, `Math.floor`/`ceil`, `int` and `byte` ranges |
| geometry.dfy | `Geometry` | rectangles, `expand`, the vflip rewrite, the linear world-to-pixel projection |
| plot_map.dfy | `PlotMap` | cell numbering, the map step as nested loops, and its reference definition |
| tile_layout.dfy | `TileLayout` | reducer set-up, tile rectangles, no-gap and coverage lemmas |
| image_size.dfy | `ImageSize` | aspect-ratio adjustment |
| exec_mode.dfy | `ExecMode` | the local-versus-distributed choice |
| combine.dfy | `Combine` | `combineImages` |
| value_color.dfy | `ValueColor` | `NASAPoint.draw` colour classification |
| value_codec.dfy | `ValueCodec` | `NASAPoint.write` / `readFields` |
| scale_legend.dfy | `ScaleLegend` | `drawScale` gradient and labels |

Notes on how the code is followed:

- `plot` always computes the automatic choice before it looks at the `local` flag. A zero block size therefore throws even when the flag is given (`ExecMode.IsLocal`).
- The Javadoc of `PlotMap` (Plot.java:83-90) says blocks that are already partitioned pass through unchanged, as an identity map. The `map` method (Plot.java:106-124) never looks at its `cell` argument and always replicates the shape to every overlapping cell. The model follows the code (`PlotMap.Map`).
- `combineImages` does not reject a zero or negative requested size. A requested height of 0 turns `(double) width / height` into an infinity or NaN, and each of those cases leaves the picture with a side of 0 or less, so the picture cannot be created. A negative height with a positive width passes the ratio test, and the height is recomputed as a non-negative number. For a very wide union that number is 0, and the picture then cannot be created either (`Combine.CombineSize`, `Combine.NegativeHeightSquare`, `Combine.NegativeHeightWideUnion`).
- A value equal to `minValue` gets `MaxHue` only when the range is non-empty. If `minValue == maxValue`, such a value falls into the red branch (`ValueColor.ColorOf`).

## Model

| member | source | states |
|---|---|---|
| PlotMap.Map | src/edu/umn/cs/spatialHadoop/operations/Plot.java:106-124 | The two nested loops emit exactly the reference output `MapOutput`. A shape with no MBR, or one missing a set query range, yields nothing. Otherwise the output has width*height pairs, all carrying the shape. The keys are distinct when the columns lie in the grid, and at least 1 from row 0 on |
| PlotMap.MapOutput | src/edu/umn/cs/spatialHadoop/operations/Plot.java:109-123 | The reference output: every pair carries the shape, and the output is empty or has one pair per cell of the overlap rectangle |
| PlotMap.CellNumber | src/edu/umn/cs/spatialHadoop/operations/Plot.java:120 | A cell whose column is inside the grid and whose row is 0 or more gets a key of at least 1 |
| PlotMap.MapColumn | src/edu/umn/cs/spatialHadoop/operations/Plot.java:117-122 | The inner loop emits the pairs of one column, one row after another |
| PlotMap.MapOutputProperties | src/edu/umn/cs/spatialHadoop/operations/Plot.java:109-123 | For the reference output: the null-MBR and query-range skips, the pair count, the shape in each pair, distinct keys and positive keys |
| PlotMap.PairsFromLength | src/edu/umn/cs/spatialHadoop/operations/Plot.java:116-122 | From outer iteration i on, the loops emit (width-i)*height pairs, with a negative count giving no iterations |
| PlotMap.PairsFromComplete | src/edu/umn/cs/spatialHadoop/operations/Plot.java:115-123 | Every cell of the overlap rectangle receives the shape under its own cell number |
| PlotMap.PairsFromSound | src/edu/umn/cs/spatialHadoop/operations/Plot.java:115-123 | Every emitted pair holds the shape and the number of a cell inside the overlap rectangle |
| PlotMap.PairsFromDistinct | src/edu/umn/cs/spatialHadoop/operations/Plot.java:115-123 | When the rectangle's columns lie within [0, columns), no two emitted keys are equal |
| PlotMap.PairsFromPositive | src/edu/umn/cs/spatialHadoop/operations/Plot.java:120 | Columns inside the grid and rows from 0 on give keys of at least 1 |
| PlotMap.CellOf | src/edu/umn/cs/spatialHadoop/operations/Plot.java:120 | Any key decodes to a cell whose column is in [0, columns) and whose number is that key |
| PlotMap.CellNumberRoundTrip | src/edu/umn/cs/spatialHadoop/operations/Plot.java:120 | The key of a cell with its column inside the grid decodes back to that cell, so keys identify cells |
| Geometry.VFlip | src/edu/umn/cs/spatialHadoop/operations/Plot.java:154-158 | The flip leaves the x range, the width and the height unchanged, and keeps an MBR well formed exactly when it was |
| Geometry.VFlipInvolution | src/edu/umn/cs/spatialHadoop/operations/Plot.java:421-425 | Flipping twice restores the original MBR |
| Geometry.VFlipMapsPoints | src/edu/umn/cs/spatialHadoop/operations/Plot.java:470-474 | A height y lies in the MBR exactly when -y lies in the flipped MBR |
| Geometry.VFlipRaisesHigherPoints | src/edu/umn/cs/spatialHadoop/operations/Plot.java:175-177 | Projected over the flipped MBR, a higher world point gets a strictly smaller pixel row. The MBR's bottom lands on the last row and its top on row 0 |
| Geometry.Expand | src/edu/umn/cs/spatialHadoop/operations/Plot.java:597 | The expanded rectangle covers both inputs, and each of its sides comes from one of them |
| Geometry.Project | src/edu/umn/cs/spatialHadoop/operations/Plot.java:174-177 | The world-to-pixel map sends the low end of the range to pixel 0 and the high end to pixel n. A coordinate inside the range lands inside [0, n] |
| Geometry.ProjectMonotone | src/edu/umn/cs/spatialHadoop/operations/Plot.java:616-619 | With a non-negative pixel count, a smaller coordinate is never placed after a larger one |
| Geometry.ProjectStrictlyMonotone | src/edu/umn/cs/spatialHadoop/operations/Plot.java:616-619 | With at least one pixel, a strictly smaller coordinate is placed strictly before |
| Geometry.ProjectOrder | src/edu/umn/cs/spatialHadoop/operations/Plot.java:616-619 | With at least one pixel, the world-to-pixel map preserves and reflects the order of coordinates |
| TileLayout.Configure | src/edu/umn/cs/spatialHadoop/operations/Plot.java:143-165 | The reducer keeps the flipped MBR when vflip is on. scale2 times the original MBR area equals the pixel count. The value range defaults to 0 and 65535 |
| TileLayout.TileRect | src/edu/umn/cs/spatialHadoop/operations/Plot.java:174-179 | A well-formed cell gets a non-negative tile width and height. The integer rectangle contains the exact projection of the cell, which is -y2/-y1 under vflip |
| TileLayout.WholeMbrTile | src/edu/umn/cs/spatialHadoop/operations/Plot.java:174-177 | The cell equal to the file MBR is drawn onto the whole image, with or without vflip |
| TileLayout.AdjacentColumnsLeaveNoGap | src/edu/umn/cs/spatialHadoop/operations/Plot.java:174-176 | When one cell's x2 is the next cell's x1, the second tile starts no later than the first ends, and at most one column overlaps |
| TileLayout.AdjacentRowsLeaveNoGap | src/edu/umn/cs/spatialHadoop/operations/Plot.java:175-177 | Stacked cells give tiles that meet without a gap and share at most one row. The order is reversed under vflip |
| TileLayout.TilesCoverColumns | src/edu/umn/cs/spatialHadoop/operations/Plot.java:174-176 | A chain of cells spanning the MBR left to right leaves no pixel column of the image uncovered |
| TileLayout.TilesCoverRows | src/edu/umn/cs/spatialHadoop/operations/Plot.java:175-177 | A chain of cells spanning the MBR bottom to top leaves no pixel row uncovered, with or without vflip |
| TileLayout.FlippedTilesCoverRows | src/edu/umn/cs/spatialHadoop/operations/Plot.java:175-177 | The vflip case of row coverage: the cells, taken top down, cover every row |
| TileLayout.FlippedTileRows | src/edu/umn/cs/spatialHadoop/operations/Plot.java:175-177 | Under vflip, a tile's rows are the floor of the projected -y2 and the ceiling of the projected -y1 |
| ImageSize.KeepAspect | src/edu/umn/cs/spatialHadoop/operations/Plot.java:332-342 | Either the width is kept and the height shrinks, or the height is kept and the width shrinks. The new side stays within the requested one, at most one pixel below the exact proportional side (two when rounded to even), and even when asked |
| ImageSize.FitWidth | src/edu/umn/cs/spatialHadoop/operations/Plot.java:334-338 | For an MBR relatively wider than the image, the width stays and the new height is at most the requested one, even when asked, and within 2 pixels of the exact side |
| ImageSize.FitHeight | src/edu/umn/cs/spatialHadoop/operations/Plot.java:339-341 | Otherwise the height stays and the new width is at most the requested one, within 1 pixel of the exact side |
| ImageSize.ShrunkSide | src/edu/umn/cs/spatialHadoop/operations/Plot.java:336-338 | The (int) cast and the optional `& 0xfffffffe` give a non-negative side not above the exact one, less than one pixel below it, or two when rounded to even, and even when asked |
| ImageSize.ClearLowBit | src/edu/umn/cs/spatialHadoop/operations/Plot.java:338 | Clearing the low bit gives the even number at or just below the height |
| ImageSize.AdjustSize | src/edu/umn/cs/spatialHadoop/operations/Plot.java:476-484 | Without keep-ratio the request is unchanged. Otherwise one side is kept and neither side exceeds its request |
| ImageSize.AdjustSizeIgnoresVFlip | src/edu/umn/cs/spatialHadoop/operations/Plot.java:421-435 | Adjusting the size after the vflip rewrite gives the same size as before it |
| ImageSize.SquareMbrExample | src/edu/umn/cs/spatialHadoop/operations/Plot.java:332-342 | A square MBR requested at 100x50 becomes 50x50 |
| ExecMode.AutoLocal | src/edu/umn/cs/spatialHadoop/operations/Plot.java:522-523 | A wildcard or a directory is never local. A plain file is local exactly when len/blockSize <= 3 in truncating division, and a zero block size raises a division error |
| ExecMode.IsLocal | src/edu/umn/cs/spatialHadoop/operations/Plot.java:522-524 | An explicit flag decides, except that the automatic choice's division error is raised first. Without a flag the automatic choice decides |
| ExecMode.AutoLocalMeansUnderFourBlocks | src/edu/umn/cs/spatialHadoop/operations/Plot.java:522-523 | For a plain file with a positive block size, the automatic choice is "length below four blocks" |
| Combine.AllMbr | src/edu/umn/cs/spatialHadoop/operations/Plot.java:592-598 | The union of the dataset MBRs covers every one of them |
| Combine.UnionFrom | src/edu/umn/cs/spatialHadoop/operations/Plot.java:592-598 | The expanded MBR covers the starting box and every dataset MBR |
| Combine.UnionFromIsTight | src/edu/umn/cs/spatialHadoop/operations/Plot.java:594-598 | Each side of the expanded MBR is the starting box's or one dataset MBR's |
| Combine.AllMbrIsUnion | src/edu/umn/cs/spatialHadoop/operations/Plot.java:592-598 | Starting from the empty box, allMbr is exactly the union: it covers every dataset MBR, and each of its sides is one of theirs |
| Combine.PlaceAllMbr | src/edu/umn/cs/spatialHadoop/operations/Plot.java:616-619 | The union itself is placed on the whole picture [0,width]x[0,height] |
| Combine.Place | src/edu/umn/cs/spatialHadoop/operations/Plot.java:616-619 | For a picture of non-negative size, a well-formed MBR inside the union is placed inside [0,width]x[0,height] with its sides in order |
| Combine.PlacePreservesOrder | src/edu/umn/cs/spatialHadoop/operations/Plot.java:616-619 | Placement preserves and reflects the x and y order of the datasets' sides |
| Combine.BoxOf | src/edu/umn/cs/spatialHadoop/operations/Plot.java:629-630 | For non-negative values, each `(int)` cast of the corner, width and height is a whole pixel at most the exact value and less than one below it |
| Combine.BoxInsideCanvas | src/edu/umn/cs/spatialHadoop/operations/Plot.java:629-630 | The (int) casts of a placement inside the picture give a draw box inside the picture |
| Combine.DatasetDraws | src/edu/umn/cs/spatialHadoop/operations/Plot.java:612-647 | A non-directory gets no draw. A directory gets its data image, then its partitions image exactly when boundaries are asked for and the image exists, both at the dataset's box |
| Combine.DrawsFrom | src/edu/umn/cs/spatialHadoop/operations/Plot.java:610-649 | The loop fails exactly when a directory lacks its data image. Otherwise only directories are drawn, each at its placement. Every directory's data image is drawn. Its partitions image is drawn exactly when boundaries are asked for and the image exists. The draws follow the input order, each data image before its partitions image |
| Combine.OverlayOrderAppend | src/edu/umn/cs/spatialHadoop/operations/Plot.java:610-649 | One dataset's draws in layer order, placed before draws of later datasets, keep the overlay order |
| Combine.CombineSize | src/edu/umn/cs/spatialHadoop/operations/Plot.java:600-606 | For a positive request the size is the aspect-ratio adjustment without rounding to even. A requested height of 0 gives a side of 0 or less. A negative height with a positive width keeps the width, and the height becomes the truncated proportional side |
| Combine.NegativeHeightSquare | src/edu/umn/cs/spatialHadoop/operations/Plot.java:600-606 | A square MBR requested at 100 by -50 gives a 100x100 picture |
| Combine.NegativeHeightWideUnion | src/edu/umn/cs/spatialHadoop/operations/Plot.java:600-607 | A union 1000 times wider than high, requested at 100 by -50, gets height 0, so no picture can be created |
| Combine.CombineImages | src/edu/umn/cs/spatialHadoop/operations/Plot.java:588-652 | Fails exactly when the adjusted picture has a side of 0 or less or some directory's data image is missing. A side of 0 or less always gives the empty-image error, since the picture is created before the loop, so a requested height of 0 always fails. On success the size is the one `CombineSize` settles on, with both sides positive; for a positive request it is the aspect-ratio adjustment and within the request. Each draw belongs to a directory and sits at that dataset's box. Every directory's data image is drawn. Its partitions image is drawn exactly when boundaries are asked for and the image exists. Every draw lies inside the picture, and the draws come in overlay order |
| Combine.CombinedDrawsInCanvas | src/edu/umn/cs/spatialHadoop/operations/Plot.java:628-645 | Every draw box of datasets inside the union lies within the picture |
| ValueColor.ColorOf | src/edu/umn/cs/spatialHadoop/nasa/NASAPoint.java:84-92 | Saturation is 0.5 and brightness 1 in every branch. The hue is in [0, MaxHue]. A value below the range is blue (MaxHue), one inside it has hue in (0, MaxHue], and one at or above the top is red (0) |
| ValueColor.Interpolate | src/edu/umn/cs/spatialHadoop/nasa/NASAPoint.java:88 | The hue is MaxHue at minValue and 0 at maxValue |
| ValueColor.InterpolateInRange | src/edu/umn/cs/spatialHadoop/nasa/NASAPoint.java:88 | Inside [min, max) the interpolated hue is above 0 and at most MaxHue |
| ValueColor.MiddleBranch | src/edu/umn/cs/spatialHadoop/nasa/NASAPoint.java:87-89 | Reaching the middle branch implies min < max, so the division is defined. The hue is the linear interpolation, and it equals MaxHue at the minimum |
| ValueColor.MaxValueIsRed | src/edu/umn/cs/spatialHadoop/nasa/NASAPoint.java:90-91 | A value equal to maxValue is red, where the interpolation would also reach 0 |
| ValueColor.MidpointHue | src/edu/umn/cs/spatialHadoop/nasa/NASAPoint.java:88 | The middle of the range gets half of MaxHue |
| ValueColor.HueMonotone | src/edu/umn/cs/spatialHadoop/nasa/NASAPoint.java:84-92 | Across all three branches and for any range, a larger value never gets a larger hue |
| ValueCodec.WriteInt | src/edu/umn/cs/spatialHadoop/nasa/NASAPoint.java:41 | writeInt gives four bytes whose big-endian base-256 value is the int's two's-complement pattern |
| ValueCodec.ReadInt | src/edu/umn/cs/spatialHadoop/nasa/NASAPoint.java:47 | readInt gives the int whose two's-complement pattern is the big-endian value of the four bytes |
| ValueCodec.SplitBytes | src/edu/umn/cs/spatialHadoop/nasa/NASAPoint.java:41 | Any 32-bit pattern is the big-endian value of its four base-256 digits |
| ValueCodec.ReadWriteInt | src/edu/umn/cs/spatialHadoop/nasa/NASAPoint.java:38-48 | readInt of the four bytes writeInt produced gives back the same int |
| ValueCodec.WriteReadInt | src/edu/umn/cs/spatialHadoop/nasa/NASAPoint.java:38-48 | writeInt of what readInt read gives back the same four bytes |
| ValueCodec.Write | src/edu/umn/cs/spatialHadoop/nasa/NASAPoint.java:38-42 | write outputs the parent's bytes unchanged, followed by four bytes of value |
| ValueCodec.ReadFields | src/edu/umn/cs/spatialHadoop/nasa/NASAPoint.java:44-48 | readFields succeeds exactly when parent size plus 4 bytes are available, and raises EOF otherwise. On success, writing back the decoded parts reproduces the input |
| ValueCodec.ReadSplits | src/edu/umn/cs/spatialHadoop/nasa/NASAPoint.java:47 | Re-encoding the int read at an offset restores the surrounding input |
| ValueCodec.RoundTrip | src/edu/umn/cs/spatialHadoop/nasa/NASAPoint.java:38-48 | For a fixed parent encoding, readFields of write's output, followed by any bytes, returns the parent, the value and the rest |
| ScaleLegend.GradientHue | src/edu/umn/cs/spatialHadoop/operations/Plot.java:549-551 | Each gradient row gets a hue in [0, MaxHue) |
| ScaleLegend.GradientHueIncreasing | src/edu/umn/cs/spatialHadoop/operations/Plot.java:549-551 | Lower rows get strictly larger hues |
| ScaleLegend.RoundToStep | src/edu/umn/cs/spatialHadoop/operations/Plot.java:560-561 | `v / step * step` is a multiple of the step, on the same side of 0 as v and less than one step closer to 0 |
| ScaleLegend.LabelValues | src/edu/umn/cs/spatialHadoop/operations/Plot.java:563 | The labels are non-empty exactly when first <= last. They start at first, and all lie in [first, last] |
| ScaleLegend.LabelRange | src/edu/umn/cs/spatialHadoop/operations/Plot.java:563 | The for loop yields exactly the reference sequence of label values |
| ScaleLegend.LabelLoop | src/edu/umn/cs/spatialHadoop/operations/Plot.java:560-563 | The labels run from the rounded minimum to the rounded maximum |
| ScaleLegend.LabelLoopProperties | src/edu/umn/cs/spatialHadoop/operations/Plot.java:560-563 | Every label is a multiple of the step and at most the rounded maximum. The first is the rounded minimum, consecutive labels differ by the step, and one more step would pass the maximum |
| ScaleLegend.LabelValueAt | src/edu/umn/cs/spatialHadoop/operations/Plot.java:563 | Label i is first + i*step |
| ScaleLegend.LabelValuesProgression | src/edu/umn/cs/spatialHadoop/operations/Plot.java:563 | Label i is first + i*step, no label passes last, and the next would |
| ScaleLegend.LabelValuesMultiples | src/edu/umn/cs/spatialHadoop/operations/Plot.java:563 | Starting from a multiple of the step, every label is a multiple of it |
| ScaleLegend.LabelYAsWritten | src/edu/umn/cs/spatialHadoop/operations/Plot.java:564 | The division throws exactly when minValue == maxValue |
| ScaleLegend.LabelYAsWrittenMisplaces | src/edu/umn/cs/spatialHadoop/operations/Plot.java:564 | On the range 1000 to 2000 with a 1024-pixel legend, the minimum's label lands at the top and the maximum's at row -976 |
| ScaleLegend.LabelY | src/edu/umn/cs/spatialHadoop/operations/Plot.java:564 | The corrected row fails exactly when the range is empty |
| ScaleLegend.LabelYInLegend | src/edu/umn/cs/spatialHadoop/operations/Plot.java:564 | With the corrected row, every value of the range is labelled between the font size and the bottom row. The minimum is at the bottom and the maximum at the font size |
| ScaleLegend.LabelYMonotone | src/edu/umn/cs/spatialHadoop/operations/Plot.java:564 | With the corrected row, larger values are labelled at the same row or higher |
| JavaNum.Trunc | src/edu/umn/cs/spatialHadoop/operations/Plot.java:336 | An (int) cast rounds toward zero: down for positive values, up for negative ones |
| JavaNum.Floor | src/edu/umn/cs/spatialHadoop/operations/Plot.java:174-175 | Math.floor gives the largest integer at or below the value |
| JavaNum.Ceil | src/edu/umn/cs/spatialHadoop/operations/Plot.java:176-177 | Math.ceil gives the smallest integer at or above the value |
| JavaNum.Quot | src/edu/umn/cs/spatialHadoop/operations/Plot.java:523 | Java's / truncates: the remainder has the dividend's sign and is smaller than the divisor in magnitude |
| JavaNum.Div | src/edu/umn/cs/spatialHadoop/operations/Plot.java:523 | Integer division raises an arithmetic error exactly for a zero divisor, and otherwise truncates |

## Left out

- Hadoop plumbing is not modelled: job set-up, cluster status, input and output formats, the output committer that merges part images, and file-system calls. These are framework I/O. Whether a path is a wildcard or a directory, its length, its block size, the dataset MBRs and whether `_data.png`/`_partitions.png` exist all become inputs.
- AWT and ImageIO drawing is not modelled (`BufferedImage`, `Graphics2D`, `drawImage`, `Color.getHSBColor`/`HSBtoRGB`, PNG writing). The model stops at HSB values, pixel rectangles and the arguments of each draw call.
- The `drawScale` step computation (`Math.log10`, `Math.round`, `Math.pow`) is not modelled, because it is floating point. The step is an input, required to be positive.
- Java `double` and `float` rounding is not modelled: coordinates, scales and hues are exact reals, and `MaxHue` is exactly 2/3 rather than its `float` approximation.
- GridInfo.java is not part of this model. `getOverlappingCells` becomes an input cell range, and `getCell` (number to cell in `reduce`) and `calculateCellDimensions` are not modelled.
- Point.java is not part of this model: the parent point's serialization is an opaque byte prefix, and its drawing is not modelled.
- Rectangle.java is not part of this model. `isIntersected` is taken as open-interior overlap, and `expand` as coordinate-wise min/max.
- TextSerializerHelper.java is not part of this model, so `NASAPoint.toText`/`fromText` are not modelled.
- The static `NASAPoint.minValue`/`maxValue` become parameters. Concurrent reducers writing them are not modelled.
- The `plotLocal` HDF branch's filter `shape.isIntersected(shape)` is not modelled: it compares a shape with itself.
- The HDF default MBRs (`-180,-140,180,169` and `-180,-90,180,90`) are not modelled. The MBR is always an input.
- PlotMap.Map: the cell number is an unbounded integer; the 32-bit wrap-around of `y * columns + x + 1` for very large grids is not modelled.
- TileLayout.TileRect: requires an MBR with positive width and height. The `(int)` casts of `Math.floor`/`ceil` are taken as exact, and the saturation of doubles beyond the `int` range is not modelled.
- TileLayout.Configure: requires an MBR with positive width and height. The infinite or NaN `scale2` of a degenerate MBR is not modelled.
- ImageSize.KeepAspect: requires positive MBR sides and positive requested sizes. Division by a zero side (infinity or NaN in Java) is not modelled.
- ImageSize.AdjustSize: carries the same positive-size requirement as KeepAspect.
- Combine.CombineImages: requires at least one dataset, finite well-formed MBRs and a union of positive area. With no datasets the Java code divides by the inverted empty box, and a union without area divides by 0; neither is modelled. Any requested size is accepted. A picture side of 0 or less is reported as an error, where Java's `BufferedImage` constructor throws.
- Combine.CombineSize: a requested height of 0 is modelled by which branch Java's infinity or NaN takes, not by the double values themselves. A request with a negative width is constrained only through the side test in `Combine.CombineImages`.
- ScaleLegend.LabelLoop: the 32-bit overflow of `value += step` near `Integer.MAX_VALUE` is not modelled.
- ScaleLegend.LabelYAsWritten: the 32-bit overflow of `value * (height - fontSize)` is not modelled.
- ValueColor.ColorOf: the `float` arithmetic of `value - minValue` and of the hue is exact here.

## Findings

| source | as written | input that shows it | evidently intended | confidence | as-written member | corrected member |
|---|---|---|---|---|---|---|
| src/edu/umn/cs/spatialHadoop/operations/Plot.java:564 | The label row is `fontSize + (height - fontSize) - value * (height - fontSize) / (max - min)`, which scales `value` itself. | minValue 1000, maxValue 2000, height 1024: the label for 1000 is at row 24, the top, where the maximum belongs, and the label for 2000 is at row -976, outside the image | Scale `value - minValue`, so the minimum sits on the bottom row and the maximum at the font size | medium, not executed; the as-written row is right only when minValue is 0 | ScaleLegend.LabelYAsWrittenMisplaces | ScaleLegend.LabelYInLegend |
