/**
 * `Plot.combineImages`: several finished dataset images are laid out in one
 * picture, each scaled to where its MBR sits within the union of all MBRs.
 */
module Combine {
  import opened Results
  import opened JavaNum
  import opened Geometry
  import opened ImageSize

  /** `Double.MAX_VALUE`, exactly. */
  const MaxDouble: real := 179769313486231570814527423731704356798070567525844996598917476803157260780028538760589558632766878171540458953514382464234321326889464182768467546703537516986049910576551282076245490090389328944075868508455133942304583236903222948165808559332123348274797826204144723168738177180919299881250404026184124858368.0

  /** The starting value of the union: a box turned inside out, covering nothing. */
  const EmptyBox: Rect := Rect(MaxDouble, MaxDouble, -MaxDouble, -MaxDouble)

  /** What `combineImages` finds for one input path. */
  datatype Dataset = Dataset(
    mbr: Rect,                  // the dataset's MBR
    isDir: bool,                // only directories are drawn
    hasDataImage: bool,         // `_data.png` exists in it
    hasPartitionsImage: bool)   // `_partitions.png` exists in it

  /** Which of a dataset's two images a draw call paints. */
  datatype Layer = DataImage | PartitionsImage

  /**
   * The integer arguments of `drawImage(image, x, y, width, height, null)`:
   * the image is scaled into the pixel box `[x, x+width) x [y, y+height)`.
   */
  datatype DrawBox = DrawBox(x: int, y: int, width: int, height: int)

  /** One `drawImage` call onto the combined picture. */
  datatype Draw = Draw(dataset: int, layer: Layer, box: DrawBox)

  /** The combined picture: its size and the draw calls, in order. */
  datatype Combined = Combined(size: Size, draws: seq<Draw>)

  /**
   * The union of the MBRs, expanded one after the other onto `acc`. It
   * covers `acc` and every MBR.
   */
  function UnionFrom(acc: Rect, mbrs: seq<Rect>): (u: Rect)
    ensures forall i :: 0 <= i < |mbrs| ==> Contains(u, mbrs[i])
    ensures u.x1 <= acc.x1 && acc.x2 <= u.x2 && u.y1 <= acc.y1 && acc.y2 <= u.y2
    decreases |mbrs|
  {
    if mbrs == [] then acc
    else
      var u := UnionFrom(Expand(acc, mbrs[0]), mbrs[1..]);
      assert forall i :: 1 <= i < |mbrs| ==> mbrs[i] == mbrs[1..][i - 1];
      u
  }

  /** `allMbr`: the union of all dataset MBRs, starting from the empty box. */
  function AllMbr(datasets: seq<Dataset>): (u: Rect)
    ensures forall i :: 0 <= i < |datasets| ==> Contains(u, datasets[i].mbr)
  {
    var mbrs := seq(|datasets|, i requires 0 <= i < |datasets| => datasets[i].mbr);
    assert forall i :: 0 <= i < |datasets| ==> mbrs[i] == datasets[i].mbr;
    UnionFrom(EmptyBox, mbrs)
  }

  /** A rectangle whose coordinates a Java double can hold. */
  predicate Finite(r: Rect) {
    -MaxDouble <= r.x1 <= MaxDouble && -MaxDouble <= r.x2 <= MaxDouble &&
    -MaxDouble <= r.y1 <= MaxDouble && -MaxDouble <= r.y2 <= MaxDouble
  }

  /**
   * The union adds nothing of its own: each side of it is the matching side
   * of `acc` or of one of the MBRs.
   */
  lemma {:induction false} UnionFromIsTight(acc: Rect, mbrs: seq<Rect>)
    ensures var u := UnionFrom(acc, mbrs);
      && (u.x1 == acc.x1 || exists i :: 0 <= i < |mbrs| && u.x1 == mbrs[i].x1)
      && (u.x2 == acc.x2 || exists i :: 0 <= i < |mbrs| && u.x2 == mbrs[i].x2)
      && (u.y1 == acc.y1 || exists i :: 0 <= i < |mbrs| && u.y1 == mbrs[i].y1)
      && (u.y2 == acc.y2 || exists i :: 0 <= i < |mbrs| && u.y2 == mbrs[i].y2)
    decreases |mbrs|
  {
    if mbrs != [] {
      UnionFromIsTight(Expand(acc, mbrs[0]), mbrs[1..]);
      assert forall i :: 1 <= i < |mbrs| ==> mbrs[i] == mbrs[1..][i - 1];
    }
  }

  /**
   * With at least one dataset and finite coordinates, `allMbr` is exactly
   * the union of the dataset MBRs: it covers each of them, and each of its
   * sides is a side of one of them.
   */
  lemma AllMbrIsUnion(datasets: seq<Dataset>)
    requires |datasets| > 0
    requires forall i :: 0 <= i < |datasets| ==> Finite(datasets[i].mbr)
    ensures forall i :: 0 <= i < |datasets| ==> Contains(AllMbr(datasets), datasets[i].mbr)
    ensures var u := AllMbr(datasets);
      && (exists i :: 0 <= i < |datasets| && u.x1 == datasets[i].mbr.x1)
      && (exists i :: 0 <= i < |datasets| && u.x2 == datasets[i].mbr.x2)
      && (exists i :: 0 <= i < |datasets| && u.y1 == datasets[i].mbr.y1)
      && (exists i :: 0 <= i < |datasets| && u.y2 == datasets[i].mbr.y2)
  {
    var mbrs := seq(|datasets|, i requires 0 <= i < |datasets| => datasets[i].mbr);
    var u := AllMbr(datasets);
    assert forall i :: 0 <= i < |datasets| ==> mbrs[i] == datasets[i].mbr;
    UnionFromIsTight(EmptyBox, mbrs);
    assert Contains(u, mbrs[0]);
    assert Finite(mbrs[0]);
    if u.x1 == EmptyBox.x1 { assert u.x1 == mbrs[0].x1; }
    if u.x2 == EmptyBox.x2 { assert u.x2 == mbrs[0].x2; }
    if u.y1 == EmptyBox.y1 { assert u.y1 == mbrs[0].y1; }
    if u.y2 == EmptyBox.y2 { assert u.y2 == mbrs[0].y2; }
  }

  /**
   * Where a dataset's MBR lands in the combined picture of `width` x
   * `height` pixels: each coordinate is mapped linearly from the union's
   * range onto the picture's. A well-formed MBR inside the union lands
   * inside the picture.
   */
  function Place(mbr: Rect, all: Rect, width: int, height: int): (p: Rect)
    requires Width(all) > 0.0 && Height(all) > 0.0
    ensures WellFormed(mbr) && Contains(all, mbr) && 0 <= width && 0 <= height ==>
      && 0.0 <= p.x1 <= p.x2 <= width as real
      && 0.0 <= p.y1 <= p.y2 <= height as real
  {
    assert WellFormed(mbr) && Contains(all, mbr) && 0 <= width && 0 <= height ==>
      && 0.0 <= Project(mbr.x1, all.x1, all.x2, width) <= Project(mbr.x2, all.x1, all.x2, width) <= width as real
      && 0.0 <= Project(mbr.y1, all.y1, all.y2, height) <= Project(mbr.y2, all.y1, all.y2, height) <= height as real
    by {
      if WellFormed(mbr) && Contains(all, mbr) && 0 <= width && 0 <= height {
        ProjectEnds(all.x1, all.x2, width);
        ProjectEnds(all.y1, all.y2, height);
        ProjectMonotone(all.x1, mbr.x1, all.x1, all.x2, width);
        ProjectMonotone(mbr.x1, mbr.x2, all.x1, all.x2, width);
        ProjectMonotone(mbr.x2, all.x2, all.x1, all.x2, width);
        ProjectMonotone(all.y1, mbr.y1, all.y1, all.y2, height);
        ProjectMonotone(mbr.y1, mbr.y2, all.y1, all.y2, height);
        ProjectMonotone(mbr.y2, all.y2, all.y1, all.y2, height);
      }
    }
    Rect(Project(mbr.x1, all.x1, all.x2, width), Project(mbr.y1, all.y1, all.y2, height),
         Project(mbr.x2, all.x1, all.x2, width), Project(mbr.y2, all.y1, all.y2, height))
  }

  /** The union itself fills the whole picture. */
  lemma PlaceAllMbr(all: Rect, width: int, height: int)
    requires Width(all) > 0.0 && Height(all) > 0.0
    ensures Place(all, all, width, height) == Rect(0.0, 0.0, width as real, height as real)
  {
    ProjectEnds(all.x1, all.x2, width);
    ProjectEnds(all.y1, all.y2, height);
  }

  /**
   * Placement keeps the relative position of two datasets: on a picture of
   * at least one pixel each way, one MBR's side is left of (below) another's
   * exactly when it is so after placement.
   */
  lemma PlacePreservesOrder(a: Rect, b: Rect, all: Rect, width: int, height: int)
    requires Width(all) > 0.0 && Height(all) > 0.0 && 0 < width && 0 < height
    ensures a.x1 <= b.x1 <==> Place(a, all, width, height).x1 <= Place(b, all, width, height).x1
    ensures a.x2 <= b.x2 <==> Place(a, all, width, height).x2 <= Place(b, all, width, height).x2
    ensures a.y1 <= b.y1 <==> Place(a, all, width, height).y1 <= Place(b, all, width, height).y1
    ensures a.y2 <= b.y2 <==> Place(a, all, width, height).y2 <= Place(b, all, width, height).y2
  {
    ProjectOrder(a.x1, b.x1, all.x1, all.x2, width);
    ProjectOrder(a.x2, b.x2, all.x1, all.x2, width);
    ProjectOrder(a.y1, b.y1, all.y1, all.y2, height);
    ProjectOrder(a.y2, b.y2, all.y1, all.y2, height);
  }

  /**
   * The `(int)` casts of the placed corner and sides handed to `drawImage`:
   * for non-negative coordinates and sides, each is cut down to a whole
   * pixel, less than one pixel below the exact value.
   */
  function BoxOf(p: Rect): (b: DrawBox)
    ensures 0.0 <= p.x1 ==> 0 <= b.x && b.x as real <= p.x1 < (b.x + 1) as real
    ensures 0.0 <= p.y1 ==> 0 <= b.y && b.y as real <= p.y1 < (b.y + 1) as real
    ensures 0.0 <= Width(p) ==> 0 <= b.width && b.width as real <= Width(p) < (b.width + 1) as real
    ensures 0.0 <= Height(p) ==> 0 <= b.height && b.height as real <= Height(p) < (b.height + 1) as real
  {
    DrawBox(Trunc(p.x1), Trunc(p.y1), Trunc(Width(p)), Trunc(Height(p)))
  }

  /** A box within the picture of `size`. */
  predicate InCanvas(b: DrawBox, size: Size) {
    0 <= b.x && 0 <= b.width && b.x + b.width <= size.width &&
    0 <= b.y && 0 <= b.height && b.y + b.height <= size.height
  }

  /** Truncating a placement inside the picture gives a box inside the picture. */
  lemma BoxInsideCanvas(p: Rect, size: Size)
    requires 0.0 <= p.x1 <= p.x2 <= size.width as real
    requires 0.0 <= p.y1 <= p.y2 <= size.height as real
    ensures InCanvas(BoxOf(p), size)
  {
    var b := BoxOf(p);
    assert (b.x + b.width) as real <= p.x1 + Width(p);
    assert (b.y + b.height) as real <= p.y1 + Height(p);
  }

  /** The draw box of dataset `d` in the picture of `size`. */
  function DatasetBox(d: Dataset, all: Rect, size: Size): DrawBox
    requires Width(all) > 0.0 && Height(all) > 0.0
  {
    BoxOf(Place(d.mbr, all, size.width, size.height))
  }

  /**
   * The draw calls for dataset `index`: nothing unless it is a directory,
   * then its data image, then its partitions image when boundaries are
   * wanted and the image exists.
   */
  function DatasetDraws(d: Dataset, index: int, box: DrawBox, includeBoundaries: bool): (ds: seq<Draw>)
    ensures forall j :: 0 <= j < |ds| ==> ds[j].dataset == index && ds[j].box == box
    ensures Draw(index, DataImage, box) in ds <==> d.isDir
    ensures Draw(index, PartitionsImage, box) in ds <==> d.isDir && includeBoundaries && d.hasPartitionsImage
    ensures |ds| > 0 ==> ds[0].layer == DataImage
    ensures forall a, b :: 0 <= a < b < |ds| ==> ds[a].layer == DataImage && ds[b].layer == PartitionsImage
  {
    if !d.isDir then []
    else [Draw(index, DataImage, box)] +
         (if includeBoundaries && d.hasPartitionsImage then [Draw(index, PartitionsImage, box)] else [])
  }

  /**
   * The overlay order of a draw list: datasets in input order, and within
   * one dataset the data image before the partitions image. A later draw
   * paints over an earlier one.
   */
  predicate InOverlayOrder(draws: seq<Draw>) {
    forall a, b :: 0 <= a < b < |draws| ==>
      draws[a].dataset < draws[b].dataset ||
      (draws[a].dataset == draws[b].dataset &&
       draws[a].layer == DataImage && draws[b].layer == PartitionsImage)
  }

  /** A directory whose partitions image exists and is asked for. */
  predicate HasBoundaries(d: Dataset, includeBoundaries: bool) {
    d.isDir && includeBoundaries && d.hasPartitionsImage
  }

  /** A directory dataset whose data image is missing. */
  predicate NotReady(d: Dataset) {
    d.isDir && !d.hasDataImage
  }

  /**
   * The second loop of `combineImages`, from dataset `k` on: it fails as
   * soon as a directory lacks its data image. Otherwise every draw call
   * belongs to a directory dataset and uses that dataset's placement; each
   * directory's data image is drawn, and its partitions image exactly when
   * boundaries are wanted and the image exists; the draws come in overlay
   * order.
   */
  function DrawsFrom(datasets: seq<Dataset>, k: int, all: Rect, size: Size,
                     includeBoundaries: bool): (r: Result<seq<Draw>>)
    requires 0 <= k <= |datasets|
    requires Width(all) > 0.0 && Height(all) > 0.0
    ensures r.Failure? <==> exists i :: k <= i < |datasets| && NotReady(datasets[i])
    ensures r.Failure? ==> r.error == ImageNotReady
    ensures r.Success? ==> forall j :: 0 <= j < |r.value| ==>
      var dw := r.value[j];
      && k <= dw.dataset < |datasets|
      && datasets[dw.dataset].isDir
      && dw.box == DatasetBox(datasets[dw.dataset], all, size)
      && (dw.layer == PartitionsImage ==> includeBoundaries && datasets[dw.dataset].hasPartitionsImage)
    ensures r.Success? ==> forall i :: k <= i < |datasets| && datasets[i].isDir ==>
      Draw(i, DataImage, DatasetBox(datasets[i], all, size)) in r.value
    ensures r.Success? ==> forall i :: k <= i < |datasets| && HasBoundaries(datasets[i], includeBoundaries) ==>
      Draw(i, PartitionsImage, DatasetBox(datasets[i], all, size)) in r.value
    ensures r.Success? ==> InOverlayOrder(r.value)
    decreases |datasets| - k
  {
    if k == |datasets| then Success([])
    else if NotReady(datasets[k]) then Failure(ImageNotReady)
    else match DrawsFrom(datasets, k + 1, all, size, includeBoundaries)
      case Failure(e) => Failure(e)
      case Success(rest) =>
        var mine := DatasetDraws(datasets[k], k, DatasetBox(datasets[k], all, size), includeBoundaries);
        OverlayOrderAppend(mine, rest, k);
        Success(mine + rest)
  }

  /**
   * Putting one dataset's draws, in layer order, before draws of later
   * datasets keeps the overlay order.
   */
  lemma OverlayOrderAppend(mine: seq<Draw>, rest: seq<Draw>, k: int)
    requires forall j :: 0 <= j < |mine| ==> mine[j].dataset == k
    requires forall a, b :: 0 <= a < b < |mine| ==> mine[a].layer == DataImage && mine[b].layer == PartitionsImage
    requires forall j :: 0 <= j < |rest| ==> k < rest[j].dataset
    requires InOverlayOrder(rest)
    ensures InOverlayOrder(mine + rest)
  {
    var all := mine + rest;
    forall a, b | 0 <= a < b < |all|
      ensures all[a].dataset < all[b].dataset ||
        (all[a].dataset == all[b].dataset && all[a].layer == DataImage && all[b].layer == PartitionsImage)
    {
      if b < |mine| {
      } else if a >= |mine| {
        assert all[a] == rest[a - |mine|] && all[b] == rest[b - |mine|];
      } else {
        assert all[b] == rest[b - |mine|];
      }
    }
  }

  /**
   * The picture size `combineImages` settles on, before the image is
   * created: the side that is relatively too long is recomputed and cut by
   * the `(int)` cast, always without rounding to even. A requested height
   * of 0 makes Java's `(double) width / height` an infinity or NaN; in each
   * of those cases a side of the result is 0 or negative, so the picture
   * cannot be created.
   */
  function CombineSize(mbrWidth: real, mbrHeight: real, width: int, height: int): (r: Size)
    requires mbrWidth > 0.0 && mbrHeight > 0.0
    ensures height == 0 ==> r.width <= 0 || r.height <= 0
    ensures width > 0 && height > 0 ==> r == KeepAspect(mbrWidth, mbrHeight, width, height, false)
    ensures width > 0 && height < 0 ==>
      && r.width == width
      && 0 <= r.height
      && r.height as real <= Scaled(mbrHeight, width, mbrWidth) < (r.height + 1) as real
  {
    if height == 0 then
      // width / 0.0 is +Infinity (never exceeded), NaN (the comparison is
      // false) or -Infinity (always exceeded)
      if width >= 0 then Size(Trunc(Scaled(mbrWidth, height, mbrHeight)), height)
      else
        NegativeScaled(mbrHeight, width, mbrWidth);
        Size(width, Trunc(Scaled(mbrHeight, width, mbrWidth)))
    else if mbrWidth / mbrHeight > (width as real) / (height as real) then
      assert width > 0 && height < 0 ==> Scaled(mbrHeight, width, mbrWidth) > 0.0 by {
        if width > 0 { PositiveQuotient(mbrHeight, width as real, mbrWidth); }
      }
      Size(width, Trunc(Scaled(mbrHeight, width, mbrWidth)))
    else
      Size(Trunc(Scaled(mbrWidth, height, mbrHeight)), height)
  }

  /**
   * A negative requested height is not rejected: the ratio test sees the
   * square MBR as wider than a request of 100 by -50, so the height is
   * recomputed from the width and a 100 x 100 picture results.
   */
  lemma NegativeHeightSquare()
    ensures CombineSize(10.0, 10.0, 100, -50) == Size(100, 100)
  {
  }

  /**
   * For a union 1000 times wider than high, the same kind of request has its
   * height truncated to 0, so the picture cannot be created.
   */
  lemma NegativeHeightWideUnion()
    ensures CombineSize(1000.0, 1.0, 100, -50) == Size(100, 0)
  {
  }

  /** A negative pixel count scales to a non-positive side. */
  lemma NegativeScaled(side: real, pixels: int, otherSide: real)
    requires side > 0.0 && otherSide > 0.0 && pixels < 0
    ensures Scaled(side, pixels, otherSide) < 0.0
  {
    PositiveQuotient(side, -pixels as real, otherSide);
    assert Scaled(side, pixels, otherSide) == -(side * (-pixels as real) / otherSide);
  }

  /**
   * `combineImages`: the union of all MBRs sets the picture's aspect ratio,
   * then each directory's images are drawn at their placement. With one
   * dataset or more, finite well-formed MBRs and a union of positive area,
   * it fails exactly when the picture would have a side of 0 or less or
   * some directory's data image is missing; the picture is created before
   * any image is looked at, so an empty side wins. Otherwise the picture has
   * the size `CombineSize` settles on, within the request when that is
   * positive; every
   * directory's data image is drawn, its partitions image exactly when asked
   * for and present, each inside the picture and in overlay order.
   */
  function CombineImages(datasets: seq<Dataset>, includeBoundaries: bool,
                         width: int, height: int): (r: Result<Combined>)
    requires |datasets| > 0
    requires forall i :: 0 <= i < |datasets| ==> Finite(datasets[i].mbr) && WellFormed(datasets[i].mbr)
    requires Width(AllMbr(datasets)) > 0.0 && Height(AllMbr(datasets)) > 0.0
    ensures r.Failure? <==>
      var size := CombineSize(Width(AllMbr(datasets)), Height(AllMbr(datasets)), width, height);
      size.width <= 0 || size.height <= 0 || exists i :: 0 <= i < |datasets| && NotReady(datasets[i])
    ensures r.Failure? ==> r.error == EmptyImage || r.error == ImageNotReady
    ensures var size := CombineSize(Width(AllMbr(datasets)), Height(AllMbr(datasets)), width, height);
      size.width <= 0 || size.height <= 0 ==> r == Failure(EmptyImage)
    ensures height == 0 ==> r.Failure?
    ensures r.Success? ==> 0 < r.value.size.width && 0 < r.value.size.height
    ensures r.Success? ==> r.value.size == CombineSize(Width(AllMbr(datasets)), Height(AllMbr(datasets)), width, height)
    ensures r.Success? && width > 0 && height > 0 ==>
      && r.value.size == KeepAspect(Width(AllMbr(datasets)), Height(AllMbr(datasets)), width, height, false)
      && r.value.size.width <= width && r.value.size.height <= height
    ensures r.Success? ==> forall j :: 0 <= j < |r.value.draws| ==> InCanvas(r.value.draws[j].box, r.value.size)
    ensures r.Success? ==> forall i :: 0 <= i < |datasets| && datasets[i].isDir ==>
      Draw(i, DataImage, DatasetBox(datasets[i], AllMbr(datasets), r.value.size)) in r.value.draws
    ensures r.Success? ==> forall i :: 0 <= i < |datasets| && HasBoundaries(datasets[i], includeBoundaries) ==>
      Draw(i, PartitionsImage, DatasetBox(datasets[i], AllMbr(datasets), r.value.size)) in r.value.draws
    ensures r.Success? ==> forall j :: 0 <= j < |r.value.draws| ==>
      var dw := r.value.draws[j];
      && 0 <= dw.dataset < |datasets|
      && datasets[dw.dataset].isDir
      && dw.box == DatasetBox(datasets[dw.dataset], AllMbr(datasets), r.value.size)
      && (dw.layer == PartitionsImage ==> includeBoundaries && datasets[dw.dataset].hasPartitionsImage)
    ensures r.Success? ==> InOverlayOrder(r.value.draws)
  {
    var all := AllMbr(datasets);
    var size := CombineSize(Width(all), Height(all), width, height);
    if size.width <= 0 || size.height <= 0 then Failure(EmptyImage)
    else match DrawsFrom(datasets, 0, all, size, includeBoundaries)
      case Failure(e) => Failure(e)
      case Success(draws) =>
        AllMbrIsUnion(datasets);
        CombinedDrawsInCanvas(datasets, all, size, draws);
        Success(Combined(size, draws))
  }

  /** Every draw box of a successful layout lies inside the picture. */
  lemma CombinedDrawsInCanvas(datasets: seq<Dataset>, all: Rect, size: Size, draws: seq<Draw>)
    requires Width(all) > 0.0 && Height(all) > 0.0 && 0 <= size.width && 0 <= size.height
    requires forall i :: 0 <= i < |datasets| ==> WellFormed(datasets[i].mbr) && Contains(all, datasets[i].mbr)
    requires forall j :: 0 <= j < |draws| ==>
      0 <= draws[j].dataset < |datasets| && draws[j].box == DatasetBox(datasets[draws[j].dataset], all, size)
    ensures forall j :: 0 <= j < |draws| ==> InCanvas(draws[j].box, size)
  {
    forall j | 0 <= j < |draws|
      ensures InCanvas(draws[j].box, size)
    {
      var d := datasets[draws[j].dataset];
      BoxInsideCanvas(Place(d.mbr, all, size.width, size.height), size);
    }
  }
}
