/**
 * The per-column edge trace of the vision sandbox, stated as values.
 *
 * The camera callback runs an edge detector over every frame and then, for
 * every eighth column of the edge image, walks upward from six rows above
 * the bottom edge of the frame to row 1, stopping at the first pixel whose
 * value is 255. The pixel it stops at (or row 0 when it finds none) becomes
 * one point of the trace. The overlay then draws a polyline through the
 * points and one line from the bottom of the frame up to every point.
 *
 * This module holds the specification of that scan and overlay and the
 * properties proved about it; the camera callback that computes them with
 * loops is `VisionSandbox.TestingActivity.OnCameraFrame`.
 */
module EdgeTrace {

  /** Distance between two sampled columns (`stepSize`). */
  const StepSize: int := 8

  /** Value the edge detector writes into an edge pixel. */
  const EdgeValue: int := 255

  /** A point of the trace, column first: `new Point(j, i)`. */
  datatype Point = Point(x: int, y: int)

  /** A line handed to the drawing routine, from `from` to `to`. */
  datatype Segment = Segment(from: Point, to: Point)

  /**
   * A single-channel image: `height` rows of `width` pixels each. Row `i`,
   * column `j` is `pixels[i][j]`, the first channel of `get(i, j)`.
   */
  datatype Image = Image(height: nat, width: nat, pixels: seq<seq<int>>)
  {
    /** Every image has `height` rows of exactly `width` pixels. */
    predicate Valid()
    {
      |pixels| == height && forall i :: 0 <= i < |pixels| ==> |pixels[i]| == width
    }

    function Get(i: int, j: int): int
      requires Valid() && 0 <= i < height && 0 <= j < width
    {
      pixels[i][j]
    }

    /** The same image with pixel `(i, j)` replaced by `v`. */
    function Set(i: int, j: int, v: int): (img: Image)
      requires Valid() && 0 <= i < height && 0 <= j < width
      ensures img.Valid() && img.height == height && img.width == width
      ensures img.Get(i, j) == v
      ensures forall r, c :: 0 <= r < height && 0 <= c < width && (r, c) != (i, j) ==>
                img.Get(r, c) == Get(r, c)
    {
      Image(height, width, pixels[i := pixels[i][j := v]])
    }
  }

  /**
   * The row the scan of every column starts at: `imageHeight - 5`, where
   * `imageHeight` is one less than the height of the frame.
   */
  function ScanStart(img: Image): int
  {
    (img.height - 1) - 5
  }

  /**
   * How many columns `j = 0, 8, 16, ...` satisfy `j < width - 1`. The result
   * is the least `n` whose multiple `8 * n` is no longer below `width - 1`.
   */
  function ColumnCount(width: nat): (n: nat)
    ensures StepSize * n >= width - 1
    ensures n > 0 ==> StepSize * (n - 1) < width - 1
  {
    if width <= 1 then 0 else (width + 6) / StepSize
  }

  /**
   * The row the scan of column `j` stops at when it starts at row `i`: the
   * first row, going upward from `i` to 1, whose pixel is an edge pixel, or
   * 0 when there is none.
   */
  function ScanColumn(img: Image, j: int, i: int): int
    requires img.Valid() && 0 <= j < img.width && 1 <= i < img.height
    decreases i
  {
    if img.Get(i, j) == EdgeValue then i
    else if i == 1 then 0
    else ScanColumn(img, j, i - 1)
  }

  /**
   * `y` is the edge pixel of column `j` nearest the bottom among rows
   * `1..top`, or 0 when those rows hold no edge pixel. Row 0 is never
   * claimed to be an edge.
   */
  ghost predicate IsBottommostEdge(img: Image, j: int, top: int, y: int)
    requires img.Valid() && 0 <= j < img.width && top < img.height
  {
    && 0 <= y <= top
    && (y >= 1 ==> img.Get(y, j) == EdgeValue)
    && (forall r :: y < r <= top ==> img.Get(r, j) != EdgeValue)
  }

  /** The trace point of sampled column `j` of a frame tall enough to scan. */
  function ColumnPoint(img: Image, j: int): Point
    requires img.Valid() && 0 <= j < img.width && ScanStart(img) >= 1
  {
    Point(j, ScanColumn(img, j, ScanStart(img)))
  }

  /**
   * The whole trace of a frame: one point per sampled column, left to right;
   * nothing at all for a frame with fewer than 7 rows, where no column scan
   * ever reads a pixel.
   */
  function EdgePoints(img: Image): seq<Point>
    requires img.Valid()
  {
    if ScanStart(img) < 1 then []
    else
      var n := ColumnCount(img.width);
      seq(n, k requires 0 <= k < n => ColumnPoint(img, StepSize * k))
  }

  /** The polyline through consecutive points: `n - 1` lines for `n` points. */
  function Connectors(pts: seq<Point>): seq<Segment>
  {
    if |pts| == 0 then []
    else seq(|pts| - 1, x requires 0 <= x < |pts| - 1 => Segment(pts[x], pts[x + 1]))
  }

  /** One line from `(8 * x, bottom)` to point `x`, for every point. */
  function Risers(pts: seq<Point>, bottom: int): seq<Segment>
  {
    seq(|pts|, x requires 0 <= x < |pts| => Segment(Point(x * StepSize, bottom), pts[x]))
  }

  /** Everything drawn over the frame: nothing when the overlay is switched off. */
  function Overlay(pts: seq<Point>, bottom: int, show: bool): seq<Segment>
  {
    if show then Connectors(pts) + Risers(pts, bottom) else []
  }

  // ---------------------------------------------------------------------
  // The scan of one column
  // ---------------------------------------------------------------------

  /** Scanning upward from row `i` finds the bottommost edge among rows `1..i`. */
  lemma {:induction false} ScanColumnFindsBottommost(img: Image, j: int, i: int)
    requires img.Valid() && 0 <= j < img.width && 1 <= i < img.height
    ensures IsBottommostEdge(img, j, i, ScanColumn(img, j, i))
    decreases i
  {
    if img.Get(i, j) != EdgeValue && i > 1 {
      ScanColumnFindsBottommost(img, j, i - 1);
    }
  }

  /** At most one row of a column is its bottommost edge within a band. */
  lemma BottommostEdgeUnique(img: Image, j: int, top: int, y1: int, y2: int)
    requires img.Valid() && 0 <= j < img.width && top < img.height
    requires IsBottommostEdge(img, j, top, y1) && IsBottommostEdge(img, j, top, y2)
    ensures y1 == y2
  {
  }

  /** The scan's answer is exactly the bottommost edge of the band: both directions. */
  lemma {:induction false} ScanColumnCharacterized(img: Image, j: int, i: int, y: int)
    requires img.Valid() && 0 <= j < img.width && 1 <= i < img.height
    ensures ScanColumn(img, j, i) == y <==> IsBottommostEdge(img, j, i, y)
  {
    ScanColumnFindsBottommost(img, j, i);
    if IsBottommostEdge(img, j, i, y) {
      BottommostEdgeUnique(img, j, i, y, ScanColumn(img, j, i));
    }
  }

  /** The scan of a column reads only rows `1..i` of that column. */
  lemma {:induction false} ScanColumnReadsBand(img1: Image, img2: Image, j: int, i: int)
    requires img1.Valid() && img2.Valid()
    requires img1.height == img2.height && img1.width == img2.width
    requires 0 <= j < img1.width && 1 <= i < img1.height
    requires forall r :: 1 <= r <= i ==> img1.Get(r, j) == img2.Get(r, j)
    ensures ScanColumn(img1, j, i) == ScanColumn(img2, j, i)
    decreases i
  {
    if img1.Get(i, j) != EdgeValue && i > 1 {
      ScanColumnReadsBand(img1, img2, j, i - 1);
    }
  }

  // ---------------------------------------------------------------------
  // The trace of a frame
  // ---------------------------------------------------------------------

  /**
   * One point per sampled column: point `k` lies on column `8 * k`, a column
   * left of the last one, and a frame of 7 rows or more has as many points as
   * there are multiples of 8 below `width - 1`; a shorter frame has none.
   */
  lemma EdgePointsPerColumn(img: Image)
    requires img.Valid()
    ensures img.height < 7 ==> EdgePoints(img) == []
    ensures img.height >= 7 ==> |EdgePoints(img)| == ColumnCount(img.width)
    ensures forall k :: 0 <= k < |EdgePoints(img)| ==>
              EdgePoints(img)[k].x == StepSize * k && EdgePoints(img)[k].x < img.width - 1
  {
  }

  /** The points come out left to right, consecutive points one step apart. */
  lemma EdgePointsIncreasing(img: Image)
    requires img.Valid()
    ensures forall a, b :: 0 <= a < b < |EdgePoints(img)| ==> EdgePoints(img)[a].x < EdgePoints(img)[b].x
    ensures forall a :: 0 <= a < |EdgePoints(img)| - 1 ==>
              EdgePoints(img)[a + 1].x == EdgePoints(img)[a].x + StepSize
  {
  }

  /**
   * Point `k` records the bottommost edge of column `8 * k` among rows
   * `1..height-6`: a row `y >= 1` holding 255 with no 255 between it and row
   * `height - 6`, or row 0 when the band holds no 255.
   */
  lemma EdgePointIsBottommost(img: Image, k: int)
    requires img.Valid() && 0 <= k < |EdgePoints(img)|
    ensures img.height >= 7
    ensures EdgePoints(img)[k].x == StepSize * k
    ensures IsBottommostEdge(img, StepSize * k, img.height - 6, EdgePoints(img)[k].y)
  {
    ScanColumnFindsBottommost(img, StepSize * k, ScanStart(img));
  }

  /**
   * A recorded 0 means "no edge in rows 1..height-6", and nothing else: an
   * edge on row 1 is recorded as 1, so the two cases never meet.
   */
  lemma NoEdgeIffZero(img: Image, k: int)
    requires img.Valid() && 0 <= k < |EdgePoints(img)|
    ensures EdgePoints(img)[k].y == 0 <==>
              forall r :: 1 <= r <= img.height - 6 ==> img.Get(r, StepSize * k) != EdgeValue
  {
    EdgePointIsBottommost(img, k);
  }

  /** Every point lies inside the scanned band of rows `0..height-6`. */
  lemma EdgePointsInBand(img: Image)
    requires img.Valid()
    ensures forall k :: 0 <= k < |EdgePoints(img)| ==>
              0 <= EdgePoints(img)[k].y <= img.height - 6 && 0 <= EdgePoints(img)[k].x < img.width - 1
  {
    forall k | 0 <= k < |EdgePoints(img)|
      ensures 0 <= EdgePoints(img)[k].y <= img.height - 6
    {
      EdgePointIsBottommost(img, k);
    }
  }

  /** The cells the trace reads: rows `1..height-6` of the sampled columns. */
  ghost predicate AgreeOnScannedBand(img1: Image, img2: Image)
    requires img1.Valid() && img2.Valid()
    requires img1.height == img2.height && img1.width == img2.width
  {
    forall i, j :: 1 <= i <= img1.height - 6 && 0 <= j < img1.width - 1 && j % StepSize == 0 ==>
      img1.Get(i, j) == img2.Get(i, j)
  }

  /**
   * Two frames of the same size that agree on the scanned band have the same
   * trace: row 0, the bottom five rows, the last column and every column
   * that is not a multiple of 8 are never read.
   */
  lemma EdgePointsReadOnlyBand(img1: Image, img2: Image)
    requires img1.Valid() && img2.Valid()
    requires img1.height == img2.height && img1.width == img2.width
    requires AgreeOnScannedBand(img1, img2)
    ensures EdgePoints(img1) == EdgePoints(img2)
  {
    if ScanStart(img1) >= 1 {
      var n := ColumnCount(img1.width);
      forall k | 0 <= k < n
        ensures EdgePoints(img1)[k] == EdgePoints(img2)[k]
      {
        ScanColumnReadsBand(img1, img2, StepSize * k, ScanStart(img1));
      }
    }
  }

  /** Changing one pixel outside the scanned band leaves the trace as it was. */
  lemma EdgePointsIgnoreCell(img: Image, i: int, j: int, v: int)
    requires img.Valid() && 0 <= i < img.height && 0 <= j < img.width
    requires i == 0 || i > img.height - 6 || j == img.width - 1 || j % StepSize != 0
    ensures EdgePoints(img.Set(i, j, v)) == EdgePoints(img)
  {
    EdgePointsReadOnlyBand(img.Set(i, j, v), img);
  }

  // ---------------------------------------------------------------------
  // The overlay
  // ---------------------------------------------------------------------

  /**
   * The overlay draws `n - 1` connecting lines and then `n` risers for `n`
   * points when it is switched on, and nothing when it is off.
   */
  lemma OverlayShape(pts: seq<Point>, bottom: int, show: bool)
    ensures !show ==> Overlay(pts, bottom, show) == []
    ensures show && |pts| == 0 ==> Overlay(pts, bottom, show) == []
    ensures show && |pts| > 0 ==> |Overlay(pts, bottom, show)| == 2 * |pts| - 1
    ensures show ==> forall x :: 0 <= x < |pts| - 1 ==>
              Overlay(pts, bottom, show)[x] == Segment(pts[x], pts[x + 1])
    ensures show && |pts| > 0 ==> forall x :: 0 <= x < |pts| ==>
              Overlay(pts, bottom, show)[|pts| - 1 + x] == Segment(Point(StepSize * x, bottom), pts[x])
  {
  }

  /**
   * Conversely, lines drawn as `n - 1` joining lines followed by `n` lines
   * from the bottom row are exactly the overlay of the points.
   */
  lemma OverlayFromParts(pts: seq<Point>, bottom: int, joined: seq<Segment>, drawn: seq<Segment>)
    requires |joined| == (if |pts| == 0 then 0 else |pts| - 1)
    requires forall k :: 0 <= k < |joined| ==> joined[k] == Segment(pts[k], pts[k + 1])
    requires |drawn| == |joined| + |pts| && drawn[..|joined|] == joined
    requires forall k :: 0 <= k < |pts| ==>
               drawn[|joined| + k] == Segment(Point(StepSize * k, bottom), pts[k])
    ensures drawn == Overlay(pts, bottom, true)
  {
  }

  /**
   * Over a frame's own trace, the connecting lines join neighbouring sampled
   * columns and form one unbroken polyline, and every riser is vertical,
   * rising from the bottom row at least five rows up to its point.
   */
  lemma OverlayOfTrace(img: Image)
    requires img.Valid()
    ensures var pts := EdgePoints(img);
            forall x :: 0 <= x < |Connectors(pts)| ==>
              Connectors(pts)[x].to.x - Connectors(pts)[x].from.x == StepSize
    ensures var pts := EdgePoints(img);
            forall x :: 0 <= x < |Connectors(pts)| - 1 ==> Connectors(pts)[x].to == Connectors(pts)[x + 1].from
    ensures var pts, bottom := EdgePoints(img), img.height - 1;
            forall x :: 0 <= x < |Risers(pts, bottom)| ==>
              && Risers(pts, bottom)[x].from.x == Risers(pts, bottom)[x].to.x
              && Risers(pts, bottom)[x].from.y == bottom
              && Risers(pts, bottom)[x].from.y - Risers(pts, bottom)[x].to.y >= 5
  {
    EdgePointsInBand(img);
  }
}
