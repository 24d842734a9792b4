/**
 * The camera activity of the vision sandbox: its per-frame state and the
 * frame callback that rebuilds the edge trace and draws the overlay.
 */
module VisionSandbox {
  import opened EdgeTrace

  class TestingActivity {
    /** Whether the trace is drawn over the camera frame. */
    var showEdgeArray: bool
    /** The trace of the most recent frame. */
    var edgeArray: seq<Point>

    constructor ()
      ensures showEdgeArray && edgeArray == []
    {
      showEdgeArray := true;
      edgeArray := [];
    }

    /**
     * Handles one frame whose edge image is `imgEdge`. Replaces the trace by
     * the trace of this frame alone, returns the lines drawn over the input
     * frame in the order they are drawn, and shows the edge image itself.
     */
    method OnCameraFrame(imgEdge: Image) returns (shown: Image, drawn: seq<Segment>)
      requires imgEdge.Valid()
      modifies this
      ensures showEdgeArray == old(showEdgeArray)
      ensures edgeArray == EdgePoints(imgEdge)
      ensures drawn == Overlay(edgeArray, imgEdge.height - 1, showEdgeArray)
      ensures shown == imgEdge
    {
      edgeArray := [];
      TraceEdges(imgEdge);
      drawn := DrawEdgeArray(imgEdge.height - 1);
      shown := imgEdge;
    }

    /**
     * The column scan of the frame callback: appends to `edgeArray` one point
     * per sampled column of `imgEdge`, left to right, for a frame of at
     * least 7 rows.
     */
    method TraceEdges(imgEdge: Image)
      requires imgEdge.Valid()
      modifies this`edgeArray
      ensures edgeArray == old(edgeArray) + EdgePoints(imgEdge)
    {
      var stepSize := StepSize;
      ghost var start := edgeArray;
      ghost var traced: seq<Point> := [];

      var imageWidth := imgEdge.width - 1;
      var imageHeight := imgEdge.height - 1;

      var j := 0;
      while j < imageWidth
        invariant 0 <= j && j % StepSize == 0
        invariant j == 0 || j - StepSize < imageWidth
        invariant edgeArray == start + traced
        invariant imageHeight - 5 < 1 ==> traced == []
        invariant imageHeight - 5 >= 1 ==> StepSize * |traced| == j
        invariant forall k :: 0 <= k < |traced| ==>
                    imageHeight - 5 >= 1 && StepSize * k < imageWidth &&
                    traced[k] == ColumnPoint(imgEdge, StepSize * k)
      {
        ghost var before := edgeArray;
        var i := imageHeight - 5;
        while i > 0
          invariant i <= imageHeight - 5
          invariant imageHeight - 5 >= 1 ==> 0 <= i
          invariant i > 0 ==> edgeArray == before &&
                                ScanColumn(imgEdge, j, i) == ScanColumn(imgEdge, j, imageHeight - 5)
          invariant i <= 0 && imageHeight - 5 >= 1 ==>
                      edgeArray == before + [ColumnPoint(imgEdge, j)]
          invariant imageHeight - 5 < 1 ==> edgeArray == before
        {
          if imgEdge.Get(i, j) == EdgeValue {
            edgeArray := edgeArray + [Point(j, i)];
            break;
          }

          if i == 1 {
            edgeArray := edgeArray + [Point(j, 0)];
          }
          i := i - 1;
        }
        if imageHeight - 5 >= 1 {
          traced := traced + [ColumnPoint(imgEdge, j)];
        }
        j := j + stepSize;
      }

      assert imageHeight - 5 >= 1 ==> |traced| == ColumnCount(imgEdge.width);
      assert traced == EdgePoints(imgEdge);
    }

    /**
     * The overlay of the frame callback: when `showEdgeArray` is set, the
     * lines joining consecutive points of `edgeArray`, then one line from
     * `(8x, imageHeight)` to every point `x`; nothing otherwise.
     */
    method DrawEdgeArray(imageHeight: int) returns (drawn: seq<Segment>)
      ensures drawn == Overlay(edgeArray, imageHeight, showEdgeArray)
    {
      var stepSize := StepSize;
      drawn := [];
      if showEdgeArray {
        var x := 0;
        while x < |edgeArray| - 1
          invariant 0 <= x && (x == 0 || x <= |edgeArray| - 1)
          invariant |drawn| == x
          invariant forall k :: 0 <= k < x ==> drawn[k] == Segment(edgeArray[k], edgeArray[k + 1])
        {
          drawn := drawn + [Segment(edgeArray[x], edgeArray[x + 1])];
          x := x + 1;
        }

        ghost var joined := drawn;
        x := 0;
        while x < |edgeArray|
          invariant 0 <= x <= |edgeArray|
          invariant |drawn| == |joined| + x
          invariant drawn[..|joined|] == joined
          invariant forall k :: 0 <= k < x ==>
                      drawn[|joined| + k] == Segment(Point(StepSize * k, imageHeight), edgeArray[k])
        {
          drawn := drawn + [Segment(Point(x * stepSize, imageHeight), edgeArray[x])];
          x := x + 1;
        }
        OverlayFromParts(edgeArray, imageHeight, joined, drawn);
      }
    }
  }
}
