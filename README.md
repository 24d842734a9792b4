# VisionSandbox edge trace, modelled in Dafny

VisionSandbox is an Android demo. Its one activity, `TestingActivity`, runs an
OpenCV edge detector over every camera frame and overlays a simple edge
trace. For every eighth column `j` of the edge image (`j = 0, 8, 16, …`,
`j < width - 1`), the frame callback `onCameraFrame` scans upward. It starts
at row `height - 6` and goes down in index to row 1. It records `(j, i)` at
the first pixel equal to 255. It records `(j, 0)` when the scan reaches row 1
without a hit. When the flag `showEdgeArray` is set, it then draws two kinds
of line over the input frame:

- a polyline through consecutive points;
- one line from `(8x, height - 1)` to point `x`, for every point.

The callback returns the edge image itself.

The model has two modules:

- `EdgeTrace` (`edge_trace.dfy`) gives the values and their specification.
  The edge image is an `Image` value of `height` rows of `width` integers;
  `Get(i, j)` is `imgEdge.get(i, j)[0]`. `ScanColumn` is the scan of one
  column and `EdgePoints` is the trace of a frame. `Connectors`, `Risers` and
  `Overlay` are the lines handed to the drawing routine. The module proves
  what the trace means: one point per sampled column, left to right, each
  point the bottommost edge pixel of its column within the scanned band, and
  independence from every pixel the scan does not read.
- `VisionSandbox` (`testing_activity.dfy`) holds the class `TestingActivity`
  with the fields `showEdgeArray` and `edgeArray`. Its `OnCameraFrame` is
  the callback. It clears the field `edgeArray` and runs the callback's two
  phases, each kept as a method of its own: `TraceEdges` holds the nested
  loops with the early `break` that append to `edgeArray`, and
  `DrawEdgeArray` holds the two index loops that collect the drawn lines.
  Both are proved against `EdgePoints` and `Overlay`.

The edge detector's output is taken as an arbitrary grid of integers. Nothing
assumes that its pixels are only 0 or 255.

The traced pixel is not the topmost edge of its column, as a quick reading
might suggest. The scan runs from the bottom of the band upward and stops at
the first hit, so it reports the edge pixel nearest the BOTTOM of the frame.
The model states exactly that (`IsBottommostEdge`).

## Model

| member | source | states |
|---|---|---|
| `EdgeTrace.ColumnCount` | app/src/main/java/org/waltonrobotics/visionsandbox/TestingActivity.java:156-159 | the number of sampled columns is the least `n` with `8n >= width - 1`: columns `0, 8, …, 8(n-1)` are all below `width - 1`, and the next one is not |
| `EdgeTrace.ScanColumnFindsBottommost` | app/src/main/java/org/waltonrobotics/visionsandbox/TestingActivity.java:160-168 | scanning a column upward from row `i` yields a row `y` in `0..i`; for `y >= 1` the pixel at `y` is 255; no row in `y+1..i` holds 255 |
| `EdgeTrace.BottommostEdgeUnique` | app/src/main/java/org/waltonrobotics/visionsandbox/TestingActivity.java:160-168 | at most one row of a column meets the bottommost-edge description for a given band |
| `EdgeTrace.ScanColumnCharacterized` | app/src/main/java/org/waltonrobotics/visionsandbox/TestingActivity.java:160-168 | the scan returns `y` if and only if `y` is the bottommost edge of the band (or 0 with no edge in it) |
| `EdgeTrace.ScanColumnReadsBand` | app/src/main/java/org/waltonrobotics/visionsandbox/TestingActivity.java:160-161 | two images that agree on rows `1..i` of column `j` give the same scan result for that column |
| `EdgeTrace.EdgePointsPerColumn` | app/src/main/java/org/waltonrobotics/visionsandbox/TestingActivity.java:159-170 | a frame under 7 rows has no points; otherwise there is exactly one point per sampled column, and point `k` lies on column `8k < width - 1` |
| `EdgeTrace.EdgePointsIncreasing` | app/src/main/java/org/waltonrobotics/visionsandbox/TestingActivity.java:159-167 | the x-coordinates strictly increase, and consecutive points are exactly 8 columns apart |
| `EdgeTrace.EdgePointIsBottommost` | app/src/main/java/org/waltonrobotics/visionsandbox/TestingActivity.java:159-168 | point `k` exists only for frames of 7 rows or more; it is `(8k, y)` with `y` the bottommost 255 of that column in rows `1..height-6`, or 0 when there is none |
| `EdgeTrace.NoEdgeIffZero` | app/src/main/java/org/waltonrobotics/visionsandbox/TestingActivity.java:160-168 | a point has `y == 0` exactly when rows `1..height-6` of its column hold no 255; an edge on row 1 gives `y == 1` |
| `EdgeTrace.EdgePointsInBand` | app/src/main/java/org/waltonrobotics/visionsandbox/TestingActivity.java:156-168 | every point has `0 <= y <= height - 6` and `0 <= x < width - 1` |
| `EdgeTrace.EdgePointsReadOnlyBand` | app/src/main/java/org/waltonrobotics/visionsandbox/TestingActivity.java:156-161 | two frames of equal size that agree on rows `1..height-6` of the sampled columns have the same trace |
| `EdgeTrace.EdgePointsIgnoreCell` | app/src/main/java/org/waltonrobotics/visionsandbox/TestingActivity.java:156-161 | changing a pixel in row 0, in the bottom five rows, in the last column or in a column not divisible by 8 leaves the trace unchanged |
| `EdgeTrace.OverlayShape` | app/src/main/java/org/waltonrobotics/visionsandbox/TestingActivity.java:172-180 | with the flag off nothing is drawn; with it on, `n` points give `n - 1` lines joining consecutive points, then `n` lines from `(8x, bottom)` to point `x` (none for `n == 0`) |
| `EdgeTrace.OverlayFromParts` | app/src/main/java/org/waltonrobotics/visionsandbox/TestingActivity.java:172-180 | conversely, a list made of the `n - 1` joining lines followed by the `n` lines from the bottom row is exactly the overlay |
| `EdgeTrace.OverlayOfTrace` | app/src/main/java/org/waltonrobotics/visionsandbox/TestingActivity.java:172-180 | over a frame's trace, consecutive joining lines are 8 columns wide and chain end to start; every line from the bottom is vertical, starts on row `height - 1` and rises at least five rows |
| `VisionSandbox.TestingActivity.constructor` | app/src/main/java/org/waltonrobotics/visionsandbox/TestingActivity.java:56-57 | a new activity shows the trace and holds an empty point list |
| `VisionSandbox.TestingActivity.TraceEdges` | app/src/main/java/org/waltonrobotics/visionsandbox/TestingActivity.java:156-170 | the column scan appends to `edgeArray` exactly the trace of the frame, one point per sampled column in order |
| `VisionSandbox.TestingActivity.DrawEdgeArray` | app/src/main/java/org/waltonrobotics/visionsandbox/TestingActivity.java:172-180 | the lines drawn are exactly the overlay of `edgeArray` on row `imageHeight` when `showEdgeArray` is set, and none otherwise; the activity is not changed |
| `VisionSandbox.TestingActivity.OnCameraFrame` | app/src/main/java/org/waltonrobotics/visionsandbox/TestingActivity.java:139-183 | the point list becomes the trace of this frame alone, whatever it held before; the drawn lines are exactly the overlay of that trace on row `height - 1`, or none when the flag is off; the flag is unchanged; the returned image is the edge image |

## Left out

- The Android lifecycle, the camera permission request and the OpenCV loader callback (`onCreate`, `onPause`, `onResume`, `onDestroy`, `mLoaderCallback`). They are host-controlled UI code.
- `onCameraViewStarted` and `onCameraViewStopped`. They only log.
- The conversion to grey, the bilateral filter and the Canny edge detector. They are foreign native calls with floating-point internals. `OnCameraFrame` takes the edge image they produce as its parameter, and the camera's input frame is not modelled beyond the lines drawn on it.
- The rasterisation done by `Imgproc.line`, and the line colour and thickness. The model keeps only the list of segment endpoints handed to it, in drawing order.
- OpenCV `Point` stores doubles. Every coordinate here is an integer, so points are pairs of `int`.
- Java `int` overflow in `j += stepSize` and `x * stepSize`. It cannot happen for image sizes OpenCV allocates, so the model uses unbounded integers.
- The image is read as a value. Aliasing between the edge image and other frames is not modelled; the source never writes to it after Canny.
