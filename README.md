# Parking occupancy monitor — verified model of the per-frame evaluation

The parking monitor reads a fixed-camera video, runs an object detector on
every frame, and shows how many cars stand inside a fixed parking area. The
only decision logic is the per-frame occupancy evaluation in `manage.py`:
for each detection of the frame, in detector order, it

1. computes the centre of the bounding box with floor division,
2. keeps the detection only when its class name contains the substring `"car"`,
3. asks OpenCV's `pointPolygonTest` (distance measurement off) whether the
   centre is inside (+1), on an edge (0) or outside (-1) the closed parking
   polygon, and keeps it when the answer is `>= 0`,
4. appends the one-element list `[cx]` to a list `points` that starts empty
   in every frame; the car count is `len(points)`.

This project models that evaluation in Dafny and proves its properties.

- `roi.dfy`, module `Roi`: integer points, the parking polygon
  (`ParkingArea`), and `PointPolygonTest`, a tri-state containment test over
  an implicitly closed integer polygon (crossing-number parity plus an exact
  on-segment check). The lemma `PointPolygonTestSpec` ties the result to two
  reference definitions: `OnBoundary` (some edge, the closing one included, passes
  through the point) and `Crossings` (the set of edges the rightward ray
  crosses). Simplicity of the polygon is not assumed.
- `occupancy.dfy`, module `Occupancy`: the `Detection` record (class name and
  integer box), `Center`, the substring test, the specification function
  `OccupiedPoints` (the list one frame builds), the method `EvaluateFrame`
  (the loop of the source, proved against `OccupiedPoints`), the frame loop
  `RunStream`, and lemmas about the list: stable filter, one detection at a
  time, non-cars never count, boundary points count, count equals the number
  of accepted detections.

The evaluator's lemmas do not depend on the geometry: they are stated in terms
of `Accepted`, which uses the containment test only through its sign.

The model follows the code: the list keeps `[cx]` for every counted detection
rather than the detection itself, and the label test matches the single fixed
token `"car"` rather than a configurable set of class tokens.

## Model

| member | source | states |
|---|---|---|
| `Roi.PointPolygonTest` | manage.py:67-70 | the answer is one of -1, 0, +1 |
| `Roi.PointPolygonTestSpec` | manage.py:67-70 | the answer is 0 exactly when the point lies on some edge of the closed polygon; off the boundary it is +1 exactly when the rightward ray crosses an odd number of edges (and -1 otherwise) |
| `Roi.OnSomeEdgeIff` | manage.py:67 | the edge scan is true exactly when one of the scanned edges passes through the point |
| `Roi.CountCrossingsIsCardinality` | manage.py:67 | the crossing count equals the number of scanned edges the ray from the point crosses |
| `Roi.ClosingEdgeIsBoundary` | manage.py:67 | a point on the segment from the last vertex back to the first gets 0: the polygon is closed |
| `Roi.VertexIsBoundary` | manage.py:67 | every vertex of the polygon gets 0 |
| `Roi.ParkingArea` | manage.py:34 | the five vertices of the parking area; the polygon is checked on sample points by `ParkingAreaInside`, `ParkingAreaEdge` and `ParkingAreaOutside` |
| `Roi.ParkingAreaInside` | manage.py:34 | a point well inside the parking area gets +1 |
| `Roi.ParkingAreaEdge` | manage.py:34 | a lattice point on the edge from (9, 516) to (389, 492) gets 0 |
| `Roi.ParkingAreaOutside` | manage.py:34 | the point (50, 80) gets -1 |
| `Occupancy.Center` | manage.py:61-62 | each centre coordinate is the floor of the average of the box edges (`2c <= a + b < 2c + 2`), and lies between the edges when they are ordered |
| `Occupancy.ContainsSubstringIff` | manage.py:65 | the label test holds exactly when `"car"` occurs at some index of the name |
| `Occupancy.ContainsSubstring` | manage.py:65 | Python's `in` on strings; its meaning is proved by `ContainsSubstringIff`: true exactly when the token occurs at some index |
| `Occupancy.IsCar` | manage.py:65 | the label test `'car' in object_class`: holds exactly when `"car"` occurs at some index of the name |
| `Occupancy.Accepted` | manage.py:65-70 | the combined label and `roi_result >= 0` test; its meaning is proved by `AcceptedIff`: `"car"` in the name and the centre on the boundary or with odd crossing parity |
| `Occupancy.CarLabelSamples` | manage.py:65 | the test is a loose substring match: "car" and "race car" pass, "truck" does not |
| `Occupancy.OccupiedPoints` | manage.py:49-74 | the frame's list has at most one entry per detection, and every entry is a one-element list |
| `Occupancy.EvaluateFrame` | manage.py:49-77 | the loop builds exactly `OccupiedPoints` from an empty list, and the car count is its length, which equals the number of accepted detections (0 for an empty frame) |
| `Occupancy.RunStream` | manage.py:36-77 | each frame's count is the count of that frame's detections alone: nothing carries over between frames |
| `Occupancy.OccupiedPointsSnoc` | manage.py:52-74 | appending one detection appends `[cx]` when it is accepted and nothing otherwise |
| `Occupancy.OccupiedPointsConcat` | manage.py:52-74 | the list of a concatenation of detection lists is the concatenation of their lists |
| `Occupancy.OneDetectionContributes` | manage.py:52-77 | wherever a detection stands, it adds exactly its entry when accepted and nothing otherwise; the count rises by 1 or 0 depending only on that detection |
| `Occupancy.NonCarNeverCounts` | manage.py:65 | removing a detection whose name lacks `"car"` leaves the list unchanged, whatever its box |
| `Occupancy.AcceptedIff` | manage.py:65-70 | a detection counts exactly when `"car"` occurs in its name and its centre is on the boundary or has odd crossing parity: boundary points count |
| `Occupancy.CountIsAcceptedCount` | manage.py:74-77 | the list's length equals the number of indices of accepted detections |
| `Occupancy.AcceptedIndices` | manage.py:52-74 | the indices of accepted detections, strictly increasing, each in range and accepted, and containing every accepted index |
| `Occupancy.OccupiedPointsInOrder` | manage.py:52-74 | the k-th entry is `[cx]` of the k-th accepted detection in input order: a stable filter |
| `Occupancy.ParkingAreaFrame` | manage.py:34-77 | with the source's parking area, a frame holding a car inside, a truck inside and a car outside yields `[[400]]` |

## Left out

- Video input and output (opening, reading, writing and releasing the capture and the writer): external resources. A stream is modelled as the given sequence of each frame's detections.
- The YOLOv5 model loading and inference: a foreign neural detector. Its output for a frame is the given `seq<Detection>`.
- The conversion of the detector's float box coordinates to `int`: floating point; boxes are integers in the model.
- Frame resizing, drawing of boxes, labels, the polygon and the count, window display: presentation only.
- The exit on the ESC key: a keypress ends the loop early, which `RunStream` covers as a shorter frame sequence.
- The mouse callback `points_callback`: it only prints coordinates.
- OpenCV's own implementation of `pointPolygonTest` is not part of this model. The evaluator's lemmas use only the sign of the answer; the containment model itself reproduces the even-odd crossing rule, half-open in y, with an exact on-edge check, which also fixes its answers for self-intersecting polygons. OpenCV returns a float (+1.0, 0.0, -1.0), modelled as an int; the conversion of the polygon to 32-bit integers and of the query point to float is exact for frame coordinates and is not modelled.
- No theorem connects the crossing parity to geometric interiority (the Jordan curve theorem), and no property is proved for convex polygons in general; the parity is what the test computes.
- Integer widths are unbounded in the model; the source's coordinates are small pixel values where no overflow occurs.
