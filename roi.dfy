/**
  The region of interest of the parking monitor: a closed polygon with integer
  vertices, and the tri-state point-in-polygon test that the monitor asks of it
  (OpenCV's pointPolygonTest with distance measurement switched off):
  +1 strictly inside, 0 on an edge, -1 strictly outside.

  The polygon is closed implicitly: edge i runs from vertex i to vertex i + 1,
  and the last edge runs from the last vertex back to the first. Nothing here
  assumes the polygon is simple or convex; for any vertex list the test is a
  well-defined function of the point.
 */
module Roi {

  datatype Point = Point(x: int, y: int)

  /** The monitored parking area, in pixel coordinates of the resized frame. */
  const ParkingArea: seq<Point> :=
    [Point(26, 433), Point(9, 516), Point(389, 492), Point(786, 419), Point(720, 368)]

  /** Twice the signed area of the triangle (a, b, p); zero exactly when p is on the line through a and b. */
  function Cross(a: Point, b: Point, p: Point): int {
    (b.x - a.x) * (p.y - a.y) - (p.x - a.x) * (b.y - a.y)
  }

  function Min(a: int, b: int): int { if a <= b then a else b }

  function Max(a: int, b: int): int { if a <= b then b else a }

  /** p lies on the closed segment from a to b (a degenerate segment a == b is the single point a). */
  predicate OnSegment(a: Point, b: Point, p: Point) {
    && Cross(a, b, p) == 0
    && Min(a.x, b.x) <= p.x <= Max(a.x, b.x)
    && Min(a.y, b.y) <= p.y <= Max(a.y, b.y)
  }

  /**
    The segment from a to b crosses the horizontal ray that starts at p and goes
    right. The segment counts when its end points lie on different sides of the
    line y == p.y, "above" meaning strictly greater y (the usual half-open rule,
    so a ray through a vertex is counted once), and the crossing lies strictly
    to the right of p.
   */
  predicate CrossesRay(a: Point, b: Point, p: Point) {
    && (a.y > p.y) != (b.y > p.y)
    && (if b.y > a.y then Cross(a, b, p) > 0 else Cross(a, b, p) < 0)
  }

  /** The end of edge i: the next vertex, wrapping from the last vertex back to the first. */
  function Next(poly: seq<Point>, i: int): Point
    requires 0 <= i < |poly|
  {
    poly[(i + 1) % |poly|]
  }

  /** Whether the ray from p crosses edge i. */
  predicate EdgeCrossesRay(poly: seq<Point>, p: Point, i: int)
    requires 0 <= i < |poly|
  {
    CrossesRay(poly[i], Next(poly, i), p)
  }

  /** Edge i passes through p. */
  predicate OnEdge(poly: seq<Point>, p: Point, i: int)
    requires 0 <= i < |poly|
  {
    OnSegment(poly[i], Next(poly, i), p)
  }

  /** Reference definition: some edge of the closed polygon passes through p. */
  ghost predicate OnBoundary(poly: seq<Point>, p: Point) {
    exists i :: 0 <= i < |poly| && OnEdge(poly, p, i)
  }

  /** Reference definition: the indices of the edges among the first k that the ray from p crosses. */
  ghost function CrossingsBelow(poly: seq<Point>, p: Point, k: int): set<int> {
    set i | 0 <= i < k && i < |poly| && EdgeCrossesRay(poly, p, i)
  }

  /** Reference definition: the edges of the closed polygon that the ray from p crosses. */
  ghost function Crossings(poly: seq<Point>, p: Point): set<int> {
    CrossingsBelow(poly, p, |poly|)
  }

  /** Whether one of the first k edges passes through p. */
  function OnSomeEdge(poly: seq<Point>, p: Point, k: nat): bool
    requires k <= |poly|
  {
    if k == 0 then false
    else OnSomeEdge(poly, p, k - 1) || OnEdge(poly, p, k - 1)
  }

  /** The edge scan finds an edge through p exactly when one of the scanned edges passes through it. */
  lemma {:induction false} OnSomeEdgeIff(poly: seq<Point>, p: Point, k: nat)
    requires k <= |poly|
    ensures OnSomeEdge(poly, p, k) <==> exists i :: 0 <= i < k && OnEdge(poly, p, i)
  {
    if k > 0 {
      OnSomeEdgeIff(poly, p, k - 1);
    }
  }

  /** The number of the first k edges that the ray from p crosses. */
  function CountCrossings(poly: seq<Point>, p: Point, k: nat): nat
    requires k <= |poly|
  {
    if k == 0 then 0
    else CountCrossings(poly, p, k - 1) + if EdgeCrossesRay(poly, p, k - 1) then 1 else 0
  }

  /** The crossing count is the number of scanned edges that the ray from p crosses. */
  lemma {:induction false} CountCrossingsIsCardinality(poly: seq<Point>, p: Point, k: nat)
    requires k <= |poly|
    ensures CountCrossings(poly, p, k) == |CrossingsBelow(poly, p, k)|
  {
    if k == 0 {
      assert CrossingsBelow(poly, p, 0) == {};
    } else {
      CountCrossingsIsCardinality(poly, p, k - 1);
      CrossingsBelowStep(poly, p, k);
    }
  }

  /** Going from the first k - 1 edges to the first k adds edge k - 1 exactly when the ray crosses it. */
  lemma CrossingsBelowStep(poly: seq<Point>, p: Point, k: int)
    requires 0 < k <= |poly|
    ensures CrossingsBelow(poly, p, k) ==
      CrossingsBelow(poly, p, k - 1) + if EdgeCrossesRay(poly, p, k - 1) then {k - 1} else {}
    ensures k - 1 !in CrossingsBelow(poly, p, k - 1)
  {
  }

  /**
    The tri-state containment test: 0 when p is on an edge of the closed
    polygon (the closing edge included), otherwise +1 when the ray from p
    crosses the boundary an odd number of times and -1 when it crosses an
    even number of times. An empty contour has no edges, so every point is
    outside it. PointPolygonTestSpec states its meaning.
   */
  function PointPolygonTest(contour: seq<Point>, pt: Point): (r: int)
    ensures r == -1 || r == 0 || r == 1
  {
    if OnSomeEdge(contour, pt, |contour|) then 0
    else if CountCrossings(contour, pt, |contour|) % 2 == 1 then 1
    else -1
  }

  /** The test against the reference definitions of boundary and crossings. */
  lemma PointPolygonTestSpec(contour: seq<Point>, pt: Point)
    ensures PointPolygonTest(contour, pt) == 0 <==> OnBoundary(contour, pt)
    ensures PointPolygonTest(contour, pt) != 0 ==>
      (PointPolygonTest(contour, pt) == 1 <==> |Crossings(contour, pt)| % 2 == 1)
  {
    OnSomeEdgeIff(contour, pt, |contour|);
    CountCrossingsIsCardinality(contour, pt, |contour|);
  }

  /** The closing edge, from the last vertex back to the first, is part of the boundary. */
  lemma ClosingEdgeIsBoundary(poly: seq<Point>, p: Point)
    requires |poly| > 0 && OnSegment(poly[|poly| - 1], poly[0], p)
    ensures PointPolygonTest(poly, p) == 0
  {
  }

  /** Every vertex lies on the boundary. */
  lemma VertexIsBoundary(poly: seq<Point>, i: int)
    requires 0 <= i < |poly|
    ensures PointPolygonTest(poly, poly[i]) == 0
  {
    var a, b := poly[i], Next(poly, i);
    assert Cross(a, b, a) == 0;
    assert OnEdge(poly, a, i);
    PointPolygonTestSpec(poly, a);
  }

  /** A point well inside the parking area: the ray from it crosses one edge only. */
  lemma ParkingAreaInside()
    ensures PointPolygonTest(ParkingArea, Point(400, 440)) == 1
  {
    var poly, p := ParkingArea, Point(400, 440);
    // Edge by edge: none passes through p, and only the edge from (389, 492) to (786, 419) is crossed.
    assert Next(poly, 4) == poly[0];
    assert !OnEdge(poly, p, 0);
    assert !EdgeCrossesRay(poly, p, 0);
    assert !OnEdge(poly, p, 1);
    assert !EdgeCrossesRay(poly, p, 1);
    assert !OnEdge(poly, p, 2);
    assert EdgeCrossesRay(poly, p, 2);
    assert !OnEdge(poly, p, 3);
    assert !EdgeCrossesRay(poly, p, 3);
    assert !OnEdge(poly, p, 4);
    assert !EdgeCrossesRay(poly, p, 4);
    assert !OnSomeEdge(poly, p, 5);
    assert CountCrossings(poly, p, 5) == 1;
  }

  /** A point on the edge from (9, 516) to (389, 492) is on the boundary. */
  lemma ParkingAreaEdge()
    ensures PointPolygonTest(ParkingArea, Point(199, 504)) == 0
  {
    assert OnEdge(ParkingArea, Point(199, 504), 1);
    PointPolygonTestSpec(ParkingArea, Point(199, 504));
  }

  /** The spot (50, 80) where the monitor writes its count is outside the parking area. */
  lemma ParkingAreaOutside()
    ensures PointPolygonTest(ParkingArea, Point(50, 80)) == -1
  {
    var poly, p := ParkingArea, Point(50, 80);
    // Edge by edge: none passes through p, and none is crossed (every vertex has y above 80).
    assert Next(poly, 4) == poly[0];
    assert !OnEdge(poly, p, 0);
    assert !EdgeCrossesRay(poly, p, 0);
    assert !OnEdge(poly, p, 1);
    assert !EdgeCrossesRay(poly, p, 1);
    assert !OnEdge(poly, p, 2);
    assert !EdgeCrossesRay(poly, p, 2);
    assert !OnEdge(poly, p, 3);
    assert !EdgeCrossesRay(poly, p, 3);
    assert !OnEdge(poly, p, 4);
    assert !EdgeCrossesRay(poly, p, 4);
    assert !OnSomeEdge(poly, p, 5);
    assert CountCrossings(poly, p, 5) == 0;
  }
}
