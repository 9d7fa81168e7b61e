/**
  The per-frame occupancy evaluation of the parking monitor. For each detection
  of a frame, in detector order, the monitor computes the centre of the box
  with floor division, keeps the detection when its class label contains
  "car" and the centre is inside or on the boundary of the parking area, and
  then appends the one-element list [cx] to a list that starts empty in every
  frame. The number of cars in the parking area is the length of that list.
 */
module Occupancy {
  import opened Roi

  /** One row of the detector's output: a class label and an integer bounding box. */
  datatype Detection = Detection(name: string, x1: int, y1: int, x2: int, y2: int)

  /** The class token a label must contain for the detection to be a car. */
  const CarToken: string := "car"

  /**
    The centre of the box, each coordinate the floor of the average of the two
    edges (for a divisor of 2, Dafny's division on int agrees with floor
    division).
   */
  function Center(d: Detection): (c: Point)
    ensures 2 * c.x <= d.x1 + d.x2 < 2 * c.x + 2
    ensures 2 * c.y <= d.y1 + d.y2 < 2 * c.y + 2
    ensures d.x1 <= d.x2 ==> d.x1 <= c.x <= d.x2
    ensures d.y1 <= d.y2 ==> d.y1 <= c.y <= d.y2
  {
    Point((d.x1 + d.x2) / 2, (d.y1 + d.y2) / 2)
  }

  /** sub occurs in s starting at index i. */
  predicate OccursAt(s: string, sub: string, i: int) {
    0 <= i && i + |sub| <= |s| && s[i..i + |sub|] == sub
  }

  /** Substring membership, as `sub in s` on strings: sub occurs at the front of s or further on. */
  predicate ContainsSubstring(s: string, sub: string)
    decreases |s|
  {
    if |sub| > |s| then false
    else if s[..|sub|] == sub then true
    else ContainsSubstring(s[1..], sub)
  }

  /** The scan agrees with the definition: sub is in s exactly when it occurs at some index. */
  lemma {:induction false} ContainsSubstringIff(s: string, sub: string)
    ensures ContainsSubstring(s, sub) <==> exists i :: OccursAt(s, sub, i)
    decreases |s|
  {
    if |sub| > |s| {
    } else if s[..|sub|] == sub {
      assert OccursAt(s, sub, 0);
    } else {
      ContainsSubstringIff(s[1..], sub);
      if ContainsSubstring(s[1..], sub) {
        var j :| OccursAt(s[1..], sub, j);
        assert s[j + 1..j + 1 + |sub|] == s[1..][j..j + |sub|];
        assert OccursAt(s, sub, j + 1);
      }
      if i :| OccursAt(s, sub, i) {
        assert i != 0;
        assert s[1..][i - 1..i - 1 + |sub|] == s[i..i + |sub|];
        assert OccursAt(s[1..], sub, i - 1);
      }
    }
  }

  /** The label test of the monitor: the label contains "car". */
  predicate IsCar(d: Detection)
    ensures IsCar(d) <==> exists i :: OccursAt(d.name, CarToken, i)
  {
    ContainsSubstringIff(d.name, CarToken);
    ContainsSubstring(d.name, CarToken)
  }

  /**
    A detection is counted when it is a car and the containment test on its
    centre gives a non-negative answer, that is inside or on the boundary.
   */
  predicate Accepted(roi: seq<Point>, d: Detection) {
    IsCar(d) && PointPolygonTest(roi, Center(d)) >= 0
  }

  /**
    Specification of the list that one frame builds: the entries [cx] of the
    accepted detections, in detection order.
   */
  function OccupiedPoints(roi: seq<Point>, dets: seq<Detection>): (points: seq<seq<int>>)
    ensures |points| <= |dets|
    ensures forall k :: 0 <= k < |points| ==> |points[k]| == 1
  {
    if dets == [] then []
    else
      var d := dets[|dets| - 1];
      OccupiedPoints(roi, dets[..|dets| - 1]) + if Accepted(roi, d) then [[Center(d).x]] else []
  }

  /** The indices of the accepted detections: the detections the frame counts. */
  ghost function AcceptedSet(roi: seq<Point>, dets: seq<Detection>): set<int> {
    set i | 0 <= i < |dets| && Accepted(roi, dets[i])
  }

  /**
    One frame of the monitor: a fresh list, one pass over the detections in
    order, and the car count read from the list's length.
   */
  method EvaluateFrame(roi: seq<Point>, dets: seq<Detection>) returns (points: seq<seq<int>>, carCount: nat)
    ensures points == OccupiedPoints(roi, dets)
    ensures carCount == |points| == |AcceptedSet(roi, dets)|
  {
    points := [];
    for i := 0 to |dets|
      invariant points == OccupiedPoints(roi, dets[..i])
    {
      var d := dets[i];
      var cx := (d.x1 + d.x2) / 2;
      var cy := (d.y1 + d.y2) / 2;
      if ContainsSubstring(d.name, CarToken) {
        var roiResult := PointPolygonTest(roi, Point(cx, cy));
        if roiResult >= 0 {
          points := points + [[cx]];
        }
      }
      assert dets[..i + 1] == dets[..i] + [d];
      OccupiedPointsSnoc(roi, dets[..i], d);
    }
    assert dets[..|dets|] == dets;
    carCount := |points|;
    CountIsAcceptedCount(roi, dets);
  }

  /**
    The monitor's frame loop over a stream of frames, each given as its
    detector output: every frame's count comes from that frame's detections
    alone, so nothing carries over from one frame to the next.
   */
  method RunStream(roi: seq<Point>, frames: seq<seq<Detection>>) returns (counts: seq<nat>)
    ensures |counts| == |frames|
    ensures forall k :: 0 <= k < |frames| ==> counts[k] == |OccupiedPoints(roi, frames[k])|
  {
    counts := [];
    for f := 0 to |frames|
      invariant |counts| == f
      invariant forall k :: 0 <= k < f ==> counts[k] == |OccupiedPoints(roi, frames[k])|
    {
      var points, carCount := EvaluateFrame(roi, frames[f]);
      counts := counts + [carCount];
    }
  }

  /** One more detection at the end adds its entry, and only its entry, when it is accepted. */
  lemma OccupiedPointsSnoc(roi: seq<Point>, dets: seq<Detection>, d: Detection)
    ensures OccupiedPoints(roi, dets + [d]) ==
      OccupiedPoints(roi, dets) + if Accepted(roi, d) then [[Center(d).x]] else []
  {
  }

  /** The list of a concatenation is the concatenation of the lists. */
  lemma {:induction false} OccupiedPointsConcat(roi: seq<Point>, a: seq<Detection>, b: seq<Detection>)
    ensures OccupiedPoints(roi, a + b) == OccupiedPoints(roi, a) + OccupiedPoints(roi, b)
    decreases |b|
  {
    if b == [] {
      assert a + b == a;
    } else {
      var b', d := b[..|b| - 1], b[|b| - 1];
      assert b == b' + [d];
      assert a + b == (a + b') + [d];
      OccupiedPointsSnoc(roi, a + b', d);
      OccupiedPointsSnoc(roi, b', d);
      OccupiedPointsConcat(roi, a, b');
    }
  }

  /**
    Wherever it stands in the frame, a detection contributes its entry [cx]
    when it is accepted and nothing otherwise, independently of the other
    detections.
   */
  lemma OneDetectionContributes(roi: seq<Point>, a: seq<Detection>, d: Detection, b: seq<Detection>)
    ensures OccupiedPoints(roi, a + [d] + b) ==
      OccupiedPoints(roi, a) + (if Accepted(roi, d) then [[Center(d).x]] else []) + OccupiedPoints(roi, b)
    ensures |OccupiedPoints(roi, a + [d] + b)| ==
      |OccupiedPoints(roi, a + b)| + if Accepted(roi, d) then 1 else 0
  {
    OccupiedPointsConcat(roi, a + [d], b);
    OccupiedPointsSnoc(roi, a, d);
    OccupiedPointsConcat(roi, a, b);
  }

  /** A detection whose label does not contain "car" never adds an entry, wherever its box lies. */
  lemma NonCarNeverCounts(roi: seq<Point>, a: seq<Detection>, d: Detection, b: seq<Detection>)
    requires !ContainsSubstring(d.name, CarToken)
    ensures OccupiedPoints(roi, a + [d] + b) == OccupiedPoints(roi, a + b)
  {
    OneDetectionContributes(roi, a, d, b);
    OccupiedPointsConcat(roi, a, b);
  }

  /**
    A detection is counted exactly when its label contains "car" and its
    centre is strictly inside the polygon or on one of its edges, the closing
    edge included: boundary points count as occupied.
   */
  lemma AcceptedIff(roi: seq<Point>, d: Detection)
    ensures Accepted(roi, d) <==>
      (exists i :: OccursAt(d.name, CarToken, i)) &&
      (OnBoundary(roi, Center(d)) || |Crossings(roi, Center(d))| % 2 == 1)
  {
    ContainsSubstringIff(d.name, CarToken);
    PointPolygonTestSpec(roi, Center(d));
  }

  /** The number of entries is the number of accepted detections. */
  lemma {:induction false} CountIsAcceptedCount(roi: seq<Point>, dets: seq<Detection>)
    ensures |OccupiedPoints(roi, dets)| == |AcceptedSet(roi, dets)|
    decreases |dets|
  {
    if dets == [] {
      assert AcceptedSet(roi, dets) == {};
    } else {
      var rest, d := dets[..|dets| - 1], dets[|dets| - 1];
      assert dets == rest + [d];
      OccupiedPointsSnoc(roi, rest, d);
      CountIsAcceptedCount(roi, rest);
      AcceptedSetSnoc(roi, rest, d);
    }
  }

  /** One more detection at the end adds its index exactly when it is accepted. */
  lemma AcceptedSetSnoc(roi: seq<Point>, dets: seq<Detection>, d: Detection)
    ensures AcceptedSet(roi, dets + [d]) == AcceptedSet(roi, dets) + if Accepted(roi, d) then {|dets|} else {}
    ensures |dets| !in AcceptedSet(roi, dets)
  {
  }

  /**
    The indices of the accepted detections in increasing order, which the
    entries of the list follow (see OccupiedPointsInOrder).
   */
  ghost function AcceptedIndices(roi: seq<Point>, dets: seq<Detection>): (idx: seq<int>)
    ensures forall k :: 0 <= k < |idx| ==> 0 <= idx[k] < |dets| && Accepted(roi, dets[idx[k]])
    ensures forall k, l :: 0 <= k < l < |idx| ==> idx[k] < idx[l]
    ensures forall i :: 0 <= i < |dets| && Accepted(roi, dets[i]) ==> i in idx
    decreases |dets|
  {
    if dets == [] then []
    else
      var n := |dets| - 1;
      var idx := AcceptedIndices(roi, dets[..n]);
      if Accepted(roi, dets[n]) then idx + [n] else idx
  }

  /**
    The list is a stable filter: its k-th entry is [cx] of the k-th accepted
    detection, in detection order.
   */
  lemma {:induction false} OccupiedPointsInOrder(roi: seq<Point>, dets: seq<Detection>)
    ensures |OccupiedPoints(roi, dets)| == |AcceptedIndices(roi, dets)|
    ensures forall k :: 0 <= k < |OccupiedPoints(roi, dets)| ==>
      OccupiedPoints(roi, dets)[k] == [Center(dets[AcceptedIndices(roi, dets)[k]]).x]
    decreases |dets|
  {
    if dets != [] {
      var rest := dets[..|dets| - 1];
      OccupiedPointsInOrder(roi, rest);
    }
  }

  /** The label test is a substring test: "car" and "race car" pass it, "truck" does not. */
  lemma CarLabelSamples()
    ensures ContainsSubstring("car", CarToken)
    ensures ContainsSubstring("race car", CarToken)
    ensures !ContainsSubstring("truck", CarToken)
  {
    ContainsSubstringIff("car", CarToken);
    assert OccursAt("car", CarToken, 0);
    ContainsSubstringIff("race car", CarToken);
    assert OccursAt("race car", CarToken, 5);
    var t := "truck";
    assert t[..3][0] != CarToken[0] && t[1..][..3][0] != CarToken[0] && t[2..][..3][0] != CarToken[0];
    assert !ContainsSubstring(t[3..], CarToken);
  }

  /**
    A frame over the monitored parking area: a car centred at (400, 440)
    inside it, a truck centred at the same point, and a car centred far
    outside it. Only the first detection counts.
   */
  lemma ParkingAreaFrame()
    ensures OccupiedPoints(ParkingArea, [
      Detection("car", 380, 420, 420, 460),
      Detection("truck", 380, 420, 420, 460),
      Detection("car", 40, 60, 60, 100)]) == [[400]]
  {
    var inside, truck, outside := Detection("car", 380, 420, 420, 460),
      Detection("truck", 380, 420, 420, 460), Detection("car", 40, 60, 60, 100);
    CarLabelSamples();
    ParkingAreaInside();
    ParkingAreaOutside();
    assert Center(inside) == Point(400, 440) && Center(outside) == Point(50, 80);
    assert Accepted(ParkingArea, inside);
    assert !Accepted(ParkingArea, truck);
    assert !Accepted(ParkingArea, outside);
    OccupiedPointsSnoc(ParkingArea, [], inside);
    OccupiedPointsSnoc(ParkingArea, [inside], truck);
    OccupiedPointsSnoc(ParkingArea, [inside, truck], outside);
  }
}
