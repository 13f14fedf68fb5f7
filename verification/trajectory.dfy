/** Trajectory assembly. The points still unconsumed from the previous cycle
    are kept for continuity and new points, sampled along the fitted curve at
    equal steps of the local x axis, are appended after them. The curve
    itself (a cubic spline through anchor points, and the rotations into and
    out of the car's frame) is a parameter. */
module Trajectory {
  import opened Lanes
  import opened Planner
  import RoadMap

  datatype Point = Point(x: real, y: real)

  /** The stations of the three anchors the curve is fitted through: 30, 60
      and 90 m past the reference station. */
  function AnchorStations(refS: real): (r: seq<real>)
    ensures |r| == 3
    ensures r[0] == refS + 30.0 && forall i :: 0 < i < |r| ==> r[i] == r[i - 1] + 30.0
  {
    [refS + 30.0, refS + 60.0, refS + 90.0]
  }

  /** The anchors are not wrapped onto the loop: on a closed, sorted map every
      anchor beyond the map's last station makes the written waypoint search
      read past the table. */
  lemma AnchorPastTableEnd(t: seq<RoadMap.Waypoint>, refS: real)
    requires RoadMap.Sorted(t) && RoadMap.Closed(t)
    ensures forall i :: 0 <= i < 3 && AnchorStations(refS)[i] > RoadMap.MaxS ==>
      RoadMap.SearchAsWritten(t, AnchorStations(refS)[i], -1) == RoadMap.ReadsOutside(|t|)
    ensures refS + 90.0 > RoadMap.MaxS ==>
      RoadMap.SearchAsWritten(t, AnchorStations(refS)[2], -1) == RoadMap.ReadsOutside(|t|)
  {
    var anchors := AnchorStations(refS);
    forall i | 0 <= i < 3 && anchors[i] > RoadMap.MaxS
      ensures RoadMap.SearchAsWritten(t, anchors[i], -1) == RoadMap.ReadsOutside(|t|)
    {
      RoadMap.SearchAsWrittenCases(t, anchors[i]);
    }
  }

  /** The `j`-th new point: the curve `j` steps along the local x axis. */
  function Sample(curve: real -> Point, step: real, j: int): Point
  {
    curve(j as real * step)
  }

  /** Length of the trajectory the code returns when `kept` points remain from
      the previous cycle: the loop bound `PathPoints - size` shrinks by one
      with every point appended while the counter grows by one. */
  function LengthAsWritten(kept: int): int
  {
    kept + (PathPoints - kept + 1) / 2
  }

  /** The appending loop as written: the bound is re-evaluated against the
      growing path, so only about half the missing points are appended. */
  method ExtendAsWritten(previous: seq<Point>, curve: real -> Point, step: real) returns (path: seq<Point>)
    requires |previous| <= PathPoints
    ensures |path| == LengthAsWritten(|previous|)
    ensures path[..|previous|] == previous
    ensures forall k :: |previous| <= k < |path| ==> path[k] == Sample(curve, step, k - |previous| + 1)
  {
    path := previous;
    var i := 1;
    while i <= PathPoints - |path|
      invariant 1 <= i && |path| == |previous| + i - 1
      invariant 2 * (i - 1) <= PathPoints - |previous| + 1
      invariant path[..|previous|] == previous
      invariant forall k :: |previous| <= k < |path| ==> path[k] == Sample(curve, step, k - |previous| + 1)
      decreases PathPoints - |path| - i
    {
      assert |path| - |previous| + 1 == i;
      path := path + [Sample(curve, step, i)];
      i := i + 1;
    }
  }

  /** As written, a trajectory falls short of `PathPoints` whenever two or more
      points are missing; from an empty previous path it has 25 points. */
  lemma ExtendAsWrittenFallsShort(kept: int)
    requires 0 <= kept <= PathPoints
    ensures LengthAsWritten(kept) == PathPoints <==> kept >= PathPoints - 1
    ensures LengthAsWritten(0) == 25
  {}

  /** The appending loop as intended: the number of missing points is fixed
      before appending, so the trajectory always has `PathPoints` points. */
  method Extend(previous: seq<Point>, curve: real -> Point, step: real) returns (path: seq<Point>)
    requires |previous| <= PathPoints
    ensures |path| == PathPoints
    ensures path[..|previous|] == previous
    ensures forall k :: |previous| <= k < |path| ==> path[k] == Sample(curve, step, k - |previous| + 1)
  {
    path := previous;
    var missing := PathPoints - |previous|;
    var i := 1;
    while i <= missing
      invariant 1 <= i <= missing + 1 && |path| == |previous| + i - 1
      invariant path[..|previous|] == previous
      invariant forall k :: |previous| <= k < |path| ==> path[k] == Sample(curve, step, k - |previous| + 1)
    {
      assert |path| - |previous| + 1 == i;
      path := path + [Sample(curve, step, i)];
      i := i + 1;
    }
  }
}
