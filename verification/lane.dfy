/** The lane model: a stateless mapping between the lateral Frenet offset `d`,
    lane indices (0 is the leftmost lane) and lane-centre offsets. The lane
    structure is only ever used with its default configuration, which is
    fixed here. */
module Lanes {

  /** Number of lanes, numbered 0, 1, 2 from left to right. */
  const LaneCount: int := 3
  /** Lane width in metres. */
  const LaneWidth: real := 4.0
  /** Lane speed limit in miles per hour. */
  const SpeedLimitMph: real := 50.0
  /** Width of the drivable road. */
  const RoadWidth: real := LaneWidth * LaneCount as real

  /** Result of `LaneAt` for a point left of the road (d < 0). */
  const OffLeft: int := -1
  /** Result of `LaneAt` for a point right of the road (d > road width). */
  const OffRight: int := -2

  predicate IsLane(i: int) { 0 <= i < LaneCount }

  /** Offset of the centre line of lane `i`. */
  function LaneCenter(i: int): real { (0.5 + i as real) * LaneWidth }

  /** Offset of the left edge of lane `i`. */
  function LaneLeftEdge(i: int): real { i as real * LaneWidth }

  /** Hook for biasing the two edge lanes; both biases are zero. */
  function SafeLaneCenter(i: int): (r: real)
    ensures r == LaneCenter(i)
  {
    var center := LaneCenter(i);
    if i == 0 then center + 0.0
    else if i == LaneCount - 1 then center - 0.0
    else center
  }

  /** The lane at offset `d`, as the code computes it: a point exactly on the
      right road edge yields `LaneCount`, which is not a lane. */
  function LaneAtAsWritten(d: real): int
  {
    if d < 0.0 then OffLeft
    else if d > RoadWidth then OffRight
    else (d / LaneWidth).Floor
  }

  /** The lane at offset `d`, with the right road edge counted in the rightmost lane. */
  function LaneAt(d: real): (r: int)
    ensures r == OffLeft <==> d < 0.0
    ensures r == OffRight <==> d > RoadWidth
    ensures 0.0 <= d <= RoadWidth <==> IsLane(r)
    ensures IsLane(r) ==> LaneLeftEdge(r) <= d <= LaneLeftEdge(r) + LaneWidth
    ensures IsLane(r) && d < RoadWidth ==> d < LaneLeftEdge(r) + LaneWidth
    ensures r >= 0 ==> IsLane(r)
  {
    if d < 0.0 then OffLeft
    else if d > RoadWidth then OffRight
    else if d == RoadWidth then LaneCount - 1
    else (d / LaneWidth).Floor
  }

  /** Signed lateral distance from `d` to the centre of `lane`. */
  function DistanceToLane(d: real, lane: int): (r: real)
    ensures r == 0.0 <==> d == LaneCenter(lane)
    ensures r > 0.0 <==> d < LaneCenter(lane)
  {
    LaneCenter(lane) - d
  }

  /** The road is `LaneCount` lanes wide: 12 m. */
  lemma RoadWidthIsLanes()
    ensures RoadWidth == LaneWidth * LaneCount as real == 12.0
  {}

  /** Adjacent lane centres are exactly one lane width apart, so centres strictly increase. */
  lemma LaneCentersIncrease(i: int, j: int)
    ensures LaneCenter(i + 1) - LaneCenter(i) == LaneWidth
    ensures i < j ==> LaneCenter(i) < LaneCenter(j)
  {}

  /** The centre of every lane lies in that lane. */
  lemma LaneAtCenter(i: int)
    requires IsLane(i)
    ensures LaneAt(LaneCenter(i)) == i
  {}

  /** Mapping an on-road offset to its lane and back to that lane's centre stays in the same lane. */
  lemma LaneAtIdempotent(d: real)
    requires 0.0 <= d <= RoadWidth
    ensures LaneAt(LaneCenter(LaneAt(d))) == LaneAt(d)
  {
    LaneAtCenter(LaneAt(d));
  }

  /** As written, a point exactly on the right road edge is assigned the
      non-existent lane `LaneCount`. */
  lemma LaneAtRoadEdgeAsWritten()
    ensures LaneAtAsWritten(RoadWidth) == LaneCount
    ensures !IsLane(LaneAtAsWritten(RoadWidth))
  {}

  /** The corrected lane lookup differs from the written one only on the right road edge. */
  lemma LaneAtDiffersOnlyAtEdge(d: real)
    ensures LaneAt(d) != LaneAtAsWritten(d) <==> d == RoadWidth
  {}
}
