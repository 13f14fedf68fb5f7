/** One planning cycle (the code's `run`): reference point, lap tracking,
    sensor fusion, behaviour plan, collision avoidance, speed control and
    trajectory, in that order. */
module Cycle {
  import opened Utils
  import opened Lanes
  import opened Traffic
  import opened Planner
  import opened Behavior
  import opened Speed
  import opened Laps
  import opened Trajectory

  /** The car's telemetry for one cycle; `pathSpeed` is the speed over the last
      step of the previous path. */
  datatype Ego = Ego(s: real, d: real, v: real, endS: real, endD: real, pathSpeed: real,
                     previous: seq<Point>, cars: seq<Car>)

  /** The lateral offset the cycle takes as its reference. */
  function ReferenceD(ego: Ego): real
  {
    if |ego.previous| < 2 then ego.d else ego.endD
  }

  /** The decision half of a cycle, once the lanes are summarised: behaviour
      plan, collision avoidance and speed control. */
  method Decide(p: Planner, infos: seq<LaneInfo>, egoV: real) returns (r: Planner)
    requires |infos| == LaneCount && (p.state != KeepLane ==> IsLane(p.refLane))
    requires p.state != Start ==> IsLane(p.targetLane)
    requires p.state == PrepareLaneChange ==> IsLane(p.changingLane)
    ensures r.refLane == p.refLane && r.laps == p.laps
    ensures PendingChangeValid(p) ==> PendingChangeValid(r)
    ensures IsLane(r.targetLane) && r.state != Start
    ensures 0.0 <= r.targetSpeed <= Max(0.0, r.refV + Accel)
    ensures r.targetSpeed >= r.refV - StepLimit(r.warningCollision)
    ensures r.state == LaneChange && p.state != LaneChange ==> p.state == PrepareLaneChange
  {
    CreatePlanKeepsPendingChange(p, infos, egoV);
    var planned := CreatePlan(p, infos, egoV);
    var followed := CollisionAvoidance(planned, infos);
    r := SpeedControl(followed);
  }

  /** The planner half of a cycle: everything up to the speed-controlled
      target speed, which the trajectory then follows. */
  method Step(p: Planner, ego: Ego, dt: real) returns (r: Planner)
    requires |ego.previous| <= PathPoints
    requires p.state != KeepLane ==> 0.0 <= ReferenceD(ego) <= RoadWidth
    requires p.state != Start ==> IsLane(p.targetLane)
    requires p.state == PrepareLaneChange ==> IsLane(p.changingLane)
    ensures r.refLane == LaneAt(ReferenceD(ego))
    ensures p.state != KeepLane ==> IsLane(r.refLane)
    ensures PendingChangeValid(p) ==> PendingChangeValid(r)
    ensures IsLane(r.targetLane) && r.state != Start
    ensures 0.0 <= r.targetSpeed <= Max(0.0, r.refV + Accel)
    ensures r.targetSpeed >= r.refV - StepLimit(r.warningCollision)
    ensures r.laps == p.laps || r.laps == p.laps + 1
    ensures r.state == LaneChange && p.state != LaneChange ==> p.state == PrepareLaneChange
  {
    var located := Reference(p, ego.s, ego.d, ego.v, |ego.previous|, ego.endS, ego.endD, ego.pathSpeed);
    var tracked := TrackLap(located, ego.s, ego.d);
    assert PendingChangeValid(p) ==> PendingChangeValid(tracked);
    var infos := ProcessSensorFusion(ego.cars, tracked.refS, |ego.previous|, dt);
    r := Decide(tracked, infos, ego.v);
  }

  /** `curve` is the spline through the anchor points in the car's frame,
      taken back to world coordinates, and `t` the time per 30 m of spline
      arc (30 over the chord length to the horizon point, times `dt`); new
      points are spaced by `t` times the speed-controlled target speed. */
  method Run(p: Planner, ego: Ego, dt: real, curve: real -> Point, t: real)
    returns (r: Planner, path: seq<Point>)
    requires |ego.previous| <= PathPoints
    requires p.state != KeepLane ==> 0.0 <= ReferenceD(ego) <= RoadWidth
    requires p.state != Start ==> IsLane(p.targetLane)
    requires p.state == PrepareLaneChange ==> IsLane(p.changingLane)
    ensures |path| == PathPoints && path[..|ego.previous|] == ego.previous
    ensures forall k :: |ego.previous| <= k < PathPoints ==>
      path[k] == Sample(curve, t * r.targetSpeed, k - |ego.previous| + 1)
    ensures r.refLane == LaneAt(ReferenceD(ego))
    ensures p.state != KeepLane ==> IsLane(r.refLane)
    ensures PendingChangeValid(p) ==> PendingChangeValid(r)
    ensures IsLane(r.targetLane) && r.state != Start
    ensures 0.0 <= r.targetSpeed <= Max(0.0, r.refV + Accel)
    ensures r.targetSpeed >= r.refV - StepLimit(r.warningCollision)
    ensures r.laps == p.laps || r.laps == p.laps + 1
    ensures r.state == LaneChange && p.state != LaneChange ==> p.state == PrepareLaneChange
  {
    r := Step(p, ego, dt);
    path := Extend(ego.previous, curve, t * r.targetSpeed);
  }
}
