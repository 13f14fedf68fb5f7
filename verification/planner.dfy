/** The planner's persistent record and the helpers every stage shares. The
    code keeps this state in a mutable object; here it is an immutable value
    and each stage is a function from record to record. */
module Planner {
  import opened Utils
  import opened Lanes
  import RoadMap

  /** Speed change allowed per cycle (m/s), and the larger one under a collision warning. */
  const Accel: real := 0.1
  const EmergencyAccel: real := 0.2

  /** Number of points in every trajectory handed to the simulator. */
  const PathPoints: int := 50

  datatype State = Start | KeepLane | PrepareLaneChange | LaneChange

  /** Cross-cycle planner state, plus the reference point of the current cycle
      (`refS`, `refD`, `refV`, `refLane`), which the cycle recomputes first. */
  datatype Planner = Planner(
    warningCollision: bool,
    refS: real, refD: real, refV: real, refLane: int,
    laps: nat, lapsTick: nat, passedZeroS: bool, startS: real, startD: real,
    changingLane: int, targetLane: int, targetSpeed: real,
    state: State, stateS: real)

  /** The planner after a reset. */
  function Initial(): (p: Planner)
    ensures p.state == Start && p.stateS == 0.0
    ensures p.laps == 0 && p.lapsTick == 0 && !p.passedZeroS
    ensures !p.warningCollision && p.targetLane == 1 && p.targetSpeed == 0.0
    ensures p.changingLane == -1
  {
    Planner(false, 0.0, 0.0, 0.0, 0, 0, 0, false, 0.0, 0.0, -1, 1, 0.0, Start, 0.0)
  }

  /** The speed limit converted to m/s, less a 0.2 m/s safety margin. */
  const RoadSpeedLimit: real := Mph2Mps(SpeedLimitMph) - 0.2

  lemma RoadSpeedLimitValue()
    ensures RoadSpeedLimit == 22.152
  {}

  /** Moves to `s`; the station where the state began is reset only if the state actually changes. */
  function SetState(p: Planner, s: State): (r: Planner)
    ensures r.state == s
    ensures r.stateS != p.stateS ==> p.state != s && r.stateS == p.refS
    ensures p.state != s ==> r.stateS == p.refS
    ensures r == p.(state := s, stateS := r.stateS)
  {
    if p.state != s then p.(state := s, stateS := p.refS) else p
  }

  /** Setting the same state twice is the same as setting it once. */
  lemma SetStateIdempotent(p: Planner, s: State)
    ensures SetState(SetState(p, s), s) == SetState(p, s)
  {}

  /** Distance driven since the current state began: `m` with whole laps of the
      track added until it is not negative. */
  function MetersInState(m: real): (r: real)
    ensures r >= 0.0
    ensures m >= 0.0 ==> r == m
    ensures m < 0.0 ==> r < RoadMap.MaxS
    decreases if m >= 0.0 then 0 else (-m / RoadMap.MaxS).Floor + 1
  {
    if m >= 0.0 then m
    else
      FloorStep(-m / RoadMap.MaxS);
      MetersInState(m + RoadMap.MaxS)
  }

  /** Moving the state's start station one lap further on does not change the
      distance driven in the state, as long as that distance is under a lap. */
  lemma MetersInStateIgnoresLap(m: real)
    requires m < RoadMap.MaxS
    ensures MetersInState(m - RoadMap.MaxS) == MetersInState(m)
  {}

  lemma FloorStep(x: real)
    ensures (x - 1.0).Floor == x.Floor - 1
  {}

  /** The reference point of a cycle: the car itself when fewer than two points
      of the previous path are left, else the end of that path; `pathSpeed` is
      the speed over the path's last step, whose length is not modelled. */
  function Reference(p: Planner, egoS: real, egoD: real, egoV: real, planned: int,
                     endS: real, endD: real, pathSpeed: real): (r: Planner)
    ensures r.refLane == LaneAt(r.refD)
    ensures planned < 2 ==> r.refS == egoS && r.refD == egoD && r.refV == egoV
    ensures planned >= 2 ==> r.refS == endS && r.refD == endD && r.refV == pathSpeed
    ensures r == p.(refS := r.refS, refD := r.refD, refV := r.refV, refLane := r.refLane)
  {
    if planned < 2 then p.(refS := egoS, refD := egoD, refV := egoV, refLane := LaneAt(egoD))
    else p.(refS := endS, refD := endD, refV := pathSpeed, refLane := LaneAt(endD))
  }
}
