/** Speed regulation after behaviour planning: the target speed is capped
    behind a close leading car, then limited to one acceleration step from
    the reference speed. */
module Speed {
  import opened Utils
  import opened Lanes
  import opened Traffic
  import opened Planner

  /** Follow a leading car closer than the lane-change buffer: below the
      emergency buffer aim 0.2 m/s under its speed and raise the collision
      warning, otherwise match its speed and clear the warning. A lane with no
      close car changes nothing. */
  function CollisionAvoidance(p: Planner, infos: seq<LaneInfo>): (r: Planner)
    requires |infos| == LaneCount && IsLane(p.targetLane)
    ensures r.warningCollision <==>
      infos[p.targetLane].frontGap < EmergencyFrontBuffer
      || (infos[p.targetLane].frontGap >= FrontBuffer && p.warningCollision)
    ensures infos[p.targetLane].frontGap >= FrontBuffer ==> r == p
    ensures infos[p.targetLane].frontGap < FrontBuffer ==>
      0.0 <= r.targetSpeed <= Max(0.0, p.targetSpeed)
      && r.targetSpeed <= Max(0.0, infos[p.targetLane].frontSpeed)
    ensures infos[p.targetLane].frontGap < EmergencyFrontBuffer ==>
      r.targetSpeed <= Max(0.0, infos[p.targetLane].frontSpeed - 0.2)
    ensures infos[p.targetLane].frontGap < FrontBuffer && p.targetSpeed >= 0.0 ==>
      r.targetSpeed == Min(p.targetSpeed, Max(0.0, FollowSpeed(infos[p.targetLane])))
    ensures r == p.(targetSpeed := r.targetSpeed, warningCollision := r.warningCollision)
  {
    var lead := infos[p.targetLane];
    if lead.frontGap < FrontBuffer then
      if lead.frontGap < EmergencyFrontBuffer then
        p.(targetSpeed := Max(0.0, Min(p.targetSpeed, lead.frontSpeed - 0.2)), warningCollision := true)
      else
        p.(targetSpeed := Max(0.0, Min(p.targetSpeed, lead.frontSpeed)), warningCollision := false)
    else p
  }

  /** The speed to follow a close leading car at: 0.2 m/s under its speed
      inside the emergency buffer, its speed otherwise. */
  function FollowSpeed(lead: LaneInfo): real
  {
    if lead.frontGap < EmergencyFrontBuffer then lead.frontSpeed - 0.2 else lead.frontSpeed
  }

  /** Avoiding a collision twice in the same situation changes nothing more. */
  lemma CollisionAvoidanceIdempotent(p: Planner, infos: seq<LaneInfo>)
    requires |infos| == LaneCount && IsLane(p.targetLane)
    ensures CollisionAvoidance(CollisionAvoidance(p, infos), infos) == CollisionAvoidance(p, infos)
  {}

  /** The speed change allowed this cycle: larger under a collision warning. */
  function StepLimit(warning: bool): real
  {
    if warning then EmergencyAccel else Accel
  }

  /** Move the target speed at most one step from the reference speed, toward
      the planned target, and never below zero. */
  function SpeedControl(p: Planner): (r: Planner)
    ensures r.targetSpeed >= 0.0
    ensures r.targetSpeed <= Max(0.0, p.refV + Accel)
    ensures r.targetSpeed >= p.refV - StepLimit(p.warningCollision)
    ensures p.targetSpeed >= 0.0 && p.refV >= 0.0 ==>
      Min(p.refV, p.targetSpeed) <= r.targetSpeed <= Max(p.refV, p.targetSpeed)
    ensures AbsReal(p.targetSpeed - p.refV) <= Accel && p.targetSpeed >= 0.0 ==> r.targetSpeed == p.targetSpeed
    ensures p.refV >= 0.0 && p.targetSpeed > p.refV ==> r.targetSpeed == Min(p.targetSpeed, p.refV + Accel)
    ensures p.targetSpeed >= 0.0 && p.targetSpeed < p.refV ==>
      r.targetSpeed == Max(p.targetSpeed, p.refV - StepLimit(p.warningCollision))
    ensures r == p.(targetSpeed := r.targetSpeed)
  {
    var v := p.refV;
    var target :=
      if p.targetSpeed < v then Max(p.targetSpeed, v - StepLimit(p.warningCollision))
      else if p.targetSpeed > v then Min(p.targetSpeed, v + Accel)
      else v;
    p.(targetSpeed := Max(target, 0.0))
  }

  /** The reference speed after `n` cycles that each plan `target` without a
      collision warning and start from the speed the previous cycle reached. */
  function Approach(v: real, target: real, n: nat): real
    decreases n
  {
    if n == 0 then v
    else Approach(SpeedControl(Initial().(refV := v, targetSpeed := target)).targetSpeed, target, n - 1)
  }

  /** From any speed, a fixed target speed is reached after as many cycles as
      acceleration steps separate the two, and then held. */
  lemma {:induction false} ApproachReachesTarget(v: real, target: real, n: nat)
    requires v >= 0.0 && target >= 0.0
    requires AbsReal(target - v) <= n as real * Accel
    ensures Approach(v, target, n) == target
    decreases n
  {
    if n > 0 {
      var next := SpeedControl(Initial().(refV := v, targetSpeed := target)).targetSpeed;
      assert AbsReal(target - next) <= (n - 1) as real * Accel;
      ApproachReachesTarget(next, target, n - 1);
    }
  }
}
