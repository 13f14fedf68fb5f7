/** Behaviour planning: the state machine that chooses, once per cycle, the
    lane to drive toward and the speed to aim for. Each state is one function;
    `CreatePlan` dispatches on the state and clamps the resulting speed. */
module Behavior {
  import opened Utils
  import opened Lanes
  import opened Traffic
  import opened Ranking
  import opened Planner

  /** The lane the code aims at while preparing a change: the lane next to
      `refLane` on the side of `changingLane`. When the two lanes coincide it
      still steps one lane to the left. */
  function StepToward(refLane: int, changingLane: int): (r: int)
    ensures AbsInt(r - refLane) == 1
    ensures changingLane != refLane ==> AbsInt(changingLane - r) < AbsInt(changingLane - refLane)
    ensures changingLane == refLane ==> r == refLane - 1
  {
    if changingLane > refLane then refLane + 1 else refLane - 1
  }

  /** Preparing a change toward the lane the car is already in steps off the
      road from the leftmost lane. */
  lemma StepTowardOwnLaneLeavesRoad()
    ensures StepToward(0, 0) == -1 && !IsLane(StepToward(0, 0))
  {}

  /** A pending change is -1 or a lane, and a lane while the change is
      prepared; the steps of the state machine keep this. */
  predicate PendingChangeValid(p: Planner)
  {
    (p.changingLane == -1 || IsLane(p.changingLane))
    && (p.state == PrepareLaneChange ==> IsLane(p.changingLane))
  }

  /** The first cycle adopts the current lane, keeps it, and dates the state
      from the station where the car started. */
  function PlanStart(p: Planner): (r: Planner)
    ensures p.state == Start ==>
      r.state == KeepLane && r.targetLane == p.refLane && r.changingLane == -1 && r.stateS == p.startS
    ensures p.state != Start ==> r == p
    ensures r == p.(state := r.state, stateS := r.stateS, targetLane := r.targetLane, changingLane := r.changingLane)
  {
    if p.state == Start then p.(changingLane := -1, targetLane := p.refLane, state := KeepLane, stateS := p.startS)
    else p
  }

  /** The target lane holds a car close ahead that is slower than the ego car,
      and the car has kept its lane for more than 100 m. */
  predicate BlockedAhead(infos: seq<LaneInfo>, lane: int, egoV: real, meters: real)
    requires |infos| == LaneCount && IsLane(lane)
  {
    infos[lane].frontGap < FrontBuffer && infos[lane].frontSpeed < egoV && meters > 100.0
  }

  /** Keep the lane at the speed limit; when blocked, prepare a change to the
      best lane if its leading car is faster than the one ahead. */
  function PlanKeepLane(p: Planner, infos: seq<LaneInfo>, best: int, meters: real, egoV: real): (r: Planner)
    requires |infos| == LaneCount && IsLane(p.targetLane) && IsLane(best) && p.state == KeepLane
    ensures r.targetSpeed == RoadSpeedLimit && r.targetLane == p.targetLane
    ensures r.state == PrepareLaneChange <==>
      BlockedAhead(infos, p.targetLane, egoV, meters) && infos[best].frontSpeed > infos[p.targetLane].frontSpeed
    ensures r.state == PrepareLaneChange ==>
      r.changingLane == best && r.changingLane != r.targetLane && r.stateS == p.refS
    ensures r.state != PrepareLaneChange ==> r.state == KeepLane && r.changingLane == -1 && r.stateS == p.stateS
    ensures r == p.(targetSpeed := r.targetSpeed, changingLane := r.changingLane, state := r.state, stateS := r.stateS)
  {
    var q := p.(targetSpeed := RoadSpeedLimit, changingLane := -1);
    if BlockedAhead(infos, p.targetLane, egoV, meters) && infos[best].frontSpeed > infos[p.targetLane].frontSpeed
    then SetState(q.(changingLane := best), PrepareLaneChange)
    else q
  }

  /** The keep-lane decision as the code writes it: the leading speed of the
      best lane is compared with the entry indexed by the target speed,
      truncated toward zero, rather than by the target lane. `None` stands for
      a read outside the lane table; `Some(b)` says whether a change is prepared. */
  function KeepLaneDecisionAsWritten(infos: seq<LaneInfo>, lane: int, best: int, meters: real, egoV: real,
                                     targetSpeed: real): (r: Option<bool>)
    requires |infos| == LaneCount && IsLane(lane) && IsLane(best) && targetSpeed >= 0.0
    ensures !BlockedAhead(infos, lane, egoV, meters) ==> r == Some(false)
    ensures r.None? <==> BlockedAhead(infos, lane, egoV, meters) && !IsLane(targetSpeed.Floor)
  {
    if !BlockedAhead(infos, lane, egoV, meters) then Some(false)
    else if targetSpeed.Floor >= |infos| then None
    else Some(infos[best].frontSpeed > infos[targetSpeed.Floor].frontSpeed)
  }

  /** At the speed limit the code reads lane 22 of a three-lane table, so every
      blocked keep-lane cycle reads outside the table. */
  lemma KeepLaneAsWrittenReadsOutside(infos: seq<LaneInfo>, lane: int, best: int, meters: real, egoV: real)
    requires |infos| == LaneCount && IsLane(lane) && IsLane(best)
    requires BlockedAhead(infos, lane, egoV, meters)
    ensures RoadSpeedLimit.Floor == 22
    ensures KeepLaneDecisionAsWritten(infos, lane, best, meters, egoV, RoadSpeedLimit) == None
  {
    assert 22.0 <= RoadSpeedLimit < 23.0;
  }

  /** Prepare a change: aim at the adjacent lane toward `changingLane`, start the
      change once it is safe, cancel if the best lane moved, otherwise wait and
      follow the car ahead in the current lane. Once the car is already in
      `changingLane` the preparation is over and the lane is kept; the code
      instead steps one lane further left (see `StepToward`). */
  function PlanPrepare(p: Planner, infos: seq<LaneInfo>, best: int, meters: real): (r: Planner)
    requires |infos| == LaneCount && IsLane(p.refLane) && IsLane(p.changingLane) && p.state == PrepareLaneChange
    ensures IsLane(r.targetLane) && r.targetSpeed <= p.targetSpeed
    ensures p.changingLane == p.refLane ==>
      r.state == KeepLane && r.targetLane == p.refLane && r.changingLane == -1 && r.targetSpeed == p.targetSpeed
    ensures p.changingLane != p.refLane ==> r.changingLane == p.changingLane
    ensures r.state == LaneChange <==>
      p.changingLane != p.refLane && infos[StepToward(p.refLane, p.changingLane)].feasible && meters > 5.0
    ensures r.state == LaneChange ==>
      r.targetLane == StepToward(p.refLane, p.changingLane) && AbsInt(r.targetLane - p.refLane) == 1
      && r.stateS == p.refS && r.targetSpeed == p.targetSpeed
    ensures r.state == KeepLane <==> p.changingLane == p.refLane || (r.state != LaneChange && p.changingLane != best)
    ensures r.state == KeepLane ==> r.targetLane == p.refLane && r.stateS == p.refS
    ensures r.state == PrepareLaneChange ==>
      p.changingLane == best && p.changingLane != p.refLane && r.stateS == p.stateS
    ensures r.state == PrepareLaneChange && infos[p.refLane].frontGap < FrontBuffer ==>
      r.targetLane == p.refLane && r.targetSpeed <= infos[p.refLane].frontSpeed
    ensures r.state == PrepareLaneChange && infos[p.refLane].frontGap >= FrontBuffer ==>
      r.targetLane == StepToward(p.refLane, p.changingLane) && r.targetSpeed == p.targetSpeed
      && !(infos[r.targetLane].feasible && meters > 5.0)
    ensures r == p.(targetLane := r.targetLane, targetSpeed := r.targetSpeed, changingLane := r.changingLane,
                    state := r.state, stateS := r.stateS)
  {
    if p.changingLane == p.refLane then SetState(p.(targetLane := p.refLane, changingLane := -1), KeepLane)
    else
      var next := StepToward(p.refLane, p.changingLane);
      var q := p.(targetLane := next);
      if infos[next].feasible && meters > 5.0 then SetState(q, LaneChange)
      else if p.changingLane != best then SetState(q.(targetLane := p.refLane), KeepLane)
      else if infos[p.refLane].frontGap < FrontBuffer then
        q.(targetLane := p.refLane, targetSpeed := Min(p.targetSpeed, infos[p.refLane].frontSpeed))
      else q
  }

  /** While the adjacent lane is not accepted and the current lane is free
      ahead, the planner waits in preparation with the adjacent lane as its
      target, so the car drifts into it; one cycle later the reference lane
      can be the lane of the pending change, where the code's step toward it
      leaves the road from the leftmost lane. */
  lemma WaitingReachesChangingLane(p: Planner, infos: seq<LaneInfo>, meters: real)
    requires |infos| == LaneCount && p.state == PrepareLaneChange && p.refLane == 1 && p.changingLane == 0
    requires !infos[0].feasible && infos[1].frontGap >= FrontBuffer
    ensures PlanPrepare(p, infos, 0, meters).state == PrepareLaneChange
    ensures PlanPrepare(p, infos, 0, meters).targetLane == 0
    ensures !IsLane(StepToward(LaneAt(LaneCenter(0)), PlanPrepare(p, infos, 0, meters).changingLane))
    ensures PlanPrepare(PlanPrepare(p, infos, 0, meters).(refLane := 0), infos, 0, meters).state == KeepLane
  {
    LaneAtCenter(0);
  }

  /** The lane change is over: the car is in the target lane, within 0.3 m of
      its centre, after more than 50 m in the state. */
  predicate ChangeCompleted(p: Planner, meters: real)
  {
    p.refLane == p.targetLane && AbsReal(p.refD - LaneCenter(p.targetLane)) <= 0.3 && meters > 50.0
  }

  /** The completion step as written: the move to preparing the next change is
      immediately overwritten by the move to keeping the lane. */
  function CompleteLaneChangeAsWritten(p: Planner): Planner
  {
    var q := if p.changingLane >= 0 && p.changingLane != p.refLane then SetState(p, PrepareLaneChange) else p;
    SetState(q.(changingLane := -1), KeepLane)
  }

  /** The completion step as intended: keep preparing while the ultimate
      lane is not yet reached, otherwise keep the lane. */
  function CompleteLaneChange(p: Planner): (r: Planner)
    ensures r.state == PrepareLaneChange <==> p.changingLane >= 0 && p.changingLane != p.refLane
    ensures r.state == PrepareLaneChange ==> r.changingLane == p.changingLane
    ensures r.state != PrepareLaneChange ==> r.state == KeepLane && r.changingLane == -1
    ensures r == p.(state := r.state, stateS := r.stateS, changingLane := r.changingLane)
  {
    if p.changingLane >= 0 && p.changingLane != p.refLane then SetState(p, PrepareLaneChange)
    else SetState(p.(changingLane := -1), KeepLane)
  }

  /** As written, a completed change always ends in keeping the lane, so a
      change that still has a lane to go is dropped; the intended step goes on
      preparing it. */
  lemma CompletionAsWrittenAlwaysKeepsLane(p: Planner)
    ensures CompleteLaneChangeAsWritten(p).state == KeepLane
    ensures CompleteLaneChangeAsWritten(p).changingLane == -1
    ensures p.changingLane >= 0 && p.changingLane != p.refLane ==>
      CompleteLaneChange(p).state == PrepareLaneChange && CompleteLaneChange(p).changingLane == p.changingLane
  {}

  /** Change lanes: never speed up by more than one step, complete the change
      once centred in the target lane, and abort toward the current lane when
      the target lane's leading car is dangerously close. An abort drops the
      pending change, so a completion in the same cycle keeps the lane, as the
      code's completion always does. */
  function PlanLaneChange(p: Planner, infos: seq<LaneInfo>, meters: real): (r: Planner)
    requires |infos| == LaneCount && IsLane(p.refLane) && IsLane(p.targetLane) && p.state == LaneChange
    ensures r.targetSpeed <= p.targetSpeed && r.targetSpeed <= p.refV + Accel
    ensures r.targetSpeed == p.targetSpeed || r.targetSpeed == p.refV + Accel
    ensures IsLane(r.targetLane)
    ensures !ChangeCompleted(p, meters) ==> r.state == LaneChange && r.stateS == p.stateS
    ensures ChangeCompleted(p, meters) ==> r.state != LaneChange && r.stateS == p.refS
    ensures ChangeCompleted(p, meters) && infos[p.targetLane].frontGap >= EmergencyFrontBuffer ==>
      r.state == CompleteLaneChange(p).state
    ensures infos[p.targetLane].frontGap < EmergencyFrontBuffer ==>
      r.targetLane == p.refLane && r.changingLane == -1 && r.state != PrepareLaneChange
    ensures r.state == PrepareLaneChange ==> r.changingLane == p.changingLane && p.changingLane != p.refLane
    ensures infos[p.targetLane].frontGap >= EmergencyFrontBuffer ==>
      r.targetLane == p.targetLane
      && r.changingLane == (if ChangeCompleted(p, meters) then CompleteLaneChange(p).changingLane else p.changingLane)
    ensures r == p.(targetLane := r.targetLane, targetSpeed := r.targetSpeed, changingLane := r.changingLane,
                    state := r.state, stateS := r.stateS)
  {
    var q := p.(targetSpeed := Min(p.targetSpeed, p.refV + Accel));
    var done := if ChangeCompleted(p, meters) then CompleteLaneChange(q) else q;
    if infos[p.targetLane].frontGap < EmergencyFrontBuffer then
      var kept := if done.state == PrepareLaneChange then SetState(done, KeepLane) else done;
      kept.(targetLane := p.refLane, changingLane := -1)
    else done
  }

  /** The step of the state the planner is in, before the speed is clamped. */
  function PlanState(p: Planner, infos: seq<LaneInfo>, best: int, meters: real, egoV: real): (r: Planner)
    requires |infos| == LaneCount && IsLane(p.targetLane) && IsLane(best)
    requires p.state != Start && (p.state != KeepLane ==> IsLane(p.refLane))
    requires p.state == PrepareLaneChange ==> IsLane(p.changingLane)
    ensures IsLane(r.targetLane) && r.state != Start
    ensures r.state == LaneChange && p.state != LaneChange ==>
      p.state == PrepareLaneChange && infos[r.targetLane].feasible && AbsInt(r.targetLane - p.refLane) == 1
    ensures p.state == KeepLane ==>
      r.targetSpeed == RoadSpeedLimit && r.targetLane == p.targetLane && (r.state == KeepLane || r.state == PrepareLaneChange)
    ensures p.state == KeepLane && r.state == PrepareLaneChange ==> r.changingLane == best && best != r.targetLane
    ensures p.state == LaneChange && infos[p.targetLane].frontGap < EmergencyFrontBuffer ==>
      r.targetLane == p.refLane && r.changingLane == -1
    ensures p.state == LaneChange ==> r.targetSpeed <= p.refV + Accel
    ensures r.state == p.state ==> r.stateS == p.stateS
    ensures r.state != p.state ==> r.stateS == p.refS
    ensures r == p.(targetLane := r.targetLane, targetSpeed := r.targetSpeed, changingLane := r.changingLane,
                    state := r.state, stateS := r.stateS)
  {
    if p.state == KeepLane then PlanKeepLane(p, infos, best, meters, egoV)
    else if p.state == PrepareLaneChange then PlanPrepare(p, infos, best, meters)
    else PlanLaneChange(p, infos, meters)
  }

  /** The planned speed clamped to [0, limit]; nothing else changes. */
  function ClampSpeed(p: Planner): (r: Planner)
    ensures 0.0 <= r.targetSpeed <= RoadSpeedLimit
    ensures 0.0 <= p.targetSpeed <= RoadSpeedLimit ==> r == p
    ensures p.targetSpeed > RoadSpeedLimit ==> r.targetSpeed == RoadSpeedLimit
    ensures p.targetSpeed < 0.0 ==> r.targetSpeed == 0.0
    ensures r == p.(targetSpeed := r.targetSpeed)
  {
    p.(targetSpeed := Max(0.0, Min(RoadSpeedLimit, p.targetSpeed)))
  }

  /** Each state's step keeps a pending change valid; a preparation it
      continues or starts from changing lanes is toward another lane. */
  lemma PlanStateKeepsPendingChange(p: Planner, infos: seq<LaneInfo>, best: int, meters: real, egoV: real)
    requires |infos| == LaneCount && IsLane(p.targetLane) && IsLane(best)
    requires p.state != Start && (p.state != KeepLane ==> IsLane(p.refLane))
    requires p.state == PrepareLaneChange ==> IsLane(p.changingLane)
    ensures PendingChangeValid(p) ==> PendingChangeValid(PlanState(p, infos, best, meters, egoV))
    ensures PlanState(p, infos, best, meters, egoV).state == PrepareLaneChange && p.state != KeepLane ==>
      PlanState(p, infos, best, meters, egoV).changingLane != p.refLane
  {}

  /** The first cycle: adopt the current lane, then take the keep-lane step. */
  function PlanFirst(p: Planner, infos: seq<LaneInfo>, egoV: real): (r: Planner)
    requires |infos| == LaneCount && IsLane(p.refLane) && p.state == Start
    ensures r.targetLane == p.refLane && r.targetSpeed == RoadSpeedLimit
    ensures r.state == KeepLane ==> r.changingLane == -1 && r.stateS == p.startS
    ensures r.state == PrepareLaneChange ==>
      IsLane(r.changingLane) && r.changingLane != p.refLane && r.stateS == p.refS
    ensures r.state == KeepLane || r.state == PrepareLaneChange
    ensures r == p.(targetLane := r.targetLane, targetSpeed := r.targetSpeed, changingLane := r.changingLane,
                    state := r.state, stateS := r.stateS)
  {
    var q := PlanStart(p);
    PlanKeepLane(q, infos, BestLane(infos, q.targetLane, q.refLane), MetersInState(q.refS - q.stateS), egoV)
  }

  /** The start step followed by the state's step, with the lane `BestLane`
      ranks first and the distance driven in the state; the speed is not yet
      clamped. `egoV` is the car's measured speed. */
  function PlanStep(p: Planner, infos: seq<LaneInfo>, egoV: real): (r: Planner)
    requires |infos| == LaneCount && (p.state != KeepLane ==> IsLane(p.refLane))
    requires p.state != Start ==> IsLane(p.targetLane)
    requires p.state == PrepareLaneChange ==> IsLane(p.changingLane)
    ensures IsLane(r.targetLane) && r.state != Start
    ensures r.state == LaneChange && p.state != LaneChange ==>
      p.state == PrepareLaneChange && infos[r.targetLane].feasible && AbsInt(r.targetLane - p.refLane) == 1
    ensures p.state == Start ==> r.targetLane == p.refLane
    ensures p.state == Start || p.state == KeepLane ==>
      r.targetSpeed == RoadSpeedLimit && (r.state == KeepLane || r.state == PrepareLaneChange)
    ensures (p.state == Start || p.state == KeepLane) && r.state == PrepareLaneChange ==>
      IsLane(r.changingLane) && r.changingLane != r.targetLane
    ensures p.state == KeepLane ==> r.targetLane == p.targetLane
    ensures p.state == LaneChange && infos[p.targetLane].frontGap < EmergencyFrontBuffer ==>
      r.targetLane == p.refLane && r.changingLane == -1
    ensures p.state == LaneChange ==> r.targetSpeed <= p.refV + Accel
    ensures p.state != Start && r.state == p.state ==> r.stateS == p.stateS
    ensures p.state != Start && r.state != p.state ==> r.stateS == p.refS
    ensures r == p.(targetLane := r.targetLane, targetSpeed := r.targetSpeed, changingLane := r.changingLane,
                    state := r.state, stateS := r.stateS)
  {
    if p.state == Start then PlanFirst(p, infos, egoV)
    else PlanState(p, infos, BestLane(infos, p.targetLane, p.refLane), MetersInState(p.refS - p.stateS), egoV)
  }

  /** One behaviour-planning step (the code's `create_plan`): the state's step,
      then the speed clamped to [0, limit]. */
  function CreatePlan(p: Planner, infos: seq<LaneInfo>, egoV: real): (r: Planner)
    requires |infos| == LaneCount && (p.state != KeepLane ==> IsLane(p.refLane))
    requires p.state != Start ==> IsLane(p.targetLane)
    requires p.state == PrepareLaneChange ==> IsLane(p.changingLane)
    ensures 0.0 <= r.targetSpeed <= RoadSpeedLimit
    ensures IsLane(r.targetLane)
    ensures r.state != Start
    ensures r.state == LaneChange && p.state != LaneChange ==>
      p.state == PrepareLaneChange && infos[r.targetLane].feasible && AbsInt(r.targetLane - p.refLane) == 1
    ensures p.state == Start ==> r.targetLane == p.refLane
    ensures p.state == Start || p.state == KeepLane ==>
      r.targetSpeed == RoadSpeedLimit && (r.state == KeepLane || r.state == PrepareLaneChange)
    ensures (p.state == Start || p.state == KeepLane) && r.state == PrepareLaneChange ==>
      IsLane(r.changingLane) && r.changingLane != r.targetLane
    ensures p.state == KeepLane ==> r.targetLane == p.targetLane
    ensures p.state == LaneChange && infos[p.targetLane].frontGap < EmergencyFrontBuffer ==>
      r.targetLane == p.refLane && r.changingLane == -1
    ensures p.state == LaneChange ==> r.targetSpeed <= Max(0.0, p.refV + Accel)
    ensures p.state != Start && r.state == p.state ==> r.stateS == p.stateS
    ensures p.state != Start && r.state != p.state ==> r.stateS == p.refS
    ensures r == p.(targetLane := r.targetLane, targetSpeed := r.targetSpeed, changingLane := r.changingLane,
                    state := r.state, stateS := r.stateS)
  {
    ClampSpeed(PlanStep(p, infos, egoV))
  }

  /** A planning step keeps a pending change valid, and a preparation it
      starts or continues (other than from keeping the lane, whose target
      lane need not be the reference lane) is toward another lane than the
      reference lane. */
  lemma CreatePlanKeepsPendingChange(p: Planner, infos: seq<LaneInfo>, egoV: real)
    requires |infos| == LaneCount && (p.state != KeepLane ==> IsLane(p.refLane))
    requires p.state != Start ==> IsLane(p.targetLane)
    requires p.state == PrepareLaneChange ==> IsLane(p.changingLane)
    ensures PendingChangeValid(p) ==> PendingChangeValid(CreatePlan(p, infos, egoV))
    ensures CreatePlan(p, infos, egoV).state == PrepareLaneChange && p.state != KeepLane ==>
      CreatePlan(p, infos, egoV).changingLane != p.refLane
  {
    if p.state != Start {
      PlanStateKeepsPendingChange(p, infos, BestLane(infos, p.targetLane, p.refLane),
                                  MetersInState(p.refS - p.stateS), egoV);
    }
  }

  /** A free lane ahead is kept: without a close car ahead, keeping the lane
      never prepares a change. */
  lemma FreeLaneIsKept(p: Planner, infos: seq<LaneInfo>, egoV: real)
    requires |infos| == LaneCount && IsLane(p.targetLane) && p.state == KeepLane
    requires infos[p.targetLane].frontGap >= FrontBuffer
    ensures CreatePlan(p, infos, egoV).state == KeepLane
    ensures CreatePlan(p, infos, egoV).targetLane == p.targetLane
    ensures CreatePlan(p, infos, egoV).changingLane == -1
  {}
}
