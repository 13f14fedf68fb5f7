# Highway path planner — a Dafny model

This project models the core of a highway path planner for a simulated car on a
closed three-lane track (the Udacity "CarND Path Planning" project). It covers
the following pieces:

- **Lanes** (`src/lane.h`). Maps the lateral Frenet offset `d` to lane indices
  and lane centres.
- **Road map** (`src/roadmap.h`). A table of waypoints closed into a loop by a
  final record at the track length. It provides the closest-waypoint and
  next-waypoint searches, the previous-waypoint index of the Cartesian→Frenet
  conversion, and the segment search of the Frenet→Cartesian conversion.
- **Per-cycle planner** (`src/planner.h`). Each cycle runs these stages in
  order:
  - choose the reference point;
  - track laps;
  - fold sensor-fusion observations into one record per lane;
  - rank the lanes;
  - run the behaviour state machine (`Start`, `KeepLane`,
    `PrepareLaneChange`, `LaneChange`);
  - avoid collisions;
  - rate-limit the speed;
  - size the outgoing trajectory.
- **Helpers** (`utils.h`). Unit conversions and the vector helpers.
- **Socket.IO payload extraction** (`main.cpp`).

The planner is a mutable object in the code. Here it is an immutable record,
`Planner.Planner`, and every stage is a function from record to record.
`Cycle.Run` chains the stages in the order of the code's `run`. Numbers are
mathematical reals. Unsigned 64-bit arithmetic is written out where it matters:
`Utils.AsUnsigned64` is the wrap by 2^64.

The modules follow the program's structure:

| file | module | models |
|---|---|---|
| utils.dfy | `Utils` | conversions, `dot`, squared norm and distance, `size_t` wrap |
| lane.dfy | `Lanes` | `Lane` |
| roadmap.dfy | `RoadMap` | `RoadMap` |
| traffic.dfy | `Traffic` | `lane_info_t`, `process_sensor_fusion` |
| ranking.dfy | `Ranking` | `get_best_lane` |
| planner.dfy | `Planner` | planner record, `reset`, `set_state`, the distance in state, `get_reference` |
| behavior.dfy | `Behavior` | `create_plan` |
| speed.dfy | `Speed` | `collision_avoidance`, `speed_control` |
| laps.dfy | `Laps` | `track_lap` |
| trajectory.dfy | `Trajectory` | size bookkeeping of `create_trajectory` |
| socketio.dfy | `SocketIo` | `hasData` |
| cycle.dfy | `Cycle` | `run` |

Where the code has a defect, it is modelled twice:

- an *as-written* member, with a lemma that exhibits the defect;
- a corrected member, with the intended property proved.

The rest of the model uses the corrected member. The defects are listed under
"Findings".

## Model

| member | source | states |
|---|---|---|
| Utils.AsUnsigned64 | src/roadmap.h:139 | a signed result brought into `size_t` lies in [0, 2^64) and differs from the input by a multiple of 2^64 (0, +2^64 or -2^64) |
| Utils.NormSq | utils.h:41-45 | the squared norm is never negative and is 0 for the zero vector |
| Utils.DegRadRoundTrip | utils.h:18-20 | degrees→radians and radians→degrees are inverse to each other |
| Utils.SpeedRoundTrip | utils.h:23-25 | mph→m/s and m/s→mph are inverse to each other |
| Utils.DistanceRoundTrip | utils.h:31-33 | miles→metres and metres→miles are inverse to each other |
| Utils.Mph2MpsMonotone | utils.h:23-24 | the speed conversion preserves order, and 50 mph is 22.352 m/s |
| Utils.DotSymmetricBilinear | utils.h:36-39 | the dot product is symmetric and linear in its first vector |
| Utils.DistanceProperties | utils.h:47-51 | distance is symmetric, non-negative and zero between equal points |
| Lanes.SafeLaneCenter | src/lane.h:49-57 | the safe centre of every lane is its centre: both edge biases are zero |
| Lanes.LaneAt | src/lane.h:60-71 | -1 exactly left of the road, -2 exactly right of it, otherwise a real lane whose edges enclose `d`; the right edge belongs to the next lane, except the road's right edge |
| Lanes.DistanceToLane | src/lane.h:74-77 | zero exactly at the lane centre, positive exactly when `d` is left of it |
| Lanes.RoadWidthIsLanes | src/lane.h:20-26 | the road is three 4 m lanes, 12 m wide |
| Lanes.LaneCentersIncrease | src/lane.h:43-46 | adjacent lane centres are one lane width apart, so the centres strictly increase |
| Lanes.LaneAtCenter | src/lane.h:43-71 | the centre of lane `i` lies in lane `i` |
| Lanes.LaneAtIdempotent | src/lane.h:43-71 | lane of offset → centre of that lane → lane gives back the same lane |
| Lanes.LaneAtRoadEdgeAsWritten | src/lane.h:66-70 | as written, the right road edge maps to lane 3, which does not exist |
| Lanes.LaneAtDiffersOnlyAtEdge | src/lane.h:60-71 | the corrected lookup differs from the written one only on the right road edge |
| RoadMap.Load | src/roadmap.h:61-96 | the table is the records read plus a copy of the first record at station `max_s`; an empty input has no table |
| RoadMap.LoadSorted | src/roadmap.h:90-95 | sorted records with stations at most `max_s` give a sorted, closed loop |
| RoadMap.ClosestWaypoint | src/roadmap.h:100-115 | the result is the first record of least distance to (x, y); 0 on an empty table |
| RoadMap.ClosestUnique | src/roadmap.h:100-115 | there is only one first closest record |
| RoadMap.NextIndex | src/roadmap.h:129 | the following index, wrapping to 0 at the end of the table |
| RoadMap.PrevIndex | src/roadmap.h:139 | the preceding index on the loop: the index whose successor is the given one |
| RoadMap.NextWaypoint | src/roadmap.h:118-133 | the closest record, or the record after it when the car heads away from it |
| RoadMap.FrenetPrevAsWritten | src/roadmap.h:139 | the unsigned previous index stays inside the table |
| RoadMap.FrenetPrevAsWrittenAwayFromZero | src/roadmap.h:139 | away from index 0 the written previous index is the intended one |
| RoadMap.FrenetPrevAsWrittenAtZero | src/roadmap.h:139 | at index 0 of a three-record table the written index is 0 and the intended one is 2 |
| RoadMap.FrenetPrevDistinct | src/roadmap.h:139-142 | the intended previous record is never the next record itself |
| RoadMap.SearchAsWritten | src/roadmap.h:178-183 | the written search either finds a segment holding `s` or reads at index -1 or past the end, and it is exact about which |
| RoadMap.SearchAsWrittenCases | src/roadmap.h:178-183 | on a sorted table it finds a segment exactly for stations between the first and the last record |
| RoadMap.WrapS | src/roadmap.h:41 | a station wrapped onto one lap lies in [0, max_s) and is unchanged when already there |
| RoadMap.WrapSPeriodic | src/roadmap.h:41 | wrapping ignores whole laps |
| RoadMap.SearchFrom | src/roadmap.h:178-183 | with the bound checked first, the search stays in the table and stops at the last record not after `s` |
| RoadMap.SegmentFor | src/roadmap.h:178-185 | the segment is a record and its successor on the loop |
| RoadMap.SegmentForContains | src/roadmap.h:178-190 | on a sorted closed table the segment holds the wrapped station and its offset is within the segment's length |
| RoadMap.SegmentForPeriodic | src/roadmap.h:178-185 | the segment lookup is the same one lap further on |
| Traffic.Absorb | src/planner.h:340-390 | after folding in a car, the lane's feasibility flag is exactly the four-gap test |
| Traffic.EmptySummary | src/planner.h:56-69 | the default lane record summarises a lane with no cars |
| Traffic.SummaryOtherLane | src/planner.h:340-344 | a car of another lane leaves a lane's summary valid |
| Traffic.SummaryAbsorb | src/planner.h:346-390 | folding in a car of the lane keeps the summary valid |
| Traffic.SummaryAbsorbAhead | src/planner.h:350-373 | a car ahead takes over the front fields exactly when strictly nearer than the recorded one, and otherwise leaves the record unchanged, so the first of equally near cars stays recorded |
| Traffic.SummaryAbsorbNearerAhead | src/planner.h:364-371 | a car ahead strictly nearer than the recorded one becomes the recorded front car |
| Traffic.SummaryAbsorbFartherAhead | src/planner.h:364-373 | a car ahead no nearer than the recorded one leaves the record unchanged and the summary valid |
| Traffic.SummaryKept | src/planner.h:364-381 | a car of the lane no nearer than the recorded cars on its side keeps the record a valid summary |
| Traffic.SummaryAbsorbBehind | src/planner.h:374-387 | folding in a car behind keeps the summary valid |
| Traffic.SummaryAbsorbNearerBehind | src/planner.h:374-381 | a car behind within 50 m and strictly nearer than the recorded one takes over the back fields |
| Traffic.SummaryAbsorbFartherBehind | src/planner.h:374-387 | a car behind beyond 50 m, or not strictly nearer than the recorded one, keeps the summary valid without taking over the back fields |
| Traffic.SummariesStep | src/planner.h:340-390 | one observed car updates at most its own lane's record and keeps every lane's summary valid |
| Traffic.ProcessSensorFusion | src/planner.h:328-403 | one record per lane: the first of the nearest cars ahead if one is under 1000 m, the first of the nearest cars behind within 50 m, gaps now and after the planned points, and feasibility as the gap test |
| Traffic.ClearMeansNoCarAhead | src/planner.h:56-69 | a lane with a car ahead closer than 1000 m is not clear; a lane without cars is clear; a lane whose cars ahead are all 1000 m or more away records no front car |
| Traffic.SummaryUnique | src/planner.h:328-403 | the summary determines the record: two records summarising the same cars for a lane are equal |
| Ranking.LaneAllowance | src/planner.h:198-205 | unbounded exactly when the gap ahead reaches the horizon; else the speed behind when a car is closer than 10 m behind, otherwise the speed ahead |
| Ranking.ComparatorAsWrittenReflexive | src/planner.h:183-211 | the written comparator puts every lane before itself; the strict one does not |
| Ranking.RanksBeforeAsymmetric | src/planner.h:178-211 | the strict ranking never puts two lanes before each other |
| Ranking.StrictThenWritten | src/planner.h:178-211 | without near ties, ranking strictly before a lane that ranks before a third means ranking strictly before the third |
| Ranking.Scan | src/planner.h:178-214 | the front lane after libstdc++'s sort: a clear lane when there is one, the nearest clear lane to the reference lane (the later one on a tie), an unbounded lane when none is clear, and no later lane that the comparator puts before it |
| Ranking.ScanIsBest | src/planner.h:178-214 | without near ties among the lanes that are not clear, no lane ranks strictly before the front lane |
| Ranking.TieGoesToLaterLane | src/planner.h:178-214 | with the reference lane blocked and both neighbours clear, the right-hand neighbour is chosen |
| Ranking.FrontDependsOnSort | src/planner.h:178-214 | gaps 40, 30 and 5 m with allowances 10.0, 10.4 and 10.8 m/s rank lane 0 before 1 and 1 before 2, yet 2 before 0, and the scan chooses lane 2 |
| Ranking.RankingCycle | src/planner.h:198-211 | allowances 10.8, 10.4 and 10.0 m/s with gaps 5, 30 and 40 m rank in a cycle, and lane 2 is chosen over the faster lane 0 |
| Ranking.BestLane | src/planner.h:169-216 | the target lane while it is clear; otherwise the front lane of the sort, with the same guarantees as the scan, and a best lane when there are no near ties |
| Planner.Initial | src/planner.h:106-108 | after a reset the planner starts in the start state dated 0, with no laps, no warning, target lane 1, target speed 0 and no pending change |
| Planner.RoadSpeedLimitValue | src/planner.h:412 | the working speed limit is 22.152 m/s |
| Planner.SetState | src/planner.h:160-167 | the state becomes the new one; the state's start station moves to the reference station only on a real change; nothing else changes |
| Planner.SetStateIdempotent | src/planner.h:160-167 | setting a state twice is setting it once |
| Planner.MetersInState | src/planner.h:432-434 | laps are added until the distance is non-negative: never negative, unchanged if already non-negative, less than a lap otherwise |
| Planner.MetersInStateIgnoresLap | src/planner.h:432-434 | a start station one lap further on gives the same distance in state while that distance is under a lap |
| Planner.Reference | src/planner.h:246-284 | the car's own values with fewer than two planned points, otherwise the end of the previous path; the reference lane is the lane of the reference offset |
| Behavior.StepToward | src/planner.h:475 | the lane one step from the reference lane, closer to `changing_lane` when that differs; one lane to the left when it does not |
| Behavior.StepTowardOwnLaneLeavesRoad | src/planner.h:468-478 | preparing toward the lane the car is in, from lane 0, aims at lane -1 |
| Behavior.PlanStart | src/planner.h:415-421 | the first cycle keeps the current lane and dates the state from the starting station |
| Behavior.PlanKeepLane | src/planner.h:437-463 | aims at the speed limit; prepares a change to the best lane exactly when blocked by a slower close car and the best lane's leader is faster; otherwise no change is pending |
| Behavior.KeepLaneDecisionAsWritten | src/planner.h:449-455 | the written decision reads outside the lane table exactly when the lane is blocked and the truncated target speed is not a lane |
| Behavior.KeepLaneAsWrittenReadsOutside | src/planner.h:445-455 | at the speed limit the written code reads lane 22 of three whenever the lane is blocked |
| Behavior.PlanPrepare | src/planner.h:466-500 | once in the lane being prepared for, keeps it; otherwise starts the change to the adjacent lane exactly when it is feasible after 5 m, cancels exactly when the best lane moved, and else waits: behind a close car in the current lane, or aiming at the adjacent lane that is not yet accepted |
| Behavior.WaitingReachesChangingLane | src/planner.h:475-500 | waiting aims the car at the adjacent lane, where the written step would next leave the road; the corrected step keeps the lane |
| Behavior.CompleteLaneChange | src/planner.h:515-526 | after a change, prepare the next one exactly when the ultimate lane is not reached, otherwise keep the lane |
| Behavior.CompletionAsWrittenAlwaysKeepsLane | src/planner.h:515-526 | as written, completion always ends in keeping the lane, dropping the pending change the intended step keeps |
| Behavior.PlanLaneChange | src/planner.h:503-539 | speeds up at most one step; completes only when centred in the target lane after 50 m; aborts to the current lane, dropping the pending change and never left preparing, when the target lane's leader is closer than 5 m |
| Behavior.PlanState | src/planner.h:429-541 | the step of the current state keeps the target in a lane and enters a lane change only from preparing it, into a feasible adjacent lane |
| Behavior.PlanStateKeepsPendingChange | src/planner.h:429-541 | each state's step keeps `changing_lane` -1 or a lane, a lane while preparing, and not the reference lane after preparing or changing |
| Behavior.PlanFirst | src/planner.h:414-463 | the first cycle aims at the current lane at the speed limit and either keeps it or prepares a change to another lane |
| Behavior.PlanStep | src/planner.h:414-541 | the state's step keeps the target in a lane, enters a lane change only from preparing it, and dates the state from the reference station exactly when the state changes |
| Behavior.ClampSpeed | src/planner.h:543 | the speed is clamped into [0, limit] and unchanged when already there |
| Behavior.CreatePlan | src/planner.h:407-544 | the target speed lies in [0, limit]; the target is a lane; a lane change starts only from preparing it, into a feasible adjacent lane; the abort and the state start stations behave as the states promise |
| Behavior.CreatePlanKeepsPendingChange | src/planner.h:407-544 | a planning step keeps `changing_lane` -1 or a lane, and a lane while preparing |
| Behavior.FreeLaneIsKept | src/planner.h:437-463 | a lane with no close car ahead is kept, with no change pending |
| Speed.CollisionAvoidance | src/planner.h:548-567 | with a close leader the speed becomes the lesser of the planned speed and the leader's (0.2 m/s under it below 5 m), never below 0; the warning is raised below 5 m and cleared from 5 to 10 m; otherwise nothing changes |
| Speed.CollisionAvoidanceIdempotent | src/planner.h:548-567 | applying collision avoidance twice changes nothing more |
| Speed.SpeedControl | src/planner.h:570-588 | the new target is non-negative, at most one acceleration step above and one (or one emergency) step below the reference speed, between the reference and the planned speed, and exactly one step toward the planned speed when that is further away |
| Speed.ApproachReachesTarget | src/planner.h:570-588 | repeated control reaches any fixed target after as many cycles as steps separate it from the start |
| Laps.TrackLap | src/planner.h:288-324 | a lap is counted exactly when the car, after falling behind its starting station, passes it; the start is captured on the first cycle only |
| Laps.StartCapturedOnce | src/planner.h:291-304 | after the first cycle the starting station never changes, laps or not |
| Laps.NoLapWithoutWrap | src/planner.h:296-306 | a car that never falls behind its starting station completes no lap |
| Laps.OneLapAfterWrap | src/planner.h:288-324 | start at 100, wrap to 50, pass 100 again: exactly one lap |
| Trajectory.AnchorStations | src/planner.h:612-616 | three anchor stations 30 m apart, starting 30 m ahead |
| Trajectory.AnchorPastTableEnd | src/roadmap.h:178-183 | every anchor station beyond `max_s` makes the written search read past the table |
| Trajectory.ExtendAsWritten | src/planner.h:632-654 | as written, the previous path is kept and only `(50 - kept + 1) / 2` points are appended, sampled one step apart |
| Trajectory.ExtendAsWrittenFallsShort | src/planner.h:644 | as written, the path has 50 points only if at most one point is missing; from an empty previous path it has 25 |
| Trajectory.Extend | src/planner.h:632-654 | the previous path is kept and filled up to exactly 50 points sampled one step apart |
| SocketIo.FindFrom | main.cpp:54 | the first occurrence of a pattern not before a position, or none exactly when it does not occur |
| SocketIo.FindChar | main.cpp:55-56 | the first index of a character, or none exactly when it does not occur |
| SocketIo.Substr | main.cpp:60 | the `count` characters from `pos` when they exist, otherwise the rest of the string |
| SocketIo.HasData | main.cpp:53-63 | empty for a `null` event or a missing bracket; otherwise the slice from the first `[` to one past the first `}`, or to the end when the unsigned length wraps |
| SocketIo.HasDataExtracts | main.cpp:53-63 | an event `prefix[body}]suffix` yields exactly `[body}]` |
| Cycle.Decide | src/planner.h:230-238 | plan, collision avoidance and speed control keep the reference lane and lap count, put the target in a lane, bound the speed, and keep a valid pending change |
| Cycle.Step | src/planner.h:219-238 | the planner half of a cycle: the reference lane from the reference offset, at most one new lap, a target in a lane, a rate-limited speed |
| Cycle.Run | src/planner.h:220-243 | one cycle yields a 50-point path extending the previous one, whose new points are spaced by `t` times the speed-controlled target speed (lines 640-647), a target in a lane, a non-negative rate-limited speed, at most one new lap, a lane change that only starts from preparing it, and a valid pending change |

## Left out

- Trigonometry and square roots are not modelled:
  - the car's speed `norm(vx, vy)` is an input (`Car.speed`);
  - the reference speed over the last path step is an input (`pathSpeed`);
  - the heading test of `next_waypoint` is a boolean input;
  - the projection arithmetic of `to_frenet` and the x/y output of `to_xy` are not modelled;
  - distances are carried as squares, which order points the same way.
- NormSq: states only that the zero vector has norm 0, not the converse. The
  converse needs `x*x == 0 ==> x == 0` on reals, which the model does not
  state.
- The cubic spline, and the rotations into and out of the car's frame, are not
  modelled. The new trajectory points are a caller-supplied curve sampled at
  equal steps of `t` times the target speed. `t` (30 m over the chord length
  to the horizon point, times `dt`) depends on the spline, so `Cycle.Run`
  takes it as a parameter.
- Parsing the map file is not modelled: `Load` receives the parsed records. On
  an empty file the code reads the first element of an empty vector, which is
  undefined behaviour; it is modelled as `None`.
- Not modelled, because they are transport or logging:
  - JSON parsing;
  - the websocket server and the `42` event dispatch in `main`;
  - every console message.
- Planner.Initial is a newly built planner after `reset`: `reset` does not
  touch `changing_lane`, whose -1 comes from its initialiser (line 106).
- `ref_points` is not modelled. The code only accumulates it and never reads
  it.
- `closet_waypoint` starts from `DBL_MAX`. That sentinel is modelled as "no
  candidate yet", so a waypoint at any finite distance beats it.
- The `INF` lane allowance is the `Unbounded` variant.
- The lane structure is used only with its default values (3 lanes of 4 m,
  50 mph), so these are constants.
- `lane.h` and `planner.h` at the repository root are identical to the copies
  in `src/`; those copies are the ones cited.
- `create_plan`'s `while (true)` always leaves after one pass, so it is a plain
  dispatch on the state.
- Behavior.CreatePlan requires the reference lane to be a lane except while
  keeping the lane. The code indexes the lane table with it when starting
  (through `target_lane`, line 423), while waiting to change lanes (line 492),
  and after an abort (which makes it the target that collision avoidance
  indexes, line 550). While preparing a change it also requires
  `changing_lane` to be a lane; `Behavior.CreatePlanKeepsPendingChange` shows
  that every step keeps this. Outside the table the behaviour is undefined.
- Cycle.Run requires, for the same reason, the reference offset to be on the
  road except while keeping the lane, and at most 50 previous points. With
  more than 50 points the code's unsigned loop bound wraps.
- Ranking.Scan: the comparator is not a strict weak ordering, which
  `std::sort` demands, so the C++ standard leaves the order unspecified. The
  model takes the front lane that the insertion sort of libstdc++ gives on
  three elements. libc++ sorts three elements with a compare-and-swap network
  and can put another lane in front when the comparator is intransitive: with
  the reference lane 1 and cars ahead at 40, 30 and 5 m driving 10.0, 10.4 and
  10.8 m/s in lanes 0, 1 and 2 (no car close behind), the scan chooses lane 2
  (`Ranking.FrontDependsOnSort`), while libc++ leaves lane 0 in front.
- Behavior.PlanLaneChange: an abort in the same cycle as a completion ends in
  keeping the lane, because the abort drops the pending change. The code ends
  that cycle in keeping the lane too, since its completion always does.
- SocketIo.HasData requires the event to be shorter than 2^64 - 1 characters.
  No `std::string` reaches that length.
- The sensor-fusion fold and the reference lane use the corrected `LaneAt`. As
  written, a car exactly on the right road edge would be filed under lane 3,
  outside the table.
- Lap and tick counters are unbounded naturals. They cannot reach 2^64 in
  practice.

## Findings

| source | as written | input that shows it | evidently intended | confidence | as-written member | corrected member |
|---|---|---|---|---|---|---|
| src/lane.h:66-70 | `floor(d / lane_width)` for every `d` up to the road width | `d = 12.0` gives lane 3 of lanes 0..2 | the right road edge belongs to lane 2 | not executed | Lanes.LaneAtRoadEdgeAsWritten | Lanes.LaneAt |
| src/roadmap.h:139 | `(next - 1) % waypoints.size()` in unsigned arithmetic | `next = 0` with 3 records gives 0, the next record itself | the last record, `size - 1` | not executed | RoadMap.FrenetPrevAsWrittenAtZero | RoadMap.PrevIndex |
| src/roadmap.h:180 | the record after `prev_wp` is read before the bound is checked, and `s` is not wrapped | an anchor station `ref_s + 90` beyond `max_s` reads one past the table | wrap `s` onto the loop and check the bound first | not executed | Trajectory.AnchorPastTableEnd | RoadMap.SegmentForContains |
| src/planner.h:475 | `ref_lane + (changing_lane > ref_lane ? 1 : -1)` even when the car is already in `changing_lane` | waiting while preparing lane 0 from lane 1 lets the car reach lane 0, and the next step aims at lane -1 | the preparation is over once the car is in `changing_lane` | not executed | Behavior.StepTowardOwnLaneLeavesRoad | Behavior.PlanPrepare |
| src/planner.h:455 | `lane_info[target_speed]` | a blocked lane at target speed 22.152 reads lane 22 of 3 | `lane_info[target_lane]` | not executed | Behavior.KeepLaneAsWrittenReadsOutside | Behavior.PlanKeepLane |
| src/planner.h:518-525 | the move to `PRELANECHANGE` is followed unconditionally by the move to `KEEPLANE` | `changing_lane = 2`, `ref_lane = 1` at completion ends in keep-lane | keep the lane only in the `else` case | not executed | Behavior.CompletionAsWrittenAlwaysKeepsLane | Behavior.CompleteLaneChange |
| src/planner.h:644 | the loop bound `n_path_points - path.x.size()` shrinks as points are appended | an empty previous path yields 25 points, not 50 | fill the path up to 50 points | not executed | Trajectory.ExtendAsWrittenFallsShort | Trajectory.Extend |
