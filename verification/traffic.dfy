/** The per-cycle traffic model: sensor-fusion observations folded into one
    record per lane holding the nearest car ahead, the nearest car behind
    within the look-back horizon, their gaps now and after the remaining
    planned path, and whether the lane is safe to enter. */
module Traffic {
  import opened Utils
  import opened Lanes

  /** How far back and ahead (m) a lane is examined. */
  const LaneHorizon: real := 50.0
  /** Minimum gap ahead (m) for a lane to be safe to enter. */
  const FrontBuffer: real := 10.0
  /** Maximum (negative) gap behind (m) for a lane to be safe to enter. */
  const BackBuffer: real := -10.0
  /** Gap ahead (m) below which a collision is imminent. */
  const EmergencyFrontBuffer: real := 5.0

  /** A sensor-fusion observation; `speed` stands for the norm of its velocity (vx, vy). */
  datatype Car = Car(id: int, s: real, d: real, speed: real)

  /** What one cycle knows about one lane. Gaps are signed: ahead positive, behind negative. */
  datatype LaneInfo = LaneInfo(
    frontCar: int, backCar: int,
    frontGap: real, frontSpeed: real, frontGapNext: real,
    backGap: real, backSpeed: real, backGapNext: real,
    feasible: bool)
  {
    /** Safe to enter and nobody ahead. */
    predicate IsClear() { feasible && frontCar < 0 }
  }

  /** A lane nobody occupies: no cars, gaps of +/-1000 m, safe to enter. */
  const EmptyLane: LaneInfo := LaneInfo(-1, -1, 1000.0, 1000.0, 1000.0, -1000.0, -1000.0, -1000.0, true)

  /** Both gaps ahead exceed the front buffer and both gaps behind are below the back buffer. */
  predicate FeasibleGaps(info: LaneInfo)
  {
    && info.frontGap > FrontBuffer && info.frontGapNext > FrontBuffer
    && info.backGap < BackBuffer && info.backGapNext < BackBuffer
  }

  /** Gap from the reference station to the car now. */
  function Gap(car: Car, refS: real): real { car.s - refS }

  /** Gap once the car has driven at constant speed for the `planned` points
      of the previous path still to be driven, `dt` seconds each. */
  function GapNext(car: Car, refS: real, planned: int, dt: real): real
  {
    car.s + car.speed * planned as real * dt - refS
  }

  predicate InLane(car: Car, l: int) { LaneAt(car.d) == l }

  predicate Ahead(car: Car, refS: real) { car.s > refS }

  /** A car behind the reference that is within the look-back horizon. */
  predicate BehindInHorizon(car: Car, refS: real)
  {
    !Ahead(car, refS) && Gap(car, refS) > -LaneHorizon
  }

  /** Folds one car that occupies the lane into the lane's record. */
  function Absorb(info: LaneInfo, car: Car, refS: real, planned: int, dt: real): (r: LaneInfo)
    ensures r.feasible == FeasibleGaps(r)
  {
    var gap := Gap(car, refS);
    var gapNext := GapNext(car, refS, planned, dt);
    var updated :=
      if Ahead(car, refS) then
        if gap < info.frontGap then
          info.(frontCar := car.id, frontGap := gap, frontSpeed := car.speed, frontGapNext := gapNext)
        else info
      else if gap > Max(info.backGap, -LaneHorizon) then
        info.(backCar := car.id, backGap := gap, backSpeed := car.speed, backGapNext := gapNext)
      else info;
    updated.(feasible := FeasibleGaps(updated))
  }

  ghost predicate FrontIsDefault(info: LaneInfo)
  {
    info.frontCar == -1 && info.frontGap == 1000.0 && info.frontSpeed == 1000.0 && info.frontGapNext == 1000.0
  }

  ghost predicate BackIsDefault(info: LaneInfo)
  {
    info.backCar == -1 && info.backGap == -1000.0 && info.backSpeed == -1000.0 && info.backGapNext == -1000.0
  }

  /** The record's front fields describe `car`. */
  ghost predicate FrontIs(info: LaneInfo, car: Car, refS: real, planned: int, dt: real)
  {
    && info.frontCar == car.id && info.frontGap == Gap(car, refS)
    && info.frontSpeed == car.speed && info.frontGapNext == GapNext(car, refS, planned, dt)
  }

  /** The record's back fields describe `car`. */
  ghost predicate BackIs(info: LaneInfo, car: Car, refS: real, planned: int, dt: real)
  {
    && info.backCar == car.id && info.backGap == Gap(car, refS)
    && info.backSpeed == car.speed && info.backGapNext == GapNext(car, refS, planned, dt)
  }

  /** Car `j` is the first of the nearest cars of lane `l` ahead, and nearer
      than 1000 m: every earlier car of the lane ahead is strictly farther. */
  ghost predicate FirstNearestAhead(cars: seq<Car>, j: int, l: int, refS: real)
  {
    && 0 <= j < |cars| && InLane(cars[j], l) && Ahead(cars[j], refS) && Gap(cars[j], refS) < 1000.0
    && forall i :: 0 <= i < j && InLane(cars[i], l) && Ahead(cars[i], refS) ==> Gap(cars[j], refS) < Gap(cars[i], refS)
  }

  /** Car `j` is the first of the nearest cars of lane `l` behind within the
      horizon: every earlier such car is strictly farther behind. */
  ghost predicate FirstNearestBehind(cars: seq<Car>, j: int, l: int, refS: real)
  {
    && 0 <= j < |cars| && InLane(cars[j], l) && BehindInHorizon(cars[j], refS)
    && forall i :: 0 <= i < j && InLane(cars[i], l) && BehindInHorizon(cars[i], refS) ==> Gap(cars[i], refS) < Gap(cars[j], refS)
  }

  /** `info` is what lane `l` should record about `cars`:
      - the front fields describe the first of the nearest cars ahead, unless none is nearer than 1000 m;
      - the back fields describe the first of the nearest cars behind within the horizon, if any;
      - `feasible` is exactly the gap test;
      - a lane no car occupies is the empty record. */
  ghost predicate LaneSummary(info: LaneInfo, cars: seq<Car>, l: int, refS: real, planned: int, dt: real)
  {
    && info.feasible == FeasibleGaps(info)
    && info.frontGap <= 1000.0
    && (forall j :: 0 <= j < |cars| && InLane(cars[j], l) && Ahead(cars[j], refS) ==>
          info.frontGap <= Gap(cars[j], refS))
    && (FrontIsDefault(info) ||
        exists j :: FirstNearestAhead(cars, j, l, refS) && FrontIs(info, cars[j], refS, planned, dt))
    && (forall j :: 0 <= j < |cars| && InLane(cars[j], l) && BehindInHorizon(cars[j], refS) ==>
          Gap(cars[j], refS) <= info.backGap)
    && (BackIsDefault(info) ||
        exists j :: FirstNearestBehind(cars, j, l, refS) && BackIs(info, cars[j], refS, planned, dt))
    && ((forall j :: 0 <= j < |cars| ==> !InLane(cars[j], l)) ==> info == EmptyLane)
  }

  lemma EmptySummary(l: int, refS: real, planned: int, dt: real)
    ensures LaneSummary(EmptyLane, [], l, refS, planned, dt)
  {}

  /** A car in another lane leaves a lane's summary valid. */
  lemma SummaryOtherLane(info: LaneInfo, cars: seq<Car>, car: Car, l: int, refS: real, planned: int, dt: real)
    requires LaneSummary(info, cars, l, refS, planned, dt)
    requires !InLane(car, l)
    ensures LaneSummary(info, cars + [car], l, refS, planned, dt)
  {
    var cs := cars + [car];
    assert forall j :: 0 <= j < |cars| ==> cs[j] == cars[j];
    if !FrontIsDefault(info) {
      var j :| FirstNearestAhead(cars, j, l, refS) && FrontIs(info, cars[j], refS, planned, dt);
      assert FirstNearestAhead(cs, j, l, refS);
    }
    if !BackIsDefault(info) {
      var j :| FirstNearestBehind(cars, j, l, refS) && BackIs(info, cars[j], refS, planned, dt);
      assert FirstNearestBehind(cs, j, l, refS);
    }
  }

  /** Absorbing a car of lane `l` keeps the lane's summary valid. */
  lemma SummaryAbsorb(info: LaneInfo, cars: seq<Car>, car: Car, l: int, refS: real, planned: int, dt: real)
    requires InLane(car, l)
    requires LaneSummary(info, cars, l, refS, planned, dt)
    ensures LaneSummary(Absorb(info, car, refS, planned, dt), cars + [car], l, refS, planned, dt)
  {
    if Ahead(car, refS) {
      SummaryAbsorbAhead(info, cars, car, l, refS, planned, dt);
    } else {
      SummaryAbsorbBehind(info, cars, car, l, refS, planned, dt);
    }
  }

  /** A car ahead takes over the front fields exactly when it is strictly
      nearer than the recorded one, so the first of the nearest cars stays
      recorded. */
  lemma SummaryAbsorbAhead(info: LaneInfo, cars: seq<Car>, car: Car, l: int, refS: real, planned: int, dt: real)
    requires LaneSummary(info, cars, l, refS, planned, dt)
    requires InLane(car, l) && Ahead(car, refS)
    ensures LaneSummary(Absorb(info, car, refS, planned, dt), cars + [car], l, refS, planned, dt)
    ensures Gap(car, refS) < info.frontGap ==> FrontIs(Absorb(info, car, refS, planned, dt), car, refS, planned, dt)
    ensures Gap(car, refS) >= info.frontGap ==> Absorb(info, car, refS, planned, dt) == info
  {
    if Gap(car, refS) < info.frontGap {
      SummaryAbsorbNearerAhead(info, cars, car, l, refS, planned, dt);
    } else {
      SummaryAbsorbFartherAhead(info, cars, car, l, refS, planned, dt);
    }
  }

  /** A car ahead strictly nearer than the recorded one takes over the front fields. */
  lemma {:induction false} SummaryAbsorbNearerAhead(info: LaneInfo, cars: seq<Car>, car: Car, l: int, refS: real, planned: int, dt: real)
    requires LaneSummary(info, cars, l, refS, planned, dt)
    requires InLane(car, l) && Ahead(car, refS) && Gap(car, refS) < info.frontGap
    ensures LaneSummary(Absorb(info, car, refS, planned, dt), cars + [car], l, refS, planned, dt)
    ensures FrontIs(Absorb(info, car, refS, planned, dt), car, refS, planned, dt)
  {
    var cs := cars + [car];
    var r := Absorb(info, car, refS, planned, dt);
    var n := |cars|;
    assert cs[n] == car;
    assert forall j :: 0 <= j < n ==> cs[j] == cars[j];
    assert r.backCar == info.backCar && r.backGap == info.backGap;
    assert FrontIs(r, cs[n], refS, planned, dt);
    assert FirstNearestAhead(cs, n, l, refS);
    if !BackIsDefault(info) {
      var j :| FirstNearestBehind(cars, j, l, refS) && BackIs(info, cars[j], refS, planned, dt);
      assert FirstNearestBehind(cs, j, l, refS) && BackIs(r, cs[j], refS, planned, dt);
    }
  }

  /** A car of the lane that is no nearer than the recorded ones leaves the
      record a valid summary. */
  lemma {:induction false} SummaryKept(info: LaneInfo, cars: seq<Car>, car: Car, l: int, refS: real, planned: int, dt: real)
    requires LaneSummary(info, cars, l, refS, planned, dt)
    requires InLane(car, l)
    requires Ahead(car, refS) ==> info.frontGap <= Gap(car, refS)
    requires BehindInHorizon(car, refS) ==> Gap(car, refS) <= info.backGap
    ensures LaneSummary(info, cars + [car], l, refS, planned, dt)
  {
    var cs := cars + [car];
    var n := |cars|;
    assert cs[n] == car;
    assert forall j :: 0 <= j < n ==> cs[j] == cars[j];
    if !FrontIsDefault(info) {
      var j :| FirstNearestAhead(cars, j, l, refS) && FrontIs(info, cars[j], refS, planned, dt);
      assert FirstNearestAhead(cs, j, l, refS);
    }
    if !BackIsDefault(info) {
      var j :| FirstNearestBehind(cars, j, l, refS) && BackIs(info, cars[j], refS, planned, dt);
      assert FirstNearestBehind(cs, j, l, refS);
    }
  }

  /** A car ahead no nearer than the recorded one changes nothing. */
  lemma SummaryAbsorbFartherAhead(info: LaneInfo, cars: seq<Car>, car: Car, l: int, refS: real, planned: int, dt: real)
    requires LaneSummary(info, cars, l, refS, planned, dt)
    requires InLane(car, l) && Ahead(car, refS) && Gap(car, refS) >= info.frontGap
    ensures LaneSummary(Absorb(info, car, refS, planned, dt), cars + [car], l, refS, planned, dt)
    ensures Absorb(info, car, refS, planned, dt) == info
  {
    SummaryKept(info, cars, car, l, refS, planned, dt);
  }
  /** A car behind replaces the back fields exactly when it is within the
      horizon and strictly nearer than the recorded one. */
  lemma SummaryAbsorbBehind(info: LaneInfo, cars: seq<Car>, car: Car, l: int, refS: real, planned: int, dt: real)
    requires LaneSummary(info, cars, l, refS, planned, dt)
    requires InLane(car, l) && !Ahead(car, refS)
    ensures LaneSummary(Absorb(info, car, refS, planned, dt), cars + [car], l, refS, planned, dt)
  {
    // The back gap is the default or a tracked car's, so the written
    // comparison against max(back gap, -horizon) is a comparison against both.
    assert info.backGap == -1000.0 || info.backGap > -LaneHorizon;
    if Gap(car, refS) > Max(info.backGap, -LaneHorizon) {
      SummaryAbsorbNearerBehind(info, cars, car, l, refS, planned, dt);
    } else {
      SummaryAbsorbFartherBehind(info, cars, car, l, refS, planned, dt);
    }
  }

  /** A car behind within the horizon and nearer than the recorded one takes
      over the back fields. */
  lemma {:induction false} SummaryAbsorbNearerBehind(info: LaneInfo, cars: seq<Car>, car: Car, l: int, refS: real, planned: int, dt: real)
    requires LaneSummary(info, cars, l, refS, planned, dt)
    requires InLane(car, l) && !Ahead(car, refS)
    requires Gap(car, refS) > -LaneHorizon && Gap(car, refS) > info.backGap
    ensures LaneSummary(Absorb(info, car, refS, planned, dt), cars + [car], l, refS, planned, dt)
    ensures BackIs(Absorb(info, car, refS, planned, dt), car, refS, planned, dt)
  {
    var cs := cars + [car];
    var r := Absorb(info, car, refS, planned, dt);
    var n := |cars|;
    assert cs[n] == car;
    assert forall j :: 0 <= j < n ==> cs[j] == cars[j];
    assert r.frontCar == info.frontCar && r.frontGap == info.frontGap;
    assert BackIs(r, cs[n], refS, planned, dt);
    assert FirstNearestBehind(cs, n, l, refS);
    if !FrontIsDefault(info) {
      var j :| FirstNearestAhead(cars, j, l, refS) && FrontIs(info, cars[j], refS, planned, dt);
      assert FirstNearestAhead(cs, j, l, refS) && FrontIs(r, cs[j], refS, planned, dt);
    }
  }

  /** A car behind that is beyond the horizon, or not nearer than the recorded
      one, changes nothing. */
  lemma SummaryAbsorbFartherBehind(info: LaneInfo, cars: seq<Car>, car: Car, l: int, refS: real, planned: int, dt: real)
    requires LaneSummary(info, cars, l, refS, planned, dt)
    requires InLane(car, l) && !Ahead(car, refS)
    requires Gap(car, refS) <= Max(info.backGap, -LaneHorizon)
    ensures LaneSummary(Absorb(info, car, refS, planned, dt), cars + [car], l, refS, planned, dt)
    ensures Absorb(info, car, refS, planned, dt) == info
  {
    assert info.backGap == -1000.0 || info.backGap > -LaneHorizon;
    SummaryKept(info, cars, car, l, refS, planned, dt);
  }
  /** One car of the fold: it updates its own lane's record, if it is on the
      road, and every lane's summary stays valid. */
  lemma SummariesStep(infos: seq<LaneInfo>, cars: seq<Car>, car: Car, refS: real, planned: int, dt: real)
    requires |infos| == LaneCount
    requires forall l :: 0 <= l < LaneCount ==> LaneSummary(infos[l], cars, l, refS, planned, dt)
    ensures LaneAt(car.d) >= 0 ==>
      var updated := infos[LaneAt(car.d) := Absorb(infos[LaneAt(car.d)], car, refS, planned, dt)];
      forall l :: 0 <= l < LaneCount ==> LaneSummary(updated[l], cars + [car], l, refS, planned, dt)
    ensures LaneAt(car.d) < 0 ==>
      forall l :: 0 <= l < LaneCount ==> LaneSummary(infos[l], cars + [car], l, refS, planned, dt)
  {
    var carLane := LaneAt(car.d);
    if carLane >= 0 {
      var updated := infos[carLane := Absorb(infos[carLane], car, refS, planned, dt)];
      forall l | 0 <= l < LaneCount
        ensures LaneSummary(updated[l], cars + [car], l, refS, planned, dt)
      {
        if l == carLane {
          SummaryAbsorb(infos[l], cars, car, l, refS, planned, dt);
        } else {
          SummaryOtherLane(infos[l], cars, car, l, refS, planned, dt);
        }
      }
    } else {
      forall l | 0 <= l < LaneCount
        ensures LaneSummary(infos[l], cars + [car], l, refS, planned, dt)
      {
        SummaryOtherLane(infos[l], cars, car, l, refS, planned, dt);
      }
    }
  }

  /** Rebuilds the per-lane records from this cycle's observations. Cars off
      the road (`LaneAt` negative) are skipped; every other car updates only
      its own lane's record. `planned` is the number of previous-path points
      still to be driven and `dt` the sample period. */
  method ProcessSensorFusion(cars: seq<Car>, refS: real, planned: int, dt: real) returns (infos: seq<LaneInfo>)
    ensures |infos| == LaneCount
    ensures forall l :: 0 <= l < LaneCount ==> LaneSummary(infos[l], cars, l, refS, planned, dt)
  {
    infos := seq(LaneCount, _ => EmptyLane);
    var i := 0;
    while i < |cars|
      invariant 0 <= i <= |cars|
      invariant |infos| == LaneCount
      invariant forall l :: 0 <= l < LaneCount ==> LaneSummary(infos[l], cars[..i], l, refS, planned, dt)
    {
      SummariesStep(infos, cars[..i], cars[i], refS, planned, dt);
      assert cars[..i + 1] == cars[..i] + [cars[i]];
      var carLane := LaneAt(cars[i].d);
      if carLane >= 0 {
        infos := infos[carLane := Absorb(infos[carLane], cars[i], refS, planned, dt)];
      }
      i := i + 1;
    }
    assert cars[..|cars|] == cars;
  }

  /** A lane with an observed car ahead is not clear; a lane with no car at all is clear. */
  lemma ClearMeansNoCarAhead(info: LaneInfo, cars: seq<Car>, l: int, refS: real, planned: int, dt: real)
    requires LaneSummary(info, cars, l, refS, planned, dt)
    requires forall j :: 0 <= j < |cars| ==> cars[j].id >= 0
    ensures (exists j :: 0 <= j < |cars| && InLane(cars[j], l) && Ahead(cars[j], refS) && Gap(cars[j], refS) < 1000.0)
            ==> !info.IsClear()
    ensures (forall j :: 0 <= j < |cars| ==> !InLane(cars[j], l)) ==> info.IsClear()
    ensures (forall j :: 0 <= j < |cars| && InLane(cars[j], l) && Ahead(cars[j], refS) ==> Gap(cars[j], refS) >= 1000.0)
            ==> info.frontCar == -1
  {
    if exists j :: 0 <= j < |cars| && InLane(cars[j], l) && Ahead(cars[j], refS) && Gap(cars[j], refS) < 1000.0 {
      var j :| 0 <= j < |cars| && InLane(cars[j], l) && Ahead(cars[j], refS) && Gap(cars[j], refS) < 1000.0;
      assert info.frontGap < 1000.0;
      assert !FrontIsDefault(info);
    }
  }

  /** The summary pins the record down: two records that both summarise the
      same cars for the same lane are equal, so the fold and the summary agree
      on every field, ties and the 1000 m boundary included. */
  lemma SummaryUnique(a: LaneInfo, cars: seq<Car>, l: int, refS: real, planned: int, dt: real)
    requires LaneSummary(a, cars, l, refS, planned, dt)
    ensures forall b :: LaneSummary(b, cars, l, refS, planned, dt) ==> b == a
  {
    forall b | LaneSummary(b, cars, l, refS, planned, dt)
      ensures b == a
    {
      if !FrontIsDefault(a) && !FrontIsDefault(b) {
        var i :| FirstNearestAhead(cars, i, l, refS) && FrontIs(a, cars[i], refS, planned, dt);
        var j :| FirstNearestAhead(cars, j, l, refS) && FrontIs(b, cars[j], refS, planned, dt);
        assert Gap(cars[i], refS) == Gap(cars[j], refS);
      }
      if !BackIsDefault(a) && !BackIsDefault(b) {
        var i :| FirstNearestBehind(cars, i, l, refS) && BackIs(a, cars[i], refS, planned, dt);
        var j :| FirstNearestBehind(cars, j, l, refS) && BackIs(b, cars[j], refS, planned, dt);
        assert Gap(cars[i], refS) == Gap(cars[j], refS);
      }
    }
  }
}
