/** Lap counting. The starting station is captured on the very first cycle;
    a lap is counted once the car has been seen behind that station (it
    crossed the wrap-around point of the track) and then passes it again. */
module Laps {
  import opened Planner

  /** The station a lap is measured from: the car's own on the first cycle,
      the captured one afterwards. */
  function LapStart(p: Planner, egoS: real): real
  {
    if p.lapsTick == 0 then egoS else p.startS
  }

  /** One cycle of lap tracking for a car at (`egoS`, `egoD`). */
  function TrackLap(p: Planner, egoS: real, egoD: real): (r: Planner)
    ensures r.laps == p.laps || r.laps == p.laps + 1
    ensures r.laps == p.laps + 1 <==> (p.passedZeroS || egoS < LapStart(p, egoS)) && egoS > LapStart(p, egoS)
    ensures r.laps == p.laps + 1 ==> r.lapsTick == 1 && !r.passedZeroS
    ensures r.laps == p.laps ==> r.lapsTick == p.lapsTick + 1 && (r.passedZeroS <==> p.passedZeroS || egoS < r.startS)
    ensures p.lapsTick == 0 ==> r.laps == p.laps && r.startS == egoS && r.startD == egoD
    ensures p.lapsTick != 0 ==> r.startS == p.startS && r.startD == p.startD
    ensures r == p.(laps := r.laps, lapsTick := r.lapsTick, passedZeroS := r.passedZeroS,
                    startS := r.startS, startD := r.startD)
  {
    var q := if p.lapsTick == 0 then p.(startS := egoS, startD := egoD) else p;
    var passed := q.passedZeroS || egoS < q.startS;
    if passed && egoS > q.startS then q.(laps := q.laps + 1, lapsTick := 1, passedZeroS := false)
    else q.(lapsTick := q.lapsTick + 1, passedZeroS := passed)
  }

  /** Lap tracking over the car's stations on successive cycles. */
  function TrackLaps(p: Planner, stations: seq<real>, d: real): Planner
    decreases |stations|
  {
    if |stations| == 0 then p else TrackLaps(TrackLap(p, stations[0], d), stations[1..], d)
  }

  /** After the first cycle the starting station never changes again: counting
      a lap does not recapture it. */
  lemma {:induction false} StartCapturedOnce(p: Planner, stations: seq<real>, d: real)
    requires p.lapsTick >= 1
    ensures TrackLaps(p, stations, d).startS == p.startS
    ensures TrackLaps(p, stations, d).lapsTick >= 1
    decreases |stations|
  {
    if |stations| > 0 {
      StartCapturedOnce(TrackLap(p, stations[0], d), stations[1..], d);
    }
  }

  /** A car that never falls behind its starting station completes no lap. */
  lemma {:induction false} NoLapWithoutWrap(p: Planner, stations: seq<real>, d: real)
    requires p.lapsTick >= 1 && !p.passedZeroS
    requires forall i :: 0 <= i < |stations| ==> stations[i] >= p.startS
    ensures TrackLaps(p, stations, d).laps == p.laps
    decreases |stations|
  {
    if |stations| > 0 {
      NoLapWithoutWrap(TrackLap(p, stations[0], d), stations[1..], d);
    }
  }

  /** Starting at station 100, wrapping past the end of the track (station 50)
      and passing 100 again counts exactly one lap. */
  lemma OneLapAfterWrap()
    ensures TrackLaps(Initial(), [100.0, 6900.0, 50.0, 150.0], 6.0).laps == 1
  {
    var p0 := Initial();
    var p1 := TrackLap(p0, 100.0, 6.0);
    var p2 := TrackLap(p1, 6900.0, 6.0);
    var p3 := TrackLap(p2, 50.0, 6.0);
    var p4 := TrackLap(p3, 150.0, 6.0);
    assert p4.laps == 1;
    assert TrackLaps(p0, [100.0, 6900.0, 50.0, 150.0], 6.0) == TrackLaps(p1, [6900.0, 50.0, 150.0], 6.0);
    assert [6900.0, 50.0, 150.0][1..] == [50.0, 150.0];
    assert [50.0, 150.0][1..] == [150.0];
  }
}
