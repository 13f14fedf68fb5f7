/** Lane ranking for the behaviour planner. The code sorts the lane indices
    with a comparator and takes the first. That comparator is not a strict
    weak ordering (it is reflexive, and its speed tolerance is not
    transitive), so the C++ standard does not fix the result. On three lanes
    libstdc++ sorts by insertion, and that front lane is what is modelled;
    another library's sort can put a different lane in front (see
    `FrontDependsOnSort`). */
module Ranking {
  import opened Utils
  import opened Lanes
  import opened Traffic

  /** How fast one could drive in a lane: unbounded when its car ahead is
      beyond the horizon, otherwise a speed in m/s. */
  datatype Allowance = Unbounded | Speed(v: real)


  /** The speed a lane allows: unbounded when its car ahead is beyond the
      horizon, else the speed of a car close behind (it would have to be
      matched), else the speed of the car ahead. */
  function LaneAllowance(info: LaneInfo): (r: Allowance)
    ensures r.Unbounded? <==> info.frontGap >= LaneHorizon
    ensures r.Speed? && info.backGap > BackBuffer ==> r.v == info.backSpeed
    ensures r.Speed? && info.backGap <= BackBuffer ==> r.v == info.frontSpeed
  {
    if info.frontGap >= LaneHorizon then Unbounded
    else if info.backGap > BackBuffer then Speed(info.backSpeed)
    else Speed(info.frontSpeed)
  }

  /** Allowances within 0.5 m/s of each other, or both unbounded, count as equal. */
  predicate SameAllowance(a: Allowance, b: Allowance)
  {
    (a.Unbounded? && b.Unbounded?) || (a.Speed? && b.Speed? && AbsReal(a.v - b.v) < 0.5)
  }

  /** `a` allows a higher speed than `b`; unbounded exceeds every speed. */
  predicate Faster(a: Allowance, b: Allowance)
  {
    (a.Unbounded? && b.Speed?) || (a.Speed? && b.Speed? && a.v > b.v)
  }

  /** The sort comparator as written: closeness to the reference lane and the
      front-gap tie-break use non-strict comparisons. */
  predicate RanksBeforeAsWritten(infos: seq<LaneInfo>, refLane: int, i: int, j: int)
    requires 0 <= i < |infos| && 0 <= j < |infos|
  {
    var li, lj := infos[i], infos[j];
    if li.IsClear() then
      if lj.IsClear() then AbsInt(i - refLane) <= AbsInt(j - refLane) else true
    else if lj.IsClear() then false
    else
      var vi, vj := LaneAllowance(li), LaneAllowance(lj);
      if SameAllowance(vi, vj) then li.frontGap >= lj.frontGap else Faster(vi, vj)
  }

  /** Lane `i` ranks strictly before lane `j`: a clear lane before a lane
      that is not; between clear lanes the one nearer the reference lane;
      otherwise the higher allowance, or on equal allowances the larger gap ahead. */
  predicate RanksBefore(infos: seq<LaneInfo>, refLane: int, i: int, j: int)
    requires 0 <= i < |infos| && 0 <= j < |infos|
  {
    var li, lj := infos[i], infos[j];
    if li.IsClear() then
      if lj.IsClear() then AbsInt(i - refLane) < AbsInt(j - refLane) else true
    else if lj.IsClear() then false
    else
      var vi, vj := LaneAllowance(li), LaneAllowance(lj);
      if SameAllowance(vi, vj) then li.frontGap > lj.frontGap else Faster(vi, vj)
  }

  /** The written comparator says every lane goes before itself, which the
      strict weak ordering `std::sort` requires of its comparator forbids. */
  lemma ComparatorAsWrittenReflexive(infos: seq<LaneInfo>, refLane: int, i: int)
    requires 0 <= i < |infos|
    ensures RanksBeforeAsWritten(infos, refLane, i, i)
    ensures !RanksBefore(infos, refLane, i, i)
  {}

  /** The strict ranking never puts two lanes before each other. */
  lemma RanksBeforeAsymmetric(infos: seq<LaneInfo>, refLane: int, i: int, j: int)
    requires 0 <= i < |infos| && 0 <= j < |infos|
    ensures RanksBefore(infos, refLane, i, j) ==> !RanksBefore(infos, refLane, j, i)
  {}

  predicate SomeClear(infos: seq<LaneInfo>, k: int)
    requires k <= |infos|
  {
    exists c :: 0 <= c < k && infos[c].IsClear()
  }

  /** No two distinct lanes below `k` that are both not clear have allowances
      the comparator treats as equal; between such lanes the ranking is the
      plain "faster" order. */
  predicate NoNearTies(infos: seq<LaneInfo>, k: int)
    requires k <= |infos|
  {
    forall a, b :: 0 <= a < k && 0 <= b < k && a != b && !infos[a].IsClear() && !infos[b].IsClear() ==>
      !SameAllowance(LaneAllowance(infos[a]), LaneAllowance(infos[b]))
  }

  /** Ranking strictly before a lane that ranks (non-strictly) before a third
      lane means ranking strictly before the third, when the allowances of the
      three have no near ties. */
  lemma StrictThenWritten(infos: seq<LaneInfo>, refLane: int, k: int, a: int, b: int, c: int)
    requires k <= |infos| && 0 <= a < k && 0 <= b < k && 0 <= c < k
    requires NoNearTies(infos, k)
    requires RanksBefore(infos, refLane, a, b) && RanksBeforeAsWritten(infos, refLane, b, c)
    ensures RanksBefore(infos, refLane, a, c)
  {
    var la, lb, lc := infos[a], infos[b], infos[c];
    if !la.IsClear() && !lb.IsClear() && !lc.IsClear() {
      var va, vb, vc := LaneAllowance(la), LaneAllowance(lb), LaneAllowance(lc);
      assert !SameAllowance(va, vb);
      if b != c {
        assert !SameAllowance(vb, vc);
      }
      if a != c {
        assert !SameAllowance(va, vc);
      }
    }
  }

  /** The front lane after `std::sort` of lanes 0 .. k-1 as libstdc++ does it.
      For three lanes that is an insertion sort, which brings a later lane to
      the front exactly when the comparator puts it before the current front;
      so the front is a left-to-right scan with the written comparator. */
  function Scan(infos: seq<LaneInfo>, refLane: int, k: int): (r: int)
    requires 1 <= k <= |infos|
    ensures 0 <= r < k
    ensures SomeClear(infos, k) ==> infos[r].IsClear()
    ensures infos[r].IsClear() ==>
      forall c :: 0 <= c < k && infos[c].IsClear() ==> AbsInt(r - refLane) <= AbsInt(c - refLane)
    ensures infos[r].IsClear() ==>
      forall c :: r < c < k && infos[c].IsClear() ==> AbsInt(r - refLane) < AbsInt(c - refLane)
    ensures !SomeClear(infos, k) && (exists c :: 0 <= c < k && LaneAllowance(infos[c]).Unbounded?) ==>
      LaneAllowance(infos[r]).Unbounded?
    ensures forall c :: r < c < k ==> !RanksBeforeAsWritten(infos, refLane, c, r)
  {
    if k == 1 then 0
    else
      var best := Scan(infos, refLane, k - 1);
      if RanksBeforeAsWritten(infos, refLane, k - 1, best) then k - 1 else best
  }

  /** Without near ties among the lanes that are not clear, no lane ranks
      strictly before the scan's result: it is a best lane. */
  lemma {:induction false} ScanIsBest(infos: seq<LaneInfo>, refLane: int, k: int)
    requires 1 <= k <= |infos|
    ensures NoNearTies(infos, k) ==> forall c :: 0 <= c < k ==> !RanksBefore(infos, refLane, c, Scan(infos, refLane, k))
  {
    if k > 1 {
      ScanIsBest(infos, refLane, k - 1);
      ScanStep(infos, refLane, k - 1, Scan(infos, refLane, k - 1));
    }
  }

  /** One step of the scan: bringing lane `k` to the front, or keeping
      `best`, keeps "no lane ranks strictly before the front". */
  lemma ScanStep(infos: seq<LaneInfo>, refLane: int, k: int, best: int)
    requires 1 <= k < |infos| && 0 <= best < k
    requires NoNearTies(infos, k) ==> forall c :: 0 <= c < k ==> !RanksBefore(infos, refLane, c, best)
    ensures NoNearTies(infos, k + 1) && RanksBeforeAsWritten(infos, refLane, k, best) ==>
      forall c :: 0 <= c <= k ==> !RanksBefore(infos, refLane, c, k)
    ensures NoNearTies(infos, k + 1) && !RanksBeforeAsWritten(infos, refLane, k, best) ==>
      forall c :: 0 <= c <= k ==> !RanksBefore(infos, refLane, c, best)
  {
    if NoNearTies(infos, k + 1) {
      assert NoNearTies(infos, k);
      if RanksBeforeAsWritten(infos, refLane, k, best) {
        forall c | 0 <= c <= k
          ensures !RanksBefore(infos, refLane, c, k)
        {
          if RanksBefore(infos, refLane, c, k) {
            StrictThenWritten(infos, refLane, k + 1, c, k, best);
          }
        }
      }
    }
  }

  /** On a tie the later lane ends in front: with the reference lane blocked
      and both outer lanes clear and equally near, the rightmost lane wins. */
  lemma TieGoesToLaterLane(infos: seq<LaneInfo>)
    requires |infos| == LaneCount
    requires infos[0].IsClear() && !infos[1].IsClear() && infos[2].IsClear()
    ensures Scan(infos, 1, LaneCount) == 2
  {}

  /** The comparator's 0.5 m/s tolerance is not transitive, so even the strict
      ranking can cycle: allowances 10.8, 10.4 and 10.0 m/s with gaps 5, 30 and
      40 m give lane 1 before 0, lane 2 before 1, and lane 0 before 2; the scan
      then picks lane 2 over the 0.8 m/s faster lane 0. */
  lemma RankingCycle(infos: seq<LaneInfo>)
    requires |infos| == LaneCount
    requires forall c :: 0 <= c < LaneCount ==> infos[c].frontCar >= 0 && infos[c].backGap <= BackBuffer
    requires infos[0].frontGap == 5.0 && infos[0].frontSpeed == 10.8
    requires infos[1].frontGap == 30.0 && infos[1].frontSpeed == 10.4
    requires infos[2].frontGap == 40.0 && infos[2].frontSpeed == 10.0
    ensures RanksBefore(infos, 1, 1, 0) && RanksBefore(infos, 1, 2, 1) && RanksBefore(infos, 1, 0, 2)
    ensures !NoNearTies(infos, LaneCount)
    ensures BestLane(infos, 1, 1) == 2
  {
    assert SameAllowance(LaneAllowance(infos[0]), LaneAllowance(infos[1]));
    assert Scan(infos, 1, 1) == 0;
    assert Scan(infos, 1, 2) == 1;
  }

  /** The mirror image of `RankingCycle`: the comparator puts lane 0 before
      lane 1 and lane 1 before lane 2, yet lane 2 before lane 0. The scan
      replaces the front lane 0 with lane 2. A sort that stops once the first
      two comparisons find the three lanes in order (the sorting network of
      libc++ does) leaves lane 0 in front instead, so on such input the
      chosen lane depends on the library. */
  lemma FrontDependsOnSort(infos: seq<LaneInfo>)
    requires |infos| == LaneCount
    requires forall c :: 0 <= c < LaneCount ==> infos[c].frontCar >= 0 && infos[c].backGap <= BackBuffer
    requires infos[0].frontGap == 40.0 && infos[0].frontSpeed == 10.0
    requires infos[1].frontGap == 30.0 && infos[1].frontSpeed == 10.4
    requires infos[2].frontGap == 5.0 && infos[2].frontSpeed == 10.8
    ensures RanksBeforeAsWritten(infos, 1, 0, 1) && RanksBeforeAsWritten(infos, 1, 1, 2)
    ensures RanksBeforeAsWritten(infos, 1, 2, 0)
    ensures BestLane(infos, 1, 1) == 2
  {
    assert SameAllowance(LaneAllowance(infos[1]), LaneAllowance(infos[2]));
    assert Scan(infos, 1, 1) == 0;
    assert Scan(infos, 1, 2) == 0;
  }

  /** The lane the planner should head for: the current target lane while it
      is clear, otherwise the front lane of the sorted lanes. */
  function BestLane(infos: seq<LaneInfo>, targetLane: int, refLane: int): (r: int)
    requires |infos| == LaneCount && IsLane(targetLane)
    ensures IsLane(r)
    ensures infos[targetLane].IsClear() ==> r == targetLane
    ensures SomeClear(infos, LaneCount) ==> infos[r].IsClear()
    ensures !infos[targetLane].IsClear() ==> forall c :: r < c < LaneCount ==> !RanksBeforeAsWritten(infos, refLane, c, r)
    ensures !infos[targetLane].IsClear() && NoNearTies(infos, LaneCount) ==>
      forall c :: IsLane(c) ==> !RanksBefore(infos, refLane, c, r)
    ensures !infos[targetLane].IsClear() && infos[r].IsClear() ==>
      forall c :: IsLane(c) && infos[c].IsClear() ==> AbsInt(r - refLane) <= AbsInt(c - refLane)
    ensures !SomeClear(infos, LaneCount) && (exists c :: IsLane(c) && LaneAllowance(infos[c]).Unbounded?) ==>
      LaneAllowance(infos[r]).Unbounded?
  {
    if infos[targetLane].IsClear() then targetLane
    else
      ScanIsBest(infos, refLane, LaneCount);
      Scan(infos, refLane, LaneCount)
  }
}
