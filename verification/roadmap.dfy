/** The road map: a table of centre-line waypoints ordered by arc length `s`,
    closed into a loop by a final record at `MaxS`, and the index logic of the
    Frenet/Cartesian conversions. Headings, projections and the trigonometry
    of the conversions are not modelled; only which records they read. */
module RoadMap {
  import opened Utils

  /** A centre-line sample: position, arc length and unit normal. */
  datatype Waypoint = Waypoint(x: real, y: real, s: real, dx: real, dy: real)

  /** Arc length at which the track wraps around to 0. */
  const MaxS: real := 6945.554

  /** Waypoint stations never decrease along the table. */
  ghost predicate Sorted(t: seq<Waypoint>)
  {
    forall i, j :: 0 <= i < j < |t| ==> t[i].s <= t[j].s
  }

  /** The table ends with a copy of its first record placed at `MaxS`. */
  ghost predicate Closed(t: seq<Waypoint>)
  {
    && |t| >= 2
    && t[|t| - 1] == t[0].(s := MaxS)
  }

  // ---------------------------------------------------------------- loading

  /** Appends the closing record after the parsed rows. With no rows the code
      reads the first record of an empty table; that is the `None` outcome. */
  function Load(rows: seq<Waypoint>): (r: Option<seq<Waypoint>>)
    ensures r.None? <==> |rows| == 0
    ensures r.Some? ==> |r.value| == |rows| + 1 && r.value[..|rows|] == rows
    ensures r.Some? ==> Closed(r.value)
  {
    if |rows| == 0 then None
    else Some(rows + [rows[0].(s := MaxS)])
  }

  /** Loading sorted rows that all lie before `MaxS` gives a sorted, closed table. */
  lemma LoadSorted(rows: seq<Waypoint>)
    requires |rows| > 0 && Sorted(rows)
    requires forall i :: 0 <= i < |rows| ==> rows[i].s <= MaxS
    ensures Load(rows).Some?
    ensures Sorted(Load(rows).value) && Closed(Load(rows).value)
  {
    var t := Load(rows).value;
    forall i, j | 0 <= i < j < |t|
      ensures t[i].s <= t[j].s
    {
      if j < |rows| {
        assert t[i] == rows[i] && t[j] == rows[j];
      } else {
        assert t[i] == rows[i];
      }
    }
  }

  // ------------------------------------------------------- closest waypoint

  /** Squared distance from (x, y) to waypoint `w`; it orders waypoints as the distance does. */
  function DistTo(w: Waypoint, x: real, y: real): real
  {
    DistanceSq(x, y, w.x, w.y)
  }

  /** `c` is the first waypoint of minimal distance to (x, y). */
  ghost predicate IsClosest(t: seq<Waypoint>, x: real, y: real, c: int)
  {
    && 0 <= c < |t|
    && (forall k :: 0 <= k < |t| ==> DistTo(t[c], x, y) <= DistTo(t[k], x, y))
    && (forall k :: 0 <= k < c ==> DistTo(t[k], x, y) > DistTo(t[c], x, y))
  }

  /** Linear argmin over the table; the strict comparison keeps the first of
      equally distant waypoints. The initial best distance, the largest double,
      is treated as unbounded, so the first waypoint is always taken. */
  method ClosestWaypoint(t: seq<Waypoint>, x: real, y: real) returns (closest: int)
    ensures |t| == 0 ==> closest == 0
    ensures |t| > 0 ==> IsClosest(t, x, y, closest)
  {
    closest := 0;
    if |t| == 0 {
      return;
    }
    var closestDist := DistTo(t[0], x, y);
    var i := 1;
    while i < |t|
      invariant 1 <= i <= |t|
      invariant 0 <= closest < i
      invariant closestDist == DistTo(t[closest], x, y)
      invariant forall k :: 0 <= k < i ==> closestDist <= DistTo(t[k], x, y)
      invariant forall k :: 0 <= k < closest ==> DistTo(t[k], x, y) > closestDist
    {
      var dist := DistTo(t[i], x, y);
      if dist < closestDist {
        closestDist := dist;
        closest := i;
      }
      i := i + 1;
    }
  }

  /** There is only one first closest waypoint. */
  lemma ClosestUnique(t: seq<Waypoint>, x: real, y: real, a: int, b: int)
    requires IsClosest(t, x, y, a) && IsClosest(t, x, y, b)
    ensures a == b
  {
    var da, db := DistTo(t[a], x, y), DistTo(t[b], x, y);
    assert da <= db && db <= da;
  }

  /** The waypoint after `i` on the closed loop, `(i + 1) mod size`. */
  function NextIndex(i: int, size: int): (r: int)
    requires 0 <= i < size
    ensures 0 <= r < size
    ensures r == (i + 1) % size
  {
    if i + 1 == size then 0 else ModSmall(i + 1, size); i + 1
  }

  /** The waypoint before `i` on the closed loop. */
  function PrevIndex(i: int, size: int): (r: int)
    requires 0 <= i < size
    ensures 0 <= r < size
    ensures NextIndex(r, size) == i
  {
    if i == 0 then size - 1 else i - 1
  }

  lemma ModSmall(a: int, n: int)
    requires 0 <= a < n
    ensures a % n == a
  {}

  /** The closest waypoint, or the one after it when the closest lies more than
      45 degrees off the heading. The angle test itself is trigonometry and is
      an input here. The code reads the chosen waypoint, so the table must not
      be empty. */
  method NextWaypoint(t: seq<Waypoint>, x: real, y: real, headingOff: bool) returns (next: int)
    requires |t| > 0
    ensures 0 <= next < |t|
    ensures !headingOff ==> IsClosest(t, x, y, next)
    ensures headingOff ==> IsClosest(t, x, y, PrevIndex(next, |t|))
  {
    next := ClosestWaypoint(t, x, y);
    if headingOff {
      next := NextIndex(next, |t|);
    }
  }

  // ------------------------------------------------------------- to_frenet

  /** The previous-waypoint index in `to_frenet` as written: `next - 1` is an
      `int` reduced modulo the table size in unsigned 64-bit arithmetic, so for
      `next == 0` it becomes (2^64 - 1) mod size. */
  function FrenetPrevAsWritten(next: int, size: int): (r: int)
    requires 0 <= next < size < Word64
    ensures 0 <= r < size
  {
    AsUnsigned64(next - 1) % size
  }

  /** Away from index 0 the written and the intended index agree. */
  lemma FrenetPrevAsWrittenAwayFromZero(next: int, size: int)
    requires 1 <= next < size < Word64
    ensures FrenetPrevAsWritten(next, size) == PrevIndex(next, size) == next - 1
  {
    ModSmall(next - 1, size);
  }

  /** With three records and `next == 0` the written code picks record 0 itself
      rather than the last record, so the segment it projects onto has zero length. */
  lemma FrenetPrevAsWrittenAtZero()
    ensures FrenetPrevAsWritten(0, 3) == 0
    ensures PrevIndex(0, 3) == 2
  {}

  /** The intended previous index never coincides with `next` on a table of two or more records. */
  lemma FrenetPrevDistinct(next: int, size: int)
    requires 0 <= next < size && size >= 2
    ensures PrevIndex(next, size) != next
  {}

  // ------------------------------------------------------------------ to_xy

  datatype Search = Segment(prev: int) | ReadsOutside(index: int)

  /** The segment search of `to_xy` as written: the record after `prev` is read
      before the bound is checked, so a station past the last record reads one
      past the table's end; a station at or before the first record leaves
      `prev` at -1, which the heading computation then reads. */
  function SearchAsWritten(t: seq<Waypoint>, s: real, prev: int): (r: Search)
    requires -1 <= prev < |t|
    requires forall k :: 0 <= k <= prev ==> s > t[k].s
    ensures r.Segment? ==> 0 <= r.prev < |t| - 1 && t[r.prev].s < s <= t[r.prev + 1].s
    ensures r.Segment? ==> forall k :: 0 <= k <= r.prev ==> t[k].s < s
    ensures r.ReadsOutside? ==> r.index == -1 || r.index == |t|
    ensures r == ReadsOutside(-1) <==> prev == -1 && |t| > 0 && s <= t[0].s
    ensures r == ReadsOutside(|t|) <==> forall k :: prev < k < |t| ==> s > t[k].s
    decreases |t| - prev
  {
    if prev + 1 == |t| then ReadsOutside(|t|)
    else if s > t[prev + 1].s && prev < |t| - 1 then SearchAsWritten(t, s, prev + 1)
    else if prev == -1 then ReadsOutside(-1)
    else Segment(prev)
  }

  /** On a sorted table the written search finds the segment holding `s`
      exactly when `s` lies strictly after the first station and not after the last. */
  lemma SearchAsWrittenCases(t: seq<Waypoint>, s: real)
    requires |t| >= 1 && Sorted(t)
    ensures t[0].s < s <= t[|t| - 1].s ==> SearchAsWritten(t, s, -1).Segment?
    ensures s <= t[0].s ==> SearchAsWritten(t, s, -1) == ReadsOutside(-1)
    ensures s > t[|t| - 1].s ==> SearchAsWritten(t, s, -1) == ReadsOutside(|t|)
  {
    if s <= t[0].s {
      assert !(s > t[0].s);
    }
  }

  /** A station wrapped onto one lap of the loop, `[0, MaxS)`. */
  function WrapS(s: real): (r: real)
    ensures 0.0 <= r < MaxS
    ensures 0.0 <= s < MaxS ==> r == s
  {
    s - (s / MaxS).Floor as real * MaxS
  }

  /** Adding a lap does not move a wrapped station. */
  lemma WrapSPeriodic(s: real)
    ensures WrapS(s + MaxS) == WrapS(s)
  {
    var k := (s / MaxS).Floor;
    assert (s + MaxS) / MaxS == s / MaxS + 1.0;
    assert ((s + MaxS) / MaxS).Floor == k + 1;
    assert (k + 1) as real * MaxS == k as real * MaxS + MaxS;
  }

  /** The segment search with the bound checked before the read: never leaves the table. */
  function SearchFrom(t: seq<Waypoint>, s: real, prev: int): (r: int)
    requires -1 <= prev < |t|
    requires forall k :: 0 <= k <= prev ==> s > t[k].s
    ensures prev <= r < |t|
    ensures forall k :: 0 <= k <= r ==> s > t[k].s
    ensures r + 1 < |t| ==> s <= t[r + 1].s
    decreases |t| - prev
  {
    if prev < |t| - 1 && s > t[prev + 1].s then SearchFrom(t, s, prev + 1)
    else prev
  }

  /** The segment used by `to_xy` once the station is wrapped onto the loop and the
      bound is checked first: the segment from record `prev` to record `next`. */
  function SegmentFor(t: seq<Waypoint>, s: real): (r: (int, int))
    requires |t| >= 1
    ensures 0 <= r.0 < |t| && r.1 == (r.0 + 1) % |t|
  {
    var found := SearchFrom(t, WrapS(s), -1);
    var prev := if found < 0 then 0 else found;
    (prev, NextIndex(prev, |t|))
  }

  /** On a sorted closed table the segment never wraps, it holds the wrapped
      station, and the station's offset into it is within the segment's length. */
  lemma SegmentForContains(t: seq<Waypoint>, s: real)
    requires Sorted(t) && Closed(t) && t[0].s < WrapS(s)
    ensures var (prev, next) := SegmentFor(t, s);
      && 0 <= prev <= |t| - 2 && next == prev + 1
      && t[prev].s < WrapS(s) <= t[next].s
      && 0.0 < WrapS(s) - t[prev].s <= t[next].s - t[prev].s
  {
    var found := SearchFrom(t, WrapS(s), -1);
    assert t[|t| - 1].s == MaxS;
    assert found >= 0;
    assert found < |t| - 1;
  }

  /** The segment lookup is the same one lap further on. */
  lemma SegmentForPeriodic(t: seq<Waypoint>, s: real)
    requires |t| >= 1
    ensures SegmentFor(t, s + MaxS) == SegmentFor(t, s)
  {
    WrapSPeriodic(s);
  }
}
