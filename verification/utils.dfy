/** Unit conversions and small vector helpers shared by the planner.
    Numbers are modelled as mathematical reals; `sqrt` is not modelled, so
    Euclidean lengths are carried as their squares, which order points the
    same way because the square root is strictly increasing. */
module Utils {

  datatype Option<T> = None | Some(value: T)

  /** 2^64: unsigned 64-bit (`size_t`) arithmetic is arithmetic modulo this. */
  const Word64: int := 0x1_0000_0000_0000_0000

  /** A result of `size_t` arithmetic that left the 64-bit range by less than
      2^64, brought back into it: it wraps around by 2^64. */
  function AsUnsigned64(x: int): (r: int)
    requires -Word64 <= x < 2 * Word64
    ensures 0 <= r < Word64
    ensures 0 <= x < Word64 ==> r == x
    ensures x < 0 ==> r == x + Word64
    ensures x >= Word64 ==> r == x - Word64
  {
    if x < 0 then x + Word64 else if x >= Word64 then x - Word64 else x
  }

  /** The decimal value of the C library's M_PI, used as an ordinary positive constant. */
  const Pi: real := 3.141592653589793

  /** Miles per hour to metres per second factor. */
  const MphToMps: real := 0.44704

  /** Metres in one mile. */
  const MileToMeter: real := 1609.34

  function Deg2Rad(x: real): real { x * Pi / 180.0 }

  function Rad2Deg(x: real): real { x * 180.0 / Pi }

  function Mph2Mps(x: real): real { x * MphToMps }

  function Mps2Mph(x: real): real { x / MphToMps }

  function Miles2Meters(x: real): real { x * MileToMeter }

  function Meters2Miles(x: real): real { x / MileToMeter }

  /** The C library's `fmax` and `fmin` on ordinary (non-NaN) numbers. */
  function Max(a: real, b: real): real { if a >= b then a else b }

  function Min(a: real, b: real): real { if a <= b then a else b }

  /** `abs` and `fabs`. */
  function AbsInt(x: int): int { if x < 0 then -x else x }

  function MinInt(a: int, b: int): int { if a <= b then a else b }

  function AbsReal(x: real): real { if x < 0.0 then -x else x }

  function Dot(x1: real, y1: real, x2: real, y2: real): real { x1 * x2 + y1 * y2 }

  /** Square of the 2-d vector norm. */
  function NormSq(x: real, y: real): (r: real)
    ensures r >= 0.0
    ensures x == 0.0 && y == 0.0 ==> r == 0.0
  {
    SquareNonNegative(x);
    SquareNonNegative(y);
    x * x + y * y
  }

  lemma SquareNonNegative(x: real)
    ensures x * x >= 0.0
  {
    if x < 0.0 {
      assert x * x == (-x) * (-x);
      assert (-x) * (-x) > 0.0;
    } else if x > 0.0 {
      assert x * x > 0.0;
    }
  }

  /** Square of the Euclidean distance from (x1, y1) to (x2, y2). */
  function DistanceSq(x1: real, y1: real, x2: real, y2: real): real
  {
    NormSq(x2 - x1, y2 - y1)
  }

  lemma DegRadRoundTrip(x: real)
    ensures Rad2Deg(Deg2Rad(x)) == x
    ensures Deg2Rad(Rad2Deg(x)) == x
  {}

  lemma SpeedRoundTrip(x: real)
    ensures Mps2Mph(Mph2Mps(x)) == x
    ensures Mph2Mps(Mps2Mph(x)) == x
  {}

  lemma DistanceRoundTrip(x: real)
    ensures Meters2Miles(Miles2Meters(x)) == x
    ensures Miles2Meters(Meters2Miles(x)) == x
  {}

  /** Converting speeds preserves their order, and the default 50 mph limit is 22.352 m/s. */
  lemma Mph2MpsMonotone(a: real, b: real)
    ensures a <= b ==> Mph2Mps(a) <= Mph2Mps(b)
    ensures a < b ==> Mph2Mps(a) < Mph2Mps(b)
    ensures Mph2Mps(50.0) == 22.352
  {}

  /** The dot product is symmetric and linear in each argument. */
  lemma DotSymmetricBilinear(x1: real, y1: real, x2: real, y2: real, x3: real, y3: real, k: real)
    ensures Dot(x1, y1, x2, y2) == Dot(x2, y2, x1, y1)
    ensures Dot(x1 + x3, y1 + y3, x2, y2) == Dot(x1, y1, x2, y2) + Dot(x3, y3, x2, y2)
    ensures Dot(k * x1, k * y1, x2, y2) == k * Dot(x1, y1, x2, y2)
  {}

  /** Distance is the norm of the difference vector: symmetric, non-negative, and zero on equal points. */
  lemma DistanceProperties(x1: real, y1: real, x2: real, y2: real)
    ensures DistanceSq(x1, y1, x2, y2) == DistanceSq(x2, y2, x1, y1)
    ensures DistanceSq(x1, y1, x2, y2) >= 0.0
    ensures x1 == x2 && y1 == y2 ==> DistanceSq(x1, y1, x2, y2) == 0.0
  {
    assert NormSq(x2 - x1, y2 - y1) == NormSq(x1 - x2, y1 - y2);
  }
}
