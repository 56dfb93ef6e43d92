/**
 Scalar angle helpers of the Euler filter: unit conversion, wrapping an angle
 into [-pi, pi), and the iterative "shortest continuation" unwrap that moves an
 angle by whole turns until it lies within pi of a reference angle.

 All arithmetic is over exact reals; pi is the decimal value of the host
 language's `math.pi`.
 */
module AngleMath {

  /** The value of `math.pi` as printed by the host language. */
  const PI: real := 3.141592653589793

  /** One full turn. */
  const TWO_PI: real := 2.0 * PI

  function Abs(x: real): real {
    if x < 0.0 then -x else x
  }

  /** `a` moved by `k` whole turns. */
  function Shift(a: real, k: int): real {
    a + k as real * TWO_PI
  }

  /** `b` and `a` denote the same angle: they differ by a whole number of turns. */
  ghost predicate Congruent(a: real, b: real) {
    exists k: int :: b == Shift(a, k)
  }

  lemma CongruentRefl(a: real)
    ensures Congruent(a, a)
  {
    assert a == Shift(a, 0);
  }

  lemma CongruentSymm(a: real, b: real)
    requires Congruent(a, b)
    ensures Congruent(b, a)
  {
    var k: int :| b == Shift(a, k);
    assert a == Shift(b, -k);
  }

  lemma CongruentTrans(a: real, b: real, c: real)
    requires Congruent(a, b) && Congruent(b, c)
    ensures Congruent(a, c)
  {
    var k: int :| b == Shift(a, k);
    var j: int :| c == Shift(b, j);
    assert c == Shift(a, k + j);
  }

  /** Adding the same offset to both sides keeps two angles congruent. */
  lemma CongruentAdd(a: real, b: real, d: real)
    requires Congruent(a, b)
    ensures Congruent(a + d, b + d)
  {
    var k: int :| b == Shift(a, k);
    assert b + d == Shift(a + d, k);
  }

  /** Negating both sides keeps two angles congruent. */
  lemma CongruentNeg(a: real, b: real)
    requires Congruent(a, b)
    ensures Congruent(-a, -b)
  {
    var k: int :| b == Shift(a, k);
    assert -b == Shift(-a, -k);
  }

  /** Converts an angle given in degrees to radians (`degrees` in `euler_filter.py`). */
  function Degrees(a: real): (r: real)
    ensures a == 180.0 ==> r == PI
    ensures a == 360.0 ==> r == TWO_PI
  {
    a / 360.0 * 2.0 * PI
  }

  /** Converts an angle given in radians back to degrees (`r` in `euler_filter.py`). */
  function R(a: real): (r: real)
    ensures a == PI ==> r == 180.0
    ensures a == TWO_PI ==> r == 360.0
  {
    a / (2.0 * PI) * 360.0
  }

  /** The two conversions undo each other, in both directions. */
  lemma DegreesRoundTrip(a: real)
    ensures R(Degrees(a)) == a
    ensures Degrees(R(a)) == a
  {
  }

  lemma MulPos(a: real, m: real)
    requires a > 0.0 && m > 0.0
    ensures a * m > 0.0
  {
  }

  /** The floor of `x / m` counts the whole multiples of `m` that fit below `x`. */
  lemma FloorDivBounds(x: real, m: real)
    requires m > 0.0
    ensures (x / m).Floor as real * m <= x < (x / m).Floor as real * m + m
  {
    var q := (x / m).Floor as real;
    var y := x / m;
    assert y * m == x;
    MulPos(q + 1.0 - y, m);
    assert (q + 1.0 - y) * m == q * m + m - y * m;
    assert x < q * m + m;
    if q < y {
      MulPos(y - q, m);
      assert (y - q) * m == y * m - q * m;
    }
  }

  /** `k` copies of `m`. */
  function Times(k: int, m: real): real {
    k as real * m
  }

  /**
   The remainder of a floored division, as Python's `%` computes it for
   m > 0: it lies in [0, m) and differs from `x` by a whole multiple of `m`.
   */
  function FloorMod(x: real, m: real): (r: real)
    requires m > 0.0
    ensures 0.0 <= r < m
    ensures exists k: int :: x == Times(k, m) + r
  {
    FloorDivBounds(x, m);
    var q := (x / m).Floor;
    assert x == Times(q, m) + (x - q as real * m);
    x - q as real * m
  }

  /** Maps an angle into the half-open range [-pi, pi) by removing whole turns. */
  function WrapAngle(a: real): (r: real)
    ensures -PI <= r < PI
    ensures Congruent(a, r)
  {
    var q := ((a + PI) / TWO_PI).Floor;
    assert FloorMod(a + PI, TWO_PI) - PI == Shift(a, -q);
    FloorMod(a + PI, TWO_PI) - PI
  }

  /** An angle congruent to `a` that already lies in [-pi, pi) is the wrapped value of `a`. */
  lemma WrapAngleUnique(a: real, b: real)
    requires Congruent(a, b)
    requires -PI <= b < PI
    ensures WrapAngle(a) == b
  {
    var w := WrapAngle(a);
    CongruentSymm(a, w);
    CongruentTrans(w, a, b);
    var k: int :| b == Shift(w, k);
  }

  /** Wrapping is idempotent. */
  lemma WrapAngleIdempotent(a: real)
    ensures WrapAngle(WrapAngle(a)) == WrapAngle(a)
  {
    var w := WrapAngle(a);
    CongruentRefl(w);
    WrapAngleUnique(w, w);
  }

  /** Each unwrap step strictly lowers the number of half turns between the two angles. */
  lemma UnwrapStepDecreases(d: real)
    requires d > PI
    ensures 0 <= (Abs(d - TWO_PI) / PI).Floor < (d / PI).Floor
  {
    if d >= TWO_PI {
      assert Abs(d - TWO_PI) / PI == d / PI - 2.0;
    } else {
      assert Abs(d - TWO_PI) / PI < 1.0;
      assert d / PI > 1.0;
    }
  }

  /**
   `naive_flip_diff(a1, a2)` of `euler_filter.py`: while `a2` is more than pi
   away from `a1`, move it one whole turn towards `a1`. The result is `a2`
   moved by whole turns, lies within pi of `a1`, and is `a2` itself when `a2`
   was already within pi (a distance of exactly pi stops the loop). When the
   result ends up exactly pi away, it is on the side `a2` started from: an
   `a2` above `a1` never comes down to `a1 - pi`, and one below never goes up
   to `a1 + pi`.
   */
  function NaiveFlipDiff(a1: real, a2: real): (r: real)
    ensures Congruent(a2, r)
    ensures Abs(a1 - r) <= PI
    ensures Abs(a1 - a2) <= PI ==> r == a2
    ensures a1 < a2 ==> a1 - PI < r
    ensures a2 < a1 ==> r < a1 + PI
    decreases (Abs(a1 - a2) / PI).Floor
  {
    if Abs(a1 - a2) <= PI then
      CongruentRefl(a2);
      a2
    else if a1 < a2 then
      UnwrapStepDecreases(Abs(a1 - a2));
      assert Abs(a1 - (a2 - TWO_PI)) == Abs(Abs(a1 - a2) - TWO_PI);
      var r := NaiveFlipDiff(a1, a2 - TWO_PI);
      assert a2 - TWO_PI == Shift(a2, -1);
      CongruentTrans(a2, a2 - TWO_PI, r);
      r
    else
      UnwrapStepDecreases(Abs(a1 - a2));
      assert Abs(a1 - (a2 + TWO_PI)) == Abs(Abs(a1 - a2) - TWO_PI);
      var r := NaiveFlipDiff(a1, a2 + TWO_PI);
      assert a2 + TWO_PI == Shift(a2, 1);
      CongruentTrans(a2, a2 + TWO_PI, r);
      r
  }

  /**
   The unwrapped angle is a closest representative: no angle congruent to `a2`
   is strictly nearer to `a1`.
   */
  lemma NaiveFlipDiffClosest(a1: real, a2: real, b: real)
    requires Congruent(a2, b)
    ensures Abs(a1 - NaiveFlipDiff(a1, a2)) <= Abs(a1 - b)
  {
    var r := NaiveFlipDiff(a1, a2);
    CongruentSymm(a2, r);
    CongruentTrans(r, a2, b);
    var k: int :| b == Shift(r, k);
    if k > 0 {
      assert k as real * TWO_PI >= TWO_PI;
    } else if k < 0 {
      assert k as real * TWO_PI <= -TWO_PI;
    }
  }
}
