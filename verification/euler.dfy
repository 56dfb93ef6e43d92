/**
 Euler-angle triples: axis lookup from a rotation-mode letter, the flip to the
 equivalent "other" triple, the L1 distance used to compare candidates, and
 the per-axis unwrap of a triple against a reference triple.
 */
module Euler {
  import opened AngleMath
  import opened Wrappers

  /** An (x, y, z) angle triple in radians. Values are immutable, so every
      operation that "modifies" a triple returns a new one. */
  datatype Euler = Euler(x: real, y: real, z: real)

  /** A position 0, 1, 2 in a triple. */
  type AxisIndex = i: nat | i < 3

  /** The angle stored at position `i`. */
  function Get(e: Euler, i: AxisIndex): real {
    match i
    case 0 => e.x
    case 1 => e.y
    case 2 => e.z
  }

  /** `e` with the angle at position `i` replaced by `v`. */
  function Set(e: Euler, i: AxisIndex, v: real): (r: Euler)
    ensures Get(r, i) == v
    ensures forall j: AxisIndex :: j != i ==> Get(r, j) == Get(e, j)
  {
    match i
    case 0 => e.(x := v)
    case 1 => e.(y := v)
    case 2 => e.(z := v)
  }

  /** `euler_axis_index` of `euler_filter.py`: the position of an axis letter,
      or `None` for any other character. */
  function EulerAxisIndex(c: char): (r: Option<AxisIndex>)
    ensures r.Some? <==> c in "XYZ"
    ensures r.Some? ==> "XYZ"[r.value] == c
  {
    if c == 'X' then Some(0)
    else if c == 'Y' then Some(1)
    else if c == 'Z' then Some(2)
    else None
  }

  /** The first three letters of a rotation mode name axes, which is all
      `flip_euler` needs in order not to fail. */
  predicate AxisLetters(mode: string) {
    |mode| >= 3 && mode[0] in "XYZ" && mode[1] in "XYZ" && mode[2] in "XYZ"
  }

  /** A rotation mode that is a permutation of X, Y and Z ("XYZ", "ZXY", ...). */
  predicate ValidMode(mode: string) {
    |mode| == 3 && AxisLetters(mode)
    && mode[0] != mode[1] && mode[1] != mode[2] && mode[0] != mode[2]
  }

  /** Position of the axis named by an axis letter. */
  function AxisOf(c: char): AxisIndex
    requires c in "XYZ"
  {
    EulerAxisIndex(c).value
  }

  /** Distinct letters of a valid mode name distinct axes, and they cover all three positions. */
  lemma ValidModeAxes(mode: string, j: AxisIndex)
    requires ValidMode(mode)
    ensures AxisOf(mode[0]) != AxisOf(mode[1])
    ensures AxisOf(mode[1]) != AxisOf(mode[2])
    ensures AxisOf(mode[0]) != AxisOf(mode[2])
    ensures j == AxisOf(mode[0]) || j == AxisOf(mode[1]) || j == AxisOf(mode[2])
  {
  }

  /**
   The flip with the inner, middle and outer axes given by position: add pi
   to the inner axis, add pi to the outer axis, then negate the middle axis
   and add pi to it, each update applied to the result of the one before.
   */
  function FlipAxes(e: Euler, inner: AxisIndex, middle: AxisIndex, outer: AxisIndex): Euler {
    var e1 := Set(e, inner, Get(e, inner) + PI);
    var e2 := Set(e1, outer, Get(e1, outer) + PI);
    var e3 := Set(e2, middle, Get(e2, middle) * -1.0);
    Set(e3, middle, Get(e3, middle) + PI)
  }

  /**
   `flip_euler` of `euler_filter.py`: the inner, middle and outer axes are
   named by the first three letters of the rotation mode. The updates are
   applied one after the other on a copy, exactly as `flip_euler` does, so a
   mode with a repeated letter gets the combined effect.
   */
  function FlipEuler(e: Euler, mode: string): (r: Euler)
    requires AxisLetters(mode)
    ensures ValidMode(mode) ==>
      && Get(r, AxisOf(mode[0])) == Get(e, AxisOf(mode[0])) + PI
      && Get(r, AxisOf(mode[1])) == PI - Get(e, AxisOf(mode[1]))
      && Get(r, AxisOf(mode[2])) == Get(e, AxisOf(mode[2])) + PI
  {
    FlipAxes(e, AxisOf(mode[0]), AxisOf(mode[1]), AxisOf(mode[2]))
  }

  /** Two triples denote the same angles on every axis, up to whole turns. */
  ghost predicate EulerCongruent(a: Euler, b: Euler) {
    Congruent(a.x, b.x) && Congruent(a.y, b.y) && Congruent(a.z, b.z)
  }

  lemma EulerCongruentRefl(a: Euler)
    ensures EulerCongruent(a, a)
  {
    CongruentRefl(a.x);
    CongruentRefl(a.y);
    CongruentRefl(a.z);
  }

  lemma EulerCongruentSymm(a: Euler, b: Euler)
    requires EulerCongruent(a, b)
    ensures EulerCongruent(b, a)
  {
    CongruentSymm(a.x, b.x);
    CongruentSymm(a.y, b.y);
    CongruentSymm(a.z, b.z);
  }

  lemma EulerCongruentTrans(a: Euler, b: Euler, c: Euler)
    requires EulerCongruent(a, b) && EulerCongruent(b, c)
    ensures EulerCongruent(a, c)
  {
    CongruentTrans(a.x, b.x, c.x);
    CongruentTrans(a.y, b.y, c.y);
    CongruentTrans(a.z, b.z, c.z);
  }

  /** Replacing the same axis of two congruent triples by congruent values keeps them congruent. */
  lemma SetCongruent(a: Euler, b: Euler, i: AxisIndex, u: real, v: real)
    requires EulerCongruent(a, b) && Congruent(u, v)
    ensures EulerCongruent(Set(a, i, u), Set(b, i, v))
  {
  }

  /** Adding the same offset to one axis of two congruent triples keeps them congruent. */
  lemma AddAxisCongruent(a: Euler, b: Euler, i: AxisIndex, d: real)
    requires EulerCongruent(a, b)
    ensures EulerCongruent(Set(a, i, Get(a, i) + d), Set(b, i, Get(b, i) + d))
  {
    CongruentAdd(Get(a, i), Get(b, i), d);
    SetCongruent(a, b, i, Get(a, i) + d, Get(b, i) + d);
  }

  /** Negating one axis of two congruent triples keeps them congruent. */
  lemma NegAxisCongruent(a: Euler, b: Euler, i: AxisIndex)
    requires EulerCongruent(a, b)
    ensures EulerCongruent(Set(a, i, Get(a, i) * -1.0), Set(b, i, Get(b, i) * -1.0))
  {
    CongruentNeg(Get(a, i), Get(b, i));
    SetCongruent(a, b, i, Get(a, i) * -1.0, Get(b, i) * -1.0);
  }

  /** Flipping by position respects congruence. */
  lemma FlipAxesCongruent(a: Euler, b: Euler, inner: AxisIndex, middle: AxisIndex, outer: AxisIndex)
    requires EulerCongruent(a, b)
    ensures EulerCongruent(FlipAxes(a, inner, middle, outer), FlipAxes(b, inner, middle, outer))
  {
    AddAxisCongruent(a, b, inner, PI);
    var a1 := Set(a, inner, Get(a, inner) + PI);
    var b1 := Set(b, inner, Get(b, inner) + PI);
    AddAxisCongruent(a1, b1, outer, PI);
    var a2 := Set(a1, outer, Get(a1, outer) + PI);
    var b2 := Set(b1, outer, Get(b1, outer) + PI);
    NegAxisCongruent(a2, b2, middle);
    var a3 := Set(a2, middle, Get(a2, middle) * -1.0);
    var b3 := Set(b2, middle, Get(b2, middle) * -1.0);
    AddAxisCongruent(a3, b3, middle, PI);
  }

  /** Flipping respects congruence: flipping two congruent triples gives congruent triples. */
  lemma FlipEulerCongruent(a: Euler, b: Euler, mode: string)
    requires AxisLetters(mode)
    requires EulerCongruent(a, b)
    ensures EulerCongruent(FlipEuler(a, mode), FlipEuler(b, mode))
  {
    FlipAxesCongruent(a, b, AxisOf(mode[0]), AxisOf(mode[1]), AxisOf(mode[2]));
  }

  /**
   Flipping twice with a valid mode restores the middle axis exactly and
   moves the inner and outer axes by one whole turn, so the result denotes
   the original angles.
   */
  lemma FlipEulerTwice(e: Euler, mode: string)
    requires ValidMode(mode)
    ensures Get(FlipEuler(FlipEuler(e, mode), mode), AxisOf(mode[1])) == Get(e, AxisOf(mode[1]))
    ensures Get(FlipEuler(FlipEuler(e, mode), mode), AxisOf(mode[0])) == Get(e, AxisOf(mode[0])) + TWO_PI
    ensures Get(FlipEuler(FlipEuler(e, mode), mode), AxisOf(mode[2])) == Get(e, AxisOf(mode[2])) + TWO_PI
    ensures EulerCongruent(e, FlipEuler(FlipEuler(e, mode), mode))
  {
    var ff := FlipEuler(FlipEuler(e, mode), mode);
    forall j: AxisIndex
      ensures Congruent(Get(e, j), Get(ff, j))
    {
      ValidModeAxes(mode, j);
      if j == AxisOf(mode[1]) {
        CongruentRefl(Get(e, j));
      } else {
        assert Get(ff, j) == Shift(Get(e, j), 1);
      }
    }
    assert Get(e, 0) == e.x && Get(e, 1) == e.y && Get(e, 2) == e.z;
    assert Get(ff, 0) == ff.x && Get(ff, 1) == ff.y && Get(ff, 2) == ff.z;
  }

  /** `euler_distance` of `euler_filter.py`: the sum of the absolute per-axis differences. */
  function EulerDistance(e1: Euler, e2: Euler): (r: real)
    ensures r >= 0.0
    ensures r == 0.0 <==> e1 == e2
    ensures Abs(e1.x - e2.x) <= r && Abs(e1.y - e2.y) <= r && Abs(e1.z - e2.z) <= r
  {
    Abs(e1.x - e2.x) + Abs(e1.y - e2.y) + Abs(e1.z - e2.z)
  }

  /** The distance does not depend on the order of its arguments. */
  lemma EulerDistanceSymmetric(a: Euler, b: Euler)
    ensures EulerDistance(a, b) == EulerDistance(b, a)
  {
  }

  /** The distance obeys the triangle inequality. */
  lemma EulerDistanceTriangle(a: Euler, b: Euler, c: Euler)
    ensures EulerDistance(a, c) <= EulerDistance(a, b) + EulerDistance(b, c)
  {
  }

  /** Every axis of `e` lies within pi of the same axis of `prev`. */
  predicate WithinHalfTurn(prev: Euler, e: Euler) {
    Abs(prev.x - e.x) <= PI && Abs(prev.y - e.y) <= PI && Abs(prev.z - e.z) <= PI
  }

  /**
   Lines 101-103 (and 106-108) of `euler_filter.py`: `naive_flip_diff`
   applied to each axis of `e` against the same axis of `prev`.
   */
  function Unwrap(prev: Euler, e: Euler): (r: Euler)
    ensures WithinHalfTurn(prev, r)
    ensures EulerCongruent(e, r)
    ensures WithinHalfTurn(prev, e) ==> r == e
  {
    Euler(NaiveFlipDiff(prev.x, e.x), NaiveFlipDiff(prev.y, e.y), NaiveFlipDiff(prev.z, e.z))
  }

  /** A triple no farther than another on every axis is no farther in total. */
  lemma DistanceAxisWise(p: Euler, u: Euler, b: Euler)
    requires Abs(p.x - u.x) <= Abs(p.x - b.x)
    requires Abs(p.y - u.y) <= Abs(p.y - b.y)
    requires Abs(p.z - u.z) <= Abs(p.z - b.z)
    ensures EulerDistance(p, u) <= EulerDistance(p, b)
  {
  }

  /** No triple congruent to `e` is strictly closer to `prev` than its unwrap. */
  lemma UnwrapClosest(prev: Euler, e: Euler, b: Euler)
    requires EulerCongruent(e, b)
    ensures EulerDistance(prev, Unwrap(prev, e)) <= EulerDistance(prev, b)
  {
    NaiveFlipDiffClosest(prev.x, e.x, b.x);
    NaiveFlipDiffClosest(prev.y, e.y, b.y);
    NaiveFlipDiffClosest(prev.z, e.z, b.z);
    DistanceAxisWise(prev, Unwrap(prev, e), b);
  }
}
