/**
 Worked examples of the filter on concrete keyframes.
 */
module Scenarios {
  import opened AngleMath
  import opened Euler
  import opened EulerFiltering
  import opened Sorting
  import opened FCurves

  /**
   Previous triple (0, 0, 0), next input (0, pi - 0.01, 0), mode "XYZ": the
   flipped candidate is (pi, 0.01, pi), at distance 2 pi + 0.01, which is
   farther than the unflipped one at pi - 0.01, so the input is kept as is.
   */
  lemma NearGimbalKeepsInput()
    ensures Step(Euler(0.0, 0.0, 0.0), Euler(0.0, PI - 0.01, 0.0), "XYZ") == Euler(0.0, PI - 0.01, 0.0)
  {
    var prev := Euler(0.0, 0.0, 0.0);
    var cur := Euler(0.0, PI - 0.01, 0.0);
    assert Unwrap(prev, cur) == cur;
    var fe := FlipEuler(cur, "XYZ");
    assert fe == Euler(PI, 0.01, PI);
    assert Unwrap(prev, fe) == fe;
  }

  /** From 3.0 the seam-crossing input -3.1 is moved up by a whole turn, and its flip is farther. */
  lemma SeamFirstStep()
    ensures Step(Euler(3.0, 0.0, 0.0), Euler(-3.1, 0.0, 0.0), "XYZ") == Euler(-3.1 + TWO_PI, 0.0, 0.0)
  {
    var k0 := Euler(3.0, 0.0, 0.0);
    var u1 := Euler(-3.1 + TWO_PI, 0.0, 0.0);
    assert NaiveFlipDiff(3.0, -3.1 + TWO_PI) == -3.1 + TWO_PI;
    assert NaiveFlipDiff(3.0, -3.1) == -3.1 + TWO_PI;
    assert Unwrap(k0, Euler(-3.1, 0.0, 0.0)) == u1;
    assert FlipEuler(u1, "XYZ") == Euler(-3.1 + TWO_PI + PI, PI, PI);
  }

  /** From -3.1 + 2 pi the input 3.0 is already within pi and is kept. */
  lemma SeamSecondStep()
    ensures Step(Euler(-3.1 + TWO_PI, 0.0, 0.0), Euler(3.0, 0.0, 0.0), "XYZ") == Euler(3.0, 0.0, 0.0)
  {
    var u1 := Euler(-3.1 + TWO_PI, 0.0, 0.0);
    var k0 := Euler(3.0, 0.0, 0.0);
    assert Unwrap(u1, k0) == k0;
    assert FlipEuler(k0, "XYZ") == Euler(3.0 + PI, PI, PI);
  }

  /**
   X angles 3.0, -3.1, 3.0 (crossing the -pi/pi seam twice): the middle one
   is moved up by a whole turn, and the others are kept.
   */
  lemma SeamCrossingUnwrapped()
    ensures
      var kfs := [Keyframe(1, Euler(3.0, 0.0, 0.0)), Keyframe(2, Euler(-3.1, 0.0, 0.0)), Keyframe(3, Euler(3.0, 0.0, 0.0))];
      EulerFilter(kfs, "XYZ")
        == [Keyframe(1, Euler(3.0, 0.0, 0.0)), Keyframe(2, Euler(-3.1 + TWO_PI, 0.0, 0.0)), Keyframe(3, Euler(3.0, 0.0, 0.0))]
  {
    SeamFirstStep();
    SeamSecondStep();
    var k0 := Euler(3.0, 0.0, 0.0);
    var u1 := Euler(-3.1 + TWO_PI, 0.0, 0.0);
    var last := [Keyframe(3, k0)];
    assert FilterFrom(u1, last, "XYZ") == last;
    var tail := [Keyframe(2, Euler(-3.1, 0.0, 0.0))] + last;
    assert tail[1..] == last;
    assert FilterFrom(k0, tail, "XYZ") == [Keyframe(2, u1)] + last;
  }

  /** Two curves with the same array index keep their order when sorted by index, as with `sorted`. */
  lemma SortKeepsTiedCurves()
    ensures
      var a := FCurve(true, "a.rotation_euler", 0, []);
      var b := FCurve(true, "b.rotation_euler", 0, []);
      SortBy([a, b], IndexKey) == [a, b]
  {
    var a := FCurve(true, "a.rotation_euler", 0, []);
    var b := FCurve(true, "b.rotation_euler", 0, []);
    assert SortBy([b], IndexKey) == [b];
    assert [a, b][1..] == [b];
  }
}
