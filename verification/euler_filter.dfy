/**
 The Euler filter pass: walk the keyframes in order, carrying the last emitted
 triple, and rewrite each triple to whichever of its unwrapped form and its
 flipped-and-unwrapped form lies closer to that previous triple.
 */
module EulerFiltering {
  import opened AngleMath
  import opened Euler

  /** A keyframe: a key (the frame number) and its rotation triple. */
  datatype Keyframe<K> = Keyframe(key: K, rotation: Euler)

  /**
   One iteration of the loop body (lines 100-116 of `euler_filter.py`): the
   candidate `e` is `cur` unwrapped against `prev`, the alternative `fe` is
   the flip of `e` unwrapped against `prev`, and `fe` is taken only when it is
   strictly closer to `prev` than `e`.
   */
  function Step(prev: Euler, cur: Euler, mode: string): (r: Euler)
    requires AxisLetters(mode)
    ensures WithinHalfTurn(prev, r)
    ensures EulerDistance(prev, r) <= EulerDistance(prev, Unwrap(prev, cur))
    ensures r != Unwrap(prev, cur) ==> EulerDistance(prev, r) < EulerDistance(prev, Unwrap(prev, cur))
    ensures EulerCongruent(cur, r) || EulerCongruent(FlipEuler(cur, mode), r)
  {
    var e := Unwrap(prev, cur);
    var fe := Unwrap(prev, FlipEuler(e, mode));
    if EulerDistance(prev, fe) < EulerDistance(prev, e) then
      FlipEulerCongruent(cur, e, mode);
      EulerCongruentTrans(FlipEuler(cur, mode), FlipEuler(e, mode), fe);
      fe
    else
      e
  }

  /**
   The step picks a closest candidate: no triple that denotes the input or
   its flip (up to whole turns per axis) is strictly closer to `prev` than
   the triple the step chooses.
   */
  lemma StepClosest(prev: Euler, cur: Euler, mode: string, b: Euler)
    requires AxisLetters(mode)
    requires EulerCongruent(cur, b) || EulerCongruent(FlipEuler(cur, mode), b)
    ensures EulerDistance(prev, Step(prev, cur, mode)) <= EulerDistance(prev, b)
  {
    var e := Unwrap(prev, cur);
    var fe := Unwrap(prev, FlipEuler(e, mode));
    if EulerCongruent(cur, b) {
      UnwrapClosest(prev, cur, b);
    } else {
      FlipEulerCongruent(cur, e, mode);
      EulerCongruentSymm(FlipEuler(cur, mode), FlipEuler(e, mode));
      EulerCongruentTrans(FlipEuler(e, mode), FlipEuler(cur, mode), b);
      UnwrapClosest(prev, FlipEuler(e, mode), b);
    }
  }

  /** The keys of a keyframe sequence, in order. */
  function Keys<K>(kfs: seq<Keyframe<K>>): (ks: seq<K>)
    ensures |ks| == |kfs|
    ensures forall i :: 0 <= i < |kfs| ==> ks[i] == kfs[i].key
  {
    if |kfs| == 0 then [] else [kfs[0].key] + Keys(kfs[1..])
  }

  /** The loop step for a fixed rotation mode, as a function of the previous and the current triple. */
  function StepFor(mode: string): (Euler, Euler) -> Euler
    requires AxisLetters(mode)
  {
    (prev, cur) => Step(prev, cur, mode)
  }

  /**
   `out` is what a pass with `step` emits for `kfs` after `prev`: same keys,
   and each rotation is the step from the rotation emitted just before it.
   */
  ghost predicate FollowsFrom<K>(prev: Euler, kfs: seq<Keyframe<K>>, out: seq<Keyframe<K>>, step: (Euler, Euler) -> Euler) {
    && |out| == |kfs|
    && (forall i :: 0 <= i < |out| ==> out[i].key == kfs[i].key)
    && (|out| > 0 ==> out[0].rotation == step(prev, kfs[0].rotation))
    && (forall i :: 0 < i < |out| ==> out[i].rotation == step(out[i - 1].rotation, kfs[i].rotation))
  }

  /** The fold behind the loop: filter `kfs`, the previously emitted triple being `prev`. */
  function FilterFrom<K>(prev: Euler, kfs: seq<Keyframe<K>>, mode: string): (out: seq<Keyframe<K>>)
    requires AxisLetters(mode)
    ensures FollowsFrom(prev, kfs, out, StepFor(mode))
    decreases |kfs|
  {
    if |kfs| == 0 then []
    else
      var e := Step(prev, kfs[0].rotation, mode);
      var rest := FilterFrom(e, kfs[1..], mode);
      FollowsFromCons(prev, kfs[0], kfs[1..], rest, StepFor(mode));
      assert [kfs[0]] + kfs[1..] == kfs;
      [Keyframe(kfs[0].key, e)] + rest
  }

  /** Emitting the first step in front of what follows from it gives what follows from `prev`. */
  lemma FollowsFromCons<K>(prev: Euler, k: Keyframe<K>, kfs: seq<Keyframe<K>>, out: seq<Keyframe<K>>, step: (Euler, Euler) -> Euler)
    requires FollowsFrom(step(prev, k.rotation), kfs, out, step)
    ensures FollowsFrom(prev, [k] + kfs, [Keyframe(k.key, step(prev, k.rotation))] + out, step)
  {
  }

  /** Two sequences that follow `prev` step by step agree up to position `i`. */
  lemma {:induction false} FollowsFromAgree<K>(prev: Euler, kfs: seq<Keyframe<K>>, a: seq<Keyframe<K>>, b: seq<Keyframe<K>>, step: (Euler, Euler) -> Euler, i: nat)
    requires FollowsFrom(prev, kfs, a, step) && FollowsFrom(prev, kfs, b, step)
    requires i < |kfs|
    ensures a[i] == b[i]
  {
    if i > 0 {
      FollowsFromAgree(prev, kfs, a, b, step, i - 1);
      assert a[i].rotation == step(a[i - 1].rotation, kfs[i].rotation);
    }
  }

  /** A sequence that follows `prev` step by step is uniquely determined. */
  lemma FollowsFromUnique<K>(prev: Euler, kfs: seq<Keyframe<K>>, a: seq<Keyframe<K>>, b: seq<Keyframe<K>>, step: (Euler, Euler) -> Euler)
    requires FollowsFrom(prev, kfs, a, step) && FollowsFrom(prev, kfs, b, step)
    ensures a == b
  {
    forall i | 0 <= i < |kfs|
      ensures a[i] == b[i]
    {
      FollowsFromAgree(prev, kfs, a, b, step, i);
    }
  }

  /** Emitting one more step keeps a sequence following `prev`. */
  lemma FollowsFromSnoc<K>(prev: Euler, kfs: seq<Keyframe<K>>, out: seq<Keyframe<K>>, k: Keyframe<K>, step: (Euler, Euler) -> Euler)
    requires FollowsFrom(prev, kfs, out, step)
    ensures
      var last := if |out| == 0 then prev else out[|out| - 1].rotation;
      FollowsFrom(prev, kfs + [k], out + [Keyframe(k.key, step(last, k.rotation))], step)
  {
  }

  /** The rotation mode the filter needs: anything at all when there is
      nothing to compare, otherwise one whose first three letters are axes. */
  predicate FilterMode<K>(kfs: seq<Keyframe<K>>, mode: string) {
    |kfs| <= 1 || AxisLetters(mode)
  }

  /**
   `euler_filter` of `euler_filter.py`. Short inputs come back unchanged. Otherwise
   the first keyframe is kept, and every later keyframe keeps its key while
   its rotation becomes the loop step from the previously emitted rotation.
   */
  function EulerFilter<K>(kfs: seq<Keyframe<K>>, mode: string): (out: seq<Keyframe<K>>)
    requires FilterMode(kfs, mode)
    ensures |kfs| <= 1 ==> out == kfs
    ensures |out| == |kfs|
    ensures Keys(out) == Keys(kfs)
    ensures |kfs| >= 1 ==> out[0] == kfs[0]
    ensures |kfs| >= 2 ==> FollowsFrom(kfs[0].rotation, kfs[1..], out[1..], StepFor(mode))
  {
    if |kfs| <= 1 then kfs
    else [kfs[0]] + FilterFrom(kfs[0].rotation, kfs[1..], mode)
  }

  /**
   Every emitted rotation after the first lies within pi of the one before it
   on every axis, is no farther from it than the plain unwrapped candidate
   (strictly closer whenever it differs from that candidate), denotes the
   input rotation or its flip up to whole turns per axis, and is no farther
   from the one before it than any other triple that denotes the input
   rotation or its flip.
   */
  lemma EulerFilterSteps<K>(kfs: seq<Keyframe<K>>, mode: string, i: int)
    requires FilterMode(kfs, mode)
    requires 1 <= i < |kfs|
    ensures WithinHalfTurn(EulerFilter(kfs, mode)[i - 1].rotation, EulerFilter(kfs, mode)[i].rotation)
    ensures
      var prev := EulerFilter(kfs, mode)[i - 1].rotation;
      var cand := Unwrap(prev, kfs[i].rotation);
      var out := EulerFilter(kfs, mode)[i].rotation;
      && EulerDistance(prev, out) <= EulerDistance(prev, cand)
      && (out != cand ==> EulerDistance(prev, out) < EulerDistance(prev, cand))
    ensures EulerCongruent(kfs[i].rotation, EulerFilter(kfs, mode)[i].rotation)
         || EulerCongruent(FlipEuler(kfs[i].rotation, mode), EulerFilter(kfs, mode)[i].rotation)
    ensures forall b :: EulerCongruent(kfs[i].rotation, b) || EulerCongruent(FlipEuler(kfs[i].rotation, mode), b) ==>
      EulerDistance(EulerFilter(kfs, mode)[i - 1].rotation, EulerFilter(kfs, mode)[i].rotation)
        <= EulerDistance(EulerFilter(kfs, mode)[i - 1].rotation, b)
  {
    var out := EulerFilter(kfs, mode);
    assert FollowsFrom(kfs[0].rotation, kfs[1..], out[1..], StepFor(mode));
    if i == 1 {
      assert out[1].rotation == Step(out[0].rotation, kfs[1].rotation, mode);
    } else {
      assert out[1..][i - 1].rotation == Step(out[1..][i - 2].rotation, kfs[1..][i - 1].rotation, mode);
    }
    forall b | EulerCongruent(kfs[i].rotation, b) || EulerCongruent(FlipEuler(kfs[i].rotation, mode), b)
      ensures EulerDistance(out[i - 1].rotation, out[i].rotation) <= EulerDistance(out[i - 1].rotation, b)
    {
      StepClosest(out[i - 1].rotation, kfs[i].rotation, mode, b);
    }
  }

  /** What the loop of `euler_filter` has built after handling keyframes 0 .. i-1. */
  ghost predicate Built<K>(kfs: seq<Keyframe<K>>, ret: seq<Keyframe<K>>, i: nat, step: (Euler, Euler) -> Euler) {
    && 1 <= i <= |kfs|
    && |ret| == i
    && ret[0] == kfs[0]
    && FollowsFrom(kfs[0].rotation, kfs[1..i], ret[1..], step)
  }

  /** One iteration of the loop extends what has been built by one step. */
  lemma BuiltStep<K>(kfs: seq<Keyframe<K>>, ret: seq<Keyframe<K>>, i: nat, step: (Euler, Euler) -> Euler)
    requires Built(kfs, ret, i, step) && i < |kfs|
    ensures Built(kfs, ret + [Keyframe(kfs[i].key, step(ret[i - 1].rotation, kfs[i].rotation))], i + 1, step)
  {
    var k := Keyframe(kfs[i].key, step(ret[i - 1].rotation, kfs[i].rotation));
    FollowsFromSnoc(kfs[0].rotation, kfs[1..i], ret[1..], kfs[i], step);
    assert kfs[1..i] + [kfs[i]] == kfs[1..i + 1];
    assert (ret + [k])[1..] == ret[1..] + [k];
  }

  /** Once every keyframe is handled, what has been built is the filter's output. */
  lemma BuiltAll<K>(kfs: seq<Keyframe<K>>, ret: seq<Keyframe<K>>, mode: string)
    requires AxisLetters(mode)
    requires Built(kfs, ret, |kfs|, StepFor(mode))
    ensures ret == EulerFilter(kfs, mode)
  {
    assert kfs[1..|kfs|] == kfs[1..];
    if |kfs| >= 2 {
      FollowsFromUnique(kfs[0].rotation, kfs[1..], ret[1..], EulerFilter(kfs, mode)[1..], StepFor(mode));
      assert ret == [ret[0]] + ret[1..];
    }
  }

  /**
   The loop of lines 94-119 as written, with `prev` and the growing result
   list, computes the same sequence as the fold.
   */
  method EulerFilterLoop<K>(kfs: seq<Keyframe<K>>, mode: string) returns (ret: seq<Keyframe<K>>)
    requires FilterMode(kfs, mode)
    ensures ret == EulerFilter(kfs, mode)
  {
    if |kfs| <= 1 {
      return kfs;
    }
    var prev := kfs[0].rotation;
    ret := [Keyframe(kfs[0].key, prev)];
    var i := 1;
    while i < |kfs|
      invariant Built(kfs, ret, i, StepFor(mode))
      invariant prev == ret[i - 1].rotation
      decreases |kfs| - i
    {
      var e := Step(prev, kfs[i].rotation, mode);
      BuiltStep(kfs, ret, i, StepFor(mode));
      prev := e;
      ret := ret + [Keyframe(kfs[i].key, e)];
      i := i + 1;
    }
    BuiltAll(kfs, ret, mode);
  }
}
