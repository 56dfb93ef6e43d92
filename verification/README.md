# Euler filter for Blender rotation keyframes, in Dafny

This project models the Euler filter add-on for Blender (`euler_filter.py`).
The filter takes the selected X, Y and Z `rotation_euler` curves of one bone.
It rewrites every keyframe's angle triple so that the animation does not
jump across the -180/180 degree seam, and does not go through a gimbal "flip".

The model has two parts.

- **The numeric core.**
  - `AngleMath`: unit conversion, `wrap_angle` and the unwrap loop `naive_flip_diff`.
  - `Euler`: the angle triple, `euler_axis_index`, `flip_euler`, `euler_distance`, and the per-axis unwrap of a triple.
  - `EulerFiltering`: `euler_filter` as a left-to-right fold that carries the previously emitted triple. It also contains the loop of `euler_filter` as a method, proved to compute the same result as the fold.
- **The curve selection.**
  - `FCurves`: `split_data_path`, `get_selected_fcu_keyframe_numbers`, `get_selected_rotation_fcurves`, and the check that the three curves are keyframed at the same frames (lines 203-207).
  - Curves, actions and the editor context are plain records.
  - `Sorting` stands in for the host language's `sorted`, and is stable like it.

`Scenarios` holds two worked examples on concrete keyframes.

All numbers are exact reals.
Pi is the decimal value `3.141592653589793` of the host language's `math.pi`.
The general proofs rely on little more than its being positive; the worked examples use its value.
The frame keys of keyframes are a type parameter.
Python's `%` on a positive modulus is the floored remainder (`FloorMod`).

Two crash paths of `euler_filter.py` become preconditions, because the code does not handle them:

- `flip_euler` looks up `rotation_mode[0]`, `[1]` and `[2]` with `euler_axis_index`. A letter other than X, Y or Z gives `None`, and indexing with `None` raises an error. Modes such as `QUATERNION` therefore crash. `FlipEuler` requires that the first three letters are axis letters (`AxisLetters`). `EulerFilter` requires this only when it has at least two keyframes, because shorter inputs return before any flip.
- `split_data_path` on a path without '.' returns one element, so the unpacking at line 169 raises an error. This happens for an object's own (non-bone) `rotation_euler` curve. `GetSelectedRotationFCurves` requires that every selected curve of the action has a '.' in its data path (`SelectionSplittable`).

Behaviour kept exactly as the code has it:

- **Sequential flip updates.** `flip_euler` applies its updates one after another on a copy. A mode with a repeated letter therefore gets the combined effect. The clean description ("add pi to inner and outer, set middle to pi - middle") is stated for modes that are permutations of XYZ (`ValidMode`).
- **Distance of exactly pi.** The unwrap loop stops when the distance is exactly pi (`>` in line 84), so such an angle is left unchanged. An angle that starts above the reference never ends pi below it, and one that starts below never ends pi above it. So a result exactly pi away is always on the side the angle started from.
- **Ties in the choice.** The flipped candidate is taken only when it is strictly closer (line 114). On a tie the unflipped candidate is kept.
- **Near the gimbal angle.** For previous triple (0, 0, 0), input (0, pi - 0.01, 0) and mode "XYZ", the flipped triple is (pi, 0.01, pi). Its distance is 2 pi + 0.01, which is larger than the distance pi - 0.01 of the input, so the input is kept (`Scenarios.NearGimbalKeepsInput`).
- **Empty bone prefix.** The bone check tests `not selected_bone` (line 173). An empty object path is falsy, so it counts as "no bone chosen yet", and a later non-empty path replaces it. A rotation curve with data path `.rotation_euler` followed by curves of bone `b` is therefore accepted. `OneBone` states this rule exactly. When no object path is empty, it means that all curves belong to one bone.

## Model

| member | source | states |
|---|---|---|
| AngleMath.Degrees | euler_filter.py:40-41 | converts degrees to radians: 180 degrees is pi and 360 degrees is a full turn |
| AngleMath.R | euler_filter.py:48-49 | converts radians to degrees: pi is 180 and a full turn is 360 |
| AngleMath.DegreesRoundTrip | euler_filter.py:40-49 | `degrees` and `r` are inverse to each other in both directions |
| AngleMath.FloorMod | euler_filter.py:53 | the `%` of line 53 with a positive modulus yields a value in [0, m) that differs from `x` by a whole multiple of `m` |
| AngleMath.WrapAngle | euler_filter.py:52-53 | the wrapped angle lies in [-pi, pi) and differs from the input by a whole number of turns |
| AngleMath.WrapAngleUnique | euler_filter.py:52-53 | any angle congruent to the input that lies in [-pi, pi) is the wrapped angle, so the wrap is the unique representative |
| AngleMath.WrapAngleIdempotent | euler_filter.py:52-53 | wrapping an already wrapped angle changes nothing |
| AngleMath.UnwrapStepDecreases | euler_filter.py:84-88 | each loop iteration maps a distance d > pi to abs(d - 2 pi) and strictly lowers the number of half turns, so the loop terminates |
| AngleMath.NaiveFlipDiff | euler_filter.py:83-90 | the result is `a2` moved by whole turns and lies within pi of `a1`; if `a2` is already within pi (distance exactly pi included), it is returned unchanged; a result exactly pi away lies on the side `a2` started from, so an `a2` above `a1` never ends at `a1 - pi` and one below never ends at `a1 + pi` |
| AngleMath.NaiveFlipDiffClosest | euler_filter.py:83-90 | no angle congruent to `a2` is strictly closer to `a1` than the result |
| Euler.EulerAxisIndex | euler_filter.py:60-67 | a letter has an index exactly when it is X, Y or Z, and the index names that letter; any other letter gives None |
| Euler.FlipEuler | euler_filter.py:70-80 | for a permutation mode: the inner and outer axes (letters 0 and 2) gain pi and the middle axis (letter 1) becomes pi minus its value |
| Euler.FlipEulerCongruent | euler_filter.py:70-80 | flipping two triples that agree up to whole turns per axis gives triples that again agree up to whole turns, for any mode of axis letters |
| Euler.FlipEulerTwice | euler_filter.py:70-80 | flipping twice restores the middle axis exactly and moves the inner and outer axes by one full turn, so the result is congruent to the original |
| Euler.EulerDistance | euler_filter.py:56-57 | the distance is non-negative, is zero exactly for equal triples, and bounds every per-axis difference |
| Euler.EulerDistanceSymmetric | euler_filter.py:56-57 | the distance does not depend on argument order |
| Euler.EulerDistanceTriangle | euler_filter.py:56-57 | the distance satisfies the triangle inequality |
| Euler.Unwrap | euler_filter.py:101-103 | every axis of the unwrapped triple lies within pi of the reference triple and is congruent to the input axis; a triple already within pi is unchanged |
| Euler.UnwrapClosest | euler_filter.py:101-103 | no triple congruent to the input per axis is strictly closer to the reference than its unwrap |
| EulerFiltering.Step | euler_filter.py:100-116 | the chosen triple lies within pi of the previous one per axis, is no farther than the plain unwrapped candidate, is strictly closer whenever it differs from that candidate (ties keep the candidate), and is congruent to the input or to its flip |
| EulerFiltering.StepClosest | euler_filter.py:100-116 | no triple that denotes the input or its flip up to whole turns per axis is strictly closer to the previous triple than the chosen one |
| EulerFiltering.FilterFrom | euler_filter.py:99-118 | the fold emits one keyframe per input with the same key, each rotation being the step from the rotation emitted just before |
| EulerFiltering.FollowsFromUnique | euler_filter.py:99-118 | the output of the pass is uniquely determined by that step-by-step relation |
| EulerFiltering.EulerFilter | euler_filter.py:93-119 | inputs of length at most 1 come back unchanged; otherwise the output has the same length and keys, starts with the first input keyframe, and follows it step by step |
| EulerFiltering.EulerFilterSteps | euler_filter.py:99-116 | each output rotation after the first lies within pi of the previous output on every axis, is no farther from it than the unwrapped input, is congruent to the input or to its flip, and is no farther from the previous output than any triple congruent to the input or to its flip |
| EulerFiltering.BuiltStep | euler_filter.py:100-118 | one iteration of the loop extends its partial result by exactly one step |
| EulerFiltering.EulerFilterLoop | euler_filter.py:93-119 | the imperative loop with `prev` and the growing list returns exactly the fold's result |
| Scenarios.NearGimbalKeepsInput | euler_filter.py:100-116 | for previous (0, 0, 0) and input (0, pi - 0.01, 0) in mode XYZ, the input is kept because its flip is farther |
| Scenarios.SeamCrossingUnwrapped | euler_filter.py:93-119 | X angles 3.0, -3.1, 3.0 filter to 3.0, -3.1 + 2 pi, 3.0 |
| Sorting.SortBy | euler_filter.py:183 | sorting yields a permutation of the input in ascending key order |
| Sorting.SortByStable | euler_filter.py:183 | the sort is stable like `sorted`: for every key, the elements with that key keep their input order |
| Scenarios.SortKeepsTiedCurves | euler_filter.py:183 | two curves with the same array index come out of the sort in their input order |
| Sorting.SortedUnique | euler_filter.py:204 | two sorted sequences with the same elements are equal |
| FCurves.SplitDataPath | euler_filter.py:125-130 | a path without '.' yields itself alone; otherwise two parts, the second without '.', which joined by '.' give the path back |
| FCurves.RotationCurves | euler_filter.py:165-171 | the kept curves are exactly the selected curves whose property is `rotation_euler` |
| FCurves.OneBoneCons | euler_filter.py:173-176 | the bone check over a list passes exactly when the first curve passes and the rest pass with the updated remembered bone |
| FCurves.CollectRotationCurves | euler_filter.py:162-178 | the loop fails with the single-object message exactly when the rotation curves' object paths break the bone check, and otherwise returns all rotation curves in order |
| FCurves.SortedIndices | euler_filter.py:183-186 | three curves sorted by array index have indices 0, 1, 2 exactly when they cover the three axes |
| FCurves.GetSelectedRotationFCurves | euler_filter.py:145-188 | each missing object, animation data or action gives its own message; otherwise the bone check, then the count of three, then the axis coverage, each with its message; on success the result is the three selected rotation curves, sorted so that curve i animates index i |
| FCurves.GetSelectedFcuKeyframeNumbers | euler_filter.py:23-24 | the result is the frames of the selected points, as a sorted permutation |
| FCurves.CheckKeyframedTogether | euler_filter.py:203-207 | the check passes exactly when the three curves have the same selected frames with the same multiplicities, and otherwise gives the keyframed-together message |

## Left out

- The Blender operator `GRAPH_OT_EulerFilter` (`poll`, `execute`), `update_euler_keyframes`, `refresh_fcurve_editor`, `register` and `unregister`: these only call the host application.
- `get_bone_from_fcurve`: it resolves a path through the host's `path_resolve`, which has no visible semantics. The rotation mode is therefore a parameter of the filter.
- `get_selected_rotation_keyframes` beyond the check of lines 203-207. Building the triples needs the host's `fcurve.evaluate`, and writing the results back needs `keyframe_points.insert`. The merged frame list of line 209 is also left out.
- `get_fcu_keyframe_numbers`, `euler_to_string`, the `print` calls and the alias `d`: these are formatting, debugging or an unused duplicate.
- `test()`: it depends on one specific scene, and it calls `euler_filter` without its `rotation_mode` argument.
- IEEE-754 rounding, NaN and infinity: the model works over exact reals. The code has no check for non-finite angles, so none is modelled.
- NaiveFlipDiff: termination (`UnwrapStepDecreases`) holds only over exact reals. In floating point, the loop of lines 84-88 never ends for an infinite angle, because `inf - 2*pi == inf`. It also never ends for a finite angle so large that subtracting 2 pi leaves it unchanged.
- That a flipped triple describes the same physical rotation as the original: proving this needs trigonometry, which is not modelled. The model proves congruence per axis only.
- FlipEuler: the clean inner/middle/outer description is stated only for modes that are permutations of XYZ. For modes with a repeated axis letter, only `FlipEulerCongruent` says something about the result.
- GetSelectedRotationFCurves: the model requires a '.' in every selected curve's data path. `get_selected_rotation_fcurves` only needs this for the curves it reaches before an early return, and crashes without it.
