/**
 Selection of the three rotation curves the filter works on, over plain
 records standing in for the host's animation curves: splitting a curve's
 data path, the checks that exactly the X, Y and Z rotation curves of one
 bone are selected, and the check that the three curves have the same
 selected keyframe times.
 */
module FCurves {
  import opened Wrappers
  import opened Sorting

  /** A keyframe point of a curve: its frame (`co[0]`) and whether it is selected. */
  datatype KeyframePoint = KeyframePoint(frame: real, selected: bool)

  /** An animation curve: selection flag, data path (e.g. `pose.bones["Head"].rotation_euler`),
      index into the animated array, and keyframe points. */
  datatype FCurve = FCurve(select: bool, dataPath: string, arrayIndex: int, points: seq<KeyframePoint>)

  datatype Action = Action(fcurves: seq<FCurve>)
  datatype AnimationData = AnimationData(action: Option<Action>)
  datatype Object = Object(animationData: Option<AnimationData>)

  /** The part of the editor context the selection reads: the active object, if any. */
  datatype Context = Context(activeObject: Option<Object>)

  const NO_OBJECT := "No object selected"
  const NO_ANIMATION_DATA := "Object have no animation data"
  const NO_ACTION := "Object has no action"
  const SINGLE_OBJECT := "Only select the rotation of a single object"
  const SELECT_XYZ := "Select only XYZ rotation curves"
  const WRONG_INDEX := "Wrong index for rotation curves, selected all 3 angles"
  const NOT_KEYED_TOGETHER := "All 3 rotation angles need to be keyframed together on every keyframe"

  const ROTATION_EULER := "rotation_euler"

  /** Position of the last '.' in `p`, if there is one. */
  function LastDot(p: string): (r: Option<nat>)
    ensures r.None? <==> '.' !in p
    ensures r.Some? ==> r.value < |p| && p[r.value] == '.' && '.' !in p[r.value + 1..]
  {
    if |p| == 0 then None
    else if p[|p| - 1] == '.' then Some(|p| - 1)
    else
      var r := LastDot(p[..|p| - 1]);
      assert p == p[..|p| - 1] + [p[|p| - 1]];
      if r.Some? then
        assert p[r.value + 1..] == p[..|p| - 1][r.value + 1..] + [p[|p| - 1]];
        r
      else
        r
  }

  /**
   `split_data_path` of `euler_filter.py`, which is `rsplit(".", 1)`: a path
   without '.' comes back as the single element, any other path is cut at
   its last '.', and joining the two parts with '.' gives the path back.
   */
  function SplitDataPath(p: string): (r: seq<string>)
    ensures |r| == 1 <==> '.' !in p
    ensures |r| == 1 ==> r[0] == p
    ensures |r| != 1 ==> |r| == 2 && r[0] + "." + r[1] == p && '.' !in r[1]
  {
    match LastDot(p)
    case None => [p]
    case Some(k) =>
      assert p == p[..k] + "." + p[k + 1..];
      [p[..k], p[k + 1..]]
  }

  /** The object path of a data path that contains a '.'. */
  function Bone(p: string): string
    requires '.' in p
  {
    SplitDataPath(p)[0]
  }

  /** The property name of a data path that contains a '.'. */
  function Prop(p: string): string
    requires '.' in p
  {
    SplitDataPath(p)[1]
  }

  /** Every selected curve's data path can be split into object path and property,
      which the unpacking at line 169 of `euler_filter.py` needs. */
  predicate Splittable(fcs: seq<FCurve>) {
    forall i :: 0 <= i < |fcs| && fcs[i].select ==> '.' in fcs[i].dataPath
  }

  /** A selected curve animating some `rotation_euler` property. */
  predicate IsRotationCurve(fc: FCurve) {
    fc.select && '.' in fc.dataPath && Prop(fc.dataPath) == ROTATION_EULER
  }

  /** The curves of `fcs` that the loop of lines 165-178 keeps, in order. */
  function RotationCurves(fcs: seq<FCurve>): (r: seq<FCurve>)
    requires Splittable(fcs)
    ensures forall c :: c in r <==> c in fcs && IsRotationCurve(c)
    ensures forall i :: 0 <= i < |r| ==> IsRotationCurve(r[i]) && '.' in r[i].dataPath
    ensures |r| <= |fcs|
  {
    if |fcs| == 0 then []
    else
      assert fcs == [fcs[0]] + fcs[1..];
      (if IsRotationCurve(fcs[0]) then [fcs[0]] else []) + RotationCurves(fcs[1..])
  }

  /** The object paths of rotation curves, in order. */
  function Bones(cs: seq<FCurve>): (r: seq<string>)
    requires forall i :: 0 <= i < |cs| ==> '.' in cs[i].dataPath
    ensures |r| == |cs|
    ensures forall i :: 0 <= i < |cs| ==> r[i] == Bone(cs[i].dataPath)
  {
    if |cs| == 0 then [] else [Bone(cs[0].dataPath)] + Bones(cs[1..])
  }

  /**
   The bone check passes for object paths `bs` when the bone remembered so
   far is `sb` ("" meaning none yet). `get_selected_rotation_fcurves` tests `not selected_bone`,
   so an empty object path counts as "none yet" and a later non-empty one
   replaces it; once a non-empty path is remembered, every later one must
   equal it.
   */
  ghost predicate OneBone(sb: string, bs: seq<string>) {
    && (forall i :: 0 <= i < |bs| ==> sb == "" || bs[i] == sb)
    && (forall i, j :: 0 <= i < j < |bs| ==> bs[i] == "" || bs[j] == bs[i])
  }

  lemma OneBoneCons(sb: string, b: string, bs: seq<string>)
    ensures OneBone(sb, [b] + bs) <==> (sb == "" || b == sb) && OneBone(if sb == "" then b else sb, bs)
  {
    var s := [b] + bs;
    if (sb == "" || b == sb) && OneBone(if sb == "" then b else sb, bs) {
      forall i, j | 0 <= i < j < |s|
        ensures s[i] == "" || s[j] == s[i]
      {
        assert s[j] == bs[j - 1];
        if i > 0 {
          assert s[i] == bs[i - 1];
        }
      }
    }
    if OneBone(sb, s) {
      assert s[0] == b;
      assert sb == "" || b == sb;
      forall i, j | 0 <= i < j < |bs|
        ensures bs[i] == "" || bs[j] == bs[i]
      {
        assert bs[i] == s[i + 1] && bs[j] == s[j + 1];
      }
      forall i | 0 <= i < |bs|
        ensures (if sb == "" then b else sb) == "" || bs[i] == (if sb == "" then b else sb)
      {
        assert bs[i] == s[i + 1];
        assert s[0] == "" || s[i + 1] == s[0];
      }
    }
  }

  /** A curve that is not a rotation curve adds nothing to the rotation curves. */
  lemma RotationCurvesSkip(fcs: seq<FCurve>)
    requires |fcs| > 0 && Splittable(fcs) && !IsRotationCurve(fcs[0])
    ensures Splittable(fcs[1..])
    ensures RotationCurves(fcs) == RotationCurves(fcs[1..])
  {
    SplittableTail(fcs);
    assert RotationCurves(fcs) == [] + RotationCurves(fcs[1..]);
  }

  /** A leading rotation curve is the first of the rotation curves. */
  lemma RotationCurvesHead(fcs: seq<FCurve>)
    requires |fcs| > 0 && Splittable(fcs) && IsRotationCurve(fcs[0])
    ensures Splittable(fcs[1..])
    ensures RotationCurves(fcs) == [fcs[0]] + RotationCurves(fcs[1..])
  {
    SplittableTail(fcs);
  }

  lemma SplittableTail(fcs: seq<FCurve>)
    requires |fcs| > 0 && Splittable(fcs)
    ensures Splittable(fcs[1..])
  {
    forall i | 0 <= i < |fcs[1..]| && fcs[1..][i].select
      ensures '.' in fcs[1..][i].dataPath
    {
      assert fcs[1..][i] == fcs[i + 1];
    }
  }

  lemma BonesCons(c: FCurve, cs: seq<FCurve>)
    requires '.' in c.dataPath
    requires forall i :: 0 <= i < |cs| ==> '.' in cs[i].dataPath
    ensures Bones([c] + cs) == [Bone(c.dataPath)] + Bones(cs)
  {
    assert ([c] + cs)[1..] == cs;
  }

  /**
   With a leading rotation curve, the bone check over all rotation curves
   passes exactly when it passes for that curve and then for the rest with
   the updated remembered bone.
   */
  lemma OneBoneKeep(fcs: seq<FCurve>, sb: string)
    requires |fcs| > 0 && Splittable(fcs) && IsRotationCurve(fcs[0])
    ensures Splittable(fcs[1..])
    ensures
      var bone := Bone(fcs[0].dataPath);
      var sb' := if sb == "" then bone else sb;
      OneBone(sb, Bones(RotationCurves(fcs))) <==> bone == sb' && OneBone(sb', Bones(RotationCurves(fcs[1..])))
  {
    RotationCurvesHead(fcs);
    var rest := RotationCurves(fcs[1..]);
    BonesCons(fcs[0], rest);
    OneBoneCons(sb, Bone(fcs[0].dataPath), Bones(rest));
  }

  lemma ConcatAssoc<T>(a: seq<T>, b: seq<T>, c: seq<T>)
    ensures a + (b + c) == (a + b) + c
  {
  }

  /** With a leading rotation curve, the collected curves continue after it. */
  lemma AccumulateKeep(fcs: seq<FCurve>, acc: seq<FCurve>)
    requires |fcs| > 0 && Splittable(fcs) && IsRotationCurve(fcs[0])
    ensures Splittable(fcs[1..])
    ensures acc + RotationCurves(fcs) == (acc + [fcs[0]]) + RotationCurves(fcs[1..])
  {
    RotationCurvesHead(fcs);
    ConcatAssoc(acc, [fcs[0]], RotationCurves(fcs[1..]));
  }

  /**
   The loop of lines 165-178: skip unselected curves and curves of other
   properties, remember the first bone, fail as soon as a rotation curve of
   another bone shows up, and otherwise collect the rotation curves. It
   succeeds exactly when the object paths of all rotation curves pass the
   bone check, and then returns them after `acc`, in order.
   */
  function CollectRotationCurves(fcs: seq<FCurve>, sb: string, acc: seq<FCurve>): (r: Result<seq<FCurve>>)
    requires Splittable(fcs)
    ensures r == (if OneBone(sb, Bones(RotationCurves(fcs))) then Success(acc + RotationCurves(fcs))
                  else Failure(SINGLE_OBJECT))
  {
    if |fcs| == 0 then
      assert acc + [] == acc;
      Success(acc)
    else
      var fc := fcs[0];
      if !fc.select then
        RotationCurvesSkip(fcs);
        CollectRotationCurves(fcs[1..], sb, acc)
      else
        var parts := SplitDataPath(fc.dataPath);
        var bone := parts[0];
        var prop := parts[1];
        if prop != ROTATION_EULER then
          RotationCurvesSkip(fcs);
          CollectRotationCurves(fcs[1..], sb, acc)
        else
          var sb' := if sb == "" then bone else sb;
          OneBoneKeep(fcs, sb);
          AccumulateKeep(fcs, acc);
          if bone != sb' then Failure(SINGLE_OBJECT)
          else CollectRotationCurves(fcs[1..], sb', acc + [fc])
  }

  /** The sort key of line 183. */
  function IndexKey(fc: FCurve): real {
    fc.arrayIndex as real
  }

  /** Some curve of `cs` animates array element `i`. */
  ghost predicate HasIndex(cs: seq<FCurve>, i: int) {
    exists k :: 0 <= k < |cs| && cs[k].arrayIndex == i
  }

  /** The curves animate array elements 0, 1 and 2 (the X, Y and Z angles). */
  ghost predicate CoversAxes(cs: seq<FCurve>) {
    HasIndex(cs, 0) && HasIndex(cs, 1) && HasIndex(cs, 2)
  }

  lemma HasIndexPermutation(a: seq<FCurve>, b: seq<FCurve>, i: int)
    requires multiset(a) == multiset(b)
    requires HasIndex(a, i)
    ensures HasIndex(b, i)
  {
    var k :| 0 <= k < |a| && a[k].arrayIndex == i;
    assert a[k] in multiset(b);
    var j :| 0 <= j < |b| && b[j] == a[k];
  }

  /** Reordering curves does not change which axes they cover. */
  lemma CoversAxesPermutation(a: seq<FCurve>, b: seq<FCurve>)
    requires multiset(a) == multiset(b)
    ensures CoversAxes(a) <==> CoversAxes(b)
  {
    forall i | HasIndex(a, i)
      ensures HasIndex(b, i)
    {
      HasIndexPermutation(a, b, i);
    }
    forall i | HasIndex(b, i)
      ensures HasIndex(a, i)
    {
      HasIndexPermutation(b, a, i);
    }
  }

  /** Three curves sorted by index have indices 0, 1, 2 exactly when together they cover all three axes. */
  lemma SortedIndices(s: seq<FCurve>)
    requires |s| == 3
    requires SortedBy(s, IndexKey)
    ensures (s[0].arrayIndex == 0 && s[1].arrayIndex == 1 && s[2].arrayIndex == 2) <==> CoversAxes(s)
  {
    assert IndexKey(s[0]) <= IndexKey(s[1]) <= IndexKey(s[2]);
    if s[0].arrayIndex == 0 && s[1].arrayIndex == 1 && s[2].arrayIndex == 2 {
      assert HasIndex(s, 0) && HasIndex(s, 1) && HasIndex(s, 2);
    }
  }

  /** The curves of the active object's action, when there is an active object with an action. */
  function ActionCurves(ctx: Context): Option<seq<FCurve>> {
    if ctx.activeObject.None? then None
    else if ctx.activeObject.value.animationData.None? then None
    else if ctx.activeObject.value.animationData.value.action.None? then None
    else Some(ctx.activeObject.value.animationData.value.action.value.fcurves)
  }

  /** What line 169 of `euler_filter.py` needs in order not to fail. */
  predicate SelectionSplittable(ctx: Context) {
    ActionCurves(ctx).Some? ==> Splittable(ActionCurves(ctx).value)
  }

  /**
   `get_selected_rotation_fcurves` of `euler_filter.py`. The active object must
   exist and have an action; the selected `rotation_euler` curves must pass
   the bone check, be exactly three, and cover array indices 0, 1, 2. On
   success the result holds those three curves, sorted so that curve `i`
   animates index `i`; otherwise it is the message of the first check that
   failed.
   */
  function GetSelectedRotationFCurves(ctx: Context): (r: Result<seq<FCurve>>)
    requires SelectionSplittable(ctx)
    ensures ctx.activeObject.None? ==> r == Failure(NO_OBJECT)
    ensures ctx.activeObject.Some? && ctx.activeObject.value.animationData.None? ==> r == Failure(NO_ANIMATION_DATA)
    ensures (ctx.activeObject.Some? && ctx.activeObject.value.animationData.Some?
             && ctx.activeObject.value.animationData.value.action.None?) ==> r == Failure(NO_ACTION)
    ensures ActionCurves(ctx).Some? ==>
      var rc := RotationCurves(ActionCurves(ctx).value);
      && (!OneBone("", Bones(rc)) ==> r == Failure(SINGLE_OBJECT))
      && (OneBone("", Bones(rc)) && |rc| != 3 ==> r == Failure(SELECT_XYZ))
      && (OneBone("", Bones(rc)) && |rc| == 3 && !CoversAxes(rc) ==> r == Failure(WRONG_INDEX))
      && (r.Success? <==> OneBone("", Bones(rc)) && |rc| == 3 && CoversAxes(rc))
      && (r.Success? ==> multiset(r.value) == multiset(rc))
    ensures r.Success? ==>
      && |r.value| == 3
      && r.value[0].arrayIndex == 0 && r.value[1].arrayIndex == 1 && r.value[2].arrayIndex == 2
      && (forall i :: 0 <= i < 3 ==> IsRotationCurve(r.value[i]))
  {
    match ActionCurves(ctx)
    case None =>
      if ctx.activeObject.None? then Failure(NO_OBJECT)
      else if ctx.activeObject.value.animationData.None? then Failure(NO_ANIMATION_DATA)
      else Failure(NO_ACTION)
    case Some(fcs) =>
      var rc := RotationCurves(fcs);
      match CollectRotationCurves(fcs, "", [])
      case Failure(e) => Failure(e)
      case Success(selected) =>
        assert selected == rc;
        if |selected| != 3 then Failure(SELECT_XYZ)
        else
          var sorted := SortBy(selected, IndexKey);
          SortedIndices(sorted);
          CoversAxesPermutation(rc, sorted);
          if sorted[0].arrayIndex != 0 || sorted[1].arrayIndex != 1 || sorted[2].arrayIndex != 2 then
            Failure(WRONG_INDEX)
          else
            assert forall i :: 0 <= i < 3 ==> sorted[i] in multiset(rc);
            Success(sorted)
  }

  /** The frames of the selected keyframe points, in curve order. */
  function SelectedFrames(points: seq<KeyframePoint>): seq<real> {
    if |points| == 0 then []
    else (if points[0].selected then [points[0].frame] else []) + SelectedFrames(points[1..])
  }

  /** `get_selected_fcu_keyframe_numbers` of `euler_filter.py`: the frames of
      the selected points, in ascending order. */
  function GetSelectedFcuKeyframeNumbers(fc: FCurve): (r: seq<real>)
    ensures Sorted(r)
    ensures multiset(r) == multiset(SelectedFrames(fc.points))
  {
    SortBy(SelectedFrames(fc.points), Identity)
  }

  /**
   The check of lines 203-207: the three curves' sorted selected frame lists
   must be equal. It passes exactly when the three curves have the same
   selected frames, each with the same multiplicity, in whatever order
   their points are stored.
   */
  function CheckKeyframedTogether(fcs: seq<FCurve>): (r: Option<string>)
    requires |fcs| == 3
    ensures r.None? <==>
      && multiset(SelectedFrames(fcs[0].points)) == multiset(SelectedFrames(fcs[1].points))
      && multiset(SelectedFrames(fcs[1].points)) == multiset(SelectedFrames(fcs[2].points))
    ensures r.Some? ==> r.value == NOT_KEYED_TOGETHER
  {
    var k0 := GetSelectedFcuKeyframeNumbers(fcs[0]);
    var k1 := GetSelectedFcuKeyframeNumbers(fcs[1]);
    var k2 := GetSelectedFcuKeyframeNumbers(fcs[2]);
    SortedEqualIff(k0, k1);
    SortedEqualIff(k1, k2);
    if k0 != k1 || k1 != k2 then Some(NOT_KEYED_TOGETHER) else None
  }
}
