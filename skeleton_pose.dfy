/**
 * The skeleton that the receiver keeps between datagrams, and what one decoded
 * message does to it: the joint merge, the 21 real bones, the five virtual bones
 * hung off the neck and pelvis anchors, and the elbow angles for the dashboard.
 * Everything here is a value; the class in SkeletonReceiver holds the same state
 * in arrays and fields and is proved to follow these functions.
 */
module SkeletonPose {
  import opened Wrappers
  import opened Geometry

  /** Number of joint slots (the landmark taxonomy 0..32). */
  const JointCount := 33
  /** Number of bone objects the receiver allocates room for. */
  const LimbSlots := 30
  /** A joint is shown when its visibility is strictly above this. */
  const VisibilityThreshold := 0.5

  type JointId = i: int | 0 <= i < 33

  // Landmark ids used by the virtual spine and the dashboard.
  const LeftShoulder: JointId := 11
  const RightShoulder: JointId := 12
  const LeftElbow: JointId := 13
  const RightElbow: JointId := 14
  const LeftWrist: JointId := 15
  const RightWrist: JointId := 16
  const LeftHip: JointId := 23
  const RightHip: JointId := 24

  /** The fixed bone topology: face, mouth, arms, legs and feet. The torso box is drawn by the virtual bones instead. */
  const BonePairs: seq<(JointId, JointId)> := [
    (0, 1), (1, 2), (2, 3), (3, 7), (0, 4), (4, 5), (5, 6), (6, 8),
    (9, 10),
    (11, 13), (13, 15),
    (12, 14), (14, 16),
    (23, 25), (25, 27),
    (24, 26), (26, 28),
    (27, 29), (29, 31), (28, 30), (30, 32)
  ]

  /** One joint entry of a decoded message. */
  datatype JointData = JointData(id: int, position: Vec3, visibility: real)

  /** A decoded message; `joints` is None when the document has no joint list. */
  datatype SkeletonMessage = SkeletonMessage(frame: int, joints: Option<seq<JointData>>)

  /** A joint sphere: its position, its uniform size and whether it is shown. */
  datatype JointSlot = JointSlot(position: Vec3, size: real, active: bool)

  /**
   * A bone cylinder: whether it is shown, its centre, its axis (the vector it is
   * aligned with), its thickness (scale x and z) and the square of its half-length
   * (scale y), since the length itself is a square root.
   */
  datatype Bone = Bone(active: bool, center: Vec3, axis: Vec3, thickness: real, halfLengthSq: real)

  datatype VirtualBones = VirtualBones(spine: Bone, lClavicle: Bone, rClavicle: Bone, lHipBone: Bone, rHipBone: Bone)

  /** The inspector settings that shape the reconstruction. */
  datatype Config = Config(globalScale: real, boneThickness: real, jointSize: real, hasDashboard: bool)

  /** Everything one processed message can change. */
  datatype Pose = Pose(joints: seq<JointSlot>, limbs: seq<Bone>, virtualBones: VirtualBones,
                       lElbowAngle: real, rElbowAngle: real)

  ghost predicate WellFormed(p: Pose) {
    |p.joints| == JointCount && |p.limbs| == LimbSlots
  }

  lemma BoneTableFits()
    ensures |BonePairs| == 21 <= LimbSlots
    ensures forall i :: 0 <= i < |BonePairs| ==> 0 <= BonePairs[i].0 < JointCount && 0 <= BonePairs[i].1 < JointCount
  {
  }

  // ---------------------------------------------------------------- joints

  /** Where a message entry puts its joint: y flipped, then scaled uniformly; shown iff visibility > 0.5. */
  function Placed(j: JointData, cfg: Config): (s: JointSlot)
    ensures s.active <==> j.visibility > VisibilityThreshold
    ensures s.position == Vec3(j.position.x * cfg.globalScale, -(j.position.y * cfg.globalScale), j.position.z * cfg.globalScale)
  {
    JointSlot(Scale(Vec3(j.position.x, -j.position.y, j.position.z), cfg.globalScale),
              cfg.globalScale * cfg.jointSize,
              j.visibility > VisibilityThreshold)
  }

  /** One iteration of the merge loop: an entry writes its own slot if its id is in range. */
  function ApplyJoint(slots: seq<JointSlot>, j: JointData, cfg: Config): seq<JointSlot>
    requires |slots| == JointCount
  {
    if 0 <= j.id < JointCount then slots[j.id := Placed(j, cfg)] else slots
  }

  /** The joint store after walking the message entries in order. */
  function MergeJoints(slots: seq<JointSlot>, js: seq<JointData>, cfg: Config): (r: seq<JointSlot>)
    requires |slots| == JointCount
    ensures |r| == JointCount
    ensures forall k :: 0 <= k < JointCount && (forall i :: 0 <= i < |js| ==> js[i].id != k) ==> r[k] == slots[k]
    decreases |js|
  {
    if js == [] then slots
    else
      var front := js[..|js| - 1];
      assert forall i :: 0 <= i < |front| ==> front[i] == js[i];
      ApplyJoint(MergeJoints(slots, front, cfg), js[|js| - 1], cfg)
  }

  /** The last entry of the message that carries id k, if any. */
  function LastWithId(js: seq<JointData>, k: int): (r: Option<JointData>)
    ensures r.Some? ==> r.value in js && r.value.id == k
    ensures r.None? <==> forall i :: 0 <= i < |js| ==> js[i].id != k
    ensures r.Some? ==> exists i :: 0 <= i < |js| && js[i] == r.value && forall j :: i < j < |js| ==> js[j].id != k
    decreases |js|
  {
    if js == [] then None
    else if js[|js| - 1].id == k then Some(js[|js| - 1])
    else
      var front := js[..|js| - 1];
      var r := LastWithId(front, k);
      assert forall i :: 0 <= i < |front| ==> front[i] == js[i];
      r
  }

  /** Slot k after a merge is the last entry with id k, placed; without such an entry it keeps its old value. */
  lemma {:induction false} MergeSlot(slots: seq<JointSlot>, js: seq<JointData>, cfg: Config, k: int)
    requires |slots| == JointCount && 0 <= k < JointCount
    ensures MergeJoints(slots, js, cfg)[k] ==
            match LastWithId(js, k)
            case None => slots[k]
            case Some(j) => Placed(j, cfg)
    decreases |js|
  {
    if js != [] {
      MergeSlot(slots, js[..|js| - 1], cfg, k);
    }
  }

  /** Stale-hold: a slot whose id no entry carries keeps its position, size and activity. */
  lemma StaleHold(slots: seq<JointSlot>, js: seq<JointData>, cfg: Config, k: int)
    requires |slots| == JointCount && 0 <= k < JointCount
    requires forall i :: 0 <= i < |js| ==> js[i].id != k
    ensures MergeJoints(slots, js, cfg)[k] == slots[k]
  {
    MergeSlot(slots, js, cfg, k);
  }

  /** An entry whose id lies outside 0..32 changes nothing, wherever it stands in the message. */
  lemma OutOfRangeEntryIgnored(slots: seq<JointSlot>, before: seq<JointData>, j: JointData, after: seq<JointData>, cfg: Config)
    requires |slots| == JointCount
    requires j.id < 0 || j.id >= JointCount
    ensures MergeJoints(slots, before + [j] + after, cfg) == MergeJoints(slots, before + after, cfg)
  {
    var a, b := MergeJoints(slots, before + [j] + after, cfg), MergeJoints(slots, before + after, cfg);
    forall k | 0 <= k < JointCount
      ensures a[k] == b[k]
    {
      MergeSlot(slots, before + [j] + after, cfg, k);
      MergeSlot(slots, before + after, cfg, k);
      LastWithIdSkips(before, j, after, k);
    }
  }

  lemma {:induction false} LastWithIdSkips(before: seq<JointData>, j: JointData, after: seq<JointData>, k: int)
    requires j.id != k
    ensures LastWithId(before + [j] + after, k) == LastWithId(before + after, k)
    decreases |after|
  {
    if after == [] {
      assert (before + [j] + after)[..|before + [j] + after| - 1] == before;
      assert before + after == before;
    } else {
      var n := |after| - 1;
      assert (before + [j] + after)[..|before + [j] + after| - 1] == before + [j] + after[..n];
      assert (before + after)[..|before + after| - 1] == before + after[..n];
      LastWithIdSkips(before, j, after[..n], k);
    }
  }

  /** Merging the same entries a second time changes nothing. */
  lemma MergeIdempotent(slots: seq<JointSlot>, js: seq<JointData>, cfg: Config)
    requires |slots| == JointCount
    ensures MergeJoints(MergeJoints(slots, js, cfg), js, cfg) == MergeJoints(slots, js, cfg)
  {
    var once := MergeJoints(slots, js, cfg);
    var twice := MergeJoints(once, js, cfg);
    forall k | 0 <= k < JointCount
      ensures twice[k] == once[k]
    {
      MergeSlot(slots, js, cfg, k);
      MergeSlot(once, js, cfg, k);
    }
  }

  // ----------------------------------------------------------------- bones

  /** A shown cylinder spanning start..end with the given thickness. */
  function Segment(start: Vec3, end: Vec3, thickness: real): (b: Bone)
    ensures b.active
  {
    Bone(true, Mid(start, end), Sub(end, start), thickness, DistSq(start, end) / 4.0)
  }

  /** The cylinder reaches exactly from start to end: half its axis either side of its centre, at half-length from each end. */
  lemma SegmentSpans(start: Vec3, end: Vec3, thickness: real)
    ensures Sub(Segment(start, end, thickness).center, Scale(Segment(start, end, thickness).axis, 0.5)) == start
    ensures Add(Segment(start, end, thickness).center, Scale(Segment(start, end, thickness).axis, 0.5)) == end
    ensures DistSq(start, Segment(start, end, thickness).center) == Segment(start, end, thickness).halfLengthSq
    ensures DistSq(Segment(start, end, thickness).center, end) == Segment(start, end, thickness).halfLengthSq
  {
    MidpointSplitsSegment(start, end);
    MidpointEquidistant(start, end);
  }

  /** A real bone: spans its two joints when both are shown, and is hidden (keeping its last geometry) otherwise. */
  function UpdateBone(prev: Bone, a: JointSlot, b: JointSlot, thickness: real): (r: Bone)
    ensures r.active <==> a.active && b.active
    ensures r.active ==> Mid(a.position, b.position) == r.center && DistSq(a.position, r.center) == r.halfLengthSq
    ensures !r.active ==> r == prev.(active := false)
  {
    if a.active && b.active then Segment(a.position, b.position, thickness)
    else prev.(active := false)
  }

  /** The limb slots after the bone-table pass: slot i < 21 is bone i of the table; the rest are never touched. */
  function UpdateLimbs(limbs: seq<Bone>, joints: seq<JointSlot>, thickness: real): (r: seq<Bone>)
    requires |limbs| == LimbSlots && |joints| == JointCount
    ensures |r| == LimbSlots
    ensures forall i :: 0 <= i < |BonePairs| ==>
      (r[i].active <==> joints[BonePairs[i].0].active && joints[BonePairs[i].1].active)
    ensures forall i :: |BonePairs| <= i < LimbSlots ==> r[i] == limbs[i]
  {
    seq(LimbSlots, i requires 0 <= i < LimbSlots =>
      if i < |BonePairs| then UpdateBone(limbs[i], joints[BonePairs[i].0], joints[BonePairs[i].1], thickness)
      else limbs[i])
  }

  /** Left and right shoulder midpoint. */
  function Neck(joints: seq<JointSlot>): Vec3
    requires |joints| == JointCount
  {
    Mid(joints[LeftShoulder].position, joints[RightShoulder].position)
  }

  /** Left and right hip midpoint. */
  function Pelvis(joints: seq<JointSlot>): Vec3
    requires |joints| == JointCount
  {
    Mid(joints[LeftHip].position, joints[RightHip].position)
  }

  predicate TorsoTracked(joints: seq<JointSlot>)
    requires |joints| == JointCount
  {
    joints[LeftShoulder].active && joints[RightShoulder].active && joints[LeftHip].active && joints[RightHip].active
  }

  /** The virtual spine block: redrawn from the anchors when the torso is tracked, left as it was otherwise. */
  function UpdateVirtual(v: VirtualBones, joints: seq<JointSlot>, thickness: real): (r: VirtualBones)
    requires |joints| == JointCount
    ensures TorsoTracked(joints) ==>
      && r.spine.active && r.lClavicle.active && r.rClavicle.active && r.lHipBone.active && r.rHipBone.active
      && r.spine.center == Mid(Neck(joints), Pelvis(joints))
      && r.lClavicle.center == Mid(Neck(joints), joints[LeftShoulder].position)
      && r.rClavicle.center == Mid(Neck(joints), joints[RightShoulder].position)
      && r.lHipBone.center == Mid(Pelvis(joints), joints[LeftHip].position)
      && r.rHipBone.center == Mid(Pelvis(joints), joints[RightHip].position)
    ensures !TorsoTracked(joints) ==> r == v
  {
    if TorsoTracked(joints) then
      var neck, pelvis := Neck(joints), Pelvis(joints);
      VirtualBones(Segment(neck, pelvis, thickness),
                   Segment(neck, joints[LeftShoulder].position, thickness),
                   Segment(neck, joints[RightShoulder].position, thickness),
                   Segment(pelvis, joints[LeftHip].position, thickness),
                   Segment(pelvis, joints[RightHip].position, thickness))
    else v
  }

  // ---------------------------------------------------------------- angles

  /**
   * The angle at joint b between the directions to a and to c. The angle between
   * two vectors is floating-point trigonometry and is taken as a parameter; what is
   * modelled is that an untracked joint gives 0.
   */
  function JointAngle(joints: seq<JointSlot>, a: JointId, b: JointId, c: JointId, vectorAngle: (Vec3, Vec3) -> real): (r: real)
    requires |joints| == JointCount
    ensures !(joints[a].active && joints[b].active && joints[c].active) ==> r == 0.0
    ensures joints[a].active && joints[b].active && joints[c].active ==>
              r == vectorAngle(Sub(joints[a].position, joints[b].position), Sub(joints[c].position, joints[b].position))
  {
    if !joints[a].active || !joints[b].active || !joints[c].active then 0.0
    else vectorAngle(Sub(joints[a].position, joints[b].position), Sub(joints[c].position, joints[b].position))
  }

  // --------------------------------------------------------------- message

  /** What ProcessJSON does with a decoded message (None for a document that did not decode). */
  function Process(p: Pose, msg: Option<SkeletonMessage>, cfg: Config, vectorAngle: (Vec3, Vec3) -> real): (r: Pose)
    requires WellFormed(p)
    ensures WellFormed(r)
  {
    if msg.None? || msg.value.joints.None? then p
    else
      var joints := MergeJoints(p.joints, msg.value.joints.value, cfg);
      var thickness := cfg.globalScale * cfg.boneThickness;
      Pose(joints,
           UpdateLimbs(p.limbs, joints, thickness),
           UpdateVirtual(p.virtualBones, joints, thickness),
           if cfg.hasDashboard then JointAngle(joints, LeftShoulder, LeftElbow, LeftWrist, vectorAngle) else p.lElbowAngle,
           if cfg.hasDashboard then JointAngle(joints, RightShoulder, RightElbow, RightWrist, vectorAngle) else p.rElbowAngle)
  }

  /** A document that did not decode, or has no joint list, leaves joints, bones and dashboard as they were. */
  lemma NullMessageIgnored(p: Pose, msg: Option<SkeletonMessage>, cfg: Config, vectorAngle: (Vec3, Vec3) -> real)
    requires WellFormed(p)
    requires msg.None? || msg.value.joints.None?
    ensures Process(p, msg, cfg, vectorAngle) == p
  {
  }

  /** Each joint slot ends up as the last in-range entry for it, placed, or keeps its old value (stale-hold). */
  lemma ProcessJoints(p: Pose, m: SkeletonMessage, cfg: Config, vectorAngle: (Vec3, Vec3) -> real, k: JointId)
    requires WellFormed(p) && m.joints.Some?
    ensures Process(p, Some(m), cfg, vectorAngle).joints[k] ==
            match LastWithId(m.joints.value, k)
            case None => p.joints[k]
            case Some(j) => Placed(j, cfg)
  {
    MergeSlot(p.joints, m.joints.value, cfg, k);
  }

  /**
   * Every real bone is shown iff both of its joints are shown after the merge; a
   * shown bone spans its joints with thickness globalScale * boneThickness; a hidden
   * one keeps its old geometry; the nine spare slots are untouched.
   */
  lemma ProcessRealBones(p: Pose, m: SkeletonMessage, cfg: Config, vectorAngle: (Vec3, Vec3) -> real)
    requires WellFormed(p) && m.joints.Some?
    ensures var r := Process(p, Some(m), cfg, vectorAngle);
      forall i :: 0 <= i < |BonePairs| ==>
        && (r.limbs[i].active <==> r.joints[BonePairs[i].0].active && r.joints[BonePairs[i].1].active)
        && (r.limbs[i].active ==> r.limbs[i] == Segment(r.joints[BonePairs[i].0].position, r.joints[BonePairs[i].1].position,
                                                          cfg.globalScale * cfg.boneThickness))
        && (!r.limbs[i].active ==> r.limbs[i] == p.limbs[i].(active := false))
    ensures var r := Process(p, Some(m), cfg, vectorAngle);
      forall i :: |BonePairs| <= i < LimbSlots ==> r.limbs[i] == p.limbs[i]
  {
  }

  /**
   * The virtual bones are redrawn exactly when joints 11, 12, 23 and 24 are all shown:
   * spine neck to pelvis, clavicles neck to each shoulder, hip bones pelvis to each hip,
   * all five shown. Otherwise all five keep their previous state, shown or not.
   */
  lemma ProcessVirtualBones(p: Pose, m: SkeletonMessage, cfg: Config, vectorAngle: (Vec3, Vec3) -> real)
    requires WellFormed(p) && m.joints.Some?
    ensures var r := Process(p, Some(m), cfg, vectorAngle);
      var t := cfg.globalScale * cfg.boneThickness;
      var neck := Mid(r.joints[11].position, r.joints[12].position);
      var pelvis := Mid(r.joints[23].position, r.joints[24].position);
      if r.joints[11].active && r.joints[12].active && r.joints[23].active && r.joints[24].active then
        && r.virtualBones.spine == Segment(neck, pelvis, t)
        && r.virtualBones.lClavicle == Segment(neck, r.joints[11].position, t)
        && r.virtualBones.rClavicle == Segment(neck, r.joints[12].position, t)
        && r.virtualBones.lHipBone == Segment(pelvis, r.joints[23].position, t)
        && r.virtualBones.rHipBone == Segment(pelvis, r.joints[24].position, t)
      else
        r.virtualBones == p.virtualBones
  {
  }

  /** With the dashboard present, an elbow angle is 0 whenever the shoulder, elbow or wrist of that side is not shown. */
  lemma ProcessElbowAngles(p: Pose, m: SkeletonMessage, cfg: Config, vectorAngle: (Vec3, Vec3) -> real)
    requires WellFormed(p) && m.joints.Some? && cfg.hasDashboard
    ensures var r := Process(p, Some(m), cfg, vectorAngle);
      && (!(r.joints[11].active && r.joints[13].active && r.joints[15].active) ==> r.lElbowAngle == 0.0)
      && (!(r.joints[12].active && r.joints[14].active && r.joints[16].active) ==> r.rElbowAngle == 0.0)
  {
  }

  /** Processing the same message twice leaves the same pose as processing it once. */
  lemma ProcessIdempotent(p: Pose, msg: Option<SkeletonMessage>, cfg: Config, vectorAngle: (Vec3, Vec3) -> real)
    requires WellFormed(p)
    ensures Process(Process(p, msg, cfg, vectorAngle), msg, cfg, vectorAngle) == Process(p, msg, cfg, vectorAngle)
  {
    if msg.Some? && msg.value.joints.Some? {
      var once := Process(p, msg, cfg, vectorAngle);
      var twice := Process(once, msg, cfg, vectorAngle);
      MergeIdempotent(p.joints, msg.value.joints.value, cfg);
      assert twice.joints == once.joints;
      assert twice.limbs == once.limbs;
    }
  }
}
