/**
 * The receiving component: a one-slot mailbox filled by the network listener and
 * drained once per frame, a 33-slot joint array and a 30-slot limb array written
 * in place, and five virtual bone fields. Each method is proved to leave the state
 * that the functions of SkeletonPose describe.
 */
module SkeletonReceiver {
  import opened Wrappers
  import opened Geometry
  import opened SkeletonPose

  /** A freshly created sphere: at the origin, unit size, shown. */
  const FreshJoint := JointSlot(Origin, 1.0, true)
  /** A freshly created cylinder: at the origin, upright, unit scale, shown. */
  const FreshBone := Bone(true, Origin, Vec3(0.0, 1.0, 0.0), 1.0, 1.0)

  class Receiver {
    const config: Config
    /** The JSON decoder; None stands for a document that is null or did not parse. */
    const decode: string -> Option<SkeletonMessage>
    /** The unsigned angle between two vectors, in degrees. */
    const vectorAngle: (Vec3, Vec3) -> real

    // The mailbox shared with the listener.
    var lastPacket: string
    var newDataAvailable: bool

    var joints: array<JointSlot>
    var limbs: array<Bone>
    var spineBone: Bone
    var lClavicle: Bone
    var rClavicle: Bone
    var lHipBone: Bone
    var rHipBone: Bone
    // The two numbers the dashboard shows.
    var lElbowAngle: real
    var rElbowAngle: real

    ghost predicate Valid()
      reads this
    {
      joints.Length == JointCount && limbs.Length == LimbSlots
    }

    /** The skeleton state as a value. */
    ghost function State(): Pose
      reads this, joints, limbs
      requires Valid()
      ensures WellFormed(State())
    {
      Pose(joints[..], limbs[..],
           VirtualBones(spineBone, lClavicle, rClavicle, lHipBone, rHipBone),
           lElbowAngle, rElbowAngle)
    }

    /** Initialises the skeleton: 33 joint spheres, a limb per bone-table entry, five virtual bones, an empty mailbox. */
    constructor (config: Config, decode: string -> Option<SkeletonMessage>, vectorAngle: (Vec3, Vec3) -> real)
      ensures Valid() && fresh(joints) && fresh(limbs)
      ensures this.config == config && this.decode == decode && this.vectorAngle == vectorAngle
      ensures lastPacket == "" && !newDataAvailable
      ensures forall i :: 0 <= i < JointCount ==> joints[i] == FreshJoint
      ensures forall i :: 0 <= i < LimbSlots ==> limbs[i] == FreshBone
      ensures VirtualBones(spineBone, lClavicle, rClavicle, lHipBone, rHipBone) ==
              VirtualBones(FreshBone, FreshBone, FreshBone, FreshBone, FreshBone)
    {
      this.config := config;
      this.decode := decode;
      this.vectorAngle := vectorAngle;
      lastPacket := "";
      newDataAvailable := false;
      joints := new JointSlot[JointCount](_ => FreshJoint);
      limbs := new Bone[LimbSlots](_ => FreshBone);
      spineBone, lClavicle, rClavicle, lHipBone, rHipBone := FreshBone, FreshBone, FreshBone, FreshBone, FreshBone;
      lElbowAngle, rElbowAngle := 0.0, 0.0;
    }

    /** One pass of the listener loop: the datagram text overwrites the mailbox and raises the flag. */
    method ReceiveData(packet: string)
      requires Valid()
      modifies this`lastPacket, this`newDataAvailable
      ensures lastPacket == packet && newDataAvailable
    {
      lastPacket := packet;
      newDataAvailable := true;
    }

    /** The per-frame poll: with the flag up, lower it and process the mailbox text; with it down, do nothing. */
    method Update()
      requires Valid()
      modifies this, joints, limbs
      ensures Valid() && joints == old(joints) && limbs == old(limbs)
      ensures !newDataAvailable && lastPacket == old(lastPacket)
      ensures old(newDataAvailable) ==> State() == Process(old(State()), decode(old(lastPacket)), config, vectorAngle)
      ensures !old(newDataAvailable) ==> State() == old(State())
    {
      if newDataAvailable {
        newDataAvailable := false;
        ProcessJSON(lastPacket);
      }
    }

    /** Decodes one document and, unless it or its joint list is null, merges joints and redraws bones and dashboard. */
    method ProcessJSON(json: string)
      requires Valid()
      modifies this, joints, limbs
      ensures Valid() && joints == old(joints) && limbs == old(limbs)
      ensures lastPacket == old(lastPacket) && newDataAvailable == old(newDataAvailable)
      ensures State() == Process(old(State()), decode(json), config, vectorAngle)
    {
      var msg := decode(json);
      if msg.None? || msg.value.joints.None? {
        return;
      }
      ghost var before := State();
      var js := msg.value.joints.value;
      MergeJointData(js);
      ghost var merged := MergeJoints(before.joints, js, config);
      var bThick := config.globalScale * config.boneThickness;
      UpdateStandardLimbs(bThick);
      assert limbs[..] == UpdateLimbs(before.limbs, merged, bThick);
      UpdateVirtualSpine(bThick);
      assert joints[..] == merged;
      if config.hasDashboard {
        lElbowAngle := JointAngle(joints[..], LeftShoulder, LeftElbow, LeftWrist, vectorAngle);
        rElbowAngle := JointAngle(joints[..], RightShoulder, RightElbow, RightWrist, vectorAngle);
      }
      assert State() == Pose(merged, UpdateLimbs(before.limbs, merged, bThick),
                             UpdateVirtual(before.virtualBones, merged, bThick),
                             lElbowAngle, rElbowAngle);
    }

    /** The joint loop: every entry with id in 0..32 overwrites its slot, in message order. */
    method MergeJointData(js: seq<JointData>)
      requires Valid()
      modifies joints
      ensures joints[..] == MergeJoints(old(joints[..]), js, config)
    {
      var i := 0;
      while i < |js|
        invariant 0 <= i <= |js|
        invariant joints[..] == MergeJoints(old(joints[..]), js[..i], config)
      {
        var j := js[i];
        if 0 <= j.id < JointCount {
          joints[j.id] := Placed(j, config);
        }
        assert js[..i + 1][..i] == js[..i];
        i := i + 1;
      }
      assert js[..|js|] == js;
    }

    /** The bone-table loop: limb i follows bone pair i. */
    method UpdateStandardLimbs(thickness: real)
      requires Valid()
      modifies limbs
      ensures limbs[..] == UpdateLimbs(old(limbs[..]), joints[..], thickness)
    {
      for i := 0 to |BonePairs|
        invariant forall k :: 0 <= k < i ==>
          limbs[k] == UpdateBone(old(limbs[k]), joints[BonePairs[k].0], joints[BonePairs[k].1], thickness)
        invariant forall k :: i <= k < LimbSlots ==> limbs[k] == old(limbs[k])
      {
        limbs[i] := UpdateBone(limbs[i], joints[BonePairs[i].0], joints[BonePairs[i].1], thickness);
      }
    }

    /** The virtual spine block: only when both shoulders and both hips are shown. */
    method UpdateVirtualSpine(thickness: real)
      requires Valid()
      modifies this`spineBone, this`lClavicle, this`rClavicle, this`lHipBone, this`rHipBone
      ensures VirtualBones(spineBone, lClavicle, rClavicle, lHipBone, rHipBone) ==
              UpdateVirtual(old(VirtualBones(spineBone, lClavicle, rClavicle, lHipBone, rHipBone)), joints[..], thickness)
    {
      if joints[LeftShoulder].active && joints[RightShoulder].active && joints[LeftHip].active && joints[RightHip].active {
        var lShoulder := joints[LeftShoulder].position;
        var rShoulder := joints[RightShoulder].position;
        var lHip := joints[LeftHip].position;
        var rHip := joints[RightHip].position;
        var neck := Mid(lShoulder, rShoulder);
        var pelvis := Mid(lHip, rHip);
        spineBone := Segment(neck, pelvis, thickness);
        lClavicle := Segment(neck, lShoulder, thickness);
        rClavicle := Segment(neck, rShoulder, thickness);
        lHipBone := Segment(pelvis, lHip, thickness);
        rHipBone := Segment(pelvis, rHip, thickness);
      }
    }
  }

  /**
   * Latest wins: two datagrams that arrive before one poll leave the skeleton as if
   * only the second had been sent, and a second poll with nothing new changes nothing.
   */
  method TwoDeliveriesOnePoll(r: Receiver, first: string, second: string)
    requires r.Valid()
    modifies r, r.joints, r.limbs
    ensures r.Valid()
    ensures r.State() == Process(old(r.State()), r.decode(second), r.config, r.vectorAngle)
  {
    r.ReceiveData(first);
    r.ReceiveData(second);
    r.Update();
    r.Update();
  }
}
