/**
 * The producer side of the pipeline: for every captured frame, each pose landmark
 * gets a depth from the depth image (or a 1.5 m fallback), is smoothed against its
 * previous position by a low-pass filter, and is appended to the datagram that
 * carries the frame counter. Pose inference, the pinhole projection, image
 * decoding, the socket and the CSV file are outside the model.
 */
module Tracker {
  import opened Wrappers
  import opened Geometry

  /** Weight of the new reading: 0 freezes the joint, 1 passes the raw reading through. */
  const SmoothingFactor: real := 0.5
  /** Depth in metres used when no depth reading is available. */
  const DefaultDepth: real := 1.5
  /** Key codes the loop reacts to: 'q' and Escape quit, 's' toggles recording. */
  const KeyQuit := 113
  const KeyEscape := 27
  const KeyRecord := 115
  /** Angles are recorded only for a pose with more landmarks than this. */
  const MinLandmarksForAngles := 28

  type UInt16 = v: int | 0 <= v <= 65535

  /** A depth frame of `height` rows of `width` millimetre readings. */
  datatype DepthImage = DepthImage(width: int, height: int, pixels: seq<seq<UInt16>>)

  ghost predicate Shaped(img: DepthImage) {
    && 0 <= img.width && |img.pixels| == img.height
    && forall r :: 0 <= r < |img.pixels| ==> |img.pixels[r]| == img.width
  }

  /** Sizes of the colour and depth streams. */
  datatype StreamSizes = StreamSizes(colorW: int, colorH: int, depthW: int, depthH: int)

  /** A pose landmark: normalised image coordinates and the detector's visibility score. */
  datatype Landmark = Landmark(x: real, y: real, visibility: real)

  /** One joint of the outgoing datagram. */
  datatype OutJoint = OutJoint(id: int, position: Vec3, visibility: real)

  /** The document sent for one frame. */
  datatype Datagram = Datagram(frame: int, joints: seq<OutJoint>)

  /** What one pass of the capture loop received; the key is the one read after the frame was shown. */
  datatype Capture = Capture(pose: Option<seq<Landmark>>, depth: Option<DepthImage>, key: int)

  // ------------------------------------------------------------- depth

  /** Conversion of a real to an integer by dropping its fraction (towards zero). */
  function Trunc(r: real): (n: int)
    ensures r >= 0.0 ==> 0 <= n && n as real <= r < n as real + 1.0
    ensures r < 0.0 ==> n <= 0 && n as real - 1.0 < r <= n as real
  {
    if r >= 0.0 then r.Floor else -((-r).Floor)
  }

  /** A colour-image coordinate rescaled to the depth image. */
  function DepthCoordinate(c: int, depthSize: int, colorSize: int): int
    requires colorSize != 0
  {
    Trunc((c as real) * ((depthSize as real) / (colorSize as real)))
  }

  /**
   * The depth in metres for the colour pixel (cx, cy): the reading at the matching
   * depth pixel divided by 1000 when that pixel lies inside the depth image and reads
   * more than 0, and 1.5 otherwise. The image is indexed only inside its bounds.
   */
  function SampleDepth(depth: Option<DepthImage>, cx: int, cy: int, sizes: StreamSizes): (z: real)
    requires sizes.colorW != 0 && sizes.colorH != 0
    requires depth.Some? ==> Shaped(depth.value) && depth.value.width == sizes.depthW && depth.value.height == sizes.depthH
    ensures z > 0.0
    ensures depth.None? ==> z == DefaultDepth
    ensures depth.Some? ==>
      var dx, dy := DepthCoordinate(cx, sizes.depthW, sizes.colorW), DepthCoordinate(cy, sizes.depthH, sizes.colorH);
      if 0 <= dx < sizes.depthW && 0 <= dy < sizes.depthH && depth.value.pixels[dy][dx] > 0
      then z * 1000.0 == depth.value.pixels[dy][dx] as real
      else z == DefaultDepth
  {
    if depth.None? then DefaultDepth
    else
      var dx := DepthCoordinate(cx, sizes.depthW, sizes.colorW);
      var dy := DepthCoordinate(cy, sizes.depthH, sizes.colorH);
      if 0 <= dx < sizes.depthW && 0 <= dy < sizes.depthH then
        var rawMm := depth.value.pixels[dy][dx];
        if rawMm > 0 then rawMm as real / 1000.0 else DefaultDepth
      else DefaultDepth
  }

  // --------------------------------------------------------- smoothing

  /** The low-pass filter: the raw reading on first sighting, else raw * sf + prev * (1 - sf) per coordinate. */
  function Smooth(raw: Vec3, prev: Option<Vec3>, sf: real): (r: Vec3)
    ensures prev.None? ==> r == raw
  {
    match prev
    case None => raw
    case Some(p) => Add(Scale(raw, sf), Scale(p, 1.0 - sf))
  }

  /** A factor of 1 passes the raw reading through; a factor of 0 freezes the joint at its previous position. */
  lemma SmoothExtremes(raw: Vec3, p: Vec3)
    ensures Smooth(raw, Some(p), 1.0) == raw
    ensures Smooth(raw, Some(p), 0.0) == p
  {
  }

  /** The lag behind the raw reading is the previous lag scaled by (1 - sf). */
  lemma SmoothLag(raw: Vec3, p: Vec3, sf: real)
    ensures Sub(Smooth(raw, Some(p), sf), raw) == Scale(Sub(p, raw), 1.0 - sf)
  {
    var r := Smooth(raw, Some(p), sf);
    assert r.x - raw.x == (p.x - raw.x) * (1.0 - sf);
    assert r.y - raw.y == (p.y - raw.y) * (1.0 - sf);
    assert r.z - raw.z == (p.z - raw.z) * (1.0 - sf);
  }

  /** One coordinate of the filter: the weighted mean of the raw and the previous value. */
  function Blend(raw: real, prev: real, sf: real): real {
    raw * sf + prev * (1.0 - sf)
  }

  lemma BlendBetween(a: real, b: real, sf: real)
    requires 0.0 <= sf <= 1.0
    ensures a <= b ==> a <= Blend(a, b, sf) <= b
    ensures b <= a ==> b <= Blend(a, b, sf) <= a
  {
    var d := a - b;
    var rest := 1.0 - sf;
    assert Blend(a, b, sf) == b + sf * d;
    assert Blend(a, b, sf) == a - rest * d;
    ProductSign(sf, d);
    ProductSign(rest, d);
  }

  lemma ProductSign(k: real, d: real)
    requires k >= 0.0
    ensures d >= 0.0 ==> k * d >= 0.0
    ensures d <= 0.0 ==> k * d <= 0.0
  {
  }

  /** With a factor in [0, 1], every smoothed coordinate lies between the raw and the previous one. */
  lemma SmoothBetween(raw: Vec3, p: Vec3, sf: real)
    requires 0.0 <= sf <= 1.0
    ensures var r := Smooth(raw, Some(p), sf);
      && (raw.x <= p.x ==> raw.x <= r.x <= p.x) && (p.x <= raw.x ==> p.x <= r.x <= raw.x)
      && (raw.y <= p.y ==> raw.y <= r.y <= p.y) && (p.y <= raw.y ==> p.y <= r.y <= raw.y)
      && (raw.z <= p.z ==> raw.z <= r.z <= p.z) && (p.z <= raw.z ==> p.z <= r.z <= raw.z)
  {
    var r := Smooth(raw, Some(p), sf);
    assert r == Vec3(Blend(raw.x, p.x, sf), Blend(raw.y, p.y, sf), Blend(raw.z, p.z, sf));
    BlendBetween(raw.x, p.x, sf);
    BlendBetween(raw.y, p.y, sf);
    BlendBetween(raw.z, p.z, sf);
  }

  function Lookup(m: map<int, Vec3>, k: int): Option<Vec3> {
    if k in m then Some(m[k]) else None
  }

  /** The position before smoothing: the projected pixel at the sampled depth. */
  function RawPosition(l: Landmark, depth: Option<DepthImage>, sizes: StreamSizes, project: (int, int, real) -> (real, real)): (r: Vec3)
    requires sizes.colorW != 0 && sizes.colorH != 0
    requires depth.Some? ==> Shaped(depth.value) && depth.value.width == sizes.depthW && depth.value.height == sizes.depthH
    ensures r.z > 0.0
    ensures depth.None? ==> r.z == DefaultDepth
    ensures r.z == SampleDepth(depth, Trunc(l.x * sizes.colorW as real), Trunc(l.y * sizes.colorH as real), sizes)
    ensures (r.x, r.y) == project(Trunc(l.x * sizes.colorW as real), Trunc(l.y * sizes.colorH as real), r.z)
  {
    var cx := Trunc(l.x * sizes.colorW as real);
    var cy := Trunc(l.y * sizes.colorH as real);
    var z := SampleDepth(depth, cx, cy, sizes);
    var projected := project(cx, cy, z);
    Vec3(projected.0, projected.1, z)
  }

  /** A set holding exactly 0..n-1 has n elements. */
  lemma {:induction false} IndexSetCount(s: set<int>, n: nat)
    requires forall k :: k in s <==> 0 <= k < n
    ensures |s| == n
    decreases n
  {
    if n > 0 {
      var rest := s - {n - 1};
      IndexSetCount(rest, n - 1);
      assert s == rest + {n - 1};
      assert n - 1 !in rest;
    } else {
      assert forall k :: k !in s;
      assert s == {};
    }
  }

  class Tracker {
    /** Smoothed position of every landmark index seen so far; entries are never removed. */
    var previousJoints: map<int, Vec3>
    var frameIdx: int
    var isRecording: bool

    constructor ()
      ensures previousJoints == map[] && frameIdx == 0 && !isRecording
    {
      previousJoints := map[];
      frameIdx := 0;
      isRecording := false;
    }

    /**
     * The per-landmark loop: landmark idx is smoothed against previous_joints[idx],
     * stored back under idx and appended to the joint list with id idx.
     */
    method ProcessLandmarks(landmarks: seq<Landmark>, depth: Option<DepthImage>, sizes: StreamSizes,
                            project: (int, int, real) -> (real, real))
      returns (joints: seq<OutJoint>, landmarks3d: map<int, Vec3>)
      requires sizes.colorW != 0 && sizes.colorH != 0
      requires depth.Some? ==> Shaped(depth.value) && depth.value.width == sizes.depthW && depth.value.height == sizes.depthH
      modifies this`previousJoints
      ensures |joints| == |landmarks| == |landmarks3d|
      ensures forall k :: k in landmarks3d <==> 0 <= k < |landmarks|
      ensures forall i :: 0 <= i < |landmarks| ==>
        && i in previousJoints && previousJoints[i] == landmarks3d[i]
        && previousJoints[i] == Smooth(RawPosition(landmarks[i], depth, sizes, project), Lookup(old(previousJoints), i), SmoothingFactor)
        && joints[i] == OutJoint(i, previousJoints[i], landmarks[i].visibility)
      ensures previousJoints.Keys == old(previousJoints).Keys + landmarks3d.Keys
      ensures forall k :: k in old(previousJoints) && !(0 <= k < |landmarks|) ==> previousJoints[k] == old(previousJoints)[k]
    {
      joints, landmarks3d := [], map[];
      for idx := 0 to |landmarks|
        invariant |joints| == idx
        invariant forall k :: k in landmarks3d <==> 0 <= k < idx
        invariant forall i :: 0 <= i < idx ==>
          && i in previousJoints && previousJoints[i] == landmarks3d[i]
          && previousJoints[i] == Smooth(RawPosition(landmarks[i], depth, sizes, project), Lookup(old(previousJoints), i), SmoothingFactor)
          && joints[i] == OutJoint(i, previousJoints[i], landmarks[i].visibility)
        invariant previousJoints.Keys == old(previousJoints).Keys + landmarks3d.Keys
        invariant forall k :: k in old(previousJoints) && !(0 <= k < idx) ==> previousJoints[k] == old(previousJoints)[k]
      {
        var landmark := landmarks[idx];
        var raw := RawPosition(landmark, depth, sizes, project);
        var current;
        if idx in previousJoints {
          var prev := previousJoints[idx];
          current := Vec3(raw.x * SmoothingFactor + prev.x * (1.0 - SmoothingFactor),
                          raw.y * SmoothingFactor + prev.y * (1.0 - SmoothingFactor),
                          raw.z * SmoothingFactor + prev.z * (1.0 - SmoothingFactor));
          assert current == Smooth(raw, Some(prev), SmoothingFactor);
        } else {
          current := raw;
        }
        assert Lookup(previousJoints, idx) == Lookup(old(previousJoints), idx);
        previousJoints := previousJoints[idx := current];
        landmarks3d := landmarks3d[idx := current];
        joints := joints + [OutJoint(idx, current, landmark.visibility)];
      }
      IndexSetCount(landmarks3d.Keys, |landmarks|);
      assert |landmarks3d| == |landmarks3d.Keys|;
    }

    /**
     * One pass of the capture loop. A pass without a usable colour frame sends nothing.
     * Otherwise the datagram carries the current frame index and the smoothed joints
     * (none without a pose), the index grows by one, an angle row is recorded when
     * recording with more than 28 landmarks, and the key quits or toggles recording.
     */
    method Tick(capture: Option<Capture>, sizes: StreamSizes, project: (int, int, real) -> (real, real))
      returns (sent: Option<Datagram>, angleRowFrame: Option<int>, quit: bool)
      requires sizes.colorW != 0 && sizes.colorH != 0
      requires capture.Some? && capture.value.depth.Some? ==>
        var img := capture.value.depth.value;
        Shaped(img) && img.width == sizes.depthW && img.height == sizes.depthH
      modifies this
      ensures capture.None? ==>
        && sent.None? && angleRowFrame.None? && !quit
        && previousJoints == old(previousJoints) && frameIdx == old(frameIdx) && isRecording == old(isRecording)
      ensures capture.Some? ==>
        && sent.Some? && sent.value.frame == old(frameIdx)
        && frameIdx == old(frameIdx) + 1
        && (capture.value.pose.None? ==> sent.value.joints == [] && previousJoints == old(previousJoints))
        && (capture.value.pose.Some? ==>
              var pose := capture.value.pose.value;
              && |sent.value.joints| == |pose|
              && (forall i :: 0 <= i < |pose| ==>
                    && i in previousJoints
                    && previousJoints[i] == Smooth(RawPosition(pose[i], capture.value.depth, sizes, project),
                                                   Lookup(old(previousJoints), i), SmoothingFactor)
                    && sent.value.joints[i] == OutJoint(i, previousJoints[i], pose[i].visibility))
              && (forall k :: k in previousJoints <==> k in old(previousJoints) || 0 <= k < |pose|)
              && (forall k :: k in old(previousJoints) && !(0 <= k < |pose|) ==> previousJoints[k] == old(previousJoints)[k]))
        && (angleRowFrame.Some? <==> old(isRecording) && capture.value.pose.Some? && |capture.value.pose.value| > MinLandmarksForAngles)
        && (angleRowFrame.Some? ==> angleRowFrame.value == old(frameIdx))
        && (quit <==> capture.value.key == KeyQuit || capture.value.key == KeyEscape)
        && isRecording == (if capture.value.key == KeyRecord then !old(isRecording) else old(isRecording))
    {
      sent, angleRowFrame, quit := None, None, false;
      if capture.None? {
        return;
      }
      var c := capture.value;
      var joints: seq<OutJoint> := [];
      if c.pose.Some? {
        var landmarks3d;
        joints, landmarks3d := ProcessLandmarks(c.pose.value, c.depth, sizes, project);
        if isRecording && |landmarks3d| > MinLandmarksForAngles {
          angleRowFrame := Some(frameIdx);
        }
      }
      sent := Some(Datagram(frameIdx, joints));
      frameIdx := frameIdx + 1;
      if c.key == KeyQuit || c.key == KeyEscape {
        quit := true;
      } else if c.key == KeyRecord {
        isRecording := !isRecording;
      }
    }
  }
}
