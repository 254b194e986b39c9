# Skeleton body tracking: a verified model

This project models the core of a body-tracking system. It has two halves.

The producer is a Python capture loop (`main.py`). For each colour frame it:
- gives every pose landmark a depth from the depth camera, or 1.5 m without one;
- smooths the landmark against its previous position with a low-pass filter;
- sends the joints, tagged with a frame counter, as one datagram.

The consumer is a Unity component (`SkeletonDataReceiver.cs`). It holds:
- a one-slot mailbox filled by a listener thread;
- 33 joint spheres and a 30-slot limb array holding 21 cylinders, updated in place once per frame;
- five "virtual" bones (spine, clavicles, hip bones) drawn from midpoint anchors;
- a dashboard showing the two elbow angles.

Beside these sit a depth-camera preview (`OrbbecPluginController.cs`) and two webcam start-up scripts (`OrbbecWebCamTest.cs`, `SimpleWebCam.cs`):
- the preview fills a 640x480 buffer of 16-bit depths, scans it for its nearest and farthest valid reading, rewrites a colour buffer in place, and has a guarded shutdown;
- the webcam scripts pick a camera by name.

Modules, one per concern:

- `Wrappers` (wrappers.dfy): `Option`.
- `Geometry` (geometry.dfy): 3-vectors over the reals, midpoint and squared distance.
- `SkeletonPose` (skeleton_pose.dfy): what one processed message does to the skeleton, as pure functions over values, with the lemmas about them.
- `SkeletonReceiver` (skeleton_receiver.dfy): the receiving component as a class. It has the mailbox fields, a `joints` array of 33 slots, a `limbs` array of 30 slots and the five virtual-bone fields. Each method is proved to leave exactly the state that `SkeletonPose` describes.
- `DepthView` (depth_view.dfy): pixel layout, scans, normalisation and per-pixel colour of the depth preview.
- `PluginController` (plugin_controller.dfy): the preview component as a class over a depth `array` and a colour `array`.
- `Tracker` (tracker.dfy): depth sampling and smoothing, plus the capture loop's state as a class. The state is the `previous_joints` map, the frame counter and the recording flag.
- `Text` (text.dfy): ordinal substring search and lower-casing.
- `OrbbecWebCam` (orbbec_webcam.dfy) and `SimpleWebCam` (simple_webcam.dfy): the two camera-selection loops and the start-up wait.

Parameters stand in for everything the model cannot see:
- the JSON decoder: `decode`, a `string -> Option<SkeletonMessage>`, where None is a document that is null or does not parse;
- the angle between two vectors: `vectorAngle`;
- the pinhole projection: `project`;
- the camera bridge's "frame delivered" answer and native frame count;
- the key pressed;
- the width a webcam stream reports after k waits: `widthAt`.

Two behaviours of the source worth noting:
- A joint slot does not keep the entry's visibility. It keeps only the flag "visibility > 0.5" (`SkeletonDataReceiver.cs:147`).
- A real bone whose joints are not both shown is only hidden, and keeps its previous geometry (`SkeletonDataReceiver.cs:204`). The five virtual bones are not even hidden when the torso is lost (`SkeletonDataReceiver.cs:159`).

## Model

| member | source | states |
|---|---|---|
| SkeletonPose.BoneTableFits | Assets/SkeletonDataReceiver.cs:36-48 | the bone table has 21 pairs, fits the 30 limb slots, and every pair names two joints in 0..32 |
| SkeletonPose.Placed | Assets/SkeletonDataReceiver.cs:143-148 | a placed joint is shown iff its visibility exceeds 0.5; its position is (x, -y, z) scaled by globalScale |
| SkeletonPose.LastWithId | Assets/SkeletonDataReceiver.cs:141-149 | the entry returned carries id k and no later entry carries id k, so it is the last one; there is none iff no entry carries id k |
| SkeletonPose.MergeJoints | Assets/SkeletonDataReceiver.cs:141-149 | the joint loop keeps 33 slots and leaves every slot whose id no entry carries as it was; MergeSlot gives every other slot |
| SkeletonPose.MergeSlot | Assets/SkeletonDataReceiver.cs:141-149 | after the joint loop, slot k holds the last message entry with id k, placed, or its old value when no entry has id k |
| SkeletonPose.StaleHold | Assets/SkeletonDataReceiver.cs:141-149 | a slot whose id the message does not carry keeps its previous position, size and shown state |
| SkeletonPose.OutOfRangeEntryIgnored | Assets/SkeletonDataReceiver.cs:143 | inserting an entry with id outside 0..32 anywhere in a message does not change the merged joints |
| SkeletonPose.MergeIdempotent | Assets/SkeletonDataReceiver.cs:141-149 | merging the same entries twice gives the same joints as merging them once |
| SkeletonPose.Segment | Assets/SkeletonDataReceiver.cs:207-215 | a drawn segment is shown |
| SkeletonPose.UpdateBone | Assets/SkeletonDataReceiver.cs:190-205 | a real bone is shown iff both joints are shown; then it is centred on their midpoint at squared half-length from each; otherwise it is the old bone with only its shown flag cleared |
| SkeletonPose.UpdateLimbs | Assets/SkeletonDataReceiver.cs:151-156 | limb i < 21 is shown iff both joints of bone pair i are shown; slots 21..29 are untouched |
| SkeletonPose.UpdateVirtual | Assets/SkeletonDataReceiver.cs:158-179 | with joints 11, 12, 23 and 24 shown, all five virtual bones are shown, centred between neck and pelvis, neck and each shoulder, and pelvis and each hip; otherwise all five are as before |
| SkeletonPose.SegmentSpans | Assets/SkeletonDataReceiver.cs:195-198 | a segment's centre minus or plus half its axis gives its two ends; the centre's squared distance to each end is the stored squared half-length |
| Geometry.MidpointSplitsSegment | Assets/SkeletonDataReceiver.cs:211-212 | half of (end - start) either side of the midpoint reaches start and end |
| Geometry.MidpointEquidistant | Assets/SkeletonDataReceiver.cs:166-167 | the midpoint is equidistant from both endpoints, at a quarter of the squared length |
| SkeletonPose.JointAngle | Assets/SkeletonDataReceiver.cs:217-222 | the angle is 0 when any of the three joints is not shown, else the angle between the two vectors from the middle joint |
| SkeletonPose.Process | Assets/SkeletonDataReceiver.cs:134-188 | processing a message keeps 33 joint slots and 30 limb slots |
| SkeletonPose.NullMessageIgnored | Assets/SkeletonDataReceiver.cs:136-137 | a document that is null or has no joint list leaves the whole pose unchanged |
| SkeletonPose.ProcessJoints | Assets/SkeletonDataReceiver.cs:139-149 | after a message, each joint is the last entry for it, placed, or its old value |
| SkeletonPose.ProcessRealBones | Assets/SkeletonDataReceiver.cs:151-156 | limb i < 21 is shown iff both joints of pair i are shown; when shown it spans them with thickness globalScale * boneThickness; when hidden it keeps its old geometry; slots 21..29 are untouched |
| SkeletonPose.ProcessVirtualBones | Assets/SkeletonDataReceiver.cs:158-179 | when joints 11, 12, 23, 24 are all shown, the spine runs neck to pelvis, the clavicles run neck to each shoulder, and the hip bones run pelvis to each hip; otherwise all five virtual bones are exactly as before |
| SkeletonPose.ProcessElbowAngles | Assets/SkeletonDataReceiver.cs:181-187 | with a dashboard, an elbow angle is 0 whenever that side's shoulder, elbow or wrist is not shown |
| SkeletonPose.ProcessIdempotent | Assets/SkeletonDataReceiver.cs:134-188 | processing the same message twice leaves the same pose as processing it once |
| SkeletonReceiver.Receiver.constructor | Assets/SkeletonDataReceiver.cs:59-84 | 33 fresh joint spheres, a fresh cylinder in every limb slot, five fresh virtual bones, an empty mailbox with the flag down |
| SkeletonReceiver.Receiver.ReceiveData | Assets/SkeletonDataReceiver.cs:117-119 | the datagram text overwrites the mailbox and raises the flag |
| SkeletonReceiver.Receiver.Update | Assets/SkeletonDataReceiver.cs:125-132 | with the flag up, the flag is lowered and the pose becomes Process of the old pose and the decoded mailbox text; with it down, nothing changes |
| SkeletonReceiver.Receiver.ProcessJSON | Assets/SkeletonDataReceiver.cs:134-188 | the arrays and fields afterwards are exactly Process of the old pose and the decoded document; the mailbox is untouched |
| SkeletonReceiver.Receiver.MergeJointData | Assets/SkeletonDataReceiver.cs:139-149 | the joint array afterwards is MergeJoints of its old contents and the entries |
| SkeletonReceiver.Receiver.UpdateStandardLimbs | Assets/SkeletonDataReceiver.cs:151-156 | the limb array afterwards is UpdateLimbs of its old contents and the joints |
| SkeletonReceiver.Receiver.UpdateVirtualSpine | Assets/SkeletonDataReceiver.cs:158-179 | the five virtual-bone fields afterwards are UpdateVirtual of their old values and the joints |
| SkeletonReceiver.TwoDeliveriesOnePoll | Assets/SkeletonDataReceiver.cs:110-132 | two datagrams before one poll, then a second poll, leave the pose as if only the second datagram had been processed |
| DepthView.PixelIndexRoundTrip | Assets/OrbbecPluginController.cs:296-301 | for an in-frame pixel, y * 640 + x is a buffer position, and x and y are recovered from it by remainder and quotient |
| DepthView.IndexPixelRoundTrip | Assets/OrbbecPluginController.cs:296-301 | every buffer position is the index of the in-frame pixel (i % 640, i / 640) |
| DepthView.MinWhereIsLeast | Assets/OrbbecPluginController.cs:161-169 | the minimum scan returns a kept reading no greater than any kept reading, and 65535 when none is kept |
| DepthView.MaxWhereIsGreatest | Assets/OrbbecPluginController.cs:161-169 | the maximum scan returns a kept reading no smaller than any kept reading, and 0 when none is kept |
| DepthView.CountWhereBounds | Assets/OrbbecPluginController.cs:132-140 | the nonzero count is at most the buffer length, and 0 iff every reading is 0 |
| DepthView.ChooseMapping | Assets/OrbbecPluginController.cs:171-186 | the measured range is used iff minV < maxV, with offset minV and range max(1, maxV - minV); otherwise offset 0 and range max(1, visualizationRange); the range is always at least 1 |
| DepthView.FrameMapping | Assets/OrbbecPluginController.cs:161-186 | range at least 1; with the measured range, every valid reading lies in [offset, offset + range], and the nearest and farthest valid readings sit exactly at its two ends; otherwise offset 0 and range max(1, visualizationRange) |
| DepthView.MinMaxIffTwoDistinct | Assets/OrbbecPluginController.cs:161-171 | a frame uses the measured range iff it holds two different valid readings |
| DepthView.BinaryColor | Assets/OrbbecPluginController.cs:191-200 | opaque gray; white iff 0 < v < threshold and v < 65000, black otherwise |
| DepthView.GrayColor | Assets/OrbbecPluginController.cs:205-228 | opaque gray with shade in [0, 1]; black for a reading that is 0 or at least 65000 |
| DepthView.PixelColor | Assets/OrbbecPluginController.cs:188-229 | every pixel colour is opaque gray with a shade in [0, 1] |
| DepthView.GrayInversion | Assets/OrbbecPluginController.cs:218-223 | with inversion, a valid reading gets 1 minus the shade it would get without |
| DepthView.GrayShade | Assets/OrbbecPluginController.cs:218-219 | without inversion, a valid reading inside [offset, offset + range] gets shade (v - offset) / range; below that window it is black and above it white |
| DepthView.GrayMonotone | Assets/OrbbecPluginController.cs:218-223 | with inversion, a nearer valid reading is never darker than a farther one; without it, never brighter |
| DepthView.MeasuredRangeEnds | Assets/OrbbecPluginController.cs:175-180 | with the measured range, the nearest valid reading maps to shade 0 and the farthest to 1, swapped by inversion |
| PluginController.DepthPreview.constructor | Assets/OrbbecPluginController.cs:12-36 | settings stored, no buffers, neither initialised nor shutting down |
| PluginController.DepthPreview.Start | Assets/OrbbecPluginController.cs:56-62 | on camera start-up, both buffers are freshly allocated and all zero (transparent black colours), so every pixel reads depth 0 until the first frame, and the component is initialised; otherwise nothing changes |
| PluginController.DepthPreview.GetDepthAtPixel | Assets/OrbbecPluginController.cs:296-301 | 0 without a buffer or outside 640x480; otherwise the buffer reading at y * 640 + x |
| PluginController.AccessorCoversBuffer | Assets/OrbbecPluginController.cs:296-301 | every buffer position is what the accessor returns for the pixel stored there |
| PluginController.DepthPreview.ScanValidRange | Assets/OrbbecPluginController.cs:158-169 | the loop's minV and maxV are the least and greatest valid readings, with 65535 and 0 when none is valid |
| PluginController.DepthPreview.UpdateTexture | Assets/OrbbecPluginController.cs:154-230 | every colour position is rewritten to the colour of the depth at the same position, under the frame's mapping and the inspector settings |
| PluginController.DepthPreview.DepthStatistics | Assets/OrbbecPluginController.cs:130-142 | least and greatest nonzero readings, the nonzero count, and the centre pixel |
| PluginController.DepthPreview.Update | Assets/OrbbecPluginController.cs:91-152 | no effect before start-up or after shutdown; Escape shuts down; a delivered frame is copied, fully repainted, and reported every 20th native frame |
| PluginController.DepthPreview.Shutdown | Assets/OrbbecPluginController.cs:246-251 | the first call raises the shutting-down flag and clears the initialised flag; later calls change nothing |
| PluginController.ShutdownTwiceThenTick | Assets/OrbbecPluginController.cs:93 | after two shutdowns a tick changes neither the flags nor either buffer |
| Tracker.Trunc | main.py:144-151 | conversion to an integer drops the fraction toward zero |
| Tracker.SampleDepth | main.py:147-154 | the depth is reading / 1000 when the mapped depth pixel is inside the image and reads more than 0, and 1.5 otherwise; it is always positive |
| Tracker.RawPosition | main.py:144-158 | the raw position's depth is the sampled depth at the truncated pixel, always positive and 1.5 without a depth image; x and y are the projection of that pixel at that depth |
| Tracker.Smooth | main.py:167-168 | on first sighting of a landmark the raw reading is passed through |
| Tracker.SmoothExtremes | main.py:18-21 | a factor of 1 passes the raw reading through; a factor of 0 freezes the previous position |
| Tracker.SmoothLag | main.py:161-166 | the smoothed position's lag behind the raw reading is the previous lag scaled by (1 - factor) |
| Tracker.SmoothBetween | main.py:161-166 | with a factor in [0, 1], each smoothed coordinate lies between the raw and the previous coordinate |
| Tracker.Tracker.constructor | main.py:34 | no previous joints, frame counter 0, not recording |
| Tracker.Tracker.ProcessLandmarks | main.py:143-180 | landmark i is smoothed against previous_joints[i] and stored back under i; joint i of the list carries id i, that position and the landmark's visibility; landmarks_3d has exactly the keys 0..n-1; other previous entries are kept |
| Tracker.Tracker.Tick | main.py:110-223 | without a colour frame nothing is sent; otherwise the datagram carries the old counter and, per landmark i, id i, its visibility and the position smoothed against the old previous_joints[i], which is also stored under i; other previous entries are kept; the counter grows by one; an angle row is recorded iff recording with more than 28 landmarks; q or Escape quits; s toggles recording |
| Text.ToLowerChar | Assets/OrbbecWebCamTest.cs:31-34 | the result is never a capital letter; capitals move to their lower-case letter; every other character is kept |
| Text.ToLowerIdempotent | Assets/OrbbecWebCamTest.cs:31-34 | lower-casing a lower-cased name changes nothing |
| Text.ContainsIffOccurs | Assets/SimpleWebCam.cs:34 | the substring scan answers yes iff the pattern occurs at some position |
| Text.ContainsLowered | Assets/OrbbecWebCamTest.cs:31-34 | an exact occurrence is still found after lower-casing both name and pattern |
| Text.LoweredMissesCapitals | Assets/SimpleWebCam.cs:34 | a pattern with a capital letter never occurs in a lower-cased name |
| OrbbecWebCam.SelectOrbbecCamera | Assets/OrbbecWebCamTest.cs:28-40 | none iff no device passes the vendor-and-RGB test; otherwise the first passing device in list order |
| OrbbecWebCam.WaitForCamera | Assets/OrbbecWebCamTest.cs:58-70 | at most 100 waits; every width seen before stopping is below 100; fewer than 100 waits means the width reached 100; failure iff the final width is below 100, which needs all 100 waits |
| OrbbecWebCam.StartCamera | Assets/OrbbecWebCamTest.cs:15-70 | the request is always 1280x720 at 30 fps; the default camera is requested iff no device passes the test, else the first passing one; ready iff the final width is at least 100 |
| OrbbecWebCam.SelectionIgnoresCase | Assets/OrbbecWebCamTest.cs:31-34 | a name and its lower-cased form pass or fail the test alike |
| OrbbecWebCam.CapitalisedNameMatches | Assets/OrbbecWebCamTest.cs:31-34 | a name holding "Orbbec", "ORBBEC", "Gemini" or "GEMINI" together with "RGB" passes the test |
| SimpleWebCam.StartCamera | Assets/SimpleWebCam.cs:24-39 | none iff the list is empty; the chosen name is always a device of the list; it is the first device holding "RGB", or device 0 when none does |
| SimpleWebCam.LowerCaseNamesKeepDefault | Assets/SimpleWebCam.cs:30-39 | when every name is in lower case, device 0 is kept: "rgb" does not match "RGB" |

## Left out

- The UDP socket, the listener thread and its shutdown (`SkeletonDataReceiver.cs:97-123, 224-229`). The listener is modelled as sequential calls of `ReceiveData`. The race between the listener and `Update` is not modelled.
- JSON parsing (`JsonUtility.FromJson` in `SkeletonDataReceiver.cs`, `json.dumps` in `main.py`). It is the `decode` parameter, and the wire format itself is not modelled.
- Rendering: colliders, materials, names and the green/white bone colours (`SkeletonDataReceiver.cs:200-202`). The dashboard text formatting is also left out.
- Orientation: a bone keeps its axis vector (end - start) instead of the unit "up" rotation Unity derives from it.
- The transform hierarchy: joints are placed by local position but read back by world position. The model treats the parent transform as the identity.
- SkeletonPose.Segment: stores the squared half-length instead of the half-length in the y scale, because the reals here have no square root.
- SkeletonPose.JointAngle: the angle value is the `vectorAngle` parameter. Only the "untracked joint gives 0" rule and the choice of vectors are modelled, not the trigonometry.
- SkeletonReceiver.Receiver.constructor: in the source, limb slots 21..29 are never created and stay null. The model fills them with a fresh cylinder, and no operation touches them.
- Floating point: positions, scales and depths are exact reals, so neither float (C#) nor double (Python) rounding is modelled, including the truncation of a rounded pixel coordinate in `main.py`.
- The native camera bridge (`OrbbecPluginController.cs:17-30`): start-up success, frame delivery and the native frame count are parameters. Texture upload, `GC.Collect`, `Thread.Sleep`, the frame-rate throttle with the garbage-collection timer (`OrbbecPluginController.cs:95-105`), status text and logging are left out.
- PluginController.DepthPreview.Update: the exception handler that calls `Shutdown` is not modelled (`OrbbecPluginController.cs:147-151`). The model's operations cannot fail.
- `Assets/SimplePluginTest.cs` is not part of this model: every operation in it is a call into the native library.
- `main.py`'s device work is left out: the camera pipeline, pose inference, image decoding and display, the CSV file and the timestamps. Tracker.Tracker.Tick reports only the frame whose angle row would be written.
- `main.py`'s pinhole projection with the camera intrinsics is the `project` parameter, and `calculate_angle_3d` is not modelled.
- The webcam runtime: `WebCamTexture`, coroutines, waiting, texture assignment and logging. The stream width is the `widthAt` parameter.
- Text.ToLower: folds only the 26 ASCII capitals, whereas .NET lower-casing is culture-aware and covers all of Unicode.
