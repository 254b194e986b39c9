/**
 * The plain webcam component: refuse an empty device list, otherwise default to
 * the first device and switch to the first one whose name holds "RGB", matched
 * with case.
 */
module SimpleWebCam {
  import opened Wrappers
  import opened Text

  /** Device i holds "RGB" and no earlier device does. */
  predicate FirstRgbAt(devices: seq<string>, i: int) {
    && 0 <= i < |devices| && Contains(devices[i], "RGB")
    && forall j :: 0 <= j < i ==> !Contains(devices[j], "RGB")
  }

  /** The name the component opens, or None when there is no camera at all. */
  method StartCamera(devices: seq<string>) returns (camName: Option<string>)
    ensures camName.None? <==> |devices| == 0
    ensures camName.Some? ==> camName.value in devices
    ensures |devices| > 0 && (forall i :: 0 <= i < |devices| ==> !Contains(devices[i], "RGB")) ==>
              camName == Some(devices[0])
    ensures forall i :: FirstRgbAt(devices, i) ==> camName == Some(devices[i])
  {
    if |devices| == 0 {
      return None;
    }
    var name := devices[0];
    for i := 0 to |devices|
      invariant name == devices[0]
      invariant forall j :: 0 <= j < i ==> !Contains(devices[j], "RGB")
    {
      if Contains(devices[i], "RGB") {
        name := devices[i];
        assert FirstRgbAt(devices, i);
        break;
      }
    }
    camName := Some(name);
  }

  /** The match is case-sensitive: with every name in lower case the first device is kept. */
  method LowerCaseNamesKeepDefault(devices: seq<string>) returns (camName: Option<string>)
    requires |devices| > 0
    requires forall i :: 0 <= i < |devices| ==> devices[i] == ToLower(devices[i])
    ensures camName == Some(devices[0])
  {
    forall i | 0 <= i < |devices|
      ensures !Contains(devices[i], "RGB")
    {
      LoweredMissesCapitals(devices[i], "RGB", 0);
    }
    camName := StartCamera(devices);
  }
}
