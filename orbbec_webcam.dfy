/**
 * The colour-camera start-up of the Orbbec test component: pick the first device
 * whose lower-cased name names the vendor (or its Gemini product line) and its RGB
 * stream, fall back to the default camera, then wait a bounded number of polls for
 * the stream to report a usable width.
 */
module OrbbecWebCam {
  import opened Wrappers
  import opened Text

  /** The stream every request asks for: 1280x720 at 30 frames per second. */
  const RequestWidth := 1280
  const RequestHeight := 720
  const RequestFps := 30
  /** A width below this means the stream has not started yet. */
  const ReadyWidth := 100
  /** How many 0.1 s waits the start-up allows. */
  const WaitBudget := 100

  /** What the component asks the camera runtime to open: a named device, or the default one when None. */
  datatype CameraRequest = CameraRequest(device: Option<string>, width: int, height: int, fps: int)

  /** The selection test: the lower-cased name contains "orbbec" or "gemini", and contains "rgb". */
  predicate IsOrbbecRgb(name: string) {
    var low := ToLower(name);
    (Contains(low, "orbbec") || Contains(low, "gemini")) && Contains(low, "rgb")
  }

  /** Device i passes the test and no earlier device does. */
  predicate FirstMatchAt(devices: seq<string>, i: int) {
    && 0 <= i < |devices| && IsOrbbecRgb(devices[i])
    && forall j :: 0 <= j < i ==> !IsOrbbecRgb(devices[j])
  }

  /** The device loop: the first passing device in list order, or none. */
  method SelectOrbbecCamera(devices: seq<string>) returns (chosen: Option<string>)
    ensures chosen.None? <==> forall i :: 0 <= i < |devices| ==> !IsOrbbecRgb(devices[i])
    ensures chosen.Some? ==> exists i :: FirstMatchAt(devices, i) && chosen.value == devices[i]
  {
    chosen := None;
    for i := 0 to |devices|
      invariant chosen.None?
      invariant forall j :: 0 <= j < i ==> !IsOrbbecRgb(devices[j])
    {
      var low := ToLower(devices[i]);
      if Contains(low, "orbbec") || Contains(low, "gemini") {
        if Contains(low, "rgb") {
          chosen := Some(devices[i]);
          assert FirstMatchAt(devices, i);
          break;
        }
      }
    }
  }

  /**
   * The start-up wait. `widthAt(k)` is the width the stream reports after k waits.
   * The countdown starts at 100 and stops at the first ready width or when it runs
   * out; the start fails exactly when the width read after the loop is still too small.
   */
  method WaitForCamera(widthAt: nat -> int) returns (waits: nat, failed: bool)
    ensures waits <= WaitBudget
    ensures forall k :: 0 <= k < waits ==> widthAt(k) < ReadyWidth
    ensures waits < WaitBudget ==> widthAt(waits) >= ReadyWidth
    ensures failed <==> widthAt(waits) < ReadyWidth
    ensures failed ==> waits == WaitBudget
  {
    var timeout := WaitBudget;
    while widthAt(WaitBudget - timeout) < ReadyWidth && timeout > 0
      invariant 0 <= timeout <= WaitBudget
      invariant forall k :: 0 <= k < WaitBudget - timeout ==> widthAt(k) < ReadyWidth
      decreases timeout
    {
      timeout := timeout - 1;
    }
    waits := WaitBudget - timeout;
    failed := widthAt(waits) < ReadyWidth;
  }

  /** The whole start-up: selection, the request it leads to, and the wait. */
  method StartCamera(devices: seq<string>, widthAt: nat -> int) returns (request: CameraRequest, waits: nat, ready: bool)
    ensures request.width == RequestWidth && request.height == RequestHeight && request.fps == RequestFps
    ensures request.device.None? <==> forall i :: 0 <= i < |devices| ==> !IsOrbbecRgb(devices[i])
    ensures request.device.Some? ==> exists i :: FirstMatchAt(devices, i) && request.device.value == devices[i]
    ensures waits <= WaitBudget && forall k :: 0 <= k < waits ==> widthAt(k) < ReadyWidth
    ensures ready <==> widthAt(waits) >= ReadyWidth
    ensures !ready ==> waits == WaitBudget
  {
    var chosen := SelectOrbbecCamera(devices);
    request := CameraRequest(chosen, RequestWidth, RequestHeight, RequestFps);
    var failed;
    waits, failed := WaitForCamera(widthAt);
    ready := !failed;
  }

  /** The test ignores case: a name and its lower-cased form are chosen alike. */
  lemma SelectionIgnoresCase(name: string)
    ensures IsOrbbecRgb(name) <==> IsOrbbecRgb(ToLower(name))
  {
    ToLowerIdempotent(name);
  }

  /** Capitalised vendor and stream words still match, because the name is lower-cased first. */
  lemma CapitalisedNameMatches(name: string)
    requires Contains(name, "Orbbec") || Contains(name, "ORBBEC") || Contains(name, "Gemini") || Contains(name, "GEMINI")
    requires Contains(name, "RGB")
    ensures IsOrbbecRgb(name)
  {
    assert ToLower("Orbbec") == "orbbec";
    assert ToLower("ORBBEC") == "orbbec";
    assert ToLower("Gemini") == "gemini";
    assert ToLower("GEMINI") == "gemini";
    assert ToLower("RGB") == "rgb";
    if Contains(name, "Orbbec") { ContainsLowered(name, "Orbbec"); }
    if Contains(name, "ORBBEC") { ContainsLowered(name, "ORBBEC"); }
    if Contains(name, "Gemini") { ContainsLowered(name, "Gemini"); }
    if Contains(name, "GEMINI") { ContainsLowered(name, "GEMINI"); }
    ContainsLowered(name, "RGB");
  }
}
