/**
 * The depth-camera preview component: a 640x480 depth buffer filled by the native
 * camera bridge, a colour buffer of the same size rewritten in place from it each
 * frame, the debug statistics, the pixel accessor and the guarded shutdown.
 */
module PluginController {
  import opened Wrappers
  import opened DepthView

  /** The values the debug log line reports for a frame. */
  datatype DepthStats = DepthStats(minDepth: UShort, maxDepth: UShort, nonZeroCount: nat, centerVal: UShort)

  class DepthPreview {
    // Inspector settings.
    const visualizationRange: real
    const useBinaryThreshold: bool
    const threshold: real
    const invertDisplay: bool

    var depthBuffer: array?<UShort>
    var colorBuffer: array?<Color>
    var isInitialized: bool
    var isShuttingDown: bool

    ghost predicate Valid()
      reads this
    {
      && (depthBuffer == null <==> colorBuffer == null)
      && (depthBuffer != null ==> depthBuffer.Length == PixelCount && colorBuffer.Length == PixelCount)
      && (isInitialized ==> depthBuffer != null)
    }

    constructor (visualizationRange: real, useBinaryThreshold: bool, threshold: real, invertDisplay: bool)
      ensures Valid()
      ensures this.visualizationRange == visualizationRange && this.useBinaryThreshold == useBinaryThreshold
      ensures this.threshold == threshold && this.invertDisplay == invertDisplay
      ensures depthBuffer == null && colorBuffer == null && !isInitialized && !isShuttingDown
    {
      this.visualizationRange := visualizationRange;
      this.useBinaryThreshold := useBinaryThreshold;
      this.threshold := threshold;
      this.invertDisplay := invertDisplay;
      depthBuffer, colorBuffer := null, null;
      isInitialized, isShuttingDown := false, false;
    }

    /**
     * Start-up: when the camera bridge reports success, allocate both buffers and mark
     * the component initialised. The new buffers are all zeros, so until the first frame
     * arrives every pixel reads as 0, the invalid reading.
     */
    method Start(cameraStarted: bool)
      requires Valid()
      modifies this
      ensures Valid() && isShuttingDown == old(isShuttingDown)
      ensures cameraStarted ==> isInitialized && fresh(depthBuffer) && fresh(colorBuffer)
      ensures cameraStarted ==> forall i :: 0 <= i < PixelCount ==>
                depthBuffer[i] == 0 && colorBuffer[i] == Color(0.0, 0.0, 0.0, 0.0)
      ensures cameraStarted ==> forall x, y :: GetDepthAtPixel(x, y) == 0
      ensures !cameraStarted ==> isInitialized == old(isInitialized) && depthBuffer == old(depthBuffer) && colorBuffer == old(colorBuffer)
    {
      if cameraStarted {
        isInitialized := true;
        depthBuffer := new UShort[PixelCount](_ => 0);
        colorBuffer := new Color[PixelCount](_ => Color(0.0, 0.0, 0.0, 0.0));
      }
    }

    /** The depth at pixel (x, y) in millimetres; 0 before allocation or outside the frame. */
    function GetDepthAtPixel(x: int, y: int): (d: UShort)
      requires Valid()
      reads this, depthBuffer
      ensures depthBuffer == null || !(0 <= x < Width && 0 <= y < Height) ==> d == 0
      ensures depthBuffer != null && 0 <= x < Width && 0 <= y < Height ==> d == depthBuffer[PixelIndex(x, y)]
    {
      if depthBuffer == null then 0
      else if x < 0 || x >= Width || y < 0 || y >= Height then 0
      else
        PixelIndexRoundTrip(x, y);
        depthBuffer[y * Width + x]
    }

    /** The minimum/maximum pass of the texture update, over valid readings only. */
    method ScanValidRange() returns (minV: UShort, maxV: UShort)
      requires Valid() && depthBuffer != null
      ensures minV == MinWhere(depthBuffer[..], ValidOnly) && maxV == MaxWhere(depthBuffer[..], ValidOnly)
    {
      minV, maxV := UShortMax, 0;
      for i := 0 to depthBuffer.Length
        invariant minV == MinWhere(depthBuffer[..i], ValidOnly)
        invariant maxV == MaxWhere(depthBuffer[..i], ValidOnly)
      {
        var v := depthBuffer[i];
        assert depthBuffer[..i + 1][..i] == depthBuffer[..i];
        if v == 0 || v >= InvalidSentinel {
          continue;
        }
        if v < minV { minV := v; }
        if v > maxV { maxV := v; }
      }
      assert depthBuffer[..depthBuffer.Length] == depthBuffer[..];
    }

    /** Rewrites every colour from the depth at the same index, in binary or grayscale mode. */
    method UpdateTexture()
      requires Valid() && depthBuffer != null
      modifies colorBuffer
      ensures forall i :: 0 <= i < PixelCount ==>
        colorBuffer[i] == PixelColor(depthBuffer[i], useBinaryThreshold, threshold,
                                     FrameMapping(depthBuffer[..], visualizationRange), invertDisplay)
    {
      var minV, maxV := ScanValidRange();
      var mapping := ChooseMapping(minV, maxV, visualizationRange);
      if useBinaryThreshold {
        for i := 0 to depthBuffer.Length
          invariant forall k :: 0 <= k < i ==> colorBuffer[k] == BinaryColor(depthBuffer[k], threshold)
        {
          var v := depthBuffer[i];
          var isClose := v > 0 && (v as real) < threshold && v < InvalidSentinel;
          var t := if isClose then 1.0 else 0.0;
          colorBuffer[i] := Color(t, t, t, 1.0);
        }
      } else {
        for i := 0 to depthBuffer.Length
          invariant forall k :: 0 <= k < i ==> colorBuffer[k] == GrayColor(depthBuffer[k], mapping, invertDisplay)
        {
          var v := depthBuffer[i];
          if v == 0 || v >= InvalidSentinel {
            colorBuffer[i] := Color(0.0, 0.0, 0.0, 1.0);
          } else {
            var normalized := ((v as real) - mapping.offset) / mapping.range;
            var display := Clamp01(normalized);
            if invertDisplay {
              display := 1.0 - display;
            }
            colorBuffer[i] := Color(display, display, display, 1.0);
          }
        }
      }
    }

    /** The debug statistics: nonzero count, least and greatest nonzero depth, and the centre pixel when the buffer reaches it. */
    method DepthStatistics() returns (stats: DepthStats)
      requires Valid() && depthBuffer != null
      ensures stats.minDepth == MinWhere(depthBuffer[..], NonZero)
      ensures stats.maxDepth == MaxWhere(depthBuffer[..], NonZero)
      ensures stats.nonZeroCount == CountWhere(depthBuffer[..], NonZero)
      ensures stats.centerVal == if depthBuffer.Length > CenterIndex then depthBuffer[CenterIndex] else 0
    {
      var minDepth: UShort, maxDepth: UShort := UShortMax, 0;
      var nonZeroCount := 0;
      for i := 0 to depthBuffer.Length
        invariant minDepth == MinWhere(depthBuffer[..i], NonZero)
        invariant maxDepth == MaxWhere(depthBuffer[..i], NonZero)
        invariant nonZeroCount == CountWhere(depthBuffer[..i], NonZero)
      {
        var v := depthBuffer[i];
        assert depthBuffer[..i + 1][..i] == depthBuffer[..i];
        if v == 0 {
          continue;
        }
        nonZeroCount := nonZeroCount + 1;
        if v < minDepth { minDepth := v; }
        if v > maxDepth { maxDepth := v; }
      }
      assert depthBuffer[..depthBuffer.Length] == depthBuffer[..];
      var centerVal := if depthBuffer.Length > CenterIndex then depthBuffer[CenterIndex] else 0;
      stats := DepthStats(minDepth, maxDepth, nonZeroCount, centerVal);
    }

    /**
     * One frame tick that passed the frame-rate throttle. Escape shuts down; a frame
     * delivered by the camera bridge is copied into the depth buffer and rendered, and
     * every 20th native frame the statistics are reported. Nothing happens before
     * initialisation or after shutdown.
     */
    method Update(escapePressed: bool, frame: Option<seq<UShort>>, nativeFrames: int) returns (stats: Option<DepthStats>)
      requires Valid()
      requires frame.Some? ==> |frame.value| == PixelCount
      modifies this, depthBuffer, colorBuffer
      ensures Valid() && depthBuffer == old(depthBuffer) && colorBuffer == old(colorBuffer)
      ensures !old(isInitialized) || old(isShuttingDown) ==>
                stats.None? && isInitialized == old(isInitialized) && isShuttingDown == old(isShuttingDown)
                && (depthBuffer != null ==> depthBuffer[..] == old(depthBuffer[..]) && colorBuffer[..] == old(colorBuffer[..]))
      ensures old(isInitialized) && !old(isShuttingDown) && escapePressed ==>
                stats.None? && isShuttingDown && !isInitialized
                && depthBuffer[..] == old(depthBuffer[..]) && colorBuffer[..] == old(colorBuffer[..])
      ensures old(isInitialized) && !old(isShuttingDown) && !escapePressed ==>
                isInitialized && !isShuttingDown
                && (frame.None? ==> stats.None? && depthBuffer[..] == old(depthBuffer[..]) && colorBuffer[..] == old(colorBuffer[..]))
      ensures old(isInitialized) && !old(isShuttingDown) && !escapePressed && frame.Some? ==>
                && depthBuffer[..] == frame.value
                && (forall i :: 0 <= i < PixelCount ==>
                      colorBuffer[i] == PixelColor(frame.value[i], useBinaryThreshold, threshold,
                                                   FrameMapping(frame.value, visualizationRange), invertDisplay))
                && (stats.Some? <==> nativeFrames % 20 == 0)
                && (stats.Some? ==> stats.value == DepthStats(MinWhere(frame.value, NonZero), MaxWhere(frame.value, NonZero),
                                                              CountWhere(frame.value, NonZero), frame.value[CenterIndex]))
    {
      stats := None;
      if !isInitialized || isShuttingDown {
        return;
      }
      if escapePressed {
        Shutdown();
        return;
      }
      if frame.Some? {
        var pixels := frame.value;
        forall i | 0 <= i < PixelCount {
          depthBuffer[i] := pixels[i];
        }
        assert depthBuffer[..] == pixels;
        UpdateTexture();
        if nativeFrames % 20 == 0 {
          var s := DepthStatistics();
          stats := Some(s);
        }
      }
    }

    /** Stops the component once: the first call clears the initialised flag and raises the shutting-down flag; later calls return at once. */
    method Shutdown()
      requires Valid()
      modifies this`isShuttingDown, this`isInitialized
      ensures Valid()
      ensures old(isShuttingDown) ==> isShuttingDown && isInitialized == old(isInitialized)
      ensures !old(isShuttingDown) ==> isShuttingDown && !isInitialized
    {
      if isShuttingDown {
        return;
      }
      isShuttingDown := true;
      isInitialized := false;
    }
  }

  /** Every buffer position is what the accessor returns for the pixel it stores. */
  lemma AccessorCoversBuffer(p: DepthPreview)
    requires p.Valid() && p.depthBuffer != null
    ensures forall i :: 0 <= i < PixelCount ==> p.GetDepthAtPixel(i % Width, i / Width) == p.depthBuffer[i]
  {
    forall i | 0 <= i < PixelCount
      ensures p.GetDepthAtPixel(i % Width, i / Width) == p.depthBuffer[i]
    {
      IndexPixelRoundTrip(i);
    }
  }

  /** Shutting down twice leaves the same flags as once, and a tick afterwards changes nothing. */
  method ShutdownTwiceThenTick(p: DepthPreview, escapePressed: bool, frame: Option<seq<UShort>>, nativeFrames: int)
    requires p.Valid() && !p.isShuttingDown
    requires frame.Some? ==> |frame.value| == PixelCount
    modifies p, p.depthBuffer, p.colorBuffer
    ensures p.isShuttingDown && !p.isInitialized
    ensures p.depthBuffer == old(p.depthBuffer) && p.colorBuffer == old(p.colorBuffer)
    ensures old(p.depthBuffer) != null ==>
              p.depthBuffer[..] == old(p.depthBuffer[..]) && p.colorBuffer[..] == old(p.colorBuffer[..])
  {
    p.Shutdown();
    p.Shutdown();
    var stats := p.Update(escapePressed, frame, nativeFrames);
    assert stats.None?;
  }
}
