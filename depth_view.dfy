/**
 * The arithmetic of the depth preview: the 640x480 pixel layout, the scans for the
 * nearest and farthest depth, the choice of normalisation and the colour of one
 * pixel. Depths are unsigned 16-bit millimetre values; 0 and values from 65000 up
 * mean "no reading".
 */
module DepthView {
  const Width := 640
  const Height := 480
  const PixelCount := 307200
  /** Depths at or above this are treated as invalid (65535 is the usual no-data value). */
  const InvalidSentinel := 65000
  const UShortMax := 65535
  /** (HEIGHT / 2) * WIDTH + (WIDTH / 2): the pixel the debug statistics report. */
  const CenterIndex := 153920

  type UShort = v: int | 0 <= v <= 65535

  /** An RGBA colour with components in real numbers. */
  datatype Color = Color(r: real, g: real, b: real, a: real)

  /** Which depths a scan takes into account: the texture scan skips 0 and invalid values, the statistics skip only 0. */
  datatype Filter = ValidOnly | NonZero

  predicate IsValidDepth(v: int) {
    v != 0 && v < InvalidSentinel
  }

  predicate Keeps(f: Filter, v: int) {
    match f
    case ValidOnly => IsValidDepth(v)
    case NonZero => v != 0
  }

  // ---------------------------------------------------------- pixel layout

  /** Row-major position of pixel (x, y). */
  function PixelIndex(x: int, y: int): int {
    y * Width + x
  }

  /** Inside the frame, the row-major index is a buffer position, and x and y can be read back from it. */
  lemma PixelIndexRoundTrip(x: int, y: int)
    requires 0 <= x < Width && 0 <= y < Height
    ensures 0 <= PixelIndex(x, y) < PixelCount
    ensures PixelIndex(x, y) % Width == x && PixelIndex(x, y) / Width == y
  {
    assert y * Width <= (Height - 1) * Width;
  }

  /** Every buffer position is the row-major index of exactly one in-frame pixel. */
  lemma IndexPixelRoundTrip(i: int)
    requires 0 <= i < PixelCount
    ensures 0 <= i % Width < Width && 0 <= i / Width < Height
    ensures PixelIndex(i % Width, i / Width) == i
  {
    assert i / Width * Width <= i;
    assert (i / Width) * Width < Height * Width;
  }

  // ----------------------------------------------------------------- scans

  /** The least kept depth, or 65535 when none is kept (the scan's starting value). */
  function MinWhere(s: seq<UShort>, f: Filter): UShort
    decreases |s|
  {
    if s == [] then UShortMax
    else
      var m := MinWhere(s[..|s| - 1], f);
      var v := s[|s| - 1];
      if Keeps(f, v) && v < m then v else m
  }

  /** The greatest kept depth, or 0 when none is kept. */
  function MaxWhere(s: seq<UShort>, f: Filter): UShort
    decreases |s|
  {
    if s == [] then 0
    else
      var m := MaxWhere(s[..|s| - 1], f);
      var v := s[|s| - 1];
      if Keeps(f, v) && v > m then v else m
  }

  /** How many depths are kept. */
  function CountWhere(s: seq<UShort>, f: Filter): nat
    decreases |s|
  {
    if s == [] then 0
    else CountWhere(s[..|s| - 1], f) + (if Keeps(f, s[|s| - 1]) then 1 else 0)
  }

  /** The minimum scan finds the least kept depth when there is one, and 65535 otherwise. */
  lemma {:induction false} MinWhereIsLeast(s: seq<UShort>, f: Filter)
    ensures forall i :: 0 <= i < |s| && Keeps(f, s[i]) ==> MinWhere(s, f) <= s[i]
    ensures (exists i :: 0 <= i < |s| && Keeps(f, s[i])) ==>
              exists i :: 0 <= i < |s| && Keeps(f, s[i]) && s[i] == MinWhere(s, f)
    ensures (forall i :: 0 <= i < |s| ==> !Keeps(f, s[i])) ==> MinWhere(s, f) == UShortMax
    decreases |s|
  {
    if s != [] {
      var n := |s| - 1;
      MinWhereIsLeast(s[..n], f);
      assert forall i :: 0 <= i < n ==> s[..n][i] == s[i];
      if exists i :: 0 <= i < |s| && Keeps(f, s[i]) {
        if Keeps(f, s[n]) && s[n] < MinWhere(s[..n], f) {
        } else if Keeps(f, s[n]) && !(exists i :: 0 <= i < n && Keeps(f, s[i])) {
          assert MinWhere(s[..n], f) == UShortMax;
        } else {
          var i :| 0 <= i < n && Keeps(f, s[..n][i]) && s[..n][i] == MinWhere(s[..n], f);
        }
      }
    }
  }

  /** The maximum scan finds the greatest kept depth when there is one, and 0 otherwise. */
  lemma {:induction false} MaxWhereIsGreatest(s: seq<UShort>, f: Filter)
    ensures forall i :: 0 <= i < |s| && Keeps(f, s[i]) ==> s[i] <= MaxWhere(s, f)
    ensures (exists i :: 0 <= i < |s| && Keeps(f, s[i])) ==>
              exists i :: 0 <= i < |s| && Keeps(f, s[i]) && s[i] == MaxWhere(s, f)
    ensures (forall i :: 0 <= i < |s| ==> !Keeps(f, s[i])) ==> MaxWhere(s, f) == 0
    decreases |s|
  {
    if s != [] {
      var n := |s| - 1;
      MaxWhereIsGreatest(s[..n], f);
      assert forall i :: 0 <= i < n ==> s[..n][i] == s[i];
      if Keeps(f, s[n]) && s[n] > MaxWhere(s[..n], f) {
        assert s[n] == MaxWhere(s, f);
      } else if exists i :: 0 <= i < n && Keeps(f, s[i]) {
        var i :| 0 <= i < n && Keeps(f, s[..n][i]) && s[..n][i] == MaxWhere(s[..n], f);
        assert s[i] == MaxWhere(s, f);
      }
    }
  }

  /** The count is zero exactly when nothing is kept, and never exceeds the buffer length. */
  lemma {:induction false} CountWhereBounds(s: seq<UShort>, f: Filter)
    ensures CountWhere(s, f) <= |s|
    ensures CountWhere(s, f) == 0 <==> forall i :: 0 <= i < |s| ==> !Keeps(f, s[i])
    decreases |s|
  {
    if s != [] {
      var n := |s| - 1;
      CountWhereBounds(s[..n], f);
      assert forall i :: 0 <= i < n ==> s[..n][i] == s[i];
    }
  }

  // --------------------------------------------------------- normalisation

  /** How depths are mapped to [0, 1]: (v - offset) / range. */
  datatype Mapping = Mapping(useMinMax: bool, offset: real, range: real)

  function MaxReal(a: real, b: real): real {
    if a >= b then a else b
  }

  /**
   * The measured range when the scan saw two different valid depths, else the
   * fallback range from 0; the range is never below 1, so the division is defined.
   */
  function ChooseMapping(minV: UShort, maxV: UShort, visualizationRange: real): (m: Mapping)
    ensures m.range >= 1.0
    ensures m.useMinMax <==> minV < maxV
    ensures m.useMinMax ==> m.offset == minV as real && m.range == MaxReal(1.0, (maxV - minV) as real)
    ensures !m.useMinMax ==> m.offset == 0.0 && m.range == MaxReal(1.0, visualizationRange)
  {
    if minV < maxV then Mapping(true, minV as real, MaxReal(1.0, (maxV - minV) as real))
    else Mapping(false, 0.0, MaxReal(1.0, visualizationRange))
  }

  /** The mapping the texture pass uses for a frame. */
  function FrameMapping(s: seq<UShort>, visualizationRange: real): (m: Mapping)
    ensures m.range >= 1.0
    ensures m.useMinMax ==> forall i :: 0 <= i < |s| && IsValidDepth(s[i]) ==> m.offset <= s[i] as real <= m.offset + m.range
    ensures m.useMinMax ==> exists i :: 0 <= i < |s| && IsValidDepth(s[i]) && s[i] as real == m.offset
    ensures m.useMinMax ==> exists j :: 0 <= j < |s| && IsValidDepth(s[j]) && s[j] as real == m.offset + m.range
    ensures !m.useMinMax ==> m.offset == 0.0 && m.range == MaxReal(1.0, visualizationRange)
  {
    MinWhereIsLeast(s, ValidOnly);
    MaxWhereIsGreatest(s, ValidOnly);
    ChooseMapping(MinWhere(s, ValidOnly), MaxWhere(s, ValidOnly), visualizationRange)
  }

  /** The measured range is used exactly when the frame holds two different valid depths. */
  lemma MinMaxIffTwoDistinct(s: seq<UShort>, visualizationRange: real)
    ensures FrameMapping(s, visualizationRange).useMinMax <==>
            exists i, j :: 0 <= i < |s| && 0 <= j < |s| && IsValidDepth(s[i]) && IsValidDepth(s[j]) && s[i] < s[j]
  {
    MinWhereIsLeast(s, ValidOnly);
    MaxWhereIsGreatest(s, ValidOnly);
    var lo, hi := MinWhere(s, ValidOnly), MaxWhere(s, ValidOnly);
    if exists i, j :: 0 <= i < |s| && 0 <= j < |s| && IsValidDepth(s[i]) && IsValidDepth(s[j]) && s[i] < s[j] {
      var i, j :| 0 <= i < |s| && 0 <= j < |s| && IsValidDepth(s[i]) && IsValidDepth(s[j]) && s[i] < s[j];
      assert Keeps(ValidOnly, s[i]) && Keeps(ValidOnly, s[j]);
      assert lo <= s[i] < s[j] <= hi;
    }
    if lo < hi {
      var i :| 0 <= i < |s| && Keeps(ValidOnly, s[i]) && s[i] == lo;
      var j :| 0 <= j < |s| && Keeps(ValidOnly, s[j]) && s[j] == hi;
      assert IsValidDepth(s[i]) && IsValidDepth(s[j]) && s[i] < s[j];
    }
  }

  // ------------------------------------------------------------ pixel colour

  function Clamp01(x: real): real {
    if x < 0.0 then 0.0 else if x > 1.0 then 1.0 else x
  }

  /** The threshold mode: white when the reading is valid and nearer than the threshold. */
  function BinaryColor(v: UShort, threshold: real): (c: Color)
    ensures c.a == 1.0 && c.r == c.g == c.b
    ensures c.r == 1.0 <==> 0 < v && (v as real) < threshold && v < InvalidSentinel
    ensures c.r == 0.0 <==> !(0 < v && (v as real) < threshold && v < InvalidSentinel)
  {
    var t := if v > 0 && (v as real) < threshold && v < InvalidSentinel then 1.0 else 0.0;
    Color(t, t, t, 1.0)
  }

  /** The grayscale mode: invalid readings are black; valid ones are normalised, clamped, and inverted when asked. */
  function GrayColor(v: UShort, m: Mapping, invertDisplay: bool): (c: Color)
    requires m.range > 0.0
    ensures c.a == 1.0 && c.r == c.g == c.b
    ensures 0.0 <= c.r <= 1.0
    ensures !IsValidDepth(v) ==> c == Color(0.0, 0.0, 0.0, 1.0)
  {
    if v == 0 || v >= InvalidSentinel then Color(0.0, 0.0, 0.0, 1.0)
    else
      var display := Clamp01(((v as real) - m.offset) / m.range);
      var shade := if invertDisplay then 1.0 - display else display;
      Color(shade, shade, shade, 1.0)
  }

  /** The colour one pixel of the preview gets. */
  function PixelColor(v: UShort, useBinaryThreshold: bool, threshold: real, m: Mapping, invertDisplay: bool): (c: Color)
    requires m.range > 0.0
    ensures c.a == 1.0 && c.r == c.g == c.b && 0.0 <= c.r <= 1.0
  {
    if useBinaryThreshold then BinaryColor(v, threshold) else GrayColor(v, m, invertDisplay)
  }

  lemma DivMonotone(a: real, b: real, d: real)
    requires a <= b && d > 0.0
    ensures a / d <= b / d
  {
    assert b / d - a / d == (b - a) / d;
  }

  /** Nearer is brighter: with inversion on, a nearer valid reading is never darker than a farther one; with it off, never brighter. */
  lemma GrayMonotone(v1: UShort, v2: UShort, m: Mapping, invertDisplay: bool)
    requires m.range > 0.0
    requires IsValidDepth(v1) && IsValidDepth(v2) && v1 <= v2
    ensures invertDisplay ==> GrayColor(v1, m, invertDisplay).r >= GrayColor(v2, m, invertDisplay).r
    ensures !invertDisplay ==> GrayColor(v1, m, invertDisplay).r <= GrayColor(v2, m, invertDisplay).r
  {
    DivMonotone((v1 as real) - m.offset, (v2 as real) - m.offset, m.range);
  }

  /** Inversion replaces the shade s of every valid reading by 1 - s. */
  lemma GrayInversion(v: UShort, m: Mapping)
    requires m.range > 0.0 && IsValidDepth(v)
    ensures GrayColor(v, m, true).r == 1.0 - GrayColor(v, m, false).r
  {
  }

  /**
   * Without inversion, a valid reading inside [offset, offset + range] gets the shade
   * (v - offset) / range; below that window it is black and above it white.
   */
  lemma GrayShade(v: UShort, m: Mapping)
    requires m.range > 0.0 && IsValidDepth(v)
    ensures m.offset <= v as real <= m.offset + m.range ==> GrayColor(v, m, false).r == ((v as real) - m.offset) / m.range
    ensures (v as real) < m.offset ==> GrayColor(v, m, false).r == 0.0
    ensures (v as real) > m.offset + m.range ==> GrayColor(v, m, false).r == 1.0
  {
    var q := ((v as real) - m.offset) / m.range;
    assert GrayColor(v, m, false).r == Clamp01(q);
    QuotientBounds((v as real) - m.offset, m.range);
  }

  /** Where a quotient by a positive range falls relative to [0, 1]. */
  lemma QuotientBounds(d: real, range: real)
    requires range > 0.0
    ensures 0.0 <= d <= range ==> 0.0 <= d / range <= 1.0
    ensures d < 0.0 ==> d / range < 0.0
    ensures d > range ==> d / range > 1.0
  {
    assert d / range * range == d;
    if d / range < 0.0 {
      assert (d / range) * range < 0.0;
    }
    if d / range > 1.0 {
      assert (d / range - 1.0) * range > 0.0;
    }
  }

  /** With the measured range in use, the nearest valid reading maps to 0 and the farthest to 1 before inversion. */
  lemma MeasuredRangeEnds(minV: UShort, maxV: UShort, visualizationRange: real)
    requires IsValidDepth(minV) && IsValidDepth(maxV) && minV < maxV
    ensures GrayColor(minV, ChooseMapping(minV, maxV, visualizationRange), false).r == 0.0
    ensures GrayColor(maxV, ChooseMapping(minV, maxV, visualizationRange), false).r == 1.0
    ensures GrayColor(minV, ChooseMapping(minV, maxV, visualizationRange), true).r == 1.0
    ensures GrayColor(maxV, ChooseMapping(minV, maxV, visualizationRange), true).r == 0.0
  {
    var m := ChooseMapping(minV, maxV, visualizationRange);
    assert m.range == (maxV - minV) as real;
    assert ((maxV as real) - m.offset) / m.range == 1.0;
  }
}
