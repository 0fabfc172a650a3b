/** Geometry of the thermal-on-visible overlay of the threaded loop: the
    thermal frame is enlarged by the ratio of the two fields of view, then
    centred on the visible ("base") frame and blended over it. */
module Overlay {
  import opened Common

  /** Horizontal fields of view in degrees. */
  const VisibleFov: real := 75.0
  const ThermalFov: real := 55.0

  /** `int(d * (75.0 / 55.0))`: a thermal dimension after resizing. */
  function ScaledDim(d: nat): (s: nat)
    ensures s * 55 <= d * 75 < (s + 1) * 55
  {
    var exact := d as real * (VisibleFov / ThermalFov);
    assert exact == (d * 75) as real / 55.0;
    var s := exact.Floor;
    assert s >= 0 by { assert exact >= 0.0; }
    assert s as real * 55.0 <= (d * 75) as real < (s as real + 1.0) * 55.0;
    s
  }

  /** `(oh - bh) // 2`: where the base's first row (or column) falls in the
      resized thermal frame. Floor division, negative when the thermal frame
      is the smaller one (Dafny's `/` agrees with `//` for a positive
      divisor). */
  function CenterOffset(o: nat, b: nat): int {
    (o - b) / 2
  }

  // ---------------------------------------------------------------------
  // As written: slice the resized thermal frame to the base's size
  // ---------------------------------------------------------------------

  /** Length along one axis of `overlay_resized[off:off + b]` for an axis of
      length `o`, with Python's slice clipping and negative-index rules. */
  function AsWrittenCropLen(o: nat, b: nat): nat {
    var off := CenterOffset(o, b);
    PySliceLen(o, off, off + b)
  }

  /** The slice has the base's length exactly when the resized thermal
      frame is at least as long as the base on that axis. */
  lemma AsWrittenCropFitsIff(o: nat, b: nat)
    ensures AsWrittenCropLen(o, b) == b <==> o >= b
  {
    var off := CenterOffset(o, b);
    if o >= b {
      assert 0 <= off && off + b <= o;
    } else {
      assert AsWrittenCropLen(o, b) <= o;
    }
  }

  /** What `cv2.addWeighted(base, 0.7, overlay_cropped, 0.3, 0)` does with
      the cropped thermal frame: a frame of the base's shape when the shapes
      agree, an error otherwise. */
  datatype Blend = Blended(frame: Frame) | SizeMismatch(cropped: Frame)

  function AsWrittenOverlay(base: Frame, thermal: Frame): (r: Blend)
    ensures r.Blended? <==>
              ScaledDim(thermal.height) >= base.height && ScaledDim(thermal.width) >= base.width
    ensures r.Blended? ==> r.frame == base
  {
    var oh := ScaledDim(thermal.height);
    var ow := ScaledDim(thermal.width);
    var cropped := Frame(AsWrittenCropLen(oh, base.height), AsWrittenCropLen(ow, base.width));
    AsWrittenCropFitsIff(oh, base.height);
    AsWrittenCropFitsIff(ow, base.width);
    if cropped == base then Blended(base) else SizeMismatch(cropped)
  }

  /** With the configured frames (visible 800 x 480, thermal 400 x 480) the
      resized thermal frame is 545 x 654; the column slice `[-128:672]`
      keeps only its last 128 columns, so the blend's inputs differ in size. */
  lemma ConfiguredOverlayMismatch()
    ensures ScaledDim(400) == 545 && ScaledDim(480) == 654
    ensures CenterOffset(545, 800) == -128 && CenterOffset(654, 480) == 87
    ensures AsWrittenOverlay(Frame(480, 800), Frame(480, 400)) == SizeMismatch(Frame(480, 128))
  {
    ConfiguredScale();
  }

  lemma ConfiguredScale()
    ensures ScaledDim(400) == 545 && ScaledDim(480) == 654
  {
    var w, h := ScaledDim(400), ScaledDim(480);
    assert w * 55 <= 30000 < (w + 1) * 55;
    assert h * 55 <= 36000 < (h + 1) * 55;
  }

  // ---------------------------------------------------------------------
  // Corrected: clip the centred thermal frame symmetrically
  // ---------------------------------------------------------------------

  /** The overlapping stretch of one axis: it starts at `baseStart` in the
      base, at `thermalStart` in the resized thermal frame, and is `len`
      long. */
  datatype Span = Span(baseStart: int, thermalStart: int, len: int)

  /** The overlap of the base axis `[0, b)` with the resized thermal axis of
      length `o` centred on it. */
  function AxisSpan(o: nat, b: nat): (s: Span)
    // within both frames
    ensures 0 <= s.baseStart && s.baseStart + s.len <= b
    ensures 0 <= s.thermalStart && s.thermalStart + s.len <= o
    // as long as the shorter of the two
    ensures s.len == Min(o, b)
    // base position p shows thermal position p + CenterOffset(o, b)
    ensures s.thermalStart == s.baseStart + CenterOffset(o, b)
    // a thermal frame at least as long is cropped to exactly the base
    ensures o >= b ==> s == Span(0, CenterOffset(o, b), b)
    // a shorter one leaves equal margins (the leading one larger by at most one)
    ensures o < b ==> 0 <= s.baseStart - (b - s.baseStart - s.len) <= 1
  {
    var off := CenterOffset(o, b);
    var lo := Max(0, -off);
    var hi := Min(b, o - off);
    Span(lo, lo + off, hi - lo)
  }

  /** The rows and columns of the base the thermal frame is blended into;
      the rest of the base is left as it is. */
  datatype Region = Region(rows: Span, cols: Span)

  function OverlayRegion(base: Frame, thermal: Frame): (r: Region)
    ensures r.rows.len == Min(ScaledDim(thermal.height), base.height)
    ensures r.cols.len == Min(ScaledDim(thermal.width), base.width)
    ensures 0 <= r.rows.baseStart && r.rows.baseStart + r.rows.len <= base.height
    ensures 0 <= r.cols.baseStart && r.cols.baseStart + r.cols.len <= base.width
  {
    Region(AxisSpan(ScaledDim(thermal.height), base.height), AxisSpan(ScaledDim(thermal.width), base.width))
  }

  /** Wherever the slicing as written works, the corrected region covers the
      whole base and reads the same thermal rows and columns. */
  lemma CorrectedAgreesWhereSliceFits(base: Frame, thermal: Frame)
    requires AsWrittenOverlay(base, thermal).Blended?
    ensures var r := OverlayRegion(base, thermal);
            && r.rows == Span(0, CenterOffset(ScaledDim(thermal.height), base.height), base.height)
            && r.cols == Span(0, CenterOffset(ScaledDim(thermal.width), base.width), base.width)
  {
  }

  /** For the configured frames the corrected overlay blends rows 87..566
      of the resized thermal frame into all rows of the base, and its 545
      columns into base columns 128..672, leaving 128 and 127 base columns
      untouched on the left and right. */
  lemma ConfiguredOverlayRegion()
    ensures OverlayRegion(Frame(480, 800), Frame(480, 400))
              == Region(Span(0, 87, 480), Span(128, 0, 545))
  {
    ConfiguredScale();
    assert AxisSpan(654, 480) == Span(0, 87, 480);
    assert CenterOffset(545, 800) == -128;
    assert AxisSpan(545, 800) == Span(128, 0, 545);
  }
}
