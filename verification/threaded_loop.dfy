/** The threaded render loop: three capture workers keep the latest frame
    of each camera in a shared slot, and the loop picks what to show from
    the switch position, blending the thermal frame over a visible one in
    the two overlay modes. One call of `Step` is one pass of the loop body;
    the slots as that pass sees them are an input. */
module ThreadedLoop {
  import opened Common
  import Settings
  import Switch
  import Rotary
  import Overlay
  import opened TextOverlay

  datatype Mode = Picam | PicamNoir | Thermal | OverlayPicam | OverlayPicamNoir

  /** `SWITCH_CAMERA_MAP` of the threaded loop: positions 1 to 5. */
  function ModeFor(pos: Option<nat>): (m: Option<Mode>)
    ensures m == Some(Picam) <==> pos == Some(1)
    ensures m == Some(PicamNoir) <==> pos == Some(2)
    ensures m == Some(Thermal) <==> pos == Some(3)
    ensures m == Some(OverlayPicam) <==> pos == Some(4)
    ensures m == Some(OverlayPicamNoir) <==> pos == Some(5)
  {
    if pos == Some(1) then Some(Picam)
    else if pos == Some(2) then Some(PicamNoir)
    else if pos == Some(3) then Some(Thermal)
    else if pos == Some(4) then Some(OverlayPicam)
    else if pos == Some(5) then Some(OverlayPicamNoir)
    else None
  }

  /** The shared `frames` buffers: the latest frame of each worker, or
      nothing before its first capture. */
  datatype Slots = Slots(picam: Option<Frame>, noir: Option<Frame>, thermal: Option<Frame>)

  /** What a pass shows: one camera's frame, or a visible frame with the
      scaled thermal frame blended over the region `region` of it. */
  datatype View =
    | Plain(frame: Frame)
    | Blend(base: Frame, thermal: Frame, region: Overlay.Region)
  {
    /** The frame handed to the display: blending keeps the base's shape. */
    function Shape(): Frame {
      match this
      case Plain(f) => f
      case Blend(base, _, _) => base
    }
  }

  /** The visible slot an overlay mode blends onto. */
  function BaseSlot(m: Mode, slots: Slots): Option<Frame>
    requires m == OverlayPicam || m == OverlayPicamNoir
  {
    if m == OverlayPicam then slots.picam else slots.noir
  }

  /** The slot a single-camera mode shows. */
  function OwnSlot(m: Mode, slots: Slots): Option<Frame>
    requires m == Picam || m == PicamNoir || m == Thermal
  {
    match m
    case Picam => slots.picam
    case PicamNoir => slots.noir
    case Thermal => slots.thermal
  }

  /** The "Get frame" section: nothing before a mode is chosen or while a
      needed slot is empty. */
  function SelectFrame(mode: Option<Mode>, slots: Slots): (v: Option<View>)
    ensures mode.None? ==> v.None?
    ensures mode.Some? && mode.value in {Picam, PicamNoir, Thermal} ==>
              v == (if OwnSlot(mode.value, slots).Some? then Some(Plain(OwnSlot(mode.value, slots).value)) else None)
    ensures mode.Some? && mode.value in {OverlayPicam, OverlayPicamNoir} ==>
              (v.Some? <==> BaseSlot(mode.value, slots).Some? && slots.thermal.Some?)
    ensures v.Some? && mode.value in {OverlayPicam, OverlayPicamNoir} ==>
              var base := BaseSlot(mode.value, slots).value;
              v.value == Blend(base, slots.thermal.value, Overlay.OverlayRegion(base, slots.thermal.value))
              && v.value.Shape() == base
  {
    match mode
    case None => None
    case Some(m) =>
      if m == Picam || m == PicamNoir || m == Thermal then
        match OwnSlot(m, slots)
        case None => None
        case Some(f) => Some(Plain(f))
      else
        var base := BaseSlot(m, slots);
        if base.Some? && slots.thermal.Some? then
          Some(Blend(base.value, slots.thermal.value, Overlay.OverlayRegion(base.value, slots.thermal.value)))
        else None
  }

  /** The loop's variables: `current_mode`, `zoom_factor` and the encoder
      message with its timer. */
  datatype State = State(mode: Option<Mode>, zoom: real, banner: Banner)

  const Initial: State := State(None, 1.0, NoBanner)

  datatype Outcome =
    | Skipped                           // no frame yet: sleep and continue
    | Shown(view: View, text: seq<Placed>) // the view with its text, to `display.show`
    | Crashed                           // `cv2.addWeighted` raised on mismatched shapes

  datatype Cycle = Cycle(state: State, encoder: Rotary.Encoder, outcome: Outcome)

  /** What one pass observes: switch levels, encoder, the shared slots and
      the text measurement of `cv2.getTextSize`. */
  datatype Inputs = Inputs(switches: seq<bool>, encoder: Rotary.Encoder, slots: Slots, measure: TextLine -> TextSize)

  /** `max(1.0, z)`. */
  function AtLeastOne(z: real): (r: real)
    ensures r >= 1.0 && r >= z
    ensures r == 1.0 || r == z
  {
    if z > 1.0 then z else 1.0
  }

  /** The encoder section: rotation moves the zoom factor by 0.1 per step,
      never below 1.0 and with no upper limit; otherwise a press resets it
      to 1.0. */
  function Rezoom(zoom: real, rotation: int, pressed: bool, b: Banner): (r: (real, Banner))
    ensures rotation != 0 ==> r.0 == AtLeastOne(zoom + rotation as real / 10.0) && r.1 == Announce(ZoomLevel(r.0))
    ensures rotation == 0 && pressed ==> r == (1.0, Announce(ZoomReset))
    ensures rotation == 0 && !pressed ==> r == (zoom, b)
  {
    if rotation != 0 then
      var z := AtLeastOne(zoom + rotation as real / 10.0);
      (z, Announce(ZoomLevel(z)))
    else if pressed then (1.0, Announce(ZoomReset))
    else (zoom, b)
  }

  /** The states the loop can be in: a zoom factor of at least 1.0 and a
      message timer in range. */
  predicate Valid(s: State) {
    s.zoom >= 1.0 && BannerOk(s.banner)
  }

  /** `current_mode` after the switch section: a mapped position selects
      its mode, any other position keeps the last one. */
  function NextMode(current: Option<Mode>, pos: Option<nat>): (m: Option<Mode>)
    ensures ModeFor(pos).Some? ==> m == ModeFor(pos)
    ensures ModeFor(pos).None? ==> m == current
  {
    if ModeFor(pos).Some? then ModeFor(pos) else current
  }

  /** One pass of the `while True` body of the threaded `main`, with the
      overlay modes blending over the corrected region (see
      `AsWrittenStep` for the code as written). */
  function Step(s: State, inp: Inputs): (c: Cycle)
    // a mapped position sets the mode; otherwise the last mode is kept
    ensures var m := ModeFor(Switch.GetPosition(inp.switches));
            c.state.mode == (if m.Some? then m else s.mode)
    // a pass is skipped exactly when the mode has no frame to show
    ensures c.outcome.Skipped? <==> SelectFrame(c.state.mode, inp.slots).None?
    ensures c.outcome.Shown? ==> Some(c.outcome.view) == SelectFrame(c.state.mode, inp.slots)
    // a skipped pass leaves the encoder unread, the zoom and the message alone
    ensures c.outcome.Skipped? ==> c.encoder == inp.encoder && c.state.zoom == s.zoom && c.state.banner == s.banner
    // a shown pass consumes the encoder's count
    ensures c.outcome.Shown? ==> c.encoder == inp.encoder.(steps := 0)
    // zoom never falls below 1.0 and the timer stays in range
    ensures Valid(s) ==> Valid(c.state)
    // with the corrected geometry a pass never raises
    ensures !c.outcome.Crashed?
  {
    var pos := Switch.GetPosition(inp.switches);
    var mode := NextMode(s.mode, pos);
    match SelectFrame(mode, inp.slots)
    case None => Cycle(s.(mode := mode), inp.encoder, Skipped)
    case Some(view) =>
      var reading := Rotary.GetRotation(inp.encoder);
      var zb := Rezoom(s.zoom, reading.movement, Rotary.IsPressed(reading.encoder), s.banner);
      var a := Annotate(pos, zb.1, inp.measure);
      Cycle(State(mode, zb.0, a.banner), reading.encoder, Shown(view, a.text))
  }

  /** An overlay mode with both slots filled whose as-written centre crop
      is smaller than the visible frame: `cv2.addWeighted` raises. */
  predicate RaisesAsWritten(mode: Option<Mode>, slots: Slots) {
    && mode.Some? && (mode.value == OverlayPicam || mode.value == OverlayPicamNoir)
    && BaseSlot(mode.value, slots).Some? && slots.thermal.Some?
    && Overlay.AsWrittenOverlay(BaseSlot(mode.value, slots).value, slots.thermal.value).SizeMismatch?
  }

  /** One pass as the code is written: an overlay pass whose crop does not
      cover the visible frame raises, which ends the program with the
      encoder unread; every other pass is the corrected `Step`, whose
      region agrees with the as-written slice wherever that slice fits
      (`Overlay.CorrectedAgreesWhereSliceFits`). */
  function AsWrittenStep(s: State, inp: Inputs): (c: Cycle)
    ensures c.outcome.Crashed? <==> RaisesAsWritten(Step(s, inp).state.mode, inp.slots)
    ensures c.state.mode == Step(s, inp).state.mode
    ensures c.outcome.Crashed? ==> c.encoder == inp.encoder && c.state.zoom == s.zoom && c.state.banner == s.banner
    ensures !c.outcome.Crashed? ==> c == Step(s, inp)
  {
    var mode := NextMode(s.mode, Switch.GetPosition(inp.switches));
    if RaisesAsWritten(mode, inp.slots) then Cycle(s.(mode := mode), inp.encoder, Crashed)
    else Step(s, inp)
  }

  // ---------------------------------------------------------------------
  // Properties
  // ---------------------------------------------------------------------

  lemma InitialValid()
    ensures Valid(Initial)
  {
  }

  /** Turning the encoder up adds 0.1 per step with no upper bound: the
      zoom factor can go past the 8x limit the camera module clamps to. */
  lemma ZoomHasNoUpperLimit(s: State, inp: Inputs)
    requires Valid(s)
    requires SelectFrame(Step(s, inp).state.mode, inp.slots).Some?
    requires inp.encoder.steps > 0
    ensures Step(s, inp).state.zoom == s.zoom + inp.encoder.steps as real / 10.0
    ensures inp.encoder.steps >= 80 ==> Step(s, inp).state.zoom > 8.0
  {
  }

  /** On a shown pass a turn sets the zoom to `max(1.0, zoom + 0.1 * steps)`
      whatever the button does; a press resets it to exactly 1.0 only when
      the encoder has not turned; otherwise the zoom is kept. */
  lemma ButtonResetsOnlyWithoutRotation(s: State, inp: Inputs)
    requires Step(s, inp).outcome.Shown?
    ensures var z := Step(s, inp).state.zoom;
            && (inp.encoder.steps != 0 ==> z == AtLeastOne(s.zoom + inp.encoder.steps as real / 10.0))
            && (inp.encoder.steps == 0 && inp.encoder.buttonDown ==> z == 1.0 && Step(s, inp).state.banner.message == ZoomReset)
            && (inp.encoder.steps == 0 && !inp.encoder.buttonDown ==> z == s.zoom)
  {
  }

  /** The text of a shown pass: "Switch: N" first exactly when the position
      read is truthy, an encoder message whenever the encoder turned or its
      button is down, and every line centred in the frame width. */
  lemma ShownText(s: State, inp: Inputs)
    requires Step(s, inp).outcome.Shown?
    ensures var t := Step(s, inp).outcome.text;
            var pos := Switch.GetPosition(inp.switches);
            && (Truthy(pos) ==> |t| > 0 && t[0].line == SwitchLine(pos.value))
            && ((exists i :: 0 <= i < |t| && t[i].line.SwitchLine?) <==> Truthy(pos))
            && (inp.encoder.steps != 0 || inp.encoder.buttonDown ==>
                  exists i :: 0 <= i < |t| && t[i].line.MessageLine?)
            && forall i :: 0 <= i < |t| ==>
                 0 <= (Settings.FrameWidth - inp.measure(t[i].line).w - t[i].x) - t[i].x <= 1
  {
    var pos := Switch.GetPosition(inp.switches);
    var reading := Rotary.GetRotation(inp.encoder);
    var zb := Rezoom(s.zoom, reading.movement, Rotary.IsPressed(reading.encoder), s.banner);
    var a := Annotate(pos, zb.1, inp.measure);
    assert Step(s, inp).outcome.text == a.text;
    if inp.encoder.steps != 0 || inp.encoder.buttonDown {
      assert zb.1.timer > 0;
    }
  }

  /** The zoom factor is kept but never applied: what is shown does not
      depend on it. */
  lemma ZoomDoesNotAffectView(s: State, inp: Inputs, z: real)
    ensures Step(s, inp).outcome.Skipped? <==> Step(s.(zoom := z), inp).outcome.Skipped?
    ensures Step(s, inp).outcome.Shown? ==> Step(s, inp).outcome.view == Step(s.(zoom := z), inp).outcome.view
  {
  }

  /** An overlay pass shows the visible frame's shape, with the thermal
      frame scaled by 75/55 and aligned over the centre. */
  lemma OverlayKeepsBaseShape(s: State, inp: Inputs)
    requires var m := Step(s, inp).state.mode; m == Some(OverlayPicam) || m == Some(OverlayPicamNoir)
    requires Step(s, inp).outcome.Shown?
    ensures var v := Step(s, inp).outcome.view;
            && v.Blend? && v.Shape() == BaseSlot(Step(s, inp).state.mode.value, inp.slots).value
            && v.thermal == inp.slots.thermal.value
            && v.region.rows.len == Min(Overlay.ScaledDim(v.thermal.height), v.base.height)
            && v.region.cols.len == Min(Overlay.ScaledDim(v.thermal.width), v.base.width)
  {
  }

  /** With the configured 800x480 visible and 400x480 thermal frames, the
      corrected overlay modes blend the scaled thermal frame into rows 87..566 of the
      thermal frame's 654 and columns 128..672 of the visible frame's 800. */
  lemma ConfiguredOverlay(s: State, inp: Inputs)
    requires ModeFor(Switch.GetPosition(inp.switches)) == Some(OverlayPicam)
    requires inp.slots.picam == Some(Frame(480, 800)) && inp.slots.thermal == Some(Frame(480, 400))
    ensures Step(s, inp).outcome.Shown?
    ensures Step(s, inp).outcome.view.region == Overlay.Region(Overlay.Span(0, 87, 480), Overlay.Span(128, 0, 545))
  {
    Overlay.ConfiguredOverlayRegion();
  }

  /** The same pass as the code is written: the 800-wide visible frame is
      blended with a 128-column crop, and the program ends. */
  lemma ConfiguredOverlayRaisesAsWritten(s: State, inp: Inputs)
    requires ModeFor(Switch.GetPosition(inp.switches)) == Some(OverlayPicam)
    requires inp.slots.picam == Some(Frame(480, 800)) && inp.slots.thermal == Some(Frame(480, 400))
    ensures AsWrittenStep(s, inp).outcome == Crashed
    ensures AsWrittenStep(s, inp).encoder == inp.encoder
  {
    Overlay.ConfiguredOverlayMismatch();
  }
}
