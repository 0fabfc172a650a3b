/** The single-threaded render loop: one camera at a time, chosen by the
    switch, re-created only on a change of mode, with encoder-driven zoom
    and the status text. One call of `Step` is one pass of the loop body;
    the switch, encoder and camera outcomes of that pass are its inputs. */
module MainLoop {
  import opened Common
  import PiCam
  import Settings
  import Switch
  import Rotary
  import opened TextOverlay

  datatype Mode = Picam | PicamNoir | Thermal

  /** `SWITCH_CAMERA_MAP`: positions 1, 2 and 3; any other position (or
      none) maps to nothing. */
  function ModeFor(pos: Option<nat>): (m: Option<Mode>)
    ensures m == Some(Picam) <==> pos == Some(1)
    ensures m == Some(PicamNoir) <==> pos == Some(2)
    ensures m == Some(Thermal) <==> pos == Some(3)
  {
    if pos == Some(1) then Some(Picam)
    else if pos == Some(2) then Some(PicamNoir)
    else if pos == Some(3) then Some(Thermal)
    else None
  }

  /** The open camera: a visible-light `PiCam` or the thermal camera, which
      has neither `stop`, `set_zoom` nor `zoom_factor`. */
  datatype Camera = Visible(pi: PiCam.Camera) | ThermalCam

  /** The camera number `create_camera` uses: 0 for the NoIR camera,
      1 otherwise. */
  function CameraNumber(m: Mode): int {
    if m == PicamNoir then 0 else 1
  }

  const OpenAttempts: nat := 3

  /** The result of `create_camera` and the number of `PiCam(...)`
      constructions it tried. */
  datatype Created = Created(camera: Camera, attempts: nat) | OpenFailed(attempts: nat)

  /** Some construction among the first `OpenAttempts` succeeds. */
  predicate AnyOpens(openOk: seq<bool>) {
    exists k :: 0 <= k < OpenAttempts && k < |openOk| && openOk[k]
  }

  /** Whether `create_camera(mode)` returns a camera: the thermal camera's
      single construction succeeds (`thermalOk`), or one of the three tries
      of a visible camera does. */
  predicate Opens(mode: Mode, openOk: seq<bool>, thermalOk: bool) {
    if mode == Thermal then thermalOk else AnyOpens(openOk)
  }

  /** The retry loop from attempt `attempt` on. `openOk[k]` says whether
      construction number `k` succeeds (false: it raised `RuntimeError`);
      attempts past the end of `openOk` fail. */
  function TryOpen(num: int, openOk: seq<bool>, attempt: nat): (r: Created)
    requires attempt <= OpenAttempts
    ensures r.Created? ==> r.camera == Visible(PiCam.NewCamera(num))
    ensures r.Created? ==> attempt < r.attempts <= OpenAttempts && r.attempts <= |openOk| && openOk[r.attempts - 1]
    ensures r.Created? ==> forall k :: attempt <= k < r.attempts - 1 ==> !openOk[k]
    ensures r.OpenFailed? ==> r.attempts == OpenAttempts
    ensures r.OpenFailed? ==> forall k :: attempt <= k < OpenAttempts && k < |openOk| ==> !openOk[k]
    decreases OpenAttempts - attempt
  {
    if attempt == OpenAttempts then OpenFailed(OpenAttempts)
    else if attempt < |openOk| && openOk[attempt] then Created(Visible(PiCam.NewCamera(num)), attempt + 1)
    else TryOpen(num, openOk, attempt + 1)
  }

  /** `create_camera(mode)`: the thermal camera is constructed once, outside
      the retry loop, and whatever it raises ends the program; a visible
      camera is tried at most three times and opens iff one of those tries
      succeeds, as the first such try. */
  function CreateCamera(mode: Mode, openOk: seq<bool>, thermalOk: bool): (r: Created)
    ensures r.Created? <==> Opens(mode, openOk, thermalOk)
    ensures mode == Thermal ==> r.attempts == 0 && (r.Created? ==> r.camera == ThermalCam)
    ensures mode != Thermal ==> r.attempts <= OpenAttempts
    ensures mode != Thermal && r.Created? ==>
              r.camera == Visible(PiCam.NewCamera(CameraNumber(mode)))
              && 0 < r.attempts <= |openOk| && openOk[r.attempts - 1]
              && forall k :: 0 <= k < r.attempts - 1 ==> !openOk[k]
  {
    if mode == Thermal then (if thermalOk then Created(ThermalCam, 0) else OpenFailed(0))
    else TryOpen(CameraNumber(mode), openOk, 0)
  }

  /** The loop's variables: `current_mode`, `cam` and the encoder message
      with its timer. */
  datatype LoopState = LoopState(mode: Option<Mode>, cam: Option<Camera>, banner: Banner)

  const Initial: LoopState := LoopState(None, None, NoBanner)

  /** Camera lifecycle events, in the order they happen. */
  datatype Event = Stopped(camera: Camera) | Opened(camera: Camera)

  datatype SwitchResult =
    | Switched(state: LoopState, events: seq<Event>)
    | SwitchFailed(state: LoopState, events: seq<Event>, mode: Mode)

  /** `cam.stop()` when the camera has `stop`: only a visible camera. */
  function StopIfPossible(cam: Option<Camera>): (events: seq<Event>)
    ensures |events| <= 1
    ensures |events| == 1 <==> cam.Some? && cam.value.Visible?
    ensures |events| == 1 ==> events[0] == Stopped(cam.value)
  {
    if cam.Some? && cam.value.Visible? then [Stopped(cam.value)] else []
  }

  /** The switch section of the loop body. */
  function SwitchCamera(s: LoopState, pos: Option<nat>, openOk: seq<bool>, thermalOk: bool): (r: SwitchResult)
    ensures ModeFor(pos).None? || ModeFor(pos) == s.mode ==> r == Switched(s, [])
  {
    var selected := ModeFor(pos);
    if selected.None? || selected == s.mode then Switched(s, [])
    else
      var stops := StopIfPossible(s.cam);
      var remaining := if |stops| == 1 then None else s.cam;
      match CreateCamera(selected.value, openOk, thermalOk)
      case Created(cam, _) => Switched(LoopState(selected, Some(cam), s.banner), stops + [Opened(cam)])
      case OpenFailed(_) => SwitchFailed(s.(cam := remaining), stops, selected.value)
  }

  /** Why a pass of the loop raises (ending the program). */
  datatype Crash =
    | CameraUnavailable(mode: Mode)  // `create_camera` gave up
    | NoZoomOnThermal                // `set_zoom` looked up on the thermal camera

  datatype Outcome =
    | Idle                                  // no camera yet: sleep and continue
    | Shown(frame: Frame, text: seq<Placed>) // the captured frame with its text, to `display.show`
    | Crashed(reason: Crash)

  /** One pass: the state after it, the encoder after it, the camera events
      and what was shown. */
  datatype Cycle = Cycle(state: LoopState, encoder: Rotary.Encoder, events: seq<Event>, outcome: Outcome)

  /** What one pass observes: the switch levels, the encoder, the outcome
      of each camera construction it may try (`openOk` for `PiCam`,
      `thermalOk` for `ThermalCam`), the frame `cam.capture()` returns, and
      the text measurement of `cv2.getTextSize`. */
  datatype Inputs = Inputs(
    switches: seq<bool>,
    encoder: Rotary.Encoder,
    openOk: seq<bool>,
    thermalOk: bool,
    captured: Frame,
    measure: TextLine -> TextSize)

  datatype EncoderResult = Handled(cam: Camera, banner: Banner) | ZoomUnsupported

  /** The encoder section: a nonzero rotation zooms by 0.1 per step (taking
      priority over the button); otherwise a press resets a visible
      camera's zoom or only reports the press. */
  function HandleEncoder(cam: Camera, rotation: int, pressed: bool, b: Banner): (r: EncoderResult)
    ensures rotation != 0 && cam.ThermalCam? ==> r == ZoomUnsupported
    ensures rotation != 0 && cam.Visible? ==>
              r.Handled? && r.cam.Visible?
              && r.cam.pi == PiCam.SetZoom(cam.pi, cam.pi.zoom + rotation as real / 10.0)
              && r.banner == Announce(ZoomLevel(r.cam.pi.zoom))
    ensures rotation == 0 && pressed && cam.Visible? ==>
              r == Handled(Visible(PiCam.SetZoom(cam.pi, 1.0)), Announce(ZoomReset))
    ensures rotation == 0 && pressed && cam.ThermalCam? ==> r == Handled(cam, Announce(ButtonPressed))
    ensures rotation == 0 && !pressed ==> r == Handled(cam, b)
  {
    if rotation != 0 then
      match cam
      case Visible(c) =>
        var c' := PiCam.SetZoom(c, c.zoom + rotation as real / 10.0);
        Handled(Visible(c'), Announce(ZoomLevel(c'.zoom)))
      case ThermalCam => ZoomUnsupported
    else if pressed then
      match cam
      case Visible(c) => Handled(Visible(PiCam.SetZoom(c, 1.0)), Announce(ZoomReset))
      case ThermalCam => Handled(cam, Announce(ButtonPressed))
    else Handled(cam, b)
  }

  /** The states the loop can be in: a mode exactly when a camera, of the
      kind and number the mode names, with a consistent zoom, and a
      reachable banner. */
  predicate Valid(s: LoopState) {
    && (s.mode.None? <==> s.cam.None?)
    && (s.mode == Some(Thermal) <==> s.cam == Some(ThermalCam))
    && (s.cam.Some? && s.cam.value.Visible? ==>
          var c := s.cam.value.pi;
          && c.cameraNum == CameraNumber(s.mode.value)
          && PiCam.MinZoom <= c.zoom <= PiCam.MaxZoom
          && c.crop == PiCam.CropWindow(c.zoom))
    && BannerOk(s.banner)
  }

  /** One pass of the `while True` body of `main`. */
  function Step(s: LoopState, inp: Inputs): (c: Cycle)
    // a pass that does not crash keeps the state valid
    ensures Valid(s) && !c.outcome.Crashed? ==> Valid(c.state)
    // a position mapping to nothing or to the current mode stops and opens nothing
    ensures var m := ModeFor(Switch.GetPosition(inp.switches));
            m.None? || m == s.mode ==>
              c.state.mode == s.mode && (c.state.cam.Some? <==> s.cam.Some?) && c.events == []
    // the thermal camera is never stopped
    ensures Stopped(ThermalCam) !in c.events
    // without a camera nothing is shown and the encoder is not read
    ensures c.outcome.Idle? ==> c.state.cam.None? && c.encoder == inp.encoder
    // a shown pass shows the captured frame and consumes the encoder's count
    ensures c.outcome.Shown? ==> c.outcome.frame == inp.captured && c.encoder == inp.encoder.(steps := 0)
  {
    var pos := Switch.GetPosition(inp.switches);
    SwitchKeepsValid(s, pos, inp.openOk, inp.thermalOk);
    match SwitchCamera(s, pos, inp.openOk, inp.thermalOk)
    case SwitchFailed(s1, events, mode) => Cycle(s1, inp.encoder, events, Crashed(CameraUnavailable(mode)))
    case Switched(s1, events) =>
      if s1.cam.None? then Cycle(s1, inp.encoder, events, Idle)
      else
        var reading := Rotary.GetRotation(inp.encoder);
        var pressed := Rotary.IsPressed(reading.encoder);
        EncoderKeepsValid(s1, reading.movement, pressed);
        match HandleEncoder(s1.cam.value, reading.movement, pressed, s1.banner)
        case ZoomUnsupported => Cycle(s1, reading.encoder, events, Crashed(NoZoomOnThermal))
        case Handled(cam, b) =>
          var a := Annotate(pos, b, inp.measure);
          Cycle(LoopState(s1.mode, Some(cam), a.banner), reading.encoder, events, Shown(inp.captured, a.text))
  }

  lemma SwitchKeepsValid(s: LoopState, pos: Option<nat>, openOk: seq<bool>, thermalOk: bool)
    ensures Valid(s) && SwitchCamera(s, pos, openOk, thermalOk).Switched? ==> Valid(SwitchCamera(s, pos, openOk, thermalOk).state)
  {
    var m := ModeFor(pos);
    if m.Some? && m != s.mode && m.value != Thermal {
      PiCam.FreshCameraIsUnzoomed(CameraNumber(m.value), 1.0);
    }
  }

  lemma EncoderKeepsValid(s: LoopState, rotation: int, pressed: bool)
    requires s.cam.Some?
    ensures Valid(s) ==>
              match HandleEncoder(s.cam.value, rotation, pressed, s.banner)
              case Handled(cam, b) => Valid(LoopState(s.mode, Some(cam), b))
              case ZoomUnsupported => true
  {
  }

  /** The `finally` clause on Ctrl-C: a visible camera is stopped, the
      thermal camera is left as it is. */
  function Shutdown(s: LoopState): (events: seq<Event>)
    ensures events == [] <==> s.cam.None? || s.cam.value.ThermalCam?
    ensures events == (if s.cam.Some? && s.cam.value.Visible? then [Stopped(s.cam.value)] else [])
  {
    StopIfPossible(s.cam)
  }

  // ---------------------------------------------------------------------
  // Properties
  // ---------------------------------------------------------------------

  lemma InitialValid()
    ensures Valid(Initial)
  {
  }

  /** A position that maps to a new mode stops the old camera if it is a
      visible one, and then opens the new one, or crashes when it cannot:
      a visible camera after three failed tries, the thermal camera after
      its one. */
  lemma ModeChangeRecreates(s: LoopState, inp: Inputs, m: Mode)
    requires ModeFor(Switch.GetPosition(inp.switches)) == Some(m) && s.mode != Some(m)
    ensures var c := Step(s, inp);
            var stops := StopIfPossible(s.cam);
            && c.events[..|stops|] == stops
            && (Opens(m, inp.openOk, inp.thermalOk) ==>
                  && c.events == stops + [Opened(CreateCamera(m, inp.openOk, inp.thermalOk).camera)]
                  && c.state.mode == Some(m))
            && (!Opens(m, inp.openOk, inp.thermalOk) ==>
                  c.events == stops && c.outcome == Crashed(CameraUnavailable(m)))
  {
  }

  /** Until a mode is selected there is no camera: the pass shows nothing
      and does not read the encoder. */
  lemma NoCameraIdle(s: LoopState, inp: Inputs)
    requires Valid(s) && s.cam.None?
    requires ModeFor(Switch.GetPosition(inp.switches)).None?
    ensures Step(s, inp).outcome == Idle
    ensures Step(s, inp).encoder == inp.encoder
  {
  }

  /** A visible camera's zoom after a pass in which the switch selects no
      new mode and the encoder turned:
      `set_zoom(zoom + 0.1 * rotation)`, whatever the button does. */
  lemma RotationTakesPriority(s: LoopState, inp: Inputs)
    requires Valid(s) && s.cam.Some? && s.cam.value.Visible?
    requires var m := ModeFor(Switch.GetPosition(inp.switches)); m.None? || m == s.mode
    requires inp.encoder.steps != 0
    ensures var c := Step(s, inp);
            && c.state.cam.Some? && c.state.cam.value.Visible?
            && c.state.cam.value.pi.zoom == PiCam.ClampZoom(s.cam.value.pi.zoom + inp.encoder.steps as real / 10.0)
            && c.state.banner.message == ZoomLevel(c.state.cam.value.pi.zoom)
            && c.encoder.steps == 0
  {
  }

  /** Turning the encoder with the thermal camera active raises. */
  lemma RotationOnThermalCrashes(s: LoopState, inp: Inputs)
    requires Valid(s) && s.mode == Some(Thermal)
    requires var m := ModeFor(Switch.GetPosition(inp.switches)); m.None? || m == Some(Thermal)
    requires inp.encoder.steps != 0
    ensures Step(s, inp).outcome == Crashed(NoZoomOnThermal)
  {
  }

  /** In a pass that selects no new mode, a press without rotation resets a
      visible camera to zoom 1 and the full sensor; on the thermal camera it
      only sets the message. */
  lemma ButtonResetsZoom(s: LoopState, inp: Inputs)
    requires Valid(s) && s.cam.Some?
    requires var m := ModeFor(Switch.GetPosition(inp.switches)); m.None? || m == s.mode
    requires inp.encoder.steps == 0 && inp.encoder.buttonDown
    ensures var c := Step(s, inp);
            && c.state.cam.Some?
            && (s.cam.value.Visible? ==>
                  c.state.cam.value == Visible(PiCam.NewCamera(s.cam.value.pi.cameraNum))
                  && c.state.banner.message == ZoomReset)
            && (s.cam.value.ThermalCam? ==>
                  c.state.cam.value == ThermalCam && c.state.banner.message == ButtonPressed)
  {
    if s.cam.value.Visible? {
      PiCam.FreshCameraIsUnzoomed(s.cam.value.pi.cameraNum, 1.0);
    }
  }

  /** The text of a shown pass: "Switch: N" first exactly when the position
      read is truthy, an encoder message whenever the encoder turned or its
      button is down, and every line centred in the frame width. */
  lemma ShownText(s: LoopState, inp: Inputs)
    requires Step(s, inp).outcome.Shown?
    ensures var t := Step(s, inp).outcome.text;
            var pos := Switch.GetPosition(inp.switches);
            && (Truthy(pos) ==> |t| > 0 && t[0].line == SwitchLine(pos.value))
            && ((exists i :: 0 <= i < |t| && t[i].line.SwitchLine?) <==> Truthy(pos))
            && (inp.encoder.steps != 0 || inp.encoder.buttonDown ==>
                  exists i :: 0 <= i < |t| && t[i].line.MessageLine?)
            && forall i :: 0 <= i < |t| ==>
                 0 <= (Settings.FrameWidth - inp.measure(t[i].line).w - t[i].x) - t[i].x <= 1
  {
    var pos := Switch.GetPosition(inp.switches);
    var s1 := SwitchCamera(s, pos, inp.openOk, inp.thermalOk).state;
    var reading := Rotary.GetRotation(inp.encoder);
    var h := HandleEncoder(s1.cam.value, reading.movement, Rotary.IsPressed(reading.encoder), s1.banner);
    var a := Annotate(pos, h.banner, inp.measure);
    assert Step(s, inp).outcome.text == a.text;
    if inp.encoder.steps != 0 || inp.encoder.buttonDown {
      assert h.banner.timer > 0;
    }
  }

  /** `n` clockwise steps, read one per pass, from zoom 1 give zoom
      `1 + n/10` while that stays within the limit. */
  function ZoomSteps(c: PiCam.Camera, n: nat): PiCam.Camera
    decreases n
  {
    if n == 0 then c else ZoomSteps(PiCam.SetZoom(c, c.zoom + 1.0 / 10.0), n - 1)
  }

  lemma {:induction false} ZoomStepsFromOne(num: int, n: nat)
    requires n <= 70
    ensures ZoomSteps(PiCam.NewCamera(num), n).zoom == 1.0 + n as real / 10.0
  {
    if n > 0 {
      ZoomStepsFromOne(num, n - 1);
      ZoomStepsLast(PiCam.NewCamera(num), n);
    }
  }

  lemma {:induction false} ZoomStepsLast(c: PiCam.Camera, n: nat)
    requires n > 0
    ensures ZoomSteps(c, n) == PiCam.SetZoom(ZoomSteps(c, n - 1), ZoomSteps(c, n - 1).zoom + 1.0 / 10.0)
    decreases n
  {
    if n > 1 {
      ZoomStepsLast(PiCam.SetZoom(c, c.zoom + 1.0 / 10.0), n - 1);
    }
  }

  /** Ten clockwise steps from a fresh camera give zoom 2.0; a press then
      returns it to 1.0 and the full sensor. */
  lemma TenStepsThenReset(num: int)
    ensures ZoomSteps(PiCam.NewCamera(num), 10).zoom == 2.0
    ensures PiCam.SetZoom(ZoomSteps(PiCam.NewCamera(num), 10), 1.0) == PiCam.NewCamera(num)
  {
    ZoomStepsFromOne(num, 10);
    PiCam.FreshCameraIsUnzoomed(num, 1.0);
  }
}
