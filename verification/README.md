# ocular-computer-interface, modelled in Dafny

A model of the software core of a head-mounted stereo viewer for a
Raspberry Pi. An 8-way switch selects a camera mode: visible light, NoIR,
thermal, or, in the threaded variant, thermal blended over a visible
frame. A rotary encoder zooms the visible cameras, and its push button
resets the zoom. Every shown frame gets a thin black border. It is then
duplicated side by side for the two eyes, packed to RGB565 and written to
the framebuffer. A small status module decodes the firmware's throttle
report.

Modules, one per part of the program:

| module | file | models |
|---|---|---|
| `Common` | common.dfy | `Option`, frame shapes, Python slice-bound rules |
| `Settings` | settings.dfy | `FRAME_WIDTH`, `FRAME_HEIGHT`, `BORDER_PX` |
| `StereoDisplay` | stereo_display.dfy | `StereoDisplay`: RGB565 packing, border, duplication, the bytes written, barrel-map shape |
| `PiCam` | picam.dfy | `PiCam`: the fresh camera, `set_zoom` clamp and centred crop |
| `Switch` | switch.dfy | `get_position`, `report_state` |
| `Rotary` | rotary.dfy | `get_rotation`, `is_pressed` |
| `RpiStatus` | rpi_status.dfy | `get_throttled`, the three flag predicates, `report` |
| `TextOverlay` | text_overlay.dfy | the status-text lines, their placement, the message timer (shared by both loops) |
| `MainLoop` | main_loop.dfy | `main.py`: mode map, `create_camera` retries, one pass of the loop, shutdown |
| `Overlay` | overlay.dfy | the FOV scaling and centre crop of the thermal overlay |
| `ThreadedLoop` | threaded_loop.dfy | `main_threads.py`: 5-mode map, frame selection, zoom bookkeeping, one pass of the loop |

Modelling choices:

- Each render loop is modelled as a step function. The state is what the
  Python loop keeps between passes. Everything a pass reads from hardware
  or from another thread is a parameter: the switch levels, the encoder
  counter and button, whether each camera construction succeeds, the
  captured frame or the shared frame slots, and the `cv2.getTextSize`
  measurement.
- Frames in the loops are shapes (height, width). Pixel values only matter
  in the display writer, which is modelled pixel by pixel.
- Zoom factors are exact reals (see `PiCam.CropWindow` under Left out). The one-second message timer is counted in
  ticks of 0.01 s, 100 per message.
- Numpy shifts and `|` are written as division, multiplication and
  addition of disjoint bit fields. Python's slice clipping and negative
  indices are written out in `Common.PyBound`.

What the code does, in places where it is easy to misread:

- Packing to RGB565 truncates, so an expanded channel is up to 7 below the
  original for red and blue, and up to 3 for green.
- The thermal frame is scaled by 75/55, which enlarges it.
- `main.py` builds a fresh `PiCam` on every mode change, so the zoom goes
  back to 1.0 whenever the mode changes.
- `main_threads.py` keeps a zoom factor with a floor of 1.0 but no upper
  limit, and never passes it to a camera.
- Turning the encoder in `main.py`'s thermal mode raises `AttributeError`,
  because `ThermalCam` has no zoom. This is modelled as the crash
  `MainLoop.NoZoomOnThermal`.
- `report_state` prints its line and returns `None`. `Switch.ReportState`
  is the printed text after the label.

## Model

| member | source | states |
|---|---|---|
| StereoDisplay.Pack565 | ocular-computer-interface/src/display/stereo_display.py:28-32 | the packed word holds red's top 5 bits above green's top 6 bits above blue's top 5 bits, each field read back by `>> 11`, `>> 5 & 0x3F` and `& 0x1F` |
| StereoDisplay.Pack565Truncates | ocular-computer-interface/src/display/stereo_display.py:28-32 | packing keeps the top 5/6/5 bits, so expanding a packed pixel gives each channel rounded down to a multiple of 8, 4 and 8: at most 7, 3 and 7 below the original |
| StereoDisplay.Unpack565Pack565 | ocular-computer-interface/src/display/stereo_display.py:28-32 | every 16-bit value is the packing of its own expansion, so packing reaches all 65536 values |
| StereoDisplay.LeBytes | ocular-computer-interface/src/display/stereo_display.py:32 | a packed pixel is two bytes, low byte first, whose little-endian value is the pixel |
| StereoDisplay.ToRgb565 | ocular-computer-interface/src/display/stereo_display.py:28-32 | the packed image has the image's shape, and each element is the packing of the pixel at the same place |
| StereoDisplay.FrameBytesLength | ocular-computer-interface/src/display/stereo_display.py:52-54 | an h x w packed frame serialises to exactly h*w*2 bytes |
| StereoDisplay.FrameBytesAt | ocular-computer-interface/src/display/stereo_display.py:52-54 | pixel (i, j) is written at bytes 2(i*w+j) and 2(i*w+j)+1, low byte first, in row-major order |
| StereoDisplay.DecodeFrameBytes | ocular-computer-interface/src/display/stereo_display.py:52-54 | reading the written bytes back as little-endian words gives the packed frame again |
| StereoDisplay.Border | ocular-computer-interface/src/display/stereo_display.py:42-47 | the four slice assignments black out exactly the pixels within b of an edge (all of them when b is 0), and keep every other pixel and the shape |
| StereoDisplay.BorderKeepsInterior | ocular-computer-interface/src/display/stereo_display.py:43-47 | with b >= 1, a pixel at least b from every edge keeps its value |
| StereoDisplay.ZeroBorderBlanksAll | ocular-computer-interface/src/display/stereo_display.py:43-47 | with a border of 0 the slice `[-0:]` covers the whole axis, so the whole half-frame is black |
| StereoDisplay.StereoDuplicate | ocular-computer-interface/src/display/stereo_display.py:49-50 | each stereo row is twice as wide, and both its left and its right half equal the half-frame row |
| StereoDisplay.MeshGrid | ocular-computer-interface/src/display/stereo_display.py:17-20 | the mesh has `height` rows of `width` entries, and entry (i, j) belongs to column j of row i |
| StereoDisplay.CreateBarrelMap | ocular-computer-interface/src/display/stereo_display.py:17-26 | both remap tables have the shape height x width of the mesh they are computed over |
| StereoDisplay.NewDisplay | ocular-computer-interface/src/display/stereo_display.py:6-15 | the display keeps its size and border, and its barrel map is sized for a half-frame of height x width//2 |
| StereoDisplay.ConfiguredDisplay | ocular-computer-interface/src/main.py:38 | the display both loops build from `FRAME_WIDTH`, `FRAME_HEIGHT` and `BORDER_PX` has 400-column half-frames with a 10-pixel border and barrel tables of 480 x 400, and every `show` writes 768000 bytes |
| StereoDisplay.Show | ocular-computer-interface/src/display/stereo_display.py:34-54 | every frame is written from offset 0, covers height x 2*(width//2) pixels of 2 bytes, and is the bordered, duplicated, packed half-frame whose byte layout StereoDisplay.StereoBytesLayout states |
| StereoDisplay.StereoBytesLayout | ocular-computer-interface/src/display/stereo_display.py:42-54 | the bytes at stereo pixel (i, j) are the packed half-frame pixel at column j mod the half width, blacked out when in the border |
| PiCam.NewCamera | ocular-computer-interface/src/cameras/picam.py:6-27 | a new camera has its number, zoom 1.0 and the full 4608 x 2592 sensor as crop |
| PiCam.ClampZoom | ocular-computer-interface/src/cameras/picam.py:31-34 | the factor ends in [1, 8]; factors inside are kept, those below become 1 and those above become 8 |
| PiCam.CropWindow | ocular-computer-interface/src/cameras/picam.py:37-40 | the window is the sensor size divided by the zoom, rounded down, lies inside the sensor, and is centred, with the right or bottom margin at most one pixel larger |
| PiCam.SetZoom | ocular-computer-interface/src/cameras/picam.py:29-44 | the camera keeps its number, remembers the clamped factor and requests the centred window for it |
| PiCam.CropAtLeastEighth | ocular-computer-interface/src/cameras/picam.py:33-38 | the window is never smaller than an eighth of the sensor on either axis |
| PiCam.CropShrinksWithZoom | ocular-computer-interface/src/cameras/picam.py:37-40 | a larger zoom never gives a larger window |
| PiCam.SetZoomMonotone | ocular-computer-interface/src/cameras/picam.py:29-40 | a larger requested factor, clamped or not, never gives a larger window |
| PiCam.FreshCameraIsUnzoomed | ocular-computer-interface/src/cameras/picam.py:17-40 | `set_zoom` with any factor up to 1 puts a camera in exactly its freshly constructed state |
| Switch.GetPosition | ocular-computer-interface/src/controls/switch.py:7-15 | None exactly when no switch is pressed, otherwise the 1-based number of the first pressed switch |
| Switch.LowestIndexWins | ocular-computer-interface/src/controls/switch.py:13-15 | switches after the first pressed one do not affect the position |
| Switch.ReportState | ocular-computer-interface/src/controls/switch.py:17-19 | the line is 15 characters, with spaces exactly at odd positions and token i being `-` when switch i is pressed and its number otherwise |
| Switch.ReportRoundTrip | ocular-computer-interface/src/controls/switch.py:17-19 | the report determines the switch states: reading the `-` tokens back gives them again |
| Rotary.GetRotation | ocular-computer-interface/src/controls/rotary.py:7-16 | returns the whole accumulated count, resets it to zero and leaves the button alone |
| Rotary.IsPressed | ocular-computer-interface/src/controls/rotary.py:18-19 | reports the button's level, which is separate from the step counter |
| Rotary.TurningKeepsPressed | ocular-computer-interface/src/controls/rotary.py:4-19 | no series of movements, and no read of the count after them, changes what `is_pressed` reports |
| Rotary.NoMovementNoChange | ocular-computer-interface/src/controls/rotary.py:11-16 | with no movement the read returns 0 and leaves the encoder exactly as it was |
| Rotary.SecondReadIsZero | ocular-computer-interface/src/controls/rotary.py:7-19 | a second read without movement returns 0, and reading does not change `is_pressed` |
| Rotary.ReadReturnsAccumulated | ocular-computer-interface/src/controls/rotary.py:4-16 | a read after any series of movements returns their sum, not just -1, 0 or +1 |
| Rotary.TwoStepsReadAsTwo | ocular-computer-interface/src/controls/rotary.py:7-16 | two clockwise steps between reads are reported as one reading of 2 |
| RpiStatus.GetThrottled | ocular-computer-interface/src/rpi_status.py:3-15 | 0 when the command fails or prints no `=`; otherwise the hex number after the first `=` of the stripped output, or 0 if it does not parse |
| RpiStatus.SecondField | ocular-computer-interface/src/rpi_status.py:11 | the text between the first `=` and the next `=` or the end, i.e. `split("=")[1]` |
| RpiStatus.GetThrottledOfReport | ocular-computer-interface/src/rpi_status.py:8-12 | decoding the firmware's `throttled=0x…` line for any reading gives back that reading |
| RpiStatus.ExampleReport | ocular-computer-interface/src/rpi_status.py:9-12 | the example output `throttled=0x50005` of the code's comment decodes to 0x50005 |
| RpiStatus.StripKeepsNonSpace | ocular-computer-interface/src/rpi_status.py:10-11 | stripping keeps every non-whitespace character, so an `=` in the output is still there after `strip()` |
| RpiStatus.ParseInt16 | ocular-computer-interface/src/rpi_status.py:12 | `int(value, 16)` needs non-blank text, gives a negative value only after a leading `-`, and rejects a bare sign or a bare `0x` prefix |
| RpiStatus.IsUndervoltage | ocular-computer-interface/src/rpi_status.py:17-19 | bit 0 (`& 0x1`) of a nonzero argument, or of a fresh reading when the argument is missing or zero |
| RpiStatus.IsArmFreqLimited | ocular-computer-interface/src/rpi_status.py:21-23 | bit 2 (`& 0x4`) of a nonzero argument, or of a fresh reading when the argument is missing or zero |
| RpiStatus.IsThrottledNow | ocular-computer-interface/src/rpi_status.py:25-27 | bit 1 (`& 0x2`) of a nonzero argument, or of a fresh reading when the argument is missing or zero |
| RpiStatus.FlagsDecode | ocular-computer-interface/src/rpi_status.py:17-27 | for a nonzero reading, each predicate reports exactly its own bit: 0 for under-voltage, 1 for throttling, 2 for ARM frequency capping |
| RpiStatus.ZeroArgumentRequeries | ocular-computer-interface/src/rpi_status.py:17-27 | a missing or zero argument is falsy, so each predicate decides on a fresh reading |
| RpiStatus.Report | ocular-computer-interface/src/rpi_status.py:55-64 | a nonzero reading gives all three flags from that one reading; a zero reading makes each flag read its own fresh reading |
| RpiStatus.ExampleFlags | ocular-computer-interface/src/rpi_status.py:55-60 | for the comment's example 0x50005, under-voltage and ARM capping are flagged and throttling is not |
| TextOverlay.Tick | ocular-computer-interface/src/main.py:100-104 | the message changes only once the timer has run out, and then to no message; the timer never grows and stays in range |
| TextOverlay.MessageLifetime | ocular-computer-interface/src/main.py:100-104 | after an encoder action the message stays for 100 passes while the timer counts down from 100 |
| TextOverlay.MessageClearedAfterLifetime | ocular-computer-interface/src/main.py:100-104 | on the 101st pass after an encoder action the message is cleared |
| TextOverlay.TextLines | ocular-computer-interface/src/main.py:86-90 | "Switch: N" when a nonzero position is read, then the message while its timer runs, and nothing else |
| TextOverlay.Layout | ocular-computer-interface/src/main.py:93-98 | each line is centred in the 800-pixel width, with the right margin at most one pixel larger, and line i sits i*(h_i+10) below a baseline 20 pixels per line above the middle |
| TextOverlay.Annotate | ocular-computer-interface/src/main.py:86-104 | the lines of `text_lines` are drawn in order: "Switch: N" first exactly when the position is truthy, a message line exactly when the timer runs; each is centred in the 800-pixel width and spaced i*(h_i+10) below the first baseline; then the timer ticks once |
| MainLoop.ModeFor | ocular-computer-interface/src/main.py:18-22 | positions 1, 2 and 3 select visible, NoIR and thermal, and nothing else selects a mode |
| MainLoop.CreateCamera | ocular-computer-interface/src/main.py:24-35 | a camera is returned exactly when it can be opened: the thermal camera is constructed once, without retries, and fails the program when that raises; a visible camera opens iff one of three attempts succeeds, as the first such attempt, with number 0 for NoIR and 1 otherwise |
| MainLoop.SwitchCamera | ocular-computer-interface/src/main.py:48-57 | a position that maps to nothing or to the current mode changes nothing and produces no camera events |
| MainLoop.HandleEncoder | ocular-computer-interface/src/main.py:66-83 | a turn zooms a visible camera to set_zoom(zoom + 0.1 per step) and reports the new zoom, and is unsupported on the thermal camera; without a turn a press resets a visible camera to zoom 1 with "Zoom reset" or reports the press on the thermal camera; otherwise camera and message are kept |
| MainLoop.StopIfPossible | ocular-computer-interface/src/main.py:53-55 | stops the camera exactly when there is one and it has `stop`, which only the visible cameras have |
| MainLoop.Step | ocular-computer-interface/src/main.py:46-107 | a pass that does not crash keeps a mode exactly when a camera of that mode's kind and number is open, with its zoom in [1, 8], the matching crop and the timer in range; a position mapping to nothing or to the current mode stops and opens nothing; the thermal camera is never stopped; without a camera nothing is shown and the encoder is not read; a shown pass shows the captured frame and resets the encoder count |
| MainLoop.ShownText | ocular-computer-interface/src/main.py:85-98 | the text of a shown pass has "Switch: N" first exactly when the position is truthy, an encoder message whenever the encoder turned or its button is down, and every line centred |
| MainLoop.ModeChangeRecreates | ocular-computer-interface/src/main.py:49-57 | a new mode first stops a visible camera, then opens the new one; if all three visible attempts fail, or the thermal construction raises, the pass crashes |
| MainLoop.NoCameraIdle | ocular-computer-interface/src/main.py:59-61 | without a camera the pass shows nothing and does not read the encoder |
| MainLoop.RotationTakesPriority | ocular-computer-interface/src/main.py:66-74 | in a pass whose position selects no new mode, after a turn the zoom is the clamped old zoom plus 0.1 per step, the message reports the new zoom and the counter is reset, whatever the button does |
| MainLoop.RotationOnThermalCrashes | ocular-computer-interface/src/main.py:69-71 | turning the encoder with the thermal camera open raises |
| MainLoop.ButtonResetsZoom | ocular-computer-interface/src/main.py:76-83 | in a pass whose position selects no new mode, a press without a turn returns a visible camera to its fresh state with "Zoom reset"; on the thermal camera it only sets the press message |
| MainLoop.Shutdown | ocular-computer-interface/src/main.py:111-113 | on exit the one event is `Stopped` of the open camera when it is a visible one, and there is none otherwise |
| MainLoop.TenStepsThenReset | ocular-computer-interface/src/main.py:69-80 | ten single steps from a fresh camera reach zoom 2.0, and a press then restores the fresh camera |
| Overlay.ScaledDim | ocular-computer-interface/src/main_threads.py:90-96 | a resized dimension is d*75/55 rounded down |
| Overlay.AsWrittenCropFitsIff | ocular-computer-interface/src/main_threads.py:97-101 | the centre slice has the base's length on an axis iff the resized thermal frame is at least as long there |
| Overlay.AsWrittenOverlay | ocular-computer-interface/src/main_threads.py:97-102 | the blend succeeds, with the base's shape, iff the resized thermal frame covers the base on both axes |
| Overlay.ConfiguredOverlayMismatch | ocular-computer-interface/src/main_threads.py:90-102 | with a 800x480 base and a 400x480 thermal frame the resized frame is 545x654, the column slice starts at -128, and the crop is 480x128, so the blend fails |
| Overlay.AxisSpan | ocular-computer-interface/src/main_threads.py:97-101 | the corrected overlap lies inside both frames, is as long as the shorter one, aligns base p with thermal p + offset, equals the slice when it fits, and otherwise leaves margins differing by at most one |
| Overlay.OverlayRegion | ocular-computer-interface/src/main_threads.py:97-102 | the blended region lies inside the base, and each axis is as long as the shorter of the two frames |
| Overlay.CorrectedAgreesWhereSliceFits | ocular-computer-interface/src/main_threads.py:97-101 | wherever the slice as written works, the corrected region is the whole base and reads the same thermal rows and columns |
| Overlay.ConfiguredOverlayRegion | ocular-computer-interface/src/main_threads.py:85-102 | for the configured frames the corrected overlay takes thermal rows 87..566 into all base rows, and all 545 thermal columns into base columns 128..672 |
| ThreadedLoop.ModeFor | ocular-computer-interface/src/main_threads.py:18-24 | positions 1 to 5 select the five modes, and nothing else selects a mode |
| ThreadedLoop.SelectFrame | ocular-computer-interface/src/main_threads.py:81-119 | no frame before a mode is chosen; a single-camera mode shows its own latest slot, or nothing when it is empty; an overlay mode shows a frame iff both its visible slot and the thermal slot are filled, blended over the corrected region and of the visible frame's shape |
| ThreadedLoop.ButtonResetsOnlyWithoutRotation | ocular-computer-interface/src/main_threads.py:130-138 | a turn sets the zoom to max(1.0, zoom + 0.1 per step) whatever the button does; a press resets it to exactly 1.0 only when the encoder has not turned |
| ThreadedLoop.Rezoom | ocular-computer-interface/src/main_threads.py:127-138 | a turn sets the zoom to max(1.0, zoom + 0.1 per step) and reports it; otherwise a press sets exactly 1.0 with "Zoom reset"; otherwise zoom and message are kept |
| ThreadedLoop.AtLeastOne | ocular-computer-interface/src/main_threads.py:132 | `max(1.0, z)` is at least 1 and at least z, and is one of them |
| ThreadedLoop.NextMode | ocular-computer-interface/src/main_threads.py:75-78 | a mapped position selects its mode, and any other position keeps the last one |
| ThreadedLoop.Step | ocular-computer-interface/src/main_threads.py:73-161 | with the corrected overlay geometry: a mapped position sets the mode and otherwise the last mode is kept; a pass is skipped exactly when that mode has no frame, and then leaves the encoder unread and the zoom and message unchanged; a shown pass shows the selected frame and resets the encoder count; the zoom never falls below 1.0 and the timer stays in range; no pass raises |
| ThreadedLoop.AsWrittenStep | ocular-computer-interface/src/main_threads.py:85-124 | as the code is written, a pass raises exactly when an overlay mode has both slots and its centre crop does not cover the visible frame, ending the program with the encoder unread; any other pass is the corrected pass |
| ThreadedLoop.ZoomHasNoUpperLimit | ocular-computer-interface/src/main_threads.py:130-134 | turning up adds 0.1 per step with no cap, so 80 steps in one read take the zoom past 8 |
| ThreadedLoop.ShownText | ocular-computer-interface/src/main_threads.py:140-152 | the text of a shown pass has "Switch: N" first exactly when the position is truthy, an encoder message whenever the encoder turned or its button is down, and every line centred |
| ThreadedLoop.ZoomDoesNotAffectView | ocular-computer-interface/src/main_threads.py:81-124 | what is shown, and whether a pass is skipped, do not depend on the zoom factor |
| ThreadedLoop.OverlayKeepsBaseShape | ocular-computer-interface/src/main_threads.py:85-102 | an overlay pass shows the base frame's shape, blending the thermal slot over the overlap region of the resized thermal frame |
| ThreadedLoop.ConfiguredOverlay | ocular-computer-interface/src/main_threads.py:85-102 | with the corrected geometry, in mode 4 with the configured frames present, the pass is shown with the region for 800x480 over 400x480 |
| ThreadedLoop.ConfiguredOverlayRaisesAsWritten | ocular-computer-interface/src/main_threads.py:85-102 | as the code is written, the same pass raises in `cv2.addWeighted` and the encoder is not read |

## Left out

- Hardware and I/O: the framebuffer device, GPIO, Picamera2, the MLX90640 driver, `vcgencmd` and `sleep`. Their results are parameters; writes are returned as values.
- `cv2.resize`, `cv2.remap`, `cv2.addWeighted`, `cv2.putText` and the pixels of captured frames. Frames in the loops are shapes, and the display writer takes the remapped half-frame as given.
- StereoDisplay.CreateBarrelMap: only the tables' shape is modelled. The floating-point sample positions (`k1 = -0.25`) are not.
- `cameras/thermal.py` is not part of this model beyond the fact that its camera has no `stop`, `set_zoom` or `zoom_factor`.
- The capture threads of `main_threads.py` and their error-retry loops. The slots a pass reads are an input, holding whichever frame each worker last published.
- ThreadedLoop.Step: in the single-camera modes `cv2.putText` draws on the shared slot's own array, so text from earlier passes stays on that frame until its worker publishes a new one (the thermal worker does so about 4 times a second). `Shown(view, text)` lists only the text of this pass.
- Rotary.GetRotation: the count is read and then set to 0 in one step. In the code these are two separate operations, and a step the hardware registers between them is lost.
- `get_voltage`, `get_temp` and the voltage and temperature entries of `report`: these are float parsing of other firmware commands.
- The `%.1f` text of the zoom message, and the `print` output other than `report_state`'s line.
- PiCam.CropWindow: the zoom is an exact real. In floats, ten `+ 0.1` steps from 1.0 give 2.000000000000001, so the code requests a 2303 x 1295 window where the model (and MainLoop.TenStepsThenReset) has zoom 2.0 and 2304 x 1296.
- Overlay.ScaledDim: computed with the exact ratio 75/55. For a dimension that is a multiple of 11 the float product can fall just below the integer, so `int()` may give one less.
- RpiStatus.ParseInt16: accepts ASCII whitespace and ASCII hex digits only. Python's `int` also accepts Unicode whitespace and digits.
- MainLoop.CreateCamera: a `PiCam` construction outcome is success or `RuntimeError`; other exceptions, which would end the program at once, are not distinguished. A failed thermal construction is modelled (`thermalOk`).
- MainLoop.Step: `cam.capture()` is taken to return a frame. A capture that raises would end the program.
- TextOverlay.Layout: the text x position is centred in `FRAME_WIDTH` even on the 400-wide thermal frame, as in the code. Clipping at the frame's edge is not modelled.
- ThreadedLoop.SelectFrame, ThreadedLoop.Step and ThreadedLoop.ConfiguredOverlay blend with the corrected overlay geometry (see Findings), so they never raise. With the configured frame sizes the code as written raises in modes 4 and 5; that behaviour is ThreadedLoop.AsWrittenStep and ThreadedLoop.ConfiguredOverlayRaisesAsWritten.
- `display.close()` and the `KeyboardInterrupt` path itself. `MainLoop.Shutdown` covers the camera stop of the `finally` clause.

## Findings

| source | as written | input that shows it | evidently intended | confidence | as-written member | corrected member |
|---|---|---|---|---|---|---|
| ocular-computer-interface/src/main_threads.py:97-102 | the centre crop `overlay_resized[y0:y0+H, x0:x0+W]` with `x0 = (ow - W) // 2`, which is negative when the resized thermal frame is narrower than the base | an 800x480 base and a 400x480 thermal frame: resized to 545x654, `x0 = -128`, the slice `[-128:672]` keeps only the last 128 columns, and `addWeighted` gets 480x800 and 480x128 | the resized thermal frame centred on the base and clipped to their overlap on each axis, blended into that region | not executed | Overlay.ConfiguredOverlayMismatch | Overlay.AxisSpan |
