/** The compile-time settings both render loops declare identically
    (`FRAME_WIDTH`, `FRAME_HEIGHT`, `BORDER_PX`). */
module Settings {
  const FrameWidth: nat := 800
  const FrameHeight: nat := 480
  const BorderPx: nat := 10
}
