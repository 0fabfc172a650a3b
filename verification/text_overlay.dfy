/** The status text both render loops draw on a frame: which lines are
    shown, where each is placed, and the countdown that hides the encoder
    message. The encoder timer (1.0 s decremented by 0.01 per shown frame)
    is counted in whole ticks. */
module TextOverlay {
  import opened Common
  import Settings

  /** The encoder message. A zoom message carries the zoom it reports; its
      `%.1f` text is not modelled. */
  datatype Message = NoMessage | ZoomLevel(zoom: real) | ZoomReset | ButtonPressed

  /** `encoder_timer = 1.0` in ticks of 0.01. */
  const MessageTicks: int := 100

  /** The encoder message and the ticks left before it is hidden. */
  datatype Banner = Banner(message: Message, timer: int)

  const NoBanner: Banner := Banner(NoMessage, 0)

  /** A message set by an encoder action: shown for the next
      `MessageTicks` frames. */
  function Announce(m: Message): Banner {
    Banner(m, MessageTicks)
  }

  /** A banner the loops can reach: the timer stays within one message's
      duration, and while it runs there is a message to show. */
  predicate BannerOk(b: Banner) {
    0 <= b.timer <= MessageTicks && (b.timer > 0 ==> b.message != NoMessage)
  }

  /** The end-of-cycle timer update: count down while positive; once it is
      no longer positive, clear the message. */
  function Tick(b: Banner): (b': Banner)
    ensures b'.message != b.message ==> b.timer <= 0 && b'.message == NoMessage
    ensures b'.timer <= b.timer
    ensures BannerOk(b) ==> BannerOk(b')
  {
    if b.timer > 0 then Banner(b.message, b.timer - 1) else Banner(NoMessage, b.timer)
  }

  function TickN(b: Banner, n: nat): Banner
    decreases n
  {
    if n == 0 then b else TickN(Tick(b), n - 1)
  }

  /** After an encoder action the message stays for `MessageTicks` cycles
      (its timer runs down from 100 to 0) and is cleared on the cycle after. */
  lemma {:induction false} MessageLifetime(m: Message, n: nat)
    requires n <= MessageTicks
    ensures TickN(Announce(m), n) == Banner(m, MessageTicks - n)
  {
    if n > 0 {
      MessageLifetimeFrom(Banner(m, MessageTicks), n);
    }
  }

  lemma {:induction false} MessageLifetimeFrom(b: Banner, n: nat)
    requires n <= b.timer
    ensures TickN(b, n) == Banner(b.message, b.timer - n)
    decreases n
  {
    if n > 0 {
      MessageLifetimeFrom(Tick(b), n - 1);
    }
  }

  lemma MessageClearedAfterLifetime(m: Message)
    ensures TickN(Announce(m), MessageTicks + 1) == Banner(NoMessage, 0)
  {
    MessageLifetime(m, MessageTicks);
    TickNSplit(Announce(m), MessageTicks, 1);
  }

  lemma {:induction false} TickNSplit(b: Banner, n: nat, k: nat)
    ensures TickN(b, n + k) == TickN(TickN(b, n), k)
    decreases n
  {
    if n > 0 {
      TickNSplit(Tick(b), n - 1, k);
    }
  }

  /** One line of status text. */
  datatype TextLine = SwitchLine(position: nat) | MessageLine(message: Message)

  /** Python truthiness of `switch_pos`: present and nonzero. */
  predicate Truthy(pos: Option<nat>) {
    pos.Some? && pos.value != 0
  }

  /** `text_lines`: "Switch: N" when a position is read, then the encoder
      message while its timer runs. */
  function TextLines(pos: Option<nat>, b: Banner): (lines: seq<TextLine>)
    ensures |lines| == (if Truthy(pos) then 1 else 0) + (if b.timer > 0 then 1 else 0)
    ensures |lines| <= 2
    ensures Truthy(pos) ==> lines[0] == SwitchLine(pos.value)
    ensures b.timer > 0 ==> lines[|lines| - 1] == MessageLine(b.message)
    ensures forall i :: 0 <= i < |lines| ==> lines[i] == MessageLine(b.message) || (Truthy(pos) && lines[i] == SwitchLine(pos.value))
  {
    (if Truthy(pos) then [SwitchLine(pos.value)] else [])
    + (if b.timer > 0 then [MessageLine(b.message)] else [])
  }

  /** `cv2.getTextSize` of a line: width and height in pixels. */
  datatype TextSize = TextSize(w: int, h: int)

  /** A line and the bottom-left corner it is drawn at. */
  datatype Placed = Placed(line: TextLine, x: int, y: int)

  /** The placement loop: each line is centred horizontally in the
      configured frame width, and line `i` sits `i * (h_i + 10)` below the
      first baseline, which is 20 pixels above the middle per line. */
  function Layout(lines: seq<TextLine>, measure: TextLine -> TextSize): (placed: seq<Placed>)
    ensures |placed| == |lines|
    ensures forall i :: 0 <= i < |lines| ==> placed[i].line == lines[i]
    ensures forall i :: 0 <= i < |lines| ==>
              var left := placed[i].x;
              var right := Settings.FrameWidth - measure(lines[i]).w - placed[i].x;
              0 <= right - left <= 1
    ensures forall i :: 0 <= i < |lines| ==>
              placed[i].y - (Settings.FrameHeight / 2 - 20 * |lines|) == i * (measure(lines[i]).h + 10)
  {
    var y0 := Settings.FrameHeight / 2 - |lines| * 20;
    seq(|lines|, i requires 0 <= i < |lines| =>
      var size := measure(lines[i]);
      Placed(lines[i], (Settings.FrameWidth - size.w) / 2, y0 + i * (size.h + 10)))
  }

  /** The text placed on a shown frame and the banner for the next cycle. */
  datatype Annotation = Annotation(text: seq<Placed>, banner: Banner)

  /** The text section and timer update of a shown cycle: the lines of
      `TextLines`, in order, placed by `Layout`, then one tick. */
  function Annotate(pos: Option<nat>, b: Banner, measure: TextLine -> TextSize): (a: Annotation)
    ensures |a.text| == |TextLines(pos, b)| <= 2
    ensures forall i :: 0 <= i < |a.text| ==> a.text[i].line == TextLines(pos, b)[i]
    ensures a.banner == Tick(b)
    // "Switch: N" comes first, exactly when the position is truthy
    ensures Truthy(pos) ==> |a.text| > 0 && a.text[0].line == SwitchLine(pos.value)
    ensures (exists i :: 0 <= i < |a.text| && a.text[i].line.SwitchLine?) <==> Truthy(pos)
    // the message line is drawn exactly while the timer runs
    ensures (exists i :: 0 <= i < |a.text| && a.text[i].line.MessageLine?) <==> b.timer > 0
    // every line is centred in the frame width and spaced below the first baseline
    ensures forall i :: 0 <= i < |a.text| ==>
              var left := a.text[i].x;
              var right := Settings.FrameWidth - measure(a.text[i].line).w - a.text[i].x;
              0 <= right - left <= 1
    ensures forall i :: 0 <= i < |a.text| ==>
              a.text[i].y - (Settings.FrameHeight / 2 - 20 * |a.text|) == i * (measure(a.text[i].line).h + 10)
  {
    var lines := TextLines(pos, b);
    var text := Layout(lines, measure);
    assert b.timer > 0 ==> text[|text| - 1].line.MessageLine?;
    Annotation(text, Tick(b))
  }
}
