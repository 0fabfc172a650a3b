/** The 8-way selector switch: eight buttons read in pin order. A switch
    state is the sequence of the buttons' `is_pressed` values. */
module Switch {
  import opened Common

  /** `len(SWITCH_PINS)` */
  const SwitchCount: nat := 8

  /** The `for` loop of `get_position` from switch `i` on. */
  function FirstPressedFrom(pressed: seq<bool>, i: nat): (pos: Option<nat>)
    requires i <= |pressed|
    ensures pos.None? <==> forall k :: i <= k < |pressed| ==> !pressed[k]
    ensures pos.Some? ==> i < pos.value <= |pressed| && pressed[pos.value - 1]
    ensures pos.Some? ==> forall k :: i <= k < pos.value - 1 ==> !pressed[k]
    decreases |pressed| - i
  {
    if i == |pressed| then None
    else if pressed[i] then Some(i + 1)
    else FirstPressedFrom(pressed, i + 1)
  }

  /** `get_position`: the 1-based index of the first pressed switch, or
      `None` when no switch is pressed. */
  function GetPosition(pressed: seq<bool>): (pos: Option<nat>)
    ensures pos.None? <==> forall k :: 0 <= k < |pressed| ==> !pressed[k]
    ensures pos.Some? ==> 1 <= pos.value <= |pressed| && pressed[pos.value - 1]
    ensures pos.Some? ==> forall k :: 0 <= k < pos.value - 1 ==> !pressed[k]
  {
    FirstPressedFrom(pressed, 0)
  }

  /** Only the switches up to the first pressed one matter: any state that
      agrees with `a` on them yields the same position, whatever the later
      switches do. */
  lemma LowestIndexWins(a: seq<bool>, b: seq<bool>, p: nat)
    requires GetPosition(a) == Some(p)
    requires p <= |b| && a[..p] == b[..p]
    ensures GetPosition(b) == Some(p)
  {
    assert forall k :: 0 <= k < p ==> b[k] == a[..p][k];
  }

  /** The decimal digit for `n` (`str(n)` for `n < 10`). */
  function Digit(n: nat): char
    requires n <= 9
  {
    ('0' as int + n) as char
  }

  /** One token of `report_state`: `-` for a pressed switch, its 1-based
      number otherwise. */
  function Token(i: nat, isPressed: bool): string
    requires i < SwitchCount
  {
    if isPressed then "-" else [Digit(i + 1)]
  }

  /** `" ".join(tokens)` */
  function JoinSpace(ts: seq<string>): string {
    if |ts| == 0 then ""
    else if |ts| == 1 then ts[0]
    else ts[0] + " " + JoinSpace(ts[1..])
  }

  lemma {:induction false} JoinSingles(ts: seq<string>)
    requires |ts| >= 1
    requires forall i :: 0 <= i < |ts| ==> |ts[i]| == 1
    ensures |JoinSpace(ts)| == 2 * |ts| - 1
    ensures forall k :: 0 <= k < 2 * |ts| - 1 ==>
              JoinSpace(ts)[k] == if k % 2 == 1 then ' ' else ts[k / 2][0]
  {
    if |ts| > 1 {
      var rest := ts[1..];
      JoinSingles(rest);
      var s := JoinSpace(ts);
      assert s == ts[0] + " " + JoinSpace(rest);
      forall k | 0 <= k < 2 * |ts| - 1
        ensures s[k] == if k % 2 == 1 then ' ' else ts[k / 2][0]
      {
        if k >= 2 {
          assert s[k] == JoinSpace(rest)[k - 2];
          assert rest[(k - 2) / 2] == ts[k / 2];
        }
      }
    }
  }

  /** The text `report_state` prints after its label: eight tokens
      separated by single spaces. */
  function ReportState(pressed: seq<bool>): (s: string)
    requires |pressed| == SwitchCount
    ensures |s| == 2 * SwitchCount - 1
    ensures forall k :: 0 <= k < |s| ==> (s[k] == ' ' <==> k % 2 == 1)
    ensures forall i :: 0 <= i < SwitchCount ==>
              s[2 * i] == if pressed[i] then '-' else Digit(i + 1)
  {
    var tokens := seq(SwitchCount, i requires 0 <= i < SwitchCount => Token(i, pressed[i]));
    JoinSingles(tokens);
    JoinSpace(tokens)
  }

  /** Reads the switch states back from a report: a switch is pressed
      exactly where its token is `-`. */
  function ParseReport(s: string): (pressed: seq<bool>)
    requires |s| == 2 * SwitchCount - 1
    ensures |pressed| == SwitchCount
  {
    seq(SwitchCount, i requires 0 <= i < SwitchCount => s[2 * i] == '-')
  }

  /** The report determines the switch states. */
  lemma ReportRoundTrip(pressed: seq<bool>)
    requires |pressed| == SwitchCount
    ensures ParseReport(ReportState(pressed)) == pressed
  {
    var s := ReportState(pressed);
    forall i | 0 <= i < SwitchCount
      ensures ParseReport(s)[i] == pressed[i]
    {
      assert s[2 * i] == if pressed[i] then '-' else Digit(i + 1);
    }
  }
}
