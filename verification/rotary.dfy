/** The rotary encoder and its push button. The encoder's hardware counter
    (`encoder.steps`, unbounded because `max_steps=0`) and the button level
    are the whole state. */
module Rotary {

  datatype Encoder = Encoder(steps: int, buttonDown: bool)

  /** The counter after the hardware registers `delta` steps (positive
      clockwise). */
  function Turn(e: Encoder, delta: int): Encoder {
    e.(steps := e.steps + delta)
  }

  function TurnAll(e: Encoder, deltas: seq<int>): Encoder
    decreases |deltas|
  {
    if |deltas| == 0 then e else TurnAll(Turn(e, deltas[0]), deltas[1..])
  }

  function Sum(xs: seq<int>): int {
    if |xs| == 0 then 0 else xs[0] + Sum(xs[1..])
  }

  /** What `get_rotation` returns and the encoder it leaves behind. */
  datatype Reading = Reading(movement: int, encoder: Encoder)

  /** `get_rotation`: returns the whole count accumulated since the last
      reset (not just +1, -1 or 0) and leaves the counter at zero; the
      button is untouched. */
  function GetRotation(e: Encoder): (r: Reading)
    ensures r.movement == e.steps
    ensures r.encoder.steps == 0
    ensures r.encoder.buttonDown == e.buttonDown
  {
    if e.steps != 0 then Reading(e.steps, e.(steps := 0)) else Reading(0, e)
  }

  /** `is_pressed`: the button's level, whatever the counter holds. */
  function IsPressed(e: Encoder): (pressed: bool)
    ensures pressed <==> e.buttonDown
  {
    e.buttonDown
  }

  /** The button and the counter are separate: no movement and no read of
      the count changes what `is_pressed` reports. */
  lemma {:induction false} TurningKeepsPressed(e: Encoder, deltas: seq<int>)
    ensures IsPressed(TurnAll(e, deltas)) == IsPressed(e)
    ensures IsPressed(GetRotation(TurnAll(e, deltas)).encoder) == IsPressed(e)
    decreases |deltas|
  {
    if |deltas| > 0 {
      TurningKeepsPressed(Turn(e, deltas[0]), deltas[1..]);
    }
  }

  /** With no movement the read changes nothing. */
  lemma NoMovementNoChange(e: Encoder)
    requires e.steps == 0
    ensures GetRotation(e) == Reading(0, e)
  {
  }

  /** Two reads with no movement in between: the second one reports 0, and
      reading does not change what `is_pressed` reports. */
  lemma SecondReadIsZero(e: Encoder)
    ensures GetRotation(GetRotation(e).encoder).movement == 0
    ensures IsPressed(GetRotation(e).encoder) == IsPressed(e)
  {
  }

  lemma {:induction false} TurnAllAdds(e: Encoder, deltas: seq<int>)
    ensures TurnAll(e, deltas) == e.(steps := e.steps + Sum(deltas))
    decreases |deltas|
  {
    if |deltas| > 0 {
      TurnAllAdds(Turn(e, deltas[0]), deltas[1..]);
    }
  }

  /** A read after a series of movements returns their sum, so it can
      exceed one step in either direction. */
  lemma {:induction false} ReadReturnsAccumulated(deltas: seq<int>, button: bool)
    ensures GetRotation(TurnAll(Encoder(0, button), deltas)).movement == Sum(deltas)
  {
    TurnAllAdds(Encoder(0, button), deltas);
  }

  /** Two clockwise steps between reads are reported as one reading of 2. */
  lemma TwoStepsReadAsTwo()
    ensures GetRotation(TurnAll(Encoder(0, false), [1, 1])).movement == 2
  {
    ReadReturnsAccumulated([1, 1], false);
    assert Sum([1, 1]) == 1 + Sum([1]);
  }
}
