/** The quadrature decoder of the rotary encoder (`get_encoder` in encoder.c).

    Each poll combines the two encoder pins into a 2-bit state `(B << 1) | A`,
    compares it with the state remembered from the previous poll and reports a
    single step: +1 for one step forward along the Gray-code cycle
    00 -> 01 -> 11 -> 10 -> 00, -1 for one step backward, and 0 for no change
    or for a "diagonal" jump (both pins changed at once), which is noise. */
module Encoder {

  /** A sampled pin level: 0 (low) or 1 (high). */
  type Bit = b: int | 0 <= b <= 1

  /** The two encoder pins combined into a 2-bit value. */
  type PinState = s: int | 0 <= s < 4

  /** `(B << 1) | A`: pin A is the low bit, pin B the high bit. */
  function Combine(a: Bit, b: Bit): (s: PinState)
    ensures s % 2 == a && s / 2 == b
  {
    2 * b + a
  }

  /** One step forward along the quadrature cycle 00 -> 01 -> 11 -> 10 -> 00. */
  function Forward(s: PinState): (t: PinState)
    ensures t != s
  {
    if s == 0 then 1 else if s == 1 then 3 else if s == 3 then 2 else 0
  }

  /** One step backward along the cycle. */
  function Backward(s: PinState): (t: PinState)
    ensures Forward(t) == s && t != s
  {
    if s == 0 then 2 else if s == 2 then 3 else if s == 3 then 1 else 0
  }

  /** Where a pin state sits on the forward cycle, counting from 00. */
  function Position(s: PinState): (p: nat)
    ensures p < 4
  {
    if s == 0 then 0 else if s == 1 then 1 else if s == 3 then 2 else 3
  }

  /** Two steps away on the cycle: the state that differs from `s` in both pins. */
  function Opposite(s: PinState): PinState { Forward(Forward(s)) }

  /** The step a decoder reports when the pins move from `last` to `current`:
      the reference definition the decoder's lookup table is proved against. */
  function Direction(last: PinState, current: PinState): (dir: int)
    ensures -1 <= dir <= 1
    ensures current == last ==> dir == 0
  {
    if current == Forward(last) then 1
    else if current == Backward(last) then -1
    else 0
  }

  /** A diagonal jump (two steps along the cycle in one poll) is exactly a change of both pins. */
  lemma DiagonalIsBothPinsChanged(last: PinState, current: PinState)
    ensures current == Opposite(last) <==> (current % 2 != last % 2 && current / 2 != last / 2)
    ensures Opposite(last) == Backward(Backward(last))
  {
  }

  /** Every pair of states is classified: unchanged or diagonal gives 0, a single
      pin change gives exactly one of +1 and -1. */
  lemma DirectionClassifies(last: PinState, current: PinState)
    ensures Direction(last, current) == 0 <==> current == last || current == Opposite(last)
    ensures Direction(last, current) == 1 <==> current == Forward(last)
    ensures Direction(last, current) == -1 <==> current == Backward(last)
  {
  }

  /** A step the decoder reports moves the position along the cycle by that step. */
  lemma StepMatchesPosition(last: PinState, current: PinState)
    requires current != Opposite(last)
    ensures (Direction(last, current) - (Position(current) - Position(last))) % 4 == 0
  {
  }

  lemma SumOfMultiples(x: int, y: int)
    requires x % 4 == 0 && y % 4 == 0
    ensures (x + y) % 4 == 0
  {
  }

  /** The persistent state of `get_encoder`: its static `last_state`. */
  class QuadratureDecoder {
    var lastState: PinState

    constructor ()
      ensures lastState == 0
    {
      lastState := 0;
    }

    /** One call of `get_encoder` with pin levels `a` (ENC_A) and `b` (ENC_B). */
    method Poll(a: Bit, b: Bit) returns (dir: int)
      modifies this
      ensures lastState == Combine(a, b)
      ensures dir == Direction(old(lastState), Combine(a, b))
      ensures dir == 0 <==> Combine(a, b) == old(lastState) || Combine(a, b) == Opposite(old(lastState))
    {
      var current := Combine(a, b);
      dir := 0;
      if current != lastState {
        if lastState == 0 {
          if current == 1 { dir := 1; } else if current == 2 { dir := -1; }
        } else if lastState == 1 {
          if current == 3 { dir := 1; } else if current == 0 { dir := -1; }
        } else if lastState == 2 {
          if current == 0 { dir := 1; } else if current == 3 { dir := -1; }
        } else {
          if current == 2 { dir := 1; } else if current == 1 { dir := -1; }
        }
        lastState := current;
      }
      DirectionClassifies(old(lastState), current);
    }
  }

  /** The steps reported by successive polls that see the pin states `states`,
      starting from the remembered state `last`. */
  function DecodeAll(last: PinState, states: seq<PinState>): (dirs: seq<int>)
    ensures |dirs| == |states|
    ensures forall i :: 0 <= i < |dirs| ==> -1 <= dirs[i] <= 1
    decreases |states|
  {
    if states == [] then [] else [Direction(last, states[0])] + DecodeAll(states[0], states[1..])
  }

  /** The state remembered before the `i`-th poll of `states`. */
  function Before(start: PinState, states: seq<PinState>, i: nat): PinState
    requires i < |states|
  {
    if i == 0 then start else states[i - 1]
  }

  /** The state remembered after all of `states` has been polled. */
  function Final(start: PinState, states: seq<PinState>): PinState
  {
    if states == [] then start else states[|states| - 1]
  }

  function Sum(dirs: seq<int>): int
  {
    if dirs == [] then 0 else dirs[0] + Sum(dirs[1..])
  }

  /** Turning forward through the cycle reports +1 on every poll. */
  lemma {:induction false} ForwardTurnCountsUp(start: PinState, states: seq<PinState>)
    requires forall i :: 0 <= i < |states| ==> states[i] == Forward(Before(start, states, i))
    ensures forall i :: 0 <= i < |states| ==> DecodeAll(start, states)[i] == 1
    decreases |states|
  {
    if states != [] {
      assert states[0] == Forward(Before(start, states, 0));
      forall i | 0 <= i < |states[1..]|
        ensures states[1..][i] == Forward(Before(states[0], states[1..], i))
      {
        assert states[1..][i] == states[i + 1];
        assert Before(states[0], states[1..], i) == Before(start, states, i + 1);
      }
      ForwardTurnCountsUp(states[0], states[1..]);
      forall i | 0 <= i < |states|
        ensures DecodeAll(start, states)[i] == 1
      {
        if i > 0 {
          assert DecodeAll(start, states)[i] == DecodeAll(states[0], states[1..])[i - 1];
        }
      }
    }
  }

  /** Turning backward through the cycle reports -1 on every poll. */
  lemma {:induction false} BackwardTurnCountsDown(start: PinState, states: seq<PinState>)
    requires forall i :: 0 <= i < |states| ==> states[i] == Backward(Before(start, states, i))
    ensures forall i :: 0 <= i < |states| ==> DecodeAll(start, states)[i] == -1
    decreases |states|
  {
    if states != [] {
      assert states[0] == Backward(Before(start, states, 0));
      forall i | 0 <= i < |states[1..]|
        ensures states[1..][i] == Backward(Before(states[0], states[1..], i))
      {
        assert states[1..][i] == states[i + 1];
        assert Before(states[0], states[1..], i) == Before(start, states, i + 1);
      }
      BackwardTurnCountsDown(states[0], states[1..]);
      forall i | 0 <= i < |states|
        ensures DecodeAll(start, states)[i] == -1
      {
        if i > 0 {
          assert DecodeAll(start, states)[i] == DecodeAll(states[0], states[1..])[i - 1];
        }
      }
    }
  }

  /** Without diagonal jumps, the reported steps add up to the distance travelled
      along the cycle, modulo its length: the decoder loses no step. */
  lemma {:induction false} NoStepLost(start: PinState, states: seq<PinState>)
    requires forall i :: 0 <= i < |states| ==> states[i] != Opposite(Before(start, states, i))
    ensures (Sum(DecodeAll(start, states)) - (Position(Final(start, states)) - Position(start))) % 4 == 0
    decreases |states|
  {
    if states != [] {
      var s0 := states[0];
      assert s0 != Opposite(Before(start, states, 0));
      forall i | 0 <= i < |states[1..]|
        ensures states[1..][i] != Opposite(Before(s0, states[1..], i))
      {
        assert states[1..][i] == states[i + 1];
        assert Before(s0, states[1..], i) == Before(start, states, i + 1);
      }
      NoStepLost(s0, states[1..]);
      assert Final(s0, states[1..]) == Final(start, states);
      var rest := Sum(DecodeAll(s0, states[1..]));
      var d := Direction(start, s0);
      assert Sum(DecodeAll(start, states)) == d + rest;
      StepMatchesPosition(start, s0);
      SumOfMultiples(d - (Position(s0) - Position(start)), rest - (Position(Final(s0, states[1..])) - Position(s0)));
    }
  }
}
