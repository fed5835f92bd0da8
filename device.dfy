/** One pass of the `while (1)` loop of main.c: poll the encoder, poll the
    button with the current millisecond count, then run the navigation step on
    the two results. The pin levels and the counter value are the inputs the
    hardware would supply. */
module Device {
  import Encoder
  import Button
  import Navigation

  method LoopPass(decoder: Encoder.QuadratureDecoder, button: Button.ButtonClassifier,
                  nav: Navigation.Navigator, a: Encoder.Bit, b: Encoder.Bit,
                  level: Button.Level, now: Button.Tick)
    returns (drawn: seq<Navigation.Screen>)
    requires Navigation.WellFormed(nav.Snapshot())
    modifies decoder, button, nav, nav.params
    ensures nav.params == old(nav.params)
    ensures decoder.lastState == Encoder.Combine(a, b)
    ensures var enc := Encoder.Direction(old(decoder.lastState), Encoder.Combine(a, b));
      var sampled := Button.Sample(old(Button.Tracker(button.startTime, button.last)), level, now);
      && Button.Tracker(button.startTime, button.last) == sampled.0
      && (nav.Snapshot(), drawn) == Navigation.Transition(old(nav.Snapshot()), enc, sampled.1)
    ensures Navigation.WellFormed(nav.Snapshot())
  {
    var enc := decoder.Poll(a, b);
    var btn := button.Poll(level, now);
    drawn := nav.Step(enc, btn);
  }

  /** The value a step takes when stored in a plain `char` that the compiler
      treats as unsigned (8 bits): -1 becomes 255. */
  function AsUnsignedChar(x: int): (c: int)
    ensures 0 <= c < 256 && (c - x) % 256 == 0
  {
    x % 256
  }

  /** As written, with an unsigned `char enc`, one reverse step is added as
      +255: in the menu it jumps to the first item instead of the previous one,
      and while editing it raises the pending value (to the maximum, when that
      is less than 255 away) instead of lowering it by one. */
  lemma ReverseStepAsUnsignedChar(n: Navigation.Nav)
    requires Navigation.WellFormed(n)
    ensures n.state == Navigation.Menu && n.index > 0 ==>
      && Navigation.Transition(n, AsUnsignedChar(-1), Button.NoEvent).0.index == 0
      && Navigation.Transition(n, -1, Button.NoEvent).0.index == n.index - 1
    ensures n.state == Navigation.Edit && n.params[n.index].min < n.temp < n.params[n.index].max ==>
      && Navigation.Transition(n, AsUnsignedChar(-1), Button.NoEvent).0.temp > n.temp
      && (n.params[n.index].max - n.temp < 255 ==>
            Navigation.Transition(n, AsUnsignedChar(-1), Button.NoEvent).0.temp == n.params[n.index].max)
      && Navigation.Transition(n, -1, Button.NoEvent).0.temp == n.temp - 1
  {
    assert AsUnsignedChar(-1) == 255;
  }
}
