/** The push-button classifier (`get_button` in encoder.c).

    The button pin is sampled once per poll (0 = pressed, 1 = released, with a
    pull-up). The press edge records the millisecond counter; the release edge
    measures how long the button was held, with the wrapping subtraction of
    32-bit unsigned arithmetic, and classifies the press as bounce, short or
    long. */
module Button {

  /** Bounce floor and long-press threshold, in milliseconds (config.h). */
  const DEBOUNCE_MS: nat := 20
  const LONG_PRESS_MS: nat := 2000

  /** `unsigned long` is 32 bits wide on this compiler. */
  const TICKS: nat := 0x1_0000_0000

  /** A value of the millisecond counter `ms_counter`. */
  type Tick = t: int | 0 <= t < TICKS

  /** A sampled button level. */
  type Level = l: int | 0 <= l <= 1

  const PRESSED: Level := 0
  const RELEASED: Level := 1

  /** What `get_button` returns: 0, 1 or 2 in the source. */
  datatype Event = NoEvent | ShortPress | LongPress

  /** `ms_counter - start_time` in 32-bit unsigned arithmetic: the number of
      ticks the counter advanced from `start` to reach `now`, across a wrap. */
  function Elapsed(now: Tick, start: Tick): (d: Tick)
    ensures (start + d) % TICKS == now
    ensures start <= now ==> d == now - start
    ensures now < start ==> d == now - start + TICKS
  {
    (now - start) % TICKS
  }

  /** A counter that advanced by fewer than 2^32 ticks is measured exactly,
      whether or not it wrapped in between. */
  lemma ElapsedAfterTicks(start: Tick, k: nat)
    requires k < TICKS
    ensures Elapsed((start + k) % TICKS, start) == k
  {
    if start + k < TICKS {
      assert (start + k) % TICKS == start + k;
    } else {
      assert (start + k) % TICKS == start + k - TICKS;
    }
  }

  /** The classification of a held duration on release. */
  function Classify(d: Tick): (e: Event)
    ensures e == NoEvent <==> d <= DEBOUNCE_MS
    ensures e == ShortPress <==> DEBOUNCE_MS < d < LONG_PRESS_MS
    ensures e == LongPress <==> d >= LONG_PRESS_MS
  {
    if d > DEBOUNCE_MS && d < LONG_PRESS_MS then ShortPress
    else if d >= LONG_PRESS_MS then LongPress
    else NoEvent
  }

  /** The statics of `get_button`: `start_time` and `last`. */
  datatype Tracker = Tracker(startTime: Tick, last: Level)

  /** The tracker at reset: no press recorded, the button released. */
  const Reset: Tracker := Tracker(0, RELEASED)

  /** One poll of the classifier with the sampled `level` at counter value `now`:
      the tracker afterwards and the event reported. */
  function Sample(t: Tracker, level: Level, now: Tick): (r: (Tracker, Event))
    ensures r.0.last == level
    ensures t.last == level ==> r == (t, NoEvent)
    ensures t.last == RELEASED && level == PRESSED ==> r == (Tracker(now, level), NoEvent)
    ensures t.last == PRESSED && level == RELEASED ==>
      r.0.startTime == t.startTime && r.1 == Classify(Elapsed(now, t.startTime))
    ensures r.1 != NoEvent ==> t.last == PRESSED && level == RELEASED
  {
    if t.last == RELEASED && level == PRESSED then (Tracker(now, level), NoEvent)
    else if t.last == PRESSED && level == RELEASED then (t.(last := level), Classify(Elapsed(now, t.startTime)))
    else (t.(last := level), NoEvent)
  }

  /** The classifier with its persistent statics as fields. */
  class ButtonClassifier {
    var startTime: Tick
    var last: Level

    constructor ()
      ensures Tracker(startTime, last) == Reset
    {
      startTime := 0;
      last := RELEASED;
    }

    /** One call of `get_button`; `now` is the value read from `ms_counter`. */
    method Poll(curr: Level, now: Tick) returns (res: Event)
      modifies this
      ensures (Tracker(startTime, last), res) == Sample(old(Tracker(startTime, last)), curr, now)
    {
      res := NoEvent;
      if curr == PRESSED && last == RELEASED {
        startTime := now;
      }
      if curr == RELEASED && last == PRESSED {
        var duration := Elapsed(now, startTime);
        if duration > DEBOUNCE_MS && duration < LONG_PRESS_MS {
          res := ShortPress;
        } else if duration >= LONG_PRESS_MS {
          res := LongPress;
        }
      }
      last := curr;
    }
  }

  /** Polls the classifier once per sample `(level, now)`, in order. */
  function Run(t: Tracker, samples: seq<(Level, Tick)>): (r: (Tracker, seq<Event>))
    ensures |r.1| == |samples|
    ensures samples != [] ==> r.0.last == samples[|samples| - 1].0
    decreases |samples|
  {
    if samples == [] then (t, [])
    else
      var (t', e) := Sample(t, samples[0].0, samples[0].1);
      var (t'', es) := Run(t', samples[1..]);
      (t'', [e] + es)
  }

  /** The level the classifier remembers before the `i`-th sample. */
  function LevelBefore(t: Tracker, samples: seq<(Level, Tick)>, i: nat): Level
    requires i < |samples|
  {
    if i == 0 then t.last else samples[i - 1].0
  }

  /** An event is reported only on a release edge, so at most once per release. */
  lemma {:induction false} EventsOnlyOnRelease(t: Tracker, samples: seq<(Level, Tick)>, i: nat)
    requires i < |samples|
    requires Run(t, samples).1[i] != NoEvent
    ensures LevelBefore(t, samples, i) == PRESSED && samples[i].0 == RELEASED
    decreases |samples|
  {
    var (t', e) := Sample(t, samples[0].0, samples[0].1);
    if i > 0 {
      assert Run(t, samples).1[i] == Run(t', samples[1..]).1[i - 1];
      EventsOnlyOnRelease(t', samples[1..], i - 1);
      if i > 1 {
        assert samples[1..][i - 2] == samples[i - 1];
      } else {
        assert t'.last == samples[0].0;
      }
    }
  }

  /** While the button stays pressed, the recorded press time is kept and nothing is reported. */
  lemma {:induction false} HoldKeepsStart(t: Tracker, samples: seq<(Level, Tick)>)
    requires t.last == PRESSED
    requires forall i :: 0 <= i < |samples| ==> samples[i].0 == PRESSED
    ensures Run(t, samples).0 == t
    ensures forall i :: 0 <= i < |samples| ==> Run(t, samples).1[i] == NoEvent
    decreases |samples|
  {
    if samples != [] {
      assert Sample(t, samples[0].0, samples[0].1) == (t, NoEvent);
      HoldKeepsStart(t, samples[1..]);
      forall i | 0 <= i < |samples|
        ensures Run(t, samples).1[i] == NoEvent
      {
        if i > 0 {
          assert Run(t, samples).1[i] == Run(t, samples[1..]).1[i - 1];
        }
      }
    }
  }

  /** A whole press: the button goes down at `down`, is held for any number of
      polls, and comes up at `up`. Only the release reports, and it reports the
      class of the wrapped time between the two edges. */
  lemma PressHoldRelease(t: Tracker, down: Tick, hold: seq<(Level, Tick)>, up: Tick)
    requires t.last == RELEASED
    requires forall i :: 0 <= i < |hold| ==> hold[i].0 == PRESSED
    ensures var events := Run(t, [(PRESSED, down)] + hold + [(RELEASED, up)]).1;
      && events[|events| - 1] == Classify(Elapsed(up, down))
      && forall i :: 0 <= i < |events| - 1 ==> events[i] == NoEvent
  {
    var pressed := Tracker(down, PRESSED);
    HoldKeepsStart(pressed, hold);
    RunAppend(t, [(PRESSED, down)], hold + [(RELEASED, up)]);
    RunAppend(pressed, hold, [(RELEASED, up)]);
    assert [(PRESSED, down)] + hold + [(RELEASED, up)] == [(PRESSED, down)] + (hold + [(RELEASED, up)]);
  }

  /** Running two batches of samples is running their concatenation. */
  lemma {:induction false} RunAppend(t: Tracker, a: seq<(Level, Tick)>, b: seq<(Level, Tick)>)
    ensures Run(t, a + b) == (Run(Run(t, a).0, b).0, Run(t, a).1 + Run(Run(t, a).0, b).1)
    decreases |a|
  {
    if a != [] {
      var (t', e) := Sample(t, a[0].0, a[0].1);
      assert (a + b)[1..] == a[1..] + b;
      RunAppend(t', a[1..], b);
      var mid := Run(t', a[1..]).0;
      assert Run(t, a) == (mid, [e] + Run(t', a[1..]).1);
      assert Run(t, a + b).1 == [e] + (Run(t', a[1..]).1 + Run(mid, b).1);
      assert [e] + (Run(t', a[1..]).1 + Run(mid, b).1) == ([e] + Run(t', a[1..]).1) + Run(mid, b).1;
    } else {
      assert a + b == b;
      assert Run(t, a) == (t, []);
      assert [] + Run(t, b).1 == Run(t, b).1;
    }
  }

  /** Held for k ticks with 20 < k < 2000 gives a short press, and k >= 2000
      (below a full counter period) a long press, wherever the counter wraps. */
  lemma PressLength(down: Tick, k: nat)
    requires k < TICKS
    ensures DEBOUNCE_MS < k < LONG_PRESS_MS ==> Classify(Elapsed((down + k) % TICKS, down)) == ShortPress
    ensures k >= LONG_PRESS_MS ==> Classify(Elapsed((down + k) % TICKS, down)) == LongPress
    ensures k <= DEBOUNCE_MS ==> Classify(Elapsed((down + k) % TICKS, down)) == NoEvent
  {
    ElapsedAfterTicks(down, k);
  }
}
