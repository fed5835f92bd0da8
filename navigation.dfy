/** The menu navigation state machine and the parameter store of main.c.

    One pass of the main loop takes the encoder step `enc` and the button event
    `btn` and moves between the Idle, Menu and Edit screens: rotation selects a
    menu item with wrap-around or adjusts the pending value with clamping, a
    short press opens the menu, enters editing or commits, and a long press
    leaves to the idle screen, discarding an edit. The rotation is applied
    before the button within one pass. Each call of `draw_idle`, `draw_menu` or
    `draw_edit` is recorded as a `Screen` carrying what that screen shows. */
module Navigation {
  import Button

  /** Number of entries in the parameter table (config.h). */
  const MAX_MENU_ITEMS: nat := 4

  /** One adjustable setting: its name, current value, bounds and unit label. */
  datatype Parameter = Parameter(name: string, value: int, min: int, max: int, unit: string)

  predicate InBounds(p: Parameter)
  {
    p.min <= p.value <= p.max
  }

  /** The table the device starts with. */
  function InitialParams(): (ps: seq<Parameter>)
    ensures |ps| == MAX_MENU_ITEMS
    ensures forall i :: 0 <= i < |ps| ==> InBounds(ps[i])
  {
    [ Parameter("High Pressure", 50, 0, 335, "psi"),
      Parameter("HP Bypass", 0, 0, 45, "sec"),
      Parameter("Low Pressure", 50, 0, 335, "psi"),
      Parameter("LP Bypass", 0, 0, 45, "sec") ]
  }

  /** Two tables that agree on everything but the current values. */
  predicate SameSettings(a: seq<Parameter>, b: seq<Parameter>)
  {
    |a| == |b| &&
    forall i :: 0 <= i < |a| ==>
      a[i].name == b[i].name && a[i].min == b[i].min && a[i].max == b[i].max && a[i].unit == b[i].unit
  }

  /** The `State` enum. */
  datatype State = Idle | Menu | Edit

  /** A redraw of the display, with the data the drawn screen shows. */
  datatype Screen = IdleScreen | MenuScreen(selected: int) | EditScreen(selected: int, pending: int)

  /** The globals `current_state`, `current_index`, `temp_value` and `params`. */
  datatype Nav = Nav(state: State, index: int, temp: int, params: seq<Parameter>)

  /** The globals at reset. */
  const Start: Nav := Nav(Idle, 0, 0, InitialParams())

  /** What every pass keeps: a full table whose values lie in their bounds, a
      valid selected index, and, while editing, a pending value in the bounds of
      the selected parameter. */
  predicate WellFormed(n: Nav)
  {
    && |n.params| == MAX_MENU_ITEMS
    && 0 <= n.index < MAX_MENU_ITEMS
    && (forall i :: 0 <= i < |n.params| ==> InBounds(n.params[i]))
    && (n.state == Edit ==> n.params[n.index].min <= n.temp <= n.params[n.index].max)
  }

  lemma StartIsWellFormed()
    ensures WellFormed(Start)
  {
  }

  /** The selection after `current_index += enc` and the two wrap-around checks. */
  function WrapIndex(i: int, enc: int): (j: int)
    ensures 0 <= j < MAX_MENU_ITEMS
    ensures 0 <= i + enc < MAX_MENU_ITEMS ==> j == i + enc
    ensures i + enc < 0 ==> j == MAX_MENU_ITEMS - 1
    ensures i + enc >= MAX_MENU_ITEMS ==> j == 0
  {
    var k := i + enc;
    if k < 0 then MAX_MENU_ITEMS - 1 else if k >= MAX_MENU_ITEMS then 0 else k
  }

  /** For the single steps the decoder reports, the wrap-around is arithmetic
      modulo the number of items: 0 - 1 gives the last item, the last + 1 gives 0. */
  lemma WrapIsModular(i: int, enc: int)
    requires 0 <= i < MAX_MENU_ITEMS && -1 <= enc <= 1
    ensures WrapIndex(i, enc) == (i + enc) % MAX_MENU_ITEMS
  {
  }

  /** `temp_value` after the two clamping checks against `lo` (min) and `hi` (max). */
  function Clamp(v: int, lo: int, hi: int): (r: int)
    ensures lo <= hi ==> lo <= r <= hi
    ensures lo <= v <= hi ==> r == v
    ensures lo <= hi && v < lo ==> r == lo
    ensures v > hi ==> r == hi
  {
    var w := if v < lo then lo else v;
    if w > hi then hi else w
  }

  /** The rotation part of one pass: ignored in Idle, moves the selection in
      Menu, adjusts the pending value in Edit. Every nonzero step redraws. */
  function Rotate(n: Nav, enc: int): (r: (Nav, seq<Screen>))
    requires WellFormed(n)
    ensures WellFormed(r.0) && r.0.state == n.state && r.0.params == n.params
    ensures |r.1| <= 1
  {
    if enc == 0 then (n, [])
    else match n.state
      case Idle => (n, [])
      case Menu =>
        var i := WrapIndex(n.index, enc);
        (n.(index := i), [MenuScreen(i)])
      case Edit =>
        var p := n.params[n.index];
        var v := Clamp(n.temp + enc, p.min, p.max);
        (n.(temp := v), [EditScreen(n.index, v)])
  }

  /** The button part of one pass, applied after the rotation. */
  function Press(n: Nav, btn: Button.Event): (r: (Nav, seq<Screen>))
    requires WellFormed(n)
    ensures WellFormed(r.0) && SameSettings(r.0.params, n.params)
    ensures btn == Button.NoEvent ==> r == (n, [])
    ensures |r.1| <= 1
  {
    match n.state
    case Idle =>
      if btn == Button.ShortPress then (n.(state := Menu, index := 0), [MenuScreen(0)]) else (n, [])
    case Menu =>
      if btn == Button.ShortPress then
        var v := n.params[n.index].value;
        (n.(state := Edit, temp := v), [EditScreen(n.index, v)])
      else if btn == Button.LongPress then (n.(state := Idle), [IdleScreen])
      else (n, [])
    case Edit =>
      if btn == Button.ShortPress then
        var ps := n.params[n.index := n.params[n.index].(value := n.temp)];
        (n.(state := Menu, params := ps), [MenuScreen(n.index)])
      else if btn == Button.LongPress then (n.(state := Idle), [IdleScreen])
      else (n, [])
  }

  /** One pass of the main loop: the new globals and the screens drawn, in order. */
  function Transition(n: Nav, enc: int, btn: Button.Event): (r: (Nav, seq<Screen>))
    requires WellFormed(n)
    ensures WellFormed(r.0) && SameSettings(r.0.params, n.params)
    ensures |r.1| <= 2
  {
    var (m, drawn) := Rotate(n, enc);
    var (k, more) := Press(m, btn);
    (k, drawn + more)
  }

  /** In Idle only a short press matters: it opens the menu on the first item. */
  lemma IdleStep(n: Nav, enc: int, btn: Button.Event)
    requires WellFormed(n) && n.state == Idle
    ensures btn == Button.ShortPress ==> Transition(n, enc, btn) == (n.(state := Menu, index := 0), [MenuScreen(0)])
    ensures btn != Button.ShortPress ==> Transition(n, enc, btn) == (n, [])
  {
    assert Rotate(n, enc) == (n, []);
    assert [] + [MenuScreen(0)] == [MenuScreen(0)];
  }

  /** In Menu the rotation moves the selection with wrap-around, then a short
      press edits the newly selected item and a long press goes back to Idle;
      the table is never touched. The screens are drawn in that order. */
  lemma MenuStep(n: Nav, enc: int, btn: Button.Event)
    requires WellFormed(n) && n.state == Menu
    ensures var r := Transition(n, enc, btn);
      var i := if enc == 0 then n.index else WrapIndex(n.index, enc);
      && r.0.index == i
      && r.0.params == n.params
      && (-1 <= enc <= 1 ==> r.0.index == (n.index + enc) % MAX_MENU_ITEMS)
      && (btn == Button.NoEvent ==> r.0.state == Menu && r.0.temp == n.temp)
      && (btn == Button.ShortPress ==> r.0.state == Edit && r.0.temp == n.params[i].value)
      && (btn == Button.LongPress ==> r.0.state == Idle && r.0.temp == n.temp)
      && r.1 == (if enc != 0 then [MenuScreen(i)] else [])
                + (if btn == Button.ShortPress then [EditScreen(i, n.params[i].value)]
                   else if btn == Button.LongPress then [IdleScreen] else [])
  {
    if -1 <= enc <= 1 {
      WrapIsModular(n.index, enc);
    }
  }

  /** In Edit the rotation moves the pending value, clamped to the selected
      parameter's bounds, and redraws even when clamping left it unchanged; a
      short press stores it into the selected entry only and returns to the
      menu on the same item; a long press discards it and goes to Idle. The
      screens are drawn in that order. */
  lemma EditStep(n: Nav, enc: int, btn: Button.Event)
    requires WellFormed(n) && n.state == Edit
    ensures var r := Transition(n, enc, btn);
      var p := n.params[n.index];
      var v := if enc == 0 then n.temp else Clamp(n.temp + enc, p.min, p.max);
      && r.0.index == n.index
      && r.0.temp == v
      && r.1 == (if enc != 0 then [EditScreen(n.index, v)] else [])
                + (if btn == Button.ShortPress then [MenuScreen(n.index)]
                   else if btn == Button.LongPress then [IdleScreen] else [])
      && (btn == Button.NoEvent ==> r.0.state == Edit && r.0.params == n.params)
      && (btn == Button.ShortPress ==>
            && r.0.state == Menu
            && r.0.params[n.index].value == v
            && forall j :: 0 <= j < MAX_MENU_ITEMS && j != n.index ==> r.0.params[j] == n.params[j])
      && (btn == Button.LongPress ==> r.0.state == Idle && r.0.params == n.params)
  {
  }

  /** Entering Edit and committing at once leaves the table as it was and
      returns to the same menu item. */
  lemma CommitWithoutTurningKeepsValue(n: Nav)
    requires WellFormed(n) && n.state == Menu
    ensures var entered := Transition(n, 0, Button.ShortPress).0;
      var closed := Transition(entered, 0, Button.ShortPress).0;
      && entered.state == Edit
      && closed.state == Menu && closed.index == n.index && closed.params == n.params
  {
    var entered := Transition(n, 0, Button.ShortPress).0;
    assert entered.temp == n.params[n.index].value;
    var closed := Transition(entered, 0, Button.ShortPress).0;
    assert closed.params == n.params[n.index := n.params[n.index].(value := n.params[n.index].value)];
  }

  /** Many passes of the main loop, one per input pair `(enc, btn)`. */
  function RunAll(n: Nav, inputs: seq<(int, Button.Event)>): (r: Nav)
    requires WellFormed(n)
    ensures WellFormed(r) && SameSettings(r.params, n.params)
    decreases |inputs|
  {
    if inputs == [] then n
    else RunAll(Transition(n, inputs[0].0, inputs[0].1).0, inputs[1..])
  }

  /** `k` passes that each turn one step up and press nothing. */
  function TurnUp(k: nat): (inputs: seq<(int, Button.Event)>)
    ensures |inputs| == k
    ensures forall i :: 0 <= i < k ==> inputs[i] == (1, Button.NoEvent)
  {
    if k == 0 then [] else [(1, Button.NoEvent)] + TurnUp(k - 1)
  }

  /** Turning up while editing saturates at the maximum: after `k` steps the
      pending value is the smaller of start + k and the bound, never above it. */
  lemma {:induction false} TurningUpSaturates(n: Nav, k: nat)
    requires WellFormed(n) && n.state == Edit
    ensures var r := RunAll(n, TurnUp(k));
      var hi := n.params[n.index].max;
      && r.state == Edit && r.index == n.index && r.params == n.params
      && r.temp == (if n.temp + k <= hi then n.temp + k else hi)
    decreases k
  {
    if k > 0 {
      var m := Transition(n, 1, Button.NoEvent).0;
      EditStep(n, 1, Button.NoEvent);
      assert TurnUp(k)[1..] == TurnUp(k - 1);
      TurningUpSaturates(m, k - 1);
    }
  }

  /** `k` passes that each turn one step down and press nothing. */
  function TurnDown(k: nat): (inputs: seq<(int, Button.Event)>)
    ensures |inputs| == k
    ensures forall i :: 0 <= i < k ==> inputs[i] == (-1, Button.NoEvent)
  {
    if k == 0 then [] else [(-1, Button.NoEvent)] + TurnDown(k - 1)
  }

  /** Turning down while editing saturates at the minimum. */
  lemma {:induction false} TurningDownSaturates(n: Nav, k: nat)
    requires WellFormed(n) && n.state == Edit
    ensures var r := RunAll(n, TurnDown(k));
      var lo := n.params[n.index].min;
      && r.state == Edit && r.index == n.index && r.params == n.params
      && r.temp == (if n.temp - k >= lo then n.temp - k else lo)
    decreases k
  {
    if k > 0 {
      var m := Transition(n, -1, Button.NoEvent).0;
      EditStep(n, -1, Button.NoEvent);
      assert TurnDown(k)[1..] == TurnDown(k - 1);
      TurningDownSaturates(m, k - 1);
    }
  }

  /** Whatever the edit did, a long press leaves every stored value as it was
      when the edit began. */
  lemma {:induction false} DiscardKeepsTable(n: Nav, turns: seq<int>)
    requires WellFormed(n) && n.state == Edit
    ensures var edited := RunAll(n, Turns(turns));
      var r := Transition(edited, 0, Button.LongPress).0;
      r.state == Idle && r.params == n.params
    decreases |turns|
  {
    if turns != [] {
      EditStep(n, turns[0], Button.NoEvent);
      assert Turns(turns)[1..] == Turns(turns[1..]);
      DiscardKeepsTable(Transition(n, turns[0], Button.NoEvent).0, turns[1..]);
    } else {
      EditStep(n, 0, Button.LongPress);
    }
  }

  /** Passes that each turn by the given step and press nothing. */
  function Turns(steps: seq<int>): (inputs: seq<(int, Button.Event)>)
    ensures |inputs| == |steps|
    ensures forall i :: 0 <= i < |steps| ==> inputs[i] == (steps[i], Button.NoEvent)
  {
    if steps == [] then [] else [(steps[0], Button.NoEvent)] + Turns(steps[1..])
  }

  /** Running two batches of inputs is running their concatenation. */
  lemma {:induction false} RunAllAppend(n: Nav, a: seq<(int, Button.Event)>, b: seq<(int, Button.Event)>)
    requires WellFormed(n)
    ensures RunAll(n, a + b) == RunAll(RunAll(n, a), b)
    decreases |a|
  {
    if a == [] {
      assert a + b == b;
    } else {
      assert (a + b)[1..] == a[1..] + b;
      RunAllAppend(Transition(n, a[0].0, a[0].1).0, a[1..], b);
    }
  }

  /** From reset: a short press opens the menu on the first item, one step back
      wraps to the last item ("LP Bypass", 0 in 0..45), a short press edits it,
      turning up k >= 45 times stops at its maximum of 45, and a short press
      stores 45 and returns to the menu on the same item. */
  lemma Walkthrough(k: nat)
    requires k >= 45
    ensures var inputs := [(0, Button.ShortPress), (-1, Button.NoEvent), (0, Button.ShortPress)]
                          + TurnUp(k) + [(0, Button.ShortPress)];
      var r := RunAll(Start, inputs);
      r.state == Menu && r.index == 3 && r.params[3].value == 45
      && forall j :: 0 <= j < 3 ==> r.params[j] == InitialParams()[j]
  {
    var head := [(0, Button.ShortPress), (-1, Button.NoEvent), (0, Button.ShortPress)];
    var entered := Transition(Start, 0, Button.ShortPress).0;
    assert entered == Start.(state := Menu, index := 0);
    var last := Transition(entered, -1, Button.NoEvent).0;
    assert last == entered.(index := 3);
    var editing := Transition(last, 0, Button.ShortPress).0;
    assert editing == last.(state := Edit, temp := 0);
    assert RunAll(Start, head) == editing by {
      assert head[1..] == [(-1, Button.NoEvent), (0, Button.ShortPress)];
      assert head[1..][1..] == [(0, Button.ShortPress)];
    }
    TurningUpSaturates(editing, k);
    var top := RunAll(editing, TurnUp(k));
    var stored := Transition(top, 0, Button.ShortPress).0;
    EditStep(top, 0, Button.ShortPress);
    assert RunAll(top, [(0, Button.ShortPress)]) == stored;
    RunAllAppend(Start, head, TurnUp(k));
    RunAllAppend(Start, head + TurnUp(k), [(0, Button.ShortPress)]);
  }

  /** The globals of main.c, with the parameter table as an array updated in place. */
  class Navigator {
    var state: State
    var index: int
    var temp: int
    var params: array<Parameter>

    /** The globals as a value. */
    ghost function Snapshot(): Nav
      reads this, params
    {
      Nav(state, index, temp, params[..])
    }

    constructor ()
      ensures Snapshot() == Start && fresh(params)
    {
      state, index, temp := Idle, 0, 0;
      var table := InitialParams();
      var a := new Parameter[MAX_MENU_ITEMS](i requires 0 <= i < MAX_MENU_ITEMS => table[i]);
      assert a[..] == table;
      params := a;
    }

    /** The body of the `while (1)` loop after the inputs are read: the
        `switch (current_state)`, with each `draw_*` call recorded in order. */
    method Step(enc: int, btn: Button.Event) returns (drawn: seq<Screen>)
      requires WellFormed(Snapshot())
      modifies this, params
      ensures params == old(params)
      ensures (Snapshot(), drawn) == Transition(old(Snapshot()), enc, btn)
    {
      ghost var before := Snapshot();
      drawn := [];
      match state
      case Idle =>
        if btn == Button.ShortPress {
          state := Menu;
          index := 0;
          drawn := drawn + [MenuScreen(index)];
        }
        assert params[..] == before.params;
        assert Snapshot() == Press(before, btn).0;
        assert drawn == Press(before, btn).1;
        assert Rotate(before, enc) == (before, []);
      case Menu =>
        if enc != 0 {
          index := index + enc;
          if index < 0 { index := MAX_MENU_ITEMS - 1; }
          if index >= MAX_MENU_ITEMS { index := 0; }
          drawn := drawn + [MenuScreen(index)];
        }
        assert params[..] == before.params;
        assert enc == 0 ==> Snapshot() == before && drawn == [];
        assert enc != 0 ==> Snapshot() == Rotate(before, enc).0;
        assert enc != 0 ==> drawn == Rotate(before, enc).1;
        ghost var rotated, turned := Snapshot(), drawn;
        assert (rotated, turned) == Rotate(before, enc);
        if btn == Button.ShortPress {
          temp := params[index].value;
          state := Edit;
          drawn := drawn + [EditScreen(index, temp)];
        }
        if btn == Button.LongPress {
          state := Idle;
          drawn := drawn + [IdleScreen];
        }
        assert params[..] == rotated.params;
        assert Snapshot() == Press(rotated, btn).0;
        assert drawn == turned + Press(rotated, btn).1;
        assert drawn[|turned|..] == Press(rotated, btn).1;
        assert drawn == turned + drawn[|turned|..];
      case Edit =>
        if enc != 0 {
          temp := temp + enc;
          if temp < params[index].min { temp := params[index].min; }
          if temp > params[index].max { temp := params[index].max; }
          drawn := drawn + [EditScreen(index, temp)];
        }
        assert params[..] == before.params;
        assert enc == 0 ==> Snapshot() == before && drawn == [];
        assert enc != 0 ==> Snapshot() == Rotate(before, enc).0;
        assert enc != 0 ==> drawn == Rotate(before, enc).1;
        ghost var rotated, turned := Snapshot(), drawn;
        assert (rotated, turned) == Rotate(before, enc);
        if btn == Button.ShortPress {
          params[index] := params[index].(value := temp);
          state := Menu;
          drawn := drawn + [MenuScreen(index)];
        }
        assert params[..] == if btn == Button.ShortPress
          then rotated.params[index := rotated.params[index].(value := temp)] else rotated.params;
        if btn == Button.LongPress {
          state := Idle;
          drawn := drawn + [IdleScreen];
        }
        assert Snapshot() == Press(rotated, btn).0;
        assert drawn == turned + Press(rotated, btn).1;
        assert drawn[|turned|..] == Press(rotated, btn).1;
        assert drawn == turned + drawn[|turned|..];
    }
  }
}
