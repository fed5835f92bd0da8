# Encoder menu controller: a verified Dafny model

This project models the input-handling core of a PIC18 menu controller
(XC8_PG_vB_200725). The core is a polling loop. Each pass reads a rotary
quadrature encoder and a push-button. It classifies the button press by how
long it was held, measured with a millisecond counter. It then moves a three-state
Idle / Menu / Edit navigation machine over a table of four bounded settings
(High Pressure, HP Bypass, Low Pressure, LP Bypass).

Modules, one per source component:

- `Encoder` (encoder.dfy) models `get_encoder`. Its class `QuadratureDecoder`
  keeps the static `last_state`, and its `Poll` method carries the source's
  lookup table. That table is proved against `Direction`, a reference
  definition built from the forward Gray-code cycle 00 → 01 → 11 → 10 → 00.
  `DecodeAll` folds the decoder over a sequence of pin states.
- `Button` (button.dfy) models `get_button`. Its class `ButtonClassifier`
  keeps the statics `start_time` and `last`. `Poll` is proved equal to the pure
  `Sample`. The held time is the 32-bit unsigned difference `Elapsed`, with the
  wrap written out. `Run` folds the classifier over a sequence of samples.
- `Navigation` (navigation.dfy) models the globals and the body of the main loop
  in main.c. The class `Navigator` keeps the table as an `array<Parameter>`
  updated in place. `Step` is the `switch (current_state)` body. It is proved
  equal to the pure `Transition`, which is the rotation part (`Rotate`) followed
  by the button part (`Press`). `RunAll` folds passes over a sequence of inputs.
  Each `draw_*` call is recorded as a `Screen` value carrying what it shows.
- `Device` (device.dfy) wires one loop pass: decoder, then button, then step.

The counter `ms_counter` appears only as the `now` input of the button step.
The pin levels are inputs as well.

## Model

| member | source | states |
|---|---|---|
| `Encoder.Combine` | XC8_PG_vB_200725.X/encoder.c:20 | the 2-bit state holds pin A as its low bit and pin B as its high bit |
| `Encoder.Direction` | XC8_PG_vB_200725.X/encoder.c:21-31 | a step is -1, 0 or +1, and an unchanged pin state reports 0 |
| `Encoder.DirectionClassifies` | XC8_PG_vB_200725.X/encoder.c:22-29 | +1 exactly for one forward step on the cycle, -1 exactly for one backward step, 0 exactly for no change or a diagonal jump |
| `Encoder.DiagonalIsBothPinsChanged` | XC8_PG_vB_200725.X/encoder.c:22-29 | the jumps the table ignores (00↔11, 01↔10) are exactly the polls where both pins changed |
| `Encoder.StepMatchesPosition` | XC8_PG_vB_200725.X/encoder.c:24-27 | a non-diagonal step agrees, modulo 4, with the move along the cycle |
| `Encoder.QuadratureDecoder.constructor` | XC8_PG_vB_200725.X/encoder.c:19 | `last_state` starts at 00 |
| `Encoder.QuadratureDecoder.Poll` | XC8_PG_vB_200725.X/encoder.c:18-32 | the source's table returns the reference direction; afterwards `last_state == (B<<1)\|A`, diagonal jumps included; the result is 0 exactly on no change or a diagonal |
| `Encoder.DecodeAll` | XC8_PG_vB_200725.X/encoder.c:18-32 | successive polls report one step per pin state, each in {-1, 0, +1} |
| `Encoder.ForwardTurnCountsUp` | XC8_PG_vB_200725.X/encoder.c:24-27 | turning forward through 00→01→11→10→00 reports +1 on every poll |
| `Encoder.BackwardTurnCountsDown` | XC8_PG_vB_200725.X/encoder.c:24-27 | turning backward through 00→10→11→01→00 reports -1 on every poll |
| `Encoder.NoStepLost` | XC8_PG_vB_200725.X/encoder.c:22-30 | with no diagonal jumps, the sum of reported steps equals the distance moved along the cycle, modulo 4 |
| `Button.Elapsed` | XC8_PG_vB_200725.X/encoder.c:44 | the unsigned 32-bit `ms_counter - start_time` is the tick count that leads from start to now (start + d ≡ now mod 2^32), and a wrapped counter adds 2^32 |
| `Button.ElapsedAfterTicks` | XC8_PG_vB_200725.X/encoder.c:44 | a counter that advanced k < 2^32 ticks measures exactly k, even across a wrap |
| `Button.Classify` | XC8_PG_vB_200725.X/encoder.c:45-46 | a held time d gives no event iff d ≤ 20, a short press iff 20 < d < 2000, and a long press iff d ≥ 2000 |
| `Button.PressLength` | XC8_PG_vB_200725.X/config.h:50-51 | a press held k ticks classifies by k against DEBOUNCE_MS = 20 and LONG_PRESS_MS = 2000, wherever the counter wraps |
| `Button.Sample` | XC8_PG_vB_200725.X/encoder.c:37-48 | `last` becomes the sampled level; no level change reports nothing and keeps the tracker; a press edge records `now` and reports nothing; a release edge keeps the start time and reports the class of the wrapped held time; only a release edge can report |
| `Button.ButtonClassifier.constructor` | XC8_PG_vB_200725.X/encoder.c:36-37 | `start_time` starts at 0 and `last` at 1 (released) |
| `Button.ButtonClassifier.Poll` | XC8_PG_vB_200725.X/encoder.c:35-50 | one call of `get_button` updates the statics and returns what `Sample` prescribes |
| `Button.Run` | XC8_PG_vB_200725.X/encoder.c:35-50 | successive polls report one event per sample, and `last` ends at the last sampled level |
| `Button.EventsOnlyOnRelease` | XC8_PG_vB_200725.X/encoder.c:40-47 | any reported event falls on a sample where the level goes from pressed to released, so there is at most one per release |
| `Button.HoldKeepsStart` | XC8_PG_vB_200725.X/encoder.c:40-48 | while the button stays pressed, the recorded press time is kept and nothing is reported |
| `Button.PressHoldRelease` | XC8_PG_vB_200725.X/encoder.c:40-48 | press at `down`, hold for any number of polls, release at `up`: only the release reports, and it reports the class of the wrapped time `up - down` |
| `Navigation.InitialParams` | XC8_PG_vB_200725.X/main.c:70-75 | the reset table has four entries, each with min ≤ value ≤ max |
| `Navigation.StartIsWellFormed` | XC8_PG_vB_200725.X/main.c:59-75 | the globals at reset satisfy the invariant |
| `Navigation.WrapIndex` | XC8_PG_vB_200725.X/main.c:161-163 | the selection after a step always lies in [0, MAX_MENU_ITEMS); below 0 it wraps to the last item, past the end it wraps to 0 |
| `Navigation.WrapIsModular` | XC8_PG_vB_200725.X/main.c:160-165 | for steps in {-1, 0, +1} the wrap-around is (index + step) mod 4 |
| `Navigation.Clamp` | XC8_PG_vB_200725.X/main.c:178-180 | the adjusted value lies in [min, max], is unchanged when already inside, and saturates at the bound it crossed |
| `Navigation.Rotate` | XC8_PG_vB_200725.X/main.c:160-181 | rotation keeps the invariant, the state and the table |
| `Navigation.Press` | XC8_PG_vB_200725.X/main.c:152-191 | the button part keeps the invariant and every name, bound and unit; no event changes nothing |
| `Navigation.Transition` | XC8_PG_vB_200725.X/main.c:151-193 | a whole pass keeps the invariant: index in range, every value within its bounds, and the pending value within its bounds while editing; names, bounds and units never change |
| `Navigation.IdleStep` | XC8_PG_vB_200725.X/main.c:152-158 | in Idle, a short press opens Menu on item 0 with one menu redraw; rotation and a long press change nothing and redraw nothing |
| `Navigation.MenuStep` | XC8_PG_vB_200725.X/main.c:159-175 | in Menu, rotation is applied first and wraps the selection; a short press then edits the newly selected value; a long press goes to Idle; the table is untouched; the screens drawn are exactly the menu (on a nonzero step), then the edit screen (short press) or the idle screen (long press) |
| `Navigation.EditStep` | XC8_PG_vB_200725.X/main.c:176-192 | in Edit, rotation clamps the pending value; a short press stores it in the selected entry only and returns to Menu on the same item; a long press discards it and goes to Idle; the screens drawn are exactly the edit screen (on every nonzero step, even when clamping left the value unchanged), then the menu (short press) or the idle screen (long press) |
| `Navigation.CommitWithoutTurningKeepsValue` | XC8_PG_vB_200725.X/main.c:166-187 | entering Edit and committing with no rotation leaves the table as it was and returns to the same menu item |
| `Navigation.RunAll` | XC8_PG_vB_200725.X/main.c:147-194 | any finite run of passes keeps the invariant and every name, bound and unit |
| `Navigation.TurningUpSaturates` | XC8_PG_vB_200725.X/main.c:177-182 | k upward steps while editing give min(start + k, max), never more than max |
| `Navigation.TurningDownSaturates` | XC8_PG_vB_200725.X/main.c:177-182 | k downward steps while editing give max(start - k, min), never less than min |
| `Navigation.DiscardKeepsTable` | XC8_PG_vB_200725.X/main.c:188-191 | after any rotations in Edit, a long press goes to Idle with every stored value as before the edit |
| `Navigation.Walkthrough` | XC8_PG_vB_200725.X/main.c:147-194 | from reset: short press, one step back, short press, k ≥ 45 steps up, short press ends in Menu on item 3 with LP Bypass stored at its maximum 45 and the other entries unchanged |
| `Navigation.Navigator.constructor` | XC8_PG_vB_200725.X/main.c:59-75 | the globals start in Idle, on index 0, holding the reset table |
| `Navigation.Navigator.Step` | XC8_PG_vB_200725.X/main.c:151-193 | the in-place `switch` body changes the globals and draws the screens exactly as `Transition` prescribes |
| `Device.LoopPass` | XC8_PG_vB_200725.X/main.c:147-194 | one loop pass feeds the decoder's step and the button's event, sampled at `now`, into the navigation step, and the invariant holds afterwards |
| `Device.AsUnsignedChar` | XC8_PG_vB_200725.X/main.c:148 | an 8-bit unsigned `char` holds a step modulo 256 |
| `Device.ReverseStepAsUnsignedChar` | XC8_PG_vB_200725.X/main.c:148-181 | if `enc` is an unsigned char, one reverse step selects item 0 instead of the previous item, and raises the pending value instead of lowering it |

## Behaviour worth noting

- `draw_edit` runs on every nonzero step in Edit, even when clamping leaves
  the value unchanged (main.c:177-181). `EditStep` states this.
- The menu wraps to the opposite end (main.c:161-163). For single steps this
  equals (index + step) mod 4 (`WrapIsModular`). For larger steps it does not.
- The commit stores `temp_value` with no clamp (main.c:184). The stored value
  stays within its bounds because the pending value is clamped on every change
  and starts in bounds. `WellFormed` states this invariant.

## Findings

| source | as written | input that shows it | evidently intended | confidence | as-written member | corrected member |
|---|---|---|---|---|---|---|
| XC8_PG_vB_200725.X/main.c:148 | `char enc = get_encoder();` is then added to `int` state at main.c:161 and main.c:178. XC8 treats plain `char` as unsigned by default, so the `(char)-1` of encoder.c:24-27 arrives as 255 | Menu on item 2 with one reverse step selects item 0. Edit of High Pressure at 50 with one reverse step gives 305 | a reverse step selects item 1, or lowers the value to 49 (`signed char`) | not executed; medium: holds if the build keeps XC8's default unsigned plain `char` | `Device.ReverseStepAsUnsignedChar` | `Navigation.MenuStep` |

The rest of the model passes `enc` as a signed step, as corrected. `MenuStep`
and `EditStep` prove that a reverse step moves the selection to the previous
item modulo 4 and lowers the pending value by one, clamped.

## Left out

- The timer interrupt (main.c:115-123) is left out. It reloads Timer1 and
  increments `ms_counter`. The counter is an input `now` to the button step, so
  the torn read of a 32-bit counter on an 8-bit core is not modelled.
- The LCD driver (lcd.c, lcd.h) is not part of this model. The text formatting
  of `draw_idle`, `draw_menu` and `draw_edit` (main.c:78-112) is also left out.
  A redraw is recorded as a `Screen` value holding the selected index and the
  pending value.
- The `draw_idle()` call before the loop (main.c:145) is not recorded.
  `Navigation.Navigator.constructor` sets up the globals but cannot return the
  `Screen` drawn at start-up.
- Configuration pragmas, oscillator, port and timer setup (main.c:18-55,
  127-145) and the pin macros of config.h are hardware configuration with no
  logic.
- The endless `while (1)` is modelled as one pass (`Device.LoopPass`,
  `Navigation.Navigator.Step`) and as finite folds (`Navigation.RunAll`,
  `Button.Run`, `Encoder.DecodeAll`).
- Navigation.Navigator.Step: does not model 16-bit `int` overflow of
  `current_index += enc` or `temp_value += enc`. For the steps the decoder
  produces and the table's bounds (at most 335), no overflow can happen.
