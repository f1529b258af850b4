# Lamp firmware control core in Dafny

This project models the control logic of a battery-powered RGBW lamp with an ESP32 board, a push button, a reset button and a wireless (BLE) link. It covers three parts.

- **The LED strip** (`LedControl`, from `src/led_control.cpp`). The strip is a `Strip` class with a fixed `array` of `NUM_LEDS = 5` RGBW pixels, the global palette index `colorIndex`, and the frame last latched by `show()`.
  - `InitLEDs` paints the strip white.
  - `ChangeColor` advances the index modulo 5 through red, green, blue, white and off, and paints that colour.
  - `SetColorFromHex` paints the four given bytes, or turns every pixel off when there are not exactly four.
  - Each one writes the buffer in a loop, as the firmware does. `ChangeColor` is proved against the specification function `AfterChangeColor`; the other two state their resulting pixels directly.
- **The button state machine** (`ButtonHandler`, from `src/button_handler.cpp`).
  - `Next` is the step function of `handleButtonPress`. It works over the handler's persistent state (the static locals and the `isShuttingDown` / `buttonPressed` flags). Its inputs are the two button levels and the clock. It returns the effect the poll asks for: `None`, `SwitchColor`, `Shutdown` or `Restart`.
  - The `Handler` class runs the same step in place on its fields, and its method is proved equal to `Next`.
  - Lemmas cover one poll (reset hold, debounce, click registration and merge, long press) and whole runs of polls (shutdown is final and happens at most once; every colour change is paid for by a click).
  - The deep-sleep entry sequence of `goToDeepSleep` is an ordered trace of steps.
- **The wireless command decoder and the battery curve** (`BleServer`, from `src/ble_server.cpp`).
  - `Decode` is the `onWrite` handler of the light characteristic as a pure function from a byte frame to an `Action`. It has exact length rules per opcode.
  - `Encode` is the frame layout a sender uses. The round trip is proved in both directions.
  - `BatteryPercent` is the voltage-to-percentage step function, on integer millivolts.

The timing thresholds `MIN_PRESS_DURATION`, `CLICK_MERGE_DELAY` and `LONG_PRESS_DELAY` are not defined in the headers here. They are the parameters of a `Timing` value. The `CMD_*` opcode values are also not defined there. They are an `Opcodes` value whose six codes are pairwise distinct, because they are the case labels of one `switch`. Time is an unbounded millisecond count that never runs backwards.

The model follows the firmware code. Some of its behaviour is worth knowing, because it differs from what the lamp is meant to do:
- While `isShuttingDown` is set, the code ignores the reset button as well: the reset check sits after the early return (`src/button_handler.cpp:49-69`). So the reset hold does not work during a shutdown.
- A press is acted on only after its level has been stable for more than the 200 ms debounce window, so a short press such as 150 ms gives no colour change. `ShortPressIgnored` checks this for one 150 ms press polled from power-on; `OneClickOneSwitch` shows a longer press that does give one change.
- The `DISABLE_BLE` command goes to deep sleep whatever bytes follow the opcode; its length is not checked.
- Click merging has no effect on the state: a registered click leaves the same state in both branches (`src/button_handler.cpp:86-91`), pending with its time set to now. So a click that is due but not yet fired is absorbed by a new click registered in the same poll.
- `changeColor` cycles a fixed five-entry palette. The button does not call it: it calls `switchToNextColor`, which is not part of this model.

## Model

| member | source | states |
|---|---|---|
| `LedControl.Palette` | src/led_control.cpp:19-25 | entries 0 to 3 light exactly one RGBW channel (red, green, blue, white in that order) at 255 and leave the others at 0; entry 4 is off |
| `LedControl.PaletteInjective` | src/led_control.cpp:19-25 | the five palette entries (red, green, blue, white (0,0,0,255), off) are pairwise different, so the strip shows which index is current |
| `LedControl.AfterChangeColor` | src/led_control.cpp:15-30 | one `changeColor` moves the index one step round the palette (from 4 back to 0) and replaces every pixel with the palette colour of the new index |
| `LedControl.AfterChangesIndex` | src/led_control.cpp:15-30 | after n calls of `changeColor` the index is the start index plus n modulo 5, and for n > 0 every pixel shows the palette entry of that index |
| `LedControl.FiveChangesRestore` | src/led_control.cpp:15-30 | five consecutive calls restore the index, and restore the strip whenever it already showed the palette colour of that index |
| `LedControl.ChangeColorPeriodic` | src/led_control.cpp:15-30 | from the first call on, the index and strip contents repeat with period 5 |
| `LedControl.ColorsAfterInit` | src/led_control.cpp:5-30 | from power-on (index 0) and `initLEDs` (white), five calls of `changeColor` show green, blue, white, off, red |
| `LedControl.Strip.constructor` | src/led_control.cpp:4-5 | the strip starts with a cleared 5-pixel buffer, index 0 and nothing shown |
| `LedControl.Strip.FillPixels` | src/led_control.cpp:27-29 | the loop over NUM_LEDS leaves every pixel equal to the given colour |
| `LedControl.Strip.Show` | src/led_control.cpp:30 | the frame latched onto the LEDs becomes the current buffer |
| `LedControl.Strip.InitLEDs` | src/led_control.cpp:7-13 | every pixel is (0,0,0,255) and shown; the index is unchanged |
| `LedControl.Strip.ChangeColor` | src/led_control.cpp:15-31 | the index becomes (index + 1) % 5 and stays in [0, 5); every pixel is the palette entry of the new index and is shown |
| `LedControl.Strip.SetColorFromHex` | src/led_control.cpp:33-51 | with exactly four bytes every pixel becomes (hex[0], hex[1], hex[2], hex[3]); with any other length every pixel becomes (0,0,0,0); the buffer is shown and `colorIndex` is never changed |
| `ButtonHandler.Next` | src/button_handler.cpp:46-122 | while shutting down a poll changes nothing and has no effect; Restart happens exactly when reset is held with a recorded start more than 3000 ms ago, and leaves the state untouched; the shutting-down flag is set exactly by a Shutdown; no timestamp is later than now |
| `ButtonHandler.Settle` | src/button_handler.cpp:113-121 | SwitchColor is emitted exactly when the pending click is consumed, which happens only once its merge window has passed, and its time is then zeroed; otherwise the pending click is untouched; the level is recorded and the interrupt flag cleared; the press start, debounce time, reset start and shutting-down flag are unchanged |
| `ButtonHandler.ResetHold` | src/button_handler.cpp:59-69 | releasing reset clears its start time; the first held sample records now; a recorded start is kept while held |
| `ButtonHandler.Debounce` | src/button_handler.cpp:71-121 | a level different from the last one sets the debounce time to now; press start and release are acted on only when the level is stable for more than 200 ms; every processed poll records the level and clears the interrupt flag; a stable release always zeroes the press start |
| `ButtonHandler.Clicks` | src/button_handler.cpp:81-118 | a stable release of at least the minimum duration makes a click pending at now; within the merge window it only refreshes the pending time; a shorter release or any other poll leaves the pending click alone; a fired click is no longer pending; nothing else makes a click pending |
| `ButtonHandler.SwitchColorExactly` | src/button_handler.cpp:84-118 | SwitchColor is emitted exactly when, after any click this poll registers, a click is pending and its merge window has passed (and there is no long press) |
| `ButtonHandler.LongPressShutdown` | src/button_handler.cpp:95-109 | Shutdown is emitted exactly on a stable hold of at least the long-press threshold; it clears the pending click, zeroes the press start and sets the shutting-down flag |
| `ButtonHandler.ShutdownIsFinal` | src/button_handler.cpp:48-51 | once shutting down, every later run of polls leaves the state unchanged and emits nothing |
| `ButtonHandler.ShutdownAtMostOnce` | src/button_handler.cpp:46-109 | in any run of polls, only no-effect polls follow a Shutdown, so Shutdown is emitted at most once |
| `ButtonHandler.SwitchColorNeedsClick` | src/button_handler.cpp:84-118 | over any run, colour changes plus the click still pending at the end never exceed the registered clicks plus the click pending at the start: each pending click fires at most once |
| `ButtonHandler.ShortPressIgnored` | src/button_handler.cpp:74-81 | from power-on, a 150 ms press (held from 1010 to 1160 ms, polled at fixed times during and after it) never registers a click and never changes the colour, whatever the thresholds |
| `ButtonHandler.OneClickOneSwitch` | src/button_handler.cpp:74-118 | a press held past the debounce window and released, then silence for the merge window, changes the colour exactly once, at the end |
| `ButtonHandler.GoToDeepSleep` | src/button_handler.cpp:24-44 | the button interrupt is detached first, then the LEDs are turned off, then the low-level wake on the button pin is armed; nothing flashes the LEDs after they are off; deep sleep is the last step and happens once |
| `ButtonHandler.ShutdownSequence` | src/button_handler.cpp:98-108 | a long press flashes all colours and pauses 500 ms, then runs exactly the deep-sleep sequence, so the flash is over before the interrupt is detached and the LEDs are turned off |
| `ButtonHandler.Handler.constructor` | src/button_handler.cpp:53-59 | every static timestamp is 0 and every flag false |
| `ButtonHandler.Handler.HandleButtonPress` | src/button_handler.cpp:46-122 | the in-place update of the fields and the returned effect are exactly `Next` of the old state |
| `BleServer.Decode` | src/ble_server.cpp:62-141 | an empty frame or an unknown opcode does nothing; SET_COLOR iff length 5, with bytes 1..5; SET_COLOR_SETS and SET_INDIVIDUAL_COLORS iff length >= 5 and (length - 1) % 4 == 0, with the whole tail and (length - 1) / 4 >= 1 LEDs; SET_SLEEP_TIMER iff length 3, with minutes = frame[1] * 256 + frame[2] < 65536; SET_ANIMATION iff length >= 3, with type, speed, and parameters absent exactly when the length is 3; DISABLE_BLE means deep sleep whatever follows |
| `BleServer.DecodeEncode` | src/ble_server.cpp:75-134 | every action a frame can carry is decoded back from the frame that encodes it |
| `BleServer.EncodeDecode` | src/ble_server.cpp:75-134 | every frame that decodes to an action is well formed and is the encoding of that action, except that DISABLE_BLE drops whatever follows the opcode |
| `BleServer.BatteryPercent` | src/ble_server.cpp:22-30 | the result is one of 100, 90, 75, 50, 25, 10, 0 |
| `BleServer.BatteryPercentIsCurve` | src/ble_server.cpp:22-30 | the threshold chain equals a lookup in the breakpoint table (4200, 4000, 3850, 3750, 3650, 3450 mV) with inclusive thresholds and 0 below them |
| `BleServer.BatteryPercentMonotone` | src/ble_server.cpp:22-30 | a higher voltage never reports a lower percentage |
| `BleServer.BatteryPercentBoundaries` | src/ble_server.cpp:22-30 | 4200 mV gives 100, 4199 mV gives 90, 3450 mV gives 10, 3449 mV gives 0 |
| `BleServer.BatteryMillivoltsAsWritten` | src/ble_server.cpp:12-20 | the conversion as written never yields more than 2200 mV |
| `BleServer.DividedMillivolts` | src/ble_server.cpp:17-19 | the ADC count scaled to the full-scale voltage and doubled for the divider never exceeds twice the full scale, and equals it at the top count |
| `BleServer.BatteryLevelAsWritten` | src/ble_server.cpp:263-266 | the level published for a reading, as written, is one of the curve's percentages |
| `BleServer.BatteryAlwaysEmptyAsWritten` | src/ble_server.cpp:12-30 | as written, every ADC reading publishes 0 % |
| `BleServer.BatteryMillivolts` | src/ble_server.cpp:15-20 | the corrected conversion (3300 mV full scale) yields at most 6600 mV |
| `BleServer.BatteryLevelCorrected` | src/ble_server.cpp:263-266 | with the corrected conversion (3300 mV full scale, an assumption), the level for a reading is one of the curve's percentages; the firmware as written publishes `BatteryLevelAsWritten` instead |
| `BleServer.BatteryLevelSpansCurve` | src/ble_server.cpp:15-30 | with the corrected conversion the level never decreases as the reading grows, full scale reads 100 %, zero reads 0 %, and every level of the curve is reached by some reading |

## Findings

| source | as written | input that shows it | evidently intended | confidence | as-written member | corrected member |
|---|---|---|---|---|---|---|
| src/ble_server.cpp:12-20 | the ADC count is scaled to a 1100 mV full scale and doubled, so the voltage never exceeds 2.2 V, below the 3.45 V bottom of the curve | any reading 0..4095; e.g. 4095 gives 2200 mV and 0 % | the published level follows the cell over the 3.45-4.2 V curve; the model assumes the ADC's 3300 mV full scale at its default attenuation | high that every reading reports 0 %; the 3300 mV scale is an assumption; not executed | `BleServer.BatteryAlwaysEmptyAsWritten` | `BleServer.BatteryLevelSpansCurve` |

## Left out

- BLE setup, advertising, scanning, debug output and `disableBLE` (`src/ble_server.cpp:144-261`, `285-298`) are left out. They are calls into the vendor BLE stack and logging.
- The connect/disconnect callbacks and the `deviceConnected` flag (`src/ble_server.cpp:32-58`) are left out for the same reason. Writing the level to the battery characteristic and notifying it (`src/ble_server.cpp:274-282`) is left out too; only the computed level is modelled, as `BatteryLevelAsWritten` (and `BatteryLevelCorrected` for the corrected conversion).
- The ADC read in `readBatteryVoltage` is an input (the raw count). The float arithmetic is replaced by integer millivolts rounded down, which compares the same way against the whole-millivolt thresholds. Float rounding and the comparison of a `float` against `double` literals are not modelled.
- The button interrupt routine, `setupButton` and the main loop (`src/button_handler.cpp:11-22`, `src/main.cpp`) are left out. They are pin configuration and a flag handed over from interrupt context. The `buttonPressed` flag is kept as a field, since `handleButtonPress` clears it.
- Hardware effects are not executed. `detachInterrupt`, the deep-sleep calls, `delay` and the flash animation are steps of a trace. `ESP.restart` is the `Restart` effect. `strip.Color` packing, `strip.begin` and the wire format of the pixels are reduced to an RGBW value and a `shown` snapshot. Serial logging is dropped, including the log line of every rejected frame.
- The bodies of `switchToNextColor`, `setColorFromBytes`, `updateColorSets`, `setIndividualLEDColors`, `setSleepTimer`, `setAnimation`, `flashAllColorsAnimation` and `turnOffLEDs` are not part of this model. The decoder ends at the `Action` value and the button handler at its `Effect`. The stored colour sets, animations and the sleep timer they manage are therefore not modelled.
- `HandleButtonPress`: a poll is modelled as a single instant with one `now`. The firmware reads the clock and the two pins separately within a poll (`src/button_handler.cpp:60-72`); nothing in the logic depends on the difference.
- `HandleButtonPress`: millis() is an unbounded count that never runs backwards. The 32-bit wrap-around after about 49.7 days is not modelled.
- `Decode`: frame bytes are read as unsigned. The sleep-timer minutes read `std::string` characters without a cast. On a platform with signed `char`, a second payload byte of 0x80 or more would sign-extend; that reading is not modelled.
- `SetColorFromHex`: the characters of the string are taken as their unsigned byte values, which is what the `uint8_t` cast yields.
