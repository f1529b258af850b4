// The main-button state machine of button_handler.cpp: debounce, click
// registration and merge, long-press shutdown, and the reset-button hold.
// `Next` is the step function over the handler's persistent state; the
// `Handler` class runs the same step in place on its fields.
module ButtonHandler {
  import opened Config

  /** How long the reset button must be held before the device restarts, in milliseconds. */
  const RESET_HOLD_TIME: nat := 3000
  /** Speed handed to the flash-all-colours acknowledgement on a long press. */
  const SHUTDOWN_FLASH_SPEED: nat := 200
  /** Pause between the acknowledgement and the deep-sleep sequence, in milliseconds. */
  const SHUTDOWN_PAUSE: nat := 500
  /** Settling delay used three times by the deep-sleep sequence, in milliseconds. */
  const SLEEP_SETTLE_DELAY: nat := 100

  /** The three timing thresholds whose values are build-time parameters of the firmware. */
  datatype Timing = Timing(minPressDuration: nat, clickMergeDelay: nat, longPressDelay: nat)

  /** One poll: the reset and main button levels (true = held low) and the millisecond clock. */
  datatype Sample = Sample(resetLow: bool, buttonLow: bool, now: nat)

  /** What a poll asks the rest of the firmware to do. `Shutdown` is the flash
      acknowledgement followed by the deep-sleep sequence; `Restart` reboots. */
  datatype Effect = None | SwitchColor | Shutdown | Restart

  /** The static locals of the handler together with the two flags it shares with the rest of the firmware. */
  datatype ButtonState = ButtonState(
    buttonPressStart: nat,
    buttonWasPressed: bool,
    lastDebounceTime: nat,
    pendingActionTime: nat,
    hasPendingAction: bool,
    resetPressStart: nat,
    isShuttingDown: bool,
    buttonPressed: bool)

  /** The state at power-on. */
  const INITIAL: ButtonState := ButtonState(0, false, 0, 0, false, 0, false, false)

  /** No timestamp held in `s` lies after `now`: the clock never runs backwards. */
  predicate NotAfter(s: ButtonState, now: nat)
  {
    && s.buttonPressStart <= now
    && s.lastDebounceTime <= now
    && s.pendingActionTime <= now
    && s.resetPressStart <= now
  }

  /** The reset button has been held for more than three seconds since a recorded start. */
  predicate ResetFires(s: ButtonState, x: Sample)
  {
    x.resetLow && s.resetPressStart != 0 && x.now - s.resetPressStart > RESET_HOLD_TIME
  }

  /** The poll is handled past the reset check: not shutting down and not restarting. */
  predicate Live(s: ButtonState, x: Sample)
  {
    !s.isShuttingDown && !ResetFires(s, x)
  }

  /** The main button level equals the last level seen and has not changed for longer than the debounce window. */
  predicate Stable(s: ButtonState, x: Sample)
  {
    x.buttonLow == s.buttonWasPressed && x.now - s.lastDebounceTime > DEBOUNCE_DELAY
  }

  /** A debounced release of a press that lasted at least the minimum press duration. */
  predicate ClickRegistered(t: Timing, s: ButtonState, x: Sample)
  {
    Live(s, x) && Stable(s, x) && !x.buttonLow && s.buttonPressStart > 0
    && x.now - s.buttonPressStart >= t.minPressDuration
  }

  /** A debounced hold that has lasted at least the long-press threshold. */
  predicate LongPress(t: Timing, s: ButtonState, x: Sample)
  {
    Live(s, x) && Stable(s, x) && x.buttonLow && s.buttonPressStart > 0
    && x.now - s.buttonPressStart >= t.longPressDelay
  }

  /** The end of a processed poll: fire a due pending click, then record the level and
      clear the interrupt flag. SwitchColor is emitted exactly when the pending click is
      consumed, which happens only once its merge window has passed; nothing else about the
      state changes. */
  function Settle(t: Timing, s: ButtonState, x: Sample): (r: (ButtonState, Effect))
    ensures r.1 == SwitchColor <==> s.hasPendingAction && !r.0.hasPendingAction
    ensures r.1 == SwitchColor ==> x.now - s.pendingActionTime >= t.clickMergeDelay
    ensures r.1 == SwitchColor || r.1 == None
    ensures r.1 == SwitchColor ==> r.0.pendingActionTime == 0
    ensures r.1 == None ==> r.0.hasPendingAction == s.hasPendingAction && r.0.pendingActionTime == s.pendingActionTime
    ensures r.1 == None && s.hasPendingAction ==> x.now - s.pendingActionTime < t.clickMergeDelay
    ensures r.0.buttonWasPressed == x.buttonLow && !r.0.buttonPressed
    ensures r.0.buttonPressStart == s.buttonPressStart && r.0.lastDebounceTime == s.lastDebounceTime
    ensures r.0.resetPressStart == s.resetPressStart && r.0.isShuttingDown == s.isShuttingDown
  {
    var s' := s.(buttonWasPressed := x.buttonLow, buttonPressed := false);
    if s.hasPendingAction && x.now - s.pendingActionTime >= t.clickMergeDelay
    then (s'.(hasPendingAction := false, pendingActionTime := 0), SwitchColor)
    else (s', None)
  }

  /** One call of `handleButtonPress`: the new state and the effect it asks for. */
  function Next(t: Timing, s: ButtonState, x: Sample): (r: (ButtonState, Effect))
    requires NotAfter(s, x.now)
    ensures s.isShuttingDown ==> r == (s, None)
    ensures r.1 == Restart <==> !s.isShuttingDown && ResetFires(s, x)
    ensures r.1 == Restart ==> r.0 == s
    ensures r.0.isShuttingDown <==> s.isShuttingDown || r.1 == Shutdown
    ensures NotAfter(r.0, x.now)
  {
    if s.isShuttingDown then (s, None)
    else if ResetFires(s, x) then (s, Restart)
    else
      var now := x.now;
      var s1 := s.(
        resetPressStart := if !x.resetLow then 0 else if s.resetPressStart == 0 then now else s.resetPressStart,
        lastDebounceTime := if x.buttonLow != s.buttonWasPressed then now else s.lastDebounceTime);
      if now - s1.lastDebounceTime > DEBOUNCE_DELAY then
        if x.buttonLow && s1.buttonPressStart == 0 then
          var s2 := s1.(buttonPressStart := now);
          Settle(t, s2, x)
        else if !x.buttonLow && s1.buttonPressStart > 0 then
          var s2 :=
            if now - s1.buttonPressStart >= t.minPressDuration then
              if s1.hasPendingAction && now - s1.pendingActionTime < t.clickMergeDelay
              then s1.(pendingActionTime := now)
              else s1.(hasPendingAction := true, pendingActionTime := now)
            else s1;
          var s3 := s2.(buttonPressStart := 0);
          Settle(t, s3, x)
        else if x.buttonLow && s1.buttonPressStart > 0 && now - s1.buttonPressStart >= t.longPressDelay then
          (s1.(hasPendingAction := false, pendingActionTime := 0, isShuttingDown := true, buttonPressStart := 0), Shutdown)
        else
          Settle(t, s1, x)
      else
        Settle(t, s1, x)
  }

  /** Reset hold: releasing clears the start, the first held sample records it, a held start is kept. */
  lemma ResetHold(t: Timing, s: ButtonState, x: Sample)
    requires NotAfter(s, x.now) && Live(s, x)
    ensures var r := Next(t, s, x);
      && (!x.resetLow ==> r.0.resetPressStart == 0)
      && (x.resetLow && s.resetPressStart == 0 ==> r.0.resetPressStart == x.now)
      && (x.resetLow && s.resetPressStart != 0 ==> r.0.resetPressStart == s.resetPressStart)
  {
  }

  /** Debounce: a level change restarts the window; presses and releases are acted on only when
      the level is stable; every processed poll records the level and clears the interrupt flag. */
  lemma Debounce(t: Timing, s: ButtonState, x: Sample)
    requires NotAfter(s, x.now) && Live(s, x)
    ensures var r := Next(t, s, x);
      && (x.buttonLow != s.buttonWasPressed ==> r.0.lastDebounceTime == x.now)
      && (x.buttonLow == s.buttonWasPressed ==> r.0.lastDebounceTime == s.lastDebounceTime)
      && (!Stable(s, x) ==> r.0.buttonPressStart == s.buttonPressStart && r.1 != Shutdown)
      && (r.1 != Shutdown ==> r.0.buttonWasPressed == x.buttonLow && !r.0.buttonPressed)
      && (Stable(s, x) && x.buttonLow && s.buttonPressStart == 0 ==> r.0.buttonPressStart == x.now)
      && (Stable(s, x) && !x.buttonLow && s.buttonPressStart > 0 ==> r.0.buttonPressStart == 0)
  {
  }

  /** Clicks: a registered click is pending from now on (or fires at once when the merge delay is 0);
      a click within the merge window only refreshes the pending time; nothing else creates a pending
      click; a fired click is no longer pending. */
  lemma Clicks(t: Timing, s: ButtonState, x: Sample)
    requires NotAfter(s, x.now)
    ensures var r := Next(t, s, x);
      && (ClickRegistered(t, s, x) ==> r.1 == SwitchColor || (r.0.hasPendingAction && r.0.pendingActionTime == x.now))
      && (ClickRegistered(t, s, x) && s.hasPendingAction && x.now - s.pendingActionTime < t.clickMergeDelay ==>
            r.1 == None && r.0.hasPendingAction && r.0.pendingActionTime == x.now)
      && (Live(s, x) && !ClickRegistered(t, s, x) && r.1 == None ==>
            r.0.hasPendingAction == s.hasPendingAction && r.0.pendingActionTime == s.pendingActionTime)
      && (r.1 == SwitchColor ==> !r.0.hasPendingAction)
      && (r.0.hasPendingAction ==> s.hasPendingAction || ClickRegistered(t, s, x))
  {
  }

  /** SwitchColor is emitted exactly when a click is pending after registration and its merge window has passed. */
  lemma SwitchColorExactly(t: Timing, s: ButtonState, x: Sample)
    requires NotAfter(s, x.now)
    ensures Next(t, s, x).1 == SwitchColor <==>
              Live(s, x) && !LongPress(t, s, x) &&
              if ClickRegistered(t, s, x) then t.clickMergeDelay == 0
              else s.hasPendingAction && x.now - s.pendingActionTime >= t.clickMergeDelay
  {
  }

  /** Long press: Shutdown exactly on a stable hold of at least the threshold; it drops the pending
      click, clears the press start and sets the shutting-down flag. */
  lemma LongPressShutdown(t: Timing, s: ButtonState, x: Sample)
    requires NotAfter(s, x.now)
    ensures var r := Next(t, s, x);
      && (r.1 == Shutdown <==> LongPress(t, s, x))
      && (r.1 == Shutdown ==> r.0.isShuttingDown && !r.0.hasPendingAction && r.0.pendingActionTime == 0 && r.0.buttonPressStart == 0)
  {
  }

  /** Polls in time order, none earlier than the timestamps already held in `s`. */
  predicate Chronological(s: ButtonState, xs: seq<Sample>)
  {
    && (forall i, j :: 0 <= i < j < |xs| ==> xs[i].now <= xs[j].now)
    && (|xs| > 0 ==> NotAfter(s, xs[0].now))
  }

  /** A sequence of polls: the final state and the effect of each poll. The effects are
      recorded, not acted on: after a Restart the run carries on from the state the restart
      left (the device would reboot and start again from INITIAL), and after a Shutdown from the
      shutting-down state (the device would be asleep). */
  function Run(t: Timing, s: ButtonState, xs: seq<Sample>): (r: (ButtonState, seq<Effect>))
    requires Chronological(s, xs)
    ensures |r.1| == |xs|
    decreases |xs|
  {
    if xs == [] then (s, [])
    else
      var step := Next(t, s, xs[0]);
      var rest := Run(t, step.0, xs[1..]);
      (rest.0, [step.1] + rest.1)
  }

  /** How many polls of a run register a click. */
  function ClicksIn(t: Timing, s: ButtonState, xs: seq<Sample>): (clicks: nat)
    requires Chronological(s, xs)
    decreases |xs|
  {
    if xs == [] then 0
    else (if ClickRegistered(t, s, xs[0]) then 1 else 0) + ClicksIn(t, Next(t, s, xs[0]).0, xs[1..])
  }

  /** How often `e` occurs in `es`. */
  function Count(es: seq<Effect>, e: Effect): (n: nat)
  {
    if es == [] then 0 else (if es[0] == e then 1 else 0) + Count(es[1..], e)
  }

  /** 1 for true and 0 for false, to count a flag. */
  function Bit(b: bool): (n: nat) { if b then 1 else 0 }

  /** Once shutting down, every later poll is a no-op: the state stays put and no effect is emitted. */
  lemma {:induction false} ShutdownIsFinal(t: Timing, s: ButtonState, xs: seq<Sample>)
    requires Chronological(s, xs) && s.isShuttingDown
    ensures Run(t, s, xs).0 == s
    ensures forall k :: 0 <= k < |xs| ==> Run(t, s, xs).1[k] == None
    decreases |xs|
  {
    if xs != [] {
      ShutdownIsFinal(t, s, xs[1..]);
    }
  }

  /** In any run, a Shutdown is followed only by polls without effect, so it is emitted at most once. */
  lemma {:induction false} ShutdownAtMostOnce(t: Timing, s: ButtonState, xs: seq<Sample>)
    requires Chronological(s, xs)
    ensures forall i, j :: 0 <= i < j < |xs| && Run(t, s, xs).1[i] == Shutdown ==> Run(t, s, xs).1[j] == None
    ensures Count(Run(t, s, xs).1, Shutdown) <= 1
    decreases |xs|
  {
    if xs != [] {
      var step := Next(t, s, xs[0]);
      var es := Run(t, s, xs).1;
      assert es == [step.1] + Run(t, step.0, xs[1..]).1;
      assert es[1..] == Run(t, step.0, xs[1..]).1;
      ShutdownAtMostOnce(t, step.0, xs[1..]);
      if step.1 == Shutdown {
        ShutdownIsFinal(t, step.0, xs[1..]);
        NoneCountsNoShutdown(es[1..]);
      }
    }
  }

  /** A sequence of `None` holds no Shutdown. */
  lemma {:induction false} NoneCountsNoShutdown(es: seq<Effect>)
    requires forall k :: 0 <= k < |es| ==> es[k] == None
    ensures Count(es, Shutdown) == 0
    decreases |es|
  {
    if es != [] {
      NoneCountsNoShutdown(es[1..]);
    }
  }

  /** Every SwitchColor is paid for by a click: the colour changes in a run, plus the click still
      pending at its end, never exceed the clicks registered in it plus the one pending at its start.
      Merged clicks therefore yield fewer colour changes than clicks, never more. */
  lemma {:induction false} SwitchColorNeedsClick(t: Timing, s: ButtonState, xs: seq<Sample>)
    requires Chronological(s, xs)
    ensures Count(Run(t, s, xs).1, SwitchColor) + Bit(Run(t, s, xs).0.hasPendingAction)
            <= Bit(s.hasPendingAction) + ClicksIn(t, s, xs)
    decreases |xs|
  {
    if xs != [] {
      var step := Next(t, s, xs[0]);
      var es := Run(t, s, xs).1;
      assert es == [step.1] + Run(t, step.0, xs[1..]).1;
      assert es[1..] == Run(t, step.0, xs[1..]).1;
      Clicks(t, s, xs[0]);
      SwitchColorNeedsClick(t, step.0, xs[1..]);
    }
  }

  /** One press shorter than the debounce window, from power-on: held from 1010 ms to 1160 ms and
      polled at these times, it registers no click and changes no colour, whatever the thresholds. */
  lemma ShortPressIgnored(t: Timing)
    ensures var xs := [Sample(false, false, 1000), Sample(false, true, 1010), Sample(false, true, 1100),
                       Sample(false, true, 1159), Sample(false, false, 1160), Sample(false, false, 1500),
                       Sample(false, false, 20000)];
      && Chronological(INITIAL, xs)
      && Run(t, INITIAL, xs).1 == [None, None, None, None, None, None, None]
      && !Run(t, INITIAL, xs).0.hasPendingAction
  {
  }

  /** A press held past the debounce window, released, then followed by silence for the merge
      window, changes the colour exactly once, and only when the merge window has passed. */
  lemma OneClickOneSwitch(t: Timing)
    requires 0 < t.clickMergeDelay && t.minPressDuration <= 500 && t.longPressDelay > 100
    ensures var xs := OneClickSamples(t);
      && Chronological(INITIAL, xs)
      && Run(t, INITIAL, xs).1 == [None, None, None, None, None, None, SwitchColor]
      && !Run(t, INITIAL, xs).0.hasPendingAction
  {
    var xs := OneClickSamples(t);
    var s1 := ButtonState(0, false, 0, 0, false, 0, false, false);
    var s2 := ButtonState(0, true, 1010, 0, false, 0, false, false);
    var s3 := ButtonState(1300, true, 1010, 0, false, 0, false, false);
    var s5 := ButtonState(1300, false, 1500, 0, false, 0, false, false);
    var s6 := ButtonState(0, false, 1500, 1800, true, 0, false, false);
    var s7 := ButtonState(0, false, 1500, 0, false, 0, false, false);
    OneClickPolls(t, s1, s2, s3, s5, s6, s7);
    assert xs[6..][1..] == [];
    RunStep(t, s6, xs[6..], s7, SwitchColor);
    assert Run(t, s7, xs[6..][1..]) == (s7, []);
    RunStep(t, s5, xs[5..], s6, None);
    RunStep(t, s3, xs[4..], s5, None);
    RunStep(t, s3, xs[3..], s3, None);
    RunStep(t, s2, xs[2..], s3, None);
    RunStep(t, s1, xs[1..], s2, None);
    RunStep(t, INITIAL, xs, s1, None);
  }

  /** The polls of `OneClickOneSwitch`: held from 1010 ms to 1500 ms, then released. */
  function OneClickSamples(t: Timing): (xs: seq<Sample>)
    ensures |xs| == 7 && Chronological(INITIAL, xs)
  {
    [Sample(false, false, 1000), Sample(false, true, 1010), Sample(false, true, 1300),
     Sample(false, true, 1400), Sample(false, false, 1500), Sample(false, false, 1800),
     Sample(false, false, 1800 + t.clickMergeDelay)]
  }

  /** Each poll of `OneClickSamples`, one at a time: the press starts at 1300 ms once stable,
      its release registers a click at 1800 ms, and the click fires after the merge window. */
  lemma OneClickPolls(t: Timing, s1: ButtonState, s2: ButtonState, s3: ButtonState,
                      s5: ButtonState, s6: ButtonState, s7: ButtonState)
    requires 0 < t.clickMergeDelay && t.minPressDuration <= 500 && t.longPressDelay > 100
    requires s1 == ButtonState(0, false, 0, 0, false, 0, false, false)
    requires s2 == ButtonState(0, true, 1010, 0, false, 0, false, false)
    requires s3 == ButtonState(1300, true, 1010, 0, false, 0, false, false)
    requires s5 == ButtonState(1300, false, 1500, 0, false, 0, false, false)
    requires s6 == ButtonState(0, false, 1500, 1800, true, 0, false, false)
    requires s7 == ButtonState(0, false, 1500, 0, false, 0, false, false)
    ensures var xs := OneClickSamples(t);
      && Next(t, INITIAL, xs[0]) == (s1, None)
      && Next(t, s1, xs[1]) == (s2, None)
      && Next(t, s2, xs[2]) == (s3, None)
      && Next(t, s3, xs[3]) == (s3, None)
      && Next(t, s3, xs[4]) == (s5, None)
      && Next(t, s5, xs[5]) == (s6, None)
      && Next(t, s6, xs[6]) == (s7, SwitchColor)
  {
  }

  /** One poll of a run, unfolded. */
  lemma RunStep(t: Timing, s: ButtonState, xs: seq<Sample>, s': ButtonState, e: Effect)
    requires Chronological(s, xs) && |xs| > 0 && Next(t, s, xs[0]) == (s', e)
    ensures Chronological(s', xs[1..])
    ensures Run(t, s, xs) == (Run(t, s', xs[1..]).0, [e] + Run(t, s', xs[1..]).1)
  {
  }

  /** One observable step of the shutdown path. */
  datatype SleepStep =
    | Delay(ms: nat)
    | DetachButtonInterrupt(pin: nat)
    | TurnOffLeds
    | EnableWakeOnLow(pin: nat)
    | StartDeepSleep
    | FlashAllColors(speed: nat)

  /** The sequence quiesces the lamp before it suspends: the button interrupt is detached first,
      then the LEDs are turned off, and only then is the wake source armed on the button pin; nothing lights the LEDs after
      they are turned off, and deep sleep is the last step and happens once. */
  predicate QuiescedBeforeSleep(trace: seq<SleepStep>)
  {
    && |trace| > 0
    && trace[|trace| - 1] == StartDeepSleep
    && (forall k :: 0 <= k < |trace| - 1 ==> trace[k] != StartDeepSleep)
    && exists d, o, w ::
         && 0 <= d < o < w < |trace|
         && trace[d] == DetachButtonInterrupt(BUTTON_PIN)
         && trace[o] == TurnOffLeds
         && trace[w] == EnableWakeOnLow(BUTTON_PIN)
         && (forall k :: o < k < |trace| ==> !trace[k].FlashAllColors?)
  }

  /** `goToDeepSleep`: the steps it takes, in order (log lines omitted). */
  function GoToDeepSleep(): (trace: seq<SleepStep>)
    ensures QuiescedBeforeSleep(trace)
  {
    var trace := [Delay(SLEEP_SETTLE_DELAY), DetachButtonInterrupt(BUTTON_PIN), TurnOffLeds, Delay(SLEEP_SETTLE_DELAY),
                  EnableWakeOnLow(BUTTON_PIN), Delay(SLEEP_SETTLE_DELAY), StartDeepSleep];
    assert trace[1] == DetachButtonInterrupt(BUTTON_PIN) && trace[2] == TurnOffLeds && trace[4] == EnableWakeOnLow(BUTTON_PIN);
    trace
  }

  /** What the Shutdown effect of a long press runs: the flash acknowledgement, a pause, then
      `goToDeepSleep`. The flash is over before the LEDs are turned off for sleep. */
  function ShutdownSequence(): (trace: seq<SleepStep>)
    ensures QuiescedBeforeSleep(trace)
    ensures trace[..2] == [FlashAllColors(SHUTDOWN_FLASH_SPEED), Delay(SHUTDOWN_PAUSE)]
    ensures trace[2..] == GoToDeepSleep()
  {
    var trace := [FlashAllColors(SHUTDOWN_FLASH_SPEED), Delay(SHUTDOWN_PAUSE)] + GoToDeepSleep();
    assert trace == [FlashAllColors(SHUTDOWN_FLASH_SPEED), Delay(SHUTDOWN_PAUSE),
                     Delay(SLEEP_SETTLE_DELAY), DetachButtonInterrupt(BUTTON_PIN), TurnOffLeds, Delay(SLEEP_SETTLE_DELAY),
                     EnableWakeOnLow(BUTTON_PIN), Delay(SLEEP_SETTLE_DELAY), StartDeepSleep];
    assert trace[3] == DetachButtonInterrupt(BUTTON_PIN) && trace[4] == TurnOffLeds && trace[6] == EnableWakeOnLow(BUTTON_PIN);
    trace
  }

  /** The persistent state of `handleButtonPress`, updated in place on every poll. */
  class Handler {
    const timing: Timing
    var buttonPressStart: nat
    var buttonWasPressed: bool
    var lastDebounceTime: nat
    var pendingActionTime: nat
    var hasPendingAction: bool
    var resetPressStart: nat
    /** Global flag: set by a long press, it silences the handler. */
    var isShuttingDown: bool
    /** Global flag: raised by the button interrupt, cleared by every processed poll. */
    var buttonPressed: bool

    function State(): ButtonState
      reads this
    {
      ButtonState(buttonPressStart, buttonWasPressed, lastDebounceTime, pendingActionTime,
                  hasPendingAction, resetPressStart, isShuttingDown, buttonPressed)
    }

    /** All static state starts at zero / false. */
    constructor (timing: Timing)
      ensures this.timing == timing && State() == INITIAL
    {
      this.timing := timing;
      buttonPressStart, buttonWasPressed, lastDebounceTime := 0, false, 0;
      pendingActionTime, hasPendingAction, resetPressStart := 0, false, 0;
      isShuttingDown, buttonPressed := false, false;
    }

    /** `handleButtonPress`, given the sampled levels and the clock. Restart and Shutdown end the
        call at once, as the restart and deep-sleep calls of the firmware do not return. */
    method HandleButtonPress(resetLow: bool, buttonLow: bool, now: nat) returns (effect: Effect)
      requires NotAfter(State(), now)
      modifies this
      ensures (State(), effect) == Next(timing, old(State()), Sample(resetLow, buttonLow, now))
    {
      if isShuttingDown {
        return None;
      }

      if resetLow && resetPressStart == 0 {
        resetPressStart := now;
      } else if !resetLow {
        resetPressStart := 0;
      } else if resetLow && now - resetPressStart > RESET_HOLD_TIME {
        return Restart;
      }

      if buttonLow != buttonWasPressed {
        lastDebounceTime := now;
      }

      if now - lastDebounceTime > DEBOUNCE_DELAY {
        if buttonLow && buttonPressStart == 0 {
          buttonPressStart := now;
        } else if !buttonLow && buttonPressStart > 0 {
          var pressDuration := now - buttonPressStart;
          if pressDuration >= timing.minPressDuration {
            if hasPendingAction && now - pendingActionTime < timing.clickMergeDelay {
              pendingActionTime := now;
            } else {
              hasPendingAction := true;
              pendingActionTime := now;
            }
          }
          buttonPressStart := 0;
        } else if buttonLow && buttonPressStart > 0 {
          var pressDuration := now - buttonPressStart;
          if pressDuration >= timing.longPressDelay {
            hasPendingAction := false;
            pendingActionTime := 0;
            isShuttingDown := true;
            buttonPressStart := 0;
            return Shutdown;
          }
        }
      }

      effect := None;
      if hasPendingAction && now - pendingActionTime >= timing.clickMergeDelay {
        effect := SwitchColor;
        hasPendingAction := false;
        pendingActionTime := 0;
      }

      buttonWasPressed := buttonLow;
      buttonPressed := false;
    }
  }
}
