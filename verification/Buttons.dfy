/** The button state machine of `multi_button.c`: debouncing and press timing over any
    stream of samples. */
module Buttons {

  const DEBOUNCE_TICKS: nat := 3
  const SHORT_TICKS: nat := 15
  const LONG_TICKS: nat := 200

  datatype Event =
    PressDown | PressUp | PressRepeat | SingleClick | DoubleClick | LongPressStart | LongPressHold | NonePress

  /** The bit fields of a button; `ticks` has 16 bits, `repeat` 4, `state` and the debounce
      counter 3.  Levels are true where the source has 1. */
  datatype State = State(ticks: nat, repeat: nat, event: Event, state: nat, debounceCnt: nat, level: bool)

  /** One call of button_handler: the fields after it and the callbacks it made. */
  datatype Outcome = Outcome(after: State, calls: seq<Event>)

  /** The counter and the debouncing at the start of button_handler. */
  function Sampled(b: State, sample: bool): State {
    var ticks := if b.state > 0 then (b.ticks + 1) % 0x1_0000 else b.ticks;
    if sample == b.level then b.(ticks := ticks, debounceCnt := 0)
    else
      var count := (b.debounceCnt + 1) % 8;
      if count >= DEBOUNCE_TICKS then b.(ticks := ticks, level := sample, debounceCnt := 0)
      else b.(ticks := ticks, debounceCnt := count)
  }

  /** The switch of button_handler. */
  function Switched(b: State, active: bool): Outcome {
    match b.state
    case 0 =>
      if b.level == active then Outcome(b.(event := PressDown, ticks := 0, repeat := 1, state := 1), [PressDown])
      else Outcome(b.(event := NonePress), [])
    case 1 =>
      if b.level != active then Outcome(b.(event := PressUp, ticks := 0, state := 2), [PressUp])
      else if b.ticks > LONG_TICKS then Outcome(b.(event := LongPressStart, state := 5), [LongPressStart])
      else Outcome(b, [])
    case 2 =>
      if b.level == active then
        Outcome(b.(event := PressDown, repeat := (b.repeat + 1) % 16, ticks := 0, state := 3), [PressDown, PressRepeat])
      else if b.ticks > SHORT_TICKS then
        if b.repeat == 1 then Outcome(b.(event := SingleClick, state := 0), [SingleClick])
        else if b.repeat == 2 then Outcome(b.(event := DoubleClick, state := 0), [DoubleClick])
        else Outcome(b.(state := 0), [])
      else Outcome(b, [])
    case 3 =>
      if b.level != active then
        if b.ticks < SHORT_TICKS then Outcome(b.(event := PressUp, ticks := 0, state := 2), [PressUp])
        else Outcome(b.(event := PressUp, state := 0), [PressUp])
      else if b.ticks > SHORT_TICKS then Outcome(b.(state := 0), [])
      else Outcome(b, [])
    case 5 =>
      if b.level == active then Outcome(b.(event := LongPressHold), [LongPressHold])
      else Outcome(b.(event := PressUp, state := 0), [PressUp])
    case _ => Outcome(b.(state := 0), [])
  }

  function Handled(b: State, active: bool, sample: bool): Outcome {
    Switched(Sampled(b, sample), active)
  }

  /** button_init */
  function Initial(level: bool): State {
    State(0, 0, NonePress, 0, 0, level)
  }

  // --------------------------------------------------------------------- runs

  /** The button after the first `n` samples. */
  function At(b: State, active: bool, samples: seq<bool>, n: nat): State
    requires n <= |samples|
  {
    if n == 0 then b else Handled(At(b, active, samples, n - 1), active, samples[n - 1]).after
  }

  /** The callbacks of call `n`, counted from 1. */
  function Calls(b: State, active: bool, samples: seq<bool>, n: nat): seq<Event>
    requires 1 <= n <= |samples|
  {
    Handled(At(b, active, samples, n - 1), active, samples[n - 1]).calls
  }

  /** The fields stay in their ranges, and three of the eight states do not occur. */
  predicate Inv(b: State) {
    b.state in {0, 1, 2, 3, 5} && b.debounceCnt < DEBOUNCE_TICKS && b.ticks < 0x1_0000 && b.repeat < 16
  }

  lemma HandlerKeepsInv(b: State, active: bool, sample: bool)
    requires Inv(b)
    ensures Inv(Handled(b, active, sample).after)
  {
    assert Sampled(b, sample).debounceCnt < DEBOUNCE_TICKS;
  }

  lemma {:induction false} StatesFourSixSevenAreUnreachable(level: bool, active: bool, samples: seq<bool>, n: nat)
    requires n <= |samples|
    ensures Inv(At(Initial(level), active, samples, n))
  {
    hide Handled, Inv;
    if n == 0 {
      assert Inv(Initial(level)) by { InitialInv(level); }
    } else {
      StatesFourSixSevenAreUnreachable(level, active, samples, n - 1);
      HandlerKeepsInv(At(Initial(level), active, samples, n - 1), active, samples[n - 1]);
    }
  }

  lemma InitialInv(level: bool)
    ensures Inv(Initial(level))
  {
  }

  // --------------------------------------------------------------- debouncing

  /** What debouncing means: the level is that of the last run of DEBOUNCE_TICKS equal samples. */
  function Debounced(level: bool, samples: seq<bool>, n: nat): bool
    requires n <= |samples|
  {
    if n == 0 then level
    else if n >= DEBOUNCE_TICKS && samples[n - 3] == samples[n - 2] == samples[n - 1] then samples[n - 1]
    else Debounced(level, samples, n - 1)
  }

  /** How many of the last samples differ from the level. */
  function Differing(level: bool, samples: seq<bool>, n: nat): nat
    requires n <= |samples|
  {
    if n == 0 || samples[n - 1] == level then 0 else 1 + Differing(level, samples, n - 1)
  }

  lemma {:induction false} DebouncingIsCounted(level: bool, active: bool, samples: seq<bool>, n: nat)
    requires n <= |samples|
    ensures var b := At(Initial(level), active, samples, n);
            && b.level == Debounced(level, samples, n)
            && b.debounceCnt == Differing(b.level, samples, n) < DEBOUNCE_TICKS
  {
    hide Handled;
    if n > 0 {
      DebouncingIsCounted(level, active, samples, n - 1);
      var b, s := At(Initial(level), active, samples, n - 1), samples[n - 1];
      SampleIsCounted(b, active, s);
      DifferingSamples(b.level, samples, n - 1);
    }
  }

  lemma SampleIsCounted(b: State, active: bool, sample: bool)
    requires b.debounceCnt < DEBOUNCE_TICKS
    ensures var c, count := Handled(b, active, sample).after, b.debounceCnt + 1;
            if sample == b.level then c.level == b.level && c.debounceCnt == 0
            else if count >= DEBOUNCE_TICKS then c.level == sample && c.debounceCnt == 0
            else c.level == b.level && c.debounceCnt == count
  {
  }

  lemma {:induction false} DifferingSamples(level: bool, samples: seq<bool>, n: nat)
    requires n <= |samples|
    ensures var k := Differing(level, samples, n);
            && k <= n && (forall i :: n - k <= i < n ==> samples[i] != level)
            && (k < n ==> samples[n - 1 - k] == level)
  {
    if n > 0 && samples[n - 1] != level {
      DifferingSamples(level, samples, n - 1);
    }
  }

  /** The level flips with a sample exactly if that sample and the ones before it, three in
      all, differ from it. */
  lemma LevelFlipsAfterThreeSamples(level: bool, active: bool, samples: seq<bool>, n: nat)
    requires 1 <= n <= |samples|
    ensures var was, now := At(Initial(level), active, samples, n - 1).level,
      At(Initial(level), active, samples, n).level;
            was != now <==>
              n >= DEBOUNCE_TICKS && forall i :: n - DEBOUNCE_TICKS <= i < n ==> samples[i] != was
  {
    hide At;
    DebouncingIsCounted(level, active, samples, n - 1);
    DebouncingIsCounted(level, active, samples, n);
    if n >= 3 {
      DifferingSamples(Debounced(level, samples, n - 1), samples, n - 1);
    }
  }

  // -------------------------------------------------------------- long presses

  /** The handler at call `n`: where it was, where it is and what it called. */
  lemma Step(b: State, active: bool, samples: seq<bool>, n: nat)
    requires 1 <= n <= |samples|
    ensures var was, now := At(b, active, samples, n - 1), At(b, active, samples, n);
            var ticks := if was.state > 0 then (was.ticks + 1) % 0x1_0000 else was.ticks;
            var sampled := was.(ticks := ticks, level := now.level, debounceCnt := now.debounceCnt);
            Switched(sampled, active) == Outcome(now, Calls(b, active, samples, n))
  {
    hide Switched;
    var was := At(b, active, samples, n - 1);
    SwitchLeavesTheLevel(Sampled(was, samples[n - 1]), active);
  }

  lemma SwitchLeavesTheLevel(b: State, active: bool)
    ensures Switched(b, active).after.level == b.level && Switched(b, active).after.debounceCnt == b.debounceCnt
  {
  }

  /** The first press of a sequence was reported by call `m`, and the button is held up to `n`. */
  ghost predicate PressedSince(b: State, active: bool, samples: seq<bool>, m: nat, n: nat)
    requires 1 <= m <= n <= |samples|
  {
    && At(b, active, samples, m - 1).state == 0 && Calls(b, active, samples, m) == [PressDown]
    && forall i :: m <= i <= n ==> At(b, active, samples, i).level == active
  }

  /** A button that is held counts the calls since its press. */
  lemma {:induction false} HeldSincePress(b: State, active: bool, samples: seq<bool>, m: nat, n: nat)
    requires 1 <= m <= n <= |samples| && n - m <= LONG_TICKS && PressedSince(b, active, samples, m, n)
    ensures At(b, active, samples, n).state == 1 && At(b, active, samples, n).ticks == n - m
  {
    hide At, Calls;
    Step(b, active, samples, n);
    if m < n {
      HeldSincePress(b, active, samples, m, n - 1);
    }
  }

  /** A button in state 1 was pressed as many calls ago as it has counted. */
  lemma {:induction false} CountsFromPress(level: bool, active: bool, samples: seq<bool>, n: nat)
    requires n <= |samples| && At(Initial(level), active, samples, n).state == 1
    ensures var ticks := At(Initial(level), active, samples, n).ticks;
            ticks < n && ticks <= LONG_TICKS && PressedSince(Initial(level), active, samples, n - ticks, n)
  {
    hide At, Calls, Inv;
    var b := Initial(level);
    Start(b, active, samples);
    if n > 0 {
      StatesFourSixSevenAreUnreachable(level, active, samples, n - 1);
      KnownStates(At(b, active, samples, n - 1));
      Step(b, active, samples, n);
      if At(b, active, samples, n - 1).state == 1 {
        CountsFromPress(level, active, samples, n - 1);
      }
    }
  }

  lemma Start(b: State, active: bool, samples: seq<bool>)
    ensures At(b, active, samples, 0) == b
  {
  }

  lemma KnownStates(b: State)
    requires Inv(b)
    ensures b.state == 0 || b.state == 1 || b.state == 2 || b.state == 3 || b.state == 5
  {
  }

  /** LONG_PRESS_START is called LONG_TICKS + 1 calls after the first press of a sequence,
      exactly if the debounced level was active all the time. */
  lemma LongPressStartsExactly(level: bool, active: bool, samples: seq<bool>, n: nat)
    requires 1 <= n <= |samples|
    ensures Calls(Initial(level), active, samples, n) == [LongPressStart] <==>
              n > LONG_TICKS + 1 && PressedSince(Initial(level), active, samples, n - (LONG_TICKS + 1), n)
  {
    hide At, Calls, Inv, PressedSince;
    var b := Initial(level);
    StatesFourSixSevenAreUnreachable(level, active, samples, n - 1);
    KnownStates(At(b, active, samples, n - 1));
    Step(b, active, samples, n);
    if At(b, active, samples, n - 1).state == 1 {
      CountsFromPress(level, active, samples, n - 1);
      LastOfHeld(b, active, samples, n - 1 - At(b, active, samples, n - 1).ticks, n);
    }
    if n > LONG_TICKS + 1 && PressedSince(b, active, samples, n - (LONG_TICKS + 1), n) {
      LastOfHeld(b, active, samples, n - (LONG_TICKS + 1), n);
      HeldSincePress(b, active, samples, n - (LONG_TICKS + 1), n - 1);
    }
  }

  lemma LastOfHeld(b: State, active: bool, samples: seq<bool>, m: nat, n: nat)
    requires 1 <= m < n <= |samples|
    ensures PressedSince(b, active, samples, m, n) <==>
              PressedSince(b, active, samples, m, n - 1) && At(b, active, samples, n).level == active
  {
  }

  /** From LONG_PRESS_START on, every call while the button is held is LONG_PRESS_HOLD, and
      the release is one PRESS_UP that ends the sequence. */
  lemma {:induction false} LongPressEndsWithOnePressUp(b: State, active: bool, samples: seq<bool>, n: nat, m: nat)
    requires 1 <= n < m <= |samples| && Calls(b, active, samples, n) == [LongPressStart]
    requires forall i :: n < i < m ==> At(b, active, samples, i).level == active
    ensures forall i :: n < i < m ==> Calls(b, active, samples, i) == [LongPressHold]
    ensures At(b, active, samples, m - 1).state == 5
    ensures At(b, active, samples, m).level != active ==>
              Calls(b, active, samples, m) == [PressUp] && At(b, active, samples, m).state == 0
  {
    hide At, Calls;
    Step(b, active, samples, n);
    if n + 1 < m {
      LongPressEndsWithOnePressUp(b, active, samples, n, m - 1);
    }
    Step(b, active, samples, m - 1);
    Step(b, active, samples, m);
  }

  // ------------------------------------------------------ presses and releases

  /** The event field is the first callback of the call; without one it stays, or is cleared while
      nothing is pressed. */
  lemma EventIsTheCall(b: State, active: bool, sample: bool)
    requires Inv(b)
    ensures var h := Handled(b, active, sample);
            h.after.event == if h.calls != [] then h.calls[0] else if b.state == 0 then NonePress else b.event
  {
  }

  /** A repeated press that is held for too long is given up, although the button is down. */
  ghost predicate GivenUp(b: State, active: bool, samples: seq<bool>, n: nat)
    requires n <= |samples|
  {
    n > 0 && At(b, active, samples, n - 1).state == 3 && At(b, active, samples, n).state == 0
    && At(b, active, samples, n).level == active
  }

  /** The state knows whether the button is down, but for the first call and when it has given up. */
  lemma {:induction false} StateKnowsTheLevel(level: bool, active: bool, samples: seq<bool>, n: nat)
    requires n <= |samples|
    ensures var b := At(Initial(level), active, samples, n);
            && (b.state == 1 || b.state == 3 || b.state == 5 ==> b.level == active)
            && (b.state == 2 ==> b.level != active)
            && (b.state == 0 && b.level == active ==> n == 0 || GivenUp(Initial(level), active, samples, n))
  {
    hide At, Calls, Inv;
    var b := Initial(level);
    Start(b, active, samples);
    if n > 0 {
      StateKnowsTheLevel(level, active, samples, n - 1);
      StatesFourSixSevenAreUnreachable(level, active, samples, n - 1);
      KnownStates(At(b, active, samples, n - 1));
      Step(b, active, samples, n);
    }
  }

  lemma FirstSampleLeavesTheLevel(level: bool, active: bool, samples: seq<bool>)
    requires 1 <= |samples|
    ensures At(Initial(level), active, samples, 1).level == level
  {
    hide Handled;
    Start(Initial(level), active, samples);
    OneCall(Initial(level), active, samples, 1);
    SampleIsCounted(Initial(level), active, samples[0]);
  }

  /** PRESS_UP is called exactly when the button is released, except exactly when it is released in
      the call after a repeated press was given up. */
  lemma PressUpExactly(level: bool, active: bool, samples: seq<bool>, n: nat)
    requires 1 <= n <= |samples|
    ensures PressUp in Calls(Initial(level), active, samples, n) <==>
              && At(Initial(level), active, samples, n - 1).level == active
              && At(Initial(level), active, samples, n).level != active
              && !GivenUp(Initial(level), active, samples, n - 1)
  {
    hide At, Calls, Inv;
    var b := Initial(level);
    Start(b, active, samples);
    FirstSampleLeavesTheLevel(level, active, samples);
    StateKnowsTheLevel(level, active, samples, n - 1);
    StatesFourSixSevenAreUnreachable(level, active, samples, n - 1);
    KnownStates(At(b, active, samples, n - 1));
    Step(b, active, samples, n);
  }

  /** PRESS_DOWN is called exactly when the button is pressed, and once more while it is down when a
      repeated press was given up; with PRESS_REPEAT if the press comes in the same sequence. */
  lemma PressDownExactly(level: bool, active: bool, samples: seq<bool>, n: nat)
    requires 1 <= n <= |samples|
    ensures PressDown in Calls(Initial(level), active, samples, n) <==>
              && At(Initial(level), active, samples, n).level == active
              && (At(Initial(level), active, samples, n - 1).level != active || n == 1 ||
                  GivenUp(Initial(level), active, samples, n - 1))
    ensures PressRepeat in Calls(Initial(level), active, samples, n) <==>
              PressDown in Calls(Initial(level), active, samples, n) &&
              At(Initial(level), active, samples, n - 1).state == 2
  {
    hide At, Calls, Inv;
    var b := Initial(level);
    Start(b, active, samples);
    FirstSampleLeavesTheLevel(level, active, samples);
    StateKnowsTheLevel(level, active, samples, n - 1);
    StatesFourSixSevenAreUnreachable(level, active, samples, n - 1);
    KnownStates(At(b, active, samples, n - 1));
    Step(b, active, samples, n);
  }

  /** `event` was called by call `m`, and the level is `level` from then on up to call `n`. */
  ghost predicate CalledSince(b: State, active: bool, samples: seq<bool>, event: Event, level: bool, m: nat, n: nat)
    requires 1 <= m <= n <= |samples|
  {
    event in Calls(b, active, samples, m) && forall i :: m <= i <= n ==> At(b, active, samples, i).level == level
  }

  /** Between two presses of a sequence the button was released, and while a repeated press is held
      it was pressed, as many calls ago as it has counted, and not more than SHORT_TICKS. */
  lemma {:induction false} CountsFromTheLast(level: bool, active: bool, samples: seq<bool>, n: nat)
    requires n <= |samples|
    ensures var b := At(Initial(level), active, samples, n);
            b.state == 2 || b.state == 3 ==>
              && b.ticks < n && b.ticks <= SHORT_TICKS
              && CalledSince(Initial(level), active, samples, if b.state == 2 then PressUp else PressRepeat,
                             if b.state == 2 then !active else active, n - b.ticks, n)
  {
    hide At, Calls, Inv;
    var b := Initial(level);
    Start(b, active, samples);
    if n > 0 {
      CountsFromTheLast(level, active, samples, n - 1);
      StatesFourSixSevenAreUnreachable(level, active, samples, n - 1);
      KnownStates(At(b, active, samples, n - 1));
      StateKnowsTheLevel(level, active, samples, n);
      Step(b, active, samples, n);
    }
  }

  /** A sequence goes on with the release of a repeated press exactly if that was held for less than
      SHORT_TICKS calls; and always with that of the first press, unless it was a long one. */
  lemma SequenceGoesOnExactly(level: bool, active: bool, samples: seq<bool>, n: nat) returns (m: nat)
    requires 1 <= n <= |samples| && PressUp in Calls(Initial(level), active, samples, n)
    ensures var b, was, now := Initial(level), At(Initial(level), active, samples, n - 1),
              At(Initial(level), active, samples, n);
            && (was.state == 1 ==> now.state == 2)
            && (was.state == 3 ==>
                  && 1 <= m < n && CalledSince(b, active, samples, PressRepeat, active, m, n - 1)
                  && now.state == if n - m < SHORT_TICKS then 2 else 0)
            && (was.state == 5 ==> now.state == 0)
            && (was.state == 1 || was.state == 3 || was.state == 5)
  {
    hide At, Calls, Inv, CalledSince;
    var b := Initial(level);
    CountsFromTheLast(level, active, samples, n - 1);
    StatesFourSixSevenAreUnreachable(level, active, samples, n - 1);
    KnownStates(At(b, active, samples, n - 1));
    Step(b, active, samples, n);
    m := if At(b, active, samples, n - 1).state == 3 then n - 1 - At(b, active, samples, n - 1).ticks else 0;
  }

  // ------------------------------------------------------------------ clicks

  /** The presses reported since the state was last 0. */
  function Presses(b: State, active: bool, samples: seq<bool>, n: nat): nat
    requires n <= |samples|
  {
    if n == 0 then 0
    else
      (if At(b, active, samples, n - 1).state == 0 then 0 else Presses(b, active, samples, n - 1))
      + (if PressDown in Calls(b, active, samples, n) then 1 else 0)
  }

  /** The repeat counter is the number of presses, in 4 bits. */
  lemma {:induction false} RepeatCountsPresses(level: bool, active: bool, samples: seq<bool>, n: nat)
    requires n <= |samples|
    ensures var b := At(Initial(level), active, samples, n);
            b.state != 0 ==> Presses(Initial(level), active, samples, n) >= 1
                             && b.repeat == Presses(Initial(level), active, samples, n) % 16
  {
    hide At, Calls, Inv;
    var b := Initial(level);
    Start(b, active, samples);
    if n > 0 {
      RepeatCountsPresses(level, active, samples, n - 1);
      StatesFourSixSevenAreUnreachable(level, active, samples, n - 1);
      KnownStates(At(b, active, samples, n - 1));
      Step(b, active, samples, n);
    }
  }

  /** The call at which a sequence of short presses is over: the button has been up for more
      than SHORT_TICKS calls. */
  ghost predicate SequenceEnds(b: State, active: bool, samples: seq<bool>, n: nat)
    requires 1 <= n <= |samples|
  {
    var was := At(b, active, samples, n - 1);
    was.state == 2 && (was.ticks + 1) % 0x1_0000 > SHORT_TICKS && At(b, active, samples, n).level != active
  }

  function ClickCalls(presses: nat): seq<Event> {
    if presses % 16 == 1 then [SingleClick] else if presses % 16 == 2 then [DoubleClick] else []
  }

  lemma TableIsRightExactly(presses: nat)
    requires presses >= 1
    ensures (ClickCalls(presses) == [SingleClick] <==> presses == 1) <==> presses < 17 || presses % 16 != 1
    ensures (ClickCalls(presses) == [DoubleClick] <==> presses == 2) <==> presses < 18 || presses % 16 != 2
  {
    assert [SingleClick][0] != [DoubleClick][0];
  }

  /** When a sequence ends, one press is called a single click and two a double click, but
      the presses are counted in 4 bits: 17 are a single click too. */
  lemma ClicksArePressesModulo16(level: bool, active: bool, samples: seq<bool>, n: nat)
    requires 1 <= n <= |samples| && SequenceEnds(Initial(level), active, samples, n)
    ensures Calls(Initial(level), active, samples, n) == ClickCalls(Presses(Initial(level), active, samples, n - 1))
    ensures At(Initial(level), active, samples, n).state == 0
  {
    hide At, Calls;
    Step(Initial(level), active, samples, n);
    RepeatCountsPresses(level, active, samples, n - 1);
  }

  /** So the clicks of a run are right for up to 16 presses, and beyond except when whole rounds
      of 16 presses are lost. */
  lemma ClicksAreRightExactly(level: bool, active: bool, samples: seq<bool>, n: nat)
    requires 1 <= n <= |samples| && SequenceEnds(Initial(level), active, samples, n)
    ensures var calls, p := Calls(Initial(level), active, samples, n), Presses(Initial(level), active, samples, n - 1);
            && ((calls == [SingleClick] <==> p == 1) <==> p < 17 || p % 16 != 1)
            && ((calls == [DoubleClick] <==> p == 2) <==> p < 18 || p % 16 != 2)
  {
    hide At, Calls, ClickCalls;
    ClicksArePressesModulo16(level, active, samples, n);
    RepeatCountsPresses(level, active, samples, n - 1);
    TableIsRightExactly(Presses(Initial(level), active, samples, n - 1));
  }

  /** Clicks are called nowhere else. */
  lemma ClicksOnlyWhenSequenceEnds(level: bool, active: bool, samples: seq<bool>, n: nat)
    requires 1 <= n <= |samples|
    requires var calls := Calls(Initial(level), active, samples, n); SingleClick in calls || DoubleClick in calls
    ensures SequenceEnds(Initial(level), active, samples, n)
  {
    hide At, Calls, Inv;
    StatesFourSixSevenAreUnreachable(level, active, samples, n - 1);
    KnownStates(At(Initial(level), active, samples, n - 1));
    Step(Initial(level), active, samples, n);
  }

  /** `k` presses of three samples, with three samples in between. */
  function Burst(active: bool, k: nat): (r: seq<bool>)
    ensures |r| == 6 * k
  {
    if k == 0 then [] else Burst(active, k - 1) + [active, active, active, !active, !active, !active]
  }

  lemma {:induction false} Prefix(b: State, active: bool, s: seq<bool>, t: seq<bool>, n: nat)
    requires n <= |s|
    ensures At(b, active, s + t, n) == At(b, active, s, n)
    ensures Presses(b, active, s + t, n) == Presses(b, active, s, n)
  {
    hide Handled;
    if n > 0 {
      Prefix(b, active, s, t, n - 1);
    }
  }

  lemma OneCall(b: State, active: bool, samples: seq<bool>, n: nat)
    requires 1 <= n <= |samples|
    ensures var was, handled := At(b, active, samples, n - 1),
      Handled(At(b, active, samples, n - 1), active, samples[n - 1]);
            && At(b, active, samples, n) == handled.after
            && Presses(b, active, samples, n) ==
               (if was.state == 0 then 0 else Presses(b, active, samples, n - 1)) +
                 (if PressDown in handled.calls then 1 else 0)
  {
  }

  /** A sample that differs, before it counts. */
  lemma Bounce(b: State, active: bool, sample: bool)
    requires b.debounceCnt < 2 && sample != b.level && b.ticks < SHORT_TICKS
    requires if b.level == active then b.state == 1 || b.state == 3 else b.state == 0 || b.state == 2
    ensures Handled(b, active, sample).calls == []
    ensures Handled(b, active, sample).after == b.(debounceCnt := b.debounceCnt + 1,
              ticks := if b.state == 0 then b.ticks else b.ticks + 1,
              event := if b.state == 0 then NonePress else b.event)
  {
  }

  /** The sample that makes the level change. */
  lemma Third(b: State, active: bool, sample: bool)
    requires b.debounceCnt == 2 && sample != b.level && b.ticks < SHORT_TICKS - 1
    requires if b.level == active then b.state == 1 || b.state == 3 else b.state == 0 || b.state == 2
    ensures PressDown in Handled(b, active, sample).calls <==> sample == active
    ensures Handled(b, active, sample).after ==
            if sample != active then State(0, b.repeat, PressUp, 2, 0, sample)
            else if b.state == 0 then State(0, 1, PressDown, 1, 0, sample)
            else State(0, (b.repeat + 1) % 16, PressDown, 3, 0, sample)
  {
  }

  /** Three active samples are a press. */
  lemma ThreeSamplesPress(b: State, active: bool, samples: seq<bool>, n: nat)
    requires n + 3 <= |samples| && forall i :: n <= i < n + 3 ==> samples[i] == active
    requires var c := At(b, active, samples, n);
             c.level == !active && c.debounceCnt == 0 && c.ticks == 0 && (c.state == 0 || c.state == 2)
    ensures var c, d := At(b, active, samples, n), At(b, active, samples, n + 3);
            && d == (if c.state == 0 then State(0, 1, PressDown, 1, 0, active)
                     else State(0, (c.repeat + 1) % 16, PressDown, 3, 0, active))
            && Presses(b, active, samples, n + 3) == 1 + if c.state == 0 then 0 else Presses(b, active, samples, n)
  {
    hide At, Presses, Handled;
    OneCall(b, active, samples, n + 1);
    Bounce(At(b, active, samples, n), active, samples[n]);
    OneCall(b, active, samples, n + 2);
    Bounce(At(b, active, samples, n + 1), active, samples[n + 1]);
    OneCall(b, active, samples, n + 3);
    Third(At(b, active, samples, n + 2), active, samples[n + 2]);
  }

  lemma ThreeSamplesRelease(b: State, active: bool, samples: seq<bool>, n: nat)
    requires n + 3 <= |samples| && forall i :: n <= i < n + 3 ==> samples[i] == !active
    requires var c := At(b, active, samples, n);
             c.level == active && c.debounceCnt == 0 && c.ticks == 0 && (c.state == 1 || c.state == 3)
    ensures At(b, active, samples, n + 3) == State(0, At(b, active, samples, n).repeat, PressUp, 2, 0, !active)
    ensures Presses(b, active, samples, n + 3) == Presses(b, active, samples, n)
  {
    hide At, Presses, Handled;
    OneCall(b, active, samples, n + 1);
    Bounce(At(b, active, samples, n), active, samples[n]);
    OneCall(b, active, samples, n + 2);
    Bounce(At(b, active, samples, n + 1), active, samples[n + 1]);
    OneCall(b, active, samples, n + 3);
    Third(At(b, active, samples, n + 2), active, samples[n + 2]);
  }

  lemma {:induction false} BurstIsCounted(active: bool, k: nat)
    requires 1 <= k
    ensures At(Initial(!active), active, Burst(active, k), 6 * k) == State(0, k % 16, PressUp, 2, 0, !active)
    ensures Presses(Initial(!active), active, Burst(active, k), 6 * k) == k
  {
    hide At, Presses, Handled;
    var b, s, n := Initial(!active), Burst(active, k), 6 * (k - 1);
    Prefix(b, active, Burst(active, k - 1), [active, active, active, !active, !active, !active], n);
    Start(b, active, s);
    if k > 1 {
      BurstIsCounted(active, k - 1);
    }
    ThreeSamplesPress(b, active, s, n);
    ThreeSamplesRelease(b, active, s, n + 3);
  }

  lemma {:induction false} StaysUp(b: State, active: bool, samples: seq<bool>, m: nat, n: nat)
    requires m <= n <= |samples| && n - m <= SHORT_TICKS && forall i :: m <= i < n ==> samples[i] == !active
    requires var c := At(b, active, samples, m);
             c.state == 2 && c.ticks == 0 && c.level == !active && c.debounceCnt == 0
    ensures At(b, active, samples, n) == At(b, active, samples, m).(ticks := n - m)
    ensures Presses(b, active, samples, n) == Presses(b, active, samples, m)
  {
    hide At, Presses;
    if m < n {
      StaysUp(b, active, samples, m, n - 1);
      OneCall(b, active, samples, n);
    }
  }

  /** A sequence of 17 presses that the button calls a single click. */
  lemma SeventeenPressesAreASingleClick(active: bool)
    ensures var samples := Burst(active, 17) + seq(16, _ => !active);
            && Presses(Initial(!active), active, samples, 117) == 17
            && Calls(Initial(!active), active, samples, 118) == [SingleClick]
  {
    hide At, Presses;
    var b, idle := Initial(!active), seq(16, _ => !active);
    var samples := Burst(active, 17) + idle;
    BurstIsCounted(active, 17);
    Prefix(b, active, Burst(active, 17), idle, 102);
    StaysUp(b, active, samples, 102, 117);
  }

  lemma {:induction false} StaysDown(b: State, active: bool, samples: seq<bool>, m: nat, n: nat)
    requires m <= n <= |samples| && n - m <= SHORT_TICKS && forall i :: m <= i < n ==> samples[i] == active
    requires var c := At(b, active, samples, m);
             c.state == 3 && c.ticks == 0 && c.level == active && c.debounceCnt == 0
    ensures At(b, active, samples, n) == At(b, active, samples, m).(ticks := n - m)
  {
    hide At, Presses;
    if m < n {
      StaysDown(b, active, samples, m, n - 1);
      OneCall(b, active, samples, n);
    }
  }

  /** A second press, held so long that it is given up just before the release: the release of the
      button is not reported. */
  lemma ReleaseWithoutPressUp(active: bool) returns (samples: seq<bool>)
    ensures |samples| == 26
    ensures At(Initial(!active), active, samples, 25).level == active
    ensures At(Initial(!active), active, samples, 26).level == !active
    ensures Calls(Initial(!active), active, samples, 26) == []
  {
    hide At, Presses, Handled;
    var b, a, i := Initial(!active), active, !active;
    samples := [a, a, a, i, i, i, a, a, a] + seq(14, _ => a) + [i, i, i];
    Start(b, active, samples);
    ThreeSamplesPress(b, active, samples, 0);
    ThreeSamplesRelease(b, active, samples, 3);
    ThreeSamplesPress(b, active, samples, 6);
    StaysDown(b, active, samples, 9, 23);
    OneCall(b, active, samples, 24);
    Bounce(At(b, active, samples, 23), active, samples[23]);
    OneCall(b, active, samples, 25);
    OneCall(b, active, samples, 26);
    GivenUpThenReleased(At(b, active, samples, 24), active);
  }

  lemma GivenUpThenReleased(b: State, active: bool)
    requires b.state == 3 && b.ticks == SHORT_TICKS && b.level == active && b.debounceCnt == 1
    ensures var c := Handled(b, active, !active).after;
            && c.level == active
            && Handled(c, active, !active).after.level == !active && Handled(c, active, !active).calls == []
  {
  }

  // ------------------------------------------------------------- the handles

  class Button {
    var ticks: nat
    var repeat: nat
    var event: Event
    var state: nat
    var debounceCnt: nat
    var buttonLevel: bool
    const activeLevel: bool
    const buttonId: nat
    var next: Button?

    ghost function Abs(): State
      reads `ticks, `repeat, `event, `state, `debounceCnt, `buttonLevel
    {
      State(ticks, repeat, event, state, debounceCnt, buttonLevel)
    }

    /** button_init */
    constructor (level: bool, activeLevel: bool, buttonId: nat)
      ensures Abs() == Initial(level) && Inv(Abs()) && this.activeLevel == activeLevel && this.buttonId == buttonId
    {
      ticks, repeat, event, state, debounceCnt, buttonLevel := 0, 0, NonePress, 0, 0, level;
      this.activeLevel, this.buttonId, next := activeLevel, buttonId, null;
    }

    method Debounce(sample: bool)
      requires Inv(Abs())
      modifies `ticks, `debounceCnt, `buttonLevel
      ensures Abs() == Sampled(old(Abs()), sample)
    {
      if state > 0 {
        ticks := (ticks + 1) % 0x1_0000;
      }
      if sample != buttonLevel {
        debounceCnt := (debounceCnt + 1) % 8;
        if debounceCnt >= DEBOUNCE_TICKS {
          buttonLevel := sample;
          debounceCnt := 0;
        }
      } else {
        debounceCnt := 0;
      }
    }

    method Switch() returns (calls: seq<Event>)
      modifies `ticks, `repeat, `event, `state
      ensures Outcome(Abs(), calls) == Switched(old(Abs()), activeLevel)
    {
      calls := [];
      if state == 0 {
        if buttonLevel == activeLevel {
          event, calls, ticks, repeat, state := PressDown, [PressDown], 0, 1, 1;
        } else {
          event := NonePress;
        }
      } else if state == 1 {
        if buttonLevel != activeLevel {
          event, calls, ticks, state := PressUp, [PressUp], 0, 2;
        } else if ticks > LONG_TICKS {
          event, calls, state := LongPressStart, [LongPressStart], 5;
        }
      } else if state == 2 {
        if buttonLevel == activeLevel {
          event, calls := PressDown, [PressDown];
          repeat, calls := (repeat + 1) % 16, calls + [PressRepeat];
          ticks, state := 0, 3;
        } else if ticks > SHORT_TICKS {
          if repeat == 1 {
            event, calls := SingleClick, [SingleClick];
          } else if repeat == 2 {
            event, calls := DoubleClick, [DoubleClick];
          }
          state := 0;
        }
      } else if state == 3 {
        if buttonLevel != activeLevel {
          event, calls := PressUp, [PressUp];
          if ticks < SHORT_TICKS {
            ticks, state := 0, 2;
          } else {
            state := 0;
          }
        } else if ticks > SHORT_TICKS {
          state := 0;
        }
      } else if state == 5 {
        if buttonLevel == activeLevel {
          event, calls := LongPressHold, [LongPressHold];
        } else {
          event, calls, state := PressUp, [PressUp], 0;
        }
      } else {
        state := 0;
      }
    }

    /** button_handler */
    method Handler(sample: bool) returns (calls: seq<Event>)
      requires Inv(Abs())
      modifies `ticks, `repeat, `event, `state, `debounceCnt, `buttonLevel
      ensures Outcome(Abs(), calls) == Handled(old(Abs()), activeLevel, sample) && Inv(Abs())
    {
      hide Inv, Sampled, Switched;
      HandlerKeepsInv(Abs(), activeLevel, sample);
      Debounce(sample);
      calls := Switch();
    }
  }

  function Without(items: seq<Button>, handle: Button): seq<Button> {
    if items == [] then [] else if items[0] == handle then items[1..] else [items[0]] + Without(items[1..], handle)
  }

  ghost predicate TakenAt(was: seq<Button>, handle: Button, i: nat, items: seq<Button>) {
    i < |was| && was[i] == handle && items == was[..i] + was[i + 1..]
  }

  class ButtonList {
    var head: Button?
    ghost var items: seq<Button>

    ghost predicate Linked(b: Button?, i: nat)
      requires i <= |items|
      reads `items
    {
      b == if i < |items| then items[i] else null
    }

    ghost predicate Valid()
      reads this, items`next
    {
      && (forall i, j :: 0 <= i < j < |items| ==> items[i] != items[j])
      && Linked(head, 0)
      && forall i {:trigger items[i].next} :: 0 <= i < |items| ==> Linked(items[i].next, i + 1)
    }

    constructor ()
      ensures Valid() && items == []
    {
      head, items := null, [];
    }

    /** button_start */
    method Start(handle: Button) returns (result: int)
      requires Valid()
      modifies this, handle`next
      ensures Valid()
      ensures if handle in old(items) then result == -1 && items == old(items)
        else result == 0 && items == [handle] + old(items)
    {
      var target := head;
      ghost var i := 0;
      while target != null
        invariant i <= |items| && Linked(target, i) && handle !in items[..i]
        decreases |items| - i
      {
        if target == handle {
          return -1;
        }
        target, i := target.next, i + 1;
      }
      assert handle !in items;
      handle.next := head;
      head := handle;
      items := [handle] + items;
      result := 0;
    }

    /** button_stop: `previous` is the handle whose next pointer `curr` points to, or null
        while `curr` points to the head of the list. */
    method Stop(handle: Button)
      requires Valid()
      modifies this, items`next
      ensures Valid() && items == Without(old(items), handle)
      ensures if handle in old(items) then exists i :: TakenAt(old(items), handle, i, items) else items == old(items)
    {
      hide Without;
      var previous: Button? := null;
      var entry := head;
      ghost var i := 0;
      while entry != null
        invariant i <= |items| && Linked(entry, i) && handle !in items[..i] && Valid() && items == old(items)
        invariant if i == 0 then previous == null else previous == items[i - 1]
        decreases |items| - i
      {
        if entry == handle {
          WithoutAt(items, handle, i);
          assert TakenAt(items, handle, i, items[..i] + items[i + 1..]);
          if previous == null {
            head := entry.next;
          } else {
            previous.next := entry.next;
          }
          items := items[..i] + items[i + 1..];
          return;
        }
        previous, entry, i := entry, entry.next, i + 1;
      }
      WithoutNone(items, handle);
    }

    /** button_ticks */
    method Ticks(levels: nat -> bool) returns (calls: seq<seq<Event>>)
      requires Valid() && forall i :: 0 <= i < |items| ==> Inv(items[i].Abs())
      modifies items`ticks, items`repeat, items`event, items`state, items`debounceCnt, items`buttonLevel
      ensures Valid() && |calls| == |items|
      ensures forall i :: 0 <= i < |items| ==>
                && Inv(items[i].Abs())
                && Outcome(items[i].Abs(), calls[i]) ==
                   Handled(old(items[i].Abs()), items[i].activeLevel, levels(items[i].buttonId))
    {
      hide Inv, Handled;
      var target := head;
      calls := [];
      while target != null
        invariant |calls| <= |items| && Linked(target, |calls|)
        invariant forall i :: 0 <= i < |items| ==> Inv(items[i].Abs())
        invariant forall i :: 0 <= i < |calls| ==>
                    Outcome(items[i].Abs(), calls[i]) ==
                    Handled(old(items[i].Abs()), items[i].activeLevel, levels(items[i].buttonId))
        invariant forall i :: |calls| <= i < |items| ==> items[i].Abs() == old(items[i].Abs())
        decreases |items| - |calls|
      {
        var c := target.Handler(levels(target.buttonId));
        calls := calls + [c];
        target := target.next;
      }
    }
  }

  lemma {:induction false} WithoutAt(items: seq<Button>, handle: Button, i: nat)
    requires i < |items| && items[i] == handle && handle !in items[..i]
    ensures Without(items, handle) == items[..i] + items[i + 1..]
  {
    if i > 0 {
      assert items[1..][..i - 1] == items[..i][1..];
      assert items[0] == items[..i][0];
      WithoutAt(items[1..], handle, i - 1);
    }
  }

  lemma {:induction false} WithoutNone(items: seq<Button>, handle: Button)
    requires handle !in items
    ensures Without(items, handle) == items
  {
    if items != [] {
      WithoutNone(items[1..], handle);
    }
  }

  /** Stopping a button undoes starting it. */
  lemma StopUndoesStart(items: seq<Button>, handle: Button)
    requires handle !in items
    ensures Without([handle] + items, handle) == items
  {
  }
}
