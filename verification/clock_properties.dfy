/**
 What the Pomodoro engine guarantees over sequences of operations: the
 invariant every reachable state keeps, the countdown of a running
 interval, the hand-over from one interval to the next, and the algebra of
 the handlers (inverses, involution, idempotence).
 */
module ClockProperties {
  import opened TimeFormat
  import opened Clock

  /** The user's commands and the one-second clock, as one alphabet. */
  datatype Command =
    | PressStartStop
    | PressReset(confirmed: bool)
    | PressIncrementSession
    | PressDecrementSession
    | PressIncrementBreak
    | PressDecrementBreak
    | ClockTick

  function Apply(s: State, c: Command): State {
    match c
    case PressStartStop => StartStop(s)
    case PressReset(confirmed) => ConfirmReset(s, confirmed)
    case PressIncrementSession => IncrementSession(s)
    case PressDecrementSession => DecrementSession(s)
    case PressIncrementBreak => IncrementBreak(s)
    case PressDecrementBreak => DecrementBreak(s)
    case ClockTick => Step(s)
  }

  /** The state after a sequence of commands, first command first. */
  function Run(s: State, cs: seq<Command>): State
    decreases |cs|
  {
    if cs == [] then s else Run(Apply(s, cs[0]), cs[1..])
  }

  /** The state after `k` runs of the once-per-second effect. */
  function Steps(s: State, k: nat): State
    decreases k
  {
    if k == 0 then s else Steps(Step(s), k - 1)
  }

  /** A counter value that an expiry has just re-seeded: some length in
      [1, 60] times 60, plus one. */
  predicate Reseeded(sec: int) {
    MinLength * 60 + 1 <= sec <= MaxLength * 60 + 1 && sec % 60 == 1
  }

  /** The invariant of every reachable state: both lengths in [1, 60], the
      counter between 0 and a full hour plus one second, and the display
      showing the counter, except right after an expiry, when it still shows
      "00:00" while the counter holds the re-seeded value. */
  predicate Valid(s: State) {
    && InRange(s.sessionLength)
    && InRange(s.breakLength)
    && 0 <= s.sec <= MaxLength * 60 + 1
    && (s.shown == s.sec || (s.shown == 0 && Reseeded(s.sec)))
  }

  lemma InitialValid()
    ensures Valid(Initial())
  {
  }

  /** Every command keeps the invariant. */
  lemma ApplyKeepsValid(s: State, c: Command)
    requires Valid(s)
    ensures Valid(Apply(s, c))
  {
  }

  /** Every sequence of commands keeps the invariant. */
  lemma {:induction false} RunKeepsValid(s: State, cs: seq<Command>)
    requires Valid(s)
    ensures Valid(Run(s, cs))
    decreases |cs|
  {
    if cs != [] {
      ApplyKeepsValid(s, cs[0]);
      RunKeepsValid(Apply(s, cs[0]), cs[1..]);
    }
  }

  /** From the initial state, whatever the user does and however long the
      clock runs: the lengths stay in [1, 60], the counter never goes below
      zero, and the display is a five-character "MM:SS". */
  lemma ReachableStates(cs: seq<Command>)
    ensures var s := Run(Initial(), cs);
      && InRange(s.sessionLength) && InRange(s.breakLength)
      && 0 <= s.sec <= MaxLength * 60 + 1
      && |TimerLeft(s)| == 5 && TimerLeft(s)[2] == ':'
      && IsDigit(TimerLeft(s)[0]) && IsDigit(TimerLeft(s)[1])
      && IsDigit(TimerLeft(s)[3]) && IsDigit(TimerLeft(s)[4])
  {
    InitialValid();
    RunKeepsValid(Initial(), cs);
    FormatTimeFiveChars(Run(Initial(), cs).shown);
  }

  /** Pressing start/stop twice changes nothing. */
  lemma StartStopInvolution(s: State)
    ensures StartStop(StartStop(s)) == s
  {
  }

  /** Reset gives the initial state from anywhere, and a second reset
      changes nothing. */
  lemma ResetIdempotent(s: State)
    ensures Reset(s) == Initial()
    ensures Reset(Reset(s)) == Reset(s)
  {
  }

  /** Raising and then lowering the session length, or lowering and then
      raising it, restores the length and leaves the counter and the display
      at a full interval of that length. */
  lemma SessionAdjustInverse(s: State)
    requires InRange(s.sessionLength)
    ensures s.sessionLength < MaxLength ==>
      var r := DecrementSession(IncrementSession(s));
      && r.sessionLength == s.sessionLength
      && r.sec == s.sessionLength * 60
      && r.shown == r.sec
      && r.(sec := s.sec, shown := s.shown) == s
    ensures s.sessionLength > MinLength ==>
      var r := IncrementSession(DecrementSession(s));
      && r.sessionLength == s.sessionLength
      && r.sec == s.sessionLength * 60
      && r.shown == r.sec
      && r.(sec := s.sec, shown := s.shown) == s
  {
  }

  /** Raising the break length and lowering it again is no change at all,
      and so is lowering it and raising it again. */
  lemma BreakAdjustInverse(s: State)
    requires InRange(s.breakLength)
    ensures s.breakLength < MaxLength ==> DecrementBreak(IncrementBreak(s)) == s
    ensures s.breakLength > MinLength ==> IncrementBreak(DecrementBreak(s)) == s
  {
  }

  /** Once paused, the clock is frozen: no number of effect runs changes
      anything. */
  lemma {:induction false} PausedIsFrozen(s: State, k: nat)
    requires !s.running
    ensures Steps(s, k) == s
  {
    if k > 0 {
      PausedIsFrozen(Step(s), k - 1);
    }
  }

  /** Running `a` steps and then `b` more is running `a + b` steps. */
  lemma {:induction false} StepsAdd(s: State, a: nat, b: nat)
    ensures Steps(s, a + b) == Steps(Steps(s, a), b)
    decreases a
  {
    if a > 0 {
      StepsAdd(Step(s), a - 1, b);
    }
  }

  /** A running countdown with `sec` seconds left ticks down one second per
      step, with the display following, and keeps its phase. */
  lemma {:induction false} Countdown(s: State, k: nat)
    requires s.running && 0 < k <= s.sec
    ensures Steps(s, k) == s.(sec := s.sec - k, shown := s.sec - k)
    decreases k
  {
    if k > 1 {
      Countdown(Step(s), k - 1);
    }
  }

  /** The state at the start of a running interval: a full interval of the
      current phase's length on the counter and on the display. */
  predicate IntervalStart(s: State) {
    && s.running
    && s.sec == LengthOf(s, s.phase) * 60
    && s.shown == s.sec
  }

  /** One whole interval: from its start, the counter reaches zero after
      length*60 steps without leaving the phase; the next step is the expiry,
      which flips the phase and re-seeds the counter while the display still
      shows "00:00"; one step later the next interval starts. */
  lemma IntervalCycle(s: State)
    requires IntervalStart(s) && InRange(s.sessionLength) && InRange(s.breakLength)
    ensures var n := LengthOf(s, s.phase) * 60;
      && (forall k :: 0 <= k <= n ==> Steps(s, k).phase == s.phase)
      && Steps(s, n).sec == 0 && Steps(s, n).shown == 0
      && Steps(s, n + 1).phase == Other(s.phase)
      && Steps(s, n + 1).sec == LengthOf(s, Other(s.phase)) * 60 + 1
      && Steps(s, n + 1).shown == 0
      && IntervalStart(Steps(s, n + 2))
      && Steps(s, n + 2).phase == Other(s.phase)
      && Steps(s, n + 2).sessionLength == s.sessionLength
      && Steps(s, n + 2).breakLength == s.breakLength
  {
    var n := LengthOf(s, s.phase) * 60;
    forall k | 0 <= k <= n
      ensures Steps(s, k).phase == s.phase
    {
      if k > 0 {
        Countdown(s, k);
      }
    }
    Countdown(s, n);
    var z := Steps(s, n);
    StepsAdd(s, n, 1);
    StepsAdd(s, n, 2);
    var e := Step(z);
    assert Steps(z, 1) == e;
    assert Steps(z, 2) == Step(e);
  }

  /** The default run: starting the clock from the initial state, 1500
      steps bring the session to "00:00" with no expiry on the way, the 1501st
      step switches to a break of 5*60+1 seconds, and the 1502nd shows "05:00". */
  lemma DefaultPomodoro()
    ensures var s := StartStop(Initial());
      && (forall k :: 0 <= k <= 1500 ==> Steps(s, k).phase == Session)
      && Steps(s, 1500).sec == 0 && TimerLeft(Steps(s, 1500)) == "00:00"
      && Steps(s, 1501).phase == Break && Steps(s, 1501).sec == 301
      && Steps(s, 1502).sec == 300 && TimerLeft(Steps(s, 1502)) == "05:00"
  {
    var s := StartStop(Initial());
    IntervalCycle(s);
    FormatTimeExamples();
    assert FormatTime(300) == "05:00" by {
      assert NatToDecimal(5) == "5";
      assert NatToDecimal(0) == "0";
    }
  }
}
