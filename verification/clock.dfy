/**
 The countdown and alternation engine of the Pomodoro clock.

 The component keeps six pieces of state: whether the work interval
 (the "session") or the break is current, the two configured lengths in
 minutes, the live countdown `sec`, whether the countdown runs, and the
 display text `timerLeft`. Each handler and the once-per-second effect is a
 pure function from one `State` to the next.

 The component only ever writes `formatTime(x)` into `timerLeft`, so the
 model keeps the number `x` (field `shown`) and derives the text with
 `TimerLeft`.
 */
module Clock {
  import opened TimeFormat

  const DefaultSessionLength: int := 25
  const DefaultBreakLength: int := 5
  const MinLength: int := 1
  const MaxLength: int := 60

  /** Which interval governs the countdown (`isSessionTime` in the component). */
  datatype Phase = Session | Break

  function Other(p: Phase): (q: Phase)
    ensures q != p
  {
    if p == Session then Break else Session
  }

  datatype State = State(
    phase: Phase,
    sessionLength: int,  // minutes
    breakLength: int,    // minutes
    sec: int,            // seconds left in the current interval
    running: bool,       // `timerRunning`
    shown: int           // the seconds the display text was last formatted from
  )

  /** The "MM:SS" text on display (`timerLeft`). It reads back as the number
      it was formatted from, and reads as no time at all when that number is
      negative. */
  function TimerLeft(s: State): (t: string)
    ensures s.shown >= 0 ==> ParseTime(t).Some? && ParseTime(t).value == s.shown
    ensures s.shown < 0 ==> ParseTime(t).None?
  {
    if s.shown >= 0 then FormatTimeRoundTrip(s.shown); FormatTime(s.shown)
    else FormatTimeNegativeUnreadable(s.shown); FormatTime(s.shown)
  }

  /** The configured length, in minutes, of the given phase. */
  function LengthOf(s: State, p: Phase): int {
    if p == Session then s.sessionLength else s.breakLength
  }

  predicate InRange(length: int) {
    MinLength <= length <= MaxLength
  }

  function Min(a: int, b: int): int {
    if a <= b then a else b
  }

  function Max(a: int, b: int): int {
    if a <= b then b else a
  }

  /** The state the component starts in: session phase, default lengths, a
      full session on the counter, not running. */
  function Initial(): (s: State)
    ensures s.phase == Session && !s.running
    ensures s.sessionLength == 25 && s.breakLength == 5
    ensures s.sec == 1500 && s.shown == s.sec && TimerLeft(s) == "25:00"
  {
    FormatTimeExamples();
    var sessionLength := DefaultSessionLength;
    State(Session, sessionLength, DefaultBreakLength, sessionLength * 60, false, sessionLength * 60)
  }

  /** `startStopTimer`: flips the running flag and nothing else. */
  function StartStop(s: State): (r: State)
    ensures r.running == !s.running
    ensures r.(running := s.running) == s
  {
    s.(running := !s.running)
  }

  /** `resetTimer`: back to the defaults, stopped, whatever the state was. */
  function Reset(s: State): (r: State)
    ensures r.phase == Session && !r.running
    ensures r.sessionLength == 25 && r.breakLength == 5
    ensures r.sec == 1500 && r.shown == r.sec && TimerLeft(r) == "25:00"
  {
    FormatTimeExamples();
    var initialTimeInSeconds := DefaultSessionLength * 60;
    State(Session, DefaultSessionLength, DefaultBreakLength, initialTimeInSeconds, false,
          initialTimeInSeconds)
  }

  /** The reset button: the reset happens only when the user confirms. */
  function ConfirmReset(s: State, confirmed: bool): (r: State)
    ensures confirmed ==> r == Initial()
    ensures !confirmed ==> r == s
  {
    if confirmed then Reset(s) else s
  }

  /** `incrementSession`: one more minute of session, up to 60. The counter
      and the display are overwritten with the new session length, whatever
      the phase and whether or not the countdown runs. */
  function IncrementSession(s: State): (r: State)
    ensures r.(sessionLength := s.sessionLength, sec := s.sec, shown := s.shown) == s
    ensures InRange(s.sessionLength) ==> r.sessionLength == Min(s.sessionLength + 1, MaxLength)
    ensures s.sessionLength < MaxLength ==>
      && r.sessionLength == s.sessionLength + 1
      && r.sec == r.sessionLength * 60
      && r.shown == r.sec
    ensures s.sessionLength >= MaxLength ==> r == s
  {
    if s.sessionLength < 60 then
      var seconds := (s.sessionLength + 1) * 60;
      s.(sessionLength := s.sessionLength + 1, sec := seconds, shown := seconds)
    else
      s
  }

  /** `decrementSession`: one minute less of session, down to 1, with the
      same overwrite of the counter and the display. */
  function DecrementSession(s: State): (r: State)
    ensures r.(sessionLength := s.sessionLength, sec := s.sec, shown := s.shown) == s
    ensures InRange(s.sessionLength) ==> r.sessionLength == Max(s.sessionLength - 1, MinLength)
    ensures s.sessionLength > MinLength ==>
      && r.sessionLength == s.sessionLength - 1
      && r.sec == r.sessionLength * 60
      && r.shown == r.sec
    ensures s.sessionLength <= MinLength ==> r == s
  {
    if s.sessionLength > 1 then
      var seconds := (s.sessionLength - 1) * 60;
      s.(sessionLength := s.sessionLength - 1, sec := seconds, shown := seconds)
    else
      s
  }

  /** `incrementBreak`: one more minute of break, up to 60; nothing else
      changes, so a running countdown is left alone. */
  function IncrementBreak(s: State): (r: State)
    ensures r.(breakLength := s.breakLength) == s
    ensures InRange(s.breakLength) ==> r.breakLength == Min(s.breakLength + 1, MaxLength)
    ensures s.breakLength < MaxLength ==> r.breakLength == s.breakLength + 1
    ensures s.breakLength >= MaxLength ==> r == s
  {
    if s.breakLength < 60 then s.(breakLength := s.breakLength + 1) else s
  }

  /** `decrementBreak`: one minute less of break, down to 1; nothing else
      changes. */
  function DecrementBreak(s: State): (r: State)
    ensures r.(breakLength := s.breakLength) == s
    ensures InRange(s.breakLength) ==> r.breakLength == Max(s.breakLength - 1, MinLength)
    ensures s.breakLength > MinLength ==> r.breakLength == s.breakLength - 1
    ensures s.breakLength <= MinLength ==> r == s
  {
    if s.breakLength > 1 then s.(breakLength := s.breakLength - 1) else s
  }

  /** The interval callback: one second off the counter, and the display
      shows the new count. */
  function Tick(s: State): (r: State)
    requires s.running && s.sec > 0
    ensures r.sec == s.sec - 1 && r.sec >= 0
    ensures r.shown == r.sec
    ensures r.(sec := s.sec, shown := s.shown) == s
  {
    s.(shown := s.sec - 1, sec := s.sec - 1)
  }

  /** The expiry branch of the effect: the phase flips and the counter is
      re-seeded with the new phase's length plus one second. The display is
      not touched and the countdown keeps running. */
  function Expire(s: State): (r: State)
    requires s.running && s.sec == 0
    ensures r.phase == Other(s.phase) && r.running
    ensures r.sec == LengthOf(s, r.phase) * 60 + 1
    ensures r.(phase := s.phase, sec := s.sec) == s
  {
    if s.phase == Session then
      s.(phase := Break, sec := s.breakLength * 60 + 1)
    else
      s.(phase := Session, sec := s.sessionLength * 60 + 1)
  }

  /** One run of the effect, taken as a single atomic update: a tick while
      running with time left, an expiry while running at zero, and no change
      otherwise. */
  function Step(s: State): (r: State)
    ensures s.running && s.sec > 0 ==> r == Tick(s)
    ensures s.running && s.sec == 0 ==> r == Expire(s)
    ensures !s.running || s.sec < 0 ==> r == s
    ensures r.running == s.running
    ensures r.sessionLength == s.sessionLength && r.breakLength == s.breakLength
  {
    if s.running && s.sec > 0 then Tick(s)
    else if s.sec == 0 && s.running then Expire(s)
    else s
  }
}
