# Pomodoro clock: countdown and alternation engine

A Dafny model of the timer engine inside the `PomodoroClock` React component.
The engine alternates between a work interval (the "session") and a break.
Its state has six parts:

- which phase is current (`isSessionTime`);
- the session and break lengths in minutes, each clamped to [1, 60];
- the live countdown `sec`;
- the running flag `timerRunning`;
- the "MM:SS" display text `timerLeft`.

The model is split into three modules:

- `TimeFormat` (`time_format.dfy`) models `formatTime` with JavaScript's
  meanings. `Math.floor` gives the minutes. `%` truncates, so the seconds take
  the sign of the dividend. `toString` prints a '-' for negative numbers, and
  `padStart(2, "0")` pads each field. The module also has a parser for
  "MM:SS" texts, so the formatter can be proved against its inverse.
- `Clock` (`clock.dfy`) models the state record and one pure `State -> State`
  function per handler: start/stop, reset (with its confirmation), and
  increment/decrement of the session and break lengths. It also models the
  effect body as one atomic `Step`. That step is a tick while running with time
  left, an expiry while running at zero, and no change otherwise.
- `ClockProperties` (`clock_properties.dfy`) holds the properties. It runs
  sequences of commands and effect steps. It proves an invariant every
  reachable state keeps, the countdown of a running interval, the hand-over
  between intervals, and the inverse/involution/idempotence laws of the
  handlers.

The component only ever stores `formatTime(x)` into `timerLeft`. So the state
keeps the number `x` (field `shown`), and `Clock.TimerLeft` derives the text
from it. One behaviour follows from this. After an expiry, the display still
shows "00:00" while the counter holds the new length times 60 plus one
second. The next tick shows the full new length. `ClockProperties.Valid`
states this exception exactly.

An expiry seeds `length*60 + 1` (src/App.js:76, 79), so the interval
reaches `length*60` one tick later, which `IntervalCycle` proves. Adjusting
the session length overwrites the counter and the display whatever the phase
and running flag (src/App.js:118-132), and the model does the same.

## Model

| member | source | states |
|---|---|---|
| TimeFormat.NatToDecimal | src/App.js:17-20 | `toString` of a non-negative number is a digit string whose decimal value is that number, with no leading zero ("0" for zero); it has at most two characters exactly when the number is below 100 |
| TimeFormat.IntToDecimal | src/App.js:17-20 | `toString` of a non-negative number is its digit string without leading zero; of a negative number, '-' followed by the digits of its magnitude, again without leading zero (at most three characters when above -100) |
| TimeFormat.FloorDiv | src/App.js:17 | `Math.floor(a / b)` is the unique q with b*q <= a < b*q + b |
| TimeFormat.TruncDiv | src/App.js:20 | the quotient behind JavaScript's `%` is division rounded toward zero: the q for which b*q is the largest multiple of b not beyond a in magnitude, with a's sign (0 when -b < a < b) |
| TimeFormat.JsRemainder | src/App.js:20 | `a % b` is a minus b times the truncated quotient, so it lies in [0, b) for a >= 0 and in (-b, 0] for a < 0 (sign of the dividend) |
| TimeFormat.PadTwo | src/App.js:19 | `padStart(2, "0")` yields two characters from shorter text and returns text of two or more characters unchanged |
| TimeFormat.PadTwoShape | src/App.js:18-20 | the padded text ends with the whole original text and has only '0' in front of it |
| TimeFormat.PadTwoKeepsValue | src/App.js:18-20 | padding a digit field with '0' keeps it all digits and keeps its value |
| TimeFormat.Join | src/App.js:21 | the template `${minutes}:${remainingSeconds}` is as long as both fields plus one, with ':' right after the minutes |
| TimeFormat.JoinParts | src/App.js:21 | the joined text starts with the whole minutes field and ends with the whole seconds field, so both are recoverable from it |
| TimeFormat.FormatTime | src/App.js:16-22 | the text has at least five characters; for non-negative input the third from last is ':'; for negative input it starts with '-' |
| TimeFormat.FormatTimeRoundTrip | src/App.js:16-22 | for every n >= 0, parsing `formatTime(n)` back gives n (minutes unbounded above 99) |
| TimeFormat.FormatTimeInjective | src/App.js:16-22 | different non-negative second counts are displayed as different texts |
| TimeFormat.FormatTimeFiveChars | src/App.js:16-22 | for 0 <= n < 6000 the text is exactly five characters: two digits holding n/60, ':', two digits holding n%60 |
| TimeFormat.FormatTimeNegativeUnreadable | src/App.js:16-22 | a negative count gives a text with a '-' that parses as no time at all |
| TimeFormat.FormatTimeExamples | src/App.js:16-22 | 1500 s shows "25:00", 301 s shows "05:01", 0 s shows "00:00" |
| Clock.TimerLeft | src/App.js:32 | the display text `timerLeft` reads back as exactly the number of seconds it was formatted from, and as no time when that number is negative |
| Clock.Initial | src/App.js:24-32 | the start state is session phase, lengths 25 and 5, 1500 s on the counter, not running, display "25:00" |
| Clock.StartStop | src/App.js:87-89 | the running flag is negated and every other field is unchanged |
| Clock.Reset | src/App.js:99-108 | from any state: session phase, lengths 25 and 5, 1500 s, not running, display "25:00" |
| Clock.ConfirmReset | src/App.js:110-116 | a confirmed reset yields the initial state; an unconfirmed one changes nothing |
| Clock.IncrementSession | src/App.js:118-124 | below 60 the session length goes to L+1 and the counter and display to (L+1)*60, whatever the phase or running flag; the result is min(L+1, 60); at 60 nothing changes; phase, break length and running flag never change |
| Clock.DecrementSession | src/App.js:126-132 | above 1 the session length goes to L-1 and the counter and display to (L-1)*60; the result is max(L-1, 1); at 1 nothing changes; no other field changes |
| Clock.IncrementBreak | src/App.js:134-138 | only the break length changes, to min(L+1, 60); at 60 nothing changes |
| Clock.DecrementBreak | src/App.js:140-144 | only the break length changes, to max(L-1, 1); at 1 nothing changes |
| Clock.Tick | src/App.js:64-68 | while running with sec > 0: the counter drops by one, stays >= 0, and the display shows the new count; nothing else changes |
| Clock.Expire | src/App.js:73-80 | while running at 0: the phase flips, the counter becomes the new phase's length*60 + 1, the clock keeps running, and display and lengths are untouched |
| Clock.Step | src/App.js:61-85 | one effect run is a tick when running with time left, an expiry when running at zero, and no change otherwise; it never changes the running flag or the lengths |
| ClockProperties.ApplyKeepsValid | src/App.js:61-144 | every handler and every effect run keeps the invariant: lengths in [1, 60], 0 <= sec <= 3601, display equal to the counter except "00:00" right after an expiry |
| ClockProperties.RunKeepsValid | src/App.js:61-144 | any sequence of commands and effect runs keeps that invariant |
| ClockProperties.InitialValid | src/App.js:24-32 | the start state satisfies the invariant |
| ClockProperties.ReachableStates | src/App.js:24-144 | in every state reachable from the start, both lengths are in [1, 60], 0 <= sec <= 3601, and the display is five characters: two digits, ':', two digits |
| ClockProperties.StartStopInvolution | src/App.js:87-89 | pressing start/stop twice restores the state |
| ClockProperties.ResetIdempotent | src/App.js:99-108 | reset equals the initial state from anywhere and a second reset changes nothing |
| ClockProperties.SessionAdjustInverse | src/App.js:118-132 | raising then lowering the session length, or lowering then raising it, restores the length and leaves a full interval of it on counter and display, with the other fields untouched |
| ClockProperties.BreakAdjustInverse | src/App.js:134-144 | raising then lowering the break length, or lowering then raising it, leaves the state as it was |
| ClockProperties.PausedIsFrozen | src/App.js:64-80 | once paused, any number of effect runs changes nothing |
| ClockProperties.Countdown | src/App.js:64-68 | a running counter with sec left decreases by exactly one per run for k <= sec runs, the display following, with no phase change |
| ClockProperties.IntervalCycle | src/App.js:61-85 | from an interval start, length*60 runs bring the counter to 0 in the same phase; the next run (the expiry, which takes no time) flips the phase and re-seeds length*60 + 1 while "00:00" stays on display; the run after that, one second later, starts the next interval |
| ClockProperties.DefaultPomodoro | src/App.js:61-85 | after starting from the defaults, 1500 runs reach "00:00" with no expiry on the way; run 1501 switches to a break with 301 s; run 1502 shows "05:00" |

## Left out

- React hooks, `setInterval`/`clearInterval` and the effect clean-up are not modelled, and neither is time. One run of the effect is one atomic `Clock.Step`. A tick `Step` stands for one second: it fires from the 1000 ms interval (src/App.js:64-68). An expiry `Step` takes no time: it runs in the effect pass right after the render in which `sec` became 0 (src/App.js:73-80). So `IntervalCycle`'s length*60 + 2 runs span length*60 + 1 seconds, and "00:00" stays on screen for one second. The interval callback could fire twice before a re-render. The model does not cover that: a late callback with a stale `sec` is not represented.
- The tick callback reads `sec` from its closure for the display and `prevSec` for the counter. In the atomic step both are the same pre-state value.
- Playing the `#beep` audio on expiry (src/App.js:81) and pausing and rewinding it on reset (src/App.js:91-97) are DOM side effects with no effect on timer state.
- The `window.confirm` prompt is a foreign UI call. It becomes the `confirmed` parameter of `Clock.ConfirmReset`.
- Colour theme cycling and the CSS variable writes (src/App.js:33-59) are presentational only.
- JSX rendering (src/App.js:146-226) and `src/index.js` are bootstrapping and layout.
- JavaScript numbers are doubles, and the model's integers are unbounded. So `toString`'s exponent notation above 10^21 is not modelled. Neither is any precision loss above 2^53. The engine's counter never exceeds 3601.
- TimeFormat.PadTwo: models `padStart` only with the target length 2 and fill "0" that the component uses, not the general string method.
