# Stopwatch and countdown timer engines

A model of the timing logic of a two-tab React Native app (App.js): a stopwatch
that counts seconds up while it runs, and a countdown timer that counts a
configured number of seconds down to zero and then signals that it has finished.
Both screens show their count through the same `formatTime` helper, which renders a
number of seconds as `HH:MM:SS`.

- `format_time.dfy`, module `TimeFormat`: `formatTime` as a function (App.js has two
  identical copies, lines 23-29 and 67-73; it is modelled once). The JavaScript
  operators it uses are written out: `%` truncates (its result has the sign of the
  dividend), `Math.floor` of a quotient, the template string's rendering of an
  integer (with a minus sign for a negative one), and `slice(-2)`. Lemmas give the
  display's shape, the value of each field, the reading-back round trip below one
  hundred hours, the wrap of the hours field at one hundred hours, and sample
  displays.
- `stopwatch.dfy`, module `StopwatchScreen`: the state `time`/`running` as a value
  (`StopwatchState`) with its transitions (`Ticked`, `Toggled`), and the class
  `Stopwatch` whose fields the methods `Tick` and `Toggle` update in place, each
  tied to the transition function. Lemmas about runs of ticks and presses.
- `timer.dfy`, module `TimerScreen`: the state `time`/`running`/`finished` as a value
  (`CountdownState`) with its transitions (`Started`, `Ticked`, `Evaluated`), and the
  class `Countdown` with methods `Start`, `Tick` and `Evaluate`. Lemmas: the
  invariant (time never negative, finished only when stopped at zero) over any
  sequence of events, the exact course of a run, completion happening once, and a
  negative total leaving the countdown stuck.

The one-second interval is not modelled as a scheduler: each firing is an explicit
call to `Tick`, and each run of the countdown's effect is an explicit, atomic call to
`Evaluate`. A "second" of a running countdown (`TimerScreen.Elapsed`) is a tick
followed by the effect, because the effect re-runs whenever `time` changes.

Behaviour kept as the code has it:
- The hours field keeps only the last two characters of `"0" + hours`, so from one
  hundred hours on the hours are shown modulo 100 (360000 seconds shows
  `00:00:00`); they are not widened.
- The stopwatch has a single Start/Stop button that flips `running`; there are no
  separate start and stop operations, so pressing twice restores the state rather
  than being idempotent.
- The countdown has no stop button; it stops only by reaching zero.
- A negative total (from negative input) is loaded as it is: neither the tick nor
  the completion applies, so the countdown stays running at that value and never
  finishes (`TimerScreen.NegativeTotalIsStuck`). Its display may show minus signs, but
  not always: a field keeps its sign only while its magnitude is one digit, and a
  negative multiple of 60 leaves a zero remainder, so -5 shows `-1:-1:-5`, -15 shows
  `-1:-1:15`, and -36000 shows `10:00:00`, like a ten-hour countdown
  (`TimeFormat.FormatTimeNegative`).

## Model

| member | source | states |
|---|---|---|
| TimeFormat.Decimal | App.js:24-27 | the rendering of a non-negative integer is a non-empty string of digits, ending in the digit of `n % 10`, of length one exactly for `n < 10` |
| TimeFormat.DecimalRoundTrip | App.js:24-27 | reading the rendered digits back gives `n`, and only zero's rendering starts with '0' |
| TimeFormat.NumberString | App.js:24-27 | the rendering of any integer is non-empty and starts with '-' exactly when it is negative |
| TimeFormat.SliceLast2 | App.js:24-27 | `slice(-2)` yields two characters, or the whole string when it is shorter |
| TimeFormat.SliceLast2IsSuffix | App.js:24-27 | what `slice(-2)` keeps is the suffix of its input of that length |
| TimeFormat.JsRem | App.js:24-26 | JavaScript's `%` by a positive divisor agrees with the mathematical remainder for a non-negative dividend and lies in `(-b, 0]` for a negative one |
| TimeFormat.JsRemTruncates | App.js:24-26 | `a - a % b` is a multiple of `b` for every dividend, so with `JsRem`'s range the remainder is the one of the quotient truncated towards zero; for a negative dividend it is minus the remainder of `-a` |
| TimeFormat.FloorDiv | App.js:25-27 | `Math.floor(a / b)` is the `q` with `q*b <= a < q*b + b` |
| TimeFormat.Pad2 | App.js:24-27 | each padded field is exactly two characters long, for every integer |
| TimeFormat.FormatTime | App.js:23-29 | for every integer the display is 8 characters with ':' at indices 2 and 5 |
| TimeFormat.Pad2Natural | App.js:24-27 | for a natural number the field is the tens and units digits of `n % 100`: a leading '0' below ten, and only the last two digits from 100 on |
| TimeFormat.Pad2Small | App.js:24-27 | below ten the field is '0' then the digit; from ten to ninety-nine it is the number's own decimal rendering |
| TimeFormat.FormatTimeFields | App.js:23-29 | for a natural time the display is `DD:DD:DD` (a digit at every other index), the seconds field reads `time % 60`, the minutes field `(time / 60) % 60` and the hours field `(time / 3600) % 100` |
| TimeFormat.FormatTimeRoundTrip | App.js:23-29 | reading the display back as `h*3600 + m*60 + s` gives `time % 360000`, hence `time` itself below one hundred hours |
| TimeFormat.FormatTimeInjective | App.js:23-29 | below one hundred hours two different times never share a display |
| TimeFormat.FormatTimeWraps | App.js:27 | the display of `time + 360000` equals that of `time`: the hours field wraps at one hundred hours |
| TimeFormat.FormatTimeExamples | App.js:23-29 | 0, 61 and 3661 seconds show as `00:00:00`, `00:01:01` and `01:01:01` |
| TimeFormat.FormatTimeLargest | App.js:23-29 | 359999 seconds shows as `99:59:59` |
| TimeFormat.FormatTimeHundredHours | App.js:27 | 360000 seconds (one hundred hours) shows as `00:00:00` |
| TimeFormat.FormatTimeNegative | App.js:23-29 | negative times keep a field's minus sign only while it is one digit: -5 shows as `-1:-1:-5`, -15 as `-1:-1:15`, and -36000 as `10:00:00`, the same display as +36000 |
| StopwatchScreen.TickAddsOneWhileRunning | App.js:11-21 | a tick while running adds exactly one second, while stopped changes nothing, and never changes `running` |
| StopwatchScreen.ToggleKeepsTime | App.js:34 | the button flips `running`, never resets `time`, and pressing twice restores the state |
| StopwatchScreen.TicksCount | App.js:11-21 | `n` ticks while running add exactly `n`; while stopped they leave the state unchanged |
| StopwatchScreen.StartTickFiveStop | App.js:8-34 | from mount, start then five ticks shows 5 seconds running; stopping then and ticking any number of times keeps 5 seconds |
| StopwatchScreen.RunBounds | App.js:8-34 | over any sequence of ticks and presses the count never decreases and grows by at most the number of ticks; `running` ends flipped once per press |
| StopwatchScreen.RunWithoutPresses | App.js:11-21 | with no press, the count grows by exactly the number of ticks if running and not at all if stopped |
| StopwatchScreen.Stopwatch.constructor | App.js:8-9 | the screen mounts at zero seconds, stopped |
| StopwatchScreen.Stopwatch.Tick | App.js:14-16 | the interval callback's new state is `Ticked` of the old one |
| StopwatchScreen.Stopwatch.Toggle | App.js:34 | the button's new state is `Toggled` of the old one |
| StopwatchScreen.Stopwatch.Display | App.js:33 | the stopwatch always shows a `DD:DD:DD` string |
| StopwatchScreen.StartTickFiveStopDemo | App.js:8-34 | on the class: start, five ticks, stop, two more ticks leaves 5 seconds, stopped |
| TimerScreen.StartLoadsTotal | App.js:60-65 | start loads `h*3600 + m*60 + s`, sets `running` and clears `finished` from any state; the result satisfies the invariant exactly when the total is non-negative |
| TimerScreen.TickTakesOneSecond | App.js:49-52 | a tick changes the state exactly when running with `time > 0`, then subtracts exactly one, and keeps the invariant (time never below zero) |
| TimerScreen.EvaluateCompletesOnce | App.js:53-56 | the effect changes the state exactly when running at zero, then gives `time = 0`, stopped, finished; it keeps the invariant, is idempotent, and a tick after completion changes nothing |
| TimerScreen.NegativeTotalIsStuck | App.js:47-58 | after a start with a negative total, no sequence of ticks and evaluations changes the state: it stays running and never finishes |
| TimerScreen.FinishedStaysFinished | App.js:47-58 | a finished countdown stays stopped at zero and finished however many seconds pass |
| TimerScreen.CountsDownThenFinishes | App.js:47-58 | a countdown running with `t > 0` left shows `t - k` and runs for `k < t` seconds, and is finished at zero from second `t` on |
| TimerScreen.CountdownRun | App.js:47-65 | after start with a non-negative total `n` and the effect, `k` seconds later the countdown runs unfinished with `n - k` left while `k < n`, and is finished at zero for every `k >= n`, so completion occurs once per run; a zero total finishes at the first evaluation |
| TimerScreen.ThreeSecondsAndZero | App.js:47-65 | start with 0:0:3, three ticks and an evaluation end at `time = 0`, stopped, finished, and a further tick is a no-op; start with 0:0:0 is finished by the first evaluation |
| TimerScreen.RunKeepsValid | App.js:43-65 | over any sequence of starts with non-negative totals, ticks and evaluations, the time stays non-negative and `finished` holds only of a countdown stopped at zero |
| TimerScreen.Countdown.constructor | App.js:43-45 | the screen mounts with zero seconds, neither running nor finished |
| TimerScreen.Countdown.Start | App.js:60-65 | `startTimer`'s new state is `Started` of the parsed inputs, whatever the old state |
| TimerScreen.Countdown.Tick | App.js:50-52 | the interval callback's new state is `Ticked` of the old one |
| TimerScreen.Countdown.Evaluate | App.js:47-56 | the effect's new state is `Evaluated` of the old one |
| TimerScreen.Countdown.Display | App.js:99 | the timer always shows 8 characters with ':' at indices 2 and 5, of the form `DD:DD:DD` while the time is non-negative |
| TimerScreen.ThreeSecondDemo | App.js:43-65 | on the class: start 0:0:3, the effect, then three ticks each followed by the effect, and a fourth tick and the effect, ends at zero, stopped, finished |

## Left out

- JSX rendering, styles, the bottom-tab navigation and icons (App.js:31-36, 75-150 apart from the `formatTime(time)` calls at lines 33 and 99): user-interface glue over libraries that are not part of this model.
- `setInterval`, `clearInterval` and the effects' clean-up (App.js:14, 18, 20, 50, 57): the host scheduler. A firing is an explicit `Tick`, an effect run an explicit `Evaluate`, each atomic; React's batching of `setState` calls is not modelled.
- The three text inputs and their `useState('0')` strings (App.js:40-42, 77-97), and `parseInt` (App.js:61): `Start` takes the three values already as integers. Text that does not parse gives `NaN` in JavaScript, which would propagate into `time` and the display; that case is not modelled.
- JavaScript numbers are doubles; the model uses unbounded integers, so precision loss above 2^53 and the exponent notation used when rendering numbers of 10^21 and more are not modelled.
- StopwatchScreen.RunBounds: bounds the count over a sequence that mixes ticks and presses rather than giving it exactly; the exact count is given for press-free sequences by RunWithoutPresses and for ticks alone by TicksCount.
