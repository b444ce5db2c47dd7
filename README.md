# Student poll countdown

A model of the countdown hook `useStudentPollTimer` of a classroom polling
front end. Given a poll (its id, a time limit in seconds, an optional start
timestamp in milliseconds and an optional status) and two flags from the page
(`hasSubmitted`, `showResults`), the hook keeps one stored number,
`timeRemaining`, and returns it together with an `MM:SS` rendering and two
flags, `isTimeUp` and `isTimeWarning`.

The model has four modules:

- `PollTypes` (`poll.dfy`): the poll record and the gate. The countdown runs
  only when the start time is truthy (present and not 0), the viewer has not
  submitted, results are not shown, and the status is `active`.
- `Countdown` (`countdown.dfy`): the arithmetic of one update. Elapsed whole
  seconds are the millisecond difference divided by 1000, rounded down.
  Dafny's `/` with a positive divisor rounds down as `Math.floor` does, also
  for negative differences. The remaining time is the limit minus that,
  never below 0.
- `TimeFormat` (`time_format.dfy`): `formatTime` and the flags. It is built
  from models of `Number.prototype.toString` on integers,
  `String.prototype.padStart` and JavaScript's truncating `%`, so it is
  defined for negative inputs as well. Its properties are proved for
  non-negative inputs: at least two minute digits, a colon, exactly two
  second digits, and the parts read back give the input.
- `StudentPollTimer` (`timer_state.dfy`): class `TimerState` holds
  `timeRemaining` and the interval the countdown effect arms. The effect
  body, the interval's update callback and the reset effect are methods. The
  clock reading is a parameter of each call. A ghost field records the clock
  reading of the callback's last write. With it the model proves that, on a
  clock that never goes back, a tick never raises a value the callback itself
  last stored. A value stored by anything else can be raised: after the reset
  stores a limit of 30, a tick 6 seconds before a start time stores 36.

Facts about the code that the model makes explicit:

- A start time in the future is not clamped. The value is the limit plus the
  seconds still to go before the start, rounded up: any part of a second
  counts as a whole one (`Countdown.RemainingBeforeStart`).
- `isTimeUp` tests `timeRemaining <= 0`, not `== 0`
  (`TimeFormat.Present`, `TimeFormat.FlagsPartition`). The two differ only for a negative stored value.
  The update callback never stores one (`Countdown.Remaining`). A negative
  limit is stored unchanged in three places: the initial `useState` value
  (line 19), the gate-failure branch of the countdown effect (line 42) and
  the reset effect (line 80).

## Model

| member | source | states |
|---|---|---|
| `PollTypes.HasStartTime` | src/hooks/useStudentPollTimer.ts:34 | the start time counts as set exactly when it is present and not 0 |
| `PollTypes.Gate` | src/hooks/useStudentPollTimer.ts:33-37 | the countdown runs exactly when the start time is set, the viewer has not submitted, results are hidden and the status is `active`; each failing condition alone stops it |
| `Countdown.ElapsedSeconds` | src/hooks/useStudentPollTimer.ts:48 | elapsed seconds are the floor of the millisecond difference over 1000: `e*1000 <= now - start < (e+1)*1000` |
| `Countdown.Remaining` | src/hooks/useStudentPollTimer.ts:48-49 | an update's value is never negative; it is 0 exactly when the whole limit has elapsed; otherwise the seconds elapsed are exactly `limit - r` |
| `Countdown.RemainingBounded` | src/hooks/useStudentPollTimer.ts:48-49 | with a non-negative limit and a clock at or past the start, the value lies in `[0, limit]` |
| `Countdown.RemainingAtStart` | src/hooks/useStudentPollTimer.ts:48-49 | at the start time the full limit remains |
| `Countdown.RemainingMonotonic` | src/hooks/useStudentPollTimer.ts:48-49 | a later clock reading never gives a larger value |
| `Countdown.RemainingStaysZero` | src/hooks/useStudentPollTimer.ts:49 | once the value is 0 it is 0 for every later clock reading |
| `Countdown.RemainingBeforeStart` | src/hooks/useStudentPollTimer.ts:48-49 | a clock before the start gives more than the limit: the value is not capped |
| `Countdown.ThirtySecondPoll` | src/hooks/useStudentPollTimer.ts:46-50 | a 30-second poll shows 30 at the start, 15 after 15 s and 0 after 31 s |
| `TimeFormat.Digits` | src/hooks/useStudentPollTimer.ts:86 | a natural number's decimal text: only digits, no leading zero, reads back as the number; one digit below 10, at most two below 100 |
| `TimeFormat.DecimalString` | src/hooks/useStudentPollTimer.ts:86 | integer `toString`: a non-negative number's text is digits that read back as the number; a negative number's text starts with `-` and is at least two long (the digits after it are in `DecimalStringCanonical`) |
| `TimeFormat.PadStart` | src/hooks/useStudentPollTimer.ts:86 | `padStart`: the result is as long as the width or the input, whichever is longer, and has only fill characters in front of the input |
| `TimeFormat.PadStartEndsWith` | src/hooks/useStudentPollTimer.ts:86 | the padded text ends with the input unchanged |
| `TimeFormat.DecimalStringCanonical` | src/hooks/useStudentPollTimer.ts:86 | integer `toString` is canonical: never empty; a non-negative number starts with `0` only when it is 0, whose text is exactly `0`; a negative one is `-` and the digits of its absolute value, with no leading zero |
| `TimeFormat.TruncatingRem60` | src/hooks/useStudentPollTimer.ts:85 | JavaScript `% 60`: within `[0, 60)` for a non-negative dividend, within `(-60, 0]` for a negative one, and congruent to the dividend |
| `TimeFormat.PaddedField` | src/hooks/useStudentPollTimer.ts:86 | a non-negative number's text padded to two places is all digits, at least two long, exactly two below 100, and keeps its value |
| `TimeFormat.PaddedFieldLead` | src/hooks/useStudentPollTimer.ts:86 | from 10 on, the padded text starts with a nonzero digit: no padding is added |
| `TimeFormat.FormatTime` | src/hooks/useStudentPollTimer.ts:83-87 | `formatTime` gives at least five characters for every count, negative ones included |
| `TimeFormat.FormatTimeColon` | src/hooks/useStudentPollTimer.ts:83-87 | for every count the colon comes right after the text of the minutes |
| `TimeFormat.FormatTimeShape` | src/hooks/useStudentPollTimer.ts:83-87 | for `s >= 0`: at least two minute digits, `:`, exactly two second digits; the minute digits read as `s / 60`, the second digits as `s % 60`; length 5 below 6000; no leading zero from 600 on |
| `TimeFormat.FormatTimeRoundTrip` | src/hooks/useStudentPollTimer.ts:83-87 | reading the `MM:SS` text of a non-negative count back (minutes times 60 plus two-digit seconds below 60) gives the count |
| `TimeFormat.FormatTime65` | src/hooks/useStudentPollTimer.ts:83-87 | `65` gives `01:05` |
| `TimeFormat.FormatTime0` | src/hooks/useStudentPollTimer.ts:83-87 | `0` gives `00:00` |
| `TimeFormat.FormatTime9` | src/hooks/useStudentPollTimer.ts:83-87 | `9` gives `00:09` |
| `TimeFormat.FormatTime6000` | src/hooks/useStudentPollTimer.ts:83-87 | `6000` gives `100:00`: the minutes are not capped at two digits |
| `TimeFormat.FormatTimeNegative` | src/hooks/useStudentPollTimer.ts:83-87 | `-5` gives `-1:-5`: minutes rounded down, seconds keeping the sign of the count |
| `TimeFormat.IsTimeUp` | src/hooks/useStudentPollTimer.ts:89 | time is up when nothing is left; for a non-negative count, exactly when it is 0 |
| `TimeFormat.IsTimeWarning` | src/hooks/useStudentPollTimer.ts:90 | the warning never shows when time is up, and with neither flag set more than ten seconds remain |
| `TimeFormat.FlagsPartition` | src/hooks/useStudentPollTimer.ts:89-90 | time up and warning are never both set; warning holds exactly for 1..10; every value is time up, warning, or above 10 |
| `TimeFormat.FlagsOfUpdate` | src/hooks/useStudentPollTimer.ts:89-90 | for an update's value: time is up exactly when the whole limit has elapsed; the warning shows exactly in the last ten seconds before that |
| `TimeFormat.Present` | src/hooks/useStudentPollTimer.ts:92-97 | the hook's result carries the stored value; for a non-negative value its text reads back as that value; time is up exactly when the value is at most 0; the warning shows exactly for 1..10; the flags are never both set |
| `StudentPollTimer.TimerState.constructor` | src/hooks/useStudentPollTimer.ts:19 | the stored value starts at the poll's limit with no interval armed |
| `StudentPollTimer.TimerState.Tick` | src/hooks/useStudentPollTimer.ts:46-50 | with an interval armed, stores the remaining time at `now` and changes nothing else; with none, changes nothing; on a clock that has not gone back, never raises a value the callback itself last stored; stays in `[0, limit]` once the clock is past the start |
| `StudentPollTimer.TimerState.RunEffect` | src/hooks/useStudentPollTimer.ts:33-68 | clears the old interval; if the gate fails, pins the value to the limit with no interval; otherwise stores the remaining time at `now` at once and arms an interval with the poll's start and limit |
| `StudentPollTimer.TimerState.ResetOnPollChange` | src/hooks/useStudentPollTimer.ts:79-81 | the stored value becomes the new limit, whatever it held |
| `StudentPollTimer.TimerState.Output` | src/hooks/useStudentPollTimer.ts:89-97 | the returned value is the stored one; a non-negative value's text reads back as the value; time up exactly at or below 0; warning exactly for 1..10; a value last written by the callback is never negative |
| `StudentPollTimer.SubmitDuringCountdown` | src/hooks/useStudentPollTimer.ts:33-43 | for every running poll, submitting pins the value to the limit at once and a later tick leaves it there; with a non-negative limit and a clock past the start, the value before submitting lies in `[0, limit]` |

## Left out

- React's machinery is not modelled: `useState`, the dependency arrays, and the order in which effects run after a render. Each effect body is a method that a caller invokes. On mount and after a change of poll id or limit, React runs the countdown effect and then the reset effect. The reset therefore overwrites the countdown effect's immediate update until the next tick, so a viewer who opens a poll mid-countdown sees the full limit until then. The model has both methods but does not fix their order.
- `setInterval` timing is not modelled. `Tick` may be called with any clock reading; nothing forces one call per second or a clock that never goes back. Properties that need an advancing clock take it as a hypothesis.
- Clearing the interval when the component unmounts is not modelled, because the model has no unmount.
- `Date.now()` is a parameter (`now`) of `RunEffect` and `Tick`.
- `console.log` output is not modelled, including the every-ten-seconds log in the callback. It does not affect the stored value.
- JavaScript's floating-point numbers are modelled as unbounded integers. This leaves out fractional limits, `NaN` start times (falsy in the source), and the `-0` that `%` can give (its text is `0`, as in the model).
