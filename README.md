# Stopwatch controller

A model of the stopwatch behind the single screen of the `task_3_stopwatch` Android app
(`MainActivity`). The controller keeps four fields: `isRunning`, `startTime`,
`elapsedTime` and `lapTimes`, the last holding laps newest first. It reacts to four
kinds of events: the start/stop button (`toggleStopwatch`), a firing of the
self-rescheduling refresh callback (the "tick"), the lap button (`recordLap`) and the
reset button (`resetStopwatch`). It shows times as `HH:MM:SS.mmm` and labels lap row
`position` as `Lap (size - position)`.

The project has three modules:

- `TimeFormat` (`time_format.dfy`). This is the pure part. It holds Java's truncating `/`
  and `%` on longs (`Quot`, `Rem`), the hours/minutes/seconds/milliseconds split, the
  `%0Nd` padding and the full display text. The split is proved to recombine to its input,
  to stay in clock-face ranges and to be the inverse of `Combine`. The display text is
  proved to read back (`ParseTime`) as the count it was printed from.
- `StopwatchModel` (`stopwatch_model.dfy`). The controller's fields as a value
  (`Snapshot`), one function per handler, and a log of events (`Log`) with `Run`, which
  replays a log. The lemmas here cover any sequence of events on a clock that never
  runs backward. They show that the fields stay consistent and that elapsed time and
  laps are only lost on reset. A stopped watch stays frozen, and pause/resume keeps the
  time already measured. They also show that the row labelled `Lap k` holds the k-th lap
  recorded.
- `StopwatchController` (`stopwatch.dfy`). The class `Stopwatch`, with the Java fields
  updated in place. Each handler is a method whose `ensures` ties the new fields to the
  model function applied to the old ones. A ghost event log and a ghost latest clock
  reading let `Valid()` carry the model's invariant. Two client methods run the
  scenarios start/lap/stop/reset and pause/resume on an object.

The wall clock (`System.currentTimeMillis()`) becomes a parameter `now` of the handlers
that read it. The only precondition put on callers is that `now` is never earlier than
the previous reading.

Behaviour of `MainActivity` worth noting:

- The time format uses minimum widths (`%02d`), not fixed widths. From 100 hours on,
  the hours take more than two digits (`TimeFormat.FormatTimeRoundTrip`,
  `TimeFormat.HoursBelowHundred`).
- Stopping only clears `isRunning`. Pending callbacks are not cancelled; a callback that
  fires later finds the flag down and does nothing (`StopwatchModel.StoppedIsFrozen`).
- Reset sets the fields directly and leaves `startTime` as it was.
- Elapsed time advances only when a refresh fires. Stopping keeps the value of the last
  refresh, so the time between that refresh and the stop is not counted
  (`StopwatchController.StartLapStopReset`). A start followed at once by a stop leaves
  the elapsed time where it was.

## Model

| member | source | states |
|---|---|---|
| `TimeFormat.Quot` | app/src/main/java/com/example/task_3_stopwatch/MainActivity.java:125-127 | Java's `/`: truncation toward zero, so `q*b <= a < q*b + b` for a non-negative dividend and `q*b - b < a <= q*b` for a non-positive one |
| `TimeFormat.Rem` | app/src/main/java/com/example/task_3_stopwatch/MainActivity.java:126-128 | Java's `%`: the remainder lies in `[0, b)` for a non-negative dividend and in `(-b, 0]` for a non-positive one |
| `TimeFormat.Split` | app/src/main/java/com/example/task_3_stopwatch/MainActivity.java:125-128 | for a count `m >= 0`: hours `>= 0`, `0 <= minutes < 60`, `0 <= seconds < 60`, `0 <= millis < 1000` |
| `TimeFormat.SplitRecombines` | app/src/main/java/com/example/task_3_stopwatch/MainActivity.java:125-128 | for every count, `hours*3600000 + minutes*60000 + seconds*1000 + millis` equals the count |
| `TimeFormat.SplitNegative` | app/src/main/java/com/example/task_3_stopwatch/MainActivity.java:125-128 | a negative count splits into the negated fields of its magnitude (Java truncation toward zero) |
| `TimeFormat.SplitOfCombine` | app/src/main/java/com/example/task_3_stopwatch/MainActivity.java:154-157 | fields in clock-face ranges are exactly what the split gives back: the split is the inverse of recombination |
| `TimeFormat.Digits` | app/src/main/java/com/example/task_3_stopwatch/MainActivity.java:130-131 | decimal printing gives only digits, at least one, at most two below 100 and at most three below 1000, and no leading zero (the first digit is `0` exactly for 0) |
| `TimeFormat.ValueOfDigits` | app/src/main/java/com/example/task_3_stopwatch/MainActivity.java:130-131 | the printed digits spell the number printed |
| `TimeFormat.PadZeros` | app/src/main/java/com/example/task_3_stopwatch/MainActivity.java:130 | `%0Nd` fills with zeros between the sign (if any) and the digits, so with `Pad`'s contract the text is fixed character by character |
| `TimeFormat.PadNonNegative` | app/src/main/java/com/example/task_3_stopwatch/MainActivity.java:130-131 | `%0Nd` of a non-negative number is all digits, exactly `max(N, digit count)` long (no padding when the number is wider), and spells the number |
| `TimeFormat.Pad` | app/src/main/java/com/example/task_3_stopwatch/MainActivity.java:130 | `%0Nd`: exactly `max(N, digit count)` characters, the sign counted for a negative number; ending in the decimal digits of the magnitude; a leading `-` exactly for a negative number, all digits otherwise |
| `TimeFormat.FormatTime` | app/src/main/java/com/example/task_3_stopwatch/MainActivity.java:124-131 | the display text `%02d:%02d:%02d.%03d` of the split fields, never shorter than 12 characters |
| `TimeFormat.HoursBelowHundred` | app/src/main/java/com/example/task_3_stopwatch/MainActivity.java:125-131 | the hours field is below 100 exactly when the count is below 100 hours |
| `TimeFormat.FormatTimeRoundTrip` | app/src/main/java/com/example/task_3_stopwatch/MainActivity.java:124-131 | the text shown for a count `>= 0` has the `H:MM:SS.mmm` shape, its four numbers read back as exactly the split fields and together as the count; it is exactly 12 characters iff the count is below 100 hours |
| `TimeFormat.PrintedFieldsReadBack` | app/src/main/java/com/example/task_3_stopwatch/MainActivity.java:130-131 | clock-face fields printed `%02d:%02d:%02d.%03d` give well-formed text that spells back exactly those fields, 10 characters longer than the hours |
| `TimeFormat.Render` | app/src/main/java/com/example/task_3_stopwatch/MainActivity.java:124-131 | the four-line split followed by `String.format` yields the display text, which reads back as the count when it is `>= 0` |
| `StopwatchModel.Started` | app/src/main/java/com/example/task_3_stopwatch/MainActivity.java:85-88 | from stopped: running, elapsed and laps kept, start reference `now - elapsed`; while running nothing changes |
| `StopwatchModel.Stopped` | app/src/main/java/com/example/task_3_stopwatch/MainActivity.java:102-104 | only the running flag changes, to false |
| `StopwatchModel.Toggled` | app/src/main/java/com/example/task_3_stopwatch/MainActivity.java:74-83 | the running flag flips; elapsed and laps are kept; starting puts the start reference at `now - elapsed` |
| `StopwatchModel.Ticked` | app/src/main/java/com/example/task_3_stopwatch/MainActivity.java:92-93 | while running, `startTime + elapsed == now` afterwards and nothing else changes; while stopped nothing changes |
| `StopwatchModel.Lapped` | app/src/main/java/com/example/task_3_stopwatch/MainActivity.java:116-118 | while running the current elapsed time goes in front of the unchanged older laps; while stopped nothing changes |
| `StopwatchModel.Cleared` | app/src/main/java/com/example/task_3_stopwatch/MainActivity.java:106-109 | stopped, elapsed 0, no laps; `startTime` kept |
| `StopwatchModel.StepKeepsConsistent` | app/src/main/java/com/example/task_3_stopwatch/MainActivity.java:85-118 | every handler keeps elapsed `>= 0`, running start reference not past the clock, laps between 0 and elapsed and newest-first non-increasing; only reset lowers elapsed |
| `StopwatchModel.RunKeepsConsistent` | app/src/main/java/com/example/task_3_stopwatch/MainActivity.java:85-118 | any sequence of events on a non-decreasing clock keeps those fields consistent |
| `StopwatchModel.ElapsedNeverDecreases` | app/src/main/java/com/example/task_3_stopwatch/MainActivity.java:88-93 | until a reset, the elapsed time never goes down |
| `StopwatchModel.LapsKeptWithoutReset` | app/src/main/java/com/example/task_3_stopwatch/MainActivity.java:116-118 | until a reset, earlier laps stay in the list, in order, behind the new ones |
| `StopwatchModel.StoppedIsFrozen` | app/src/main/java/com/example/task_3_stopwatch/MainActivity.java:92-97 | while stopped, stale ticks and lap presses change nothing |
| `StopwatchModel.RunningMeasuresFromStart` | app/src/main/java/com/example/task_3_stopwatch/MainActivity.java:88-93 | while running, `startTime` stays put and a tick at `t` sets elapsed to `t - startTime`, whatever ticks and laps came before |
| `StopwatchModel.ResumeAccumulates` | app/src/main/java/com/example/task_3_stopwatch/MainActivity.java:85-97 | resuming at `t0` with `e` shown, the next tick at `t1` shows `e + (t1 - t0)`, with any ticks and laps in between |
| `StopwatchModel.LapLabel` | app/src/main/java/com/example/task_3_stopwatch/MainActivity.java:152 | the label of a row is between 1 and the number of laps |
| `StopwatchModel.LapLabels` | app/src/main/java/com/example/task_3_stopwatch/MainActivity.java:152 | the column of labels has one entry per row, row `p` carrying `size - p` |
| `StopwatchModel.LapLabelsCountDown` | app/src/main/java/com/example/task_3_stopwatch/MainActivity.java:152 | labels strictly decrease from the number of laps at the top row to 1 at the bottom, every number 1..size appears, and a new lap leaves older rows' labels unchanged |
| `StopwatchModel.LapsAreRecordedNewestFirst` | app/src/main/java/com/example/task_3_stopwatch/MainActivity.java:116-118 | the lap list is the reverse of the laps recorded since the last reset, in recording order |
| `StopwatchModel.LapRowShowsItsLap` | app/src/main/java/com/example/task_3_stopwatch/MainActivity.java:150-152 | the row labelled `Lap k` shows the k-th lap recorded since the last reset |
| `StopwatchController.Stopwatch.constructor` | app/src/main/java/com/example/task_3_stopwatch/MainActivity.java:30-51 | start-up state: stopped, `startTime` and `elapsedTime` 0, no laps |
| `StopwatchController.Stopwatch.Toggle` | app/src/main/java/com/example/task_3_stopwatch/MainActivity.java:74-83 | starts when stopped and stops when running; keeps the controller invariant |
| `StopwatchController.Stopwatch.Start` | app/src/main/java/com/example/task_3_stopwatch/MainActivity.java:85-88 | from stopped: running with `startTime = now - elapsedTime`; while running: nothing changes |
| `StopwatchController.Stopwatch.Stop` | app/src/main/java/com/example/task_3_stopwatch/MainActivity.java:102-104 | clears the running flag only; elapsed, start reference and laps stay |
| `StopwatchController.Stopwatch.Tick` | app/src/main/java/com/example/task_3_stopwatch/MainActivity.java:91-97 | while running sets `elapsedTime = now - startTime`; while stopped changes no field |
| `StopwatchController.Stopwatch.RecordLap` | app/src/main/java/com/example/task_3_stopwatch/MainActivity.java:116-122 | while running the list becomes `[elapsedTime] + old list`; while stopped it is a no-op |
| `StopwatchController.Stopwatch.Reset` | app/src/main/java/com/example/task_3_stopwatch/MainActivity.java:106-114 | from any state: stopped, elapsed 0, no laps |
| `StopwatchController.Stopwatch.TimeText` | app/src/main/java/com/example/task_3_stopwatch/MainActivity.java:124-133 | the displayed text is `FormatTime` of the elapsed time; it is well formed and reads back as exactly the elapsed milliseconds |
| `StopwatchController.Stopwatch.LapRow` | app/src/main/java/com/example/task_3_stopwatch/MainActivity.java:150-162 | a bound row shows `Lap (size - position)`, that label names the lap's recording order, and its text is `FormatTime` of the lap's time and reads back as it |
| `StopwatchController.Stopwatch.LapNumber` | app/src/main/java/com/example/task_3_stopwatch/MainActivity.java:151-152 | the row number is `size - position`, in `1..size`, and row `Lap k` holds the k-th recorded lap |
| `StopwatchController.Stopwatch.LapText` | app/src/main/java/com/example/task_3_stopwatch/MainActivity.java:151-161 | the row's time text is `FormatTime` of the lap's time and reads back as it |
| `StopwatchController.StartLapStopReset` | app/src/main/java/com/example/task_3_stopwatch/MainActivity.java:74-118 | start, tick at `t1`, lap, stop, stale tick, reset: the lap is `[t1 - t0]`, stop and the stale tick keep `t1 - t0`, reset gives 0 and no laps |
| `StopwatchController.PauseResume` | app/src/main/java/com/example/task_3_stopwatch/MainActivity.java:85-97 | on a stopped controller showing `e`, start at `t0` and tick at `t1` show `e + (t1 - t0)` and keep the laps |

## Left out

- Android plumbing is not modelled: view lookup, edge-to-edge and window insets, click-listener wiring, RecyclerView layout manager, adapter and view-holder inflation, `notifyItemInserted`, `notifyDataSetChanged` and `scrollToPosition`. They carry no state of the controller.
- Button text (`Start`/`Stop`) and the lap button's enabled state are presentation only. Lap recording is gated by `isRunning` inside `recordLap`, and that gate is modelled.
- Scheduling is not modelled: `Handler.post`, `postDelayed` with its 10 ms period, and the `removeCallbacksAndMessages` in `onDestroy`. A tick is a method the caller invokes, with the source's running-flag guard. A stop followed by a start within one period can leave two callback chains alive. Both apply the same update, so one `Tick` stands for either.
- `System.currentTimeMillis()` is not modelled; handlers take the reading as a parameter `now`. The model assumes the clock never runs backward. Under that assumption a negative elapsed time cannot arise, so the display round trip is proved for non-negative counts only.
- Java `long` wrap-around is not modelled; all integers are unbounded. Overflow would need times around 2^63 ms.
- TimeFormat.Pad: `String.format` prints the digits of the default locale; the model assumes a locale whose digits are ASCII `0`..`9` (true of `Locale.US` and most locales, not of e.g. Arabic ones).
