# Coffee-mug Pomodoro timer: countdown state machine and time display

This project models the `CoffeeMugTimer` screen of a small Pomodoro app. The
screen shows a mug that fills during a 60-second work phase and empties
during a 60-second rest phase. The model covers the two parts of the screen
that hold logic:

- **The countdown state machine** (module `MugTimer`). The screen's
  remembered values are `isTimerRunning`, `buttonText`, `statusText`,
  `elapsedTime`, `elapsedRestTime`, `timeToShow` and `progress`. Here they
  are one immutable `State` record. Four pure functions change it:
  - `Tick` is one second of the coroutine started by `LaunchedEffect`.
  - `Toggle` is the Start/Pause button.
  - `Stop` is the Stop button.
  - `ResetTimer` is `resetTimer()`.

  The record does not store where the coroutine is waiting. While the timer
  runs, the coroutine is in the work loop exactly when `elapsed < 60`, and in
  the rest loop otherwise. A `Tick` runs the body of that loop and then
  everything the coroutine does before its next `delay(1000)`: entering the
  rest phase, or calling `resetTimer()` once rest is over. Pause and Stop
  cancel the coroutine while it waits, so every button press falls between
  two ticks. Starting relaunches the coroutine. `Toggle` includes the code
  the coroutine runs before its first wait, which re-seeds the display from
  `elapsedTime` and, when the work phase is already over, enters rest at once.
  `progress` is an exact `real`.
- **`formatTime`** (module `TimeFormat`). It renders whole, non-negative
  seconds as `MM:SS`. Each field is `%02d`, meaning at least two digits with
  zero padding. `ParseTime` is its inverse, and both round trips are proved.
  The reading of a rendered string is stated through `DecimalValue`, which is
  independent of how `FormatTime` builds the string.

Module `MugTimerCycle` states properties that span many seconds:
- how long each phase lasts;
- that the work counter stops at exactly 60;
- that a full cycle ends stopped, in the launch state;
- what a Stop pressed during rest leaves for the next cycle.

Two behaviours of the code are worth stating plainly:
- **Completion stops the timer.** `resetTimer()` clears `isTimerRunning`,
  so once the rest phase is over the cycle does not restart: the timer waits
  for Start (`MugTimerCycle.FullCycle`).
- **Stop resets only part of the state.** The Stop handler resets
  `isTimerRunning`, `buttonText`, `progress` and `elapsedTime`. The rest
  counter, the "Rest"/"Work" label and the displayed time stay as they were.
  Stop during rest followed by Start therefore runs a 60-second work phase
  that is still labelled "Rest". The rest phase after it is only as long as
  what was left when Stop was pressed (`MugTimerCycle.StopDuringRest`,
  `MugTimerCycle.StopShortensNextRest`).

## Model

| member | source | states |
|---|---|---|
| `MugTimer.Initial` | app/src/main/java/com/example/pomodorotimer/MainActivity.kt:57-66 | the launch values: stopped, button "Start", label "Work", elapsedTime 0, elapsedRestTime 60, display 0, progress 0; they satisfy the reachable-state invariant |
| `MugTimer.Launch` | app/src/main/java/com/example/pomodorotimer/MainActivity.kt:84-94 | a relaunched coroutine re-seeds the display from elapsedTime and keeps everything else while work remains; once work is done it overwrites the display with the rest counter and sets the label "Rest" before its first wait |
| `MugTimer.EnterRest` | app/src/main/java/com/example/pomodorotimer/MainActivity.kt:93-95 | between the loops only the display (set to the rest counter) and the label (set to "Rest") change; with no rest left the rest loop is skipped and the timer resets |
| `MugTimer.ResetTimer` | app/src/main/java/com/example/pomodorotimer/MainActivity.kt:74-81 | completion puts every remembered value back to its launch value (stopped, "Start", "Work", progress 0, counters 0 and 60); only the displayed time is kept |
| `MugTimer.Tick` | app/src/main/java/com/example/pomodorotimer/MainActivity.kt:83-103 | one second: nothing happens while stopped or paused; in work both the counter and the display go up by one and progress becomes elapsed/60; the last work second switches the label to "Rest" and the display to the rest counter; in rest both the rest counter and the display go down by one and progress becomes restLeft/60; the last rest second leaves the timer stopped in the launch state |
| `MugTimer.Toggle` | app/src/main/java/com/example/pomodorotimer/MainActivity.kt:200-207 | pausing only clears the running flag and relabels the button "Start"; starting sets the flag, relabels the button "Pause", and keeps both counters and progress; the display is re-seeded from elapsedTime in work, and from the rest counter (with label "Rest") once work is done |
| `MugTimer.Stop` | app/src/main/java/com/example/pomodorotimer/MainActivity.kt:213-218 | Stop leaves the timer stopped with button "Start", elapsedTime 0 and progress 0; it leaves the rest counter, the status label and the displayed time untouched; it keeps the reachable-state invariant |
| `MugTimer.Step` | app/src/main/java/com/example/pomodorotimer/MainActivity.kt:83-218 | each event (a second of the coroutine at 83-104, the Start/Pause handler at 200-207, the Stop handler at 213-218) keeps the invariant: counters in 0..60, rest counter never 0 between ticks, button label opposite to the running flag, progress in [0,1] and equal to elapsed/60 during work, display in sync with the running phase |
| `MugTimer.Run` | app/src/main/java/com/example/pomodorotimer/MainActivity.kt:83-218 | the event sequence built on top of the coroutine (83-104) and the two button handlers (200-207, 213-218): any sequence of events from a state satisfying the invariant ends in a state satisfying it |
| `MugTimer.ReachableInv` | app/src/main/java/com/example/pomodorotimer/MainActivity.kt:57-218 | every state reachable from the launch values (57-66) by any sequence of seconds (83-104), Start/Pause presses (200-207) and Stop presses (213-218) satisfies the invariant |
| `MugTimer.WorkTick` | app/src/main/java/com/example/pomodorotimer/MainActivity.kt:86-90 | a work tick adds exactly one to elapsedTime (never past 60) and to the display; progress becomes elapsed/60, strictly rises and stays at most 1 |
| `MugTimer.RestTick` | app/src/main/java/com/example/pomodorotimer/MainActivity.kt:95-102 | a rest tick takes exactly one off the rest counter (never below 1 while running) and the display; progress becomes restLeft/60 and strictly falls; the last one yields the launch state |
| `MugTimer.PauseResume` | app/src/main/java/com/example/pomodorotimer/MainActivity.kt:200-207 | pausing and resuming a running timer gives back exactly the same state |
| `MugTimer.StopIdempotent` | app/src/main/java/com/example/pomodorotimer/MainActivity.kt:213-218 | a second Stop changes nothing |
| `MugTimer.DisplayedTime` | app/src/main/java/com/example/pomodorotimer/MainActivity.kt:123 | the time line reads back as exactly timeToShow |
| `MugTimer.DisplayInReachableState` | app/src/main/java/com/example/pomodorotimer/MainActivity.kt:122-123 | in every reachable state the time line is five characters `MM:SS`, at most one minute, and while running shows the counter of the current phase |
| `MugTimerCycle.TickN` | app/src/main/java/com/example/pomodorotimer/MainActivity.kt:84-100 | any number of seconds leaves a timer that is not running unchanged (the coroutine only counts while the flag is set) and keeps the invariant |
| `MugTimerCycle.WorkPhaseRunsToRest` | app/src/main/java/com/example/pomodorotimer/MainActivity.kt:85-94 | the work loop counts up one second at a time and never passes 60; it leaves exactly when elapsedTime reaches 60, with progress 1, label "Rest" and the display showing the unchanged rest counter |
| `MugTimerCycle.RestPhaseCompletes` | app/src/main/java/com/example/pomodorotimer/MainActivity.kt:93-102 | the rest loop counts down one second at a time while running; after exactly restLeft seconds the timer is in the launch state, not running |
| `MugTimerCycle.FullCycle` | app/src/main/java/com/example/pomodorotimer/MainActivity.kt:74-103 | Start from launch, then 120 seconds, ends in the launch state, and no later second changes it: completion stops rather than restarts |
| `MugTimerCycle.StopDuringRest` | app/src/main/java/com/example/pomodorotimer/MainActivity.kt:213-218 | Stop during rest keeps the "Rest" label and the partial rest counter; the next Start runs a work phase labelled "Rest", then only the remaining rest seconds: it is running at every second before 60 + restLeft and in the launch state at 60 + restLeft |
| `MugTimerCycle.StopShortensNextRest` | app/src/main/java/com/example/pomodorotimer/MainActivity.kt:213-218 | concrete run: Stop with 30 rest seconds left makes the next cycle exactly 60 + 30 seconds long: still running at second 89, back in the launch state at second 90 |
| `TimeFormat.Digits` | app/src/main/java/com/example/pomodorotimer/MainActivity.kt:109 | `%d` rendering: canonical digits (no leading zero) denoting n; one digit exactly when n < 10 |
| `TimeFormat.Pad2` | app/src/main/java/com/example/pomodorotimer/MainActivity.kt:109 | `%02d` rendering: at least two digits denoting n; exactly two when n < 100; no leading zero from 10 up |
| `TimeFormat.FormatTime` | app/src/main/java/com/example/pomodorotimer/MainActivity.kt:106-110 | output is `minutes:SS`, where minutes*60 + secs == seconds and secs < 60; five characters exactly when seconds < 6000 |
| `TimeFormat.ParseFormatRoundTrip` | app/src/main/java/com/example/pomodorotimer/MainActivity.kt:106-110 | reading a rendered time back gives the original seconds |
| `TimeFormat.FormatParseRoundTrip` | app/src/main/java/com/example/pomodorotimer/MainActivity.kt:106-110 | every string the reader accepts is exactly the rendering of the value it reads |
| `TimeFormat.FormatTimeInjective` | app/src/main/java/com/example/pomodorotimer/MainActivity.kt:106-110 | different second counts render differently |
| `TimeFormat.FormatTimeExamples` | app/src/main/java/com/example/pomodorotimer/MainActivity.kt:106-110 | 0 renders "00:00", 59 "00:59", 60 "01:00", 65 "01:05", 6000 "100:00" |

## Left out

- `DrawWaves` (wave geometry, the `showWaves` latch, the amplitude cap and colour interpolation) is left out: it is floating-point `sin` numerics and canvas drawing.
- The `animateFloatAsState` easing of `progress` and the free-running wave-offset animation are left out: they are time-based animations inside the UI framework.
- Layout, `Modifier` chains, the mug-handle arc, `MainActivity.onCreate` and `DefaultPreview` are left out: they are view composition with no logic.
- `LaunchedEffect`, `delay` and recomposition are abstracted into discrete `Tick`/`Toggle`/`Stop` steps. Button presses are serialized. A Start press and the coroutine's relaunch are taken as one step, although in the app the relaunch happens at the next recomposition.
- `MugTimer.Tick`: progress is an exact fraction, not a 32-bit float, so the rounding of `elapsedTime / 60` is not modelled.
- `TimeFormat.FormatTime`: takes whole, non-negative seconds only. The displayed value is always such a number (see `MugTimer.DisplayInReachableState`). Fractional inputs, negative inputs and `Locale` behaviour beyond `%02d` are not modelled.
