/**
  The countdown state machine of the `CoffeeMugTimer` screen.

  The screen keeps its state in remembered UI values; here they are one
  immutable record. A coroutine, relaunched whenever the running flag changes,
  counts a work phase up from `elapsed` to 60 and then a rest phase down from
  `restLeft` to 0, waiting one second before every step. Pausing or stopping
  cancels it while it waits, so every user event falls between two ticks.

  Where the coroutine is waiting is not stored: while it runs it is in the work
  loop exactly when `elapsed < WorkSeconds`, and in the rest loop otherwise.
  `Tick` is the passage of one second: the body of the loop it is waiting in,
  followed by everything the coroutine does before it waits again (entering
  the rest phase, or `resetTimer` once rest is over).
 */
module MugTimer {
  import TimeFormat

  const WorkSeconds: int := 60
  const RestSeconds: int := 60

  const StartLabel: string := "Start"
  const PauseLabel: string := "Pause"
  const WorkLabel: string := "Work"
  const RestLabel: string := "Rest"

  /**
    `elapsed` is `elapsedTime` (a float that only ever holds whole seconds),
    `restLeft` is `elapsedRestTime`, `timeToShow` the number of seconds on the
    display, `progress` the fill level of the mug as an exact fraction.
   */
  datatype State = State(
    running: bool,
    buttonText: string,
    statusText: string,
    elapsed: int,
    restLeft: int,
    timeToShow: int,
    progress: real)

  /**
    The remembered values when the screen is first composed: stopped, offering
    "Start", labelled "Work", no work done, the whole rest minute ahead, an
    empty mug and a zero display. This is a reachable state, so the invariant
    holds of it.
   */
  function Initial(): (r: State)
    ensures Inv(r)
    ensures !r.running && r.buttonText == StartLabel && r.statusText == WorkLabel
    ensures r.elapsed == 0 && r.restLeft == RestSeconds && r.timeToShow == 0 && r.progress == 0.0
  {
    State(false, StartLabel, WorkLabel, 0, RestSeconds, 0, 0.0)
  }

  /** The fill level shown after `n` seconds of work, or with `n` seconds of rest left. */
  function Fraction(n: int, total: int): real
    requires total > 0
  {
    n as real / total as real
  }

  // ---------------------------------------------------------------------------
  // The coroutine, piece by piece

  /**
    `resetTimer()`: back to the launch state, except that the display keeps
    whatever time it was showing.
   */
  function ResetTimer(s: State): (r: State)
    ensures r.timeToShow == s.timeToShow
    ensures r.(timeToShow := 0) == Initial()
  {
    s.(running := false, buttonText := StartLabel, statusText := WorkLabel,
       progress := 0.0, elapsed := 0, restLeft := RestSeconds)
  }

  /** One pass of the work loop body, after its one-second wait. */
  function WorkIteration(s: State): State {
    var e := s.elapsed + 1;
    s.(elapsed := e, timeToShow := s.timeToShow + 1, progress := Fraction(e, WorkSeconds))
  }

  /** One pass of the rest loop body, after its one-second wait. */
  function RestIteration(s: State): State {
    var k := s.restLeft - 1;
    s.(restLeft := k, timeToShow := s.timeToShow - 1, progress := Fraction(k, RestSeconds))
  }

  /** The rest loop's test: wait again while rest remains, otherwise `resetTimer()`. */
  function AfterRestIteration(s: State): State {
    if s.restLeft > 0 then s else ResetTimer(s)
  }

  /**
    The code between the two loops: the display switches to the rest counter
    and the label to "Rest", nothing else changes, and the coroutine waits in
    the rest loop; with no rest left it resets at once.
   */
  function EnterRest(s: State): (r: State)
    ensures s.restLeft > 0 ==>
      r == s.(timeToShow := s.restLeft, statusText := RestLabel)
    ensures s.restLeft <= 0 ==> r.(timeToShow := 0) == Initial() && r.timeToShow == s.restLeft
  {
    AfterRestIteration(s.(timeToShow := s.restLeft, statusText := RestLabel))
  }

  /** The work loop's test: wait again while work remains, otherwise move on to rest. */
  function AfterWorkIteration(s: State): State {
    if s.elapsed < WorkSeconds then s else EnterRest(s)
  }

  /**
    A fresh launch of the coroutine: the display is re-seeded from `elapsed`,
    then the coroutine runs to its first wait. Before 60 seconds of work that is
    the work loop, with only the display changed; after them the display is at
    once overwritten by the rest counter and the label becomes "Rest". The
    counters, the fill level and the running flag are kept.
   */
  function Launch(s: State): (r: State)
    ensures s.elapsed < WorkSeconds ==> r == s.(timeToShow := s.elapsed)
    ensures s.elapsed >= WorkSeconds && s.restLeft > 0 ==>
      r == s.(timeToShow := s.restLeft, statusText := RestLabel)
  {
    AfterWorkIteration(s.(timeToShow := s.elapsed))
  }

  // ---------------------------------------------------------------------------
  // Events

  /**
    One second passes. A paused or stopped timer does not change. In the work
    phase both `elapsed` and the display advance by one and the mug fills to
    `elapsed / 60`; the tick that completes the work phase switches the label to
    "Rest" and the display to the rest counter. In the rest phase both the rest
    counter and the display go back by one and the mug empties to
    `restLeft / 60`; the tick that completes the rest phase stops the timer and
    puts everything but the display back to the launch state.
   */
  function Tick(s: State): (r: State)
    ensures !s.running ==> r == s
    ensures s.running && s.elapsed < WorkSeconds - 1 ==>
      && r.running && r.elapsed == s.elapsed + 1 && r.timeToShow == s.timeToShow + 1
      && r.progress == Fraction(r.elapsed, WorkSeconds)
      && r.restLeft == s.restLeft && r.statusText == s.statusText && r.buttonText == s.buttonText
    ensures s.running && s.elapsed == WorkSeconds - 1 && s.restLeft > 0 ==>
      && r.running && r.elapsed == WorkSeconds && r.progress == 1.0
      && r.statusText == RestLabel && r.timeToShow == s.restLeft
      && r.restLeft == s.restLeft && r.buttonText == s.buttonText
    ensures s.running && s.elapsed >= WorkSeconds && s.restLeft > 1 ==>
      && r.running && r.restLeft == s.restLeft - 1 && r.timeToShow == s.timeToShow - 1
      && r.progress == Fraction(r.restLeft, RestSeconds)
      && r.elapsed == s.elapsed && r.statusText == s.statusText && r.buttonText == s.buttonText
    ensures s.running && s.elapsed >= WorkSeconds && s.restLeft == 1 ==>
      && !r.running && r.buttonText == StartLabel && r.statusText == WorkLabel
      && r.elapsed == 0 && r.restLeft == RestSeconds && r.progress == 0.0
      && r.timeToShow == s.timeToShow - 1
  {
    if !s.running then s
    else if s.elapsed < WorkSeconds then AfterWorkIteration(WorkIteration(s))
    else AfterRestIteration(RestIteration(s))
  }

  /**
    The Start/Pause button. Pausing clears the running flag and relabels the
    button "Start", nothing else. Starting sets the flag, relabels the button
    "Pause" and relaunches the coroutine, which continues from the preserved
    counters: the display is re-seeded from `elapsed` in the work phase and
    from the rest counter in the rest phase.
   */
  function Toggle(s: State): (r: State)
    ensures s.running ==> r == s.(running := false, buttonText := StartLabel)
    ensures !s.running && s.elapsed < WorkSeconds ==>
      r == s.(running := true, buttonText := PauseLabel, timeToShow := s.elapsed)
    ensures !s.running && s.elapsed >= WorkSeconds && s.restLeft > 0 ==>
      r == s.(running := true, buttonText := PauseLabel, timeToShow := s.restLeft, statusText := RestLabel)
  {
    if s.running then s.(running := false, buttonText := StartLabel)
    else Launch(s.(running := true, buttonText := PauseLabel))
  }

  /**
    The Stop button: the timer stops with the work counter and the fill level
    at zero. The rest counter, the phase label and the display are left as
    they were.
   */
  function Stop(s: State): (r: State)
    ensures !r.running && r.buttonText == StartLabel
    ensures r.elapsed == 0 && r.progress == 0.0
    ensures r.restLeft == s.restLeft && r.statusText == s.statusText && r.timeToShow == s.timeToShow
    ensures Inv(s) ==> Inv(r)
  {
    s.(running := false, buttonText := StartLabel, progress := 0.0, elapsed := 0)
  }

  datatype Event = Second | StartPause | StopPress

  function Step(s: State, e: Event): (r: State)
    ensures Inv(s) ==> Inv(r)
  {
    match e
    case Second => TickPreservesInv(s); Tick(s)
    case StartPause => TogglePreservesInv(s); Toggle(s)
    case StopPress => Stop(s)
  }

  /** The state after a sequence of events, applied in order. */
  function Run(s: State, es: seq<Event>): (r: State)
    ensures Inv(s) ==> Inv(r)
    decreases |es|
  {
    if |es| == 0 then s else Run(Step(s, es[0]), es[1..])
  }

  // ---------------------------------------------------------------------------
  // The invariant of every reachable state

  /**
    Both counters stay within their phase length (the rest counter never
    reaches 0 outside a tick), the button shows the opposite of what the
    timer is doing, the fill level is a fraction in [0, 1] that equals
    `elapsed / 60` throughout the work phase, and a running timer's display
    agrees with the counter of its current phase.
   */
  ghost predicate Inv(s: State) {
    && 0 <= s.elapsed <= WorkSeconds
    && 0 < s.restLeft <= RestSeconds
    && 0 <= s.timeToShow <= 60
    && s.buttonText == (if s.running then PauseLabel else StartLabel)
    && (s.statusText == WorkLabel || s.statusText == RestLabel)
    && 0.0 <= s.progress <= 1.0
    && (s.elapsed < WorkSeconds ==> s.progress == Fraction(s.elapsed, WorkSeconds))
    && (s.elapsed == WorkSeconds ==>
          && s.statusText == RestLabel
          && (s.progress == 1.0 || s.progress == Fraction(s.restLeft, RestSeconds)))
    && (s.running && s.elapsed < WorkSeconds ==> s.timeToShow == s.elapsed)
    && (s.running && s.elapsed == WorkSeconds ==> s.timeToShow == s.restLeft)
  }

  lemma InitialInv()
    ensures Inv(Initial())
  {
  }

  lemma TickPreservesInv(s: State)
    ensures Inv(s) ==> Inv(Tick(s))
  {
  }

  lemma TogglePreservesInv(s: State)
    ensures Inv(s) ==> Inv(Toggle(s))
  {
  }

  /** Every state reachable from launch by any sequence of events satisfies `Inv`. */
  lemma ReachableInv(es: seq<Event>)
    ensures Inv(Run(Initial(), es))
  {
    InitialInv();
  }

  // ---------------------------------------------------------------------------
  // What the screen shows

  /** The time line of the screen: `formatTime(timeToShow)`. */
  function DisplayedTime(s: State): (r: string)
    requires s.timeToShow >= 0
    ensures TimeFormat.ParseTime(r) == TimeFormat.Some(s.timeToShow)
  {
    TimeFormat.ParseFormatRoundTrip(s.timeToShow);
    TimeFormat.FormatTime(s.timeToShow)
  }

  /**
    In every reachable state the display is a five-character `MM:SS` reading
    of at most one minute, and while the timer runs it reads the counter of
    the current phase.
   */
  lemma DisplayInReachableState(s: State)
    requires Inv(s)
    ensures |DisplayedTime(s)| == 5 && DisplayedTime(s)[2] == ':'
    ensures TimeFormat.ParseTime(DisplayedTime(s)).value <= 60
    ensures s.running ==>
      TimeFormat.ParseTime(DisplayedTime(s)).value
        == (if s.elapsed < WorkSeconds then s.elapsed else s.restLeft)
  {
  }

  // ---------------------------------------------------------------------------
  // Single-event properties

  /**
    A work-phase tick adds exactly one second to the work counter and the
    display; the fill level rises, to `elapsed / 60`, and stays within [0, 1].
   */
  lemma WorkTick(s: State)
    requires Inv(s) && s.running && s.elapsed < WorkSeconds
    ensures Tick(s).running && Tick(s).elapsed == s.elapsed + 1 <= WorkSeconds
    ensures Tick(s).progress == Fraction(Tick(s).elapsed, WorkSeconds)
    ensures s.progress < Tick(s).progress <= 1.0
    ensures Tick(s).elapsed < WorkSeconds ==> Tick(s).timeToShow == s.timeToShow + 1
    ensures Tick(s).elapsed == WorkSeconds ==>
      Tick(s).statusText == RestLabel && Tick(s).timeToShow == Tick(s).restLeft
  {
  }

  /**
    A rest-phase tick takes exactly one second off the rest counter and the
    display, never going below 0, and the fill level falls to `restLeft / 60`;
    the last one completes the cycle and stops the timer.
   */
  lemma RestTick(s: State)
    requires Inv(s) && s.running && s.elapsed == WorkSeconds
    ensures Tick(s).progress < s.progress
    ensures s.restLeft > 1 ==>
      && Tick(s).running && Tick(s).restLeft == s.restLeft - 1 >= 1
      && Tick(s).timeToShow == s.timeToShow - 1
      && Tick(s).progress == Fraction(Tick(s).restLeft, RestSeconds)
    ensures s.restLeft == 1 ==> Tick(s) == Initial()
  {
  }

  /** Pausing and then resuming gives back exactly the running state. */
  lemma PauseResume(s: State)
    requires Inv(s) && s.running
    ensures !Toggle(s).running
    ensures Toggle(Toggle(s)) == s
  {
  }

  /**
    Stop from any reachable state, running or not, in either phase, leaves the
    timer stopped at zero work; a second Stop changes nothing more.
   */
  lemma StopIdempotent(s: State)
    ensures Stop(Stop(s)) == Stop(s)
  {
  }
}
