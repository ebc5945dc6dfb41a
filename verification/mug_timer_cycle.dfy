/**
  Properties of the coffee-mug timer over many seconds: how long each phase
  lasts, where the work counter stops, what a whole work/rest cycle ends in,
  and what a Stop pressed during rest leaves behind for the next cycle.
 */
module MugTimerCycle {
  import opened MugTimer

  /** The state after `n` seconds with no button pressed. */
  function TickN(s: State, n: nat): (r: State)
    ensures !s.running ==> r == s
    ensures Inv(s) ==> Inv(r)
    decreases n
  {
    if n == 0 then s
    else
      TickPreservesInv(s);
      TickN(Tick(s), n - 1)
  }

  lemma {:induction false} TickNAdd(s: State, a: nat, b: nat)
    ensures TickN(s, a + b) == TickN(TickN(s, a), b)
    decreases a
  {
    if a > 0 {
      TickNAdd(Tick(s), a - 1, b);
    }
  }

  /**
    The work loop never takes the work counter past 60: a running work phase
    that has reached `elapsed` counts up one second at a time, still in the
    work phase at every intermediate second, and leaves the loop exactly when
    the counter reaches 60, with the mug full, the label "Rest" and the display
    showing the untouched rest counter.
   */
  lemma {:induction false} WorkPhaseRunsToRest(s: State)
    requires Inv(s) && s.running && s.elapsed < WorkSeconds
    ensures forall k :: 0 <= k < WorkSeconds - s.elapsed ==>
      TickN(s, k).running && TickN(s, k).elapsed == s.elapsed + k
    ensures var r := TickN(s, WorkSeconds - s.elapsed);
      && r.running && r.elapsed == WorkSeconds && r.progress == 1.0
      && r.statusText == RestLabel && r.restLeft == s.restLeft && r.timeToShow == s.restLeft
    decreases WorkSeconds - s.elapsed
  {
    var t := Tick(s);
    TickPreservesInv(s);
    WorkTick(s);
    if s.elapsed < WorkSeconds - 1 {
      WorkPhaseRunsToRest(t);
      forall k | 0 <= k < WorkSeconds - s.elapsed
        ensures TickN(s, k).running && TickN(s, k).elapsed == s.elapsed + k
      {
        if k > 0 {
          assert TickN(s, k) == TickN(t, k - 1);
        }
      }
    }
  }

  /**
    A running rest phase with `restLeft` seconds to go counts down one second
    at a time, staying running with the mug emptying, and after exactly
    `restLeft` seconds the timer is back in its launch state: stopped, button
    "Start", label "Work", counters 0 and 60, mug and display at zero. It is
    not restarted.
   */
  lemma {:induction false} RestPhaseCompletes(s: State)
    requires Inv(s) && s.running && s.elapsed == WorkSeconds
    ensures forall k :: 0 <= k < s.restLeft ==>
      && TickN(s, k).running && TickN(s, k).elapsed == WorkSeconds
      && TickN(s, k).restLeft == s.restLeft - k
    ensures TickN(s, s.restLeft) == Initial()
    decreases s.restLeft
  {
    var t := Tick(s);
    TickPreservesInv(s);
    RestTick(s);
    if s.restLeft > 1 {
      RestPhaseCompletes(t);
      forall k | 0 <= k < s.restLeft
        ensures && TickN(s, k).running && TickN(s, k).elapsed == WorkSeconds
                && TickN(s, k).restLeft == s.restLeft - k
      {
        if k > 0 {
          assert TickN(s, k) == TickN(t, k - 1);
        }
      }
    } else {
      assert TickN(s, 1) == TickN(t, 0);
    }
  }

  /**
    From the launch state, pressing Start and letting two minutes pass runs
    one full work/rest cycle and ends exactly where it began: stopped, waiting
    for the next Start. No later second changes anything.
   */
  lemma FullCycle(n: nat)
    ensures TickN(Toggle(Initial()), WorkSeconds + RestSeconds) == Initial()
    ensures TickN(Toggle(Initial()), WorkSeconds + RestSeconds + n) == Initial()
  {
    var t := Toggle(Initial());
    InitialInv();
    TogglePreservesInv(Initial());
    WorkPhaseRunsToRest(t);
    var mid := TickN(t, WorkSeconds);
    TickNAdd(t, WorkSeconds, RestSeconds);
    RestPhaseCompletes(mid);
    TickNAdd(t, WorkSeconds + RestSeconds, n);
  }

  /**
    Stop pressed during rest keeps the "Rest" label and the partly used rest
    counter. Starting again then runs a full 60-second work phase still labelled
    "Rest", followed by only the rest seconds that were left, after which the
    timer is back in its launch state.
   */
  lemma StopDuringRest(s: State)
    requires Inv(s) && s.elapsed == WorkSeconds
    ensures Stop(s).statusText == RestLabel && Stop(s).restLeft == s.restLeft
    ensures var t := Toggle(Stop(s));
      && t.running && t.elapsed == 0 && t.statusText == RestLabel
      && (forall k :: 0 <= k < WorkSeconds + s.restLeft ==> TickN(t, k).running)
      && TickN(t, WorkSeconds + s.restLeft) == Initial()
  {
    var t := Toggle(Stop(s));
    TogglePreservesInv(Stop(s));
    WorkPhaseRunsToRest(t);
    var mid := TickN(t, WorkSeconds);
    TickNAdd(t, WorkSeconds, s.restLeft);
    RestPhaseCompletes(mid);
    forall k | WorkSeconds <= k < WorkSeconds + s.restLeft
      ensures TickN(t, k).running
    {
      TickNAdd(t, WorkSeconds, k - WorkSeconds);
      assert TickN(mid, k - WorkSeconds).running;
    }
  }

  /**
    The one-minute rest phase is only the full minute when it was never
    interrupted by Stop: a Stop with 30 rest seconds left makes the next cycle
    run for exactly 60 + 30 seconds.
   */
  lemma StopShortensNextRest()
    ensures var inRest := TickN(Toggle(Initial()), WorkSeconds + 30);
      && inRest.running && inRest.restLeft == 30
      && Toggle(Stop(inRest)).statusText == RestLabel
      && TickN(Toggle(Stop(inRest)), WorkSeconds + 29).running
      && TickN(Toggle(Stop(inRest)), WorkSeconds + 30) == Initial()
  {
    var t := Toggle(Initial());
    InitialInv();
    TogglePreservesInv(Initial());
    WorkPhaseRunsToRest(t);
    var mid := TickN(t, WorkSeconds);
    RestPhaseCompletes(mid);
    TickNAdd(t, WorkSeconds, 30);
    var inRest := TickN(mid, 30);
    assert inRest.restLeft == 30;
    StopDuringRest(inRest);
  }
}
