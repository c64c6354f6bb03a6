/**
 The stopwatch controller's state as a value, the change each handler
 makes to it, and what every run of handler events keeps true. The
 controller class in module StopwatchController is specified by these
 functions.
 */
module StopwatchModel {

  /**
   The controller's fields: `isRunning`, `startTime` (the clock reading at
   which an uninterrupted run would have begun), `elapsedTime` and
   `lapTimes`, newest lap first.
   */
  datatype Snapshot = Snapshot(running: bool, startTime: int, elapsed: int, laps: seq<int>)

  /** Java's field defaults and the empty lap list created on start-up. */
  const Initial: Snapshot := Snapshot(false, 0, 0, [])

  /**
   `startStopwatch` with the clock reading `now`: from stopped, running with
   a start reference from which the elapsed time shown so far continues; a
   no-op while running.
   */
  function Started(s: Snapshot, now: int): (r: Snapshot)
    ensures r.running && r.elapsed == s.elapsed && r.laps == s.laps
    ensures !s.running ==> r.startTime + r.elapsed == now
    ensures s.running ==> r == s
  {
    if s.running then s else s.(running := true, startTime := now - s.elapsed)
  }

  /** `stopStopwatch`: only the running flag changes. */
  function Stopped(s: Snapshot): (r: Snapshot)
    ensures !r.running
    ensures r.startTime == s.startTime && r.elapsed == s.elapsed && r.laps == s.laps
  {
    s.(running := false)
  }

  /** `toggleStopwatch`: start when stopped, stop when running. */
  function Toggled(s: Snapshot, now: int): (r: Snapshot)
    ensures r.running == !s.running
    ensures r.elapsed == s.elapsed && r.laps == s.laps
    ensures s.running ==> r.startTime == s.startTime
    ensures !s.running ==> r.startTime + r.elapsed == now
  {
    if !s.running then Started(s, now) else Stopped(s)
  }

  /**
   One firing of the refresh callback, guarded by the running flag: while
   running, the elapsed time becomes the distance from the start reference
   to `now`; while stopped, nothing changes.
   */
  function Ticked(s: Snapshot, now: int): (r: Snapshot)
    ensures r.running == s.running && r.startTime == s.startTime && r.laps == s.laps
    ensures s.running ==> r.startTime + r.elapsed == now
    ensures !s.running ==> r == s
  {
    if s.running then s.(elapsed := now - s.startTime) else s
  }

  /**
   `recordLap`: while running the current elapsed time goes in front of the
   older laps, which keep their order; while stopped, nothing changes.
   */
  function Lapped(s: Snapshot): (r: Snapshot)
    ensures r.running == s.running && r.startTime == s.startTime && r.elapsed == s.elapsed
    ensures s.running ==> |r.laps| == |s.laps| + 1 && r.laps[0] == s.elapsed && r.laps[1..] == s.laps
    ensures !s.running ==> r == s
  {
    if s.running then s.(laps := [s.elapsed] + s.laps) else s
  }

  /** `resetStopwatch`: stopped, at zero, no laps; `startTime` is left as it was. */
  function Cleared(s: Snapshot): (r: Snapshot)
    ensures !r.running && r.elapsed == 0 && r.laps == []
    ensures r.startTime == s.startTime
  {
    s.(running := false, elapsed := 0, laps := [])
  }

  /**
   What drives the controller: the start/stop button, a firing of the
   refresh callback, the lap button and the reset button. The timed events
   carry the clock reading the handler would take.
   */
  datatype Event = Toggle(now: int) | Tick(now: int) | Lap | Reset

  function Step(s: Snapshot, e: Event): Snapshot
  {
    match e
    case Toggle(now) => Toggled(s, now)
    case Tick(now) => Ticked(s, now)
    case Lap => Lapped(s)
    case Reset => Cleared(s)
  }

  /** The events handled so far, the latest one outermost. */
  datatype Log = Begin | Then(before: Log, event: Event)

  /** The state after handling every event of `log` in order. */
  function Run(s: Snapshot, log: Log): Snapshot
  {
    match log
    case Begin => s
    case Then(before, e) => Step(Run(s, before), e)
  }

  /** The latest clock reading once `e` has been handled. */
  function ClockAfter(clock: int, e: Event): int
  {
    if e.Toggle? || e.Tick? then e.now else clock
  }

  function LatestTime(clock: int, log: Log): int
  {
    match log
    case Begin => clock
    case Then(before, e) => ClockAfter(LatestTime(clock, before), e)
  }

  /** `e` does not read the clock earlier than `clock`. */
  predicate OnTimeAfter(clock: int, e: Event)
  {
    (e.Toggle? || e.Tick?) ==> clock <= e.now
  }

  /** The wall clock never runs backward during `log`, starting from `clock`. */
  predicate OnTime(clock: int, log: Log)
  {
    match log
    case Begin => true
    case Then(before, e) => OnTime(clock, before) && OnTimeAfter(LatestTime(clock, before), e)
  }

  /**
   What the controller's fields satisfy when the latest clock reading is
   `clock`: the elapsed time is not negative, while running it has not
   overtaken the clock, and the laps lie between zero and the elapsed time,
   newest (and largest) first.
   */
  predicate Consistent(s: Snapshot, clock: int)
  {
    0 <= s.elapsed &&
    (s.running ==> s.startTime + s.elapsed <= clock) &&
    (forall i :: 0 <= i < |s.laps| ==> 0 <= s.laps[i] <= s.elapsed) &&
    (forall i, j :: 0 <= i < j < |s.laps| ==> s.laps[j] <= s.laps[i])
  }

  /**
   Each handler keeps the fields consistent, and only a reset can make the
   elapsed time go down.
   */
  lemma StepKeepsConsistent(s: Snapshot, clock: int, e: Event)
    requires Consistent(s, clock) && OnTimeAfter(clock, e)
    ensures Consistent(Step(s, e), ClockAfter(clock, e))
    ensures !e.Reset? ==> s.elapsed <= Step(s, e).elapsed
  {
    if e.Lap? && s.running {
      var t := Step(s, e);
      assert t.laps == [s.elapsed] + s.laps;
      forall i, j | 0 <= i < j < |t.laps|
        ensures t.laps[j] <= t.laps[i]
      {
        if i > 0 {
          assert t.laps[i] == s.laps[i - 1] && t.laps[j] == s.laps[j - 1];
        }
      }
    }
  }

  /** Any run on a clock that never goes backward keeps the fields consistent. */
  lemma {:induction false} RunKeepsConsistent(s: Snapshot, clock: int, log: Log)
    requires Consistent(s, clock) && OnTime(clock, log)
    ensures Consistent(Run(s, log), LatestTime(clock, log))
  {
    match log
    case Begin =>
    case Then(before, e) =>
      RunKeepsConsistent(s, clock, before);
      StepKeepsConsistent(Run(s, before), LatestTime(clock, before), e);
  }

  predicate NoReset(log: Log)
  {
    match log
    case Begin => true
    case Then(before, e) => NoReset(before) && !e.Reset?
  }

  /** Until a reset, the elapsed time never decreases. */
  lemma {:induction false} ElapsedNeverDecreases(s: Snapshot, clock: int, log: Log)
    requires Consistent(s, clock) && OnTime(clock, log) && NoReset(log)
    ensures s.elapsed <= Run(s, log).elapsed
  {
    match log
    case Begin =>
    case Then(before, e) =>
      ElapsedNeverDecreases(s, clock, before);
      RunKeepsConsistent(s, clock, before);
      StepKeepsConsistent(Run(s, before), LatestTime(clock, before), e);
  }

  /**
   Until a reset, the lap list only grows at its front: the laps held
   before stay, in the same order, at its end.
   */
  lemma {:induction false} LapsKeptWithoutReset(s: Snapshot, log: Log)
    requires NoReset(log)
    ensures |s.laps| <= |Run(s, log).laps|
    ensures Run(s, log).laps[|Run(s, log).laps| - |s.laps|..] == s.laps
  {
    match log
    case Begin =>
    case Then(before, e) =>
      LapsKeptWithoutReset(s, before);
      var r := Run(s, before);
      if e.Lap? && r.running {
        SuffixKeptByPrepend(r.elapsed, r.laps, s.laps);
      }
  }

  lemma SuffixKeptByPrepend(x: int, xs: seq<int>, ys: seq<int>)
    requires |ys| <= |xs| && xs[|xs| - |ys|..] == ys
    ensures ([x] + xs)[|[x] + xs| - |ys|..] == ys
  {
    assert ([x] + xs)[|[x] + xs| - |ys|..] == xs[|xs| - |ys|..];
  }

  /** Only refresh callbacks and lap presses: nothing starts, stops or resets. */
  predicate TicksAndLaps(log: Log)
  {
    match log
    case Begin => true
    case Then(before, e) => TicksAndLaps(before) && (e.Tick? || e.Lap?)
  }

  /**
   While stopped, a stale refresh callback and the lap button change
   nothing: the display stops advancing.
   */
  lemma {:induction false} StoppedIsFrozen(s: Snapshot, log: Log)
    requires !s.running && TicksAndLaps(log)
    ensures Run(s, log) == s
  {
    match log
    case Begin =>
    case Then(before, _) => StoppedIsFrozen(s, before);
  }

  /**
   While running, the start reference stays put and each refresh sets the
   elapsed time to the distance from it to the clock.
   */
  lemma {:induction false} RunningMeasuresFromStart(s: Snapshot, log: Log)
    requires s.running && TicksAndLaps(log)
    ensures Run(s, log).running && Run(s, log).startTime == s.startTime
    ensures log.Then? && log.event.Tick? ==> Run(s, log).elapsed == log.event.now - s.startTime
  {
    match log
    case Begin =>
    case Then(before, _) => RunningMeasuresFromStart(s, before);
  }

  /**
   Pause and resume keep the time already measured: resuming at `t0` with
   `e` milliseconds on the display, a refresh at `t1` shows `e + (t1 - t0)`,
   however many refreshes and laps come in between.
   */
  lemma ResumeAccumulates(s: Snapshot, t0: int, log: Log)
    requires !s.running && TicksAndLaps(log)
    requires log.Then? && log.event.Tick?
    ensures Run(Toggled(s, t0), log).running
    ensures Run(Toggled(s, t0), log).elapsed == s.elapsed + (log.event.now - t0)
  {
    RunningMeasuresFromStart(Toggled(s, t0), log);
  }

  // ---------------------------------------------------------------------
  // Lap numbering
  // ---------------------------------------------------------------------

  /** The label of row `position` of the lap list: `Lap (size - position)`. */
  function LapLabel(size: int, position: int): (n: int)
    requires 0 <= position < size
    ensures 1 <= n <= size
  {
    size - position
  }

  /** The labels of all rows of a lap list of `size` laps, top row first. */
  function LapLabels(size: nat): (r: seq<int>)
    ensures |r| == size
    ensures forall p :: 0 <= p < size ==> r[p] == LapLabel(size, p)
  {
    if size == 0 then [] else [size] + LapLabels(size - 1)
  }

  /**
   The labels count down from the number of laps to 1, each number once;
   recording a lap leaves the labels of the older rows as they were.
   */
  lemma LapLabelsCountDown(size: nat)
    ensures forall i, j :: 0 <= i < j < size ==> LapLabels(size)[j] < LapLabels(size)[i]
    ensures forall k :: 1 <= k <= size ==> k in LapLabels(size)
    ensures size > 0 ==> LapLabels(size)[0] == size && LapLabels(size)[size - 1] == 1
    ensures LapLabels(size + 1)[1..] == LapLabels(size)
  {
    var r := LapLabels(size);
    forall k | 1 <= k <= size
      ensures k in r
    {
      assert r[size - k] == k;
    }
  }

  /** The lap values in the order they were recorded, since the last reset. */
  function Recorded(log: Log): seq<int>
  {
    match log
    case Begin => []
    case Then(before, Reset) => []
    case Then(before, Lap) =>
      var r := Run(Initial, before);
      if r.running then Recorded(before) + [r.elapsed] else Recorded(before)
    case Then(before, _) => Recorded(before)
  }

  function Reverse(xs: seq<int>): (r: seq<int>)
  {
    seq(|xs|, i requires 0 <= i < |xs| => xs[|xs| - 1 - i])
  }

  /** The lap list holds the recorded laps, newest first. */
  lemma {:induction false} LapsAreRecordedNewestFirst(log: Log)
    ensures Run(Initial, log).laps == Reverse(Recorded(log))
  {
    match log
    case Begin =>
    case Then(before, e) =>
      LapsAreRecordedNewestFirst(before);
      var r := Run(Initial, before);
      if e.Lap? && r.running {
        var xs := Recorded(before);
        assert Reverse(xs + [r.elapsed]) == [r.elapsed] + Reverse(xs);
      }
  }

  /**
   The row labelled `Lap k` shows the k-th lap recorded since the last
   reset; the top row holds the newest lap and the highest number.
   */
  lemma LapRowShowsItsLap(log: Log, position: int)
    requires 0 <= position < |Run(Initial, log).laps|
    ensures |Recorded(log)| == |Run(Initial, log).laps|
    ensures Run(Initial, log).laps[position]
              == Recorded(log)[LapLabel(|Run(Initial, log).laps|, position) - 1]
  {
    LapsAreRecordedNewestFirst(log);
    ReversedRowsCountUp(Recorded(log), Run(Initial, log).laps, position);
  }

  lemma ReversedRowsCountUp(xs: seq<int>, rows: seq<int>, position: int)
    requires rows == Reverse(xs) && 0 <= position < |rows|
    ensures |xs| == |rows| && rows[position] == xs[LapLabel(|rows|, position) - 1]
  {
    assert rows[position] == xs[|xs| - 1 - position];
  }
}
