/**
 The stopwatch controller: the fields the activity keeps and the handlers
 that update them in place. The wall clock is a parameter `now` of the
 handlers that read it; a ghost log of the handled events ties the fields
 to the value model in StopwatchModel, so that the lemmas proved there
 hold of every controller.
 */
module StopwatchController {
  import opened StopwatchModel
  import opened TimeFormat

  class Stopwatch {
    var isRunning: bool
    var startTime: int
    var elapsedTime: int
    var lapTimes: seq<int>

    /** The first clock reading the controller was created at. */
    ghost var origin: int
    /** The latest clock reading handed to the controller. */
    ghost var clock: int
    /** Every event handled so far, oldest first. */
    ghost var events: Log

    ghost function State(): Snapshot
      reads this
    {
      Snapshot(isRunning, startTime, elapsedTime, lapTimes)
    }

    /**
     The fields are what the logged events produce from the initial state,
     the clock has never run backward, and the fields are consistent with
     the latest reading.
     */
    ghost predicate Valid()
      reads this
    {
      State() == Run(Initial, events) &&
      OnTime(origin, events) &&
      clock == LatestTime(origin, events) &&
      Consistent(State(), clock)
    }

    /** The activity's start-up: stopped, at zero, with no laps. */
    constructor (ghost now: int)
      ensures Valid()
      ensures State() == Initial && events == Begin && clock == now
    {
      isRunning, startTime, elapsedTime, lapTimes := false, 0, 0, [];
      origin, clock, events := now, now, Begin;
    }

    /** `toggleStopwatch`: the start/stop button. */
    method Toggle(now: int)
      requires Valid() && clock <= now
      modifies this
      ensures Valid()
      ensures State() == Toggled(old(State()), now)
      ensures events == Then(old(events), Event.Toggle(now)) && clock == now && origin == old(origin)
    {
      if !isRunning {
        Start(now);
      } else {
        Stop();
      }
      StepKeepsConsistent(old(State()), clock, Event.Toggle(now));
      events, clock := Then(events, Event.Toggle(now)), now;
    }

    /**
     `startStopwatch`, a private step of `Toggle`: resume from the elapsed
     time shown; a no-op while running. It does not log an event, so it
     is only called from `Toggle`, which restores `Valid()`.
     */
    method Start(now: int)
      modifies this`isRunning, this`startTime
      ensures State() == Started(old(State()), now)
    {
      if !isRunning {
        isRunning := true;
        startTime := now - elapsedTime;
      }
    }

    /**
     `stopStopwatch`, a private step of `Toggle`: the elapsed time keeps the
     value of the last refresh. Like `Start`, it is only called from `Toggle`.
     */
    method Stop()
      modifies this`isRunning
      ensures State() == Stopped(old(State()))
    {
      isRunning := false;
    }

    /**
     One firing of the refresh callback. A callback that fires after the
     watch was stopped finds the flag down and does nothing.
     */
    method Tick(now: int)
      requires Valid() && clock <= now
      modifies this
      ensures Valid()
      ensures State() == Ticked(old(State()), now)
      ensures events == Then(old(events), Event.Tick(now)) && clock == now && origin == old(origin)
    {
      if isRunning {
        elapsedTime := now - startTime;
      }
      StepKeepsConsistent(old(State()), clock, Event.Tick(now));
      events, clock := Then(events, Event.Tick(now)), now;
    }

    /** `recordLap`: the lap button; ignored while stopped. */
    method RecordLap()
      requires Valid()
      modifies this
      ensures Valid()
      ensures State() == Lapped(old(State()))
      ensures events == Then(old(events), Lap) && clock == old(clock) && origin == old(origin)
    {
      if isRunning {
        lapTimes := [elapsedTime] + lapTimes;
      }
      StepKeepsConsistent(old(State()), clock, Lap);
      events := Then(events, Lap);
    }

    /** `resetStopwatch`: the reset button, from any state. */
    method Reset()
      requires Valid()
      modifies this
      ensures Valid()
      ensures State() == Cleared(old(State()))
      ensures events == Then(old(events), Event.Reset) && clock == old(clock) && origin == old(origin)
    {
      isRunning := false;
      elapsedTime := 0;
      lapTimes := [];
      events := Then(events, Event.Reset);
    }

    /**
     `updateTimeDisplay`: the text shown for the elapsed time, which reads
     back as exactly that many milliseconds.
     */
    method TimeText() returns (text: string)
      requires Valid()
      ensures text == FormatTime(elapsedTime)
      ensures WellFormed(text) && ParseTime(text) == elapsedTime
    {
      text := Render(elapsedTime);
    }

    /**
     `onBindViewHolder`: the number and the time text of row `position` of
     the lap list. The row labelled `Lap k` shows the k-th lap recorded
     since the last reset.
     */
    method LapRow(position: int) returns (number: int, text: string)
      requires Valid() && 0 <= position < |lapTimes|
      ensures 1 <= number <= |lapTimes| && number == |lapTimes| - position
      ensures |Recorded(events)| == |lapTimes|
      ensures lapTimes[position] == Recorded(events)[number - 1]
      ensures text == FormatTime(lapTimes[position])
      ensures WellFormed(text) && ParseTime(text) == lapTimes[position]
    {
      number := LapNumber(position);
      text := LapText(position);
    }

    /** The number on row `position`: `Lap (size - position)`. */
    method LapNumber(position: int) returns (number: int)
      requires Valid() && 0 <= position < |lapTimes|
      ensures 1 <= number <= |lapTimes| && number == |lapTimes| - position
      ensures |Recorded(events)| == |lapTimes|
      ensures lapTimes[position] == Recorded(events)[number - 1]
    {
      number := LapLabel(|lapTimes|, position);
      LapRowShowsItsLap(events, position);
    }

    /** The time text on row `position`, which reads back as that lap's time. */
    method LapText(position: int) returns (text: string)
      requires Valid() && 0 <= position < |lapTimes|
      ensures text == FormatTime(lapTimes[position])
      ensures WellFormed(text) && ParseTime(text) == lapTimes[position]
    {
      var lap := lapTimes[position];
      assert 0 <= lap;
      text := Render(lap);
    }
  }

  /**
   Start, one refresh, a lap, stop, a stale refresh, reset: the lap holds
   the time of the refresh, stopping keeps the last refreshed value (the
   time between the last refresh and the stop is not counted), the stale
   refresh changes nothing, and reset clears everything.
   */
  method StartLapStopReset(t0: int, t1: int, t2: int, t3: int)
    returns (laps: seq<int>, atStop: int, afterStaleTick: int, afterReset: int, lapsAfterReset: seq<int>)
    requires t0 <= t1 <= t2 <= t3
    ensures laps == [t1 - t0]
    ensures atStop == t1 - t0 && afterStaleTick == t1 - t0
    ensures afterReset == 0 && lapsAfterReset == []
  {
    var w := new Stopwatch(t0);
    w.Toggle(t0);
    assert w.isRunning && w.startTime == t0 && w.lapTimes == [];
    w.Tick(t1);
    assert w.isRunning && w.elapsedTime == t1 - t0 && w.lapTimes == [];
    w.RecordLap();
    laps := w.lapTimes;
    assert w.isRunning && w.elapsedTime == t1 - t0 && laps == [t1 - t0];
    w.Toggle(t2);
    atStop := w.elapsedTime;
    assert !w.isRunning && atStop == t1 - t0;
    w.Tick(t3);
    afterStaleTick := w.elapsedTime;
    assert afterStaleTick == t1 - t0;
    w.Reset();
    afterReset, lapsAfterReset := w.elapsedTime, w.lapTimes;
  }

  /**
   Pause and resume on a controller: stopped with `e` on the display,
   started at `t0` and refreshed at `t1`, it shows `e + (t1 - t0)`.
   */
  method PauseResume(w: Stopwatch, t0: int, t1: int) returns (shown: int)
    requires w.Valid() && !w.isRunning && w.clock <= t0 <= t1
    modifies w
    ensures w.Valid() && w.isRunning
    ensures shown == w.elapsedTime == old(w.elapsedTime) + (t1 - t0)
    ensures w.lapTimes == old(w.lapTimes)
  {
    w.Toggle(t0);
    w.Tick(t1);
    shown := w.elapsedTime;
  }
}
