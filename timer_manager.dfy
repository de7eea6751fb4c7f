/** js/timer-manager.js: the continuous elapsed-time counter. Date.now() is the
    parameter `now` (milliseconds); the display interval only reads the state. */
module Timer {

  import opened Wrappers

  /** The three fields the counter updates; startTime None is null. */
  datatype Clock = Clock(startTime: Option<int>, isRunning: bool, totalElapsedTime: int)

  /** The state of a new or stopped counter. */
  const Idle := Clock(None, false, 0)

  /** JavaScript truthiness of startTime: null and 0 are both falsy. */
  predicate HasStarted(c: Clock)
  {
    c.startTime.Some? && c.startTime.value != 0
  }

  /** startContinuousTimer: no-op while running, otherwise restarts the interval at now. */
  function Start(c: Clock, now: int): Clock
  {
    if c.isRunning then c else c.(startTime := Some(now), isRunning := true)
  }

  /** pauseTimer: no-op when stopped, otherwise banks the running interval
      (null startTime reads as 0 in the subtraction). */
  function Pause(c: Clock, now: int): Clock
  {
    if !c.isRunning then c
    else c.(totalElapsedTime := c.totalElapsedTime + (now - c.startTime.GetOr(0)), isRunning := false)
  }

  /** resumeTimer: starts only when not running. */
  function Resume(c: Clock, now: int): Clock
  {
    if c.isRunning then c else Start(c, now)
  }

  /** stopTimer (and reset, which adds only display work): pause, then clear. */
  function Stop(c: Clock, now: int): Clock
  {
    Pause(c, now).(totalElapsedTime := 0, startTime := None)
  }

  /** getCurrentTime: 0 before a start, the banked time plus the running interval. */
  function Reading(c: Clock, now: int): int
  {
    if !HasStarted(c) then 0
    else c.totalElapsedTime + (if c.isRunning then now - c.startTime.value else 0)
  }

  /** The counter's state is consistent at time now: the banked time is not negative,
      and a running interval started no later than now. */
  ghost predicate Consistent(c: Clock, now: int)
  {
    && c.totalElapsedTime >= 0
    && (c.isRunning ==> c.startTime.Some? && c.startTime.value <= now)
  }

  /** Pausing does not change the time shown at the instant of the pause. */
  lemma PauseKeepsReading(c: Clock, now: int)
    requires c.isRunning ==> c.startTime.Some?
    ensures Reading(Pause(c, now), now) == Reading(c, now)
    ensures !Pause(c, now).isRunning
  {
  }

  /** After a stop the counter reads 0 whenever it is asked, and is idle. */
  lemma StopReadsZero(c: Clock, now: int, later: int)
    ensures Stop(c, now) == Idle
    ensures Reading(Stop(c, now), later) == 0
  {
  }

  /** Starting twice, or resuming a running counter, changes nothing. */
  lemma StartIdempotent(c: Clock, now: int, later: int)
    ensures Start(Start(c, now), later) == Start(c, now)
    ensures Resume(Start(c, now), later) == Start(c, now)
    ensures Start(c, now).isRunning
  {
  }

  /** Start at t0, pause at t1, resume at t2: at t3 the counter shows the two running
      intervals added up. */
  lemma StartPauseResumeAccumulates(t0: int, t1: int, t2: int, t3: int)
    requires 0 < t2
    ensures Reading(Resume(Pause(Start(Idle, t0), t1), t2), t3) == (t1 - t0) + (t3 - t2)
    ensures Reading(Pause(Start(Idle, t0), t1), t3) == (if t0 == 0 then 0 else t1 - t0)
  {
  }

  /** The timer events the application sends it. */
  datatype Event = StartEvent | PauseEvent | ResumeEvent | StopEvent

  function Apply(c: Clock, e: Event, now: int): Clock
  {
    match e
    case StartEvent => Start(c, now)
    case PauseEvent => Pause(c, now)
    case ResumeEvent => Resume(c, now)
    case StopEvent => Stop(c, now)
  }

  /** Every event keeps the counter consistent when the clock does not go back. */
  lemma ApplyConsistent(c: Clock, e: Event, now: int, later: int)
    requires Consistent(c, now) && now <= later
    ensures Consistent(Apply(c, e, later), later)
  {
  }

  /** A consistent counter never shows a negative time. */
  lemma ReadingNonNegative(c: Clock, now: int)
    requires Consistent(c, now)
    ensures Reading(c, now) >= 0
  {
  }

  /** Apply a run of timed events in order. */
  function Run(c: Clock, events: seq<(Event, int)>): Clock
    decreases |events|
  {
    if events == [] then c else Run(Apply(c, events[0].0, events[0].1), events[1..])
  }

  /** The times of a run are positive, at least `from` and in order. */
  ghost predicate Chronological(events: seq<(Event, int)>, from: int)
  {
    forall k :: 0 <= k < |events| ==>
      0 < events[k].1 && from <= events[k].1 && (k > 0 ==> events[k - 1].1 <= events[k].1)
  }

  /** One event other than a stop never makes the displayed time go down. */
  lemma StepNeverDecreases(c: Clock, e: Event, now: int, at: int, later: int)
    requires Consistent(c, now) && (c.startTime.Some? ==> c.startTime.value != 0)
    requires now <= at <= later && 0 < at && e != StopEvent
    ensures Reading(c, now) <= Reading(Apply(c, e, at), later)
    ensures Apply(c, e, at).startTime.Some? ==> Apply(c, e, at).startTime.value != 0
  {
  }

  /** With a clock that does not go back, a run of starts, pauses and resumes never
      makes the displayed time go down. */
  lemma {:induction false} RunNeverDecreases(c: Clock, events: seq<(Event, int)>, now: int, later: int)
    requires Consistent(c, now) && (c.startTime.Some? ==> c.startTime.value != 0)
    requires Chronological(events, now)
    requires forall k :: 0 <= k < |events| ==> events[k].0 != StopEvent && events[k].1 <= later
    requires now <= later
    ensures Reading(c, now) <= Reading(Run(c, events), later)
    decreases |events|
  {
    if events != [] {
      var (e, at) := events[0];
      var next := Apply(c, e, at);
      StepNeverDecreases(c, e, now, at, at);
      ApplyConsistent(c, e, now, at);
      assert Chronological(events[1..], at) by {
        forall k | 0 <= k < |events[1..]|
          ensures 0 < events[1..][k].1 && at <= events[1..][k].1
        {
          assert events[1..][k] == events[k + 1];
          ChronologicalFromStart(events, now, k + 1);
        }
      }
      RunNeverDecreases(next, events[1..], at, later);
    }
  }

  /** In a chronological run every time is at least the first one. */
  lemma {:induction false} ChronologicalFromStart(events: seq<(Event, int)>, from: int, k: nat)
    requires Chronological(events, from) && k < |events|
    ensures events[0].1 <= events[k].1
    decreases k
  {
    if k > 0 {
      ChronologicalFromStart(events, from, k - 1);
    }
  }

  class TimerManager {
    var startTime: Option<int>
    var isRunning: bool
    var totalElapsedTime: int
    /** setTimedMode's record; never read by the counter. */
    var timePerQuestion: Option<int>
    var isTimedMode: bool

    function State(): Clock
      reads this
    {
      Clock(startTime, isRunning, totalElapsedTime)
    }

    constructor ()
      ensures State() == Idle
      ensures timePerQuestion == None && !isTimedMode
    {
      startTime := None;
      isRunning := false;
      totalElapsedTime := 0;
      timePerQuestion := None;
      isTimedMode := false;
    }

    method StartContinuousTimer(now: int)
      modifies this`startTime, this`isRunning
      ensures State() == Start(old(State()), now)
    {
      if isRunning {
        return;
      }
      startTime := Some(now);
      isRunning := true;
    }

    method PauseTimer(now: int)
      modifies this`totalElapsedTime, this`isRunning
      ensures State() == Pause(old(State()), now)
    {
      if !isRunning {
        return;
      }
      totalElapsedTime := totalElapsedTime + (now - startTime.GetOr(0));
      isRunning := false;
    }

    method ResumeTimer(now: int)
      modifies this`startTime, this`isRunning
      ensures State() == Resume(old(State()), now)
    {
      if isRunning {
        return;
      }
      StartContinuousTimer(now);
    }

    method StopTimer(now: int)
      modifies this`startTime, this`isRunning, this`totalElapsedTime
      ensures State() == Stop(old(State()), now)
      ensures State() == Idle
    {
      PauseTimer(now);
      totalElapsedTime := 0;
      startTime := None;
    }

    method GetCurrentTime(now: int) returns (elapsed: int)
      ensures elapsed == Reading(State(), now)
      ensures !HasStarted(State()) ==> elapsed == 0
      ensures Consistent(State(), now) ==> elapsed >= 0
    {
      if !(startTime.Some? && startTime.value != 0) {
        return 0;
      }
      var currentElapsed := if isRunning then now - startTime.value else 0;
      elapsed := totalElapsedTime + currentElapsed;
    }

    method Reset(now: int)
      modifies this`startTime, this`isRunning, this`totalElapsedTime
      ensures State() == Idle
    {
      StopTimer(now);
    }

    method SetTimedMode(timePerQuestion: int)
      modifies this`timePerQuestion, this`isTimedMode
      ensures State() == old(State())
      ensures this.timePerQuestion == Some(timePerQuestion) && isTimedMode
    {
      this.timePerQuestion := Some(timePerQuestion);
      isTimedMode := true;
    }
  }
}
