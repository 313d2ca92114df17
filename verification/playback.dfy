/**
  The playback engine of the vehicle tracker: the page's state, the three
  things that change it (the play/pause toggle, one firing of the interval
  timer, and the reset button), and what holds of every state the page can
  reach through its controls.

  The interval timer is not scheduled here. Each firing is an explicit
  `Fire(now)` event and each click carries the wall-clock time it happened,
  in milliseconds.
*/
module Playback {
  import opened Options
  import opened Kinematics

  /**
    The page's playback state. `startTime` is the start-time ref, `timerArmed`
    says whether the interval ref holds a handle, and `orphanedTimers` counts
    intervals that still run although the ref no longer holds their handle
    (a second `setInterval` overwrote it before the first was cleared).
    `elapsedTime` is in seconds and `currentSpeed` in km/h.
  */
  datatype PlaybackState = PlaybackState(
    currentIndex: nat,
    isPlaying: bool,
    elapsedTime: real,
    currentSpeed: real,
    startTime: Option<int>,
    timerArmed: bool,
    orphanedTimers: nat)

  /** The state the page starts in. */
  const Initial := PlaybackState(0, false, 0.0, 0.0, None, false, 0)

  /** What the user or the interval timer can do to the page. */
  datatype Event =
    | PlayPauseClick(now: int)
    | Fire(now: int)
    | ResetClick

  /** Seconds from `start` to `now`, both in milliseconds. */
  function ElapsedSeconds(start: int, now: int): (seconds: real)
    ensures seconds * MillisPerSecond == (now - start) as real
  {
    (now - start) as real / MillisPerSecond
  }

  /** The Play/Pause button is enabled: the route is loaded and not at its last sample. */
  predicate PlayEnabled(routeLength: nat, currentIndex: nat)
    ensures PlayEnabled(routeLength, currentIndex) <==> currentIndex + 1 < routeLength
  {
    routeLength != 0 && currentIndex < routeLength - 1
  }

  /**
    The play/pause toggle. Pausing clears the interval and stops playing;
    playing records the start time unless one is already set, starts a new
    interval and marks the page as playing. A running interval whose handle
    is overwritten keeps running as an orphan.
  */
  function Toggle(s: PlaybackState, now: int): (r: PlaybackState)
    ensures s.isPlaying ==>
      && !r.isPlaying && !r.timerArmed
      && r.currentIndex == s.currentIndex
      && r.startTime == s.startTime
      && r.elapsedTime == s.elapsedTime
      && r.currentSpeed == s.currentSpeed
      && r.orphanedTimers == s.orphanedTimers
    ensures !s.isPlaying ==>
      && r.isPlaying && r.timerArmed
      && r.startTime == Some(ValueOr(s.startTime, now))
      && r.currentIndex == s.currentIndex
      && r.elapsedTime == s.elapsedTime
      && r.currentSpeed == s.currentSpeed
      && r.orphanedTimers == s.orphanedTimers + (if s.timerArmed then 1 else 0)
  {
    if s.isPlaying then
      s.(timerArmed := false, isPlaying := false)
    else
      var start := if s.startTime.None? then Some(now) else s.startTime;
      var orphaned := if s.timerArmed then s.orphanedTimers + 1 else s.orphanedTimers;
      s.(startTime := start, timerArmed := true, orphanedTimers := orphaned, isPlaying := true)
  }

  /**
    One firing of the interval: the index updater. At the last sample (or on
    an empty route) it only stops playing and leaves the interval running;
    otherwise it moves one sample on, recomputes the speed of the new leg and,
    when a start time is set, the elapsed wall-clock time.
  */
  function Tick(route: Route, distance: Distance, s: PlaybackState, now: int): (r: PlaybackState)
    ensures s.currentIndex + 1 >= |route| ==> r == s.(isPlaying := false)
    ensures s.currentIndex + 1 < |route| ==>
      && r.currentIndex == s.currentIndex + 1
      && r.currentSpeed == CalculateSpeed(route, distance, r.currentIndex)
      && r.elapsedTime == (if s.startTime.Some? then ElapsedSeconds(s.startTime.value, now) else s.elapsedTime)
      && r.isPlaying == s.isPlaying
      && r.startTime == s.startTime
      && r.timerArmed == s.timerArmed
      && r.orphanedTimers == s.orphanedTimers
  {
    var nextIndex := s.currentIndex + 1;
    if nextIndex >= |route| then
      s.(isPlaying := false)
    else
      var speed := CalculateSpeed(route, distance, nextIndex);
      var elapsed := if s.startTime.Some? then ElapsedSeconds(s.startTime.value, now) else s.elapsedTime;
      s.(currentSpeed := speed, elapsedTime := elapsed, currentIndex := nextIndex)
  }

  /** The reset button: clears the interval ref and restores every field of the initial state. */
  function Reset(s: PlaybackState): (r: PlaybackState)
    ensures r.currentIndex == 0 && !r.isPlaying && r.elapsedTime == 0.0 && r.currentSpeed == 0.0
    ensures r.startTime == None && !r.timerArmed
    ensures r.orphanedTimers == s.orphanedTimers
  {
    s.(currentIndex := 0, isPlaying := false, elapsedTime := 0.0, currentSpeed := 0.0,
       startTime := None, timerArmed := false)
  }

  /** Some interval is running, so a firing can happen. */
  predicate TimerRunning(s: PlaybackState)
  {
    s.timerArmed || s.orphanedTimers > 0
  }

  /**
    One event as the page handles it: a click on a disabled button does
    nothing, and a firing needs a running interval. Apart from a reset, an
    event moves the index forward by at most one sample, never past the last,
    and keeps a recorded start time.
  */
  function Step(route: Route, distance: Distance, s: PlaybackState, e: Event): (r: PlaybackState)
    ensures e.PlayPauseClick? && !PlayEnabled(|route|, s.currentIndex) ==> r == s
    ensures e.Fire? && !TimerRunning(s) ==> r == s
    ensures !e.ResetClick? ==>
      && (r.currentIndex == s.currentIndex || r.currentIndex == s.currentIndex + 1)
      && (r.currentIndex > s.currentIndex ==> r.currentIndex < |route|)
      && (s.startTime.Some? ==> r.startTime == s.startTime)
    ensures e.PlayPauseClick? && PlayEnabled(|route|, s.currentIndex) ==> r == Toggle(s, e.now)
    ensures e.Fire? && TimerRunning(s) ==> r == Tick(route, distance, s, e.now)
    ensures e.ResetClick? ==> r == Reset(s)
  {
    match e
    case PlayPauseClick(now) => if PlayEnabled(|route|, s.currentIndex) then Toggle(s, now) else s
    case Fire(now) => if TimerRunning(s) then Tick(route, distance, s, now) else s
    case ResetClick => Reset(s)
  }

  /** The state after handling `events` in order, starting from `s`. */
  function Run(route: Route, distance: Distance, s: PlaybackState, events: seq<Event>): PlaybackState
    decreases |events|
  {
    if |events| == 0 then s
    else Run(route, distance, Step(route, distance, s, events[0]), events[1..])
  }

  /** Handling a first event and then the rest. */
  lemma RunCons(route: Route, distance: Distance, s: PlaybackState, e: Event, rest: seq<Event>)
    ensures Run(route, distance, s, [e] + rest) == Run(route, distance, Step(route, distance, s, e), rest)
  {
    assert ([e] + rest)[1..] == rest;
  }

  /** The state after firing the tick updater once per timestamp in `nows`. */
  function Ticks(route: Route, distance: Distance, s: PlaybackState, nows: seq<int>): PlaybackState
    decreases |nows|
  {
    if |nows| == 0 then s
    else Ticks(route, distance, Tick(route, distance, s, nows[0]), nows[1..])
  }

  /** The largest index the route allows: its last sample, or 0 when it is empty. */
  function LastIndex(route: Route): nat
  {
    if |route| == 0 then 0 else |route| - 1
  }

  /**
    What holds of every state reachable from the initial one: the index names
    a sample (or is 0), no interval is orphaned, playing implies an armed
    interval, an armed interval while not playing only happens at the end of
    the route, an armed interval implies a start time, no start time means
    nothing has advanced, and the shown speed is the speed of the current leg.
  */
  ghost predicate Consistent(route: Route, distance: Distance, s: PlaybackState)
  {
    && s.currentIndex <= LastIndex(route)
    && s.orphanedTimers == 0
    && (s.isPlaying ==> s.timerArmed)
    && (s.timerArmed && !s.isPlaying ==> s.currentIndex + 1 >= |route|)
    && (s.timerArmed ==> s.startTime.Some?)
    && (s.startTime.None? ==> s.currentIndex == 0 && s.elapsedTime == 0.0)
    && s.currentSpeed == CalculateSpeed(route, distance, s.currentIndex)
  }

  lemma InitialConsistent(route: Route, distance: Distance)
    ensures Consistent(route, distance, Initial)
  {
  }

  lemma StepPreservesConsistent(route: Route, distance: Distance, s: PlaybackState, e: Event)
    requires Consistent(route, distance, s)
    ensures Consistent(route, distance, Step(route, distance, s, e))
  {
  }

  lemma {:induction false} RunPreservesConsistent(route: Route, distance: Distance, s: PlaybackState, events: seq<Event>)
    requires Consistent(route, distance, s)
    ensures Consistent(route, distance, Run(route, distance, s, events))
    decreases |events|
  {
    if |events| > 0 {
      StepPreservesConsistent(route, distance, s, events[0]);
      RunPreservesConsistent(route, distance, Step(route, distance, s, events[0]), events[1..]);
    }
  }

  /**
    Every state the page reaches through its controls keeps the index within
    the route, never orphans an interval, and shows the speed of the current leg.
  */
  lemma ReachableConsistent(route: Route, distance: Distance, events: seq<Event>)
    ensures Consistent(route, distance, Run(route, distance, Initial, events))
  {
    InitialConsistent(route, distance);
    RunPreservesConsistent(route, distance, Initial, events);
  }

  lemma {:induction false} RunAppend(route: Route, distance: Distance, s: PlaybackState, a: seq<Event>, b: seq<Event>)
    ensures Run(route, distance, s, a + b) == Run(route, distance, Run(route, distance, s, a), b)
    decreases |a|
  {
    if |a| > 0 {
      assert (a + b)[0] == a[0];
      assert (a + b)[1..] == a[1..] + b;
      var next := Step(route, distance, s, a[0]);
      assert Run(route, distance, s, a + b) == Run(route, distance, next, a[1..] + b);
      assert Run(route, distance, s, a) == Run(route, distance, next, a[1..]);
      RunAppend(route, distance, next, a[1..], b);
    } else {
      assert a + b == b;
    }
  }

  /** A reset after any sequence of events returns the page exactly to its initial state. */
  lemma ResetRestoresInitial(route: Route, distance: Distance, events: seq<Event>)
    ensures Run(route, distance, Initial, events + [ResetClick]) == Initial
  {
    RunAppend(route, distance, Initial, events, [ResetClick]);
    ReachableConsistent(route, distance, events);
  }

  /** Reset is idempotent. */
  lemma ResetIdempotent(s: PlaybackState)
    ensures Reset(Reset(s)) == Reset(s)
  {
  }

  /** Any number of consecutive resets (at least one) gives the same state as one. */
  lemma {:induction false} RepeatedResets(route: Route, distance: Distance, s: PlaybackState, n: nat)
    requires n >= 1
    ensures Run(route, distance, s, seq(n, _ => ResetClick)) == Reset(s)
    decreases n
  {
    var resets := seq(n, _ => ResetClick);
    assert resets[0] == ResetClick;
    if n == 1 {
      assert resets[1..] == [];
    } else {
      assert resets[1..] == seq(n - 1, _ => ResetClick);
      RepeatedResets(route, distance, Reset(s), n - 1);
    }
  }

  /**
    Firing the tick updater repeatedly: the index climbs one sample per tick
    until the last sample and then stays; playing stops at the first tick that
    finds no next sample.
  */
  lemma {:induction false} TicksClosedForm(route: Route, distance: Distance, s: PlaybackState, nows: seq<int>)
    ensures var r := Ticks(route, distance, s, nows);
      && r.currentIndex == (if s.currentIndex + 1 >= |route| then s.currentIndex
                            else Min(s.currentIndex + |nows|, |route| - 1))
      && r.isPlaying == (s.isPlaying && (|nows| == 0 || s.currentIndex + |nows| < |route|))
      && r.startTime == s.startTime
      && r.timerArmed == s.timerArmed
    decreases |nows|
  {
    if |nows| > 0 {
      TicksClosedForm(route, distance, Tick(route, distance, s, nows[0]), nows[1..]);
    }
  }

  /** The smaller of two integers. */
  function Min(a: int, b: int): (m: int)
    ensures m <= a && m <= b && (m == a || m == b)
  {
    if a <= b then a else b
  }

  /** Over any sequence of ticks the index never decreases and never passes the last sample. */
  lemma TicksMonotoneBounded(route: Route, distance: Distance, s: PlaybackState, nows: seq<int>)
    requires s.currentIndex <= LastIndex(route)
    ensures s.currentIndex <= Ticks(route, distance, s, nows).currentIndex <= LastIndex(route)
  {
    TicksClosedForm(route, distance, s, nows);
  }

  /** On an empty route ticks never move the index away from 0. */
  lemma EmptyRouteTicks(route: Route, distance: Distance, s: PlaybackState, nows: seq<int>)
    requires |route| == 0 && s.currentIndex == 0
    ensures Ticks(route, distance, s, nows).currentIndex == 0
  {
    TicksClosedForm(route, distance, s, nows);
  }

  /**
    A tick at the last sample stops playing but leaves the interval armed and
    everything else as it was; further ticks change nothing.
  */
  lemma AutoPauseAtEnd(route: Route, distance: Distance, s: PlaybackState, now: int, later: int)
    requires |route| > 0 && s.currentIndex == |route| - 1
    ensures var r := Tick(route, distance, s, now);
      && !r.isPlaying && r.currentIndex == s.currentIndex
      && r.timerArmed == s.timerArmed
      && Tick(route, distance, r, later) == r
  {
  }

  /**
    Once playback has stopped at the end with the interval still armed, only a
    reset changes anything: the button is disabled and every firing finds no
    next sample.
  */
  lemma StoppedAtEndWaitsForReset(route: Route, distance: Distance, s: PlaybackState, e: Event)
    requires Consistent(route, distance, s)
    requires s.timerArmed && !s.isPlaying && !e.ResetClick?
    ensures Step(route, distance, s, e) == s
  {
  }

  /** The Play/Pause button is enabled exactly when a tick would advance the index. */
  lemma PlayEnabledIffTickAdvances(route: Route, distance: Distance, s: PlaybackState, now: int)
    ensures PlayEnabled(|route|, s.currentIndex) <==>
      Tick(route, distance, s, now).currentIndex == s.currentIndex + 1
  {
  }

  /** Without a reset, no event moves the index backwards. */
  lemma {:induction false} IndexMonotoneWithoutReset(route: Route, distance: Distance, s: PlaybackState, events: seq<Event>)
    requires forall i :: 0 <= i < |events| ==> !events[i].ResetClick?
    ensures Run(route, distance, s, events).currentIndex >= s.currentIndex
    decreases |events|
  {
    if |events| > 0 {
      var next := Step(route, distance, s, events[0]);
      assert next.currentIndex >= s.currentIndex;
      IndexMonotoneWithoutReset(route, distance, next, events[1..]);
    }
  }

  /** Once set, the start time survives every event except a reset: pausing does not clear it. */
  lemma {:induction false} StartTimeSurvivesWithoutReset(route: Route, distance: Distance, s: PlaybackState, events: seq<Event>)
    requires s.startTime.Some?
    requires forall i :: 0 <= i < |events| ==> !events[i].ResetClick?
    ensures Run(route, distance, s, events).startTime == s.startTime
    decreases |events|
  {
    if |events| > 0 {
      StartTimeSurvivesWithoutReset(route, distance, Step(route, distance, s, events[0]), events[1..]);
    }
  }

  /** On an empty route no event changes anything: the button is disabled and no interval ever runs. */
  lemma {:induction false} EmptyRouteStaysInitial(route: Route, distance: Distance, events: seq<Event>)
    requires |route| == 0
    ensures Run(route, distance, Initial, events) == Initial
    decreases |events|
  {
    if |events| > 0 {
      assert Step(route, distance, Initial, events[0]) == Initial;
      EmptyRouteStaysInitial(route, distance, events[1..]);
    }
  }

  /**
    In a reachable state, pausing cancels the only running interval: a firing
    that comes after the pause changes nothing.
  */
  lemma PauseStopsFirings(route: Route, distance: Distance, s: PlaybackState, pauseAt: int, now: int)
    requires Consistent(route, distance, s)
    requires s.isPlaying && PlayEnabled(|route|, s.currentIndex)
    ensures var paused := Step(route, distance, s, PlayPauseClick(pauseAt));
      && !paused.isPlaying && !TimerRunning(paused)
      && Step(route, distance, paused, Fire(now)) == paused
  {
  }

  /** Pausing right after playing undoes everything except the recorded start time. */
  lemma PauseUndoesPlay(s: PlaybackState, playAt: int, pauseAt: int)
    requires !s.isPlaying && !s.timerArmed
    ensures Toggle(Toggle(s, playAt), pauseAt) == s.(startTime := Some(ValueOr(s.startTime, playAt)))
  {
  }
}
