/**
  Concrete runs of the page: a two-sample route one hour apart, a
  single-sample route, play then pause, and play, ticks, reset.
*/
module Scenarios {
  import opened Options
  import opened Kinematics
  import opened Playback

  /** Two samples on the equator, one degree of longitude and one hour apart. */
  function TwoSampleRoute(): (route: Route)
    ensures |route| == 2
    ensures HoursBetween(route[0], route[1]) == 1.0
  {
    [RoutePoint(0.0, 0.0, 0), RoutePoint(0.0, 1.0, 3600000)]
  }

  /**
    Play, then one firing: the vehicle is at the second sample, the speed is
    the leg's distance per one hour, and the next firing stops playing while
    the interval stays armed.
  */
  lemma OneHourLeg(distance: Distance, t0: int, t1: int, t2: int)
    ensures var route := TwoSampleRoute();
      var s := Run(route, distance, Initial, [PlayPauseClick(t0), Fire(t1)]);
      var r := Run(route, distance, s, [Fire(t2)]);
      && s.currentIndex == 1 && s.isPlaying
      && s.currentSpeed == distance(route[0], route[1])
      && s.elapsedTime == ElapsedSeconds(t0, t1)
      && r.currentIndex == 1 && !r.isPlaying && r.timerArmed
      && !PlayEnabled(|route|, r.currentIndex)
  {
    var route := TwoSampleRoute();
    var s1 := Step(route, distance, Initial, PlayPauseClick(t0));
    assert s1 == Toggle(Initial, t0);
    var s2 := Step(route, distance, s1, Fire(t1));
    assert s2 == Tick(route, distance, s1, t1);
    assert SpeedDefined(route, 1);
    assert s2.currentSpeed * 1.0 == distance(route[0], route[1]);
    RunCons(route, distance, Initial, PlayPauseClick(t0), [Fire(t1)]);
    RunCons(route, distance, s1, Fire(t1), []);
    assert [PlayPauseClick(t0)] + [Fire(t1)] == [PlayPauseClick(t0), Fire(t1)];
    assert [Fire(t1)] + [] == [Fire(t1)];
    RunCons(route, distance, s2, Fire(t2), []);
  }

  /** With a single sample the Play button does nothing. */
  lemma SingleSampleCannotPlay(p: RoutePoint, distance: Distance, now: int)
    ensures Run([p], distance, Initial, [PlayPauseClick(now)]) == Initial
  {
  }

  /** Play then pause before any firing: still at the first sample, stopped, start time kept. */
  lemma PlayThenPause(route: Route, distance: Distance, t0: int, t1: int)
    requires |route| >= 2
    ensures var s := Run(route, distance, Initial, [PlayPauseClick(t0), PlayPauseClick(t1)]);
      && s.currentIndex == 0 && !s.isPlaying && !s.timerArmed
      && s.startTime == Some(t0)
  {
    var s1 := Step(route, distance, Initial, PlayPauseClick(t0));
    var s2 := Step(route, distance, s1, PlayPauseClick(t1));
    RunCons(route, distance, Initial, PlayPauseClick(t0), [PlayPauseClick(t1)]);
    RunCons(route, distance, s1, PlayPauseClick(t1), []);
    assert [PlayPauseClick(t0)] + [PlayPauseClick(t1)] == [PlayPauseClick(t0), PlayPauseClick(t1)];
    assert [PlayPauseClick(t1)] + [] == [PlayPauseClick(t1)];
  }

  /**
    Play, pause, play again, then a firing: the elapsed time counts from the
    first play, including the paused interval.
  */
  lemma ElapsedIncludesPause(route: Route, distance: Distance, t0: int, t1: int, t2: int, t3: int)
    requires |route| >= 2
    ensures Run(route, distance, Initial,
              [PlayPauseClick(t0), PlayPauseClick(t1), PlayPauseClick(t2), Fire(t3)]).elapsedTime
            == ElapsedSeconds(t0, t3)
  {
    var events := [PlayPauseClick(t0), PlayPauseClick(t1), PlayPauseClick(t2), Fire(t3)];
    var s1 := Step(route, distance, Initial, events[0]);
    var s2 := Step(route, distance, s1, events[1]);
    var s3 := Step(route, distance, s2, events[2]);
    var s4 := Step(route, distance, s3, events[3]);
    assert s3.startTime == Some(t0);
    RunCons(route, distance, Initial, events[0], events[1..]);
    RunCons(route, distance, s1, events[1], events[2..]);
    RunCons(route, distance, s2, events[2], events[3..]);
    RunCons(route, distance, s3, events[3], []);
    assert events == [events[0]] + events[1..];
    assert events[1..] == [events[1]] + events[2..];
    assert events[2..] == [events[2]] + events[3..];
    assert events[3..] == [events[3]] + [];
  }

  /** Play, any further events, reset: back to the initial state, start time cleared. */
  lemma PlayTicksReset(route: Route, distance: Distance, t0: int, events: seq<Event>)
    ensures Run(route, distance, Initial, [PlayPauseClick(t0)] + events + [ResetClick]) == Initial
  {
    ResetRestoresInitial(route, distance, [PlayPauseClick(t0)] + events);
  }
}
