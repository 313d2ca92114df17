# Vehicle tracker playback, modelled in Dafny

The vehicle tracker replays a recorded route on a map. Its page keeps a small
playback state: the current sample index, whether it is playing, the elapsed
time, the current speed, the start time and the handle of an interval timer.
Three things change that state:
- the Play/Pause button's toggle;
- each firing of the 1.5-second interval, which advances one sample;
- the Reset button.

Around them sit the speed computation between two samples, the rule that
enables the Play/Pause button, the progress counter and percentage, and the
`m:ss` elapsed-time label.

The model is functional. `Playback.PlaybackState` is an immutable record and
`Toggle`, `Tick` and `Reset` are pure functions. `Step` applies one event
(`PlayPauseClick(now)`, `Fire(now)`, `ResetClick`) as the page does: a click on
a disabled button does nothing, and a firing only happens while some interval
is running. `Run` folds a sequence of events.

Some choices made in the model:
- Timestamps are integers in milliseconds.
- Great-circle distance is any function that never returns a negative value
  (`Kinematics.Distance`).
- Speeds, elapsed seconds and percentages are exact `real`s.

Behaviours of the code that the model keeps:
- The tick that finds no next sample sets `isPlaying` to false but does not
  clear the interval. `timerArmed` stays true and the interval keeps firing
  until a reset (`Playback.AutoPauseAtEnd`). Only the reset clears it: the
  toggle would take its play branch, and the button is disabled anyway
  (`Playback.StoppedAtEndWaitsForReset`).
- `togglePlayback` itself does not refuse to play at the last sample. Only the
  button's `disabled` rule does, so the model puts that rule in `Step`.
- Calling the raw toggle while an interval is armed and the page is not
  playing would overwrite the handle and leave an interval running. The model counts such intervals in
  `orphanedTimers`.
- Through the page's controls this never happens (`Playback.ReachableConsistent`).
- While playing at the last sample, the button is disabled, so it cannot pause.
  The next firing stops playback instead.
- On an empty route the counter shows `1 / 0` while the percentage shows 0
  (`Progress.ReachableProgressBounded`).

Files: `options.dfy` (optional values), `kinematics.dfy` (route and speed),
`playback.dfy` (state machine and its invariants), `progress.dfy` (progress
panel), `time_format.dfy` (elapsed-time label), `scenarios.dfy` (concrete runs).

## Model

| member | source | states |
|---|---|---|
| Kinematics.HoursBetween | src/app/page.tsx:69 | the time difference is the millisecond delta divided by 1000 and by 3600, and it is positive exactly when the later sample's timestamp is larger |
| Kinematics.CalculateSpeed | src/app/page.tsx:61-72 | speed is never negative; it is 0 at index 0, for a missing sample or a non-positive time difference; otherwise speed times hours equals the leg's distance |
| Kinematics.SpeedZeroIff | src/app/page.tsx:62-71 | speed is 0 exactly when the leg is missing or not forward in time, or the distance is 0 |
| Kinematics.ZeroDeltaSpeed | src/app/page.tsx:69-71 | equal or decreasing timestamps give speed 0 rather than a division by zero |
| Kinematics.SpeedIsLocal | src/app/page.tsx:64-67 | the speed at index i depends only on samples i-1 and i |
| Playback.ElapsedSeconds | src/app/page.tsx:101 | elapsed seconds times 1000 is the millisecond difference between now and the start time |
| Playback.Toggle | src/app/page.tsx:75-111 | pausing clears the interval and stops playing with index, start time, elapsed time and speed unchanged; playing keeps an existing start time or records now, arms the interval and plays, and an interval already armed becomes orphaned |
| Playback.Tick | src/app/page.tsx:87-107 | with no next sample only isPlaying becomes false and the interval stays armed; otherwise the index rises by exactly 1, the speed becomes that of the new leg, and the elapsed time is recomputed from the start time only when one is set |
| Playback.PlayEnabled | src/app/page.tsx:156 | the Play/Pause button is enabled exactly when a sample exists after the current one |
| Playback.Step | src/app/page.tsx:87-156 | a click on the enabled Play/Pause button runs the toggle and a click on the disabled one changes nothing; a firing runs the tick updater while some interval is running and changes nothing otherwise; a reset click runs the reset; apart from a reset, an event advances the index by at most one, never past the last sample, and keeps a recorded start time |
| Playback.Reset | src/app/page.tsx:114-124 | from any state: index 0, not playing, elapsed 0, speed 0, no start time, interval disarmed |
| Playback.ResetIdempotent | src/app/page.tsx:114-124 | resetting twice is the same as resetting once |
| Playback.RepeatedResets | src/app/page.tsx:114-124 | any number (at least one) of consecutive reset clicks gives the state of one reset |
| Playback.ResetRestoresInitial | src/app/page.tsx:114-124 | after any sequence of events, a reset returns the page exactly to its initial state |
| Playback.InitialConsistent | src/app/page.tsx:27-32 | the initial state satisfies the reachable-state invariant |
| Playback.StepPreservesConsistent | src/app/page.tsx:75-124 | each click, firing or reset preserves the invariant: index within the route, no orphaned interval, playing implies an armed interval, armed but stopped only at the end, speed equal to the current leg's |
| Playback.RunPreservesConsistent | src/app/page.tsx:75-124 | the invariant holds after any sequence of events |
| Playback.ReachableConsistent | src/app/page.tsx:75-156 | every state reachable through the page's controls satisfies the invariant |
| Playback.TicksClosedForm | src/app/page.tsx:88-105 | after n firings the index is min(start + n, last sample), or unchanged if already at the end, and playing stops exactly when some firing finds no next sample |
| Playback.TicksMonotoneBounded | src/app/page.tsx:88-93 | over any sequence of firings the index never decreases and never passes the last sample |
| Playback.EmptyRouteTicks | src/app/page.tsx:88-93 | on an empty route firings keep the index at 0 |
| Playback.AutoPauseAtEnd | src/app/page.tsx:90-93 | a firing at the last sample stops playing, keeps the index and leaves the interval armed; later firings change nothing |
| Playback.StoppedAtEndWaitsForReset | src/app/page.tsx:75-124 | in a reachable state stopped at the end with the interval still armed, every click and firing leaves the state unchanged; only a reset clears that interval |
| Playback.PlayEnabledIffTickAdvances | src/app/page.tsx:156 | the Play/Pause button is enabled exactly when a firing would advance the index by one |
| Playback.IndexMonotoneWithoutReset | src/app/page.tsx:87-107 | without a reset, no event moves the index backwards |
| Playback.StartTimeSurvivesWithoutReset | src/app/page.tsx:83-85 | once set, the start time survives pauses, plays and firings; only reset clears it |
| Playback.EmptyRouteStaysInitial | src/app/page.tsx:154-156 | on an empty route no sequence of events changes the initial state, and no interval is ever started |
| Playback.PauseStopsFirings | src/app/page.tsx:76-80 | in a reachable state, pausing leaves no interval running, so a later firing changes nothing |
| Playback.PauseUndoesPlay | src/app/page.tsx:75-111 | play followed by pause restores the previous stopped state except that a start time is now recorded |
| Progress.ProgressCounter | src/app/page.tsx:231 | the counter is the one-based position: at least 1, and one less than it is the current index |
| Progress.ProgressPercent | src/app/page.tsx:238 | the bar width times the route length is 100 times the one-based position, it lies in (0, 100] for an index within the route, and it is 0 for an empty route |
| Progress.JsRound | src/app/page.tsx:243 | the rounded value is within half a unit of its argument, halves going up |
| Progress.PercentComplete | src/app/page.tsx:243 | the label is the integer nearest to 100 times the one-based position over the route length, halves rounded up (stated by multiplying through by the length); it is 0 for an empty route, between 0 and 100 for an index within the route, and 100 at the last sample |
| Progress.ProgressMonotone | src/app/page.tsx:238-243 | a later index never gives a smaller bar width or label |
| Progress.ReachableProgressBounded | src/app/page.tsx:231-243 | in every reachable state the counter lies in [1, length] and the label in [0, 100] for a loaded route; with no route the label is 0 and the counter shows 1 |
| TimeFormat.Trunc | src/app/page.tsx:138 | truncation toward zero: the result is the integer at or below a non-negative argument and at or above a negative one, less than one away |
| TimeFormat.JsRemainder | src/app/page.tsx:138 | the remainder has the sign of the dividend, is smaller than the divisor in magnitude, and the dividend minus it is a whole multiple of the divisor |
| TimeFormat.NatToString | src/app/page.tsx:139 | the decimal rendering is a non-empty string of digits, one digit long exactly below 10 and without a leading zero otherwise |
| TimeFormat.IntToString | src/app/page.tsx:139 | the rendering starts with `-` exactly for a negative number, followed by a non-empty run of digits without a leading zero |
| TimeFormat.ParseIntToString | src/app/page.tsx:139 | reading the signed rendering back gives the integer |
| TimeFormat.ParseNatToString | src/app/page.tsx:139 | reading the decimal rendering back gives the number |
| TimeFormat.PadStart | src/app/page.tsx:139 | the padded string has the larger of its length and the width, ends with the original string, and is filled before it |
| TimeFormat.FormatTimeFields | src/app/page.tsx:137-138 | for non-negative seconds the minutes are floor(seconds) div 60 and the seconds field is floor(seconds) mod 60, which is in [0, 60) and recombines to floor(seconds) |
| TimeFormat.FormatTime | src/app/page.tsx:136-140 | for non-negative seconds the label is the whole minutes, a colon and exactly two digits of the remaining seconds |
| TimeFormat.RenderedFields | src/app/page.tsx:137-139 | for non-negative seconds the minutes field is the decimal rendering of floor(seconds) div 60 and the padded seconds field is exactly two digits of floor(seconds) mod 60 |
| TimeFormat.ClockRoundTrip | src/app/page.tsx:136-140 | parsing the label back gives floor(seconds) |
| TimeFormat.NegativeSeconds | src/app/page.tsx:137-139 | -5 seconds renders as `-1:-5`, following JavaScript's floor and sign-of-dividend remainder |
| Scenarios.OneHourLeg | src/app/page.tsx:87-107 | on two samples one hour apart, play then one firing reaches index 1 with speed equal to the leg distance; the next firing stops playing with the interval still armed, and the button is disabled |
| Scenarios.SingleSampleCannotPlay | src/app/page.tsx:156 | with a one-sample route the Play click does nothing |
| Scenarios.PlayThenPause | src/app/page.tsx:75-86 | play then pause before any firing keeps index 0, stops, disarms, and keeps the start time |
| Scenarios.ElapsedIncludesPause | src/app/page.tsx:83-103 | after play, pause and play, a firing measures elapsed time from the first play, including the paused span |
| Scenarios.PlayTicksReset | src/app/page.tsx:114-124 | play, any further events, then reset gives exactly the initial state |

## Left out

- src/app/component/map-compoment.tsx: the Leaflet map, its tiles, the moving marker, the route and completed-path polylines, and panning while playing. These are foreign library calls and DOM work. Its only logic is the completed-path prefix.
- The haversine body of `calculateDistance` (src/app/page.tsx:49-58): floating-point trigonometry. It is replaced by an abstract non-negative `Distance`.
- Loading the route with `fetch` (src/app/page.tsx:35-46): network I/O. The route is a fixed parameter. This also sets aside the interval callback's stale capture of `routeData`.
- Parsing ISO-8601 timestamps with `Date`: timestamps are given as milliseconds. An unparseable timestamp (NaN arithmetic) is not modelled.
- `new Date()` as the clock: each click and firing carries its time as a parameter.
- The interval's scheduling and its 1500 ms period: each firing is an explicit event.
- The unmount cleanup effect (src/app/page.tsx:127-133): component lifecycle.
- React's state batching, asynchronous updates and repeated invocation of updater functions: events are handled one at a time to completion.
- Floating-point rounding: speeds, elapsed seconds and percentages are exact reals. Results that land exactly on a rounding boundary may differ from IEEE-754 numbers.
- `toFixed`, `toLocaleString` and all JSX layout and styling (src/app/page.tsx:142-270): presentation only.
- Playback.TicksClosedForm: states the index, the playing flag, the start time and the armed flag after a run of firings, but not the final elapsed time. The single-firing contract of `Playback.Tick` gives that.
