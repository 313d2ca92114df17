/**
  The route-progress panel: the `n / total` counter, the width of the
  progress bar in percent, and the rounded "% Complete" label.
*/
module Progress {
  import opened Kinematics
  import opened Playback

  /** The counter shows the current sample's one-based position. */
  function ProgressCounter(currentIndex: nat): (position: nat)
    ensures position >= 1 && position - 1 == currentIndex
  {
    currentIndex + 1
  }

  /** Width of the progress bar: the share of samples reached, in percent; 0 for an empty route. */
  function ProgressPercent(routeLength: nat, currentIndex: nat): (p: real)
    ensures routeLength == 0 ==> p == 0.0
    ensures routeLength > 0 ==> p * routeLength as real == 100.0 * (currentIndex + 1) as real
    ensures routeLength > 0 && currentIndex < routeLength ==> 0.0 < p <= 100.0
  {
    if routeLength > 0 then ((currentIndex + 1) as real / routeLength as real) * 100.0 else 0.0
  }

  /** JavaScript's `Math.round`: the nearest integer, halves rounded up. */
  function JsRound(x: real): (n: int)
    ensures n as real - 0.5 <= x < n as real + 0.5
  {
    (x + 0.5).Floor
  }

  /**
    The "% Complete" label: the integer nearest to the share of samples
    reached, in percent, with halves rounded up.
  */
  function PercentComplete(routeLength: nat, currentIndex: nat): (n: int)
    ensures routeLength == 0 ==> n == 0
    ensures routeLength > 0 ==>
      (n as real - 0.5) * routeLength as real <= 100.0 * (currentIndex + 1) as real
      < (n as real + 0.5) * routeLength as real
    ensures routeLength > 0 && currentIndex < routeLength ==> 0 <= n <= 100
    ensures routeLength > 0 && currentIndex == routeLength - 1 ==> n == 100
  {
    if routeLength > 0 then
      var p := ProgressPercent(routeLength, currentIndex);
      FullAtLast(routeLength, currentIndex);
      var n := JsRound(p);
      RoundedShare(routeLength as real, 100.0 * (currentIndex + 1) as real, p, n);
      n
    else 0
  }

  /** At the last sample the bar is full. */
  lemma FullAtLast(routeLength: nat, currentIndex: nat)
    ensures routeLength > 0 && currentIndex == routeLength - 1 ==> ProgressPercent(routeLength, currentIndex) == 100.0
  {
  }

  /** An integer within half a unit of a share is within half a share's denominator of its numerator. */
  lemma RoundedShare(len: real, part: real, p: real, n: int)
    requires len > 0.0 && p * len == part
    requires n as real - 0.5 <= p < n as real + 0.5
    ensures (n as real - 0.5) * len <= part < (n as real + 0.5) * len
  {
    ScaleBounds(n as real - 0.5, p, n as real + 0.5, len);
  }

  /** Bounds around a value survive multiplying everything by a positive factor. */
  lemma ScaleBounds(lo: real, x: real, hi: real, c: real)
    requires lo <= x < hi && c > 0.0
    ensures lo * c <= x * c < hi * c
  {
  }

  /** Moving further along the route never makes the bar or the label go back. */
  lemma ProgressMonotone(routeLength: nat, i: nat, j: nat)
    requires i <= j
    ensures ProgressPercent(routeLength, i) <= ProgressPercent(routeLength, j)
    ensures PercentComplete(routeLength, i) <= PercentComplete(routeLength, j)
  {
    if routeLength > 0 {
      var len := routeLength as real;
      DivMonotone((i + 1) as real, (j + 1) as real, len);
    }
  }

  lemma DivMonotone(a: real, b: real, c: real)
    requires 0.0 <= a <= b && c > 0.0
    ensures a / c <= b / c
  {
  }

  /**
    In every state the page reaches, the counter lies between 1 and the route
    length and the label is at most 100 percent when a route is loaded; with no
    route the label shows 0 percent while the counter still shows 1.
  */
  lemma ReachableProgressBounded(route: Route, distance: Distance, events: seq<Event>)
    ensures var s := Run(route, distance, Initial, events);
      && (|route| > 0 ==> 1 <= ProgressCounter(s.currentIndex) <= |route|)
      && (|route| > 0 ==> 0 <= PercentComplete(|route|, s.currentIndex) <= 100)
      && (|route| == 0 ==> PercentComplete(|route|, s.currentIndex) == 0 && ProgressCounter(s.currentIndex) == 1)
  {
    ReachableConsistent(route, distance, events);
  }
}
