/**
 Model of the auto-rotating project carousel of the home page.

 The panels (`.project`) and indicator dots (`.dot`) are two ordered lists
 whose only observable state is the `active` class, so each list is a
 `seq<bool>`. The repeating rotation timer is modelled by the set of
 interval ids that are still live and by the handle the script keeps in
 `rotationTimer`; a `Tick(id)` event is the callback of interval `id`.
 */
module Carousel {
  import opened Common

  datatype Carousel = Carousel(
    panels: seq<bool>,        // `active` class of each `.project`
    dots: seq<bool>,          // `active` class of each `.dot`
    index: nat,               // `currentIndex`
    live: set<nat>,           // intervals started and not yet cleared
    handle: Option<nat>,      // `rotationTimer` (None while still undefined)
    nextId: nat,              // the id the next `setInterval` returns
    hoverBound: bool          // `.project-carousel` exists, so hover handlers are bound
  )

  datatype Event =
    | DotClick(dot: nat)      // click on dot number `dot`
    | Tick(interval: nat)     // interval `interval` fires
    | MouseEnter
    | MouseLeave

  /** Panel `index` and dot `index` are the only active ones. */
  ghost predicate Displayed(c: Carousel) {
    && c.index < |c.panels|
    && c.index < |c.dots|
    && c.panels == Only(|c.panels|, c.index)
    && c.dots == Only(|c.dots|, c.index)
  }

  /** Every interval id handed out so far is below `nextId`. */
  ghost predicate TimersFresh(c: Carousel) {
    && (forall id :: id in c.live ==> id < c.nextId)
    && (c.handle.Some? ==> c.handle.value < c.nextId)
  }

  /** `showProject(index)` reaches its last statement: both lists have an
      element at `index`. Otherwise indexing yields `undefined` and the
      `classList` access throws a TypeError. */
  predicate ShowSucceeds(c: Carousel, i: nat) {
    i < |c.panels| && i < |c.dots|
  }

  /** `n` elements without the class. */
  function AllInactive(n: nat): (r: seq<bool>)
    ensures |r| == n
    ensures forall j :: 0 <= j < n ==> !r[j]
  {
    seq(n, _ => false)
  }

  /** `n` elements of which exactly element `i` carries the class. */
  function Only(n: nat, i: nat): (r: seq<bool>)
    requires i < n
    ensures |r| == n
    ensures forall j :: 0 <= j < n ==> (r[j] <==> j == i)
  {
    seq(n, j => j == i)
  }

  /** `showProject(i)`: clear every panel and dot, then activate panel `i`
      and dot `i` and record `i`. The class removals happen before the
      element lookups, so an out-of-range `i` leaves the lists cleared (and
      panel `i` active when only the dot is missing) with `currentIndex`
      untouched, because the TypeError stops the function there. */
  function ShowProject(c: Carousel, i: nat): (r: Carousel)
    ensures |r.panels| == |c.panels| && |r.dots| == |c.dots|
    ensures r.live == c.live && r.handle == c.handle && r.nextId == c.nextId
    ensures r.hoverBound == c.hoverBound
    ensures ShowSucceeds(c, i) ==> Displayed(r) && r.index == i
    ensures !ShowSucceeds(c, i) ==> r.index == c.index && r.dots == AllInactive(|c.dots|)
    ensures i >= |c.panels| ==> r.panels == AllInactive(|c.panels|)
    ensures i < |c.panels| ==> r.panels == Only(|c.panels|, i)
  {
    if i >= |c.panels| then
      c.(panels := AllInactive(|c.panels|), dots := AllInactive(|c.dots|))
    else if i >= |c.dots| then
      c.(panels := Only(|c.panels|, i), dots := AllInactive(|c.dots|))
    else
      c.(panels := Only(|c.panels|, i), dots := Only(|c.dots|, i), index := i)
  }

  /** `nextProject`: show `(currentIndex + 1) % projects.length`. With no
      panel the remainder is NaN, the dots are cleared and the lookup
      throws, so nothing else changes. */
  function NextProject(c: Carousel): (r: Carousel)
    ensures |c.panels| == 0 ==> r == c.(dots := AllInactive(|c.dots|))
    ensures |c.panels| > 0 ==> r == ShowProject(c, (c.index + 1) % |c.panels|)
  {
    if |c.panels| == 0 then ShowProject(c, c.index)
    else ShowProject(c, (c.index + 1) % |c.panels|)
  }

  /** `startRotation`: a new repeating interval, whose id is stored in the
      handle (overwriting, not clearing, any earlier one). */
  function StartRotation(c: Carousel): (r: Carousel)
    ensures r.handle == Some(c.nextId) && c.nextId in r.live
    ensures r.live == c.live + {c.nextId}
    ensures TimersFresh(c) ==> c.nextId !in c.live && r.live - {c.nextId} == c.live
    ensures TimersFresh(c) ==> TimersFresh(r)
    ensures r.panels == c.panels && r.dots == c.dots && r.index == c.index
  {
    c.(live := c.live + {c.nextId}, handle := Some(c.nextId), nextId := c.nextId + 1)
  }

  /** `stopRotation`: clear the interval the handle names; clearing an
      undefined handle does nothing. Only that one interval stops. */
  function StopRotation(c: Carousel): (r: Carousel)
    ensures c.handle.Some? ==> c.handle.value !in r.live
    ensures c.handle.Some? ==> r.live == c.live - {c.handle.value}
    ensures c.handle.None? ==> r == c
    ensures r.handle == c.handle && r.nextId == c.nextId
    ensures r.panels == c.panels && r.dots == c.dots && r.index == c.index
  {
    match c.handle
    case None => c
    case Some(h) => c.(live := c.live - {h})
  }

  /** `restartRotation`: stop, then start. */
  function RestartRotation(c: Carousel): (r: Carousel)
    ensures TimersFresh(c) ==> TimersFresh(r)
    ensures r.handle == Some(c.nextId) && c.nextId in r.live
    ensures TimersFresh(c) && c.handle.Some? ==> c.handle.value !in r.live
    ensures c.handle.Some? ==> r.live == (c.live - {c.handle.value}) + {c.nextId}
    ensures c.handle.None? ==> r.live == c.live + {c.nextId}
    ensures r.panels == c.panels && r.dots == c.dots && r.index == c.index
  {
    StartRotation(StopRotation(c))
  }

  /** Page load: nothing is changed on the markup, `currentIndex` is 0,
      and rotation starts only when there is at least one panel. */
  function Load(panels: seq<bool>, dots: seq<bool>, hasCarouselArea: bool): (r: Carousel)
    ensures r.index == 0 && r.panels == panels && r.dots == dots
    ensures TimersFresh(r)
    ensures |panels| > 0 <==> r.live != {}
    ensures |panels| > 0 ==> r.handle.Some? && r.handle.value in r.live
    ensures |panels| == 0 ==> r.handle.None?
    ensures r.hoverBound == hasCarouselArea
  {
    var c := Carousel(panels, dots, 0, {}, None, 0, hasCarouselArea);
    if |panels| > 0 then StartRotation(c) else c
  }

  /** One user or timer event. A click on dot `i` runs `showProject(i)`
      and, if that did not throw, `restartRotation()`. A tick only runs
      for an interval that is still live. Hover events exist only when the
      carousel area exists. */
  function Step(c: Carousel, e: Event): (r: Carousel)
    ensures |r.panels| == |c.panels| && |r.dots| == |c.dots|
    ensures TimersFresh(c) ==> TimersFresh(r)
    ensures r.hoverBound == c.hoverBound
    ensures !c.hoverBound && (e.MouseEnter? || e.MouseLeave?) ==> r == c
    ensures c.hoverBound && e.MouseEnter? ==> r == StopRotation(c)
    ensures c.hoverBound && e.MouseLeave? ==> r == StartRotation(c)
    ensures e.DotClick? && ShowSucceeds(c, e.dot) ==> r == RestartRotation(ShowProject(c, e.dot))
    ensures e.Tick? && e.interval !in c.live ==> r == c
    ensures e.Tick? && e.interval in c.live ==> r == NextProject(c)
    ensures 0 < |c.panels| && c.index < |c.panels| ==> r.index < |c.panels|
    ensures Displayed(c) && |c.panels| == |c.dots| ==> Displayed(r)
  {
    match e
    case DotClick(i) =>
      if i >= |c.dots| then c
      else if ShowSucceeds(c, i) then RestartRotation(ShowProject(c, i))
      else ShowProject(c, i)
    case Tick(id) => if id in c.live then NextProject(c) else c
    case MouseEnter => if c.hoverBound then StopRotation(c) else c
    case MouseLeave => if c.hoverBound then StartRotation(c) else c
  }

  /** `k` consecutive automatic advances. */
  function Advance(c: Carousel, k: nat): Carousel
  {
    if k == 0 then c else NextProject(Advance(c, k - 1))
  }

  /** A sequence of events, applied in order. */
  function Run(c: Carousel, events: seq<Event>): Carousel
    decreases |events|
  {
    if |events| == 0 then c else Run(Step(c, events[0]), events[1..])
  }

  // ---------------------------------------------------------------------
  // Properties
  // ---------------------------------------------------------------------

  /** Showing overwrites every class, so only the last show matters. */
  lemma ShowOverwrites(c: Carousel, i: nat, j: nat)
    requires ShowSucceeds(c, i) && ShowSucceeds(c, j)
    ensures ShowProject(ShowProject(c, i), j) == ShowProject(c, j)
  {
  }

  /** Re-showing the panel already displayed changes nothing. */
  lemma ShowCurrentIsIdentity(c: Carousel)
    requires Displayed(c)
    ensures ShowProject(c, c.index) == c
  {
  }

  /** A displayed carousel has exactly one active panel and exactly one
      active dot, both at `currentIndex`. */
  lemma DisplayedMeansExactlyOne(c: Carousel)
    ensures Displayed(c) <==>
      && c.index < |c.panels| && c.index < |c.dots|
      && (forall j :: 0 <= j < |c.panels| ==> (c.panels[j] <==> j == c.index))
      && (forall j :: 0 <= j < |c.dots| ==> (c.dots[j] <==> j == c.index))
  {
    if c.index < |c.panels| && c.index < |c.dots|
       && (forall j :: 0 <= j < |c.panels| ==> (c.panels[j] <==> j == c.index))
       && (forall j :: 0 <= j < |c.dots| ==> (c.dots[j] <==> j == c.index)) {
      assert c.panels == Only(|c.panels|, c.index);
      assert c.dots == Only(|c.dots|, c.index);
    }
  }

  /** Advancing a displayed carousel with as many dots as panels moves to
      `(currentIndex + 1) mod N`, which is again a valid, displayed index. */
  lemma NextProjectStaysInRange(c: Carousel)
    requires Displayed(c) && |c.panels| == |c.dots|
    ensures NextProject(c).index == (c.index + 1) % |c.panels|
    ensures NextProject(c).index < |c.panels|
    ensures Displayed(NextProject(c))
  {
  }

  /** Euclidean division is unique: a quotient and an in-range remainder
      that rebuild `x` are `x / n` and `x % n`. */
  lemma DivModUnique(x: int, n: int, q: int, r: int)
    requires n > 0 && 0 <= r < n && x == q * n + r
    ensures x / n == q && x % n == r
  {
    var q', r' := x / n, x % n;
    assert (q - q') * n == r' - r;
    if q > q' {
      assert (q - q') * n >= n by { MulAtLeast(q - q', n); }
      assert false;
    } else if q < q' {
      assert (q' - q) * n >= n by { MulAtLeast(q' - q, n); }
      assert false;
    }
  }

  lemma MulAtLeast(d: int, n: int)
    requires d >= 1 && n > 0
    ensures d * n >= n
  {
    assert d * n == (d - 1) * n + n;
  }

  /** Taking the remainder before or after adding one gives the same index. */
  lemma ModSucc(a: nat, n: nat)
    requires n > 0
    ensures (a % n + 1) % n == (a + 1) % n
  {
    var q, r := a / n, a % n;
    if r + 1 < n {
      DivModUnique(a + 1, n, q, r + 1);
      DivModUnique(r + 1, n, 0, r + 1);
    } else {
      DivModUnique(a + 1, n, q + 1, 0);
      DivModUnique(r + 1, n, 1, 0);
    }
  }

  /** The index reached from `i` after `k` wrapping increments. */
  function Cycle(i: nat, k: nat, n: nat): (r: nat)
    requires i < n
    ensures r < n
  {
    if k == 0 then i else (Cycle(i, k - 1, n) + 1) % n
  }

  /** Wrapping increments are addition modulo N. */
  lemma {:induction false} CycleIsMod(i: nat, k: nat, n: nat)
    requires i < n
    ensures Cycle(i, k, n) == (i + k) % n
  {
    if k == 0 {
      DivModUnique(i, n, 0, i);
    } else {
      var a := i + (k - 1);
      assert Cycle(i, k - 1, n) == a % n by { CycleIsMod(i, k - 1, n); }
      assert (a % n + 1) % n == (a + 1) % n by { ModSucc(a, n); }
    }
  }

  /** `k` automatic advances show panel `(currentIndex + k) mod N`. */
  lemma {:induction false} AdvanceShows(c: Carousel, k: nat)
    requires Displayed(c) && |c.panels| == |c.dots|
    ensures Advance(c, k) == ShowProject(c, Cycle(c.index, k, |c.panels|))
  {
    if k == 0 {
      ShowCurrentIsIdentity(c);
    } else {
      AdvanceShows(c, k - 1);
      NextAfterShow(c, Cycle(c.index, k - 1, |c.panels|));
    }
  }

  /** Advancing right after showing panel `m` is the same as showing `m + 1`
      (wrapping). */
  lemma NextAfterShow(c: Carousel, m: nat)
    requires |c.panels| == |c.dots| && m < |c.panels|
    ensures NextProject(ShowProject(c, m)) == ShowProject(c, (m + 1) % |c.panels|)
  {
  }

  /** The automatic advances visit the panels in order, wrapping, from any
      in-range `currentIndex`, whatever classes the markup started with:
      after `k` of them the index is `(currentIndex + k) mod N`, and once
      at least one has run exactly that panel and dot are active. */
  lemma {:induction false} AdvanceIndex(c: Carousel, k: nat)
    requires c.index < |c.panels| == |c.dots|
    ensures |Advance(c, k).panels| == |c.panels| && |Advance(c, k).dots| == |c.dots|
    ensures Advance(c, k).index == Cycle(c.index, k, |c.panels|)
    ensures Advance(c, k).index == (c.index + k) % |c.panels|
    ensures k > 0 ==> Displayed(Advance(c, k))
  {
    if k > 0 {
      AdvanceIndex(c, k - 1);
    }
    CycleIsMod(c.index, k, |c.panels|);
  }

  /** Rotation from page load with N panels and N dots: after `k` ticks the
      carousel shows panel `k mod N`. */
  lemma RotationFromLoad(panels: seq<bool>, dots: seq<bool>, hasCarouselArea: bool, k: nat)
    requires 0 < |panels| == |dots|
    ensures Advance(Load(panels, dots, hasCarouselArea), k).index == k % |panels|
    ensures k > 0 ==> Displayed(Advance(Load(panels, dots, hasCarouselArea), k))
  {
    AdvanceIndex(Load(panels, dots, hasCarouselArea), k);
  }

  /** After exactly N advances the carousel is back where it started. */
  lemma AdvanceFullCycle(c: Carousel)
    requires Displayed(c) && |c.panels| == |c.dots|
    ensures Advance(c, |c.panels|) == c
  {
    var n := |c.panels|;
    AdvanceShows(c, n);
    assert Cycle(c.index, n, n) == c.index by {
      CycleIsMod(c.index, n, n);
      DivModUnique(c.index + n, n, 1, c.index);
    }
    ShowCurrentIsIdentity(c);
  }

  /** N automatic advances from any in-range index come back to that index,
      whatever classes the markup started with. */
  lemma FullCycleIndex(c: Carousel)
    requires c.index < |c.panels| == |c.dots|
    ensures Advance(c, |c.panels|).index == c.index
  {
    AdvanceIndex(c, |c.panels|);
    DivModUnique(c.index + |c.panels|, |c.panels|, 1, c.index);
  }

  /** Clicking a dot whose panel exists shows exactly that panel and dot,
      and replaces the handle's interval by a fresh one: the old interval
      is cleared, every other live interval is kept. */
  lemma DotClickRestarts(c: Carousel, i: nat)
    requires TimersFresh(c) && ShowSucceeds(c, i)
    ensures var r := Step(c, DotClick(i));
      && Displayed(r) && r.index == i
      && TimersFresh(r)
      && r.handle == Some(c.nextId) && c.nextId in r.live
      && (c.handle.Some? ==> r.live == (c.live - {c.handle.value}) + {c.nextId})
      && (c.handle.None? ==> r.live == c.live + {c.nextId})
  {
  }

  /** A dot click without a matching panel throws inside `showProject`:
      the index stays, no dot is active, and the timer is not restarted. */
  lemma DotClickWithoutPanel(c: Carousel, i: nat)
    requires i < |c.dots| && i >= |c.panels|
    ensures var r := Step(c, DotClick(i));
      && r.index == c.index && r.live == c.live && r.handle == c.handle
      && (forall j :: 0 <= j < |r.dots| ==> !r.dots[j])
  {
  }

  /** Hovering stops the interval named by the handle; leaving starts a
      new one without clearing anything. In particular a dot click while
      hovering followed by leaving the area leaves TWO live intervals. */
  lemma HoverClickLeaveKeepsTwoIntervals(c: Carousel, i: nat)
    requires TimersFresh(c) && c.hoverBound && ShowSucceeds(c, i)
    ensures var r := Step(Step(Step(c, MouseEnter), DotClick(i)), MouseLeave);
      && c.nextId in r.live && c.nextId + 1 in r.live
      && r.handle == Some(c.nextId + 1)
  {
  }

  /** Whatever the clicks, ticks and hovers, the index stays in range, the
      list lengths and the freshness of interval ids are kept, and a
      displayed carousel with as many dots as panels stays displayed. */
  lemma {:induction false} RunKeepsInvariant(c: Carousel, events: seq<Event>)
    requires 0 < |c.panels| && c.index < |c.panels| && TimersFresh(c)
    ensures |Run(c, events).panels| == |c.panels| && |Run(c, events).dots| == |c.dots|
    ensures Run(c, events).index < |c.panels|
    ensures TimersFresh(Run(c, events))
    ensures Displayed(c) && |c.panels| == |c.dots| ==> Displayed(Run(c, events))
    decreases |events|
  {
    if |events| > 0 {
      RunKeepsInvariant(Step(c, events[0]), events[1..]);
    }
  }

  /** While the handle's interval is the only live one, hovering pauses
      the rotation: no tick changes the carousel any more. */
  lemma HoverPausesSoleInterval(c: Carousel, id: nat)
    requires c.hoverBound && c.handle.Some? && c.live == {c.handle.value}
    ensures Step(Step(c, MouseEnter), Tick(id)) == Step(c, MouseEnter)
  {
  }

  /** A dot click while hovering restarts rotation under the pointer, and
      leaving then starts yet another interval. Hovering again stops only
      the newest, so the interval the click started keeps advancing the
      carousel while the pointer is over it. */
  lemma HoverAfterClickDoesNotPause(c: Carousel, i: nat)
    requires TimersFresh(c) && c.hoverBound && ShowSucceeds(c, i) && |c.panels| == |c.dots| >= 2
    ensures var r := Step(Step(Step(Step(c, MouseEnter), DotClick(i)), MouseLeave), MouseEnter);
      && c.nextId in r.live
      && Step(r, Tick(c.nextId)).index != r.index
  {
  }
}
