# Portfolio page script — Dafny model

This project models the interactive core of a static portfolio site's page
script (`script.js`): the first-visit intro overlay, the auto-rotating
project carousel, the mobile navigation menu and the sidebar scroll-spy.
Each is a small state machine lifted away from the DOM:

- CSS classes become booleans (carousel panels and dots, nav menu) or
  `set<string>` class lists (intro cards, body, overlay).
- Timer callbacks become events. The intro keeps its pending `setTimeout`
  callbacks as a multiset of card numbers (dismiss, 1200 ms) and counts of
  pending reveal (400 ms) and hide (600 ms) callbacks. The environment may
  fire any pending one next. The carousel keeps the set of live
  `setInterval` ids and the handle stored in `rotationTimer`. `Tick(id)`
  only does something for a live id.
- `sessionStorage` is the single `introCompleted` entry, an
  `Option<string>`.
- Element lookups that may fail are `Option`s or explicit "bound" flags
  recording whether a handler was registered at load.

Modules: `Common` (the `Option` type), `Carousel`, `Intro`, `Nav` and
`ScrollSpy`, one per component of the script.

Behaviour of the script worth knowing:

- The skip action does not reveal immediately. It schedules the reveal
  400 ms later (`script.js:66`).
- Reveal is not guaranteed to happen once. The click path schedules one
  reveal at most (`Intro.CountBounded`). A skip always schedules another,
  even after the click path has finished.
- Hovering pauses only the interval the handle names. A dot click while
  hovering runs `restartRotation` (`script.js:203`), which starts an
  interval under the pointer. Leaving starts another one, so later hovers
  no longer pause the rotation (`Carousel.HoverAfterClickDoesNotPause`).
- With an overlay, no completed session and no `.intro-card` element, no
  dismissal ever runs, so the check at `script.js:50` never fires. Without a
  skip button the page then stays `intro-active` for good. This is why
  `Intro.ClickPathCompletes` asks for at least one card.
- A panel/dot count mismatch is not reported at start-up. `showProject`
  throws a TypeError part-way through. `Carousel.ShowProject` models the
  partial effect: the classes are already cleared, `currentIndex` is
  unchanged and the dot handler's `restartRotation` is never reached.

## Model

| member | source | states |
|---|---|---|
| Carousel.ShowProject | script.js:156-167 | With a valid index for both lists, exactly panel i and dot i are active and `currentIndex` is i. Out of range, the index is kept, every dot is inactive and the panels are cleared (panel i stays active when only the dot is missing). The timer state is untouched. |
| Carousel.NextProject | script.js:172-175 | Advancing shows `(currentIndex + 1) mod N`. With no panels only the dots are cleared. |
| Carousel.StartRotation | script.js:180-182 | A new interval becomes live and is stored in the handle. The live set grows by exactly that interval, so earlier ones are kept, not cleared. |
| Carousel.StopRotation | script.js:187-189 | Only the interval named by the handle stops. An undefined handle changes nothing. |
| Carousel.RestartRotation | script.js:194-197 | The old handle's interval is cleared and a fresh one becomes live and is stored. With an undefined handle the fresh interval is only added. |
| Carousel.Load | script.js:146-218 | `currentIndex` starts at 0 and the markup's classes are kept. Rotation is live exactly when there is at least one panel (lines 207-210). With no panel, `rotationTimer` stays undefined. The hover handlers are bound exactly when the carousel area exists (lines 213-218). |
| Carousel.Step | script.js:199-218 | Entering the carousel area runs `stopRotation` and leaving it runs `startRotation`. Without the area, hover events do nothing. A tick of a cleared interval does nothing, so hovering pauses only the interval the handle names. A tick of a live interval runs `nextProject`. A dot click that reaches a panel runs `showProject` then `restartRotation`. Every event keeps the list lengths and the freshness of interval ids. It keeps an in-range index in range, and a displayed carousel with as many dots as panels stays displayed. |
| Carousel.ShowOverwrites | script.js:156-167 | Showing twice equals showing only the second index. |
| Carousel.ShowCurrentIsIdentity | script.js:156-167 | Re-showing the displayed index changes nothing. |
| Carousel.NextProjectStaysInRange | script.js:172-175 | From a displayed carousel with N panels and N dots, the next index is `(i + 1) mod N`, it stays below N, and exactly that panel and dot are active. |
| Carousel.NextAfterShow | script.js:172-175 | With N panels, N dots and m < N, advancing right after showing m equals showing `(m + 1) mod N`. |
| Carousel.DisplayedMeansExactlyOne | script.js:156-167 | A carousel counts as displayed if and only if `currentIndex` is in range and exactly the panel and the dot at that index are active. |
| Carousel.CycleIsMod | script.js:172-175 | Applying the wrapping increment `(i + 1) % N` k times from i gives `(i + k) mod N`. |
| Carousel.AdvanceShows | script.js:172-175 | From a displayed carousel with N panels and N dots, k automatic advances equal one `showProject` of the index reached by k wrapping increments. |
| Carousel.AdvanceIndex | script.js:172-175 | From any index below N, with N panels and N dots, and whatever classes the markup set, k automatic advances reach index `(i + k) mod N`. After at least one advance exactly that panel and dot are active. |
| Carousel.RotationFromLoad | script.js:146-210 | Starting from page load with N panels and N dots, k automatic advances show panel `k mod N`. After at least one, exactly that panel and dot are active, whatever the markup's initial classes. |
| Carousel.AdvanceFullCycle | script.js:172-175 | From a displayed carousel with N panels and N dots, N advances return the carousel to the state it started from. |
| Carousel.FullCycleIndex | script.js:172-175 | From any index below N, with N panels and N dots, N advances return to that index, whatever the markup's initial classes. |
| Carousel.DotClickRestarts | script.js:199-205 | Clicking a valid dot shows exactly that panel and dot and restarts rotation. The previous handle's interval is cleared, a fresh one is live, and all other live intervals stay. |
| Carousel.DotClickWithoutPanel | script.js:199-205 | Clicking a dot with no matching panel keeps the index, deactivates every dot and leaves the timers alone. |
| Carousel.HoverClickLeaveKeepsTwoIntervals | script.js:212-218 | Hovering, clicking a dot and then leaving the area leaves two live intervals. |
| Carousel.HoverPausesSoleInterval | script.js:212-216 | While the handle's interval is the only live one, no tick changes the carousel after the pointer enters the area. |
| Carousel.HoverAfterClickDoesNotPause | script.js:199-218 | With at least two panels and as many dots, after entering, clicking a dot, leaving and entering again, the interval the click started is still live. Its tick changes the index while the pointer is over the area. |
| Carousel.RunKeepsInvariant | script.js:199-218 | Across any sequence of clicks, ticks and hovers, the index stays below N, the list lengths and interval-id freshness are kept, and a displayed carousel with as many dots as panels stays displayed. |
| Intro.Load | script.js:8-28 | Without an overlay nothing is bound or pending. With the flag equal to 'true' the overlay is hidden and nothing is bound. Otherwise the card handlers are bound, the skip handler is bound if the button exists, and the count is 0. |
| Intro.HideIntro | script.js:89-95 | The overlay gains `hidden`. The body loses `intro-active` and gains `intro-complete`, and its other classes are kept. Nothing else changes. |
| Intro.RevealMainSite | script.js:72-84 | The body loses `intro-active` and gains `intro-complete`. The flag becomes 'true' and one hide is scheduled. Nothing else changes. |
| Intro.HandleCardClick | script.js:33-54 | A flipped or dismissed card is left alone. Otherwise only that card gains `flipped` and its dismiss callback is scheduled. |
| Intro.DismissCard | script.js:45-53 | The card gains `dismissed` and the count grows by exactly one. A reveal is scheduled exactly when the new count equals the number of cards. |
| Intro.SkipIntro | script.js:59-67 | Every card gains `dismissed`, one reveal is scheduled, and the count and everything else are unchanged. |
| Intro.Step | script.js:97-105 | A bound click on an existing card runs `handleCardClick` (line 99), and a click on an unbound or missing card does nothing. A skip click runs `skipIntro` exactly when the button was bound (line 104). A pending callback runs once and leaves the queue: the dismiss callback (lines 45-53), `revealMainSite` or `hideIntro`. With nothing pending of that kind, the event does nothing. No event removes a card's class or changes the bound handlers, the count grows by at most one, and the flag only ever becomes 'true'. |
| Intro.QuiescentIgnoresEvents | script.js:97-105 | With no handler bound and nothing pending, any event sequence leaves the state unchanged. |
| Intro.NoOverlayDoesNothing | script.js:17-18 | Without an overlay, no event sequence changes anything. |
| Intro.CompletedSessionSkipsIntro | script.js:20-24 | With the flag 'true', the overlay is hidden at load and no later event changes anything. |
| Intro.LoadInv | script.js:26-28 | A freshly loaded intro satisfies the counting invariant. |
| Intro.StepInv | script.js:36-67 | Every event preserves the invariant. Pending dismissals name existing cards, and count plus pending dismissals is at most the number of flipped cards. |
| Intro.RunInv | script.js:26-67 | The invariant holds after any event sequence. |
| Intro.CountBounded | script.js:45-53 | `dismissedCount` never exceeds the number of cards. Once it equals that number no dismissal is pending, so the click path schedules its reveal at most once. |
| Intro.ClickOnUsedCardIgnored | script.js:36-39 | Clicking a flipped or dismissed card is a no-op. |
| Intro.DismissCounts | script.js:45-53 | A pending dismissal adds `dismissed` and increments the count by one. It schedules a reveal if and only if the count reaches the number of cards. |
| Intro.SkipDismissesAll | script.js:59-67 | Skip dismisses every card, keeps the count and schedules a reveal. Every later card click is a no-op. |
| Intro.AllDismissedStable | script.js:36-39 | Once every card is dismissed, every event keeps them dismissed and card clicks do nothing. |
| Intro.RevealIdempotent | script.js:72-84 | A second reveal leaves the same classes and flag as the first. |
| Intro.HideIdempotent | script.js:89-95 | Hiding twice is hiding once. |
| Intro.ClicksFlip | script.js:41-45 | Clicking the first k fresh cards flips exactly them and leaves one pending dismissal for each. |
| Intro.LoadFresh | script.js:17-28 | On a first visit with an overlay and no card already flipped or dismissed in the markup, load yields a fresh intro with nothing pending, the starting state of the click path. |
| Intro.ClicksNext | script.js:36-45 | Clicking card k after the first k cards were clicked flips card k too and adds its pending dismissal. |
| Intro.DismissalStep | script.js:45-53 | A pending dismiss callback firing dismisses its card, raises the count by one and removes exactly that one pending entry. It schedules a reveal exactly when the new count equals the number of cards. Nothing else changes. |
| Intro.DismissalsNext | script.js:45-53 | On the click path, the dismissal of card k after those of cards 0..k-1 moves the state to the one after k+1 dismissals. |
| Intro.DismissalsCount | script.js:45-53 | Start with at least one card, every card's dismissal pending, a count of 0 and no reveal pending. Firing the first k dismissals then leaves the first k cards dismissed, the count at k and the others pending. A reveal is pending exactly when k is the number of cards. |
| Intro.ClickPathCompletes | script.js:33-95 | Clicking every card and letting each dismissal, the reveal and the hide fire ends with: the overlay hidden, the body `intro-complete`, the flag 'true', the count equal to the number of cards, and nothing pending. |
| Nav.Load | script.js:223-226 | Handlers are bound exactly when both the toggle and the menu exist. |
| Nav.ToggleListener | script.js:227-229 | The toggle flips the menu's open state. |
| Nav.DocumentListener | script.js:231-236 | A click outside both the toggle and the menu closes the menu. Any other click leaves it as it is. |
| Nav.Click | script.js:226-245 | Without the toggle or the menu a click changes nothing. |
| Nav.ToggleFlips | script.js:227-236 | A toggle click flips the menu, and a second one restores it. |
| Nav.OutsideOrLinkCloses | script.js:231-244 | A click outside, or on any nav link, leaves the menu closed, and repeating it changes nothing. |
| Nav.MenuClickKeeps | script.js:231-236 | A click inside the menu but not on a link keeps the menu state. |
| Nav.UnboundIgnoresClicks | script.js:226 | If the toggle or the menu is missing, clicks never change the menu. |
| ScrollSpy.Fragment | script.js:270 | `#${currentSection}` is '#' followed by the section id, or by "null" when the id attribute is missing. |
| ScrollSpy.ScanSections | script.js:256-265 | The scan returns the id of the last section in document order with `offsetTop - 150 <= scrollY`. If no section qualifies it returns the starting value. |
| ScrollSpy.LastReachedExists | script.js:259-265 | If some section has been reached, a last reached section exists. |
| ScrollSpy.CurrentSectionSpec | script.js:255-265 | The current section is '' when no section is reached. Otherwise it is the id of the last reached section. |
| ScrollSpy.HighlightLinks | script.js:267-273 | Each link keeps its href and ends active exactly when its href equals the target fragment, whatever its previous state. |
| ScrollSpy.UpdateActiveLink | script.js:251-280 | With at least one link and one section, each link keeps its href and is active exactly when its href equals '#' + the current section. Otherwise the links are unchanged. |
| ScrollSpy.ExperienceScenario | script.js:255-273 | With "experience" reached and "education" not yet reached, only the "experience" link is active. |

## Left out

- `animations.js` (reveal effects, intersection watcher, reduced-motion query): it drives an external animation library through browser observers and uses floating-point timing.
- Real time: the 1200 ms, 400 ms, 600 ms and 5000 ms delays are not modelled. Callbacks fire as events in any order. No lemma states that a restart delays the next tick by a full interval.
- The sidebar link smooth scroll (`script.js:283-297`): it only calls `window.scrollTo`, which has no state to model.
- Hover-class decoration, the page markup and the stylesheet.
- `sessionStorage` beyond the one `introCompleted` key.
- Nav.Click: assumes the toggle and the nav links do not contain each other. The listener order for such nesting depends on the markup.
- Intro.StepInv: bounds count plus pending dismissals by the number of flipped cards, instead of stating equality. A card may already carry `flipped` in the markup, and the state records no history to tell those cards apart.
- No lemma claims that the reveal runs exactly once, because the code does not guarantee it.
