/**
 Model of the first-visit intro overlay on the home page.

 Every element's class list is a `set<string>`; `sessionStorage` is the
 single `introCompleted` entry. The delayed callbacks the script schedules
 with `setTimeout` are kept as pending work: a multiset of cards whose
 dismiss callback (1200 ms) has not run yet, and counts of pending reveal
 (400 ms) and hide (600 ms) callbacks. Timer firing is an event, and the
 environment may fire any pending callback next.
 */
module Intro {
  import opened Common

  const Flipped := "flipped"
  const Dismissed := "dismissed"
  const Hidden := "hidden"
  const IntroActive := "intro-active"
  const IntroComplete := "intro-complete"
  /** The value stored under `introCompleted` once the intro is done. */
  const CompletedValue := "true"

  datatype Intro = Intro(
    storage: Option<string>,          // sessionStorage 'introCompleted'
    overlay: Option<set<string>>,     // class list of #intro-overlay, None when absent
    body: set<string>,                // class list of <body>
    cards: seq<set<string>>,          // class lists of the .intro-card elements
    cardsBound: bool,                 // card click handlers registered
    skipBound: bool,                  // skip button handler registered
    dismissedCount: nat,              // `dismissedCount`
    dismissTimers: multiset<nat>,     // cards whose dismiss callback is pending
    revealTimers: nat,                // pending `revealMainSite` callbacks
    hideTimers: nat                   // pending `hideIntro` callbacks
  )

  datatype Event =
    | CardClick(card: nat)
    | SkipClick
    | DismissFired(card: nat)
    | RevealFired
    | HideFired

  /** Nothing is registered and nothing is pending: no event can change the state. */
  predicate Quiescent(s: Intro) {
    !s.cardsBound && !s.skipBound && s.dismissTimers == multiset{}
    && s.revealTimers == 0 && s.hideTimers == 0
  }

  /** `hideIntro`: hide the overlay and unblur the page. The function
      checks that the overlay exists. */
  function HideIntro(s: Intro): (r: Intro)
    ensures s.overlay.None? ==> r == s
    ensures s.overlay.Some? ==> r.overlay == Some(s.overlay.value + {Hidden})
    ensures s.overlay.Some? ==> IntroActive !in r.body && IntroComplete in r.body
    ensures s.overlay.Some? ==> r.body - {IntroActive, IntroComplete} == s.body - {IntroActive, IntroComplete}
    ensures r.(overlay := s.overlay, body := s.body) == s
  {
    match s.overlay
    case None => s
    case Some(classes) =>
      s.(overlay := Some(classes + {Hidden}), body := (s.body - {IntroActive}) + {IntroComplete})
  }

  /** `revealMainSite`: unblur the page, schedule `hideIntro` in 600 ms and
      record completion in session storage. */
  function RevealMainSite(s: Intro): (r: Intro)
    ensures IntroActive !in r.body && IntroComplete in r.body
    ensures r.body - {IntroActive, IntroComplete} == s.body - {IntroActive, IntroComplete}
    ensures r.storage == Some(CompletedValue)
    ensures r.hideTimers == s.hideTimers + 1
    ensures r.(body := s.body, storage := s.storage, hideTimers := s.hideTimers) == s
  {
    s.(body := (s.body - {IntroActive}) + {IntroComplete},
       hideTimers := s.hideTimers + 1,
       storage := Some(CompletedValue))
  }

  /** Page load. Without an overlay the script returns at once; with the
      completion flag set it hides the overlay and returns; otherwise it
      registers the card handlers and, when the button exists, the skip
      handler. */
  function Load(storage: Option<string>, overlay: Option<set<string>>, body: set<string>,
                cards: seq<set<string>>, hasSkipButton: bool): (r: Intro)
    ensures r.cards == cards && r.dismissedCount == 0
    ensures overlay.None? ==> Quiescent(r) && r.body == body && r.overlay == overlay && r.storage == storage
    ensures overlay.Some? && storage == Some(CompletedValue) ==>
      Quiescent(r) && r.overlay == Some(overlay.value + {Hidden}) && IntroComplete in r.body && IntroActive !in r.body
    ensures overlay.Some? && storage != Some(CompletedValue) ==>
      r.cardsBound && r.skipBound == hasSkipButton && r.body == body && r.overlay == overlay
      && r.dismissTimers == multiset{} && r.revealTimers == 0 && r.hideTimers == 0
  {
    var s := Intro(storage, overlay, body, cards, false, false, 0, multiset{}, 0, 0);
    if overlay.None? then s
    else if storage == Some(CompletedValue) then HideIntro(s)
    else s.(cardsBound := true, skipBound := hasSkipButton)
  }

  /** `handleCardClick` on card `i`: a flipped or dismissed card is left
      alone; otherwise the card is flipped and its dismiss callback is
      scheduled. */
  function HandleCardClick(s: Intro, i: nat): (r: Intro)
    requires i < |s.cards|
    ensures Flipped in s.cards[i] || Dismissed in s.cards[i] ==> r == s
    ensures !(Flipped in s.cards[i] || Dismissed in s.cards[i]) ==>
      && r.cards == s.cards[i := s.cards[i] + {Flipped}]
      && r.dismissTimers == s.dismissTimers + multiset{i}
      && r.(cards := s.cards, dismissTimers := s.dismissTimers) == s
  {
    if Flipped in s.cards[i] || Dismissed in s.cards[i] then s
    else s.(cards := s.cards[i := s.cards[i] + {Flipped}],
            dismissTimers := s.dismissTimers + multiset{i})
  }

  /** The 1200 ms callback for card `i`: dismiss it, count it, and when the
      count has reached the number of cards schedule the reveal. The class
      is added even if the card was dismissed meanwhile by a skip. */
  function DismissCard(s: Intro, i: nat): (r: Intro)
    ensures r.dismissedCount == s.dismissedCount + 1
    ensures |r.cards| == |s.cards|
    ensures i < |s.cards| ==> r.cards == s.cards[i := s.cards[i] + {Dismissed}]
    ensures r.revealTimers == s.revealTimers + (if r.dismissedCount == |s.cards| then 1 else 0)
    ensures r.(cards := s.cards, dismissedCount := s.dismissedCount, revealTimers := s.revealTimers) == s
  {
    var count := s.dismissedCount + 1;
    // Callbacks are only ever scheduled for existing cards (see Inv).
    var cards := if i < |s.cards| then s.cards[i := s.cards[i] + {Dismissed}] else s.cards;
    s.(cards := cards, dismissedCount := count,
       revealTimers := if count == |s.cards| then s.revealTimers + 1 else s.revealTimers)
  }

  /** `skipIntro`: dismiss every card at once and schedule the reveal. The
      counter is not touched. */
  function SkipIntro(s: Intro): (r: Intro)
    ensures |r.cards| == |s.cards|
    ensures forall j :: 0 <= j < |s.cards| ==> r.cards[j] == s.cards[j] + {Dismissed}
    ensures r.revealTimers == s.revealTimers + 1
    ensures r.(cards := s.cards, revealTimers := s.revealTimers) == s
  {
    s.(cards := seq(|s.cards|, j requires 0 <= j < |s.cards| => s.cards[j] + {Dismissed}),
       revealTimers := s.revealTimers + 1)
  }

  /** One event. Clicks reach only the handlers that were registered; a
      timer event runs one pending callback of that kind, if any. */
  function Step(s: Intro, e: Event): (r: Intro)
    ensures |r.cards| == |s.cards|
    ensures r.dismissedCount == s.dismissedCount || r.dismissedCount == s.dismissedCount + 1
    ensures r.storage == s.storage || r.storage == Some(CompletedValue)
    ensures r.cardsBound == s.cardsBound && r.skipBound == s.skipBound
    ensures forall j :: 0 <= j < |s.cards| ==> s.cards[j] <= r.cards[j]
    ensures e.CardClick? && s.cardsBound && e.card < |s.cards| ==> r == HandleCardClick(s, e.card)
    ensures e.CardClick? && !(s.cardsBound && e.card < |s.cards|) ==> r == s
    ensures e.SkipClick? ==> r == (if s.skipBound then SkipIntro(s) else s)
    ensures e.DismissFired? && e.card !in s.dismissTimers ==> r == s
    ensures e.DismissFired? && e.card in s.dismissTimers ==>
      r == DismissCard(s.(dismissTimers := s.dismissTimers - multiset{e.card}), e.card)
    ensures e.RevealFired? ==>
      r == (if s.revealTimers > 0 then RevealMainSite(s.(revealTimers := s.revealTimers - 1)) else s)
    ensures e.HideFired? ==>
      r == (if s.hideTimers > 0 then HideIntro(s.(hideTimers := s.hideTimers - 1)) else s)
  {
    match e
    case CardClick(i) => if s.cardsBound && i < |s.cards| then HandleCardClick(s, i) else s
    case SkipClick => if s.skipBound then SkipIntro(s) else s
    case DismissFired(i) =>
      if i in s.dismissTimers then DismissCard(s.(dismissTimers := s.dismissTimers - multiset{i}), i) else s
    case RevealFired =>
      if s.revealTimers > 0 then RevealMainSite(s.(revealTimers := s.revealTimers - 1)) else s
    case HideFired =>
      if s.hideTimers > 0 then HideIntro(s.(hideTimers := s.hideTimers - 1)) else s
  }

  /** A sequence of events, in order. */
  function Run(s: Intro, events: seq<Event>): Intro
    decreases |events|
  {
    if |events| == 0 then s else Run(Step(s, events[0]), events[1..])
  }

  /** Number of cards carrying the `flipped` class. */
  function FlippedCount(cards: seq<set<string>>): nat
  {
    if |cards| == 0 then 0
    else (if Flipped in cards[0] then 1 else 0) + FlippedCount(cards[1..])
  }

  /** Pending dismiss callbacks name existing cards, and every dismissal
      counted or still pending belongs to a distinct flipped card. */
  ghost predicate Inv(s: Intro) {
    && (forall i :: i in s.dismissTimers ==> i < |s.cards|)
    && s.dismissedCount + |s.dismissTimers| <= FlippedCount(s.cards)
  }

  /** Every card is dismissed (what a skip leaves behind). */
  ghost predicate AllDismissed(s: Intro) {
    forall j :: 0 <= j < |s.cards| ==> Dismissed in s.cards[j]
  }

  // ---------------------------------------------------------------------
  // Counting lemmas
  // ---------------------------------------------------------------------

  lemma {:induction false} FlippedCountBound(cards: seq<set<string>>)
    ensures FlippedCount(cards) <= |cards|
  {
    if |cards| > 0 {
      FlippedCountBound(cards[1..]);
    }
  }

  /** The count depends only on which cards carry `flipped`. */
  lemma {:induction false} FlippedCountSameFlags(a: seq<set<string>>, b: seq<set<string>>)
    requires |a| == |b|
    requires forall j :: 0 <= j < |a| ==> (Flipped in a[j] <==> Flipped in b[j])
    ensures FlippedCount(a) == FlippedCount(b)
  {
    if |a| > 0 {
      FlippedCountSameFlags(a[1..], b[1..]);
    }
  }

  /** Flipping one unflipped card adds exactly one. */
  lemma {:induction false} FlippedCountFlip(cards: seq<set<string>>, i: nat)
    requires i < |cards| && Flipped !in cards[i]
    ensures FlippedCount(cards[i := cards[i] + {Flipped}]) == FlippedCount(cards) + 1
  {
    var c' := cards[i := cards[i] + {Flipped}];
    if i == 0 {
      assert c'[1..] == cards[1..];
    } else {
      assert c'[1..] == cards[1..][i - 1 := cards[i] + {Flipped}];
      FlippedCountFlip(cards[1..], i - 1);
    }
  }

  // ---------------------------------------------------------------------
  // Properties
  // ---------------------------------------------------------------------

  /** A quiescent intro ignores every sequence of events. */
  lemma {:induction false} QuiescentIgnoresEvents(s: Intro, events: seq<Event>)
    requires Quiescent(s)
    ensures Run(s, events) == s
    decreases |events|
  {
    if |events| > 0 {
      assert Step(s, events[0]) == s;
      QuiescentIgnoresEvents(s, events[1..]);
    }
  }

  /** Without an overlay (any page but the home page) the intro never does anything. */
  lemma NoOverlayDoesNothing(storage: Option<string>, body: set<string>, cards: seq<set<string>>,
                             hasSkipButton: bool, events: seq<Event>)
    ensures var s := Load(storage, None, body, cards, hasSkipButton);
      Run(s, events) == s && s.overlay.None? && s.body == body && s.cards == cards
  {
    QuiescentIgnoresEvents(Load(storage, None, body, cards, hasSkipButton), events);
  }

  /** With the session flag set the overlay is hidden at load and no card
      or skip click, nor anything else, changes the state afterwards. */
  lemma CompletedSessionSkipsIntro(overlay: set<string>, body: set<string>, cards: seq<set<string>>,
                                   hasSkipButton: bool, events: seq<Event>)
    ensures var s := Load(Some(CompletedValue), Some(overlay), body, cards, hasSkipButton);
      && Run(s, events) == s
      && s.overlay == Some(overlay + {Hidden})
      && IntroComplete in s.body && IntroActive !in s.body
      && s.cards == cards
  {
    QuiescentIgnoresEvents(Load(Some(CompletedValue), Some(overlay), body, cards, hasSkipButton), events);
  }

  /** A fresh intro satisfies the invariant. */
  lemma LoadInv(storage: Option<string>, overlay: Option<set<string>>, body: set<string>,
                cards: seq<set<string>>, hasSkipButton: bool)
    ensures Inv(Load(storage, overlay, body, cards, hasSkipButton))
  {
  }

  /** Every event preserves the invariant. */
  lemma StepInv(s: Intro, e: Event)
    requires Inv(s)
    ensures Inv(Step(s, e))
  {
    match e
    case CardClick(i) =>
      if s.cardsBound && i < |s.cards| && !(Flipped in s.cards[i] || Dismissed in s.cards[i]) {
        FlippedCountFlip(s.cards, i);
      }
    case SkipClick =>
      if s.skipBound {
        FlippedCountSameFlags(s.cards, SkipIntro(s).cards);
      }
    case DismissFired(i) =>
      if i in s.dismissTimers {
        var t := s.(dismissTimers := s.dismissTimers - multiset{i});
        assert |t.dismissTimers| == |s.dismissTimers| - 1;
        FlippedCountSameFlags(t.cards, DismissCard(t, i).cards);
      }
    case RevealFired =>
    case HideFired =>
  }

  /** The invariant holds after any run from a fresh load. */
  lemma {:induction false} RunInv(s: Intro, events: seq<Event>)
    requires Inv(s)
    ensures Inv(Run(s, events))
    decreases |events|
  {
    if |events| > 0 {
      StepInv(s, events[0]);
      RunInv(Step(s, events[0]), events[1..]);
    }
  }

  /** The dismissal count never exceeds the number of cards, and once it
      has reached it no dismissal is pending any more, so the click path
      schedules its reveal at most once. */
  lemma CountBounded(s: Intro)
    requires Inv(s)
    ensures s.dismissedCount <= |s.cards|
    ensures s.dismissedCount == |s.cards| ==> s.dismissTimers == multiset{}
  {
    FlippedCountBound(s.cards);
  }

  /** Clicking a card that is flipped or dismissed does nothing. */
  lemma ClickOnUsedCardIgnored(s: Intro, i: nat)
    requires i < |s.cards| && (Flipped in s.cards[i] || Dismissed in s.cards[i])
    ensures Step(s, CardClick(i)) == s
  {
  }

  /** A pending dismissal adds `dismissed` to its card and increments the
      count by exactly one; it schedules the reveal exactly when the count
      reaches the number of cards. */
  lemma DismissCounts(s: Intro, i: nat)
    requires Inv(s) && i in s.dismissTimers
    ensures var r := Step(s, DismissFired(i));
      && r.dismissedCount == s.dismissedCount + 1
      && Dismissed in r.cards[i]
      && (r.revealTimers == s.revealTimers + 1 <==> r.dismissedCount == |s.cards|)
      && (r.revealTimers == s.revealTimers <==> r.dismissedCount != |s.cards|)
  {
  }

  /** Skip dismisses every card, keeps the count and schedules a reveal;
      afterwards every card click is ignored, and no event undoes it. */
  lemma SkipDismissesAll(s: Intro)
    requires s.skipBound
    ensures var r := Step(s, SkipClick);
      && AllDismissed(r)
      && r.dismissedCount == s.dismissedCount
      && r.revealTimers == s.revealTimers + 1
      && forall i :: Step(r, CardClick(i)) == r
  {
  }

  lemma AllDismissedStable(s: Intro, e: Event)
    requires AllDismissed(s)
    ensures AllDismissed(Step(s, e))
    ensures e.CardClick? ==> Step(s, e) == s
  {
  }

  /** Revealing twice leaves the same classes and storage as revealing once. */
  lemma RevealIdempotent(s: Intro)
    ensures var once := RevealMainSite(s);
      RevealMainSite(once).(hideTimers := once.hideTimers) == once
  {
    var once := RevealMainSite(s);
    assert (once.body - {IntroActive}) + {IntroComplete} == once.body;
  }

  /** Hiding twice is hiding once. */
  lemma HideIdempotent(s: Intro)
    ensures HideIntro(HideIntro(s)) == HideIntro(s)
  {
    var once := HideIntro(s);
    if s.overlay.Some? {
      assert (once.body - {IntroActive}) + {IntroComplete} == once.body;
      assert once.overlay.value + {Hidden} == once.overlay.value;
    }
  }

  // ---------------------------------------------------------------------
  // The click path, card by card
  // ---------------------------------------------------------------------

  /** Clicking cards 0, 1, ..., k-1 in order. */
  function Clicks(k: nat): (r: seq<Event>)
    ensures |r| == k
  {
    seq(k, i requires 0 <= i < k => CardClick(i))
  }

  /** Their dismiss callbacks firing in the same order. */
  function Dismissals(k: nat): (r: seq<Event>)
    ensures |r| == k
  {
    seq(k, i requires 0 <= i < k => DismissFired(i))
  }

  /** A freshly loaded intro: handlers bound, nothing pending, no card
      flipped or dismissed yet. */
  ghost predicate Fresh(s: Intro) {
    && s.cardsBound && s.dismissedCount == 0
    && s.dismissTimers == multiset{} && s.revealTimers == 0
    && forall j :: 0 <= j < |s.cards| ==> Flipped !in s.cards[j] && Dismissed !in s.cards[j]
  }

  /** A first visit: with an overlay, no completion flag and no card
      already flipped or dismissed in the markup, page load yields a fresh
      intro, the starting point of the click path. */
  lemma LoadFresh(storage: Option<string>, overlay: set<string>, body: set<string>,
                  cards: seq<set<string>>, hasSkipButton: bool)
    requires storage != Some(CompletedValue)
    requires forall j :: 0 <= j < |cards| ==> Flipped !in cards[j] && Dismissed !in cards[j]
    ensures Fresh(Load(storage, Some(overlay), body, cards, hasSkipButton))
    ensures Load(storage, Some(overlay), body, cards, hasSkipButton).hideTimers == 0
  {
  }

  function AddToFirst(cards: seq<set<string>>, k: nat, name: string): (r: seq<set<string>>)
    ensures |r| == |cards|
    ensures forall j :: 0 <= j < |cards| ==> r[j] == if j < k then cards[j] + {name} else cards[j]
  {
    seq(|cards|, j requires 0 <= j < |cards| => if j < k then cards[j] + {name} else cards[j])
  }

  /** One pending entry for each card number in [lo, hi). */
  function Between(lo: nat, hi: nat): multiset<nat>
    decreases hi
  {
    if hi <= lo then multiset{} else Between(lo, hi - 1) + multiset{hi - 1}
  }

  lemma {:induction false} BetweenCount(lo: nat, hi: nat, x: nat)
    ensures Between(lo, hi)[x] == if lo <= x < hi then 1 else 0
    decreases hi
  {
    if lo < hi {
      BetweenCount(lo, hi - 1, x);
    }
  }

  lemma BetweenDropLow(lo: nat, hi: nat)
    requires lo < hi
    ensures Between(lo, hi) == multiset{lo} + Between(lo + 1, hi)
  {
    forall x: nat
      ensures Between(lo, hi)[x] == (multiset{lo} + Between(lo + 1, hi))[x]
    {
      BetweenCount(lo, hi, x);
      BetweenCount(lo + 1, hi, x);
    }
  }

  /** Adding the class to one more card. */
  lemma AddToFirstStep(cards: seq<set<string>>, k: nat, name: string)
    requires k < |cards|
    ensures var a := AddToFirst(cards, k, name);
      a[k := a[k] + {name}] == AddToFirst(cards, k + 1, name)
  {
  }

  lemma {:induction false} RunAppend(s: Intro, a: seq<Event>, b: seq<Event>)
    ensures Run(s, a + b) == Run(Run(s, a), b)
    decreases |a|
  {
    if |a| == 0 {
      assert a + b == b;
    } else {
      assert (a + b)[1..] == a[1..] + b;
      RunAppend(Step(s, a[0]), a[1..], b);
    }
  }

  /** After clicking the first `k` cards those cards are flipped and one
      dismiss callback is pending for each of them. */
  lemma {:induction false} ClicksFlip(s: Intro, k: nat)
    requires Fresh(s) && k <= |s.cards|
    ensures Run(s, Clicks(k)) == AfterClicks(s, k)
  {
    if k == 0 {
      assert s.cards == AddToFirst(s.cards, 0, Flipped);
    } else {
      assert Clicks(k) == Clicks(k - 1) + [CardClick(k - 1)];
      RunSnoc(s, Clicks(k - 1), CardClick(k - 1));
      ClicksFlip(s, k - 1);
      ClicksNext(s, k);
    }
  }

  /** The state after clicking the first `k` cards of a fresh intro. */
  function AfterClicks(s: Intro, k: nat): Intro
  {
    s.(cards := AddToFirst(s.cards, k, Flipped), dismissTimers := Between(0, k))
  }

  lemma ClicksNext(s: Intro, k: nat)
    requires Fresh(s) && 0 < k <= |s.cards|
    ensures Step(AfterClicks(s, k - 1), CardClick(k - 1)) == AfterClicks(s, k)
  {
    var u := AfterClicks(s, k - 1);
    assert u.cards[k - 1] == s.cards[k - 1];
    assert u.cards[k - 1 := u.cards[k - 1] + {Flipped}] == AddToFirst(s.cards, k, Flipped) by {
      AddToFirstStep(s.cards, k - 1, Flipped);
    }
  }

  /** One pending dismiss callback firing: its card is dismissed, the count
      grows by one, one entry leaves the pending multiset, and a reveal is
      scheduled exactly when the count reaches the number of cards. */
  lemma DismissalStep(t: Intro, i: nat, rest: multiset<nat>)
    requires i < |t.cards| && t.dismissTimers == multiset{i} + rest
    ensures Step(t, DismissFired(i)) ==
      t.(cards := t.cards[i := t.cards[i] + {Dismissed}], dismissedCount := t.dismissedCount + 1,
         dismissTimers := rest,
         revealTimers := if t.dismissedCount + 1 == |t.cards| then t.revealTimers + 1 else t.revealTimers)
  {
    var t' := t.(dismissTimers := rest);
    assert Step(t, DismissFired(i)) == DismissCard(t', i) by {
      assert (multiset{i} + rest) - multiset{i} == rest;
      StepDismissFired(t, i);
    }
    DismissCardFrame(t', i);
  }

  lemma StepDismissFired(s: Intro, i: nat)
    requires i in s.dismissTimers
    ensures Step(s, DismissFired(i)) == DismissCard(s.(dismissTimers := s.dismissTimers - multiset{i}), i)
  {
  }

  lemma DismissCardFrame(s: Intro, i: nat)
    requires i < |s.cards|
    ensures DismissCard(s, i) ==
      s.(cards := s.cards[i := s.cards[i] + {Dismissed}], dismissedCount := s.dismissedCount + 1,
         revealTimers := if s.dismissedCount + 1 == |s.cards| then s.revealTimers + 1 else s.revealTimers)
  {
  }

  /** After the first `k` dismiss callbacks of a state in which every
      card's callback is pending, those cards are dismissed, the count is
      `k`, the rest are still pending, and a reveal is pending exactly when
      `k` is the number of cards. */
  lemma {:induction false} DismissalsCount(t: Intro, k: nat)
    requires 0 < |t.cards| && k <= |t.cards|
    requires t.dismissTimers == Between(0, |t.cards|) && t.dismissedCount == 0 && t.revealTimers == 0
    ensures Run(t, Dismissals(k)) == AfterDismissals(t, k)
  {
    if k == 0 {
      assert t.cards == AddToFirst(t.cards, 0, Dismissed);
    } else {
      assert Dismissals(k) == Dismissals(k - 1) + [DismissFired(k - 1)];
      RunSnoc(t, Dismissals(k - 1), DismissFired(k - 1));
      DismissalsCount(t, k - 1);
      DismissalsNext(t, k);
    }
  }

  /** The state after the first `k` dismissals of the click path. */
  function AfterDismissals(t: Intro, k: nat): Intro
    requires k <= |t.cards|
  {
    t.(cards := AddToFirst(t.cards, k, Dismissed), dismissedCount := k,
       dismissTimers := Between(k, |t.cards|),
       revealTimers := if k == |t.cards| then 1 else 0)
  }

  lemma DismissalsNext(t: Intro, k: nat)
    requires 0 < k <= |t.cards| && t.revealTimers == 0
    ensures Step(AfterDismissals(t, k - 1), DismissFired(k - 1)) == AfterDismissals(t, k)
  {
    var n := |t.cards|;
    var u := AfterDismissals(t, k - 1);
    assert u.cards[k - 1 := u.cards[k - 1] + {Dismissed}] == AddToFirst(t.cards, k, Dismissed) by {
      AddToFirstStep(t.cards, k - 1, Dismissed);
    }
    assert u.dismissTimers == multiset{k - 1} + Between(k, n) by {
      BetweenDropLow(k - 1, n);
    }
    DismissalStep(u, k - 1, Between(k, n));
  }

  lemma RunSnoc(s: Intro, events: seq<Event>, e: Event)
    ensures Run(s, events + [e]) == Step(Run(s, events), e)
  {
    RunAppend(s, events, [e]);
    RunOne(Run(s, events), e);
  }

  lemma RunOne(s: Intro, e: Event)
    ensures Run(s, [e]) == Step(s, e)
  {
    assert [e][1..] == [];
  }

  /** The whole click path: clicking every card, letting every dismissal,
      the reveal and the hide fire, ends with the overlay hidden, the page
      unblurred, every card flipped and dismissed, the count equal to the
      number of cards and the session flag set. */
  lemma ClickPathCompletes(s: Intro)
    requires Fresh(s) && 0 < |s.cards| && s.overlay.Some? && s.hideTimers == 0
    ensures var r := Run(s, Clicks(|s.cards|) + Dismissals(|s.cards|) + [RevealFired, HideFired]);
      && r.overlay == Some(s.overlay.value + {Hidden})
      && IntroComplete in r.body && IntroActive !in r.body
      && r.storage == Some(CompletedValue)
      && r.dismissedCount == |s.cards|
      && (forall j :: 0 <= j < |r.cards| ==> Flipped in r.cards[j] && Dismissed in r.cards[j])
      && r.dismissTimers == multiset{} && r.revealTimers == 0 && r.hideTimers == 0
  {
    var n := |s.cards|;
    var t := Run(s, Clicks(n));
    ClicksFlip(s, n);
    DismissalsCount(t, n);
    var u := Run(t, Dismissals(n));
    RunAppend(s, Clicks(n), Dismissals(n));
    RunAppend(s, Clicks(n) + Dismissals(n), [RevealFired, HideFired]);
    assert Run(u, [RevealFired, HideFired]) == Step(Step(u, RevealFired), HideFired) by {
      assert [RevealFired, HideFired][1..] == [HideFired];
    }
  }
}
