/**
 Model of the mobile navigation menu.

 The menu's `active` class is the only state. One physical click is
 described by where its target lies; the listeners on the toggle and on
 the nav links run first and the document listener afterwards, as the
 event bubbles up.
 */
module Nav {

  /** Where a click lands. A nav link may sit inside or outside the menu;
      the toggle and the links are assumed not to contain each other. */
  datatype Target =
    | OnToggle
    | OnLink(inMenu: bool)
    | InMenu              // inside the menu, not on a link
    | Elsewhere           // outside both the toggle and the menu

  datatype Nav = Nav(bound: bool, open: bool)

  /** Handlers are bound only when both the toggle and the menu exist. */
  function Load(hasToggle: bool, hasMenu: bool, open: bool): (r: Nav)
    ensures r.open == open
    ensures r.bound <==> hasToggle && hasMenu
  {
    Nav(hasToggle && hasMenu, open)
  }

  /** The toggle's listener flips the class. */
  function ToggleListener(n: Nav): (r: Nav)
    ensures r.open != n.open && r.bound == n.bound
  {
    n.(open := !n.open)
  }

  /** The document listener closes the menu for clicks outside both the
      toggle and the menu. */
  function DocumentListener(n: Nav, t: Target): (r: Nav)
    ensures t.Elsewhere? || t == OnLink(false) ==> !r.open
    ensures t.OnToggle? || t.InMenu? || t == OnLink(true) ==> r == n
  {
    match t
    case OnToggle => n
    case InMenu => n
    case OnLink(inMenu) => if inMenu then n else n.(open := false)
    case Elsewhere => n.(open := false)
  }

  /** One click: the target's own listener (toggle or link), then the
      document listener. Nothing happens when the handlers were not bound. */
  function Click(n: Nav, t: Target): (r: Nav)
    ensures r.bound == n.bound
    ensures !n.bound ==> r == n
  {
    if !n.bound then n
    else
      var afterTarget := match t
        case OnToggle => ToggleListener(n)
        case OnLink(_) => n.(open := false)
        case _ => n;
      DocumentListener(afterTarget, t)
  }

  /** A click on the toggle flips the menu, and a second one restores it. */
  lemma ToggleFlips(n: Nav)
    requires n.bound
    ensures Click(n, OnToggle).open == !n.open
    ensures Click(Click(n, OnToggle), OnToggle) == n
  {
  }

  /** A click outside the toggle and the menu, or on any nav link, leaves
      the menu closed. */
  lemma OutsideOrLinkCloses(n: Nav, t: Target)
    requires n.bound && (t.Elsewhere? || t.OnLink?)
    ensures !Click(n, t).open
    ensures Click(Click(n, t), t) == Click(n, t)
  {
  }

  /** A click inside the menu but not on a link keeps it as it was. */
  lemma MenuClickKeeps(n: Nav)
    ensures Click(n, InMenu) == n
  {
  }

  /** Without a toggle or a menu no click has any effect. */
  lemma UnboundIgnoresClicks(hasToggle: bool, hasMenu: bool, open: bool, t: Target)
    requires !(hasToggle && hasMenu)
    ensures Click(Load(hasToggle, hasMenu, open), t).open == open
  {
  }
}
