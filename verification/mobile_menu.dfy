/** The hamburger menu of script.js: the `active` class on the toggle button,
    the `active` class on the navigation panel, and the body's `overflow`
    style, driven by four kinds of event. Viewport width and whether a click
    landed inside the panel or the button are carried by the events. */
module MobileMenu {

  /** Widest viewport, in pixels, that still has the collapsible menu. */
  const Breakpoint: int := 768

  /** `document.body.style.overflow`: unset until the menu is first used. */
  datatype Overflow = Unset | Hidden | Auto

  datatype Menu = Menu(toggleActive: bool, navActive: bool, overflow: Overflow)

  /** The page as loaded: nothing active, overflow untouched. */
  const Initial: Menu := Menu(false, false, Unset)

  datatype Event =
    | ToggleClick
    | LinkClick(width: int)
    | DocumentClick(width: int, insideNav: bool, insideToggle: bool)
    | ResizeSettled(width: int)

  /** The state every close path produces. */
  const Closed: Menu := Menu(false, false, Auto)

  /** Both classes agree, and scrolling is locked exactly while the menu is
      open. */
  predicate Consistent(m: Menu)
  {
    m.toggleActive == m.navActive && (m.overflow == Hidden <==> m.navActive)
  }

  /** `toggleMenu`: each class flips on its own; overflow then follows the
      panel. */
  function ToggleMenu(m: Menu): (r: Menu)
    ensures r.toggleActive == !m.toggleActive && r.navActive == !m.navActive
    ensures r.overflow == Hidden <==> r.navActive
    ensures r.overflow != Unset
  {
    Menu(!m.toggleActive, !m.navActive, if !m.navActive then Hidden else Auto)
  }

  /** Clicking a navigation link closes the menu on narrow viewports and does
      nothing on wide ones. */
  function LinkClicked(m: Menu, width: int): (r: Menu)
    ensures width <= Breakpoint ==> r == Closed
    ensures width > Breakpoint ==> r == m
  {
    if width <= Breakpoint then Menu(false, false, Auto) else m
  }

  /** A click anywhere on the document toggles the menu when the viewport is
      narrow, the panel is open, and the click is outside both the panel and
      the button. */
  function DocumentClicked(m: Menu, width: int, insideNav: bool, insideToggle: bool): (r: Menu)
    ensures insideNav || insideToggle || width > Breakpoint || !m.navActive ==> r == m
    ensures Consistent(m) && m.navActive && width <= Breakpoint && !insideNav && !insideToggle
      ==> r == Closed
  {
    if width <= Breakpoint && m.navActive && !insideNav && !insideToggle then ToggleMenu(m) else m
  }

  /** The settled resize: a viewport wider than the breakpoint resets the
      menu unconditionally. */
  function ResizeSettledAt(m: Menu, width: int): (r: Menu)
    ensures width > Breakpoint ==> r == Closed
    ensures width <= Breakpoint ==> r == m
  {
    if width > Breakpoint then Menu(false, false, Auto) else m
  }

  function Step(m: Menu, e: Event): Menu
  {
    match e
    case ToggleClick => ToggleMenu(m)
    case LinkClick(w) => LinkClicked(m, w)
    case DocumentClick(w, inNav, inToggle) => DocumentClicked(m, w, inNav, inToggle)
    case ResizeSettled(w) => ResizeSettledAt(m, w)
  }

  /** The state after a whole sequence of events. */
  function Run(m: Menu, events: seq<Event>): Menu
    decreases |events|
  {
    if |events| == 0 then m else Step(Run(m, events[..|events| - 1]), events[|events| - 1])
  }

  /** Every event keeps the two classes in agreement and the scroll lock in
      step with the panel, and keeps it there from then on. */
  lemma StepKeepsConsistent(m: Menu, e: Event)
    requires Consistent(m)
    ensures Consistent(Step(m, e))
  {
  }

  /** From the loaded page, any sequence of events leaves the menu
      consistent. */
  lemma {:induction false} RunKeepsConsistent(events: seq<Event>)
    ensures Consistent(Run(Initial, events))
    decreases |events|
  {
    if |events| > 0 {
      RunKeepsConsistent(events[..|events| - 1]);
      StepKeepsConsistent(Run(Initial, events[..|events| - 1]), events[|events| - 1]);
    }
  }

  /** Two toggles restore both classes; toggling keeps equal classes equal
      and unequal ones unequal. */
  lemma ToggleTwiceRestoresFlags(m: Menu)
    ensures ToggleMenu(ToggleMenu(m)).toggleActive == m.toggleActive
    ensures ToggleMenu(ToggleMenu(m)).navActive == m.navActive
    ensures (ToggleMenu(m).toggleActive == ToggleMenu(m).navActive) <==> (m.toggleActive == m.navActive)
  {
  }

  /** `n` clicks on the button. */
  function Toggles(m: Menu, n: nat): Menu
  {
    if n == 0 then m else ToggleMenu(Toggles(m, n - 1))
  }

  /** An even, positive number of clicks on the button leaves a closed,
      consistent menu closed with scrolling not locked. */
  lemma {:induction false} EvenTogglesStayClosed(m: Menu, k: nat)
    requires Consistent(m) && !m.navActive
    requires k >= 1
    ensures Toggles(m, 2 * k) == Closed
  {
    if k > 1 {
      EvenTogglesStayClosed(m, k - 1);
      assert Toggles(m, 2 * k) == ToggleMenu(ToggleMenu(Toggles(m, 2 * (k - 1))));
    }
  }

  /** Given equal classes, every close path, once it applies, is idempotent
      and ends closed. */
  lemma ClosePathsAreIdempotent(m: Menu, e: Event)
    requires m.toggleActive == m.navActive
    requires
      || (e.LinkClick? && e.width <= Breakpoint)
      || (e.DocumentClick? && e.width <= Breakpoint && !e.insideNav && !e.insideToggle && m.navActive)
      || (e.ResizeSettled? && e.width > Breakpoint)
    ensures Step(m, e) == Closed
    ensures Step(Step(m, e), e) == Closed
  {
  }

  /** Widening an open menu's viewport from narrow to desktop closes it and
      releases the scroll lock. */
  lemma WideningClosesOpenMenu(narrow: int, wide: int)
    requires narrow <= Breakpoint < wide
    ensures var open := Run(Initial, [ToggleClick, ResizeSettled(narrow)]);
      open.navActive && open.overflow == Hidden &&
      Run(Initial, [ToggleClick, ResizeSettled(narrow), ResizeSettled(wide)]) == Closed
  {
    assert [ToggleClick, ResizeSettled(narrow), ResizeSettled(wide)][..2] == [ToggleClick, ResizeSettled(narrow)];
    assert [ToggleClick, ResizeSettled(narrow)][..1] == [ToggleClick];
    assert [ToggleClick][..0] == [];
  }
}
