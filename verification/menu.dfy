/** The mobile menu: the 'active' class on the hamburger button and on the
    navigation menu, driven by clicks and the Escape key. */
module MobileMenu {

  datatype MenuEvent = HamburgerClick | NavLinkClick | KeyDown(key: string)

  /** The 'active' class of the hamburger button and of the menu. */
  datatype MenuState = MenuState(hamburgerActive: bool, menuActive: bool)

  const Closed := MenuState(false, false)

  /** What one event handler does to the two flags. Only the hamburger
      opens the menu. */
  function Step(s: MenuState, e: MenuEvent): (r: MenuState)
    ensures r.menuActive && !s.menuActive ==> e == HamburgerClick
  {
    match e
    case HamburgerClick => MenuState(!s.hamburgerActive, !s.menuActive)
    case NavLinkClick => Closed
    case KeyDown(key) => if key == "Escape" && s.menuActive then Closed else s
  }

  /** The flags after a sequence of events, in order. A closed menu opens
      only if the sequence has a hamburger click. */
  function Run(s: MenuState, events: seq<MenuEvent>): (r: MenuState)
    ensures r.menuActive && !s.menuActive ==> HamburgerClick in events
    decreases events
  {
    if events == [] then s else Run(Step(s, events[0]), events[1..])
  }

  /** The two flags agree: the button shows the menu's state. */
  predicate InSync(s: MenuState) {
    s.hamburgerActive == s.menuActive
  }

  /** Every handler keeps the two flags in agreement. */
  lemma StepKeepsSync(s: MenuState, e: MenuEvent)
    requires InSync(s)
    ensures InSync(Step(s, e))
  {
  }

  /** Any sequence of events from a synchronised state ends synchronised. */
  lemma {:induction false} RunKeepsSync(s: MenuState, events: seq<MenuEvent>)
    requires InSync(s)
    ensures InSync(Run(s, events))
    decreases events
  {
    if events != [] {
      StepKeepsSync(s, events[0]);
      RunKeepsSync(Step(s, events[0]), events[1..]);
    }
  }

  /** Running two sequences one after the other is running their concatenation. */
  lemma {:induction false} RunAppend(s: MenuState, a: seq<MenuEvent>, b: seq<MenuEvent>)
    ensures Run(s, a + b) == Run(Run(s, a), b)
    decreases a
  {
    if a != [] {
      assert (a + b)[0] == a[0];
      assert (a + b)[1..] == a[1..] + b;
      RunAppend(Step(s, a[0]), a[1..], b);
    } else {
      assert a + b == b;
    }
  }

  /** A link click closes the menu; so does Escape while it is open. */
  lemma CloseEvents(s: MenuState, key: string)
    ensures Step(s, NavLinkClick) == Closed
    ensures s.menuActive && key == "Escape" ==> Step(s, KeyDown(key)) == Closed
    ensures !s.menuActive || key != "Escape" ==> Step(s, KeyDown(key)) == s
  {
  }

  /** In a synchronised state the hamburger opens a closed menu and closes an open one. */
  lemma HamburgerToggles(s: MenuState)
    requires InSync(s)
    ensures InSync(Step(s, HamburgerClick))
    ensures Step(s, HamburgerClick).menuActive == !s.menuActive
    ensures Step(Step(s, HamburgerClick), HamburgerClick) == s
  {
  }

  /** Whatever happened before, a sequence ending with a link click leaves the menu closed. */
  lemma EndsClosedAfterLinkClick(s: MenuState, events: seq<MenuEvent>)
    ensures Run(s, events + [NavLinkClick]) == Closed
  {
    RunAppend(s, events, [NavLinkClick]);
    assert Run(Run(s, events), [NavLinkClick]) == Run(Closed, []);
  }

  /** The menu and button elements of the page. */
  class Menu {
    var hamburgerActive: bool
    var menuActive: bool

    ghost function State(): MenuState
      reads this
    {
      MenuState(hamburgerActive, menuActive)
    }

    ghost predicate Valid()
      reads this
    {
      InSync(State())
    }

    /** The page loads with the menu closed. */
    constructor ()
      ensures Valid() && State() == Closed
    {
      hamburgerActive := false;
      menuActive := false;
    }

    /** Click on the hamburger button: toggle both classes. */
    method OnHamburgerClick()
      requires Valid()
      modifies this
      ensures Valid()
      ensures State() == Step(old(State()), HamburgerClick)
      ensures menuActive == !old(menuActive)
    {
      hamburgerActive := !hamburgerActive;
      menuActive := !menuActive;
    }

    /** Click on a navigation link: remove both classes. */
    method OnNavLinkClick()
      modifies this
      ensures Valid()
      ensures State() == Step(old(State()), NavLinkClick) == Closed
    {
      hamburgerActive := false;
      menuActive := false;
    }

    /** A key press on the document: Escape closes an open menu. */
    method OnKeyDown(key: string)
      requires Valid()
      modifies this
      ensures Valid()
      ensures State() == Step(old(State()), KeyDown(key))
      ensures key == "Escape" ==> State() == Closed
    {
      if key == "Escape" && menuActive {
        hamburgerActive := false;
        menuActive := false;
      }
    }
  }
}
