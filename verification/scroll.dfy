/** Scroll effects: the navbar's 'scrolled' class and the reveal of '.reveal'
    elements (their 'active' class). */
module ScrollEffects {

  /** How far above the bottom of the window an element's top must be to reveal it. */
  const RevealPoint: int := 150
  /** The scroll offset beyond which the navbar is styled as scrolled. */
  const ScrolledThreshold: int := 50

  /** The reveal test for one element. */
  predicate ShouldReveal(top: int, innerHeight: int) {
    top < innerHeight - RevealPoint
  }

  /** The navbar test. */
  predicate IsScrolled(scrollY: int) {
    scrollY > ScrolledThreshold
  }

  /** The 'active' flags of the reveal elements after one `revealOnScroll`
      with element tops `tops` and window height `innerHeight`. */
  function Revealed(active: seq<bool>, tops: seq<int>, innerHeight: int): (r: seq<bool>)
    requires |active| == |tops|
    ensures |r| == |active|
  {
    if active == [] then []
    else [active[0] || ShouldReveal(tops[0], innerHeight)] + Revealed(active[1..], tops[1..], innerHeight)
  }

  /** Element k ends active exactly when it already was or its top passes the test. */
  lemma {:induction false} RevealedAt(active: seq<bool>, tops: seq<int>, innerHeight: int, k: nat)
    requires |active| == |tops| && k < |active|
    ensures Revealed(active, tops, innerHeight)[k] <==> active[k] || ShouldReveal(tops[k], innerHeight)
  {
    if k > 0 {
      RevealedAt(active[1..], tops[1..], innerHeight, k - 1);
    }
  }

  /** The reveal check never removes 'active'. */
  lemma RevealedKeepsActive(active: seq<bool>, tops: seq<int>, innerHeight: int, k: nat)
    requires |active| == |tops| && k < |active| && active[k]
    ensures Revealed(active, tops, innerHeight)[k]
  {
    RevealedAt(active, tops, innerHeight, k);
  }

  /** A second check with the same geometry changes nothing. */
  lemma {:induction false} RevealedIdempotent(active: seq<bool>, tops: seq<int>, innerHeight: int)
    requires |active| == |tops|
    ensures
      var once := Revealed(active, tops, innerHeight);
      |once| == |tops| && Revealed(once, tops, innerHeight) == once
  {
    if active != [] {
      RevealedIdempotent(active[1..], tops[1..], innerHeight);
    }
  }

  /** The window and element geometry at one reveal check. */
  datatype Geometry = Geometry(tops: seq<int>, innerHeight: int)

  predicate Fits(n: nat, checks: seq<Geometry>) {
    forall i :: 0 <= i < |checks| ==> |checks[i].tops| == n
  }

  /** The flags after a sequence of reveal checks. */
  function AfterChecks(active: seq<bool>, checks: seq<Geometry>): (r: seq<bool>)
    requires Fits(|active|, checks)
    ensures |r| == |active|
    decreases checks
  {
    if checks == [] then active
    else AfterChecks(Revealed(active, checks[0].tops, checks[0].innerHeight), checks[1..])
  }

  /** An element revealed at any check stays revealed through every later
      check, wherever the page is scrolled; one that was active stays active. */
  lemma {:induction false} RevealIsPermanent(active: seq<bool>, checks: seq<Geometry>, k: nat)
    requires Fits(|active|, checks) && k < |active|
    decreases checks
    ensures active[k] ==> AfterChecks(active, checks)[k]
    ensures (exists i :: 0 <= i < |checks| && ShouldReveal(checks[i].tops[k], checks[i].innerHeight))
      ==> AfterChecks(active, checks)[k]
  {
    if checks != [] {
      var g := checks[0];
      var once := Revealed(active, g.tops, g.innerHeight);
      RevealedAt(active, g.tops, g.innerHeight, k);
      RevealIsPermanent(once, checks[1..], k);
      if i :| 0 <= i < |checks| && ShouldReveal(checks[i].tops[k], checks[i].innerHeight) {
        if i > 0 {
          assert checks[1..][i - 1] == checks[i];
        }
      }
    }
  }

  /** `revealOnScroll`: add 'active' to every element whose top is above the
      reveal line. */
  method RevealOnScroll(active: array<bool>, tops: seq<int>, innerHeight: int)
    requires active.Length == |tops|
    modifies active
    ensures active[..] == Revealed(old(active[..]), tops, innerHeight)
  {
    var i := 0;
    while i < active.Length
      invariant 0 <= i <= active.Length
      invariant forall k :: 0 <= k < i ==> active[k] == (old(active[k]) || ShouldReveal(tops[k], innerHeight))
      invariant forall k :: i <= k < active.Length ==> active[k] == old(active[k])
    {
      if tops[i] < innerHeight - RevealPoint {
        active[i] := true;
      }
      i := i + 1;
    }
    ghost var before := old(active[..]);
    forall k | 0 <= k < active.Length
      ensures active[..][k] == Revealed(before, tops, innerHeight)[k]
    {
      RevealedAt(before, tops, innerHeight, k);
    }
  }

  /** The reveal observer's callback for one element: an intersecting element
      gains 'active'; nothing is removed. */
  method OnRevealIntersection(active: array<bool>, k: nat, isIntersecting: bool)
    requires k < active.Length
    modifies active
    ensures active[k] == (old(active[k]) || isIntersecting)
    ensures forall j :: 0 <= j < active.Length && j != k ==> active[j] == old(active[j])
  {
    if isIntersecting {
      active[k] := true;
    }
  }

  /** The navbar element. */
  class Navbar {
    /** The 'scrolled' class. */
    var scrolled: bool

    constructor ()
      ensures !scrolled
    {
      scrolled := false;
    }
  }

  /** The window's scroll handler: set the navbar's class from the scroll
      offset, then run the reveal check. */
  method OnWindowScroll(navbar: Navbar, active: array<bool>, scrollY: int, tops: seq<int>, innerHeight: int)
    requires active.Length == |tops|
    modifies navbar, active
    ensures navbar.scrolled == IsScrolled(scrollY)
    ensures active[..] == Revealed(old(active[..]), tops, innerHeight)
  {
    if scrollY > ScrolledThreshold {
      navbar.scrolled := true;
    } else {
      navbar.scrolled := false;
    }
    RevealOnScroll(active, tops, innerHeight);
  }
}
