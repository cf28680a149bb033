/**
  The mobile navigation menu. The toggle control and the menu panel each
  carry an "active" flag; a click on the toggle flips both, a click on any
  nav link or an Escape key press anywhere clears both. A second click
  listener on the toggle installs the focus trap whenever the menu has just
  become active.
*/
module Nav {

  datatype Flags = Flags(toggleActive: bool, menuActive: bool)

  const Closed := Flags(false, false)

  /** The two flags agree, so "the menu is open" is well defined. */
  predicate InSync(n: Flags) {
    n.toggleActive == n.menuActive
  }

  /** Both click listeners on the toggle, in registration order: flip both
      flags, then report whether the focus trap is installed. */
  function ToggleClick(n: Flags): (r: (Flags, bool))
    ensures r.0.toggleActive != n.toggleActive && r.0.menuActive != n.menuActive
    ensures r.1 <==> !n.menuActive
  {
    var next := Flags(!n.toggleActive, !n.menuActive);
    (next, next.menuActive)
  }

  function LinkClick(n: Flags): (r: Flags)
    ensures !r.toggleActive && !r.menuActive
  {
    Closed
  }

  /** The document-wide keydown listener, given the event's `key`. */
  function KeyDown(n: Flags, key: string): (r: Flags)
    ensures key == "Escape" ==> !r.toggleActive && !r.menuActive
    ensures key != "Escape" ==> r == n
  {
    if key == "Escape" then Closed else n
  }

  datatype Event = ToggleClicked | LinkClicked | KeyPressed(key: string)

  function Step(n: Flags, e: Event): Flags {
    match e
    case ToggleClicked => ToggleClick(n).0
    case LinkClicked => LinkClick(n)
    case KeyPressed(k) => KeyDown(n, k)
  }

  function Run(n: Flags, events: seq<Event>): Flags
    decreases |events|
  {
    if events == [] then n else Run(Step(n, events[0]), events[1..])
  }

  /** A toggle click keeps the flags in sync exactly when they were in sync,
      and two clicks restore the original flags. */
  lemma ToggleInvolution(n: Flags)
    ensures InSync(ToggleClick(n).0) <==> InSync(n)
    ensures ToggleClick(ToggleClick(n).0).0 == n
  {
  }

  /** Closing is idempotent: a link click or an Escape press after either
      gives the same flags as a single one. */
  lemma CloseIdempotent(n: Flags)
    ensures LinkClick(LinkClick(n)) == LinkClick(n)
    ensures KeyDown(KeyDown(n, "Escape"), "Escape") == KeyDown(n, "Escape")
    ensures KeyDown(n, "Escape") == LinkClick(n)
  {
  }

  /** Starting from synchronised flags, every sequence of events keeps them
      synchronised. */
  lemma {:induction false} RunKeepsInSync(n: Flags, events: seq<Event>)
    requires InSync(n)
    ensures InSync(Run(n, events))
    decreases |events|
  {
    if events != [] {
      RunKeepsInSync(Step(n, events[0]), events[1..]);
    }
  }

  /** The open/closed state of a menu with one flag instead of two: a toggle
      click flips it, a link click or Escape closes it, other keys keep it. */
  function OpenAfter(open: bool, events: seq<Event>): bool
    decreases |events|
  {
    if events == [] then open
    else
      var e := events[0];
      var next := if e.ToggleClicked? then !open
                  else if e.LinkClicked? || e.key == "Escape" then false
                  else open;
      OpenAfter(next, events[1..])
  }

  /** The two flags of a run both equal the single boolean a one-flag menu
      would hold: the pair of flags behaves as one open/closed state. */
  lemma {:induction false} RunMatchesSingleFlag(n: Flags, events: seq<Event>)
    requires InSync(n)
    ensures Run(n, events) == Flags(OpenAfter(n.menuActive, events), OpenAfter(n.menuActive, events))
    decreases |events|
  {
    if events != [] {
      RunMatchesSingleFlag(Step(n, events[0]), events[1..]);
    }
  }
}
