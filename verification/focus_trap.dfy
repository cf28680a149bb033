/**
  The keyboard focus trap on the open menu. The focusable descendants are
  listed in document order when the trap is installed; on a Tab key press,
  Shift+Tab on the first of them wraps to the last and Tab on the last wraps
  to the first, each suppressing the browser's default move. Anything else is
  left to the browser.
*/
module FocusTrap {

  datatype KeyEvent = KeyEvent(key: string, shift: bool)

  /** Where focus is after the listener ran, and whether it prevented the
      browser's default handling of the key. */
  datatype Outcome<T> = Outcome(focus: T, preventDefault: bool)

  /** The trap's keydown listener. With no focusable descendants the first and
      last elements are undefined, which the focused element never equals, so
      the listener does nothing. */
  function OnKeyDown<T(==)>(focusables: seq<T>, active: T, e: KeyEvent): (r: Outcome<T>)
    ensures r.preventDefault <==>
              && e.key == "Tab" && |focusables| > 0
              && ((e.shift && active == focusables[0])
                  || (!e.shift && active == focusables[|focusables| - 1]))
    ensures r.preventDefault && e.shift ==> r.focus == focusables[|focusables| - 1]
    ensures r.preventDefault && !e.shift ==> r.focus == focusables[0]
    ensures !r.preventDefault ==> r.focus == active
  {
    if e.key != "Tab" || |focusables| == 0 then Outcome(active, false)
    else
      var first := focusables[0];
      var last := focusables[|focusables| - 1];
      if e.shift then
        (if active == first then Outcome(last, true) else Outcome(active, false))
      else
        (if active == last then Outcome(first, true) else Outcome(active, false))
  }

  predicate Distinct<T(==)>(s: seq<T>) {
    forall i, j | 0 <= i < j < |s| :: s[i] != s[j]
  }

  /** The browser's own sequential move inside the list: to the neighbouring
      element, or out of the list (`-1`) past either end. */
  function DefaultMove(n: nat, i: nat, shift: bool): int
    requires i < n
  {
    if shift then i - 1
    else if i + 1 < n then i + 1 else -1
  }

  /** Index of the focused element after a Tab or Shift+Tab: the trap's wrap
      when it prevents the default, the browser's move otherwise. */
  function FocusIndexAfterTab<T(==)>(focusables: seq<T>, i: nat, shift: bool): int
    requires i < |focusables|
  {
    var r := OnKeyDown(focusables, focusables[i], KeyEvent("Tab", shift));
    if r.preventDefault then
      (if shift then |focusables| - 1 else 0)
    else DefaultMove(|focusables|, i, shift)
  }

  /** With distinct focusables, Tab and Shift+Tab cycle through the list:
      focus never leaves the menu, Tab moves to the next element modulo the
      length and Shift+Tab to the previous one. */
  lemma TabCycles<T>(focusables: seq<T>, i: nat, shift: bool)
    requires Distinct(focusables) && i < |focusables|
    ensures 0 <= FocusIndexAfterTab(focusables, i, shift) < |focusables|
    ensures !shift ==> FocusIndexAfterTab(focusables, i, shift) == (i + 1) % |focusables|
    ensures shift ==> FocusIndexAfterTab(focusables, i, shift) == (i + |focusables| - 1) % |focusables|
  {
    var n := |focusables|;
    var j := FocusIndexAfterTab(focusables, i, shift);
    if shift {
      assert focusables[i] == focusables[0] <==> i == 0;
      if i == 0 {
        assert j == n - 1;
        ModOfSmall(n - 1, n);
      } else {
        assert j == i - 1;
        ModOfSmall(i - 1, n);
        ModShift(i - 1, n);
      }
    } else {
      assert focusables[i] == focusables[n - 1] <==> i == n - 1;
      if i == n - 1 {
        assert j == 0;
        ModOfSmall(0, n);
        ModShift(0, n);
      } else {
        assert j == i + 1;
        ModOfSmall(i + 1, n);
      }
    }
  }

  lemma ModOfSmall(a: int, n: int)
    requires 0 <= a < n
    ensures a % n == a
  {
  }

  lemma ModShift(a: int, n: int)
    requires 0 <= a < n
    ensures (a + n) % n == a % n
  {
  }

  /** The worked case of a three-element menu. */
  lemma ThreeElementWrap()
    ensures OnKeyDown(["A", "B", "C"], "A", KeyEvent("Tab", true)) == Outcome("C", true)
    ensures OnKeyDown(["A", "B", "C"], "C", KeyEvent("Tab", false)) == Outcome("A", true)
    ensures OnKeyDown(["A", "B", "C"], "B", KeyEvent("Tab", false)) == Outcome("B", false)
  {
  }
}
