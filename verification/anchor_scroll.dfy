/**
  Smooth scrolling for in-page links. A click on a link whose target starts
  with `#` always suppresses the browser's jump. If an element matches the
  target, the handler requests a smooth scroll to that element's `offsetTop`
  minus a fixed 20px; otherwise no scroll is requested. Where the page then
  ends up is the browser's business (it clamps the request to the scrollable
  range).
*/
module AnchorScroll {

  const Margin := 20

  /** The result of looking the link's target up with the selector query: the
      matching element's `offsetTop` (measured from its offset parent), no
      match, or a target such as "#" that is not a valid selector, for which
      the query throws after the default has already been prevented. */
  datatype Lookup = NotFound | Found(offsetTop: int) | SelectorError

  /** The scroll the handler requests, if any. */
  datatype Scroll = NoScroll | ScrollTo(top: int)

  datatype Outcome = Outcome(preventDefault: bool, scroll: Scroll)

  function OnAnchorClick(target: Lookup): (r: Outcome)
    ensures r.preventDefault
    ensures r.scroll.ScrollTo? <==> target.Found?
    ensures r.scroll.ScrollTo? ==> r.scroll.top + Margin == target.offsetTop
  {
    match target
    case Found(offset) => Outcome(true, ScrollTo(offset - Margin))
    case _ => Outcome(true, NoScroll)
  }
}
