# Portfolio page script — a Dafny model

This project models the pure logic inside the client-side script of a static
portfolio site (`script.js`). Each piece is an immutable state and pure
transition functions:

- **Email** — the contact form's address check, the anchored pattern
  `^[^\s@]+@[^\s@]+\.[^\s@]+$`. `MatchesPattern` gives the pattern's meaning
  as a language. `IsValidEmail` is an executable characterisation: no
  whitespace, exactly one `@`, a non-empty local part, and a domain with a `.`
  that is neither its first nor its last character. The two are proved equal
  on every string. JavaScript's `\s` class is modelled code point by code point.
- **ContactForm** — the submit handler and the delayed completion step. The
  handler checks for a missing field, then for a bad address. On success it
  disables the button, shows "Sending..." and schedules a timer that
  remembers the original label. When the timer fires, it clears the fields,
  restores the label and enables the button.
- **Nav** — the toggle and menu "active" flags. A toggle click flips both
  flags. A nav-link click or an Escape press clears both.
- **FocusTrap** — the keydown rule of the menu's focus trap, over the list of
  focusable elements in document order.
- **Reveal** — the one-way reveal of work items, as a fold over the entries
  of each visibility batch.
- **AnchorScroll** — the scroll an in-page link requests: to the matching
  element's `offsetTop` minus 20px, or none when nothing matches or the
  target is not a valid selector.

Modelling decisions:

- A field missing from the form data reads as `null`. The handler treats
  `null` exactly like the empty string, so both are modelled as "".
- Resetting the form is modelled as emptying the three fields, which are
  assumed to have no default value in the markup.
- Pending timers are a queue of remembered labels. They all have the same
  fixed delay, so they fire in scheduling order.
- The handler itself does not look at the button's state. The model's `Step`
  adds the browser's guard: a disabled submit button delivers no submit.
  `UnguardedResubmitLosesLabel` shows what that guard prevents.
- `TabCycles` assumes one thing about the browser: when the trap does not
  cancel a Tab, focus moves to the neighbouring element of the list, or
  leaves the list past either end.
- `script.js` has no listener on the form's reset event; only the timer
  callback (line 66) resets the form.

## Model

| member | source | states |
|---|---|---|
| Email.IsValidEmailIffPattern | script.js:73-76 | The address check accepts a string exactly when the anchored pattern matches it: no whitespace, exactly one `@`, a non-empty local part, and a `.` inside the domain with text on both sides |
| Email.WhitespaceRejected | script.js:74 | Any string containing a `\s` character anywhere is rejected |
| Email.MissingAtRejected | script.js:74 | A string with no `@` is rejected |
| Email.SeveralAtsRejected | script.js:74 | A string with two or more `@` is rejected |
| Email.EmptyLocalPartRejected | script.js:74 | A string starting with `@` (empty local part) is rejected |
| Email.ExampleAccepted | script.js:73-76 | "a@b.com" is accepted |
| Email.ExampleRejected | script.js:73-76 | "not-an-email" is rejected |
| ContactForm.Submit | script.js:36-61 | A missing field is reported if and only if some field is empty; the invalid-email error occurs exactly when all fields are present and the pattern rejects the address; acceptance leaves the fields alone, disables the button, labels it "Sending..." and queues a timer remembering the original label |
| ContactForm.TimerFires | script.js:64-69 | The oldest timer empties all three fields and gives the button back its remembered label, enabled |
| ContactForm.RejectedLeavesButton | script.js:46-54 | A rejected submit changes nothing, button label and disabled flag included; an empty address is reported as a missing field, never as an invalid one |
| ContactForm.Step | script.js:36-70 | How the page delivers events, with one browser assumption: a disabled submit button delivers no submit, so the handler then changes nothing; an enabled submit changes the form only when validation passes, and then leaves the button disabled; a timer fires only once scheduled; typing changes the fields and never the button or the pending timers |
| ContactForm.SubmitThenTimerRestores | script.js:57-69 | From an idle form with valid fields, submitting disables the button with "Sending...", and the timer then returns exactly the original button with empty fields and no pending timer |
| ContactForm.StepKeepsSettled | script.js:57-69 | Every event keeps the button either idle with its original label or sending with one timer that remembers that label |
| ContactForm.RunKeepsSettled | script.js:57-69 | Over any sequence of events the button stays settled, so whenever no timer is pending it shows its original label and is enabled |
| ContactForm.MissingNameExample | script.js:46-49 | A form with an empty name and a valid address is rejected with the missing-field error |
| ContactForm.MalformedEmailExample | script.js:51-54 | A complete form whose address is "not-an-email" is rejected with the invalid-email error |
| ContactForm.ValidSubmitExample | script.js:57-61 | A valid form is accepted with the button disabled, labelled "Sending...", and its original label "Send" remembered by the timer |
| ContactForm.UnguardedResubmitLosesLabel | script.js:57-69 | For any valid form with no timer pending, if a second submit reached the handler before the first timer fired, both would be accepted and after both timers the button would be enabled but labelled "Sending..." — the disabled flag is the only guard against this |
| Nav.ToggleClick | script.js:5-8 | A toggle click flips both flags; the second toggle listener (lines 177-181) installs the focus trap exactly when the menu was not active before, i.e. has just opened |
| Nav.LinkClick | script.js:12-17 | A nav-link click leaves both flags inactive, whatever they were |
| Nav.KeyDown | script.js:143-149 | Escape leaves both flags inactive; any other key leaves both unchanged |
| Nav.ToggleInvolution | script.js:5-8 | A toggle click keeps the flags equal exactly when they were equal, and two clicks restore the original flags |
| Nav.CloseIdempotent | script.js:12-17 | Closing twice, by link or by Escape, gives the same flags as closing once, and both ways of closing agree |
| Nav.RunKeepsInSync | script.js:5-17 | From equal flags, every sequence of toggle clicks, link clicks and key presses keeps the two flags equal |
| Nav.RunMatchesSingleFlag | script.js:5-17 | After any sequence of events both flags equal the state of a one-flag menu that toggles, closes on link or Escape, and ignores other keys |
| FocusTrap.OnKeyDown | script.js:154-174 | The default is prevented exactly on Shift+Tab at the first or Tab at the last focusable; Shift+Tab then focuses the last and Tab the first; otherwise focus stays put; an empty list never traps |
| FocusTrap.TabCycles | script.js:159-173 | With distinct focusables, focus never leaves the list: Tab moves from index i to (i+1) mod n and Shift+Tab to (i-1) mod n |
| FocusTrap.ThreeElementWrap | script.js:159-173 | With [A, B, C]: Shift+Tab on A focuses C, Tab on C focuses A, Tab on B is left to the browser |
| Reveal.ApplyBatch | script.js:84-91 | A batch gives the revealed style to exactly the items some entry reports as intersecting, and leaves every other item's style (or absence of one) untouched |
| Reveal.BatchRevealsExactly | script.js:84-91 | The items shown after a batch are those shown before plus those the batch reports as intersecting |
| Reveal.RevealedOnlyGrows | script.js:84-91 | Across any sequence of batches the set of revealed items only grows; no later non-intersecting entry hides an item |
| Reveal.HitIsRevealed | script.js:84-91 | An item reported as intersecting in any batch is revealed after all batches |
| AnchorScroll.OnAnchorClick | script.js:20-32 | The default jump is always prevented; a scroll is requested exactly when an element matches the target, and the requested top is that element's `offsetTop` minus 20 |

## Left out

- DOM access and browser APIs (element queries, class lists, form data
  extraction, `alert`, `window.scrollTo`). Their effects are plain state
  fields, and the alerts are the rejection reasons and the timer step.
- The alert texts and the smooth-scroll animation: presentation only.
- AnchorScroll.OnAnchorClick — states the scroll the handler requests, not
  where the page ends up: `offsetTop` is measured from the element's offset
  parent rather than from the document, and the browser clamps the request
  at both ends of the scrollable range. A target such as "#" makes the
  selector query throw; that case is the `SelectorError` lookup, with the
  default prevented and no scroll requested.
- FocusTrap.OnKeyDown — assumes that calling `focus()` on the first or last
  listed element succeeds. The selector of line 152 also matches elements
  that cannot take focus (a disabled button, a hidden input, a link without
  `href`); wrapping to one of those prevents the default while focus stays
  where it was, which the model and `TabCycles` do not cover.
- ContactForm.Submit — assumes the form contains a `button[type="submit"]`
  (line 57). A `<button>` without a `type` attribute does not match, and
  line 58 would then throw after validation: no button change and no timer,
  a state the model's accepted outcome does not describe.
- Visibility-observer geometry (threshold 0.1, bottom margin −50px,
  lines 79-82): platform behaviour. Each entry carries its intersecting
  flag as an input.
- The 1500 ms delay of the timer (line 64): the timer firing is an explicit
  event. Nothing cancels it.
- Hero video handling (lines 99-125): media and autoplay plumbing with no
  state to reason about. As written, the braces there do not balance (the
  `if` of line 102 and the callback of line 99 are not both closed), so the
  file would not parse. The model describes the handlers the file evidently
  intends.
- Image preloading (lines 128-140): a cache-warming side effect over an
  empty list.
- Reduced-motion handling (lines 184-189): one media query and one style
  write.
- Repeated focus-trap installs: each opening of the menu adds another
  listener (lines 177-181). The model has a single trap over the current
  list, and does not cover the interplay of several listeners built over
  different lists.
