/**
  The contact form's submit handler and the delayed "message sent" step.

  The handler validates the three fields (a missing field first, then the
  e-mail address), and on success disables the submit button, shows
  "Sending..." on it and schedules a timer that remembers the button's
  original label. When the timer fires, the form is cleared, the label is
  restored and the button is enabled again.

  A field that is absent from the form data reads as `null`, which the handler
  treats exactly like the empty string, so both are modelled as "". Pending
  timers are kept in the order they were scheduled; all share one fixed delay,
  so they fire in that order.
*/
module ContactForm {
  import Email

  const SendingLabel := "Sending..."

  datatype Button = Button(text: string, disabled: bool)

  datatype Form = Form(
    name: string,
    email: string,
    message: string,
    button: Button,
    /** original labels captured by the timers still to fire, oldest first */
    timers: seq<string>)

  datatype Rejection = MissingField | InvalidEmail

  /** The outcome of one submit event: an alert and no change, or the next form. */
  datatype SubmitResult = Rejected(reason: Rejection) | Accepted(next: Form)

  predicate AnyFieldMissing(f: Form) {
    f.name == "" || f.email == "" || f.message == ""
  }

  /** The submit handler. */
  function Submit(f: Form): (r: SubmitResult)
    ensures r == Rejected(MissingField) <==> AnyFieldMissing(f)
    ensures r == Rejected(InvalidEmail) <==>
              !AnyFieldMissing(f) && !Email.MatchesPattern(f.email)
    ensures r.Accepted? ==>
              && Email.MatchesPattern(f.email)
              && r.next.button == Button(SendingLabel, true)
              && r.next.timers == f.timers + [f.button.text]
              && r.next.name == f.name && r.next.email == f.email
              && r.next.message == f.message
  {
    Email.IsValidEmailIffPattern(f.email);
    if AnyFieldMissing(f) then Rejected(MissingField)
    else if !Email.IsValidEmail(f.email) then Rejected(InvalidEmail)
    else Accepted(f.(button := Button(SendingLabel, true),
                     timers := f.timers + [f.button.text]))
  }

  /** The oldest pending timer fires: the thank-you notice is shown, the form
      is reset, and the button gets back the label that timer remembered. */
  function TimerFires(f: Form): (r: Form)
    requires |f.timers| > 0
    ensures r.name == "" && r.email == "" && r.message == ""
    ensures r.button == Button(f.timers[0], false)
    ensures r.timers == f.timers[1..]
  {
    Form("", "", "", Button(f.timers[0], false), f.timers[1..])
  }

  /** What the page can observe happening to the form. */
  datatype Event =
    | Typed(name: string, email: string, message: string)
    | SubmitPressed
    | TimerElapsed

  /** One event as the browser delivers it: a disabled submit button delivers
      no submit event, and a timer can only fire once scheduled. */
  function Step(f: Form, e: Event): (r: Form)
    ensures e.SubmitPressed? && f.button.disabled ==> r == f
    ensures e.SubmitPressed? && !f.button.disabled ==>
              r == (if Submit(f).Accepted? then Submit(f).next else f)
    ensures e.SubmitPressed? && r != f ==>
              !f.button.disabled && Email.MatchesPattern(f.email) && r.button.disabled
    ensures e.TimerElapsed? ==>
              r == (if |f.timers| == 0 then f else TimerFires(f))
    ensures e.Typed? ==>
              && r.button == f.button && r.timers == f.timers
              && r.name == e.name && r.email == e.email && r.message == e.message
  {
    match e
    case Typed(n, m, msg) => f.(name := n, email := m, message := msg)
    case SubmitPressed =>
      if f.button.disabled then f
      else (match Submit(f)
            case Rejected(_) => f
            case Accepted(g) => g)
    case TimerElapsed =>
      if |f.timers| == 0 then f else TimerFires(f)
  }

  function Run(f: Form, events: seq<Event>): Form
    decreases |events|
  {
    if events == [] then f else Run(Step(f, events[0]), events[1..])
  }

  /** The button is either idle with its original label, or sending with
      exactly one timer that remembers the original label. */
  predicate Settled(f: Form, original: string) {
    || (f.timers == [] && f.button == Button(original, false))
    || (f.timers == [original] && f.button == Button(SendingLabel, true))
  }

  /** A rejected submit changes neither the label nor the disabled flag, and
      an empty e-mail is reported as a missing field, never as invalid. */
  lemma RejectedLeavesButton(f: Form)
    requires Submit(f).Rejected?
    ensures Step(f, SubmitPressed) == f
    ensures f.email == "" ==> Submit(f).reason == MissingField
  {
  }

  /** A valid submit from an idle form followed by the timer leaves the
      fields empty, the original label back and the button enabled. */
  lemma SubmitThenTimerRestores(f: Form)
    requires f.timers == [] && !f.button.disabled
    requires !AnyFieldMissing(f) && Email.MatchesPattern(f.email)
    ensures Step(f, SubmitPressed).button == Button(SendingLabel, true)
    ensures Run(f, [SubmitPressed, TimerElapsed]) ==
              Form("", "", "", f.button, [])
  {
    var g := Step(f, SubmitPressed);
    assert g.timers == [f.button.text];
    assert Run(g, [TimerElapsed]) == Run(Step(g, TimerElapsed), []);
  }

  lemma StepKeepsSettled(f: Form, e: Event, original: string)
    requires Settled(f, original)
    ensures Settled(Step(f, e), original)
  {
  }

  /** Under the browser's guard, any sequence of events keeps the button
      settled; in particular whenever no timer is pending the button shows
      its original label and is enabled. */
  lemma {:induction false} RunKeepsSettled(f: Form, events: seq<Event>, original: string)
    requires Settled(f, original)
    ensures Settled(Run(f, events), original)
    ensures Run(f, events).timers == [] ==>
              Run(f, events).button == Button(original, false)
    decreases |events|
  {
    if events != [] {
      StepKeepsSettled(f, events[0], original);
      RunKeepsSettled(Step(f, events[0]), events[1..], original);
    }
  }

  /** Why the disabled flag matters: if a second submit of a valid form
      reached the handler while the first was pending, the second timer would
      remember "Sending...", and once both timers fired that label would be
      left on an enabled button instead of the original one. */
  lemma UnguardedResubmitLosesLabel(f: Form)
    requires f.timers == [] && !AnyFieldMissing(f) && Email.MatchesPattern(f.email)
    ensures Submit(f).Accepted?
    ensures Submit(Submit(f).next).Accepted?
    ensures TimerFires(TimerFires(Submit(Submit(f).next).next)).button == Button(SendingLabel, false)
  {
    var once := Submit(f);
    assert once.Accepted?;
    assert !AnyFieldMissing(once.next);
    var twice := Submit(once.next);
    assert twice.Accepted?;
    assert twice.next.timers == [f.button.text, SendingLabel];
  }

  /** A form with an empty name is rejected as incomplete. */
  lemma MissingNameExample(f: Form)
    requires f == Form("", "a@b.com", "hi", Button("Send", false), [])
    ensures Submit(f) == Rejected(MissingField)
  {
  }

  /** A complete form with a malformed address is rejected as invalid. */
  lemma MalformedEmailExample(f: Form)
    requires f == Form("A", "not-an-email", "hi", Button("Send", false), [])
    ensures Submit(f) == Rejected(InvalidEmail)
  {
    Email.ExampleRejected();
  }

  /** A valid form is accepted: the button is disabled and labelled
      "Sending...", and one timer remembers "Send". */
  lemma ValidSubmitExample(f: Form)
    requires f == Form("A", "a@b.com", "hi", Button("Send", false), [])
    ensures Submit(f) == Accepted(f.(button := Button(SendingLabel, true), timers := ["Send"]))
  {
    Email.ExampleAccepted();
    assert Submit(f).Accepted?;
    assert f.timers + [f.button.text] == ["Send"];
  }
}
