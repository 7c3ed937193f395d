/** The contact form's submit handler (initFormSubmission in script.js).

    A submit records the button's current text as `originalText`, shows a sending label
    and disables the button, then awaits the fetch. When the fetch settles, either the
    success branch runs (success label and gradient, the form is reset, the button stays
    disabled, and a timer is scheduled that later restores the text, clears the gradient
    and re-enables the button) or the catch branch runs (failure label and gradient, the
    button is re-enabled at once, and a timer is scheduled that later restores the text and
    clears the gradient only).

    Everything asynchronous is an explicit event: a submit, the settling of one pending
    fetch with an outcome given as input, and the firing of the oldest pending timer. All
    timers use the same delay, so they fire in the order they were scheduled. */
module FormSubmission {

  const SendingLabel: string := "送信中..."
  const SentLabel: string := "✓ 送信完了"
  const FailedLabel: string := "送信失敗 - 再試行"

  /** The button's inline background: unset, or one of the two gradients the handler writes. */
  datatype Background = Unset | SuccessGradient | FailureGradient

  /** How a fetch settles: `response.ok` (a 2xx status), another status, or a rejected promise. */
  datatype Outcome = Ok | NotOk | NetworkError

  /** A scheduled revert, holding the `originalText` of its submission. Only the success
      revert re-enables the button. */
  datatype Revert = SuccessRevert(restore: string) | FailureRevert(restore: string)

  /** The button, the number of times the form has been reset, the submissions whose fetch
      has not settled (each with the `originalText` it captured), and the pending timers,
      oldest first. */
  datatype Button = Button(
    text: string,
    disabled: bool,
    background: Background,
    resets: nat,
    awaiting: seq<string>,
    timers: seq<Revert>)

  /** Which text a submission records as the one to restore later: the button's text at
      that moment, as the handler does, or the text the page loaded with. */
  datatype Capture = EachSubmit | AtLoad(pageLabel: string)

  datatype Event = Submitted | Settled(request: nat, outcome: Outcome) | TimerFired

  /** The page as loaded: the button shows `pageLabel`, is enabled and unstyled, nothing is pending. */
  function Loaded(pageLabel: string): Button
  {
    Button(pageLabel, false, Unset, 0, [], [])
  }

  /** Nothing is in flight and no timer is pending. */
  predicate AtRest(b: Button)
  {
    b.awaiting == [] && b.timers == []
  }

  function AfterSubmit(b: Button, c: Capture): Button
  {
    var originalText := match c
      case EachSubmit => b.text
      case AtLoad(pageLabel) => pageLabel;
    b.(text := SendingLabel, disabled := true, awaiting := b.awaiting + [originalText])
  }

  /** Pending fetch number `request` settles; a number with no pending fetch is no event. */
  function AfterSettle(b: Button, request: nat, outcome: Outcome): Button
  {
    if request >= |b.awaiting| then b
    else
      var originalText := b.awaiting[request];
      var rest := b.awaiting[..request] + b.awaiting[request + 1..];
      if outcome == Ok then
        b.(text := SentLabel, background := SuccessGradient, resets := b.resets + 1,
           awaiting := rest, timers := b.timers + [SuccessRevert(originalText)])
      else
        b.(text := FailedLabel, background := FailureGradient, disabled := false,
           awaiting := rest, timers := b.timers + [FailureRevert(originalText)])
  }

  /** The oldest pending timer fires; with none pending nothing happens. */
  function AfterTimer(b: Button): Button
  {
    if b.timers == [] then b
    else match b.timers[0]
      case SuccessRevert(originalText) =>
        b.(text := originalText, background := Unset, disabled := false, timers := b.timers[1..])
      case FailureRevert(originalText) =>
        b.(text := originalText, background := Unset, timers := b.timers[1..])
  }

  function Step(b: Button, e: Event, c: Capture): Button
  {
    match e
    case Submitted => AfterSubmit(b, c)
    case Settled(request, outcome) => AfterSettle(b, request, outcome)
    case TimerFired => AfterTimer(b)
  }

  /** The state after the events of `evs`, in order. */
  function Run(b: Button, evs: seq<Event>, c: Capture): Button
    decreases |evs|
  {
    if evs == [] then b else Step(Run(b, evs[..|evs| - 1], c), evs[|evs| - 1], c)
  }

  /** Every submit in `evs` happens while the button is enabled, as it does when the user
      submits through the button (a script calling requestSubmit is not bound by this). */
  ghost predicate UserDriven(b: Button, evs: seq<Event>, c: Capture)
    decreases |evs|
  {
    evs == [] ||
    (UserDriven(b, evs[..|evs| - 1], c) &&
     (evs[|evs| - 1].Submitted? ==> !Run(b, evs[..|evs| - 1], c).disabled))
  }

  /** The handler's state, with the page's button and form and the pending work of the event loop. */
  class ContactForm {
    var text: string
    var disabled: bool
    var background: Background
    var resets: nat
    var awaiting: seq<string>
    var timers: seq<Revert>

    function State(): Button
      reads this
    {
      Button(text, disabled, background, resets, awaiting, timers)
    }

    constructor (pageLabel: string)
      ensures State() == Loaded(pageLabel)
    {
      text := pageLabel;
      disabled := false;
      background := Unset;
      resets := 0;
      awaiting := [];
      timers := [];
    }

    method Submit()
      modifies this
      ensures State() == AfterSubmit(old(State()), EachSubmit)
    {
      var originalText := text;
      text := SendingLabel;
      disabled := true;
      awaiting := awaiting + [originalText];
    }

    method Settle(request: nat, outcome: Outcome)
      modifies this
      ensures State() == AfterSettle(old(State()), request, outcome)
    {
      if request < |awaiting| {
        var originalText := awaiting[request];
        awaiting := awaiting[..request] + awaiting[request + 1..];
        if outcome == Ok {
          text := SentLabel;
          background := SuccessGradient;
          resets := resets + 1;
          timers := timers + [SuccessRevert(originalText)];
        } else {
          text := FailedLabel;
          background := FailureGradient;
          disabled := false;
          timers := timers + [FailureRevert(originalText)];
        }
      }
    }

    method FireTimer()
      modifies this
      ensures State() == AfterTimer(old(State()))
    {
      if timers != [] {
        var revert := timers[0];
        timers := timers[1..];
        text := revert.restore;
        background := Unset;
        if revert.SuccessRevert? {
          disabled := false;
        }
      }
    }
  }

  // ---------------------------------------------------------------------------
  // The two paths of one submission

  /** A button that is enabled, unstyled, and has nothing pending. */
  predicate Idle(b: Button)
  {
    AtRest(b) && !b.disabled && b.background == Unset
  }

  /** Success: sending and disabled; then the success label and gradient, one more form
      reset, still disabled; then, when the timer fires, back to where it started with only
      the reset remaining. */
  lemma SuccessPath(b: Button)
    requires Idle(b)
    ensures var b1 := AfterSubmit(b, EachSubmit);
      b1.text == SendingLabel && b1.disabled && b1.awaiting == [b.text]
    ensures var b2 := AfterSettle(AfterSubmit(b, EachSubmit), 0, Ok);
      b2.text == SentLabel && b2.background == SuccessGradient && b2.disabled &&
      b2.resets == b.resets + 1 && b2.awaiting == [] && b2.timers == [SuccessRevert(b.text)]
    ensures AfterTimer(AfterSettle(AfterSubmit(b, EachSubmit), 0, Ok)) == b.(resets := b.resets + 1)
  {
  }

  /** Failure (a non-2xx status or a network error): the failure label and gradient, enabled
      at once, the form not reset; when the timer fires the label and background come back
      and the button simply stays enabled. */
  lemma FailurePath(b: Button, outcome: Outcome)
    requires Idle(b) && outcome != Ok
    ensures var b2 := AfterSettle(AfterSubmit(b, EachSubmit), 0, outcome);
      b2.text == FailedLabel && b2.background == FailureGradient && !b2.disabled &&
      b2.resets == b.resets && b2.awaiting == [] && b2.timers == [FailureRevert(b.text)]
    ensures AfterTimer(AfterSettle(AfterSubmit(b, EachSubmit), 0, outcome)) == b
  {
  }

  /** The failure timer never touches `disabled`; only the success timer enables. */
  lemma FailureTimerKeepsDisabled(b: Button)
    requires b.timers != [] && b.timers[0].FailureRevert?
    ensures AfterTimer(b).disabled == b.disabled
    ensures AfterTimer(b).text == b.timers[0].restore && AfterTimer(b).background == Unset
  {
  }

  // ---------------------------------------------------------------------------
  // Invariants over any sequence of events

  /** The number of pending success reverts. */
  function SuccessReverts(ts: seq<Revert>): nat
    decreases |ts|
  {
    if ts == [] then 0
    else SuccessReverts(ts[..|ts| - 1]) + (if ts[|ts| - 1].SuccessRevert? then 1 else 0)
  }

  lemma {:induction false} SuccessRevertsDropFirst(ts: seq<Revert>)
    requires ts != []
    ensures SuccessReverts(ts) == SuccessReverts(ts[1..]) + (if ts[0].SuccessRevert? then 1 else 0)
    decreases |ts|
  {
    if |ts| > 1 {
      SuccessRevertsDropFirst(ts[..|ts| - 1]);
      assert ts[..|ts| - 1][1..] == ts[1..][..|ts[1..]| - 1];
    }
  }

  /** Disabled only while something pending will enable it again, and styled only while a
      timer will clear the style. */
  ghost predicate WillSettle(b: Button)
  {
    (b.disabled ==> b.awaiting != [] || SuccessReverts(b.timers) > 0) &&
    (b.background != Unset ==> b.timers != [])
  }

  lemma StepKeepsWillSettle(b: Button, e: Event, c: Capture)
    requires WillSettle(b)
    ensures WillSettle(Step(b, e, c))
  {
    if e.TimerFired? && b.timers != [] {
      SuccessRevertsDropFirst(b.timers);
    }
  }

  /** Whatever happens, once nothing is pending the button is enabled and unstyled. */
  lemma {:induction false} RestIsEnabled(b: Button, evs: seq<Event>, c: Capture)
    requires Idle(b)
    ensures WillSettle(Run(b, evs, c))
    ensures AtRest(Run(b, evs, c)) ==> Idle(Run(b, evs, c))
    decreases |evs|
  {
    if evs != [] {
      var prefix := evs[..|evs| - 1];
      RestIsEnabled(b, prefix, c);
      StepKeepsWillSettle(Run(b, prefix, c), evs[|evs| - 1], c);
    }
  }

  /** The guard the disabled button gives user-driven sequences: at most one fetch is ever
      in flight, and at most one success revert is pending, and only while disabled. */
  ghost predicate Guarded(b: Button)
  {
    |b.awaiting| <= 1 &&
    (b.awaiting != [] ==> b.disabled) &&
    SuccessReverts(b.timers) <= 1 &&
    (SuccessReverts(b.timers) == 1 ==> b.disabled && b.awaiting == [])
  }

  /** The labels a user-driven run of the handler as written can ever restore or rest on. */
  ghost predicate RestoresPageOrFailure(b: Button, pageLabel: string)
  {
    (forall i :: 0 <= i < |b.awaiting| ==> b.awaiting[i] in {pageLabel, FailedLabel}) &&
    (forall i :: 0 <= i < |b.timers| ==> b.timers[i].restore in {pageLabel, FailedLabel}) &&
    (!b.disabled ==> b.text in {pageLabel, FailedLabel})
  }

  lemma UserStepKeepsGuard(b: Button, e: Event, pageLabel: string)
    requires Guarded(b) && RestoresPageOrFailure(b, pageLabel)
    requires e.Submitted? ==> !b.disabled
    ensures Guarded(Step(b, e, EachSubmit)) && RestoresPageOrFailure(Step(b, e, EachSubmit), pageLabel)
  {
    if e.TimerFired? && b.timers != [] {
      SuccessRevertsDropFirst(b.timers);
    }
  }

  /** For the handler as written and a user who submits only through the enabled button:
      at most one fetch is ever in flight, and once nothing is pending the button is enabled,
      unstyled, and shows either the page's original text or the failure label. */
  lemma {:induction false} UserDrivenRuns(pageLabel: string, evs: seq<Event>)
    requires UserDriven(Loaded(pageLabel), evs, EachSubmit)
    ensures var b := Run(Loaded(pageLabel), evs, EachSubmit);
      Guarded(b) && RestoresPageOrFailure(b, pageLabel) &&
      (AtRest(b) ==> Idle(b) && b.text in {pageLabel, FailedLabel})
    decreases |evs|
  {
    RestIsEnabled(Loaded(pageLabel), evs, EachSubmit);
    if evs != [] {
      var prefix := evs[..|evs| - 1];
      UserDrivenRuns(pageLabel, prefix);
      UserStepKeepsGuard(Run(Loaded(pageLabel), prefix, EachSubmit), evs[|evs| - 1], pageLabel);
    }
  }

  // ---------------------------------------------------------------------------
  // Finding: a retry during the failure display makes the failure label permanent

  /** As written: submit, fail, retry while the failure label is still shown (the button is
      already enabled), let the first failure's timer fire, succeed, let the success timer
      fire. Every submit was made on the enabled button, nothing is pending at the end, and
      the button rests on the failure label, not on the text the page loaded with. On the
      way, the stale failure timer also replaces the sending label while the retry is in
      flight. */
  lemma StaleLabelAfterRetry(pageLabel: string)
    requires pageLabel != FailedLabel
    ensures var b0 := Loaded(pageLabel);
      var b1 := AfterSettle(AfterSubmit(b0, EachSubmit), 0, NotOk);
      var b2 := AfterSubmit(b1, EachSubmit);
      var b3 := AfterTimer(b2);
      var b4 := AfterTimer(AfterSettle(b3, 0, Ok));
      !b0.disabled && !b1.disabled &&
      b3.text == pageLabel && b3.disabled && b3.awaiting != [] &&
      Idle(b4) && b4.text == FailedLabel && b4.text != pageLabel
  {
  }

  /** The same sequence as one run of events, checked to be user-driven. */
  lemma StaleLabelRun(pageLabel: string)
    requires pageLabel != FailedLabel
    ensures var evs := [Submitted, Settled(0, NotOk), Submitted, TimerFired, Settled(0, Ok), TimerFired];
      UserDriven(Loaded(pageLabel), evs, EachSubmit) &&
      Idle(Run(Loaded(pageLabel), evs, EachSubmit)) &&
      Run(Loaded(pageLabel), evs, EachSubmit).text == FailedLabel &&
      Run(Loaded(pageLabel), evs, AtLoad(pageLabel)).text == pageLabel
  {
    var c, f := EachSubmit, AtLoad(pageLabel);
    var b0 := Loaded(pageLabel);
    var e1 := [Submitted];
    var e2 := e1 + [Settled(0, NotOk)];
    var e3 := e2 + [Submitted];
    var e4 := e3 + [TimerFired];
    var e5 := e4 + [Settled(0, Ok)];
    var e6 := e5 + [TimerFired];
    RunSnoc(b0, [], Submitted, c);
    RunSnoc(b0, e1, Settled(0, NotOk), c);
    RunSnoc(b0, e2, Submitted, c);
    RunSnoc(b0, e3, TimerFired, c);
    RunSnoc(b0, e4, Settled(0, Ok), c);
    RunSnoc(b0, e5, TimerFired, c);
    RunSnoc(b0, [], Submitted, f);
    RunSnoc(b0, e1, Settled(0, NotOk), f);
    RunSnoc(b0, e2, Submitted, f);
    RunSnoc(b0, e3, TimerFired, f);
    RunSnoc(b0, e4, Settled(0, Ok), f);
    RunSnoc(b0, e5, TimerFired, f);
    var b1 := AfterSettle(AfterSubmit(b0, c), 0, NotOk);
    var b2 := AfterSubmit(b1, c);
    var b3 := AfterTimer(b2);
    var b4 := AfterTimer(AfterSettle(b3, 0, Ok));
    assert Run(b0, e2, c) == b1;
    assert Run(b0, e4, c) == b3;
    assert Run(b0, e6, c) == b4;
    assert UserDriven(b0, e2, c);
    assert UserDriven(b0, e6, c);
    assert e6 == [Submitted, Settled(0, NotOk), Submitted, TimerFired, Settled(0, Ok), TimerFired];
    StaleLabelAfterRetry(pageLabel);
  }

  lemma RunSnoc(b: Button, evs: seq<Event>, e: Event, c: Capture)
    ensures Run(b, evs + [e], c) == Step(Run(b, evs, c), e, c)
    ensures UserDriven(b, evs + [e], c) <==>
      UserDriven(b, evs, c) && (e.Submitted? ==> !Run(b, evs, c).disabled)
  {
  }

  /** The labels the corrected handler can show: the page's text, the sending label while a
      fetch is in flight, or a result label while a timer is pending. Every restore is the
      page's text. */
  ghost predicate LabelAccountedFor(b: Button, pageLabel: string)
  {
    (forall i :: 0 <= i < |b.awaiting| ==> b.awaiting[i] == pageLabel) &&
    (forall i :: 0 <= i < |b.timers| ==> b.timers[i].restore == pageLabel) &&
    (b.text == pageLabel ||
     (b.text == SendingLabel && b.awaiting != []) ||
     (b.text in {SentLabel, FailedLabel} && b.timers != []))
  }

  lemma FixedStepKeepsLabels(b: Button, e: Event, pageLabel: string)
    requires LabelAccountedFor(b, pageLabel)
    ensures LabelAccountedFor(Step(b, e, AtLoad(pageLabel)), pageLabel)
  {
  }

  /** Corrected: when the text to restore is the one the page loaded with, any sequence of
      events whatsoever, once nothing is pending, leaves the button enabled, unstyled and
      showing that text again. */
  lemma {:induction false} RestLabelIsPageLabel(pageLabel: string, evs: seq<Event>)
    ensures LabelAccountedFor(Run(Loaded(pageLabel), evs, AtLoad(pageLabel)), pageLabel)
    ensures var b := Run(Loaded(pageLabel), evs, AtLoad(pageLabel));
      AtRest(b) ==> Idle(b) && b.text == pageLabel
    decreases |evs|
  {
    RestIsEnabled(Loaded(pageLabel), evs, AtLoad(pageLabel));
    if evs != [] {
      var prefix := evs[..|evs| - 1];
      RestLabelIsPageLabel(pageLabel, prefix);
      FixedStepKeepsLabels(Run(Loaded(pageLabel), prefix, AtLoad(pageLabel)), evs[|evs| - 1], pageLabel);
    }
  }
}
