/**
 The waitlist form on the landing page (app/page.tsx): `handleSubmit` as a state
 machine over the component's state, plus the derived `disabled` flag and button label.

 The asynchronous handler is cut at its one `await` point into two transitions: the
 submission (up to the `fetch`) and the settlement of the request (everything after it,
 including the `finally`). The 3000 ms reset timer is an event of its own. The browser's
 `fetch`, `alert` and `setTimeout` become the effects a transition emits.
 */
module Page {
  import opened Wrappers
  import opened Text

  /** The component's state: its two flags and the value shown in the email input. */
  datatype UiState = UiState(isLoading: bool, isJoined: bool, formValue: string)

  const Initial := UiState(false, false, "")

  /** The body of the endpoint's reply as `res.json()` sees it. */
  datatype ReplyBody =
    | NotJson
    | JsonNull
      /** A JSON value; `error` is its `error` field when that is a string. */
    | JsonValue(error: Option<string>)

  /** How the awaited part of the handler ends. */
  datatype Outcome =
    | OkResponse
    | ErrResponse(error: Option<string>)
    | TransportOrParseFailure

  /**
   What happens to the form: the user edits the input, submits the form, the pending
   request settles, or the reset timer fires.
   */
  datatype Event =
    | Input(value: string)
    | Submit
    | Settle(outcome: Outcome)
    | TimerFired

  /** What a transition asks of the browser. */
  datatype Effect =
    | NoEffect
    | Send(email: string)
    | Alert(message: string)
    | StartTimer(delayMs: nat)

  const ResetDelayMs: nat := 3000
  const DefaultFailure := "Failed to join waitlist"
  const NetworkError := "Network error. Please try again."

  /** The label shown while joined; its mis-encoded check mark is kept as it stands. */
  const JoinedLabel := "\U{00E2}\U{0153}\U{201C} Joined!"
  const JoiningLabel := "Joining..."
  const IdleLabel := "Request Early Access"

  /**
   How a settled `fetch` ends the handler: a body that is not JSON throws in
   `res.json()`; a non-OK reply reads `data.error`, which throws on a JSON `null`; an OK
   reply never looks at the body.
   */
  function Classify(ok: bool, body: ReplyBody): (o: Outcome)
    ensures o == OkResponse <==> ok && !body.NotJson?
    ensures o.ErrResponse? <==> !ok && body.JsonValue?
    ensures o.ErrResponse? ==> o.error == body.error
  {
    match body
    case NotJson => TransportOrParseFailure
    case JsonNull => if ok then OkResponse else TransportOrParseFailure
    case JsonValue(error) => if ok then OkResponse else ErrResponse(error)
  }

  /** `data.error || 'Failed to join waitlist'`: a missing or empty error falls back to the default. */
  function AlertText(error: Option<string>): (m: string)
    ensures m != []
    ensures error.Some? && error.value != [] ==> m == error.value
    ensures error.None? || error.value == [] ==> m == DefaultFailure
  {
    if error.Some? && error.value != [] then error.value else DefaultFailure
  }

  /** The three button texts are pairwise different. */
  lemma LabelsDistinct()
    ensures JoinedLabel != JoiningLabel && JoinedLabel != IdleLabel && JoiningLabel != IdleLabel
  {
    assert JoinedLabel[0] != JoiningLabel[0] && JoinedLabel[0] != IdleLabel[0];
    assert JoiningLabel[0] != IdleLabel[0];
  }

  /** The text of the submit button: the joined text wins over the loading text. */
  function Label(s: UiState): (r: string)
    ensures r == JoinedLabel <==> s.isJoined
    ensures r == JoiningLabel <==> !s.isJoined && s.isLoading
    ensures r == IdleLabel <==> !s.isJoined && !s.isLoading
  {
    LabelsDistinct();
    if s.isJoined then JoinedLabel else if s.isLoading then JoiningLabel else IdleLabel
  }

  /** The input and the submit button are disabled: exactly when the button does not offer to join. */
  predicate Disabled(s: UiState)
    ensures Disabled(s) <==> Label(s) != IdleLabel
  {
    s.isLoading || s.isJoined
  }

  /**
   One transition of the form and the effect it emits. A submission reads the input's
   current value.
   */
  function Step(s: UiState, e: Event): (res: (UiState, Effect))
    ensures res.1.Send? <==> e.Submit? && Trim(s.formValue) != []
    ensures res.1.Send? ==> res.0 == s.(isLoading := true) && res.1.email == Trim(s.formValue)
    ensures e.Submit? && Trim(s.formValue) == [] ==> res == (s, NoEffect)
    ensures e.Input? ==> res == (s.(formValue := e.value), NoEffect)
    ensures e.Settle? ==> !res.0.isLoading
    ensures e.Settle? ==> (res.0.isJoined <==> s.isJoined || e.outcome == OkResponse)
    ensures e.Settle? && e.outcome == OkResponse ==> res.0.formValue == [] && res.1 == StartTimer(3000)
    ensures e.Settle? && e.outcome != OkResponse ==> res.0.formValue == s.formValue && res.1.Alert?
    ensures e.TimerFired? ==> !res.0.isJoined && res.0.isLoading == s.isLoading && res.0.formValue == s.formValue
  {
    match e
    case Input(value) => (s.(formValue := value), NoEffect)
    case Submit =>
      var email := Trim(s.formValue);
      if email == [] then (s, NoEffect)
      else (s.(isLoading := true), Send(email))
    case Settle(outcome) =>
      var s' := s.(isLoading := false);
      (match outcome
       case OkResponse => (s'.(formValue := "", isJoined := true), StartTimer(ResetDelayMs))
       case ErrResponse(error) => (s', Alert(AlertText(error)))
       case TransportOrParseFailure => (s', Alert(NetworkError)))
    case TimerFired => (s.(isJoined := false), NoEffect)
  }

  /** A submission whose trimmed input is empty sends nothing and changes nothing. */
  lemma EmptySubmitIgnored(s: UiState)
    requires AllSpace(s.formValue)
    ensures Step(s, Submit) == (s, NoEffect)
  {
    TrimEmptyIffAllSpace(s.formValue);
  }

  /**
   Any other submission sends exactly the trimmed input — no white space at either end,
   nothing but white space cut — and marks the request in flight.
   */
  lemma SubmitSendsTrimmed(s: UiState)
    requires !AllSpace(s.formValue)
    ensures var (s', eff) := Step(s, Submit);
            && eff == Send(Trim(s.formValue))
            && s' == s.(isLoading := true)
            && Disabled(s')
    ensures exists lo :: TrimmedAt(s.formValue, lo, Trim(s.formValue))
    ensures Trim(s.formValue) != []
  {
    TrimEmptyIffAllSpace(s.formValue);
  }

  /** An OK response clears the form, marks the form joined and starts the reset timer; the timer un-joins it. */
  lemma OkJoinsThenTimerResets(s: UiState)
    ensures var (s1, eff) := Step(s, Settle(OkResponse));
            && s1 == UiState(false, true, "")
            && eff == StartTimer(3000)
            && Step(s1, TimerFired) == (UiState(false, false, ""), NoEffect)
  {
  }

  /** A non-OK response alerts its error, or the default when there is none; the joined flag and the form are kept. */
  lemma ErrResponseAlerts(s: UiState, error: Option<string>)
    ensures var (s1, eff) := Step(s, Settle(ErrResponse(error)));
            && eff == Alert(if error.Some? && error.value != [] then error.value else "Failed to join waitlist")
            && s1.isJoined == s.isJoined && s1.formValue == s.formValue && !s1.isLoading
  {
  }

  /** A transport failure or an unreadable body alerts the network message; the joined flag and the form are kept. */
  lemma TransportFailureAlerts(s: UiState)
    ensures var (s1, eff) := Step(s, Settle(TransportOrParseFailure));
            && eff == Alert("Network error. Please try again.")
            && s1 == s.(isLoading := false)
  {
  }

  /** A non-OK reply whose body is not JSON takes the network-error branch, not the error-message one. */
  lemma NonJsonErrorIsNetworkError(s: UiState)
    ensures Step(s, Settle(Classify(false, NotJson))).1 == Alert(NetworkError)
    ensures Step(s, Settle(Classify(false, JsonNull))).1 == Alert(NetworkError)
  {
  }

  /**
   The form together with what is outstanding: whether a request is in flight, whether
   a reset timer is pending, and the input value the last request was sent from.
   */
  datatype Session = Session(ui: UiState, inFlight: bool, timerPending: bool, submitted: string)

  const Start := Session(Initial, false, false, "")

  /**
   An event the browser can deliver: typing and submitting only while the controls are
   enabled, a settlement only while a request is in flight, the timer only while it is
   pending.
   */
  predicate Admissible(ss: Session, e: Event) {
    match e
    case Input(_) => !Disabled(ss.ui)
    case Submit => !Disabled(ss.ui)
    case Settle(_) => ss.inFlight
    case TimerFired => ss.timerPending
  }

  function Advance(ss: Session, e: Event): (ss': Session)
    requires Admissible(ss, e)
  {
    var (ui, eff) := Step(ss.ui, e);
    Session(ui,
            eff.Send? || (ss.inFlight && !e.Settle?),
            eff.StartTimer? || (ss.timerPending && !e.TimerFired?),
            if eff.Send? then ss.ui.formValue else ss.submitted)
  }

  /**
   The loading flag mirrors the request in flight and the joined flag the pending timer,
   never both at once; while a request is in flight the input still holds the value it
   was sent from.
   */
  predicate Consistent(ss: Session) {
    && ss.ui.isLoading == ss.inFlight
    && ss.ui.isJoined == ss.timerPending
    && !(ss.inFlight && ss.timerPending)
    && (ss.inFlight ==> ss.ui.formValue == ss.submitted)
  }

  /** The events are admissible one after the other from `ss`. */
  predicate AdmissibleRun(ss: Session, events: seq<Event>)
    decreases |events|
  {
    events == [] || (Admissible(ss, events[0]) && AdmissibleRun(Advance(ss, events[0]), events[1..]))
  }

  function Run(ss: Session, events: seq<Event>): (end: Session)
    requires AdmissibleRun(ss, events)
    decreases |events|
  {
    if events == [] then ss else Run(Advance(ss, events[0]), events[1..])
  }

  /** A run followed by one more event is admissible exactly when the event is admissible where the run ends. */
  lemma {:induction false} RunSnoc(ss: Session, events: seq<Event>, e: Event)
    ensures AdmissibleRun(ss, events + [e]) <==> AdmissibleRun(ss, events) && Admissible(Run(ss, events), e)
    ensures AdmissibleRun(ss, events + [e]) ==> Run(ss, events + [e]) == Advance(Run(ss, events), e)
    decreases |events|
  {
    if events == [] {
      assert [e][1..] == [];
    } else {
      assert (events + [e])[0] == events[0];
      assert (events + [e])[1..] == events[1..] + [e];
      if Admissible(ss, events[0]) {
        RunSnoc(Advance(ss, events[0]), events[1..], e);
      }
    }
  }

  /** The form starts consistent: nothing outstanding, both flags clear. */
  lemma StartConsistent()
    ensures Consistent(Start)
    ensures Label(Start.ui) == IdleLabel && !Disabled(Start.ui)
  {
  }

  /** Each admissible transition keeps the flags consistent with what is outstanding. */
  lemma AdvanceConsistent(ss: Session, e: Event)
    requires Consistent(ss) && Admissible(ss, e)
    ensures Consistent(Advance(ss, e))
  {
  }

  /**
   Submitting a non-blank input from an enabled form sends its trimmed value, records
   the input it was sent from, and shows the loading label.
   */
  lemma SubmitRecordsInput(ss: Session)
    requires Consistent(ss) && !Disabled(ss.ui) && !AllSpace(ss.ui.formValue)
    ensures var ss' := Advance(ss, Submit);
            && Step(ss.ui, Submit).1 == Send(Trim(ss.ui.formValue))
            && ss'.inFlight && ss'.submitted == ss.ui.formValue && ss'.ui.formValue == ss.ui.formValue
            && Label(ss'.ui) == JoiningLabel
  {
    SubmitSendsTrimmed(ss.ui);
  }

  /**
   While a request is in flight the only event the browser can deliver is its
   settlement: the input cannot be edited and the form cannot be resubmitted.
   */
  lemma OnlySettleWhileInFlight(ss: Session, e: Event)
    requires Consistent(ss) && ss.inFlight && Admissible(ss, e)
    ensures e.Settle?
  {
  }

  /**
   The settlement of the request in flight: loading is cleared; an OK reply clears the
   input and shows the joined label until the timer fires; any failure leaves in the
   input exactly the value the request was sent from, and the form enabled again.
   */
  lemma SettleInFlight(ss: Session, o: Outcome)
    requires Consistent(ss) && ss.inFlight
    ensures var ss' := Advance(ss, Settle(o));
            && !ss'.inFlight && !ss'.ui.isLoading
            && (o == OkResponse ==> ss'.ui.formValue == [] && ss'.timerPending && Label(ss'.ui) == JoinedLabel)
            && (o != OkResponse ==> ss'.ui.formValue == ss.submitted && !Disabled(ss'.ui) && Label(ss'.ui) == IdleLabel)
  {
  }

  /**
   Along any admissible run from a consistent state (the initial form is one), the flags
   stay consistent with what is outstanding: the controls are disabled exactly while a
   request is in flight or the confirmation timer is pending, and the button reads
   "Joining..." exactly while a request is in flight and the joined text exactly while
   the timer is pending. A request that never settles keeps the form disabled, since
   the request has no timeout.
   */
  lemma {:induction false} DisabledExactlyWhileOutstanding(ss: Session, events: seq<Event>)
    requires Consistent(ss) && AdmissibleRun(ss, events)
    ensures Consistent(Run(ss, events))
    ensures Disabled(Run(ss, events).ui) <==> Run(ss, events).inFlight || Run(ss, events).timerPending
    ensures Label(Run(ss, events).ui) == JoiningLabel <==> Run(ss, events).inFlight
    ensures Label(Run(ss, events).ui) == JoinedLabel <==> Run(ss, events).timerPending
    decreases |events|
  {
    if events != [] {
      AdvanceConsistent(ss, events[0]);
      DisabledExactlyWhileOutstanding(Advance(ss, events[0]), events[1..]);
    }
  }

  /**
   From the initial form, once a run has a request in flight its settlement can follow;
   a failed settlement leaves in the input exactly the value that request was sent
   from and enables the form again, an OK one empties the input and shows the joined
   label.
   */
  lemma SettleEndsRun(events: seq<Event>, o: Outcome)
    requires AdmissibleRun(Start, events) && Run(Start, events).inFlight
    ensures AdmissibleRun(Start, events + [Settle(o)])
    ensures var before := Run(Start, events);
            var after := Run(Start, events + [Settle(o)]);
            && (o != OkResponse ==> after.ui.formValue == before.submitted && !Disabled(after.ui))
            && (o == OkResponse ==> after.ui.formValue == [] && Label(after.ui) == JoinedLabel)
  {
    RunSnoc(Start, events, Settle(o));
    StartConsistent();
    DisabledExactlyWhileOutstanding(Start, events);
    SettleInFlight(Run(Start, events), o);
  }

  /** Typing an address and submitting it is a run that leaves a request in flight. */
  lemma TypeAndSubmitInFlight(value: string)
    requires !AllSpace(value)
    ensures AdmissibleRun(Start, [Input(value), Submit])
    ensures Run(Start, [Input(value), Submit]).inFlight
    ensures Run(Start, [Input(value), Submit]).submitted == value
  {
    var ss1 := Advance(Start, Input(value));
    SubmitRecordsInput(ss1);
    assert [Input(value), Submit][1..] == [Submit];
    assert [Submit][1..] == [];
  }
}
