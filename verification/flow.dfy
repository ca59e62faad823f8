/**
 One round trip of the waitlist flow: the form's request reaches the endpoint as
 `{ email }`, and the endpoint's response comes back to the form through `fetch`.
 */
module Flow {
  import opened Wrappers
  import opened Text
  import Waitlist
  import Page

  /** The endpoint's response as the form's `fetch` sees it: `res.ok` and the parsed body. */
  function Deliver(r: Waitlist.Response): (o: Page.Outcome)
    ensures o == Page.OkResponse <==> 200 <= r.status < 300
    ensures !(200 <= r.status < 300) && r.body.Failure? ==> o == Page.ErrResponse(Some(r.body.error))
  {
    var error := if r.body.Failure? then Some(r.body.error) else None;
    Page.Classify(200 <= r.status < 300, Page.JsonValue(error))
  }

  /**
   A submission of an input with something besides white space in it: the endpoint
   receives the trimmed address; the form ends joined exactly when the store gained the
   lower-cased trimmed address, and otherwise alerts the endpoint's own error text and
   keeps the input as it was submitted; loading is cleared either way.
   */
  lemma RoundTrip(ui: Page.UiState, store: Waitlist.Store, fault: Option<string>)
    requires !AllSpace(ui.formValue) && !ui.isJoined
    ensures var (ui1, sent) := Page.Step(ui, Page.Submit);
            && sent == Page.Send(Trim(ui.formValue))
            && var (resp, store') := Waitlist.Handle(Waitlist.Str(Trim(ui.formValue)), store, fault);
               var (ui2, eff) := Page.Step(ui1, Page.Settle(Deliver(resp)));
               && !ui2.isLoading
               && (ui2.isJoined <==> store' != store)
               && (store' != store ==> store' == store + {Lower(Trim(ui.formValue))} && ui2.formValue == "")
               && (store' == store ==> eff == Page.Alert(resp.body.error) && ui2.formValue == ui.formValue)
  {
    Page.SubmitSendsTrimmed(ui);
    var t := Trim(ui.formValue);
    var ui1 := ui.(isLoading := true);
    SettleAnswer(ui1, Waitlist.Handle(Waitlist.Str(t), store, fault), store, t);
  }

  /** How the form settles on the endpoint's answer to the address `t`. */
  lemma SettleAnswer(ui1: Page.UiState, answer: (Waitlist.Response, Waitlist.Store), store: Waitlist.Store, t: string)
    requires !ui1.isJoined
    requires answer.0 in {Waitlist.Added, Waitlist.InvalidEmail, Waitlist.Duplicate, Waitlist.Generic}
    requires answer.0 == Waitlist.Added <==> answer.1 != store
    requires answer.1 == store || answer.1 == store + {Lower(t)}
    ensures var (resp, store') := answer;
            var (ui2, eff) := Page.Step(ui1, Page.Settle(Deliver(resp)));
            && !ui2.isLoading
            && (ui2.isJoined <==> store' != store)
            && (store' != store ==> store' == store + {Lower(t)} && ui2.formValue == "")
            && (store' == store ==> eff == Page.Alert(resp.body.error) && ui2.formValue == ui1.formValue)
  {
  }

  /**
   Two submissions of the same address, the second after the first's confirmation has
   been reset: the second is told the address is already registered and the store is
   not changed again.
   */
  lemma ResubmitReportsDuplicate(raw: string, store: Waitlist.Store)
    requires '@' in raw
    ensures var (resp1, store1) := Waitlist.Handle(Waitlist.Str(Trim(raw)), store, None);
            var (resp2, store2) := Waitlist.Handle(Waitlist.Str(Trim(raw)), store1, None);
            && resp2 == Waitlist.Duplicate && store2 == store1
            && Page.Step(Page.Initial, Page.Settle(Deliver(resp2))).1 == Page.Alert("Email already registered")
  {
    TrimKeepsNonSpace(raw, '@');
    SecondSubmissionDuplicate(Trim(raw), store);
  }

  lemma SecondSubmissionDuplicate(t: string, store: Waitlist.Store)
    requires Waitlist.IsValidEmail(t)
    ensures var (resp1, store1) := Waitlist.Handle(Waitlist.Str(t), store, None);
            var (resp2, store2) := Waitlist.Handle(Waitlist.Str(t), store1, None);
            && resp2 == Waitlist.Duplicate && store2 == store1
            && Page.Step(Page.Initial, Page.Settle(Deliver(resp2))).1 == Page.Alert("Email already registered")
  {
    Waitlist.Idempotent(t, store);
    DuplicateAlerted();
  }

  lemma DuplicateAlerted()
    ensures Page.Step(Page.Initial, Page.Settle(Deliver(Waitlist.Duplicate))).1 == Page.Alert("Email already registered")
  {
  }
}
