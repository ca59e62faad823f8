# Postie waitlist flow in Dafny

This project models the only logic in the Postie landing page. It has two parts:

- **The waitlist endpoint** (`onRequestPost` in `functions/api/waitlist.ts`). It
  validates a posted `{ email }`, lower-cases the address and inserts it into a table
  with a uniqueness constraint. It then answers with one of four responses: 200 "Added
  to waitlist!", 400 "Invalid email address", 400 "Email already registered" or 500
  "Failed to join waitlist".
- **The waitlist form** (`handleSubmit` in `app/page.tsx`, with the `disabled` flag and
  the button label derived from the component state). It trims the input, sends at
  most one request, and shows a confirmation for three seconds or an alert.

Modules:

- `Wrappers` (wrappers.dfy): `Option`.
- `Text` (text.dfy): ASCII lower-casing; `String.prototype.trim` with ECMAScript's
  exact white-space and line-terminator code points; substring search as in
  `String.prototype.includes`.
- `Waitlist` (waitlist.dfy): the payload, the response, and the store as a
  `set<string>` behind one operation, `InsertIfAbsent`. `Handle` is the handler as
  written. `HandleIntended` is the corrected handler (see Findings).
- `Page` (page.dfy): the component state `{isLoading, isJoined, formValue}` and the
  events `Input(value)` (the user edits the email input), `Submit`, `Settle(outcome)`
  and `TimerFired`. `Step` is the transition
  function, and it emits an effect (`Send`, `Alert`, `StartTimer`). `Session` adds
  what is outstanding (a request in flight, a pending reset timer, the input value the
  request was sent from) so that invariants over whole runs can be stated.
- `Flow` (flow.dfy): one round trip, form → endpoint → form.

Some things the handlers depend on become inputs:

- Whether the store fails on a call is the `fault` parameter.
- What the JSON parser makes of the body is the `Payload` variant.
- Whether `fetch` fails, and what the reply body is, is the `Outcome` of a `Settle`
  event.
- The 3000 ms timer is the `TimerFired` event.

## Model

| member | source | states |
|---|---|---|
| Waitlist.Handle | postie-website/functions/api/waitlist.ts:5-43 | The response is always one of the four fixed responses. It is 200 exactly when the store changed. The store is either unchanged or gains exactly the new key of a string address. The response is "Invalid email address" exactly for a missing/falsy email, an empty or '@'-less string, or an array with no '@' element. |
| Waitlist.IsValidEmail | postie-website/functions/api/waitlist.ts:11 | The validation accepts a string exactly when it contains '@'; the emptiness test adds nothing beyond that. |
| Waitlist.Key | postie-website/functions/api/waitlist.ts:21 | The stored key has the address's length and no capital letter, and it passes the validation exactly when the address does. |
| Waitlist.InsertIfAbsent | postie-website/functions/api/waitlist.ts:19-21 | The store's insert with its uniqueness constraint. It inserts exactly when there is no fault and the key is absent. It reports AlreadyExists exactly when there is no fault and the key is present. In every other case the store is unchanged. |
| Waitlist.Catch | postie-website/functions/api/waitlist.ts:28-41 | A thrown error becomes either the duplicate response or the generic 500, and nothing else. |
| Waitlist.InvalidRejected | postie-website/functions/api/waitlist.ts:11-16 | A missing, empty or '@'-less address gets 400 "Invalid email address", whatever the store would do, and the store is unchanged. |
| Waitlist.NewAddressAdded | postie-website/functions/api/waitlist.ts:19-26 | A valid address whose lower-cased form is absent gets 200 "Added to waitlist!". The store gains exactly that lower-cased form. |
| Waitlist.KnownAddressDuplicate | postie-website/functions/api/waitlist.ts:28-35 | A valid address whose lower-cased form is present gets 400 "Email already registered", and the store is unchanged. |
| Waitlist.UniqueViolationIsDuplicate | postie-website/functions/api/waitlist.ts:30 | The store's uniqueness-violation message is recognised by the substring test. |
| Waitlist.NoMarkerInTypeErrors | postie-website/functions/api/waitlist.ts:11 | The TypeErrors thrown for a non-string email do not mention the uniqueness constraint. |
| Waitlist.OtherFailuresGeneric | postie-website/functions/api/waitlist.ts:8-41 | These all give 500 "Failed to join waitlist" and leave the store unchanged: a store failure, a truthy non-string email (no `includes`), an array containing '@' (no `toLowerCase`), and a body that does not parse. This holds when the thrown message does not mention "UNIQUE constraint". The body is the fixed generic error, so no store detail reaches the caller. |
| Waitlist.Idempotent | postie-website/functions/api/waitlist.ts:19-35 | Submitting a valid address twice leaves it stored once. The second call returns the duplicate response and changes nothing. |
| Waitlist.CaseInsensitive | postie-website/functions/api/waitlist.ts:21 | Two valid addresses get the same key exactly when they differ only in letter case. If they do, the second one collides with the first. |
| Waitlist.HandlePreservesWellFormed | postie-website/functions/api/waitlist.ts:11-21 | If every stored entry is lower-case, non-empty and contains '@', that stays true after any request. The '@' check made before lower-casing still holds after it. |
| Waitlist.StatusReflectsGrowth | postie-website/functions/api/waitlist.ts:12-41 | The status is 200, 400 or 500. It is 200 exactly when the store grew by one entry. Every other status leaves the store unchanged. |
| Waitlist.Scenario | postie-website/functions/api/waitlist.ts:11-41 | A concrete session. `a@b.com` on an empty store gets 200 and is stored. The same address again gets the duplicate response. `not-an-email` gets "Invalid email address". A store outage on a fresh address gets the generic 500. Only the first request changes the store. |
| Waitlist.MalformedReportedAsDuplicate | postie-website/functions/api/waitlist.ts:8-35 | As written: a body that does not parse, whose parser message contains "UNIQUE constraint", gets 400 "Email already registered". |
| Waitlist.ParseErrorExampleIsDuplicate | postie-website/functions/api/waitlist.ts:8-35 | A concrete case: the body `UNIQUE constraint` is not JSON, but the parser message quotes it, so the reply is the duplicate response. |
| Waitlist.HandleIntended | postie-website/functions/api/waitlist.ts:5-43 | Corrected handler: a duplicate is reported only for a valid string address, and the store is then unchanged. The status set and "200 exactly when the store grew" still hold. |
| Waitlist.IntendedMalformedGeneric | postie-website/functions/api/waitlist.ts:37-41 | Corrected: a body that does not parse is always 500 and never a duplicate. |
| Waitlist.IntendedAgreesOnParsedBodies | postie-website/functions/api/waitlist.ts:11-41 | The correction changes nothing for a body that parses. |
| Text.Lower | postie-website/functions/api/waitlist.ts:21 | Lower-casing keeps the length, maps each character on its own and leaves no capital letter. |
| Text.LowerEqualIffSameUpToCase | postie-website/functions/api/waitlist.ts:21 | Two strings have the same lower-cased form exactly when they differ only in letter case. |
| Text.LowerKeepsNonLetter | postie-website/functions/api/waitlist.ts:11-21 | A character that is not a letter, such as '@', is present after lower-casing exactly when it was present before. |
| Text.Contains | postie-website/functions/api/waitlist.ts:30 | A string can contain only a substring no longer than itself. |
| Text.ContainsIffOccurs | postie-website/functions/api/waitlist.ts:30 | The substring search succeeds exactly when the substring occurs at some position. |
| Text.Trim | postie-website/app/page.tsx:19 | Trimming removes only white space, and only from the two ends. The result neither starts nor ends with white space. |
| Text.TrimEmptyIffAllSpace | postie-website/app/page.tsx:19-20 | The trimmed input is empty exactly when the input is all white space. |
| Text.TrimIdempotent | postie-website/app/page.tsx:19 | Trimming twice gives the same result as trimming once. |
| Text.TrimKeepsNonSpace | postie-website/app/page.tsx:19 | Trimming keeps every character that is not white space, such as '@'. |
| Page.Classify | postie-website/app/page.tsx:25-42 | How a settled `fetch` ends. It is an OK outcome exactly when `res.ok` and the body is JSON. It is an error response exactly when the reply is not OK and the body is a JSON value, and then it carries that value's `error`. A non-JSON body, or `null` on a non-OK reply, is the network-error branch. |
| Page.AlertText | postie-website/app/page.tsx:34 | The alert is the reply's error when it is present and non-empty, and "Failed to join waitlist" otherwise. It is never empty. |
| Page.Step | postie-website/app/page.tsx:15-46 | A request is sent exactly for a submission whose trimmed input value is non-empty. It carries that trimmed value and sets loading. Editing the input changes only the form value. An empty submission changes nothing. Every settlement clears loading. After a settlement the form is joined exactly when it was joined already or the reply was OK. A failure alerts and keeps the form value. The timer clears only the joined flag. |
| Page.EmptySubmitIgnored | postie-website/app/page.tsx:19-20 | An all-white-space input sends no request and leaves the state unchanged. |
| Page.SubmitSendsTrimmed | postie-website/app/page.tsx:19-28 | Any other input sends exactly its trimmed form, which is non-empty. The state becomes loading and the controls become disabled. |
| Page.OkJoinsThenTimerResets | postie-website/app/page.tsx:38-40 | An OK reply clears the form, sets joined and starts a 3000 ms timer. When the timer fires, joined is cleared. |
| Page.ErrResponseAlerts | postie-website/app/page.tsx:33-35 | A non-OK reply alerts its error, or "Failed to join waitlist". Joined and the form value are unchanged. |
| Page.TransportFailureAlerts | postie-website/app/page.tsx:41-42 | A transport or parse failure alerts "Network error. Please try again." Only loading changes. |
| Page.NonJsonErrorIsNetworkError | postie-website/app/page.tsx:31-42 | A non-OK reply with a non-JSON or `null` body takes the network-error branch. |
| Page.Label | postie-website/app/page.tsx:138 | The button reads the joined text exactly when joined, "Joining..." exactly when loading and not joined, and "Request Early Access" exactly when neither. |
| Page.LabelsDistinct | postie-website/app/page.tsx:138 | The three button texts are pairwise different, so the label tells the three situations apart. |
| Page.Disabled | postie-website/app/page.tsx:131-135 | The input and the button are disabled exactly when the button does not read "Request Early Access". |
| Page.DisabledExactlyWhileOutstanding | postie-website/app/page.tsx:22-138 | Along any run of events the browser can deliver from a consistent state, the flags stay consistent with what is outstanding. The controls are disabled exactly while a request is in flight or the confirmation timer is pending. The button reads "Joining..." exactly while a request is in flight, and the joined text exactly while the timer is pending. |
| Page.StartConsistent | postie-website/app/page.tsx:11-12 | The page starts with nothing outstanding, the controls enabled and the button reading "Request Early Access". |
| Page.SubmitRecordsInput | postie-website/app/page.tsx:17-28 | Submitting a non-blank input from an enabled form sends its trimmed value, puts a request in flight, keeps the input, and shows "Joining...". |
| Page.OnlySettleWhileInFlight | postie-website/app/page.tsx:21-135 | While a request is in flight, the input and the button are disabled, so the only event that can happen is that request's settlement. |
| Page.SettleInFlight | postie-website/app/page.tsx:32-45 | Settling the request in flight clears loading. An OK reply empties the input and shows the joined text. Any failure leaves the input holding exactly the value the request was sent from, with the controls enabled again. |
| Page.SettleEndsRun | postie-website/app/page.tsx:15-135 | From the initial page, any run with a request in flight can be followed by its settlement. A failed settlement leaves the input holding exactly the value that request was sent from; an OK one leaves it empty and shows the joined text. |
| Page.TypeAndSubmitInFlight | postie-website/app/page.tsx:17-21 | Typing a non-blank address into the fresh page and submitting it is a deliverable run that leaves a request in flight, sent from exactly the typed value. |
| Page.AdvanceConsistent | postie-website/app/page.tsx:22-45 | One admissible event keeps loading equal to "request in flight" and joined equal to "timer pending", and never both. |
| Flow.Deliver | postie-website/app/page.tsx:31-36 | The endpoint's response as the form sees it. It is OK exactly for a 2xx status. A failing status with an error body reaches the form as that error. |
| Flow.RoundTrip | postie-website/app/page.tsx:15-46 | One submission end to end, against the handler as written. The endpoint receives the trimmed input. The form ends joined exactly when the store gained the lower-cased trimmed address, and the input is then empty. Otherwise it alerts the endpoint's own error text and keeps the input as submitted. Loading is always cleared. |
| Flow.ResubmitReportsDuplicate | postie-website/functions/api/waitlist.ts:19-35 | Submitting the same address again gives "Email already registered" without changing the store, and the form alerts exactly that text. |

## Left out

- The Cloudflare D1 API, the SQL text and the table schema are not modelled. The store is a set of keys behind one insert-if-absent operation. Its uniqueness constraint is assumed to be on the email column, because the schema is not part of this model.
- The JSON parser, `Request`/`Response` objects and headers are not modelled. A request is a `Payload` variant and a response is a status with a body datatype.
- Text.Lower: lower-cases ASCII letters only. JavaScript's `toLowerCase` applies full Unicode case mapping.
- Waitlist.OtherFailuresGeneric: assumes a store failure's message does not contain "UNIQUE constraint". The handler classifies errors only by that substring, and the messages of store failures are not part of this model.
- The TypeError and parser messages are fixed strings taken from the V8 engine's wording. Only whether they contain "UNIQUE constraint" matters.
- An error with no `message` is not modelled. Every error the handler can meet here carries a message.
- An array `email` is reduced to whether it has a '@' element. That is all `includes` examines before `toLowerCase` throws.
- `alert`, `fetch`, `setTimeout` and wall-clock time are effects and events. The 3000 ms delay is a constant carried by the effect.
- A non-string truthy `error` field in a reply, which `alert` would turn into text, is not modelled. The field is an optional string.
- `form.reset()` is modelled as setting the form value to "". The input has no default value.
- `preventDefault` is not modelled. The input element's value is the state's `formValue`, which `Input` events set and `Submit` reads.
- The browser's own validation of the `type="email"`, `required` input before `submit` fires is not modelled. The form is modelled as submitting whatever the input holds, which is what `handleSubmit` itself must cope with.
- A request that never settles keeps the controls disabled indefinitely, since `fetch` is called without a timeout. The model states this as the invariant above and does not model abandonment.
- Concurrent requests racing on one key are not modelled. They are left to the store's constraint. From one form they cannot overlap, because the controls are disabled.
- The page's JSX layout, styling, icons and copy are not modelled. The exceptions are the `disabled` expression and the label expression.
- The endpoint does not trim: `" a@b "` is stored with its spaces, and only the form trims before sending.
- Duplicates are recognised by the substring "UNIQUE constraint" in the thrown error's message, not by a store outcome. The finding below comes from this.

## Findings

| source | as written | input that shows it | evidently intended | confidence | as-written member | corrected member |
|---|---|---|---|---|---|---|
| postie-website/functions/api/waitlist.ts:8-35 | Any thrown error whose message contains "UNIQUE constraint" is answered as a duplicate. That includes the JSON parser's error for a malformed body, and the parser quotes the body in its message. | POST body `UNIQUE constraint` (not JSON). The parser message `Unexpected token 'U', "UNIQUE constraint" is not valid JSON` gets 400 "Email already registered". | Only the store's uniqueness violation is a duplicate. A body that does not parse is a generic 500. | medium (depends on the runtime's parser message wording); not executed | Waitlist.ParseErrorExampleIsDuplicate | Waitlist.IntendedMalformedGeneric |
