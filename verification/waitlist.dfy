/**
 The waitlist endpoint, `onRequestPost` in functions/api/waitlist.ts: one POST request
 carrying `{ email }` is validated, its address lower-cased and inserted into a store
 whose uniqueness constraint rejects a second copy, and the outcome is turned into one
 of four responses.

 The store is a set of normalised addresses reached through one operation,
 `InsertIfAbsent`. Whether the store fails on a given call is not something the
 handler decides: it is an input (`fault`), as is the payload.
 */
module Waitlist {
  import opened Wrappers
  import opened Text

  /**
   What `await request.json()` followed by `const { email } = …` yields, grouped by how
   the handler treats it.
   */
  datatype Payload =
      /** The body is not JSON, or is JSON `null`: parsing or destructuring throws with this message. */
    | Malformed(parseError: string)
      /** `email` is absent or a falsy non-string (`undefined`, `null`, `false`, `0`). */
    | Missing
      /** `email` is a string. */
    | Str(s: string)
      /** `email` is an array: arrays have `includes`, which compares whole elements with '@'. */
    | List(hasAtElement: bool)
      /** `email` is any other truthy value (a non-zero number, `true`, an object): it has no `includes`. */
    | Scalar

  /** The JSON body of a response. */
  datatype Body =
    | Success(message: string)
    | Failure(error: string)

  datatype Response = Response(status: int, body: Body)

  const Added := Response(200, Success("Added to waitlist!"))
  const InvalidEmail := Response(400, Failure("Invalid email address"))
  const Duplicate := Response(400, Failure("Email already registered"))
  const Generic := Response(500, Failure("Failed to join waitlist"))

  /** The waitlist table: the set of stored (normalised) addresses. */
  type Store = set<string>

  datatype Outcome =
    | Inserted
    | AlreadyExists
    | StoreError(detail: string)

  /**
   The one store operation: insert `key` unless it is already present. A `fault`
   (an outage, a timeout, any failure other than the uniqueness constraint) makes the
   call fail with that detail and leaves the store alone.
   */
  function InsertIfAbsent(store: Store, key: string, fault: Option<string>): (res: (Outcome, Store))
    ensures res.0 == Inserted <==> fault == None && key !in store
    ensures res.0 == AlreadyExists <==> fault == None && key in store
    ensures res.0.Inserted? ==> res.1 == store + {key}
    ensures !res.0.Inserted? ==> res.1 == store
  {
    match fault
    case Some(detail) => (StoreError(detail), store)
    case None => if key in store then (AlreadyExists, store) else (Inserted, store + {key})
  }

  /** The message the store raises when the uniqueness constraint rejects an insert. */
  const UniqueViolation := "UNIQUE constraint failed: waitlist.email"

  /** The messages of the TypeErrors a non-string `email` raises. */
  const NoIncludes := "email.includes is not a function"
  const NoToLowerCase := "email.toLowerCase is not a function"

  /** The substring the handler looks for to recognise a duplicate. */
  const UniqueMarker := "UNIQUE constraint"

  /** The `catch` block: an error whose message mentions the uniqueness constraint is a duplicate, anything else is a generic failure. */
  function Catch(message: string): (r: Response)
    ensures r == Duplicate || r == Generic
  {
    if Contains(message, UniqueMarker) then Duplicate else Generic
  }

  /** The handler's validation: the address is present, non-empty and contains '@'. */
  predicate IsValidEmail(s: string)
    ensures IsValidEmail(s) <==> '@' in s
  {
    s != [] && '@' in s
  }

  /** The key an address is stored under. */
  function Key(s: string): (k: string)
    ensures IsLower(k) && |k| == |s|
    ensures IsValidEmail(k) <==> IsValidEmail(s)
  {
    LowerKeepsNonLetter(s, '@');
    Lower(s)
  }

  /** Every stored entry is a lower-case, non-empty string containing '@'. */
  predicate WellFormed(store: Store) {
    forall e :: e in store ==> IsValidEmail(e) && IsLower(e)
  }

  /**
   The handler as written: the response and the store after one request. Every path
   that throws (malformed body, non-string email, store failure, duplicate) goes through
   `Catch`.
   */
  function Handle(p: Payload, store: Store, fault: Option<string>): (res: (Response, Store))
    ensures res.0 in {Added, InvalidEmail, Duplicate, Generic}
    ensures res.0 == Added <==> res.1 != store
    ensures res.1 == store || (p.Str? && res.1 == store + {Key(p.s)} && Key(p.s) !in store)
    ensures res.0 == InvalidEmail <==> p.Missing? || (p.Str? && !IsValidEmail(p.s)) || (p.List? && !p.hasAtElement)
  {
    match p
    case Malformed(m) => (Catch(m), store)
    case Missing => (InvalidEmail, store)
    case List(hasAt) => if hasAt then (Catch(NoToLowerCase), store) else (InvalidEmail, store)
    case Scalar => (Catch(NoIncludes), store)
    case Str(s) =>
      if !IsValidEmail(s) then (InvalidEmail, store)
      else
        var (outcome, store') := InsertIfAbsent(store, Key(s), fault);
        match outcome
        case Inserted => (Added, store')
        case AlreadyExists => (Catch(UniqueViolation), store')
        case StoreError(detail) => (Catch(detail), store')
  }

  /**
   The handler as evidently intended: a body that cannot be parsed is a generic
   failure whatever its parser's message says. Everything else is as in `Handle`.
   */
  function HandleIntended(p: Payload, store: Store, fault: Option<string>): (res: (Response, Store))
    ensures res.0 in {Added, InvalidEmail, Duplicate, Generic}
    ensures res.0 == Added <==> res.1 != store
    ensures res.0 == Duplicate ==> p.Str? && IsValidEmail(p.s) && res.1 == store
  {
    if p.Malformed? then (Generic, store)
    else
      NoMarkerInTypeErrors();
      Handle(p, store, fault)
  }

  lemma UniqueViolationIsDuplicate()
    ensures Catch(UniqueViolation) == Duplicate
  {
    ContainsAt(UniqueViolation, UniqueMarker, 0);
  }

  /** A missing, empty or '@'-less address is rejected as invalid and nothing is stored. */
  lemma InvalidRejected(s: string, store: Store, fault: Option<string>)
    requires !IsValidEmail(s)
    ensures Handle(Str(s), store, fault) == (InvalidEmail, store)
    ensures Handle(Missing, store, fault) == (InvalidEmail, store)
  {
  }

  /** A valid address whose key is new is added, and the store gains that key and nothing else. */
  lemma NewAddressAdded(s: string, store: Store)
    requires IsValidEmail(s) && Key(s) !in store
    ensures Handle(Str(s), store, None) == (Added, store + {Lower(s)})
  {
  }

  /** A valid address whose key is already stored is reported as a duplicate and nothing changes. */
  lemma KnownAddressDuplicate(s: string, store: Store)
    requires IsValidEmail(s) && Key(s) in store
    ensures Handle(Str(s), store, None) == (Duplicate, store)
  {
    UniqueViolationIsDuplicate();
  }

  /** The TypeErrors a non-string `email` raises never look like a duplicate. */
  lemma NoMarkerInTypeErrors()
    ensures !Contains(NoIncludes, UniqueMarker)
    ensures !Contains(NoToLowerCase, UniqueMarker)
  {
    var a, b := NoIncludes, NoToLowerCase;
    assert 'U' !in a;
    assert 'U' !in b;
    NoMarkerIn(a);
    NoMarkerIn(b);
  }

  lemma NoMarkerIn(message: string)
    requires 'U' !in message
    ensures !Contains(message, UniqueMarker)
  {
    FirstCharAbsent(message, UniqueMarker);
  }

  /**
   Every other failure — a store failure on a valid address, a non-string address that
   throws, a body that does not parse — is a generic 500 and leaves the store alone, as
   long as the thrown message does not itself mention the uniqueness constraint.
   */
  lemma OtherFailuresGeneric(p: Payload, store: Store, fault: Option<string>)
    requires
      || (p.Str? && IsValidEmail(p.s) && fault.Some? && !Contains(fault.value, UniqueMarker))
      || p.Scalar?
      || (p.List? && p.hasAtElement)
      || (p.Malformed? && !Contains(p.parseError, UniqueMarker))
    ensures Handle(p, store, fault) == (Generic, store)
  {
    NoMarkerInTypeErrors();
  }

  /** Submitting the same address twice stores it once; the second call reports a duplicate. */
  lemma Idempotent(s: string, store: Store)
    requires IsValidEmail(s)
    ensures var (_, store1) := Handle(Str(s), store, None);
            Handle(Str(s), store1, None) == (Duplicate, store1)
            && store1 == store + {Key(s)}
  {
    var (r1, store1) := Handle(Str(s), store, None);
    KnownAddressDuplicate(s, store1);
  }

  /** Two addresses that differ only in letter case share one key and collide. */
  lemma CaseInsensitive(a: string, b: string, store: Store)
    requires IsValidEmail(a) && IsValidEmail(b)
    ensures Key(a) == Key(b) <==> SameUpToCase(a, b)
    ensures SameUpToCase(a, b) ==>
              var (_, store1) := Handle(Str(a), store, None);
              Handle(Str(b), store1, None) == (Duplicate, store1)
  {
    LowerEqualIffSameUpToCase(a, b);
    if SameUpToCase(a, b) {
      var (r1, store1) := Handle(Str(a), store, None);
      KnownAddressDuplicate(b, store1);
    }
  }

  /** Every stored entry stays lower-case, non-empty and containing '@': the check before lower-casing survives it. */
  lemma HandlePreservesWellFormed(p: Payload, store: Store, fault: Option<string>)
    requires WellFormed(store)
    ensures WellFormed(Handle(p, store, fault).1)
  {
    if p.Str? && IsValidEmail(p.s) {
      LowerKeepsNonLetter(p.s, '@');
    }
  }

  /** The status is 200, 400 or 500, and it is 200 exactly when the store grew (by one entry). */
  lemma StatusReflectsGrowth(p: Payload, store: Store, fault: Option<string>)
    ensures Handle(p, store, fault).0.status in {200, 400, 500}
    ensures var (r, store') := Handle(p, store, fault);
            r.status == 200 <==> |store'| == |store| + 1
    ensures var (r, store') := Handle(p, store, fault);
            r.status != 200 ==> store' == store
  {
  }

  /** As written: any malformed body whose parser message mentions the uniqueness constraint is reported as a duplicate. */
  lemma MalformedReportedAsDuplicate(m: string, store: Store, fault: Option<string>)
    requires Contains(m, UniqueMarker)
    ensures Handle(Malformed(m), store, fault) == (Duplicate, store)
  {
  }

  /** The parser's message for the body `UNIQUE constraint`, which it quotes back. */
  const ParseErrorExample := ParseErrorLead + UniqueMarker + "\" is not valid JSON"
  const ParseErrorLead := "Unexpected token 'U', \""

  /** A concrete request that is not JSON at all yet is told its address is already registered. */
  lemma ParseErrorExampleIsDuplicate(store: Store)
    ensures Handle(Malformed(ParseErrorExample), store, None) == (Duplicate, store)
  {
    var n := |ParseErrorLead|;
    assert ParseErrorExample[n..n + |UniqueMarker|] == UniqueMarker;
    ContainsAt(ParseErrorExample, UniqueMarker, n);
  }

  /** Corrected: a body that does not parse is always a generic failure, never a duplicate, and stores nothing. */
  lemma IntendedMalformedGeneric(m: string, store: Store, fault: Option<string>)
    ensures HandleIntended(Malformed(m), store, fault) == (Generic, store)
  {
  }

  /** The corrected handler keeps every property of the written one on payloads that parse. */
  lemma IntendedAgreesOnParsedBodies(p: Payload, store: Store, fault: Option<string>)
    requires !p.Malformed?
    ensures HandleIntended(p, store, fault) == Handle(p, store, fault)
  {
  }

  /**
   A short session: a new address is added, the same address again is a duplicate,
   a string without '@' is invalid, and a store outage on a fresh address is a generic
   failure; only the first request changes the store.
   */
  lemma Scenario()
    ensures Handle(Str(First), {}, None) == (Added, {First})
    ensures Handle(Str(First), {First}, None) == (Duplicate, {First})
    ensures Handle(Str("not-an-email"), {First}, None) == (InvalidEmail, {First})
    ensures Handle(Str("c@d.com"), {First}, Some(Outage)) == (Generic, {First})
  {
    ScenarioAdd();
    ScenarioInvalid();
    ScenarioOutage();
  }

  /** The scenario's first address, already in lower case. */
  const First := "a@b.com"

  /** The detail of a store outage in the scenario. */
  const Outage := "network connection lost"

  lemma ScenarioAdd()
    ensures Handle(Str(First), {}, None) == (Added, {First})
    ensures Handle(Str(First), {First}, None) == (Duplicate, {First})
  {
    var e := First;
    assert IsValidEmail(e) by {
      assert e[1] == '@';
    }
    assert IsLower(e);
    LowerOfLower(e);
    NewAddressAdded(e, {});
    assert {} + {e} == {e};
    KnownAddressDuplicate(e, {e});
  }

  lemma ScenarioInvalid()
    ensures Handle(Str("not-an-email"), {First}, None) == (InvalidEmail, {First})
  {
    var n := "not-an-email";
    assert '@' !in n;
    InvalidRejected(n, {First}, None);
  }

  lemma ScenarioOutage()
    ensures Handle(Str("c@d.com"), {First}, Some(Outage)) == (Generic, {First})
  {
    var d := Outage;
    assert 'U' !in d;
    NoMarkerIn(d);
    OtherFailuresGeneric(Str("c@d.com"), {First}, Some(d));
  }
}
