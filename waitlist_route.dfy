/** The public signup endpoint `/api/waitlist`: `POST` runs the rate check,
    the schema, the duplicate check, the insert and the best-effort welcome
    mail; `GET` lists every entry in creation order. */
module WaitlistRoute {
  import opened Wrappers
  import opened Strings
  import opened Entries
  import opened RateLimit

  const GMAIL_SUFFIX: string := "@gmail.com"

  /** The `email` member of the JSON body as the schema sees it. */
  datatype EmailField = Missing | NotText | Text(value: string)

  /** The request body: not JSON at all, JSON that is not an object, or an
      object (members other than `email` are stripped by the schema). */
  datatype Body = Unparseable | NotAnObject | Object(email: EmailField)

  /** The issues a `ZodError` carries for this schema. */
  datatype Issue = InvalidType | InvalidEmail | NotGmail

  datatype ParseFailure = SyntaxError | ZodError(issues: seq<Issue>)

  /** Issues of `z.string().email().refine(endsWith "@gmail.com")` on a string:
      the email check does not stop the refinement, so both can be reported. */
  function TextIssues(isEmail: string -> bool, s: string): (issues: seq<Issue>)
    ensures issues == [] <==> isEmail(s) && EndsWith(s, GMAIL_SUFFIX)
    ensures NotGmail in issues <==> !EndsWith(s, GMAIL_SUFFIX)
    ensures InvalidEmail in issues <==> !isEmail(s)
  {
    (if isEmail(s) then [] else [InvalidEmail]) + (if EndsWith(s, GMAIL_SUFFIX) then [] else [NotGmail])
  }

  /** `await request.json()` followed by `waitlistSchema.parse(body)`. */
  function ParseBody(isEmail: string -> bool, body: Body): (r: Result<string, ParseFailure>)
    ensures r.Ok? <==> body.Object? && body.email.Text? && isEmail(body.email.value) && EndsWith(body.email.value, GMAIL_SUFFIX)
    ensures r.Ok? ==> r.value == body.email.value
    ensures r.Err? && r.error.ZodError? ==> r.error.issues != []
    ensures r.Err? && r.error.SyntaxError? <==> body.Unparseable?
  {
    match body
    case Unparseable => Err(SyntaxError)
    case NotAnObject => Err(ZodError([InvalidType]))
    case Object(Missing) => Err(ZodError([InvalidType]))
    case Object(NotText) => Err(ZodError([InvalidType]))
    case Object(Text(s)) =>
      var issues := TextIssues(isEmail, s);
      if issues == [] then Ok(s) else Err(ZodError(issues))
  }

  datatype PostResponse =
    | TooManyRequests
    | InvalidInput(issues: seq<Issue>)
    | AlreadyRegistered
    | Joined(email: string, createdAt: int)
    | InternalError

  /** Only a join is answered 200; only `InternalError` (a storage failure
      or an unparseable body) is a 5xx; throttling, invalid input and a
      duplicate are 4xx. */
  function Status(r: PostResponse): (status: int)
    ensures status == 200 <==> r.Joined?
    ensures status >= 500 <==> r.InternalError?
    ensures 400 <= status < 500 <==> r.TooManyRequests? || r.InvalidInput? || r.AlreadyRegistered?
  {
    match r
    case TooManyRequests => 429
    case InvalidInput(_) => 400
    case AlreadyRegistered => 409
    case Joined(_, _) => 200
    case InternalError => 500
  }

  /** Every answer carries a message, and only a join reports success. */
  function Message(r: PostResponse): (m: string)
    ensures m != ""
    ensures m == "Successfully joined waitlist" <==> r.Joined?
  {
    match r
    case TooManyRequests => "Too many requests. Please try again later."
    case InvalidInput(_) => "Invalid input data"
    case AlreadyRegistered => "Email already registered"
    case Joined(_, _) => "Successfully joined waitlist"
    case InternalError => "Internal server error"
  }

  /** The response once `create` has answered: the new entry's `email` and
      `createdAt`, or, when the storage layer throws (its unique constraint
      included), the generic internal error. */
  function CreateResponse(created: Result<Entry, DbError>): (r: PostResponse)
    ensures r.Joined? <==> created.Ok?
    ensures created.Ok? ==> r.email == created.value.email && r.createdAt == created.value.createdAt
    ensures created.Err? ==> r == InternalError
  {
    match created
    case Ok(e) => Joined(e.email, e.createdAt)
    case Err(_) => InternalError
  }

  /** A duplicate that reaches `create` (past the `findUnique` check, as a
      concurrent request can) is answered 500, not 409. */
  lemma DuplicateAtCreateIsInternalError()
    ensures Status(CreateResponse(Err(UniqueViolation))) == 500
  {
  }

  /** Everything `POST` does after the rate check: parse, duplicate check,
      insert. Returns the response and the table afterwards. */
  function Intake(isEmail: string -> bool, body: Body, t: Table, now: int): (r: (PostResponse, Table))
    ensures ParseBody(isEmail, body).Err? ==> r.1 == t
    ensures body.Unparseable? ==> r.0 == InternalError
    ensures ParseBody(isEmail, body).Err? && !body.Unparseable? ==>
              r.0 == InvalidInput(ParseBody(isEmail, body).error.issues)
    ensures ParseBody(isEmail, body).Ok? && HasEmail(t.rows, body.email.value) ==>
              r.0 == AlreadyRegistered && r.1 == t
    ensures ParseBody(isEmail, body).Ok? && !HasEmail(t.rows, body.email.value) ==>
              && r.0 == Joined(body.email.value, now)
              && r.1 == Table(t.rows + [Entry(t.nextId, body.email.value, now, false)], t.nextId + 1)
    ensures ValidTable(t) ==> ValidTable(r.1)
  {
    match ParseBody(isEmail, body)
    case Err(SyntaxError) => (InternalError, t)
    case Err(ZodError(issues)) => (InvalidInput(issues), t)
    case Ok(email) =>
      if FindByEmail(t.rows, email).Some? then (AlreadyRegistered, t)
      else
        assert ValidTable(t) ==> ValidTable(Create(t, email, now).1) by {
          if ValidTable(t) { CreatePreservesValid(t, email, now); }
        }
        var (created, t') := Create(t, email, now);
        (CreateResponse(created), t')
  }

  /** The whole `POST`: the limiter's new map is the same whatever the body,
      so a request that fails later still used up its admission. */
  function Handle(isEmail: string -> bool, log: map<string, seq<int>>, ip: string, body: Body, t: Table, now: int)
    : (r: (PostResponse, map<string, seq<int>>, Table))
    ensures r.1 == Admit(log, ip, now).1
    ensures r.0 == TooManyRequests <==> Admit(log, ip, now).0
    ensures Admit(log, ip, now).0 ==> r.2 == t
    ensures !Admit(log, ip, now).0 ==> (r.0, r.2) == Intake(isEmail, body, t, now)
  {
    var (limited, log') := Admit(log, ip, now);
    if limited then (TooManyRequests, log', t)
    else
      var (resp, t') := Intake(isEmail, body, t, now);
      (resp, log', t')
  }

  /** The client key: `x-forwarded-for || request.ip || "unknown"`. */
  function ClientKey(forwardedFor: Option<string>, requestIp: Option<string>): (key: string)
    ensures key != ""
    ensures forwardedFor.Some? && forwardedFor.value != "" ==> key == forwardedFor.value
    ensures !(forwardedFor.Some? && forwardedFor.value != "") && requestIp.Some? && requestIp.value != "" ==> key == requestIp.value
    ensures !(forwardedFor.Some? && forwardedFor.value != "") && !(requestIp.Some? && requestIp.value != "") ==> key == "unknown"
  {
    if forwardedFor.Some? && forwardedFor.value != "" then forwardedFor.value
    else if requestIp.Some? && requestIp.value != "" then requestIp.value
    else "unknown"
  }

  /** The message sent through the mail provider after a successful insert. */
  datatype WelcomeMail = WelcomeMail(from: string, to: string, subject: string, html: string)

  function WelcomeFor(email: string): (m: WelcomeMail)
    ensures m.to == email
  {
    WelcomeMail("Your App <teammurph@tars.live>", email, "Welcome to the Waitlist!",
                "<p>Thank you for joining the waitlist!</p>")
  }

  /** What the provider did with the request; it is logged and nothing else. */
  datatype ProviderOutcome = Accepted | Rejected | Unreachable

  /** `POST /api/waitlist`. `apiKeySet` says whether `RESEND_API_KEY` is
      configured; `provider` is the mail provider's answer. Returns the
      response and the welcome mail that was attempted, if any. */
  method Post(limiter: RateLimiter, store: WaitlistStore, forwardedFor: Option<string>, requestIp: Option<string>,
              body: Body, isEmail: string -> bool, now: int, apiKeySet: bool, provider: ProviderOutcome)
    returns (resp: PostResponse, mail: Option<WelcomeMail>)
    requires limiter.Valid() && store.Valid()
    modifies limiter, store
    ensures limiter.Valid() && store.Valid()
    ensures (resp, limiter.log, store.Snapshot())
         == Handle(isEmail, old(limiter.log), ClientKey(forwardedFor, requestIp), body, old(store.Snapshot()), now)
    ensures mail == if apiKeySet && resp.Joined? then Some(WelcomeFor(resp.email)) else None
  {
    mail := None;
    var ip := ClientKey(forwardedFor, requestIp);
    var limited := limiter.IsRateLimited(ip, now);
    if limited {
      return TooManyRequests, None;
    }
    var parsed := ParseBody(isEmail, body);
    if parsed.Err? {
      resp := if parsed.error.SyntaxError? then InternalError else InvalidInput(parsed.error.issues);
      return;
    }
    var email := parsed.value;
    if FindByEmail(store.rows, email).Some? {
      return AlreadyRegistered, None;
    }
    var created := store.Insert(email, now);
    resp := CreateResponse(created);
    if apiKeySet && created.Ok? {
      // Whatever `provider` answers is only logged: neither the response nor
      // the table depends on it.
      mail := Some(WelcomeFor(created.value.email));
    }
  }

  // Properties of POST.

  /** A rate-limited request is answered 429 and leaves the table alone,
      whatever its body. */
  lemma RateLimitedLeavesTable(isEmail: string -> bool, log: map<string, seq<int>>, ip: string, body: Body, t: Table, now: int)
    requires |Recent(Lookup(log, ip), now)| >= RATE_LIMIT
    ensures Status(Handle(isEmail, log, ip, body, t, now).0) == 429
    ensures Handle(isEmail, log, ip, body, t, now).2 == t
  {
  }

  /** An email outside `@gmail.com` is answered 400 and leaves the table
      alone, yet the request still counts toward the limit. */
  lemma NonGmailRejected(isEmail: string -> bool, log: map<string, seq<int>>, ip: string, email: string, t: Table, now: int)
    requires |Recent(Lookup(log, ip), now)| < RATE_LIMIT
    requires !EndsWith(email, GMAIL_SUFFIX)
    ensures var r := Handle(isEmail, log, ip, Object(Text(email)), t, now);
      && Status(r.0) == 400 && NotGmail in r.0.issues
      && r.2 == t
      && r.1[ip] == Recent(Lookup(log, ip), now) + [now]
  {
  }

  /** Submitting the same accepted email twice: the second request is answered
      409 and the table keeps exactly one entry with that email. */
  lemma {:induction false} SecondSubmissionConflicts(isEmail: string -> bool, email: string, t: Table, now1: int, now2: int)
    requires ValidTable(t)
    requires isEmail(email) && EndsWith(email, GMAIL_SUFFIX)
    requires !HasEmail(t.rows, email)
    ensures var (r1, t1) := Intake(isEmail, Object(Text(email)), t, now1);
      var (r2, t2) := Intake(isEmail, Object(Text(email)), t1, now2);
      && r1 == Joined(email, now1)
      && Status(r2) == 409
      && t2 == t1
      && |t2.rows| == |t.rows| + 1
      && CountEmail(t2.rows, email) == 1
  {
    var (r1, t1) := Intake(isEmail, Object(Text(email)), t, now1);
    assert t1.rows == t.rows + [Entry(t.nextId, email, now1, false)];
    assert t1.rows[|t.rows|].email == email;
    assert HasEmail(t1.rows, email);
    CountEmailAppend(t.rows, Entry(t.nextId, email, now1, false), email);
    CountEmailAbsent(t.rows, email);
  }

  /** How many rows carry `email`. */
  function CountEmail(rows: seq<Entry>, email: string): nat {
    if |rows| == 0 then 0
    else CountEmail(rows[..|rows| - 1], email) + (if rows[|rows| - 1].email == email then 1 else 0)
  }

  lemma CountEmailAppend(rows: seq<Entry>, e: Entry, email: string)
    ensures CountEmail(rows + [e], email) == CountEmail(rows, email) + (if e.email == email then 1 else 0)
  {
    assert (rows + [e])[..|rows|] == rows;
  }

  lemma {:induction false} CountEmailAbsent(rows: seq<Entry>, email: string)
    requires !HasEmail(rows, email)
    ensures CountEmail(rows, email) == 0
  {
    if |rows| > 0 {
      var init := rows[..|rows| - 1];
      forall i | 0 <= i < |init| ensures init[i].email != email {
        assert init[i] == rows[i];
      }
      CountEmailAbsent(init, email);
      assert rows[|rows| - 1].email != email;
    }
  }

  /** With unique emails every email is carried by at most one row. */
  lemma {:induction false} UniqueMeansAtMostOne(rows: seq<Entry>, email: string)
    requires UniqueEmails(rows)
    ensures CountEmail(rows, email) <= 1
  {
    if |rows| > 0 {
      var init := rows[..|rows| - 1];
      UniqueMeansAtMostOne(init, email);
      if rows[|rows| - 1].email == email {
        forall i | 0 <= i < |init| ensures init[i].email != email {
          assert init[i] == rows[i];
        }
        CountEmailAbsent(init, email);
      }
    }
  }

  /** Requests handled in time order keep the table in creation order, so the
      rows need no reordering to be listed. */
  lemma IntakeKeepsCreationOrder(isEmail: string -> bool, body: Body, t: Table, now: int)
    requires SortedByCreatedAt(t.rows)
    requires forall k :: 0 <= k < |t.rows| ==> t.rows[k].createdAt <= now
    ensures SortedByCreatedAt(Intake(isEmail, body, t, now).1.rows)
  {
  }

  // GET.

  datatype Listing = Listing(total: nat, entries: seq<Entry>)

  /** `GET /api/waitlist`: every entry, by ascending `createdAt`, and their
      number. */
  function List(t: Table): (r: Listing)
    ensures r.total == |t.rows| == |r.entries|
    ensures SortedByCreatedAt(r.entries)
    ensures multiset(r.entries) == multiset(t.rows)
  {
    Listing(|t.rows|, OrderByCreatedAt(t.rows))
  }
}
