/** The signup form's client-side schema, the single error line it shows, and
    what it reads from the server's answer. */
module WaitlistForm {
  import opened Wrappers
  import opened Strings
  import WaitlistRoute

  const INVALID_EMAIL_MESSAGE: string := "Please enter a valid email address"
  const GMAIL_ONLY_MESSAGE: string := "Only @gmail.com emails are allowed"
  const NAME_REQUIRED_MESSAGE: string := "Name is required"
  const NAME_CHARSET_MESSAGE: string := "Name can only contain letters, spaces, hyphens, and apostrophes"

  /** One character of the class `[A-Za-zÀ-ÖØ-öø-ÿ'\- ]`. */
  predicate NameChar(c: char): (b: bool)
    ensures b ==> c as int <= 0xFF && !('0' <= c <= '9')
  {
    || ('A' <= c <= 'Z')
    || ('a' <= c <= 'z')
    || ('\U{C0}' <= c <= '\U{D6}')
    || ('\U{D8}' <= c <= '\U{F6}')
    || ('\U{F8}' <= c <= '\U{FF}')
    || c == '\''
    || c == '-'
    || c == ' '
  }

  /** `/^[...]+$/`: one or more characters of the class and nothing else. */
  predicate MatchesNamePattern(s: string): (b: bool)
    ensures b ==> s != [] && forall i :: 0 <= i < |s| ==> s[i] as int <= 0xFF && !('0' <= s[i] <= '9')
  {
    |s| >= 1 && forall i :: 0 <= i < |s| ==> NameChar(s[i])
  }

  /** The messages zod reports for the email field, in check order; the
      refinement runs even after the email check has failed. */
  function EmailIssues(isEmail: string -> bool, email: string): (issues: seq<string>)
    ensures issues == [] <==> isEmail(email) && EndsWith(email, WaitlistRoute.GMAIL_SUFFIX)
    ensures !EndsWith(email, WaitlistRoute.GMAIL_SUFFIX) ==> GMAIL_ONLY_MESSAGE in issues
  {
    (if isEmail(email) then [] else [INVALID_EMAIL_MESSAGE])
      + (if EndsWith(email, WaitlistRoute.GMAIL_SUFFIX) then [] else [GMAIL_ONLY_MESSAGE])
  }

  /** The messages for the name field: `.min(1)` then `.regex(...)`. Nothing
      trims the name first. */
  function NameIssues(name: string): (issues: seq<string>)
    ensures issues == [] <==> MatchesNamePattern(name)
  {
    (if |name| >= 1 then [] else [NAME_REQUIRED_MESSAGE])
      + (if MatchesNamePattern(name) then [] else [NAME_CHARSET_MESSAGE])
  }

  /** The resolver keeps the first message of each field. */
  function FirstMessage(issues: seq<string>): (r: Option<string>)
    ensures r.None? <==> issues == []
    ensures r.Some? ==> r.value == issues[0]
  {
    if issues == [] then None else Some(issues[0])
  }

  /** `handleSubmit` calls `onSubmit` only when both fields pass. */
  predicate FormAccepts(isEmail: string -> bool, name: string, email: string): (b: bool)
    ensures b <==> isEmail(email) && EndsWith(email, WaitlistRoute.GMAIL_SUFFIX) && MatchesNamePattern(name)
  {
    EmailIssues(isEmail, email) == [] && NameIssues(name) == []
  }

  /** JavaScript truthiness of an optional string. */
  predicate Truthy(s: Option<string>) {
    s.Some? && s.value != ""
  }

  /** `error || errors.name?.message || errors.email?.message`. */
  function DisplayedError(serverError: Option<string>, nameError: Option<string>, emailError: Option<string>)
    : (shown: Option<string>)
    ensures Truthy(serverError) ==> shown == serverError
    ensures !Truthy(serverError) && Truthy(nameError) ==> shown == nameError
    ensures !Truthy(serverError) && !Truthy(nameError) ==> shown == emailError
  {
    if Truthy(serverError) then serverError
    else if Truthy(nameError) then nameError
    else emailError
  }

  /** The error line for a form that has not been sent. */
  function ValidationError(isEmail: string -> bool, name: string, email: string): (shown: Option<string>)
    ensures shown.None? <==> FormAccepts(isEmail, name, email)
  {
    DisplayedError(None, FirstMessage(NameIssues(name)), FirstMessage(EmailIssues(isEmail, email)))
  }

  /** What `onSuccess` receives: the four members read from the response body,
      each absent (`undefined`) when the body has no such member. */
  datatype SuccessData = SuccessData(email: Option<string>, name: Option<string>, id: Option<int>, position: Option<int>)

  datatype Outcome = Succeeded(data: SuccessData) | Failed(message: string)

  /** `onSubmit` after the response: a non-2xx status throws with the body's
      message, which becomes the server error. */
  function Submitted(r: WaitlistRoute.PostResponse): (o: Outcome)
    ensures o.Succeeded? <==> WaitlistRoute.Status(r) == 200
    ensures o.Failed? ==> o.message == WaitlistRoute.Message(r) && o.message != ""
  {
    if WaitlistRoute.Status(r) == 200 then
      Succeeded(SuccessData(Some(r.email), None, None, None))
    else
      Failed(WaitlistRoute.Message(r))
  }

  // Properties.

  /** A syntactically valid email outside `@gmail.com` shows the domain
      message; an invalid one shows the syntax message first. */
  lemma EmailMessageShown(isEmail: string -> bool, email: string)
    ensures isEmail(email) && !EndsWith(email, WaitlistRoute.GMAIL_SUFFIX) ==>
              FirstMessage(EmailIssues(isEmail, email)) == Some(GMAIL_ONLY_MESSAGE)
    ensures !isEmail(email) ==> FirstMessage(EmailIssues(isEmail, email)) == Some(INVALID_EMAIL_MESSAGE)
  {
  }

  /** An empty name shows "Name is required", whatever the email. */
  lemma EmptyNameRequired(isEmail: string -> bool, email: string)
    ensures ValidationError(isEmail, "", email) == Some(NAME_REQUIRED_MESSAGE)
  {
  }

  /** A name of spaces only passes both rules, since nothing trims it. */
  lemma SpacesOnlyNameAccepted(name: string)
    requires |name| >= 1 && forall i :: 0 <= i < |name| ==> name[i] == ' '
    ensures NameIssues(name) == []
  {
  }

  /** One character outside the class (a digit, `×`, `÷`, ...) rejects the
      whole non-empty name with the character-class message. */
  lemma OneBadCharacterRejects(name: string, i: int)
    requires 0 <= i < |name| && !NameChar(name[i])
    ensures FirstMessage(NameIssues(name)) == Some(NAME_CHARSET_MESSAGE)
  {
  }

  lemma DigitsAndSignsAreNotNameChars(c: char)
    requires '0' <= c <= '9' || c == '\U{D7}' || c == '\U{F7}'
    ensures !NameChar(c)
  {
  }

  /** A name error hides the email error; a server error hides both. */
  lemma ErrorPriority(isEmail: string -> bool, name: string, email: string, server: string)
    requires !MatchesNamePattern(name)
    ensures ValidationError(isEmail, name, email) == FirstMessage(NameIssues(name))
    ensures server != "" ==>
      DisplayedError(Some(server), FirstMessage(NameIssues(name)), FirstMessage(EmailIssues(isEmail, email))) == Some(server)
  {
  }

  /** What the form accepts, the route's schema accepts too (given the same
      email grammar), so a sent form never meets a 400. */
  lemma FormAcceptedImpliesRouteParses(isEmail: string -> bool, name: string, email: string)
    requires FormAccepts(isEmail, name, email)
    ensures WaitlistRoute.ParseBody(isEmail, WaitlistRoute.Object(WaitlistRoute.Text(email))) == Ok(email)
  {
  }

  /** The route answers a successful join without `name`, `id` or `position`,
      so the form hands `onSuccess` those three as absent. */
  lemma JoinedLacksNameIdPosition(email: string, createdAt: int)
    ensures Submitted(WaitlistRoute.Joined(email, createdAt)) == Succeeded(SuccessData(Some(email), None, None, None))
  {
  }

  /** A throttled submission shows the route's 429 message. */
  lemma ThrottledShowsServerMessage(isEmail: string -> bool, name: string, email: string)
    ensures var o := Submitted(WaitlistRoute.TooManyRequests);
      o.Failed? && DisplayedError(Some(o.message), FirstMessage(NameIssues(name)), FirstMessage(EmailIssues(isEmail, email)))
                   == Some("Too many requests. Please try again later.")
  {
  }
}
