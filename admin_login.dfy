/** `POST /api/admin/login`: the allow-list check. An email is let in when
    the table holds an entry with exactly that email whose `isAdmin` flag is
    set. */
module AdminLogin {
  import opened Entries
  import WaitlistRoute

  /** The request body as the handler destructures it. */
  datatype LoginBody = Unparseable | Parsed(email: WaitlistRoute.EmailField)

  /** `{ ok: true }` with 200, `{ message: "Unauthorized" }` with 401, or an
      exception the handler does not catch (the framework answers 500): an
      unparseable body, or a lookup without a string email, which the
      storage layer refuses. */
  datatype LoginResponse = Granted | Unauthorized | Crashed

  function Status(r: LoginResponse): (status: int)
    ensures status == 200 <==> r.Granted?
    ensures 400 <= status < 500 <==> r.Unauthorized?
    ensures status >= 500 <==> r.Crashed?
  {
    match r
    case Granted => 200
    case Unauthorized => 401
    case Crashed => 500
  }

  /** An entry with exactly this email and the admin flag set. */
  predicate IsAdminEmail(rows: seq<Entry>, email: string) {
    exists i :: 0 <= i < |rows| && rows[i].email == email && rows[i].isAdmin
  }

  /** The handler. It only reads the table, so it returns no new one. */
  function Login(t: Table, body: LoginBody): (r: LoginResponse)
    ensures r.Crashed? <==> !(body.Parsed? && body.email.Text?)
    ensures r.Granted? ==> IsAdminEmail(t.rows, body.email.value)
  {
    if !(body.Parsed? && body.email.Text?) then Crashed
    else
      var found := FindByEmail(t.rows, body.email.value);
      if found.Some? && found.value.isAdmin then
        assert exists i :: 0 <= i < |t.rows| && t.rows[i] == found.value;
        Granted
      else
        Unauthorized
  }

  /** Login succeeds if and only if an entry with exactly the given email
      exists and is an admin. */
  lemma GrantedIff(t: Table, email: string)
    requires UniqueEmails(t.rows)
    ensures Login(t, Parsed(WaitlistRoute.Text(email))).Granted? <==> IsAdminEmail(t.rows, email)
  {
    if IsAdminEmail(t.rows, email) {
      var i :| 0 <= i < |t.rows| && t.rows[i].email == email && t.rows[i].isAdmin;
      FindByEmailUnique(t.rows, email, i);
    }
  }

  /** An unknown email is refused with 401. */
  lemma UnknownEmailUnauthorized(t: Table, email: string)
    requires !HasEmail(t.rows, email)
    ensures Login(t, Parsed(WaitlistRoute.Text(email))) == Unauthorized
    ensures Status(Login(t, Parsed(WaitlistRoute.Text(email)))) == 401
  {
  }

  /** An entry without the admin flag is refused with 401. */
  lemma NonAdminUnauthorized(t: Table, i: int)
    requires UniqueEmails(t.rows)
    requires 0 <= i < |t.rows| && !t.rows[i].isAdmin
    ensures Login(t, Parsed(WaitlistRoute.Text(t.rows[i].email))) == Unauthorized
  {
    FindByEmailUnique(t.rows, t.rows[i].email, i);
  }

  /** The match is exact: an email that differs from every admin's email,
      in case included, is refused. */
  lemma ExactMatchOnly(t: Table, email: string)
    requires forall i :: 0 <= i < |t.rows| && t.rows[i].isAdmin ==> t.rows[i].email != email
    ensures !Login(t, Parsed(WaitlistRoute.Text(email))).Granted?
  {
  }

  /** Signing up through the public form never makes an admin: the row it
      adds has the flag cleared, so the answer for that email is 401. */
  lemma {:induction false} JoiningGrantsNoAdmin(isEmail: string -> bool, email: string, t: Table, now: int)
    requires ValidTable(t)
    requires WaitlistRoute.ParseBody(isEmail, WaitlistRoute.Object(WaitlistRoute.Text(email))).Ok?
    requires !HasEmail(t.rows, email)
    ensures var t' := WaitlistRoute.Intake(isEmail, WaitlistRoute.Object(WaitlistRoute.Text(email)), t, now).1;
      Login(t', Parsed(WaitlistRoute.Text(email))) == Unauthorized
  {
    var t' := WaitlistRoute.Intake(isEmail, WaitlistRoute.Object(WaitlistRoute.Text(email)), t, now).1;
    assert t'.rows[|t.rows|] == Entry(t.nextId, email, now, false);
    NonAdminUnauthorized(t', |t.rows|);
  }
}
