/** The admin dashboard's pure helpers: reading the `admin_auth` cookie, the
    search filter over the fetched entries, and the "today" and "this week"
    counts. `document.cookie` is a parameter: `None` when there is no
    `document` (server rendering). */
module AdminPage {
  import opened Wrappers
  import opened Strings
  import opened Entries
  import AdminWaitlist
  import AdminLogin
  import WaitlistRoute

  const AUTH_COOKIE: string := "admin_auth"
  const DAY_MS: int := 24 * 60 * 60 * 1000
  const WEEK_MS: int := 7 * DAY_MS

  /** `getCookie(name)`: prefix the cookie string with "; ", split it on
      "; name=", and only when that gives exactly two pieces take the second
      up to its first ";". An empty value reads as absent. A value found is
      the text after some match of "; name=", up to the next ";". */
  function GetCookie(document: Option<string>, name: string): (r: Option<string>)
    ensures document.None? ==> r.None?
    ensures r.Some? ==> r.value != "" && ';' !in r.value
    ensures r.Some? ==> exists i :: (OccursAt("; " + document.value, "; " + name + "=", i)
      && r.value == TakeUntil(("; " + document.value)[i + |name| + 3..], ';'))
  {
    if document.None? then None
    else
      var parts := Split("; " + document.value, "; " + name + "=");
      if |parts| == 2 then
        SplitInTwo("; " + document.value, "; " + name + "=");
        var v := TakeUntil(parts[1], ';');
        if v == "" then None else Some(v)
      else None
  }

  /** The dashboard opens only when the cookie's value is exactly "1": the
      cookie string then holds "; admin_auth=" (counting the added "; ")
      followed by "1" and then a ";" or its end. */
  predicate IsAuthenticated(document: Option<string>): (b: bool)
    ensures b ==> document.Some? && exists i :: (OccursAt("; " + document.value, "; admin_auth=", i)
      && TakeUntil(("; " + document.value)[i + 13..], ';') == "1")
  {
    assert "; " + AUTH_COOKIE + "=" == "; admin_auth=";
    GetCookie(document, AUTH_COOKIE) == Some("1")
  }

  /** With exactly one match of "; name=", the value is the text after it up
      to the next ";" (or to the end), and absent when that text is empty. */
  lemma GetCookieUniqueMatch(cookie: string, name: string, i: nat)
    requires OccursAt("; " + cookie, "; " + name + "=", i)
    requires forall j :: OccursAt("; " + cookie, "; " + name + "=", j) ==> j == i
    ensures var v := TakeUntil(("; " + cookie)[i + |name| + 3..], ';');
      GetCookie(Some(cookie), name) == (if v == "" then None else Some(v))
  {
    SplitUnique("; " + cookie, "; " + name + "=", i);
  }

  /** Without a match the cookie reads as absent. */
  lemma GetCookieAbsent(cookie: string, name: string)
    requires forall j :: !OccursAt("; " + cookie, "; " + name + "=", j)
    ensures GetCookie(Some(cookie), name).None?
  {
    SplitNoOccurrence("; " + cookie, "; " + name + "=");
  }

  /** Two matches give three or more pieces, so a repeated name reads as
      absent too. */
  lemma GetCookieRepeated(cookie: string, name: string, i: int, j: int)
    requires OccursAt("; " + cookie, "; " + name + "=", i)
    requires OccursAt("; " + cookie, "; " + name + "=", j)
    requires i + |name| + 3 <= j
    ensures GetCookie(Some(cookie), name).None?
  {
    SplitTwoOccurrences("; " + cookie, "; " + name + "=", i, j);
  }

  /** A cookie string that is just `name=value`, with no ";" in either,
      reads back as `value` when that is not empty. */
  lemma {:induction false} SingleCookie(name: string, value: string)
    requires ';' !in name && ';' !in value && value != ""
    ensures GetCookie(Some(name + "=" + value), name) == Some(value)
  {
    var s := "; " + (name + "=" + value);
    var sep := "; " + name + "=";
    assert OccursAt(s, sep, 0) by {
      assert s[..|sep|] == sep;
    }
    forall j | 0 < j < |s| ensures s[j] != ';' {
      if j > 1 {
        assert s[j] == (name + "=" + value)[j - 2];
      }
    }
    forall j | OccursAt(s, sep, j) ensures j == 0 {
      assert s[j..j + |sep|][0] == s[j];
    }
    SplitUnique(s, sep, 0);
    assert s[|sep|..] == value;
    assert Split(s, sep)[1] == value;
    var r := TakeUntil(value, ';');
    assert |r| == |value|;
    assert r == value;
  }

  /** The cookie the login form writes after a 200 (`admin_auth=1`) opens
      the dashboard. */
  lemma LoginCookieAuthenticates()
    ensures IsAuthenticated(Some("admin_auth=1"))
  {
    SingleCookie(AUTH_COOKIE, "1");
    assert AUTH_COOKIE + "=" + "1" == "admin_auth=1";
  }

  /** What the login form shows once the route has answered, on a page that
      held no cookie: the cookie string the page then reads back, whether
      the dashboard is shown, and the error line. */
  datatype LoginView = LoginView(cookie: string, authenticated: bool, loginError: string)

  /** `handleLogin` after the `fetch`: a 2xx status writes `admin_auth=1`
      (its `path` and `max-age` attributes are not read back) and shows the
      dashboard; any other status leaves the cookie alone and shows
      "Unauthorized". */
  function SubmitLogin(status: int): (v: LoginView)
    ensures v.authenticated <==> 200 <= status <= 299
    ensures v.authenticated ==> IsAuthenticated(Some(v.cookie)) && v.loginError == ""
    ensures !v.authenticated ==> !IsAuthenticated(Some(v.cookie)) && v.loginError == "Unauthorized"
  {
    if 200 <= status <= 299 then
      LoginCookieAuthenticates();
      LoginView("admin_auth=1", true, "")
    else
      NoCookieNoDashboard();
      LoginView("", false, "Unauthorized")
  }

  /** A page without cookies does not open the dashboard. */
  lemma NoCookieNoDashboard()
    ensures !IsAuthenticated(Some(""))
  {
    assert |"; " + AUTH_COOKIE + "="| == 13;
    GetCookieAbsent("", AUTH_COOKIE);
  }

  /** An admin email opens the dashboard; any other email, with unique
      emails in the table, leaves the login form with "Unauthorized". */
  lemma GrantedLoginOpensDashboard(t: Table, email: string)
    requires UniqueEmails(t.rows)
    ensures var v := SubmitLogin(AdminLogin.Status(AdminLogin.Login(t, AdminLogin.Parsed(WaitlistRoute.Text(email)))));
      v.authenticated <==> AdminLogin.IsAdminEmail(t.rows, email)
    ensures var v := SubmitLogin(AdminLogin.Status(AdminLogin.Login(t, AdminLogin.Parsed(WaitlistRoute.Text(email)))));
      v.authenticated ==> IsAuthenticated(Some(v.cookie))
    ensures var v := SubmitLogin(AdminLogin.Status(AdminLogin.Login(t, AdminLogin.Parsed(WaitlistRoute.Text(email)))));
      !AdminLogin.IsAdminEmail(t.rows, email) ==> v.loginError == "Unauthorized"
  {
    AdminLogin.GrantedIff(t, email);
  }

  /** The "; " prefix makes a match start at a cookie boundary: a cookie
      whose name merely ends with `name` does not match. */
  lemma LongerNameDoesNotMatch(p: string, name: string, value: string)
    requires p != "" && ';' !in p && '=' !in p
    requires ';' !in name && '=' !in name && ';' !in value
    ensures GetCookie(Some(p + name + "=" + value), name).None?
    ensures name == AUTH_COOKIE ==> !IsAuthenticated(Some(p + name + "=" + value))
  {
    var c := p + name + "=" + value;
    var s := "; " + c;
    var sep := "; " + name + "=";
    forall k | 0 < k < |s| ensures s[k] != ';' {
      if k > 1 {
        assert s[k] == c[k - 2];
        if k - 2 < |p| {
          assert c[k - 2] == p[k - 2];
        } else if k - 2 < |p| + |name| {
          assert c[k - 2] == name[k - 2 - |p|];
        } else if k - 2 > |p| + |name| {
          assert c[k - 2] == value[k - 3 - |p| - |name|];
        }
      }
    }
    assert s[|name| + 2] != '=' by {
      assert s[|name| + 2] == c[|name|];
      if |name| < |p| {
        assert c[|name|] == p[|name|];
      } else {
        assert c[|name|] == name[|name| - |p|];
      }
    }
    forall j ensures !OccursAt(s, sep, j) {
      if 0 <= j && j + |sep| <= |s| {
        if j == 0 {
          assert s[j..j + |sep|][|name| + 2] == s[|name| + 2];
          assert sep[|name| + 2] == '=';
        } else {
          assert s[j..j + |sep|][0] == s[j];
        }
      }
    }
    GetCookieAbsent(c, name);
  }

  /** A cookie whose value is empty reads as absent. */
  lemma EmptyValueIsAbsent(name: string)
    ensures GetCookie(Some(name + "="), name).None?
  {
    var s := "; " + (name + "=");
    var sep := "; " + name + "=";
    assert s == sep;
    assert OccursAt(s, sep, 0);
    GetCookieUniqueMatch(name + "=", name, 0);
    assert s[|name| + 3..] == "";
  }

  // The search box.

  /** `entry.email.toLowerCase().includes(searchTerm.toLowerCase())`. */
  predicate Matches(e: Entry, term: string): (b: bool)
    ensures b <==> exists i :: OccursAt(Lower(e.email), Lower(term), i)
  {
    Includes(Lower(e.email), Lower(term))
  }

  /** `filteredEntries`: the entries that match, in their order. */
  function FilterEntries(entries: seq<Entry>, term: string): (r: seq<Entry>)
    ensures |r| <= |entries|
    ensures forall e :: e in r <==> e in entries && Matches(e, term)
  {
    if |entries| == 0 then []
    else
      var last := entries[|entries| - 1];
      assert entries == entries[..|entries| - 1] + [last];
      FilterEntries(entries[..|entries| - 1], term) + (if Matches(last, term) then [last] else [])
  }

  /** Filtering keeps the order: the filter of a concatenation is the
      concatenation of the filters. */
  lemma {:induction false} FilterAppend(a: seq<Entry>, b: seq<Entry>, term: string)
    ensures FilterEntries(a + b, term) == FilterEntries(a, term) + FilterEntries(b, term)
    decreases |b|
  {
    if |b| == 0 {
      assert a + b == a;
    } else {
      var init, last := b[..|b| - 1], b[|b| - 1];
      var tail := if Matches(last, term) then [last] else [];
      assert (a + b)[..|a + b| - 1] == a + init && (a + b)[|a + b| - 1] == last;
      assert FilterEntries(a + b, term) == FilterEntries(a + init, term) + tail;
      assert FilterEntries(b, term) == FilterEntries(init, term) + tail;
      FilterAppend(a, init, term);
    }
  }

  /** An empty search keeps every entry. */
  lemma {:induction false} EmptyTermKeepsAll(entries: seq<Entry>)
    ensures FilterEntries(entries, "") == entries
  {
    if |entries| > 0 {
      EmptyTermKeepsAll(entries[..|entries| - 1]);
      IncludesEmpty(Lower(entries[|entries| - 1].email));
      assert Lower("") == "";
      assert entries[..|entries| - 1] + [entries[|entries| - 1]] == entries;
    }
  }

  /** The search ignores the case of ASCII letters in the term. */
  lemma {:induction false} FilterIgnoresCase(entries: seq<Entry>, term: string)
    ensures FilterEntries(entries, Lower(term)) == FilterEntries(entries, term)
  {
    LowerIdempotent(term);
    if |entries| > 0 {
      FilterIgnoresCase(entries[..|entries| - 1], term);
    }
  }

  // The "today" and "this week" figures.

  /** How many entries were created strictly after `cutoff`. */
  function CountSince(entries: seq<Entry>, cutoff: int): (n: nat)
    ensures n <= |entries|
    ensures n == 0 <==> forall k :: 0 <= k < |entries| ==> entries[k].createdAt <= cutoff
  {
    if |entries| == 0 then 0
    else
      var init := entries[..|entries| - 1];
      var last := entries[|entries| - 1];
      assert forall k :: 0 <= k < |init| ==> init[k] == entries[k];
      CountSince(init, cutoff) + (if last.createdAt > cutoff then 1 else 0)
  }

  /** `createdAt > now - 24h`: none exactly when every entry is at least a
      day old. */
  function TodayCount(entries: seq<Entry>, now: int): (n: nat)
    ensures n <= |entries|
    ensures n == 0 <==> forall k :: 0 <= k < |entries| ==> entries[k].createdAt <= now - DAY_MS
  {
    CountSince(entries, now - DAY_MS)
  }

  /** `createdAt > now - 7 * 24h`: none exactly when every entry is at least
      a week old. */
  function WeekCount(entries: seq<Entry>, now: int): (n: nat)
    ensures n <= |entries|
    ensures n == 0 <==> forall k :: 0 <= k < |entries| ==> entries[k].createdAt <= now - WEEK_MS
  {
    CountSince(entries, now - WEEK_MS)
  }

  /** A later cutoff counts no more entries. */
  lemma {:induction false} CountSinceMonotone(entries: seq<Entry>, later: int, earlier: int)
    requires earlier <= later
    ensures CountSince(entries, later) <= CountSince(entries, earlier)
  {
    if |entries| > 0 {
      CountSinceMonotone(entries[..|entries| - 1], later, earlier);
    }
  }

  /** The "today" figure never exceeds the "this week" figure. */
  lemma TodayAtMostWeek(entries: seq<Entry>, now: int)
    ensures TodayCount(entries, now) <= WeekCount(entries, now)
  {
    CountSinceMonotone(entries, now - DAY_MS, now - WEEK_MS);
  }

  lemma {:induction false} CountSinceAppend(a: seq<Entry>, b: seq<Entry>, cutoff: int)
    ensures CountSince(a + b, cutoff) == CountSince(a, cutoff) + CountSince(b, cutoff)
    decreases |b|
  {
    if |b| == 0 {
      assert a + b == a;
    } else {
      assert (a + b)[..|a + b| - 1] == a + b[..|b| - 1];
      CountSinceAppend(a, b[..|b| - 1], cutoff);
    }
  }

  /** Taking one entry out of a list lowers the count by that entry's share. */
  lemma CountSinceRemove(b: seq<Entry>, k: int, cutoff: int)
    requires 0 <= k < |b|
    ensures CountSince(b, cutoff) == CountSince(b[..k] + b[k + 1..], cutoff) + (if b[k].createdAt > cutoff then 1 else 0)
  {
    assert b == b[..k] + [b[k]] + b[k + 1..];
    CountSinceAppend(b[..k] + [b[k]], b[k + 1..], cutoff);
    CountSinceAppend(b[..k], [b[k]], cutoff);
    CountSinceAppend(b[..k], b[k + 1..], cutoff);
    assert [b[k]][..0] == [];
  }

  lemma MultisetRemoveLast(a: seq<Entry>, b: seq<Entry>, k: int)
    requires multiset(a) == multiset(b)
    requires |a| > 0 && 0 <= k < |b| && b[k] == a[|a| - 1]
    ensures multiset(a[..|a| - 1]) == multiset(b[..k] + b[k + 1..])
  {
    var x := a[|a| - 1];
    assert a == a[..|a| - 1] + [x];
    assert b == b[..k] + [x] + b[k + 1..];
    assert multiset(a[..|a| - 1]) == multiset(a) - multiset{x};
    assert multiset(b[..k] + b[k + 1..]) == multiset(b) - multiset{x};
  }

  /** The count depends only on which entries there are, not their order. */
  lemma {:induction false} CountSincePermutation(a: seq<Entry>, b: seq<Entry>, cutoff: int)
    requires multiset(a) == multiset(b)
    ensures CountSince(a, cutoff) == CountSince(b, cutoff)
    decreases |a|
  {
    if |a| > 0 {
      var x := a[|a| - 1];
      assert x in multiset(b) by {
        assert x in multiset(a);
      }
      var k :| 0 <= k < |b| && b[k] == x;
      MultisetRemoveLast(a, b, k);
      CountSincePermutation(a[..|a| - 1], b[..k] + b[k + 1..], cutoff);
      CountSinceRemove(b, k, cutoff);
    } else {
      assert |b| == |multiset(b)| == 0;
    }
  }

  /** A contiguous run of a list counts no more than the whole list. */
  lemma CountSinceSlice(s: seq<Entry>, lo: nat, hi: nat, cutoff: int)
    requires lo <= hi <= |s|
    ensures CountSince(s[lo..hi], cutoff) <= CountSince(s, cutoff)
  {
    assert s == s[..lo] + s[lo..hi] + s[hi..];
    CountSinceAppend(s[..lo] + s[lo..hi], s[hi..], cutoff);
    CountSinceAppend(s[..lo], s[lo..hi], cutoff);
  }

  // The dashboard fetches `/api/admin/waitlist` without parameters, so the
  // entries it filters and counts are the first page: the 20 oldest.

  /** The entries the dashboard holds, as written. */
  function FetchedEntries(t: Table): (r: seq<Entry>)
    ensures |r| == AdminWaitlist.Min(20, |t.rows|)
    ensures forall k :: 0 <= k < |r| ==> r[k] == OrderByCreatedAt(t.rows)[k]
  {
    AdminWaitlist.DefaultsAreFirstTwenty(t);
    AdminWaitlist.ListPage(t, None, None).response.entries
  }

  /** The "+N today" figure as written: it looks at the 20 oldest entries
      only. */
  function DashboardToday(t: Table, now: int): (n: nat)
    ensures n <= AdminWaitlist.Min(20, |t.rows|)
    ensures n == 0 <==> forall k :: 0 <= k < AdminWaitlist.Min(20, |t.rows|) ==> OrderByCreatedAt(t.rows)[k].createdAt <= now - DAY_MS
  {
    var f := FetchedEntries(t);
    assert forall k :: 0 <= k < |f| ==> f[k].createdAt == OrderByCreatedAt(t.rows)[k].createdAt;
    TodayCount(f, now)
  }

  /** The "this week" figure as written, over the same 20 entries. */
  function DashboardWeek(t: Table, now: int): (n: nat)
    ensures n <= AdminWaitlist.Min(20, |t.rows|)
    ensures n == 0 <==> forall k :: 0 <= k < AdminWaitlist.Min(20, |t.rows|) ==> OrderByCreatedAt(t.rows)[k].createdAt <= now - WEEK_MS
  {
    var f := FetchedEntries(t);
    assert forall k :: 0 <= k < |f| ==> f[k].createdAt == OrderByCreatedAt(t.rows)[k].createdAt;
    WeekCount(f, now)
  }

  /** With more than 20 signups where the 20 oldest are over a day old, a
      signup from the last day is not counted: the figure shows 0. */
  lemma DashboardMissesRecentSignup(t: Table, now: int, i: int)
    requires |t.rows| > 20
    requires forall k :: 0 <= k < 20 ==> OrderByCreatedAt(t.rows)[k].createdAt <= now - DAY_MS
    requires 0 <= i < |t.rows| && t.rows[i].createdAt > now - DAY_MS
    ensures DashboardToday(t, now) == 0
    ensures CorrectedToday(t, now) >= 1
  {
    CorrectedCountsEveryRow(t, now);
  }

  /** The same for the week figure. */
  lemma DashboardMissesRecentWeek(t: Table, now: int, i: int)
    requires |t.rows| > 20
    requires forall k :: 0 <= k < 20 ==> OrderByCreatedAt(t.rows)[k].createdAt <= now - WEEK_MS
    requires 0 <= i < |t.rows| && t.rows[i].createdAt > now - WEEK_MS
    ensures DashboardWeek(t, now) == 0
    ensures CorrectedWeek(t, now) >= 1
  {
    CountSincePermutation(OrderByCreatedAt(t.rows), t.rows, now - WEEK_MS);
  }

  /** The figures over every entry, in creation order, as the "Total
      Signups" card beside them counts. */
  function CorrectedToday(t: Table, now: int): (n: nat)
    ensures n == CountSince(t.rows, now - DAY_MS)
  {
    CountSincePermutation(OrderByCreatedAt(t.rows), t.rows, now - DAY_MS);
    TodayCount(OrderByCreatedAt(t.rows), now)
  }

  function CorrectedWeek(t: Table, now: int): (n: nat)
    ensures n == CountSince(t.rows, now - WEEK_MS)
  {
    CountSincePermutation(OrderByCreatedAt(t.rows), t.rows, now - WEEK_MS);
    WeekCount(OrderByCreatedAt(t.rows), now)
  }

  /** The corrected figure counts every row of the table created in the
      last day. */
  lemma CorrectedCountsEveryRow(t: Table, now: int)
    ensures CorrectedToday(t, now) == CountSince(t.rows, now - DAY_MS)
    ensures CorrectedWeek(t, now) == CountSince(t.rows, now - WEEK_MS)
  {
    CountSincePermutation(OrderByCreatedAt(t.rows), t.rows, now - DAY_MS);
    CountSincePermutation(OrderByCreatedAt(t.rows), t.rows, now - WEEK_MS);
  }

  lemma FetchedIsPrefix(t: Table)
    ensures |FetchedEntries(t)| <= |t.rows|
    ensures FetchedEntries(t) == OrderByCreatedAt(t.rows)[..|FetchedEntries(t)|]
    ensures |t.rows| <= 20 ==> FetchedEntries(t) == OrderByCreatedAt(t.rows)
  {
  }

  /** The corrected figures keep "today" at most "this week", never fall
      below the figures as written, and agree with them while the table
      fits on one page. */
  lemma CorrectedFigures(t: Table, now: int)
    ensures CorrectedToday(t, now) <= CorrectedWeek(t, now)
    ensures DashboardToday(t, now) <= CorrectedToday(t, now)
    ensures DashboardWeek(t, now) <= CorrectedWeek(t, now)
    ensures |t.rows| <= 20 ==> DashboardToday(t, now) == CorrectedToday(t, now) && DashboardWeek(t, now) == CorrectedWeek(t, now)
  {
    var s := OrderByCreatedAt(t.rows);
    var f := FetchedEntries(t);
    TodayAtMostWeek(s, now);
    FetchedIsPrefix(t);
    CountSinceSlice(s, 0, |f|, now - DAY_MS);
    CountSinceSlice(s, 0, |f|, now - WEEK_MS);
  }

  /** Twenty signups at time 0 and one two days later. */
  function SampleTable(): Table {
    Table(seq(21, k requires 0 <= k < 21 => Entry(k + 1, [(97 + k) as char], if k < 20 then 0 else 2 * DAY_MS, false)), 22)
  }

  lemma OnlyLastIsRecent(s: seq<Entry>, cutoff: int)
    requires |s| > 0 && s[|s| - 1].createdAt > cutoff
    requires forall k :: 0 <= k < |s| - 1 ==> s[k].createdAt <= cutoff
    ensures CountSince(s, cutoff) == 1
  {
    var init := s[..|s| - 1];
    assert forall k :: 0 <= k < |init| ==> init[k].createdAt <= cutoff;
  }

  lemma SampleTableShape()
    ensures |SampleTable().rows| == 21
    ensures forall k :: 0 <= k < 20 ==> SampleTable().rows[k].createdAt == 0
    ensures SampleTable().rows[20].createdAt == 2 * DAY_MS
    ensures SortedByCreatedAt(SampleTable().rows)
    ensures ValidTable(SampleTable())
  {
    var rows := SampleTable().rows;
    forall i, j | 0 <= i < j < |rows| ensures rows[i].email != rows[j].email {
      assert rows[i].email[0] != rows[j].email[0];
    }
  }

  /** At the moment of the last signup in the sample, the dashboard shows
      "+0 today" for 21 signups, while one of them is from that day. */
  lemma TwentyOneSignups()
    ensures ValidTable(SampleTable())
    ensures DashboardToday(SampleTable(), 2 * DAY_MS) == 0 && CorrectedToday(SampleTable(), 2 * DAY_MS) == 1
  {
    var t := SampleTable();
    var rows := t.rows;
    SampleTableShape();
    OrderOfSorted(rows);
    DashboardMissesRecentSignup(t, 2 * DAY_MS, 20);
    CorrectedCountsEveryRow(t, 2 * DAY_MS);
    OnlyLastIsRecent(rows, DAY_MS);
  }
}
