# Waitlist signup and admin core, in Dafny

This project models the server and client logic of a "coming soon" waitlist
site.

- **Signup endpoint (`/api/waitlist`).**
  - `POST` runs a per-client sliding-log rate limiter: 3 admissions per 60 000 ms.
  - It then validates the body with the schema `email: string().email().refine(endsWith "@gmail.com")`.
  - It rejects an email already in the table and inserts a row with an autoincrement `id`, `createdAt = now` and `isAdmin = false`.
  - When a mail API key is configured, it attempts a welcome mail.
  - `GET` lists every entry in ascending `createdAt` order.
- **Signup form.**
  - The client-side schema adds a `name` field: at least one character, all from `[A-Za-zÀ-ÖØ-öø-ÿ'\- ]`.
  - The form shows one error line: the server error, else the name error, else the email error.
- **Admin endpoints.**
  - Offset pagination (`page`, `limit`, with defaults 1 and 20).
  - A two-column CSV export.
  - The admin allow-list login.
- **Admin dashboard helpers.**
  - The `getCookie` parser and the `admin_auth=1` check.
  - The case-insensitive search filter.
  - The "today" and "this week" counts.

Modules, one per source file plus shared pieces:

| module | file | models |
|---|---|---|
| `Wrappers` | wrappers.dfy | `Option`, `Result` |
| `Strings` | strings.dfy | JavaScript `endsWith`, `includes`, `split` on a string separator, `join`, ASCII `toLowerCase` |
| `Entries` | entries.dfy | the `WaitlistEntry` table, `findUnique`/`create` (class `WaitlistStore`), `orderBy: { createdAt: "asc" }` |
| `RateLimit` | rate_limit.dfy | `isRateLimited` and its module-level map (class `RateLimiter`) |
| `WaitlistRoute` | waitlist_route.dfy | `POST` and `GET` of `app/api/waitlist/route.ts` |
| `WaitlistForm` | waitlist_form.dfy | the form's schema, error line and response handling |
| `AdminWaitlist` | admin_waitlist.dfy | `GET /api/admin/waitlist` |
| `AdminExport` | admin_export.dfy | `GET /api/admin/export` |
| `AdminLogin` | admin_login.dfy | `POST /api/admin/login` |
| `AdminPage` | admin_page.dfy | `getCookie`, the auth check, `filteredEntries`, the today/week counts |

Parameters stand in for what the model cannot see:

- `isEmail: string -> bool` is zod's email grammar.
- `formatDate: int -> string` is `toLocaleDateString("en-US")`.
- `now` is `Date.now()`. The signup route also uses it as the new row's `createdAt` (see "## Left out").
- `isoNow` is `new Date().toISOString()`.
- The `document.cookie` string is an `Option` that is `None` when there is no `document`.
- `apiKeySet` says whether `RESEND_API_KEY` is configured.
- `provider` is the mail provider's answer.

Timestamps are milliseconds as unbounded integers.

Where the code differs from what one might expect of such a site, the model
follows the code:

- The signup route stores only the email. Its success answer carries `email` and `createdAt`, and no `id`, `name` or position.
- A duplicate email that gets past the `findUnique` check is refused by the table's unique constraint. The generic catch then answers 500, not 409.
- The name is not trimmed, so a name made only of spaces passes.
- The form shows only the first message of one field.
- The limiter is a sliding log, not a fixed window.
- An unparseable signup body (a `SyntaxError`) is answered 500, not 400.

## Model

| member | source | states |
|---|---|---|
| Strings.EndsWith | app/api/waitlist/route.ts:8 | `endsWith` holds exactly when the last characters of the string are those of the suffix, one by one |
| Strings.IndexOf | app/admin/page.tsx:21 | the result is an occurrence with no earlier occurrence, and none means the pattern occurs nowhere |
| Strings.Includes | app/admin/page.tsx:81 | `includes` holds exactly when the pattern occurs at some position |
| Strings.Join | app/api/admin/export/route.ts:17 | no pieces join to the empty string; the result starts with the first piece, followed by the separator when there are more |
| Strings.TakeUntil | app/admin/page.tsx:22 | the result is the longest prefix without `c`: it holds no `c`, and the next character, if any, is `c` |
| Strings.SplitInTwo | app/admin/page.tsx:21-22 | exactly two pieces means the separator occurs, and the second piece is everything after its first occurrence |
| Strings.Split | app/admin/page.tsx:21 | `split` on a non-empty separator always yields at least one piece |
| Strings.TakeUntilIsFirstSplitPiece | app/admin/page.tsx:22 | the text before the first `c` is the first piece of `split(c)`, so `split(";").shift()` and `split('T')[0]` agree with it |
| Strings.SplitUnique | app/admin/page.tsx:21-22 | a separator occurring exactly once at `i` splits the string into exactly the text before `i` and the text after the separator |
| Strings.SplitTwoOccurrences | app/admin/page.tsx:21-22 | two non-overlapping occurrences give at least three pieces |
| Strings.SplitJoin | app/api/admin/export/route.ts:12-17 | splitting the `join` of pieces that do not contain the separator character gives back exactly those pieces |
| Strings.IncludesIff | app/admin/page.tsx:81 | `includes` is `indexOf(pat) !== -1`: true exactly when a first occurrence exists, which then fits inside the string |
| Strings.Lower | app/admin/page.tsx:81 | lower-casing keeps the length and maps each character on its own |
| Entries.FindByEmail | app/api/waitlist/route.ts:43-45 | a row is found exactly when one with that email exists, and the found row is in the table with that email |
| Entries.FindByEmailUnique | app/api/waitlist/route.ts:43-45 | with unique emails, the lookup returns exactly the row carrying the email |
| Entries.Create | app/api/waitlist/route.ts:55-59 | fails exactly when the email is present, leaving the table alone; otherwise appends `Entry(nextId, email, now, false)` and advances the id |
| Entries.CreatePreservesValid | app/api/waitlist/route.ts:55-59 | insertion keeps emails unique and ids increasing and below the next id |
| Entries.WaitlistStore.Insert | app/api/waitlist/route.ts:55-59 | the store's new rows and next id are those of `Create` on the old state, and the table invariant holds afterwards |
| Entries.InsertByCreatedAt | app/api/waitlist/route.ts:111-113 | inserting one entry gives a list exactly one longer (sortedness and contents in the two rows below) |
| Entries.InsertSorted | app/api/waitlist/route.ts:111-113 | inserting an entry into a list sorted by `createdAt` keeps it sorted |
| Entries.InsertPermutes | app/api/waitlist/route.ts:111-113 | the insertion adds exactly that entry to the rows, losing and duplicating none |
| Entries.OrderByCreatedAt | app/api/waitlist/route.ts:111-113 | the ordering is sorted by `createdAt` and a permutation of the rows |
| Entries.OrderOfSorted | app/api/waitlist/route.ts:111-113 | rows already in `createdAt` order come back unchanged (ties keep insertion order) |
| Entries.InsertAfterAll | app/api/waitlist/route.ts:111-113 | an entry no older than every row goes at the end |
| Entries.OrderedSameRows | app/api/waitlist/route.ts:111-113 | an entry is in the ordered list exactly when it is in the table |
| RateLimit.Recent | app/api/waitlist/route.ts:21 | keeps exactly the timestamps younger than the window, and no more than there were |
| RateLimit.Step | app/api/waitlist/route.ts:17-29 | rejects exactly when 3 or more recent timestamps remain; a rejection stores the pruned list, an admission appends `now`; every stored timestamp is recent; at most 3 are stored when at most 3 were (which `RateLimiter.Valid()` keeps for every key) |
| RateLimit.Lookup | app/api/waitlist/route.ts:19 | an unknown key reads as no timestamps, a known key as its stored list, which is within the limit when every list is |
| RateLimit.Admit | app/api/waitlist/route.ts:17-29 | only the caller's key changes in the map; the call is rejected exactly when 3 or more of the caller's timestamps are recent; a rejection stores the caller's pruned list, an admission the pruned list followed by `now` |
| RateLimit.RateLimiter.constructor | app/api/waitlist/route.ts:13 | the limiter starts with an empty map, which keeps the limit |
| RateLimit.RateLimiter.IsRateLimited | app/api/waitlist/route.ts:17-29 | the answer and the new map are those of `Admit` on the old map, and no key ever holds more than 3 timestamps |
| RateLimit.ExactlyOneWindowOldIsDropped | app/api/waitlist/route.ts:21 | pruning is strict: a timestamp exactly 60 000 ms old is never kept |
| RateLimit.ReplayStoresRecentAdmissions | app/api/waitlist/route.ts:17-29 | after calls in time order the stored list is exactly the admitted calls of the last window, never more than 3 |
| RateLimit.AtMostLimitPerWindow | app/api/waitlist/route.ts:13-29 | with calls in time order, no interval of one window length contains more than 3 admitted calls |
| RateLimit.ThreeAdmittedFourthRejected | app/api/waitlist/route.ts:14-28 | three calls in a window are admitted, a fourth in the same window is rejected, and a call a full window after the first is admitted again |
| RateLimit.RecentKeepsYoung | app/api/waitlist/route.ts:21 | pruning keeps a list whose timestamps are all younger than the window |
| RateLimit.RecentTwice | app/api/waitlist/route.ts:21 | pruning at an earlier time and then a later one is the same as pruning at the later time |
| WaitlistRoute.Status | app/api/waitlist/route.ts:34-105 | only a join is answered 200; only `InternalError` (a storage failure or an unparseable body) is a 5xx; throttling, invalid input and a duplicate are 4xx |
| WaitlistRoute.Message | app/api/waitlist/route.ts:34-105 | every answer carries a non-empty message, and only a join says "Successfully joined waitlist" |
| WaitlistRoute.TextIssues | app/api/waitlist/route.ts:7-11 | no issue exactly when the email grammar and the `@gmail.com` suffix both hold; each failing check is reported, both when both fail |
| WaitlistRoute.ParseBody | app/api/waitlist/route.ts:39-40 | accepts exactly an object whose `email` is a string passing both checks and returns that string; an unparseable body is the only `SyntaxError`; every `ZodError` carries an issue |
| WaitlistRoute.CreateResponse | app/api/waitlist/route.ts:89-105 | a created row is answered with its email and `createdAt`; any storage failure is answered with the internal error |
| WaitlistRoute.DuplicateAtCreateIsInternalError | app/api/waitlist/route.ts:94-105 | a unique-constraint violation from `create` is answered 500 |
| WaitlistRoute.Intake | app/api/waitlist/route.ts:38-106 | parse failures change nothing (500 for a syntax error, 400 with the issues otherwise); a known email is answered 409 and changes nothing; a new email is answered with itself and `now` and appended; the table invariant is preserved |
| WaitlistRoute.Handle | app/api/waitlist/route.ts:31-107 | the limiter's new map depends only on the key and time, never on the body; 429 exactly when throttled, leaving the table alone; otherwise the outcome of `Intake` |
| WaitlistRoute.ClientKey | app/api/waitlist/route.ts:33 | the key is never empty: a non-empty `x-forwarded-for` is used as is, else a non-empty `request.ip`, else `"unknown"` |
| WaitlistRoute.WelcomeFor | app/api/waitlist/route.ts:71-76 | the welcome mail goes to the new entry's email |
| WaitlistRoute.Post | app/api/waitlist/route.ts:31-107 | the response, new limiter map and new table are those of `Handle` on the old state, both invariants are kept, and a welcome mail is attempted exactly when the key is set and the signup succeeded |
| WaitlistRoute.RateLimitedLeavesTable | app/api/waitlist/route.ts:34-36 | a throttled request is answered 429 and leaves the table unchanged whatever its body |
| WaitlistRoute.NonGmailRejected | app/api/waitlist/route.ts:96-101 | an email outside `@gmail.com` is answered 400 with the domain issue, leaves the table unchanged, and still uses up an admission |
| WaitlistRoute.SecondSubmissionConflicts | app/api/waitlist/route.ts:43-52 | submitting an accepted email twice: the first joins, the second is answered 409, and the table holds exactly one row with that email |
| WaitlistRoute.UniqueMeansAtMostOne | app/api/waitlist/route.ts:43-59 | while emails are unique, every email is carried by at most one row |
| WaitlistRoute.IntakeKeepsCreationOrder | app/api/waitlist/route.ts:55-59 | requests handled in time order keep the table sorted by `createdAt` |
| WaitlistRoute.List | app/api/waitlist/route.ts:109-117 | `total` is the number of rows, and `entries` is all the rows sorted by `createdAt` |
| WaitlistForm.NameChar | components/waitlist-form.tsx:19 | every character of the class is Latin-1 and none is a digit |
| WaitlistForm.MatchesNamePattern | components/waitlist-form.tsx:19 | a matching name is non-empty, Latin-1 only, and holds no digit |
| WaitlistForm.FormAccepts | components/waitlist-form.tsx:51-52 | `handleSubmit` passes the form to `onSubmit` exactly when the email passes the grammar and ends in `@gmail.com` and the name matches the pattern |
| WaitlistForm.EmailIssues | components/waitlist-form.tsx:13-15 | no message exactly when the email passes the grammar and ends in `@gmail.com`; a wrong domain always yields the domain message |
| WaitlistForm.NameIssues | components/waitlist-form.tsx:16-19 | no message exactly when the name is one or more characters of the class |
| WaitlistForm.FirstMessage | components/waitlist-form.tsx:41 | the resolver reports a field's first message, and nothing when there is none |
| WaitlistForm.DisplayedError | components/waitlist-form.tsx:165 | a non-empty server error wins, then a non-empty name error, then the email error |
| WaitlistForm.ValidationError | components/waitlist-form.tsx:158-165 | before sending, no error line is shown exactly when the form passes |
| WaitlistForm.Submitted | components/waitlist-form.tsx:65-76 | a 200 succeeds; any other status fails with the route's non-empty message |
| WaitlistForm.EmailMessageShown | components/waitlist-form.tsx:13-15 | an email failing the grammar shows the syntax message; one passing it outside `@gmail.com` shows the domain message |
| WaitlistForm.EmptyNameRequired | components/waitlist-form.tsx:18 | an empty name shows "Name is required" whatever the email |
| WaitlistForm.SpacesOnlyNameAccepted | components/waitlist-form.tsx:16-19 | a name of spaces only passes, since nothing trims it |
| WaitlistForm.OneBadCharacterRejects | components/waitlist-form.tsx:19 | one character outside the class rejects the name with the character-class message |
| WaitlistForm.DigitsAndSignsAreNotNameChars | components/waitlist-form.tsx:19 | digits, `×` and `÷` are outside the class |
| WaitlistForm.ErrorPriority | components/waitlist-form.tsx:165 | a name error hides the email error; a server error hides both |
| WaitlistForm.FormAcceptedImpliesRouteParses | components/waitlist-form.tsx:12-15 | what the form accepts, the route's schema accepts, with the same email |
| WaitlistForm.JoinedLacksNameIdPosition | components/waitlist-form.tsx:71-76 | on success `onSuccess` gets the email and no `name`, `id` or `position` |
| WaitlistForm.ThrottledShowsServerMessage | components/waitlist-form.tsx:67-68 | a 429 shows the route's "Too many requests" message |
| AdminWaitlist.ParamOr | app/api/admin/waitlist/route.ts:9-10 | an absent parameter gives the default (1 for the page, 20 for the limit), a present one its own value |
| AdminWaitlist.MulIsProduct | app/api/admin/waitlist/route.ts:11 | the repeated addition used for `(page - 1) * limit` is the product |
| AdminWaitlist.MulSign | app/api/admin/waitlist/route.ts:11 | a product with a positive count is negative exactly when the other factor is |
| AdminWaitlist.Skip | app/api/admin/waitlist/route.ts:11 | with a positive limit the skip is negative exactly when the page is below 1; page 1 or a zero limit skips nothing |
| AdminWaitlist.Window | app/api/admin/waitlist/route.ts:15-19 | the slice has `min(take, max(0, n - skip))` rows, the `k`-th being row `skip + k` |
| AdminWaitlist.SkipFacts | app/api/admin/waitlist/route.ts:11 | for page ≥ 1 the skip is not negative, page 1 skips nothing, and each page starts `limit` rows after the previous one |
| AdminWaitlist.ListPage | app/api/admin/waitlist/route.ts:6-33 | a 500 exactly when the skip is negative; otherwise `page` and `limit` are echoed (defaults 1 and 20), `total` counts every row, and `entries` are the `min(limit, max(0, total - skip))` ordered rows from `skip` |
| AdminWaitlist.PagesFromOneAnswered | app/api/admin/waitlist/route.ts:11-33 | every page from 1 on is answered; a page below 1 with a positive limit is a 500 |
| AdminWaitlist.DefaultsAreFirstTwenty | app/api/admin/waitlist/route.ts:9-10 | without parameters the answer is page 1 of 20: the 20 oldest rows |
| AdminWaitlist.WindowsAdjacent | app/api/admin/waitlist/route.ts:15-19 | two consecutive slices of `take` rows make the slice of `2 * take` rows |
| AdminWaitlist.AdjacentPages | app/api/admin/waitlist/route.ts:11 | pages `p` and `p + 1` are adjacent, non-overlapping runs of the ordered rows |
| AdminWaitlist.PositionOnPage | app/api/admin/waitlist/route.ts:11-19 | position `q` of page `p` (with `q` below the limit and inside the table) holds the ordered row `(p - 1) * limit + q` |
| AdminWaitlist.EveryRowOnItsPage | app/api/admin/waitlist/route.ts:11-19 | with a positive limit, row `i` is on page `i / limit + 1` at position `i % limit` |
| AdminExport.Row | app/api/admin/export/route.ts:13-16 | a row opens and closes with a quote, and when neither field holds a quote the text between them splits on `","` back into exactly the email and the formatted date |
| AdminExport.QuotedFieldsSplit | app/api/admin/export/route.ts:15 | two quote-free fields joined by `","` split back into those two fields |
| AdminExport.Rows | app/api/admin/export/route.ts:12-16 | one row per entry, in the same order |
| AdminExport.CsvBody | app/api/admin/export/route.ts:11-19 | the body starts with `Email,Joined Date\n`, and with no entries is exactly that header |
| AdminExport.Filename | app/api/admin/export/route.ts:24 | the name starts with `waitlist-`, ends with `.csv`, and holds no `T` between them |
| AdminExport.Export | app/api/admin/export/route.ts:6-26 | the response is `text/csv`; for a timestamp `date + "T" + time` with no `T` in `date` the attachment is `waitlist-<date>.csv`; the body starts with the header; and when no email or date holds a line break, the text after the header splits into the entries' rows, oldest first |
| AdminExport.Disposition | app/api/admin/export/route.ts:24 | the header starts with `attachment; filename="waitlist-` and ends with `.csv"` |
| AdminExport.FilenameAtFirstT | app/api/admin/export/route.ts:24 | the file name takes the text before the first `T`, or the whole timestamp when it has none |
| AdminExport.DispositionAtFirstT | app/api/admin/export/route.ts:24 | the `Content-Disposition` header names `waitlist-<text before the first T>.csv` |
| AdminExport.FilenameUsesDatePart | app/api/admin/export/route.ts:24 | for an ISO timestamp `date + "T" + time` the file is `waitlist-<date>.csv` |
| AdminExport.BodyLinesAreRows | app/api/admin/export/route.ts:12-17 | when no email or date holds a line break, the text after the header splits into exactly one line per entry, in creation order, with no trailing line break |
| AdminExport.RowsInCreationOrder | app/api/admin/export/route.ts:8-10 | earlier rows belong to entries created no later |
| AdminExport.UnescapedQuoteSplitsRow | app/api/admin/export/route.ts:15 | an email containing `","` is copied verbatim and adds a field separator to its row |
| AdminLogin.Status | app/api/admin/login/route.ts:12-15 | 200 exactly for a grant, a 4xx exactly for a refusal, a 5xx exactly for a crash |
| AdminLogin.Login | app/api/admin/login/route.ts:6-16 | an unparseable body or a missing or non-string email crashes the handler (500); a grant implies an admin entry with exactly that email |
| AdminLogin.GrantedIff | app/api/admin/login/route.ts:8-13 | with unique emails, login succeeds exactly when an entry with that exact email exists and is an admin |
| AdminLogin.UnknownEmailUnauthorized | app/api/admin/login/route.ts:15 | an unknown email is refused with 401 |
| AdminLogin.NonAdminUnauthorized | app/api/admin/login/route.ts:11-15 | an existing entry without the admin flag is refused |
| AdminLogin.ExactMatchOnly | app/api/admin/login/route.ts:8-11 | an email equal to no admin's email, case included, is never granted |
| AdminLogin.JoiningGrantsNoAdmin | app/api/admin/login/route.ts:11 | a row created by the signup route never passes the login check |
| AdminPage.GetCookie | app/admin/page.tsx:18-24 | no `document` gives no value; a value is never empty, never holds `;`, and is the text after some match of `"; name="` up to the next `;` |
| AdminPage.IsAuthenticated | app/admin/page.tsx:35-38 | the dashboard opens only when the cookie string holds `"; admin_auth="` (counting the added `"; "`) followed by `1` and then `;` or its end |
| AdminPage.GetCookieUniqueMatch | app/admin/page.tsx:20-22 | with exactly one `"; name="` match, the value is the text after it up to the next `;`, and absent when that text is empty |
| AdminPage.GetCookieAbsent | app/admin/page.tsx:21-23 | without a match the cookie is absent |
| AdminPage.GetCookieRepeated | app/admin/page.tsx:21-23 | a name matched twice reads as absent |
| AdminPage.SingleCookie | app/admin/page.tsx:18-24 | a cookie string `name=value`, with no `;` in either and a non-empty value, reads back as `value` |
| AdminPage.LoginCookieAuthenticates | app/admin/page.tsx:35-38 | the cookie the login writes, `admin_auth=1`, opens the dashboard |
| AdminPage.SubmitLogin | app/admin/page.tsx:103-108 | a 2xx answer shows the dashboard with a cookie that authenticates; any other answer shows "Unauthorized" and a cookie that does not |
| AdminPage.NoCookieNoDashboard | app/admin/page.tsx:35-38 | a page without cookies does not open the dashboard |
| AdminPage.GrantedLoginOpensDashboard | app/admin/page.tsx:94-108 | with unique emails, submitting an email opens the dashboard exactly when it is an admin's, with a cookie that authenticates; any other email shows "Unauthorized" |
| AdminPage.LongerNameDoesNotMatch | app/admin/page.tsx:20-21 | a cookie `p + name + "=" + value` whose name only ends in `name` (non-empty `p` without `;` or `=`) does not match `name`, and does not authenticate for `admin_auth` |
| AdminPage.EmptyValueIsAbsent | app/admin/page.tsx:22 | a cookie `name=` with an empty value reads as absent, for every name |
| AdminPage.Matches | app/admin/page.tsx:81 | an entry matches exactly when the lower-cased term occurs somewhere in its lower-cased email |
| AdminPage.FilterEntries | app/admin/page.tsx:79-82 | an entry is kept exactly when it is in the list and its lower-cased email contains the lower-cased term |
| AdminPage.FilterAppend | app/admin/page.tsx:79-82 | filtering keeps order: the filter of a concatenation is the concatenation of the filters |
| AdminPage.EmptyTermKeepsAll | app/admin/page.tsx:79-82 | an empty search keeps every entry |
| AdminPage.FilterIgnoresCase | app/admin/page.tsx:81 | lower-casing the search term does not change the result |
| AdminPage.CountSince | app/admin/page.tsx:196 | the count is at most the number of entries, and zero exactly when none is newer than the cutoff |
| AdminPage.TodayCount | app/admin/page.tsx:196 | at most the number of entries, and zero exactly when every entry is at least a day old |
| AdminPage.WeekCount | app/admin/page.tsx:208 | at most the number of entries, and zero exactly when every entry is at least a week old |
| AdminPage.CountSinceMonotone | app/admin/page.tsx:196-208 | a later cutoff never counts more entries |
| AdminPage.TodayAtMostWeek | app/admin/page.tsx:196-208 | the "today" count never exceeds the "this week" count |
| AdminPage.CountSincePermutation | app/admin/page.tsx:196 | the count does not depend on the order of the entries |
| AdminPage.FetchedEntries | app/admin/page.tsx:45-51 | the dashboard holds the first `min(20, n)` entries in creation order |
| AdminPage.DashboardToday | app/admin/page.tsx:196 | as written: at most `min(20, n)`, and zero exactly when the 20 oldest entries are all at least a day old, whatever the newer ones |
| AdminPage.DashboardWeek | app/admin/page.tsx:208 | as written: the same over the 20 oldest entries for the week |
| AdminPage.CorrectedToday | app/admin/page.tsx:196 | corrected: the number of rows of the whole table created in the last day |
| AdminPage.CorrectedWeek | app/admin/page.tsx:208 | corrected: the number of rows of the whole table created in the last week |
| AdminPage.DashboardMissesRecentSignup | app/admin/page.tsx:196 | as written: with over 20 signups whose 20 oldest are over a day old, the "today" figure is 0 even when a signup is from the last day |
| AdminPage.DashboardMissesRecentWeek | app/admin/page.tsx:208 | as written: the same for the "this week" figure |
| AdminPage.TwentyOneSignups | app/admin/page.tsx:47-51 | a valid table of 21 signups where the figure as written is 0 and the corrected one is 1 |
| AdminPage.CorrectedCountsEveryRow | app/admin/page.tsx:196-208 | the corrected figures count every row of the table |
| AdminPage.CorrectedFigures | app/admin/page.tsx:196-208 | corrected: "today" is at most "this week", neither is below the figure as written, and both agree with it while the table fits on one page |

## Left out

- Storage failures other than the unique constraint (lost connections, timeouts) are not modelled. So `GET /api/waitlist`, the pagination and the export never take their 500 branch, except the pagination's negative skip.
- Concurrency is not modelled. Requests run one at a time, so the race in which two requests pass `findUnique` together is modelled only as its outcome.
- The query-string parsing of `page` and `limit` (`parseInt`) is left out. Parameters arrive as optional integers, and a non-numeric value is not represented.
- AdminWaitlist.ListPage: requires a limit that is not negative, because the storage layer reads a negative `take` as counting back from the end. That reverse paging is not modelled.
- zod's email grammar is the parameter `isEmail`, and the en-US date format is the parameter `formatDate`.
- Strings.Lower: lower-cases ASCII letters only, not the full Unicode case mapping of `toLowerCase`.
- WaitlistRoute.Post: the limiter's time and the stored `createdAt` are one value `now`. In the code the limiter reads `Date.now()` on entry, and the storage layer fills in `createdAt` at insert time, after the body is read and the lookup is awaited.
- The welcome mail's network call is not modelled. Only the mail the route attempts is modelled, and the provider's answer is an input that is only logged.
- The client's `fetch` calls, blob download and React state are not modelled. Only the pure helpers and the step after the login answer are.
- AdminPage.SubmitLogin: models the cookie write on a page that holds no other cookie, so `document.cookie` reads back `admin_auth=1`. The browser's cookie jar, with other cookies, paths and expiry (`max-age`), is not modelled.
- Logout (app/admin/page.tsx:112-115) is not modelled: it expires the cookie with `max-age=0`, which needs the cookie jar.
- The dashboard's "Average Daily" statistic (app/admin/page.tsx:221) is not modelled, because it uses floating-point division and `Math.round`.
- The date formatting for the dashboard table (app/admin/page.tsx:84-92) is not modelled.
- Ties in `createdAt` are listed in insertion order. The storage layer leaves their order unspecified.
- The database seed script is not part of this model.
- Entries.WaitlistStore.constructor: the table starts empty with next id 1. No member of the model deletes rows.

## Findings

| source | as written | input that shows it | evidently intended | confidence | as-written member | corrected member |
|---|---|---|---|---|---|---|
| app/admin/page.tsx:196 | the dashboard computes "+N today" and "this week" over the entries it fetched from `/api/admin/waitlist` without parameters, which is the first page: the 20 oldest signups | 21 signups, 20 at time 0 and one at 2 days, viewed at 2 days: the dashboard shows "+0 today" under "Total Signups: 21" | both figures count every signup, as the "Total Signups" card beside them does | not executed | AdminPage.DashboardMissesRecentSignup | AdminPage.CorrectedFigures |
