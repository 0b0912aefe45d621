/** `GET /api/admin/export`: every entry, in creation order, as a two-column
    CSV attachment named after the current date. `toLocaleDateString("en-US")`
    is the parameter `formatDate`. */
module AdminExport {
  import opened Strings
  import opened Entries

  const CSV_HEADER: string := "Email,Joined Date\n"

  /** `"${entry.email}","${date}"`: both fields quoted, the email verbatim
      (a quote inside it is not escaped). When neither field holds a quote,
      the text between the outer quotes splits on `","` back into the two
      fields. */
  function Row(e: Entry, formatDate: int -> string): (row: string)
    ensures |row| == |e.email| + |formatDate(e.createdAt)| + 5
    ensures row[0] == '"' && row[|row| - 1] == '"'
    ensures '"' !in e.email && '"' !in formatDate(e.createdAt) ==>
      Split(row[1..|row| - 1], "\",\"") == [e.email, formatDate(e.createdAt)]
  {
    var date := formatDate(e.createdAt);
    var row := "\"" + e.email + "\",\"" + date + "\"";
    assert row[1..|row| - 1] == e.email + "\",\"" + date;
    QuotedFieldsSplit(e.email, date);
    row
  }

  /** Two fields without quotes, joined by `","`, split back on it. */
  lemma QuotedFieldsSplit(a: string, b: string)
    ensures '"' !in a && '"' !in b ==> Split(a + "\",\"" + b, "\",\"") == [a, b]
  {
    if '"' !in a && '"' !in b {
      var s := a + "\",\"" + b;
      var sep := "\",\"";
      assert s[|a|..|a| + 3] == sep;
      forall k | 0 <= k < |s| && k != |a| && k != |a| + 2 ensures s[k] != '"' {
        if k < |a| {
          assert s[k] == a[k];
        } else if k > |a| + 2 {
          assert s[k] == b[k - |a| - 3];
        }
      }
      forall j | OccursAt(s, sep, j) ensures j == |a| {
        assert s[j..j + 3][0] == s[j] && s[j..j + 3][2] == s[j + 2];
      }
      SplitUnique(s, sep, |a|);
      assert s[..|a|] == a;
      assert s[|a| + 3..] == b;
    }
  }

  function Rows(entries: seq<Entry>, formatDate: int -> string): (rows: seq<string>)
    ensures |rows| == |entries|
    ensures forall i :: 0 <= i < |entries| ==> rows[i] == Row(entries[i], formatDate)
  {
    seq(|entries|, i requires 0 <= i < |entries| => Row(entries[i], formatDate))
  }

  /** The response body: the header line, then one row per entry joined by
      line breaks. */
  function CsvBody(t: Table, formatDate: int -> string): (body: string)
    ensures StartsWith(body, CSV_HEADER)
    ensures t.rows == [] ==> body == CSV_HEADER
  {
    CSV_HEADER + Join(Rows(OrderByCreatedAt(t.rows), formatDate), "\n")
  }

  /** `waitlist-${new Date().toISOString().split('T')[0]}.csv`. */
  function Filename(isoNow: string): (name: string)
    ensures StartsWith(name, "waitlist-") && EndsWith(name, ".csv") && |name| >= 13
    ensures 'T' !in name[9..|name| - 4]
  {
    var date := Split(isoNow, "T")[0];
    TakeUntilIsFirstSplitPiece(isoNow, 'T');
    var name := "waitlist-" + date + ".csv";
    assert name[9..|name| - 4] == date;
    name
  }

  /** The response: the body with its two headers. */
  datatype CsvResponse = CsvResponse(contentType: string, disposition: string, body: string)

  /** The handler. `isoNow` is `new Date().toISOString()`. The attachment is
      named after the text before the first `T` of the timestamp, and when
      no email and no date holds a line break, the text after the header
      splits into the entries' rows, oldest first. */
  function Export(t: Table, formatDate: int -> string, isoNow: string): (r: CsvResponse)
    ensures r.contentType == "text/csv"
    ensures forall k :: 0 <= k < |isoNow| && isoNow[k] == 'T' && 'T' !in isoNow[..k] ==>
      r.disposition == "attachment; filename=\"waitlist-" + isoNow[..k] + ".csv\""
    ensures 'T' !in isoNow ==> r.disposition == "attachment; filename=\"waitlist-" + isoNow + ".csv\""
    ensures StartsWith(r.body, CSV_HEADER)
    ensures t.rows == [] ==> r.body == CSV_HEADER
    ensures |t.rows| >= 1 && NoLineBreaks(t, formatDate) ==>
      Split(r.body[|CSV_HEADER|..], "\n") == Rows(OrderByCreatedAt(t.rows), formatDate)
  {
    DispositionAtFirstT(isoNow);
    assert |t.rows| >= 1 && NoLineBreaks(t, formatDate) ==>
      Split(CsvBody(t, formatDate)[|CSV_HEADER|..], "\n") == Rows(OrderByCreatedAt(t.rows), formatDate) by {
      if |t.rows| >= 1 && NoLineBreaks(t, formatDate) {
        BodyLinesAreRows(t, formatDate);
      }
    }
    CsvResponse("text/csv", Disposition(isoNow), CsvBody(t, formatDate))
  }

  /** `attachment; filename="…"` for the file name of `isoNow`. */
  function Disposition(isoNow: string): (header: string)
    ensures StartsWith(header, "attachment; filename=\"waitlist-") && EndsWith(header, ".csv\"")
  {
    var name := Filename(isoNow);
    assert name[..9] == "waitlist-" && name[|name| - 4..] == ".csv";
    assert ("attachment; filename=\"" + name + "\"")[..31] == "attachment; filename=\"" + name[..9];
    "attachment; filename=\"" + Filename(isoNow) + "\""
  }

  lemma AttachmentOf(d: string)
    ensures "attachment; filename=\"" + ("waitlist-" + d + ".csv") + "\"" == "attachment; filename=\"waitlist-" + d + ".csv\""
  {
  }

  /** The header names the file after the text before the first `T`, or
      after the whole timestamp when it has none. */
  lemma DispositionAtFirstT(isoNow: string)
    ensures forall k :: 0 <= k < |isoNow| && isoNow[k] == 'T' && 'T' !in isoNow[..k] ==>
      Disposition(isoNow) == "attachment; filename=\"waitlist-" + isoNow[..k] + ".csv\""
    ensures 'T' !in isoNow ==> Disposition(isoNow) == "attachment; filename=\"waitlist-" + isoNow + ".csv\""
  {
    FilenameAtFirstT(isoNow);
    forall k | 0 <= k < |isoNow| && isoNow[k] == 'T' && 'T' !in isoNow[..k]
      ensures Disposition(isoNow) == "attachment; filename=\"waitlist-" + isoNow[..k] + ".csv\""
    {
      AttachmentOf(isoNow[..k]);
    }
    AttachmentOf(isoNow);
  }

  /** Neither an email nor a formatted date holds a line break. */
  predicate NoLineBreaks(t: Table, formatDate: int -> string) {
    forall k :: 0 <= k < |t.rows| ==> '\n' !in t.rows[k].email && '\n' !in formatDate(t.rows[k].createdAt)
  }

  /** The file name takes the text before the first `T`, or the whole
      timestamp when it has none. */
  lemma FilenameAtFirstT(isoNow: string)
    ensures forall k :: 0 <= k < |isoNow| && isoNow[k] == 'T' && 'T' !in isoNow[..k] ==>
      Filename(isoNow) == "waitlist-" + isoNow[..k] + ".csv"
    ensures 'T' !in isoNow ==> Filename(isoNow) == "waitlist-" + isoNow + ".csv"
  {
    forall k | 0 <= k < |isoNow| && isoNow[k] == 'T' && 'T' !in isoNow[..k]
      ensures Filename(isoNow) == "waitlist-" + isoNow[..k] + ".csv"
    {
      assert isoNow == isoNow[..k] + "T" + isoNow[k + 1..];
      FilenameUsesDatePart(isoNow[..k], isoNow[k + 1..]);
    }
    if 'T' !in isoNow {
      TakeUntilIsFirstSplitPiece(isoNow, 'T');
      assert |TakeUntil(isoNow, 'T')| == |isoNow|;
    }
  }

  /** For an ISO timestamp `date + "T" + time`, the file is named after the
      date part. */
  lemma FilenameUsesDatePart(date: string, time: string)
    requires 'T' !in date
    ensures Filename(date + "T" + time) == "waitlist-" + date + ".csv"
  {
    TakeUntilIsFirstSplitPiece(date + "T" + time, 'T');
    TakeUntilStopsAtFirst(date, 'T', time);
  }

  /** When no email and no formatted date contains a line break, the text
      after the header splits back into exactly one line per entry, in
      creation order; so there are as many lines as entries and no trailing
      line break. */
  lemma {:induction false} BodyLinesAreRows(t: Table, formatDate: int -> string)
    requires |t.rows| >= 1 && NoLineBreaks(t, formatDate)
    ensures var body := CsvBody(t, formatDate);
      Split(body[|CSV_HEADER|..], "\n") == Rows(OrderByCreatedAt(t.rows), formatDate)
  {
    var sorted := OrderByCreatedAt(t.rows);
    var rows := Rows(sorted, formatDate);
    forall k | 0 <= k < |rows| ensures '\n' !in rows[k] {
      var e := sorted[k];
      assert e in multiset(t.rows);
      var m :| 0 <= m < |t.rows| && t.rows[m] == e;
      assert rows[k] == "\"" + e.email + "\",\"" + formatDate(e.createdAt) + "\"";
    }
    SplitJoin(rows, '\n');
    var body := CsvBody(t, formatDate);
    assert body[|CSV_HEADER|..] == Join(rows, "\n");
  }

  /** Row `i` of the body belongs to the `i`-th oldest entry. */
  lemma RowsInCreationOrder(t: Table, formatDate: int -> string, i: int, j: int)
    requires 0 <= i < j < |t.rows|
    ensures OrderByCreatedAt(t.rows)[i].createdAt <= OrderByCreatedAt(t.rows)[j].createdAt
    ensures Rows(OrderByCreatedAt(t.rows), formatDate)[i] == Row(OrderByCreatedAt(t.rows)[i], formatDate)
  {
  }

  /** Quotes are not escaped: an email containing `","` adds a field
      separator to its row. */
  lemma UnescapedQuoteSplitsRow(e: Entry, formatDate: int -> string, i: nat)
    requires OccursAt(e.email, "\",\"", i)
    ensures OccursAt(Row(e, formatDate), "\",\"", i + 1)
    ensures OccursAt(Row(e, formatDate), "\",\"", |e.email| + 1)
  {
    var row := Row(e, formatDate);
    assert row[1..1 + |e.email|] == e.email;
    assert row[i + 1..i + 4] == e.email[i..i + 3];
    assert row[|e.email| + 1..|e.email| + 4] == "\",\"";
  }
}
