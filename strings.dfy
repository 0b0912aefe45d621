/** String helpers with the JavaScript meaning the routes and pages rely on:
    `startsWith`, `endsWith`, `includes`, `indexOf`, `split` with a string
    separator, `join`, and an ASCII `toLowerCase`. */
module Strings {
  import opened Wrappers

  predicate StartsWith(s: string, prefix: string) {
    |prefix| <= |s| && s[..|prefix|] == prefix
  }

  /** `s.endsWith(suffix)`: the last `|suffix|` characters are those of
      `suffix`, one by one. */
  predicate EndsWith(s: string, suffix: string): (b: bool)
    ensures b <==> |suffix| <= |s| && forall k :: 0 <= k < |suffix| ==> s[|s| - |suffix| + k] == suffix[k]
  {
    |suffix| <= |s| && s[|s| - |suffix|..] == suffix
  }

  /** `pat` occurs in `s` starting at index `i`. */
  predicate OccursAt(s: string, pat: string, i: int) {
    0 <= i && i + |pat| <= |s| && s[i..i + |pat|] == pat
  }

  /** `s.indexOf(pat)`: the first index at which `pat` occurs, if any. */
  function IndexOf(s: string, pat: string): (r: Option<nat>)
    ensures r.Some? ==> OccursAt(s, pat, r.value)
    ensures r.Some? ==> forall j :: 0 <= j < r.value ==> !OccursAt(s, pat, j)
    ensures r.None? ==> forall j :: !OccursAt(s, pat, j)
    decreases |s|
  {
    if StartsWith(s, pat) then Some(0)
    else if |s| == 0 then None
    else
      var rest := IndexOf(s[1..], pat);
      assert forall j :: 1 <= j && OccursAt(s, pat, j) ==> OccursAt(s[1..], pat, j - 1) by {
        forall j | 1 <= j && OccursAt(s, pat, j) ensures OccursAt(s[1..], pat, j - 1) {
          assert s[1..][j - 1..j - 1 + |pat|] == s[j..j + |pat|];
        }
      }
      match rest
      case None => None
      case Some(k) =>
        assert s[k + 1..k + 1 + |pat|] == s[1..][k..k + |pat|];
        Some(k + 1)
  }

  /** `s.includes(pat)`. */
  predicate Includes(s: string, pat: string): (b: bool)
    ensures b <==> exists i :: OccursAt(s, pat, i)
  {
    assert IndexOf(s, pat).Some? ==> OccursAt(s, pat, IndexOf(s, pat).value);
    IndexOf(s, pat).Some?
  }

  /** `includes` is `indexOf(pat) !== -1`: it holds exactly when a first
      occurrence exists, and that occurrence fits inside `s`. */
  lemma IncludesIff(s: string, pat: string)
    ensures Includes(s, pat) <==> IndexOf(s, pat).Some?
    ensures Includes(s, pat) ==> IndexOf(s, pat).value + |pat| <= |s|
  {
    if Includes(s, pat) {
      assert OccursAt(s, pat, IndexOf(s, pat).value);
    }
  }

  /** The empty pattern is included in every string. */
  lemma IncludesEmpty(s: string)
    ensures Includes(s, "")
  {
    assert OccursAt(s, "", 0);
  }

  /** `s.split(sep)` for a non-empty string separator: the pieces between the
      non-overlapping occurrences of `sep`, found left to right. */
  function Split(s: string, sep: string): (parts: seq<string>)
    requires |sep| > 0
    ensures |parts| >= 1
    decreases |s|
  {
    match IndexOf(s, sep)
    case None => [s]
    case Some(i) => [s[..i]] + Split(s[i + |sep|..], sep)
  }

  /** `parts.join(sep)`; joining nothing gives the empty string. */
  function Join(parts: seq<string>, sep: string): (r: string)
    ensures |parts| == 0 ==> r == ""
    ensures |parts| >= 1 ==> StartsWith(r, parts[0])
    ensures |parts| >= 2 ==> OccursAt(r, sep, |parts[0]|)
  {
    if |parts| == 0 then ""
    else if |parts| == 1 then parts[0]
    else
      var r := parts[0] + sep + Join(parts[1..], sep);
      assert r[..|parts[0]|] == parts[0];
      assert r[|parts[0]|..|parts[0]| + |sep|] == sep;
      r
  }

  /** The text before the first `c` (all of `s` when there is none); this is
      `s.split(c)[0]`, which is also `s.split(c).shift()`. */
  function TakeUntil(s: string, c: char): (r: string)
    ensures |r| <= |s| && r == s[..|r|]
    ensures c !in r
    ensures |r| < |s| ==> s[|r|] == c
  {
    if |s| == 0 || s[0] == c then "" else [s[0]] + TakeUntil(s[1..], c)
  }

  /** The text before `c` is exactly the part ahead of its first occurrence. */
  lemma {:induction false} TakeUntilStopsAtFirst(d: string, c: char, rest: string)
    requires c !in d
    ensures TakeUntil(d + [c] + rest, c) == d
  {
    if |d| == 0 {
      assert d + [c] + rest == [c] + rest;
    } else {
      assert (d + [c] + rest)[1..] == d[1..] + [c] + rest;
      TakeUntilStopsAtFirst(d[1..], c, rest);
      assert [d[0]] + d[1..] == d;
    }
  }

  lemma TakeUntilIsFirstSplitPiece(s: string, c: char)
    ensures TakeUntil(s, c) == Split(s, [c])[0]
  {
    var t := TakeUntil(s, c);
    if |t| < |s| {
      assert OccursAt(s, [c], |t|);
      assert forall j :: 0 <= j < |t| ==> !OccursAt(s, [c], j) by {
        forall j | 0 <= j < |t| ensures !OccursAt(s, [c], j) {
          assert s[j] == t[j];
        }
      }
    } else {
      assert t == s;
      forall j | 0 <= j < |s| ensures !OccursAt(s, [c], j) {
        assert s[j..j + 1][0] == t[j];
      }
    }
  }

  /** A string with no occurrence of `sep` splits into itself alone. */
  lemma SplitNoOccurrence(s: string, sep: string)
    requires |sep| > 0
    requires forall j :: !OccursAt(s, sep, j)
    ensures Split(s, sep) == [s]
  {
  }

  /** An occurrence at `i` in the remainder after a match at `k` is one at
      `k + |sep| + i` in the whole string. */
  lemma OccursInRest(s: string, sep: string, k: nat, i: nat)
    requires k + |sep| <= |s|
    ensures OccursAt(s[k + |sep|..], sep, i) <==> OccursAt(s, sep, k + |sep| + i)
  {
    var n := k + |sep|;
    if i + |sep| <= |s| - n {
      assert s[n..][i..i + |sep|] == s[n + i..n + i + |sep|];
    }
  }

  /** A string in which `sep` occurs exactly once, at `i`, splits into the text
      before and the text after that occurrence. */
  lemma SplitUnique(s: string, sep: string, i: nat)
    requires |sep| > 0
    requires OccursAt(s, sep, i)
    requires forall j :: OccursAt(s, sep, j) ==> j == i
    ensures Split(s, sep) == [s[..i], s[i + |sep|..]]
  {
    assert IndexOf(s, sep) == Some(i);
    var rest := s[i + |sep|..];
    forall j | 0 <= j ensures !OccursAt(rest, sep, j) {
      OccursInRest(s, sep, i, j);
    }
    SplitNoOccurrence(rest, sep);
  }

  /** Any occurrence of `sep` gives at least two pieces. */
  lemma SplitOccurrence(s: string, sep: string, i: int)
    requires |sep| > 0
    requires OccursAt(s, sep, i)
    ensures |Split(s, sep)| >= 2
  {
  }

  /** The first occurrence is at or before any occurrence. */
  lemma IndexOfAtMost(s: string, sep: string, i: int)
    requires OccursAt(s, sep, i)
    ensures IndexOf(s, sep).Some? && IndexOf(s, sep).value <= i
  {
  }

  /** Exactly two pieces: the separator occurs, and the second piece is all
      the text after its first occurrence. */
  lemma SplitInTwo(s: string, sep: string)
    requires |sep| > 0 && |Split(s, sep)| == 2
    ensures IndexOf(s, sep).Some? && IndexOf(s, sep).value + |sep| <= |s|
    ensures Split(s, sep)[1] == s[IndexOf(s, sep).value + |sep|..]
  {
    assert IndexOf(s, sep).Some?;
    var k := IndexOf(s, sep).value;
    var rest := s[k + |sep|..];
    assert Split(s, sep) == [s[..k]] + Split(rest, sep);
    assert IndexOf(rest, sep).None?;
  }

  /** When `sep` occurs, the first piece ends at its first occurrence. */
  lemma SplitAtFirst(s: string, sep: string)
    requires |sep| > 0 && IndexOf(s, sep).Some?
    ensures IndexOf(s, sep).value + |sep| <= |s|
    ensures Split(s, sep) == [s[..IndexOf(s, sep).value]] + Split(s[IndexOf(s, sep).value + |sep|..], sep)
  {
    var k := IndexOf(s, sep).value;
    assert OccursAt(s, sep, k);
  }

  /** Two occurrences that do not overlap give at least three pieces. */
  lemma SplitTwoOccurrences(s: string, sep: string, i: int, j: int)
    requires |sep| > 0
    requires OccursAt(s, sep, i) && OccursAt(s, sep, j) && i + |sep| <= j
    ensures |Split(s, sep)| >= 3
  {
    IndexOfAtMost(s, sep, i);
    SplitAtFirst(s, sep);
    var k := IndexOf(s, sep).value;
    var rest := s[k + |sep|..];
    OccursInRest(s, sep, k, j - k - |sep|);
    SplitOccurrence(rest, sep, j - k - |sep|);
  }

  /** Splitting a joined sequence on a one-character separator that no piece
      contains gives the pieces back. */
  lemma {:induction false} SplitJoin(parts: seq<string>, c: char)
    requires |parts| >= 1
    requires forall k :: 0 <= k < |parts| ==> c !in parts[k]
    ensures Split(Join(parts, [c]), [c]) == parts
  {
    if |parts| == 1 {
      forall j | 0 <= j < |parts[0]| ensures !OccursAt(parts[0], [c], j) {
        assert parts[0][j..j + 1][0] == parts[0][j];
      }
      SplitNoOccurrence(parts[0], [c]);
    } else {
      var s := Join(parts, [c]);
      var p := parts[0];
      assert s == p + [c] + Join(parts[1..], [c]);
      assert OccursAt(s, [c], |p|);
      forall j | 0 <= j < |p| ensures !OccursAt(s, [c], j) {
        assert s[j] == p[j];
      }
      assert IndexOf(s, [c]) == Some(|p|);
      assert s[..|p|] == p;
      assert s[|p| + 1..] == Join(parts[1..], [c]);
      SplitJoin(parts[1..], c);
      assert [p] + parts[1..] == parts;
    }
  }

  /** `toLowerCase` restricted to ASCII letters. */
  function LowerChar(c: char): char {
    if 'A' <= c <= 'Z' then (c as int + 32) as char else c
  }

  function Lower(s: string): (r: string)
    ensures |r| == |s|
    ensures forall i :: 0 <= i < |s| ==> r[i] == LowerChar(s[i])
  {
    seq(|s|, i requires 0 <= i < |s| => LowerChar(s[i]))
  }

  lemma LowerIdempotent(s: string)
    ensures Lower(Lower(s)) == Lower(s)
  {
  }
}
