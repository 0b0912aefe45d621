/** The in-memory sliding-log limiter of the signup route: per client key, the
    timestamps (milliseconds) of the requests it admitted in the last minute. */
module RateLimit {

  const RATE_LIMIT: nat := 3
  const WINDOW_MS: int := 60 * 1000

  /** `timestamps.filter(ts => now - ts < WINDOW_MS)`: the timestamps younger
      than the window, in their original order. */
  function Recent(ts: seq<int>, now: int): (r: seq<int>)
    ensures |r| <= |ts|
    ensures forall x :: x in r <==> x in ts && now - x < WINDOW_MS
  {
    if |ts| == 0 then []
    else
      var last := ts[|ts| - 1];
      var init := Recent(ts[..|ts| - 1], now);
      assert ts == ts[..|ts| - 1] + [last];
      init + (if now - last < WINDOW_MS then [last] else [])
  }

  /** One call for one key: prune, then reject without recording when the
      limit is reached, else record `now`. Returns whether the call was
      rejected and the list stored for the key afterwards. */
  function Step(stored: seq<int>, now: int): (r: (bool, seq<int>))
    ensures r.0 <==> |Recent(stored, now)| >= RATE_LIMIT
    ensures r.0 ==> r.1 == Recent(stored, now)
    ensures !r.0 ==> r.1 == Recent(stored, now) + [now]
    ensures forall x :: x in r.1 ==> now - x < WINDOW_MS
    ensures |stored| <= RATE_LIMIT ==> |r.1| <= RATE_LIMIT
  {
    var recent := Recent(stored, now);
    if |recent| >= RATE_LIMIT then (true, recent) else (false, recent + [now])
  }

  /** `rateLimitMap.get(ip) || []`: an unknown key reads as no timestamps, and a
      key reads no more timestamps than any key of the map holds. */
  function Lookup(log: map<string, seq<int>>, key: string): (r: seq<int>)
    ensures key !in log ==> r == []
    ensures key in log ==> r == log[key]
    ensures (forall k :: k in log ==> |log[k]| <= RATE_LIMIT) ==> |r| <= RATE_LIMIT
  {
    if key in log then log[key] else []
  }

  /** `isRateLimited` over the whole map: only the caller's key changes. */
  function Admit(log: map<string, seq<int>>, key: string, now: int): (r: (bool, map<string, seq<int>>))
    ensures r.0 <==> |Recent(Lookup(log, key), now)| >= RATE_LIMIT
    ensures r.1.Keys == log.Keys + {key}
    ensures forall k :: k in log && k != key ==> r.1[k] == log[k]
    ensures r.0 ==> r.1[key] == Recent(Lookup(log, key), now)
    ensures !r.0 ==> r.1[key] == Recent(Lookup(log, key), now) + [now]
  {
    var (limited, stored) := Step(Lookup(log, key), now);
    (limited, log[key := stored])
  }

  /** The limiter keeps the module-level map and updates it in place. */
  class RateLimiter {
    var log: map<string, seq<int>>

    /** No key ever holds more than `RATE_LIMIT` timestamps. */
    ghost predicate Valid()
      reads this
    {
      forall k :: k in log ==> |log[k]| <= RATE_LIMIT
    }

    constructor ()
      ensures Valid() && log == map[]
    {
      log := map[];
    }

    method IsRateLimited(ip: string, now: int) returns (limited: bool)
      requires Valid()
      modifies this
      ensures Valid()
      ensures (limited, log) == Admit(old(log), ip, now)
    {
      var timestamps := Lookup(log, ip);
      var recent := Recent(timestamps, now);
      if |recent| >= RATE_LIMIT {
        log := log[ip := recent];
        return true;
      }
      recent := recent + [now];
      log := log[ip := recent];
      return false;
    }
  }

  /** Pruning is strict: a timestamp exactly one window old is dropped. */
  lemma ExactlyOneWindowOldIsDropped(stored: seq<int>, now: int)
    ensures now - WINDOW_MS !in Step(stored, now).1
  {
  }

  // Properties of a sequence of calls for one key.

  predicate NonDecreasing(times: seq<int>) {
    forall i, j :: 0 <= i < j < |times| ==> times[i] <= times[j]
  }

  /** The answers to calls made at `times` for one key, starting from the
      stored list `stored`, and the list stored at the end. */
  function Replay(stored: seq<int>, times: seq<int>): (r: (seq<bool>, seq<int>))
    ensures |r.0| == |times|
  {
    if |times| == 0 then ([], stored)
    else
      var (answers, st) := Replay(stored, times[..|times| - 1]);
      var (limited, st') := Step(st, times[|times| - 1]);
      (answers + [limited], st')
  }

  /** The times of the calls that were admitted (answered `false`). */
  function Admitted(times: seq<int>, limited: seq<bool>): seq<int>
    requires |times| == |limited|
  {
    if |times| == 0 then []
    else
      Admitted(times[..|times| - 1], limited[..|times| - 1])
        + (if limited[|times| - 1] then [] else [times[|times| - 1]])
  }

  /** How many of `s` lie in `[lo, hi)`. */
  function CountIn(s: seq<int>, lo: int, hi: int): nat {
    if |s| == 0 then 0
    else CountIn(s[..|s| - 1], lo, hi) + (if lo <= s[|s| - 1] < hi then 1 else 0)
  }

  lemma {:induction false} RecentTwice(s: seq<int>, n1: int, n2: int)
    requires n1 <= n2
    ensures Recent(Recent(s, n1), n2) == Recent(s, n2)
  {
    if |s| > 0 {
      var init := s[..|s| - 1];
      var x := s[|s| - 1];
      RecentTwice(init, n1, n2);
      var tail := if n1 - x < WINDOW_MS then [x] else [];
      assert Recent(s, n1) == Recent(init, n1) + tail;
      RecentOfConcat(Recent(init, n1), tail, n2);
    }
  }

  lemma {:induction false} RecentOfConcat(a: seq<int>, b: seq<int>, now: int)
    ensures Recent(a + b, now) == Recent(a, now) + Recent(b, now)
    decreases |b|
  {
    if |b| == 0 {
      assert a + b == a;
    } else {
      var init := b[..|b| - 1];
      var x := b[|b| - 1];
      assert (a + b)[..|a + b| - 1] == a + init;
      RecentOfConcat(a, init, now);
    }
  }

  /** Starting from a key with nothing stored, with calls in time order, the
      stored list is exactly the admitted times of the last window, and never
      holds more than `RATE_LIMIT` of them. */
  lemma {:induction false} ReplayStoresRecentAdmissions(times: seq<int>)
    requires |times| >= 1 && NonDecreasing(times)
    ensures Replay([], times).1 == Recent(Admitted(times, Replay([], times).0), times[|times| - 1])
    ensures |Replay([], times).1| <= RATE_LIMIT
  {
    var n := |times|;
    var now := times[n - 1];
    var init := times[..n - 1];
    assert times == init + [now];
    ReplayAppend([], init, now);
    var (answers, st) := Replay([], init);
    var (limited, st') := Step(st, now);
    assert (answers + [limited])[..n - 1] == answers;
    var before := Admitted(init, answers);
    assert Admitted(times, answers + [limited]) == before + (if limited then [] else [now]);
    if n == 1 {
      AdmitYoung([], now);
      assert before == [];
      RecentKeepsYoung([now], now);
    } else {
      ReplayStoresRecentAdmissions(init);
      assert st == Recent(before, times[n - 2]);
      RecentTwice(before, times[n - 2], now);
      if !limited {
        RecentOfConcat(before, [now], now);
        RecentKeepsYoung([now], now);
      } else {
        assert before + [] == before;
      }
    }
  }

  lemma {:induction false} CountInAtMostRecent(s: seq<int>, lo: int, hi: int, now: int)
    requires lo > now - WINDOW_MS
    ensures CountIn(s, lo, hi) <= |Recent(s, now)|
  {
    if |s| > 0 {
      CountInAtMostRecent(s[..|s| - 1], lo, hi, now);
    }
  }

  /** The limiter's promise: starting from a key with nothing stored and with
      calls in time order, no interval of one window length contains more than
      `RATE_LIMIT` admitted calls. */
  lemma {:induction false} AtMostLimitPerWindow(times: seq<int>, start: int)
    requires NonDecreasing(times)
    ensures CountIn(Admitted(times, Replay([], times).0), start, start + WINDOW_MS) <= RATE_LIMIT
  {
    var n := |times|;
    if n > 0 {
      var now := times[n - 1];
      var init := times[..n - 1];
      var answers := Replay([], init).0;
      var limited := Step(Replay([], init).1, now).0;
      assert Replay([], times).0 == answers + [limited];
      assert (answers + [limited])[..n - 1] == answers;
      var all := Admitted(times, answers + [limited]);
      AtMostLimitPerWindow(init, start);
      if !limited && start <= now < start + WINDOW_MS {
        ReplayStoresRecentAdmissions(times);
        CountInAtMostRecent(all, start, start + WINDOW_MS, now);
      } else {
        assert all == Admitted(init, answers) + (if limited then [] else [now]);
        if !limited {
          assert all[..|all| - 1] == Admitted(init, answers);
        } else {
          assert all == Admitted(init, answers);
        }
      }
    }
  }

  /** When every stored timestamp is younger than the window, pruning keeps
      them all. */
  lemma {:induction false} RecentKeepsYoung(ts: seq<int>, now: int)
    requires forall k :: 0 <= k < |ts| ==> now - ts[k] < WINDOW_MS
    ensures Recent(ts, now) == ts
  {
    if |ts| > 0 {
      RecentKeepsYoung(ts[..|ts| - 1], now);
      assert ts[..|ts| - 1] + [ts[|ts| - 1]] == ts;
    }
  }

  /** One more call extends the answers by that call's answer. */
  lemma ReplayAppend(stored: seq<int>, times: seq<int>, t: int)
    ensures Replay(stored, times + [t]).0 == Replay(stored, times).0 + [Step(Replay(stored, times).1, t).0]
    ensures Replay(stored, times + [t]).1 == Step(Replay(stored, times).1, t).1
  {
    assert (times + [t])[..|times|] == times;
  }

  /** A call finding fewer than `RATE_LIMIT` stored timestamps, all younger
      than the window, is admitted and appended. */
  lemma AdmitYoung(stored: seq<int>, now: int)
    requires |stored| < RATE_LIMIT
    requires forall k :: 0 <= k < |stored| ==> now - stored[k] < WINDOW_MS
    ensures !Step(stored, now).0 && Step(stored, now).1 == stored + [now]
  {
    RecentKeepsYoung(stored, now);
  }

  /** Three calls within one window, from a key with nothing stored, are all
      admitted and all stored. */
  lemma ThreeAdmitted(t1: int, t2: int, t3: int)
    requires t1 <= t2 <= t3 && t3 - t1 < WINDOW_MS
    ensures Replay([], [t1, t2, t3]).0 == [false, false, false]
    ensures Replay([], [t1, t2, t3]).1 == [t1, t2, t3]
  {
    var e: seq<int> := [];
    ReplayAppend([], e, t1);
    AdmitYoung([], t1);
    assert e + [t1] == [t1];
    assert Replay([], [t1]).0 == [false] && Replay([], [t1]).1 == [t1];
    ReplayAppend([], [t1], t2);
    AdmitYoung([t1], t2);
    assert [t1] + [t2] == [t1, t2];
    assert Replay([], [t1, t2]).0 == [false, false] && Replay([], [t1, t2]).1 == [t1, t2];
    ReplayAppend([], [t1, t2], t3);
    AdmitYoung([t1, t2], t3);
    assert [t1, t2] + [t3] == [t1, t2, t3];
  }

  /** Three calls in one window are admitted, a fourth in the same window is
      rejected, and a call one full window after the first is admitted. */
  lemma ThreeAdmittedFourthRejected(t1: int, t2: int, t3: int, t4: int, t5: int)
    requires t1 <= t2 <= t3 <= t4 <= t5
    requires t4 - t1 < WINDOW_MS
    requires t5 - t1 >= WINDOW_MS
    ensures Replay([], [t1, t2, t3, t4, t5]).0 == [false, false, false, true, false]
  {
    ThreeAdmitted(t1, t2, t3);
    ReplayAppend([], [t1, t2, t3], t4);
    RecentKeepsYoung([t1, t2, t3], t4);
    assert [t1, t2, t3] + [t4] == [t1, t2, t3, t4];
    assert Replay([], [t1, t2, t3, t4]).0 == [false, false, false, true];
    assert Replay([], [t1, t2, t3, t4]).1 == [t1, t2, t3];
    ReplayAppend([], [t1, t2, t3, t4], t5);
    assert [t1, t2, t3, t4] + [t5] == [t1, t2, t3, t4, t5];
    assert |Recent([t1, t2, t3], t5)| < RATE_LIMIT by {
      RecentOfConcat([t1], [t2, t3], t5);
      assert [t1] + [t2, t3] == [t1, t2, t3];
      assert Recent([t1], t5) == Recent([], t5) + [];
    }
  }
}
