/** The pacing of the subscribe task: how many of its calls can fall into one minute. */
module Pacing {

  const MINUTE := 60_000

  /** `cBinanceLimitRequestsPerMin`. */
  const LIMIT := 120

  /** `cTimeoutMs` as computed from a limit; below 60 the constant expression divides by zero. */
  function TimeoutMs(limit: nat): nat
    requires limit >= 60
  {
    1000 / (limit / 60)
  }

  /** Successive times at least `gap` apart. */
  ghost predicate Spaced(times: seq<nat>, gap: nat) {
    forall k :: 0 < k < |times| ==> times[k - 1] + gap <= times[k]
  }

  /** How many of the times lie in the half-open window from `from` to `to`. */
  function CountIn(times: seq<nat>, from: int, to: int): (n: nat)
    ensures n <= |times|
  {
    if times == [] then 0
    else (if from <= times[0] < to then 1 else 0) + CountIn(times[1..], from, to)
  }

  lemma SpacedTail(times: seq<nat>, gap: nat)
    requires Spaced(times, gap) && times != []
    ensures Spaced(times[1..], gap)
    ensures |times| > 1 ==> times[0] + gap <= times[1..][0]
  {
  }

  /** Moving the start of the window up to the first time changes nothing. */
  lemma {:induction false} CountFrom(times: seq<nat>, gap: nat, low: int, from: int, to: int)
    requires Spaced(times, gap) && low <= from && (times == [] || from <= times[0])
    ensures CountIn(times, low, to) == CountIn(times, from, to)
    decreases |times|
  {
    if times != [] {
      SpacedTail(times, gap);
      CountFrom(times[1..], gap, low, from, to);
    }
  }

  lemma {:induction false} NoneAfter(times: seq<nat>, gap: nat, from: int, to: int)
    requires Spaced(times, gap) && (times == [] || to <= times[0])
    ensures CountIn(times, from, to) == 0
    decreases |times|
  {
    if times != [] {
      SpacedTail(times, gap);
      NoneAfter(times[1..], gap, from, to);
    }
  }

  /** `n` times in a window span less than its length. */
  lemma {:induction false} WindowHolds(times: seq<nat>, gap: nat, from: int, to: int)
    requires Spaced(times, gap)
    ensures CountIn(times, from, to) > 0 ==> (CountIn(times, from, to) - 1) * gap < to - from
    decreases |times|
  {
    if times == [] {
    } else if times[0] < from {
      SpacedTail(times, gap);
      WindowHolds(times[1..], gap, from, to);
    } else if times[0] >= to {
      NoneAfter(times, gap, from, to);
    } else {
      SpacedTail(times, gap);
      var next := times[0] + gap;
      CountFrom(times[1..], gap, from, next, to);
      WindowHolds(times[1..], gap, next, to);
      var n := CountIn(times[1..], next, to);
      if n > 0 {
        assert (n - 1) * gap + gap == n * gap;
      }
    }
  }

  /** `n` times, `gap` apart, starting at `first`. */
  function Regular(first: nat, n: nat, gap: nat): (times: seq<nat>)
    ensures |times| == n
    decreases n
    ensures Spaced(times, gap) && (n > 0 ==> times[0] == first)
  {
    if n == 0 then []
    else
      var rest := Regular(first + gap, n - 1, gap);
      assert forall k :: 0 < k < n ==> ([first] + rest)[k] == rest[k - 1];
      [first] + rest
  }

  lemma {:induction false} RegularFits(first: nat, n: nat, gap: nat, from: nat, to: nat)
    requires from <= first && (n > 0 ==> first + (n - 1) * gap < to)
    ensures CountIn(Regular(first, n, gap), from, to) == n
    decreases n
  {
    if n > 0 {
      assert (n - 1) * gap == (n - 2) * gap + gap;
      if n > 1 {
        assert (n - 2) * gap >= 0;
      }
      RegularFits(first + gap, n - 1, gap, from, to);
      assert Regular(first, n, gap)[1..] == Regular(first + gap, n - 1, gap);
    }
  }

  /** The times in the minute that begins at `from`. */
  function InMinute(times: seq<nat>, from: nat): nat {
    CountIn(times, from, from + MINUTE)
  }

  ghost predicate KeepsLimit(limit: nat)
    requires limit >= 60
  {
    forall times, from: nat :: Spaced(times, TimeoutMs(limit)) ==> InMinute(times, from) <= limit
  }

  lemma MoreThanLimit(n: nat, limit: nat, gap: nat)
    requires n > limit
    ensures (n - 1) * gap >= limit * gap
  {
  }

  lemma CoveredIsKept(limit: nat)
    requires limit >= 60 && limit * TimeoutMs(limit) >= MINUTE
    ensures KeepsLimit(limit)
  {
    var gap := TimeoutMs(limit);
    forall times, from: nat | Spaced(times, gap)
      ensures InMinute(times, from) <= limit
    {
      WindowHolds(times, gap, from, from + MINUTE);
      if InMinute(times, from) > limit {
        MoreThanLimit(InMinute(times, from), limit, gap);
      }
    }
  }

  lemma UncoveredIsExceeded(limit: nat)
    requires limit >= 60 && limit * TimeoutMs(limit) < MINUTE
    ensures !KeepsLimit(limit)
  {
    var times := Regular(0, limit + 1, TimeoutMs(limit));
    RegularFits(0, limit + 1, TimeoutMs(limit), 0, MINUTE);
    assert InMinute(times, 0) > limit;
  }

  /** Sleeping `TimeoutMs(limit)` keeps every minute within the limit exactly when the product of the
      two covers the minute: the integer divisions can lose too much. */
  lemma PacingIsExact(limit: nat)
    requires limit >= 60
    ensures KeepsLimit(limit) <==> limit * TimeoutMs(limit) >= MINUTE
  {
    if limit * TimeoutMs(limit) >= MINUTE {
      CoveredIsKept(limit);
    } else {
      UncoveredIsExceeded(limit);
    }
  }

  /** In particular when the limit per second divides 1000, as the configured one does. */
  lemma DividingLimitsAreKept(limit: nat)
    requires limit >= 60 && 1000 % (limit / 60) == 0
    ensures KeepsLimit(limit)
  {
    var q := limit / 60;
    assert q * TimeoutMs(limit) == 1000;
    assert limit * TimeoutMs(limit) == 60 * (q * TimeoutMs(limit)) + limit % 60 * TimeoutMs(limit);
    PacingIsExact(limit);
  }

  lemma ConfiguredLimitIsKept()
    ensures TimeoutMs(LIMIT) == 500 && KeepsLimit(LIMIT)
  {
    DividingLimitsAreKept(LIMIT);
  }

  /** A limit of 180 a minute would be exceeded. */
  lemma RoundedLimitIsExceeded()
    ensures !KeepsLimit(180)
  {
    PacingIsExact(180);
  }
}
