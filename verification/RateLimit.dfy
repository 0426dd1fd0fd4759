/** The sliding-window rate limiter (middleware/rate_limit.rs). Times are nanoseconds. */
module RateLimit {
  const SECOND: nat := 1_000_000_000

  /** `Instant::duration_since`, which is zero rather than negative. */
  function Elapsed(now: int, earlier: int): nat {
    if now <= earlier then 0 else now - earlier
  }

  function Pruned(times: seq<int>, now: int, window: nat): seq<int> {
    if times != [] && Elapsed(now, times[0]) > window then Pruned(times[1..], now, window) else times
  }

  /** One check of one address. */
  function Checked(times: seq<int>, now: int, max: nat, window: nat): seq<int> {
    var kept := Pruned(times, now, window);
    if |kept| >= max then kept else kept + [now]
  }

  type Requests = map<string, seq<int>>

  function TimesOf(requests: Requests, ip: string): seq<int> {
    if ip in requests then requests[ip] else []
  }

  class RateLimiter {
    const maxRequests: nat
    const windowSecs: nat
    var requests: Requests

    constructor (maxRequests: nat, windowSecs: nat)
      ensures requests == map[] && this.maxRequests == maxRequests && this.windowSecs == windowSecs
    {
      this.maxRequests := maxRequests;
      this.windowSecs := windowSecs;
      requests := map[];
    }

    method Check(ip: string, now: int) returns (accepted: bool)
      modifies this
      ensures requests == old(requests)[ip := Checked(TimesOf(old(requests), ip), now, maxRequests, windowSecs * SECOND)]
      ensures accepted <==> |Pruned(TimesOf(old(requests), ip), now, windowSecs * SECOND)| < maxRequests
    {
      var window := windowSecs * SECOND;
      var timestamps := TimesOf(requests, ip);
      while timestamps != [] && Elapsed(now, timestamps[0]) > window
        invariant Pruned(timestamps, now, window) == Pruned(TimesOf(old(requests), ip), now, window)
        decreases |timestamps|
      {
        timestamps := timestamps[1..];
      }
      accepted := |timestamps| < maxRequests;
      if accepted {
        timestamps := timestamps + [now];
      }
      requests := requests[ip := timestamps];
    }
  }

  /* --------------------------------------------------------- one address's history */

  /** The deque, and every time a request was accepted. */
  datatype Log = Log(times: seq<int>, accepted: seq<int>)

  function Run(readings: seq<int>, max: nat, window: nat): Log {
    if readings == [] then Log([], [])
    else
      var before := Run(readings[..|readings| - 1], max, window);
      var now := readings[|readings| - 1];
      var kept := Pruned(before.times, now, window);
      Log(Checked(before.times, now, max, window), if |kept| >= max then before.accepted else before.accepted + [now])
  }

  ghost predicate NonDecreasing(s: seq<int>) {
    forall i, j | 0 <= i < j < |s| :: s[i] <= s[j]
  }

  /** The accepted times in a closed interval. */
  function Between(s: seq<int>, low: int, high: int): seq<int> {
    if s == [] then []
    else
      var n := |s| - 1;
      Between(s[..n], low, high) + if low <= s[n] <= high then [s[n]] else []
  }

  /** Nothing after `now`, in order, and the deque the part of it the last pruning left. */
  ghost predicate Inv(log: Log, now: int) {
    && NonDecreasing(log.accepted)
    && (forall i | 0 <= i < |log.accepted| :: log.accepted[i] <= now)
    && |log.times| <= |log.accepted|
    && log.times == log.accepted[|log.accepted| - |log.times|..]
  }

  lemma BetweenAppend(s: seq<int>, x: int, low: int, high: int)
    ensures Between(s + [x], low, high) == Between(s, low, high) + if low <= x <= high then [x] else []
  {
    assert (s + [x])[..|s|] == s;
  }

  lemma {:induction false} BetweenAll(s: seq<int>, low: int, high: int)
    requires forall i | 0 <= i < |s| :: low <= s[i] <= high
    ensures Between(s, low, high) == s
    decreases |s|
  {
    if s != [] {
      BetweenAll(s[..|s| - 1], low, high);
      assert s == s[..|s| - 1] + [s[|s| - 1]];
    }
  }

  ghost predicate NoneWithin(s: seq<int>, low: int, high: int) {
    forall i | 0 <= i < |s| :: !(low <= s[i] <= high)
  }

  ghost predicate UpTo(s: seq<int>, high: int) {
    forall i | 0 <= i < |s| :: s[i] <= high
  }

  lemma {:induction false} BetweenNone(s: seq<int>, low: int, high: int)
    requires NoneWithin(s, low, high)
    ensures Between(s, low, high) == []
    decreases |s|
  {
    if s != [] {
      BetweenNone(s[..|s| - 1], low, high);
    }
  }

  lemma {:induction false} BetweenConcat(a: seq<int>, b: seq<int>, low: int, high: int)
    ensures Between(a + b, low, high) == Between(a, low, high) + Between(b, low, high)
    decreases |b|
  {
    if b == [] {
      assert a + b == a;
    } else {
      var n := |b| - 1;
      assert a + b == (a + b[..n]) + [b[n]];
      BetweenAppend(a + b[..n], b[n], low, high);
      BetweenConcat(a, b[..n], low, high);
    }
  }

  lemma BetweenPastNone(a: seq<int>, b: seq<int>, low: int, high: int)
    requires NoneWithin(a, low, high)
    ensures Between(a + b, low, high) == Between(b, low, high)
  {
    BetweenConcat(a, b, low, high);
    BetweenNone(a, low, high);
    assert [] + Between(b, low, high) == Between(b, low, high);
  }

  /** Pruning drops from the front exactly the times that are too old. */
  lemma {:induction false} PrunedIsRecent(times: seq<int>, now: int, window: nat)
    requires NonDecreasing(times) && UpTo(times, now)
    ensures Pruned(times, now, window) == Between(times, now - window, now)
    decreases |times|
  {
    if times == [] {
    } else if Elapsed(now, times[0]) > window {
      PrunedIsRecent(times[1..], now, window);
      BetweenPastNone([times[0]], times[1..], now - window, now);
      assert times == [times[0]] + times[1..];
    } else {
      BetweenAll(times, now - window, now);
    }
  }

  /** What was pruned before is too old for any later reading. */
  ghost predicate DroppedAreOld(log: Log, now: int, window: nat) {
    forall i | 0 <= i < |log.accepted| - |log.times| :: log.accepted[i] < now - window
  }

  lemma {:induction false} PrunedIsASuffix(times: seq<int>, now: int, window: nat)
    ensures var kept := Pruned(times, now, window);
            |kept| <= |times| && kept == times[|times| - |kept|..]
    ensures forall i | 0 <= i < |times| - |Pruned(times, now, window)| :: Elapsed(now, times[i]) > window
    decreases |times|
  {
    if times != [] && Elapsed(now, times[0]) > window {
      PrunedIsASuffix(times[1..], now, window);
    }
  }

  lemma PrunedAfterDropped(dropped: seq<int>, times: seq<int>, now: int, window: nat)
    requires NonDecreasing(times) && NoneWithin(dropped, now - window, now) && UpTo(times, now)
    ensures Pruned(times, now, window) == Between(dropped + times, now - window, now)
  {
    BetweenPastNone(dropped, times, now - window, now);
    PrunedIsRecent(times, now, window);
  }

  /** The pruned deque is the accepted times of the last closed window. */
  lemma PrunedIsTheWindow(log: Log, last: int, now: int, window: nat)
    requires Inv(log, last) && DroppedAreOld(log, last, window) && last <= now
    ensures Pruned(log.times, now, window) == Between(log.accepted, now - window, now)
  {
    var dropped := DroppedFrom(log, last, now, window);
    PrunedAfterDropped(dropped, log.times, now, window);
  }

  /** What was dropped, and that it was old enough. */
  lemma DroppedFrom(log: Log, last: int, now: int, window: nat) returns (dropped: seq<int>)
    requires Inv(log, last) && DroppedAreOld(log, last, window) && last <= now
    ensures log.accepted == dropped + log.times && NoneWithin(dropped, now - window, now)
    ensures NonDecreasing(log.times) && UpTo(log.times, now)
  {
    var gone := |log.accepted| - |log.times|;
    dropped := log.accepted[..gone];
    forall i | 0 <= i < |log.times| ensures log.times[i] == log.accepted[gone + i] {
    }
  }

  lemma PruningKeepsInv(log: Log, last: int, now: int, window: nat)
    requires Inv(log, last) && DroppedAreOld(log, last, window) && last <= now
    ensures var next := log.(times := Pruned(log.times, now, window));
            Inv(next, now) && DroppedAreOld(next, now, window)
  {
    var kept := Pruned(log.times, now, window);
    PrunedIsASuffix(log.times, now, window);
    var gone := |log.accepted| - |log.times|;
    forall i | 0 <= i < |log.accepted| - |kept| ensures log.accepted[i] < now - window {
      if i >= gone {
        assert log.accepted[i] == log.times[i - gone];
      }
    }
    assert kept == log.accepted[|log.accepted| - |kept|..];
  }

  lemma AcceptingKeepsInv(log: Log, now: int, window: nat)
    requires Inv(log, now) && DroppedAreOld(log, now, window)
    ensures var next := Log(log.times + [now], log.accepted + [now]);
            Inv(next, now) && DroppedAreOld(next, now, window)
  {
  }

  lemma StepKeepsInv(log: Log, last: int, now: int, max: nat, window: nat)
    requires Inv(log, last) && DroppedAreOld(log, last, window) && last <= now
    ensures var kept := Pruned(log.times, now, window);
            var next := Log(Checked(log.times, now, max, window), if |kept| >= max then log.accepted else log.accepted + [now]);
            Inv(next, now) && DroppedAreOld(next, now, window)
  {
    PruningKeepsInv(log, last, now, window);
    AcceptingKeepsInv(log.(times := Pruned(log.times, now, window)), now, window);
  }

  lemma {:induction false} RunKeepsInv(readings: seq<int>, max: nat, window: nat)
    requires NonDecreasing(readings) && readings != []
    ensures Inv(Run(readings, max, window), readings[|readings| - 1])
    ensures DroppedAreOld(Run(readings, max, window), readings[|readings| - 1], window)
    decreases |readings|
  {
    var n := |readings| - 1;
    var before := readings[..n];
    if n == 0 {
      StepKeepsInv(Run(before, max, window), readings[n], readings[n], max, window);
    } else {
      RunKeepsInv(before, max, window);
      StepKeepsInv(Run(before, max, window), before[n - 1], readings[n], max, window);
    }
  }

  /**
   * A request is refused if and only if `max` requests were accepted in the
   * closed window that ends now, and the pruned deque is exactly those.
   */
  lemma RefusedExactlyWhenFull(readings: seq<int>, now: int, max: nat, window: nat)
    requires NonDecreasing(readings + [now])
    ensures var log := Run(readings, max, window);
            && Pruned(log.times, now, window) == Between(log.accepted, now - window, now)
            && (Run(readings + [now], max, window).accepted == log.accepted
                <==> |Between(log.accepted, now - window, now)| >= max)
  {
    var log := Run(readings, max, window);
    assert (readings + [now])[..|readings|] == readings;
    if readings == [] {
      PrunedIsTheWindow(log, now, now, window);
    } else {
      var all, n := readings + [now], |readings|;
      assert all[n - 1] == readings[n - 1] && all[n] == now;
      assert forall i | 0 <= i < n :: all[i] == readings[i];
      RunKeepsInv(readings, max, window);
      PrunedIsTheWindow(log, readings[n - 1], now, window);
    }
    assert log.accepted + [now] != log.accepted;
  }

  // ---- The whole history ----

  /** No reading is more than `late` below an earlier one. */
  ghost predicate AtMostLate(readings: seq<int>, late: nat) {
    forall i, j | 0 <= i < j < |readings| :: readings[j] >= readings[i] - late
  }

  /** The latest reading so far; anything, before the first. */
  function Latest(readings: seq<int>): int {
    if readings == [] then 0
    else if |readings| == 1 then readings[0]
    else
      var before, now := Latest(readings[..|readings| - 1]), readings[|readings| - 1];
      if now >= before then now else before
  }

  lemma {:induction false} LatestIsAReading(readings: seq<int>)
    requires readings != []
    ensures Latest(readings) in readings && forall i | 0 <= i < |readings| :: readings[i] <= Latest(readings)
    decreases |readings|
  {
    if |readings| > 1 {
      var n := |readings| - 1;
      LatestIsAReading(readings[..n]);
      assert readings == readings[..n] + [readings[n]];
    }
  }

  /** The deque is the end of what was accepted, and what is no longer in it is too old for the latest reading. */
  ghost predicate OnlyOldIsGone(log: Log, latest: int, window: nat) {
    && |log.times| <= |log.accepted| && log.times == log.accepted[|log.accepted| - |log.times|..]
    && forall i | 0 <= i < |log.accepted| - |log.times| :: log.accepted[i] < latest - window
  }

  lemma PruningDropsOld(log: Log, before: int, latest: int, now: int, window: nat)
    requires OnlyOldIsGone(log, before, window) && before <= latest && now <= latest
    ensures OnlyOldIsGone(log.(times := Pruned(log.times, now, window)), latest, window)
  {
    var kept := Pruned(log.times, now, window);
    PrunedIsASuffix(log.times, now, window);
    var gone := |log.accepted| - |log.times|;
    forall i | 0 <= i < |log.accepted| - |kept| ensures log.accepted[i] < latest - window {
      if i >= gone {
        assert log.accepted[i] == log.times[i - gone];
      }
    }
    assert kept == log.accepted[|log.accepted| - |kept|..];
  }

  lemma AcceptingDropsNone(log: Log, latest: int, now: int, window: nat)
    requires OnlyOldIsGone(log, latest, window)
    ensures OnlyOldIsGone(Log(log.times + [now], log.accepted + [now]), latest, window)
  {
  }

  lemma CheckDropsOld(log: Log, before: int, latest: int, now: int, max: nat, window: nat)
    requires OnlyOldIsGone(log, before, window) && before <= latest && now <= latest
    ensures var kept := Pruned(log.times, now, window);
            OnlyOldIsGone(Log(Checked(log.times, now, max, window), if |kept| >= max then log.accepted else log.accepted + [now]),
                          latest, window)
  {
    PruningDropsOld(log, before, latest, now, window);
    AcceptingDropsNone(log.(times := Pruned(log.times, now, window)), latest, now, window);
  }

  /** Whatever the order of the readings. */
  lemma {:induction false} RunDropsOld(readings: seq<int>, max: nat, window: nat)
    ensures OnlyOldIsGone(Run(readings, max, window), Latest(readings), window)
    decreases |readings|
  {
    if readings != [] {
      var n := |readings| - 1;
      var log := Run(readings[..n], max, window);
      RunDropsOld(readings[..n], max, window);
      if n == 0 {
        assert OnlyOldIsGone(log, readings[n], window);
        CheckDropsOld(log, readings[n], readings[n], readings[n], max, window);
      } else {
        CheckDropsOld(log, Latest(readings[..n]), Latest(readings), readings[n], max, window);
      }
    }
  }

  lemma BetweenIsPart(s: seq<int>, low: int, high: int)
    ensures |Between(s, low, high)| <= |s|
  {
  }

  /** A window none of whose times has been dropped has room when the deque has. */
  lemma AcceptedFits(log: Log, latest: int, now: int, start: int, length: nat, window: nat)
    requires OnlyOldIsGone(log, latest, window) && latest - window <= start
    ensures |Between(log.accepted + [now], start, start + length)| <= |log.times| + 1
  {
    var gone := |log.accepted| - |log.times|;
    assert log.accepted == log.accepted[..gone] + log.times;
    BetweenPastNone(log.accepted[..gone], log.times, start, start + length);
    BetweenIsPart(log.times, start, start + length);
    BetweenAppend(log.accepted, now, start, start + length);
  }

  /** The request that comes with the last of some readings, when it is accepted. */
  lemma OneMoreFits(readings: seq<int>, start: int, max: nat, window: nat, late: nat)
    requires readings != [] && AtMostLate(readings, late) && late <= window
    requires var n := |readings| - 1;
             && start <= readings[n] <= start + (window - late)
             && |Pruned(Run(readings[..n], max, window).times, readings[n], window)| < max
    ensures var n := |readings| - 1;
            |Between(Run(readings[..n], max, window).accepted + [readings[n]], start, start + (window - late))| <= max
  {
    var n := |readings| - 1;
    var before, now := readings[..n], readings[n];
    var log := Run(before, max, window);
    LatestIsAReading(readings);
    RunDropsOld(before, max, window);
    PruningDropsOld(log, if n == 0 then now else Latest(before), Latest(readings), now, window);
    assert Latest(readings) <= now + late;
    AcceptedFits(log.(times := Pruned(log.times, now, window)), Latest(readings), now, start, window - late, window);
  }

  /**
   * In the whole history no closed interval holds more than `max` accepted
   * requests, if it is as long as the window less what readings may be late;
   * with readings that never go back that is the window itself.
   */
  lemma {:induction false} NeverMoreThanMax(readings: seq<int>, start: int, max: nat, window: nat, late: nat)
    requires AtMostLate(readings, late) && late <= window
    ensures |Between(Run(readings, max, window).accepted, start, start + (window - late))| <= max
    decreases |readings|
  {
    if readings != [] {
      var n := |readings| - 1;
      var accepted := Run(readings[..n], max, window).accepted;
      NeverMoreThanMax(readings[..n], start, max, window, late);
      if |Pruned(Run(readings[..n], max, window).times, readings[n], window)| < max {
        if start <= readings[n] <= start + (window - late) {
          OneMoreFits(readings, start, max, window, late);
        } else {
          BetweenAppend(accepted, readings[n], start, start + (window - late));
        }
      }
    }
  }

  /** One reading that comes late, and three requests fall in one window of ten with a limit of two. */
  lemma OutOfOrderBreaksTheLimit()
    ensures |Between(Run([0, 1, 12, 10], 2, 10).accepted, 0, 10)| == 3
  {
    assert [0, 1, 12, 10][..3] == [0, 1, 12] && [0, 1, 12][..2] == [0, 1] && [0, 1][..1] == [0] && [0][..0] == [];
    assert Run([0], 2, 10) == Log([0], [0]);
    assert Run([0, 1], 2, 10) == Log([0, 1], [0, 1]);
    assert [0, 1][1..] == [1] && [1][1..] == [];
    assert Pruned([0, 1], 12, 10) == [];
    assert Run([0, 1, 12], 2, 10) == Log([12], [0, 1, 12]);
    assert Run([0, 1, 12, 10], 2, 10) == Log([12, 10], [0, 1, 12, 10]);
    BetweenAppend([0, 1, 12], 10, 0, 10);
    BetweenAppend([0, 1], 12, 0, 10);
    BetweenAppend([0], 1, 0, 10);
    BetweenAppend([], 0, 0, 10);
    assert [] + [0] == [0] && [0] + [1] == [0, 1] && [0, 1] + [12] == [0, 1, 12] && [0, 1, 12] + [10] == [0, 1, 12, 10];
  }

  /* ------------------------------------------------------------- all addresses */

  datatype Call = Call(ip: string, now: int)

  function RunAll(calls: seq<Call>, max: nat, window: nat): Requests {
    if calls == [] then map[]
    else
      var before := RunAll(calls[..|calls| - 1], max, window);
      var call := calls[|calls| - 1];
      before[call.ip := Checked(TimesOf(before, call.ip), call.now, max, window)]
  }

  function ReadingsOf(calls: seq<Call>, ip: string): seq<int> {
    if calls == [] then []
    else
      var n := |calls| - 1;
      ReadingsOf(calls[..n], ip) + if calls[n].ip == ip then [calls[n].now] else []
  }

  /** Addresses do not affect each other: each deque is that of its own readings. */
  lemma {:induction false} AddressesAreIndependent(calls: seq<Call>, ip: string, max: nat, window: nat)
    ensures TimesOf(RunAll(calls, max, window), ip) == Run(ReadingsOf(calls, ip), max, window).times
    decreases |calls|
  {
    if calls != [] {
      var n := |calls| - 1;
      AddressesAreIndependent(calls[..n], ip, max, window);
      var before := ReadingsOf(calls[..n], ip);
      if calls[n].ip == ip {
        assert (before + [calls[n].now])[..|before|] == before;
      } else {
        assert before + [] == before;
      }
    }
  }
}
