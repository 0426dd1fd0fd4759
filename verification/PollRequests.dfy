/**
 * What a request to extend or end a poll does to it (routes/polls.rs,
 * `extend_poll` and `end_poll`), whatever other requests are on their way: when it
 * is granted, what it changes, and why it is refused.
 */
module PollRequests {
  import opened Wrappers
  import opened PollClock

  function Hours(ext: Extension): int {
    match ext
    case ByOneHour => 1
    case ByTwelveHours => 12
    case ByOneDay => 24
    case ByThreeDays => 72
    case BySevenDays => 168
  }

  /** A live poll that closes when the admin thinks it does is given the hours asked for; no other is given any. */
  lemma GrantedExactly(endedAt: Option<int>, closesAt: Option<int>, seen: int, ext: Extension, at: int)
    ensures var r := ExtensionTarget(endedAt, closesAt, seen, ext, at);
            && (r.Ok? <==> endedAt == None && closesAt == Some(seen) && at < seen)
            && (r.Ok? ==> r.value == seen + Hours(ext) * 3600000)
            && (r == Err(Closed) <==> endedAt.Some? || (closesAt.Some? && closesAt.value <= at))
            && (r == Err(PermanentPoll) <==> endedAt == None && closesAt == None)
            && (r == Err(Stale) <==> endedAt == None && closesAt.Some? && closesAt.value > at && closesAt.value != seen)
  {
  }

  /** Polls are open for as many days as they say, and the permanent one until it is ended. */
  lemma OpenUntil(duration: Duration, createdAt: int, now: int)
    ensures var row := Opened(duration, createdAt).row;
            && row.createdAt == createdAt && row.duration == duration && row.endedAt == None
            && (IsLive(row.endedAt, row.closesAt, now) <==>
                  match duration
                  case OneDay => now < createdAt + 86400000
                  case ThreeDays => now < createdAt + 3 * 86400000
                  case SevenDays => now < createdAt + 7 * 86400000
                  case Permanent => true)
  {
  }

  /** A poll counts as extended once it closes more than a second later than it would have. */
  lemma ExtendedExactly(row: Row)
    ensures WasExtended(row) <==>
            row.closesAt.Some? && row.duration != Permanent
            && row.closesAt.value > row.createdAt
                 + (if row.duration == OneDay then 1 else if row.duration == ThreeDays then 3 else 7) * 86400000 + 1000
  {
  }

  /** A request that waits is written by its own write step only. */
  ghost predicate Waits(s: System, id: nat, r: Pending) {
    id in s.pending && s.pending[id] == r
  }

  ghost predicate NeverWrites(steps: seq<Step>, id: nat) {
    forall i | 0 <= i < |steps| :: steps[i] != WriteExtension(id) && steps[i] != WriteEnd(id)
  }

  lemma {:induction false} WaitsUntilWritten(s: System, steps: seq<Step>, id: nat, r: Pending)
    requires Waits(s, id, r) && NeverWrites(steps, id)
    ensures Waits(Run(s, steps), id, r)
    decreases |steps|
  {
    if steps != [] {
      WaitsUntilWritten(s, steps[..|steps| - 1], id, r);
    }
  }

  /**
   * An extension that was granted adds its hours if at its write the poll has not
   * been ended or extended since, whatever else has happened; otherwise it changes
   * nothing and says so.
   */
  lemma GrantedExtensionLands(s: System, id: nat, ext: Extension, seen: int, between: seq<Step>)
    requires id !in s.pending && NeverWrites(between, id)
    requires s.row.endedAt == None && s.row.closesAt == Some(seen) && s.now < seen
    ensures var u := Run(Apply(s, LoadToExtend(id, ext, seen)), between);
            var t := Apply(u, WriteExtension(id));
            && id !in t.pending && t.now == u.now
            && if u.row.endedAt == None && u.row.closesAt == Some(seen)
               then t.row == u.row.(closesAt := Some(seen + Hours(ext) * 3600000))
                    && t.landed == u.landed + [Landed(seen, ext)]
               else t.row == u.row && t.landed == u.landed
  {
    var r := Extending(ext, seen, s.now, seen, seen + Span(ext));
    var loaded := Apply(s, LoadToExtend(id, ext, seen));
    assert Waits(loaded, id, r);
    WaitsUntilWritten(loaded, between, id, r);
  }

  /** A request that is refused leaves the poll and every other request alone. */
  lemma RefusedExtensionChangesNothing(s: System, id: nat, ext: Extension, seen: int)
    requires s.row.endedAt.Some? || s.row.closesAt != Some(seen) || seen <= s.now
    ensures Apply(s, LoadToExtend(id, ext, seen)) == s
  {
  }

  /** Ending a live poll ends it at the moment of the write, unless it has been ended before, and changes nothing else. */
  lemma EndingEnds(s: System, id: nat, between: seq<Step>)
    requires id !in s.pending && NeverWrites(between, id)
    requires s.row.endedAt == None && (s.row.closesAt.Some? ==> s.now < s.row.closesAt.value)
    ensures var u := Run(Apply(s, LoadToEnd(id)), between);
            var t := Apply(u, WriteEnd(id));
            && id !in t.pending && t.landed == u.landed && t.now == u.now
            && t.row == if u.row.endedAt.Some? then u.row else u.row.(endedAt := Some(u.now))
  {
    var loaded := Apply(s, LoadToEnd(id));
    assert Waits(loaded, id, Ending);
    WaitsUntilWritten(loaded, between, id, Ending);
  }

  /** A poll that has ended or run out is not ended again. */
  lemma ClosedPollIsNotEnded(s: System, id: nat)
    requires s.row.endedAt.Some? || (s.row.closesAt.Some? && s.row.closesAt.value <= s.now)
    ensures Apply(s, LoadToEnd(id)) == s
  {
  }
}
