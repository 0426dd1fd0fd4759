/**
 * A poll's closing time (polls.rs; routes/polls.rs, `extend_poll` and
 * `end_poll`): requests load the row, decide, and then write with a
 * compare-and-set, any number of them at once. Times are milliseconds, the
 * precision of the columns.
 */
module PollClock {
  import opened Wrappers

  const HOUR: int := 3_600_000
  const DAY: int := 24 * HOUR

  datatype Duration = OneDay | ThreeDays | SevenDays | Permanent

  function ClosesAt(d: Duration, from: int): Option<int> {
    match d
    case OneDay => Some(from + DAY)
    case ThreeDays => Some(from + 3 * DAY)
    case SevenDays => Some(from + 7 * DAY)
    case Permanent => None
  }

  predicate IsLive(endedAt: Option<int>, closesAt: Option<int>, now: int) {
    endedAt.None? && (closesAt.None? || closesAt.value > now)
  }

  datatype Extension = ByOneHour | ByTwelveHours | ByOneDay | ByThreeDays | BySevenDays

  function Span(ext: Extension): int {
    match ext
    case ByOneHour => HOUR
    case ByTwelveHours => 12 * HOUR
    case ByOneDay => DAY
    case ByThreeDays => 3 * DAY
    case BySevenDays => 7 * DAY
  }

  datatype Refusal = Closed | PermanentPoll | Stale

  /** The new closing time, or why none; `seen` is the closing time the admin was looking at. */
  function ExtensionTarget(
    endedAt: Option<int>, closesAt: Option<int>, seen: int, ext: Extension, at: int): Result<int, Refusal>
  {
    if !IsLive(endedAt, closesAt, at) then Err(Closed)
    else if closesAt.None? then Err(PermanentPoll)
    else if closesAt.value != seen then Err(Stale)
    else Ok(closesAt.value + Span(ext))
  }

  datatype Row = Row(duration: Duration, createdAt: int, closesAt: Option<int>, endedAt: Option<int>)

  /** `was_extended`: more than a second past the natural closing time. */
  predicate WasExtended(row: Row) {
    var natural := ClosesAt(row.duration, row.createdAt);
    row.closesAt.Some? && natural.Some? && row.closesAt.value - natural.value > 1000
  }

  /** `UPDATE .. SET closes_at WHERE ended_at IS NULL AND closes_at = ? AND closes_at > ?` */
  function ExtendRow(row: Row, target: int, expected: int, at: int): Row {
    if row.endedAt.None? && row.closesAt == Some(expected) && expected > at then row.(closesAt := Some(target)) else row
  }

  /** `UPDATE .. SET ended_at WHERE ended_at IS NULL` */
  function EndRow(row: Row, at: int): Row {
    if row.endedAt.None? then row.(endedAt := Some(at)) else row
  }

  /** The stored row, changed by one statement at a time. */
  class PollTable {
    var row: Row

    constructor (duration: Duration, createdAt: int)
      ensures row == Row(duration, createdAt, ClosesAt(duration, createdAt), None)
    {
      row := Row(duration, createdAt, ClosesAt(duration, createdAt), None);
    }

    method Extend(target: int, expected: int, at: int) returns (affected: nat)
      modifies this
      ensures row == ExtendRow(old(row), target, expected, at)
      ensures affected == 1 <==> old(row).endedAt.None? && old(row).closesAt == Some(expected) && expected > at
      ensures affected <= 1
    {
      affected := 0;
      if row.endedAt.None? && row.closesAt == Some(expected) && expected > at {
        row := row.(closesAt := Some(target));
        affected := 1;
      }
    }

    method End(at: int) returns (affected: nat)
      modifies this
      ensures row == EndRow(old(row), at)
      ensures affected == 1 <==> old(row).endedAt.None?
      ensures affected <= 1
    {
      affected := 0;
      if row.endedAt.None? {
        row := row.(endedAt := Some(at));
        affected := 1;
      }
    }
  }

  /** A request between its read of the row and its write. */
  datatype Pending = Extending(ext: Extension, seen: int, at: int, expected: int, target: int) | Ending

  /** An extension that reported success. */
  datatype Landed = Landed(seen: int, ext: Extension)

  datatype System = System(row: Row, now: int, pending: map<nat, Pending>, landed: seq<Landed>)

  datatype Step =
    | Clock(now: int)
    | LoadToExtend(id: nat, ext: Extension, seen: int)
    | WriteExtension(id: nat)
    | LoadToEnd(id: nat)
    | WriteEnd(id: nat)

  function Opened(duration: Duration, createdAt: int): System {
    System(Row(duration, createdAt, ClosesAt(duration, createdAt), None), createdAt, map[], [])
  }

  function Apply(s: System, step: Step): System {
    match step
    case Clock(now) => if now >= s.now then s.(now := now) else s
    case LoadToExtend(id, ext, seen) =>
      if id in s.pending then s
      else
        (match ExtensionTarget(s.row.endedAt, s.row.closesAt, seen, ext, s.now)
         case Err(_) => s
         case Ok(target) => s.(pending := s.pending[id := Extending(ext, seen, s.now, s.row.closesAt.value, target)]))
    case WriteExtension(id) =>
      if id !in s.pending || s.pending[id].Ending? then s
      else
        var r := s.pending[id];
        var row := ExtendRow(s.row, r.target, r.expected, r.at);
        System(row, s.now, s.pending - {id},
               if Lands(s, id) then s.landed + [Landed(r.seen, r.ext)] else s.landed)
    case LoadToEnd(id) =>
      if id in s.pending || !IsLive(s.row.endedAt, s.row.closesAt, s.now) then s
      else s.(pending := s.pending[id := Ending])
    case WriteEnd(id) =>
      if id !in s.pending || s.pending[id].Extending? then s
      else System(EndRow(s.row, s.now), s.now, s.pending - {id}, s.landed)
  }

  /** The write of request `id` would affect a row. */
  predicate Lands(s: System, id: nat) {
    id in s.pending && s.pending[id].Extending? &&
    s.row.endedAt.None? && s.row.closesAt == Some(s.pending[id].expected) && s.pending[id].expected > s.pending[id].at
  }

  function Run(s: System, steps: seq<Step>): System {
    if steps == [] then s else Apply(Run(s, steps[..|steps| - 1]), steps[|steps| - 1])
  }

  function Spans(landed: seq<Landed>): int {
    if landed == [] then 0 else Spans(landed[..|landed| - 1]) + Span(landed[|landed| - 1].ext)
  }

  /** Each extension was added to the closing time the ones before it had left. */
  ghost predicate Chained(natural: int, landed: seq<Landed>) {
    forall i | 0 <= i < |landed| :: landed[i].seen == natural + Spans(landed[..i])
  }

  ghost predicate RowInv(row: Row, landed: seq<Landed>) {
    match ClosesAt(row.duration, row.createdAt)
    case None => row.closesAt == None && landed == []
    case Some(natural) => row.closesAt == Some(natural + Spans(landed)) && Chained(natural, landed)
  }

  ghost predicate PendingFits(r: Pending, now: int) {
    r.Extending? ==>
      r.seen == r.expected && r.at < r.expected && r.target == r.expected + Span(r.ext) && r.at <= now
  }

  ghost predicate Inv(s: System) {
    RowInv(s.row, s.landed) && forall id | id in s.pending :: PendingFits(s.pending[id], s.now)
  }

  lemma SpansAppend(landed: seq<Landed>, l: Landed)
    ensures Spans(landed + [l]) == Spans(landed) + Span(l.ext)
  {
    assert (landed + [l])[..|landed|] == landed;
  }

  lemma ChainGrows(natural: int, landed: seq<Landed>, l: Landed)
    requires Chained(natural, landed) && l.seen == natural + Spans(landed)
    ensures Chained(natural, landed + [l])
  {
    var more := landed + [l];
    forall i | 0 <= i < |more| ensures more[i].seen == natural + Spans(more[..i]) {
      assert more[..i] == landed[..i];
      assert landed[..|landed|] == landed;
    }
  }

  lemma ExtendedRowKeepsInv(row: Row, landed: seq<Landed>, l: Landed)
    requires RowInv(row, landed) && row.closesAt == Some(l.seen)
    ensures RowInv(row.(closesAt := Some(l.seen + Span(l.ext))), landed + [l])
  {
    SpansAppend(landed, l);
    match ClosesAt(row.duration, row.createdAt)
    case None =>
    case Some(natural) => ChainGrows(natural, landed, l);
  }

  lemma LandingKeepsRow(s: System, id: nat)
    requires Inv(s) && Lands(s, id)
    ensures var r := s.pending[id];
            RowInv(ExtendRow(s.row, r.target, r.expected, r.at), s.landed + [Landed(r.seen, r.ext)])
  {
    var r := s.pending[id];
    assert PendingFits(r, s.now);
    ExtendedRowKeepsInv(s.row, s.landed, Landed(r.seen, r.ext));
  }

  ghost predicate SameTimes(row: Row, other: Row) {
    row.duration == other.duration && row.createdAt == other.createdAt && row.closesAt == other.closesAt
  }

  lemma SameTimesKeepInv(row: Row, other: Row, landed: seq<Landed>)
    requires RowInv(row, landed) && SameTimes(row, other)
    ensures RowInv(other, landed)
  {
  }

  lemma OnlyLandingMovesTheTime(s: System, step: Step)
    requires !(step.WriteExtension? && Lands(s, step.id))
    ensures SameTimes(s.row, Apply(s, step).row) && Apply(s, step).landed == s.landed
  {
  }

  lemma StepKeepsRow(s: System, step: Step)
    requires Inv(s)
    ensures RowInv(Apply(s, step).row, Apply(s, step).landed)
  {
    if step.WriteExtension? && Lands(s, step.id) {
      LandingKeepsRow(s, step.id);
    } else {
      OnlyLandingMovesTheTime(s, step);
      SameTimesKeepInv(s.row, Apply(s, step).row, s.landed);
    }
  }

  lemma StepKeepsPending(s: System, step: Step, id: nat)
    requires Inv(s) && id in Apply(s, step).pending
    ensures PendingFits(Apply(s, step).pending[id], Apply(s, step).now)
  {
    if id in s.pending { assert PendingFits(s.pending[id], s.now); }
  }

  lemma StepKeepsInv(s: System, step: Step)
    requires Inv(s)
    ensures Inv(Apply(s, step))
  {
    StepKeepsRow(s, step);
    forall id | id in Apply(s, step).pending ensures PendingFits(Apply(s, step).pending[id], Apply(s, step).now) {
      StepKeepsPending(s, step, id);
    }
  }

  lemma {:induction false} RunKeepsInv(duration: Duration, createdAt: int, steps: seq<Step>)
    ensures var s := Run(Opened(duration, createdAt), steps);
            Inv(s) && s.row.duration == duration && s.row.createdAt == createdAt
    decreases |steps|
  {
    if steps != [] {
      RunKeepsInv(duration, createdAt, steps[..|steps| - 1]);
      StepKeepsInv(Run(Opened(duration, createdAt), steps[..|steps| - 1]), steps[|steps| - 1]);
    }
  }

  lemma {:induction false} SpansGrow(landed: seq<Landed>, i: nat, j: nat)
    requires i <= j <= |landed|
    ensures Spans(landed[..i]) + (j - i) * HOUR <= Spans(landed[..j])
    decreases j - i
  {
    if i < j {
      SpansGrow(landed, i, j - 1);
      assert landed[..j][..j - 1] == landed[..j - 1];
    }
  }

  /**
   * In every interleaving of extend and end requests, the closing time is the
   * natural one plus the spans of exactly the extensions that reported success.
   */
  lemma ClosingTimeIsAccountedFor(duration: Duration, createdAt: int, steps: seq<Step>)
    ensures var s := Run(Opened(duration, createdAt), steps);
            match ClosesAt(duration, createdAt)
            case None => s.row.closesAt == None && s.landed == []
            case Some(natural) => s.row.closesAt == Some(natural + Spans(s.landed))
  {
    RunKeepsInv(duration, createdAt, steps);
  }

  /** ... no two of them were added to the same closing time. */
  lemma NoTwoExtendTheSameTime(duration: Duration, createdAt: int, steps: seq<Step>, i: nat, j: nat)
    requires i < j < |Run(Opened(duration, createdAt), steps).landed|
    ensures var s := Run(Opened(duration, createdAt), steps); s.landed[i].seen < s.landed[j].seen
  {
    RunKeepsInv(duration, createdAt, steps);
    SpansGrow(Run(Opened(duration, createdAt), steps).landed, i, j);
  }

  /** ... and the `extended` flag is up exactly when there has been one. */
  lemma ExtendedMeansLanded(duration: Duration, createdAt: int, steps: seq<Step>)
    ensures var s := Run(Opened(duration, createdAt), steps);
            WasExtended(s.row) <==> s.landed != []
  {
    RunKeepsInv(duration, createdAt, steps);
    var landed := Run(Opened(duration, createdAt), steps).landed;
    SpansGrow(landed, 0, |landed|);
    assert landed[..|landed|] == landed;
  }

  /** Once a poll is ended, no request changes either of its times. */
  lemma {:induction false} EndedIsFrozen(s: System, steps: seq<Step>)
    requires s.row.endedAt.Some?
    ensures Run(s, steps).row == s.row
    decreases |steps|
  {
    if steps != [] {
      EndedIsFrozen(s, steps[..|steps| - 1]);
    }
  }

  /**
   * An extension lands if and only if the row is as it was loaded: not ended, and
   * with the same closing time. The clock at the moment of writing plays no part.
   */
  lemma LandsOnTheLoadedRow(duration: Duration, createdAt: int, steps: seq<Step>, id: nat)
    ensures var s := Run(Opened(duration, createdAt), steps);
            id in s.pending && s.pending[id].Extending? ==>
              (Lands(s, id) <==> s.row.endedAt.None? && s.row.closesAt == Some(s.pending[id].expected))
  {
    RunKeepsInv(duration, createdAt, steps);
    var s := Run(Opened(duration, createdAt), steps);
    if id in s.pending { assert PendingFits(s.pending[id], s.now); }
  }

  /** So it lands on a poll that has run out exactly when the clock passed the closing time in between. */
  lemma LandsLateWhenTheClockPassed(duration: Duration, createdAt: int, steps: seq<Step>, id: nat)
    requires Lands(Run(Opened(duration, createdAt), steps), id)
    ensures var s := Run(Opened(duration, createdAt), steps);
            !IsLive(s.row.endedAt, s.row.closesAt, s.now) <==> s.pending[id].at < s.pending[id].expected <= s.now
  {
    RunKeepsInv(duration, createdAt, steps);
    var s := Run(Opened(duration, createdAt), steps);
    assert PendingFits(s.pending[id], s.now);
  }

  /** A one-day poll extended an hour after it had run out. */
  lemma ExtensionMayLandLate()
    ensures var s := Run(Opened(OneDay, 0), [LoadToExtend(0, ByOneHour, DAY), Clock(DAY + HOUR)]);
            Lands(s, 0) && !IsLive(s.row.endedAt, s.row.closesAt, s.now)
  {
    var steps := [LoadToExtend(0, ByOneHour, DAY), Clock(DAY + HOUR)];
    assert steps[..1] == [LoadToExtend(0, ByOneHour, DAY)];
    assert steps[..1][..0] == [];
    var loaded := Apply(Opened(OneDay, 0), steps[0]);
    assert Run(Opened(OneDay, 0), steps[..1]) == loaded;
  }
}
