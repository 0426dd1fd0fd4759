/**
 * Poll results (routes/polls.rs, `poll_response`; polls.rs, `percent`): counts
 * taken from the vote rows by separate statements, and the bars made of them.
 */
module Tallies {
  import opened Wrappers
  import opened Sequences
  import opened Sets
  import opened Ballots

  /** `COUNT(*) .. GROUP BY option_id`. */
  function Tally(rows: set<Vote>, poll: int, option: int): nat {
    |set v | v in rows && v.poll == poll && v.option == option|
  }

  function VotersOf(rows: set<Vote>, poll: int): set<string> {
    set v | v in rows && v.poll == poll :: v.user
  }

  /** `COUNT(DISTINCT user_id)`. */
  function Voters(rows: set<Vote>, poll: int): nat {
    |VotersOf(rows, poll)|
  }

  /** One user's row for each member of `users`. */
  function RowsFor(poll: int, option: int, users: set<string>): set<Vote> {
    set u | u in users :: Vote(poll, u, option)
  }

  lemma {:induction false} RowsForSize(poll: int, option: int, users: set<string>)
    ensures |RowsFor(poll, option, users)| == |users|
    decreases |users|
  {
    if users == {} {
      assert RowsFor(poll, option, users) == {};
    } else {
      var u :| u in users;
      RowsForSize(poll, option, users - {u});
      assert RowsFor(poll, option, users) == RowsFor(poll, option, users - {u}) + {Vote(poll, u, option)};
    }
  }

  /** Who chose an option. */
  function Choosers(rows: set<Vote>, poll: int, option: int): set<string> {
    set v | v in rows && v.poll == poll && v.option == option :: v.user
  }

  lemma TallyCountsChoosers(rows: set<Vote>, poll: int, option: int)
    ensures Tally(rows, poll, option) == |Choosers(rows, poll, option)|
  {
    RowsForSize(poll, option, Choosers(rows, poll, option));
    assert (set v | v in rows && v.poll == poll && v.option == option)
        == RowsFor(poll, option, Choosers(rows, poll, option));
  }

  /** No option outpolls the voters. */
  lemma TallyWithinVoters(rows: set<Vote>, poll: int, option: int)
    ensures Tally(rows, poll, option) <= Voters(rows, poll)
  {
    TallyCountsChoosers(rows, poll, option);
    SubsetSize(Choosers(rows, poll, option), VotersOf(rows, poll));
  }

  function Sum(votes: seq<nat>): nat {
    if votes == [] then 0 else votes[0] + Sum(votes[1..])
  }

  /** The votes of each listed option. */
  function TalliesOf(rows: set<Vote>, poll: int, options: seq<int>): seq<nat> {
    if options == [] then [] else [Tally(rows, poll, options[0])] + TalliesOf(rows, poll, options[1..])
  }

  function Total(rows: set<Vote>, poll: int, options: seq<int>): nat {
    Sum(TalliesOf(rows, poll, options))
  }

  /** Everyone who voted on the poll chose exactly one thing. */
  ghost predicate SingleAnswers(rows: set<Vote>, poll: int) {
    forall v, w | v in rows && w in rows && v.poll == poll && w.poll == poll && v.user == w.user :: v.option == w.option
  }

  function ChoosersOfAny(rows: set<Vote>, poll: int, options: seq<int>): set<string> {
    set v | v in rows && v.poll == poll && v.option in options :: v.user
  }

  lemma ChoosersAreApart(rows: set<Vote>, poll: int, option: int, others: seq<int>)
    requires SingleAnswers(rows, poll) && option !in others
    ensures Choosers(rows, poll, option) !! ChoosersOfAny(rows, poll, others)
  {
    forall u | u in Choosers(rows, poll, option) ensures u !in ChoosersOfAny(rows, poll, others) {
      var v :| v in rows && v.poll == poll && v.option == option && v.user == u;
      assert forall w | w in rows && w.poll == poll && w.user == u :: w.option == v.option;
    }
  }

  lemma ChoosersTogether(rows: set<Vote>, poll: int, options: seq<int>)
    requires options != []
    ensures ChoosersOfAny(rows, poll, options)
            == Choosers(rows, poll, options[0]) + ChoosersOfAny(rows, poll, options[1..])
  {
    assert options == [options[0]] + options[1..];
  }

  lemma ApartSize(a: set<string>, b: set<string>)
    requires a !! b
    ensures |a + b| == |a| + |b|
  {
  }

  lemma {:induction false} SingleAnswersAddUp(rows: set<Vote>, poll: int, options: seq<int>)
    requires SingleAnswers(rows, poll) && NoRepeats(options)
    ensures Total(rows, poll, options) == |ChoosersOfAny(rows, poll, options)|
    decreases |options|
  {
    if options == [] {
      assert ChoosersOfAny(rows, poll, options) == {};
    } else {
      SingleAnswersAddUp(rows, poll, options[1..]);
      TallyCountsChoosers(rows, poll, options[0]);
      ChoosersTogether(rows, poll, options);
      ChoosersAreApart(rows, poll, options[0], options[1..]);
      ApartSize(Choosers(rows, poll, options[0]), ChoosersOfAny(rows, poll, options[1..]));
    }
  }

  /** `options` lists the poll's options once each. */
  ghost predicate Lists(options: seq<int>, poll: Poll) {
    NoRepeats(options) && forall o :: o in options <==> o in poll.options
  }

  /** On a single-answer poll the bars' votes add up to the voters, counted together. */
  lemma SingleAnswerVotesAreTheVoters(steps: seq<Step>, poll: int, options: seq<int>)
    requires var s := Run(EMPTY, steps);
             poll in s.polls && !s.polls[poll].allowMultiple && Lists(options, s.polls[poll])
    ensures var s := Run(EMPTY, steps); Total(s.rows, poll, options) == Voters(s.rows, poll)
  {
    var s := Run(EMPTY, steps);
    RunKeepsInv(EMPTY, steps);
    forall v, w | v in s.rows && w in s.rows && v.poll == poll && w.poll == poll && v.user == w.user
      ensures v.option == w.option
    {
      BallotsAreValid(steps, v);
      BallotsAreValid(steps, w);
    }
    SingleAnswersAddUp(s.rows, poll, options);
    forall v | v in s.rows && v.poll == poll ensures v.option in options {
      BallotsAreValid(steps, v);
      assert v.option in BallotOf(s.rows, v.poll, v.user);
    }
    assert ChoosersOfAny(s.rows, poll, options) == VotersOf(s.rows, poll);
  }

  /* ------------------------------------------- counts read one after the other */

  ghost predicate NoRemovals(steps: seq<Step>) {
    forall i | 0 <= i < |steps| :: !steps[i].RemoveUser?
  }

  lemma VoterStays(s: System, step: Step, poll: int, user: string)
    requires Inv(s) && !step.RemoveUser? && user in VotersOf(s.rows, poll)
    ensures user in VotersOf(Apply(s, step).rows, poll)
  {
    if step.Commit? && step.id in s.pending && s.pending[step.id].user !in s.gone {
      var c := s.pending[step.id];
      var v :| v in s.rows && v.poll == poll && v.user == user;
      if c.poll == poll && c.user == user {
        assert CheckedFits(s.polls, c);
        assert Vote(poll, user, c.chosen[0]) in Apply(s, step).rows;
      } else {
        assert v in Apply(s, step).rows;
      }
    }
  }

  lemma {:induction false} VotersOnlyGrow(s: System, steps: seq<Step>, poll: int)
    requires Inv(s) && NoRemovals(steps)
    ensures VotersOf(s.rows, poll) <= VotersOf(Run(s, steps).rows, poll)
    decreases |steps|
  {
    if steps != [] {
      var n := |steps| - 1;
      VotersOnlyGrow(s, steps[..n], poll);
      Ballots.RunKeepsInv(s, steps[..n]);
      forall u | u in VotersOf(Run(s, steps[..n]).rows, poll) ensures u in VotersOf(Run(s, steps).rows, poll) {
        VoterStays(Run(s, steps[..n]), steps[n], poll, u);
      }
    }
  }

  /** Tallies read first and voters later: still no option outpolls the voters, while no account goes. */
  lemma TallyWithinLaterVoters(steps: seq<Step>, between: seq<Step>, poll: int, option: int)
    requires NoRemovals(between)
    ensures var s := Run(EMPTY, steps);
            Tally(s.rows, poll, option) <= Voters(Run(s, between).rows, poll)
  {
    var s := Run(EMPTY, steps);
    Ballots.RunKeepsInv(EMPTY, steps);
    TallyWithinVoters(s.rows, poll, option);
    VotersOnlyGrow(s, between, poll);
    SubsetSize(VotersOf(s.rows, poll), VotersOf(Run(s, between).rows, poll));
  }

  /**
   * Whatever happens between the two reads, removals included: an option stays
   * within the voters exactly when no more of its choosers have gone than there
   * are later voters who had not chosen it.
   */
  lemma WithinLaterVotersExactly(steps: seq<Step>, between: seq<Step>, poll: int, option: int)
    ensures var s := Run(EMPTY, steps);
            var choosers, later := Choosers(s.rows, poll, option), VotersOf(Run(s, between).rows, poll);
            Tally(s.rows, poll, option) <= |later| <==> |choosers - later| <= |later - choosers|
  {
    var s := Run(EMPTY, steps);
    TallyCountsChoosers(s.rows, poll, option);
    SizesDifferBy(Choosers(s.rows, poll, option), VotersOf(Run(s, between).rows, poll));
  }

  /** ... and the votes add up to the voters exactly when as many have gone as have newly voted. */
  lemma ApartReadsAddUp(steps: seq<Step>, between: seq<Step>, poll: int, options: seq<int>)
    requires var s := Run(EMPTY, steps);
             poll in s.polls && !s.polls[poll].allowMultiple && Lists(options, s.polls[poll])
    ensures var s := Run(EMPTY, steps);
            var early, later := VotersOf(s.rows, poll), VotersOf(Run(s, between).rows, poll);
            && (Total(s.rows, poll, options) == |later| <==> |early - later| == |later - early|)
            && (NoRemovals(between) ==> (Total(s.rows, poll, options) == |later| <==> early == later))
  {
    var s := Run(EMPTY, steps);
    var early, later := VotersOf(s.rows, poll), VotersOf(Run(s, between).rows, poll);
    Ballots.RunKeepsInv(EMPTY, steps);
    SingleAnswerVotesAreTheVoters(steps, poll, options);
    SizesDifferBy(early, later);
    if NoRemovals(between) {
      VotersOnlyGrow(s, between, poll);
      if |early| == |later| {
        EqualSizedSubset(early, later);
      }
    }
  }

  const ONE_VOTE: seq<Step> := [Create(1, 2, false), Check(0, 1, "u", [0], true), Commit(0)]

  lemma RunOfThree(s: System, a: Step, b: Step, c: Step)
    ensures Run(s, [a, b, c]) == Apply(Apply(Apply(s, a), b), c)
  {
    var steps := [a, b, c];
    assert steps[..2] == [a, b] && [a, b][..1] == [a] && [a][..0] == [];
    assert Run(s, [a]) == Apply(s, a);
    assert Run(s, [a, b]) == Apply(Run(s, [a]), b);
  }

  /** A single-answer poll of two options, and one vote for the first. */
  lemma AfterOneVote()
    ensures Run(EMPTY, ONE_VOTE) == System(map[1 := Poll({0, 1}, false)], {Vote(1, "u", 0)}, 2, map[], {})
  {
    RunOfThree(EMPTY, Create(1, 2, false), Check(0, 1, "u", [0], true), Commit(0));
    var s1 := Apply(EMPTY, Create(1, 2, false));
    assert NewOptions(0, 2) == {0, 1};
    assert s1 == System(map[1 := Poll({0, 1}, false)], {}, 2, map[], {});
    OneAnswer(0);
    var s2 := Apply(s1, Check(0, 1, "u", [0], true));
    assert s2.pending == map[0 := Checked(1, "u", [0])];
    var s3 := Apply(s2, Commit(0));
    assert s3.rows == {Vote(1, "u", 0)} && s3.pending == map[];
  }

  lemma OneAnswer(id: int)
    ensures Normalised([id], false) == Ok([id])
  {
    assert [id][..0] == [];
    assert Distinct([id]) == [id];
  }

  /** An account removed between the reads leaves an option with more votes than voters. */
  lemma RemovalBetweenReads()
    ensures var s := Run(EMPTY, ONE_VOTE);
            Tally(s.rows, 1, 0) == 1 && Voters(Run(s, [RemoveUser("u")]).rows, 1) == 0
  {
    AfterOneVote();
    var s := Run(EMPTY, ONE_VOTE);
    assert (set v | v in s.rows && v.poll == 1 && v.option == 0) == {Vote(1, "u", 0)};
    var between := [RemoveUser("u")];
    assert between[..0] == [];
    assert Run(s, between) == Apply(s, RemoveUser("u"));
    assert VotersOf(Run(s, between).rows, 1) == {};
  }

  /* ------------------------------------------------------------------- the bars */

  /** Tenths of a percent, rounded half up; none when nobody voted. */
  function Percent(votes: int, voters: int): int {
    if voters <= 0 || votes <= 0 then 0 else (2000 * votes + voters) / (2 * voters)
  }

  lemma DivBounds(a: int, b: int)
    requires b > 0
    ensures b * (a / b) <= a < b * (a / b) + b
  {
  }

  lemma Scaled(n: int, a: int, b: int)
    requires n > 0 && a >= b
    ensures n * a >= n * b
  {
    assert n * (a - b) >= 0;
  }

  lemma Cancelled(n: int, a: int, b: int)
    requires n > 0 && n * a < n * b
    ensures a < b
  {
    if a >= b { Scaled(n, a, b); }
  }

  /** The nearest tenth: never more than half a tenth from the true share, and rounded up from half a tenth. */
  lemma PercentIsNearest(votes: int, voters: int)
    requires voters > 0 && votes >= 0
    ensures -voters < 2 * voters * Percent(votes, voters) - 2000 * votes <= voters
  {
    if votes > 0 {
      DivBounds(2000 * votes + voters, 2 * voters);
    }
  }

  lemma PercentInRange(votes: int, voters: int)
    requires 0 <= votes <= voters
    ensures 0 <= Percent(votes, voters) <= 1000
  {
    if votes > 0 {
      var p := Percent(votes, voters);
      PercentIsNearest(votes, voters);
      Cancelled(2 * voters, p, 1001);
      Cancelled(2 * voters, -1, p);
    }
  }

  function PercentSum(votes: seq<nat>, voters: int): int {
    if votes == [] then 0 else Percent(votes[0], voters) + PercentSum(votes[1..], voters)
  }

  lemma {:induction false} PercentSumIsNear(votes: seq<nat>, voters: int)
    requires voters > 0
    ensures -(voters * |votes|) <= 2 * voters * PercentSum(votes, voters) - 2000 * Sum(votes) <= voters * |votes|
    decreases |votes|
  {
    if votes != [] {
      PercentIsNearest(votes[0], voters);
      PercentSumIsNear(votes[1..], voters);
      var p, q := Percent(votes[0], voters), PercentSum(votes[1..], voters);
      assert 2 * voters * (p + q) == 2 * voters * p + 2 * voters * q;
      assert voters * |votes| == voters + voters * |votes[1..]|;
    }
  }

  lemma Distributed(v: int, p: int, n: int)
    ensures 2 * v * p - 2000 * v == v * (2 * p - 2000)
    ensures v * (n + 1) == v * n + v && v * (-n - 1) == -(v * n) - v
  {
  }

  /** The sum is 100 within 0.05 for each bar. */
  predicate SumsToAHundred(bars: seq<nat>, voters: int) {
    -|bars| <= 2 * PercentSum(bars, voters) - 2000 <= |bars|
  }

  /** When the votes are the voters, the bars sum to 100. */
  lemma BarsSumToAHundred(votes: seq<nat>, voters: int)
    requires voters > 0 && Sum(votes) == voters
    ensures SumsToAHundred(votes, voters)
  {
    PercentSumIsNear(votes, voters);
    var off, n := 2 * PercentSum(votes, voters) - 2000, |votes|;
    Distributed(voters, PercentSum(votes, voters), n);
    Cancelled(voters, off, n + 1);
    Cancelled(voters, -n - 1, off);
  }

  /** A share is over 100 exactly when the votes are more than the voters by a 2000th of them. */
  lemma PercentOverflowsExactly(votes: nat, voters: nat)
    requires voters > 0
    ensures Percent(votes, voters) > 1000 <==> 2000 * votes >= 2001 * voters
  {
    if votes > 0 {
      var p, d := Percent(votes, voters), 2 * voters;
      DivBounds(2000 * votes + voters, d);
      if p > 1000 {
        Scaled(d, p, 1001);
      } else {
        Scaled(d, 1000, p);
      }
    }
  }

  /** Tallies of one moment as shares of the voters of a later one. */
  lemma {:induction false} SharesAreInRange(steps: seq<Step>, between: seq<Step>, poll: int, options: seq<int>)
    requires NoRemovals(between)
    ensures var s := Run(EMPTY, steps);
            var bars, voters := TalliesOf(s.rows, poll, options), Voters(Run(s, between).rows, poll);
            |bars| == |options| && forall i | 0 <= i < |bars| :: 0 <= Percent(bars[i], voters) <= 1000
    decreases |options|
  {
    if options != [] {
      var s := Run(EMPTY, steps);
      TallyWithinLaterVoters(steps, between, poll, options[0]);
      PercentInRange(Tally(s.rows, poll, options[0]), Voters(Run(s, between).rows, poll));
      SharesAreInRange(steps, between, poll, options[1..]);
    }
  }

  lemma {:induction false} TalliesLength(rows: set<Vote>, poll: int, options: seq<int>)
    ensures |TalliesOf(rows, poll, options)| == |options|
    decreases |options|
  {
    if options != [] {
      TalliesLength(rows, poll, options[1..]);
    }
  }

  /**
   * The bars of a single-answer poll as they are served, tallies read first and
   * voters later, whatever happens in between: they sum to the earlier voters'
   * share of the later ones, within 0.05 for each option.
   */
  lemma SingleAnswerBars(steps: seq<Step>, between: seq<Step>, poll: int, options: seq<int>)
    requires var s := Run(EMPTY, steps);
             && poll in s.polls && !s.polls[poll].allowMultiple && Lists(options, s.polls[poll])
             && Voters(Run(s, between).rows, poll) > 0
    ensures var s := Run(EMPTY, steps);
            var early, later := Voters(s.rows, poll), Voters(Run(s, between).rows, poll);
            var off := 2 * later * PercentSum(TalliesOf(s.rows, poll, options), later) - 2000 * early;
            -(later * |options|) <= off <= later * |options|
  {
    var s := Run(EMPTY, steps);
    SingleAnswerVotesAreTheVoters(steps, poll, options);
    TalliesLength(s.rows, poll, options);
    PercentSumIsNear(TalliesOf(s.rows, poll, options), Voters(Run(s, between).rows, poll));
  }

  /**
   * So they sum to 100 within that margin when the two counts of voters are
   * equal, and do not when the counts are apart by more than a 1000th of the
   * later one for each option; in between it is a matter of rounding.
   */
  lemma BarsSumWhenNobodyIsNew(steps: seq<Step>, between: seq<Step>, poll: int, options: seq<int>)
    requires var s := Run(EMPTY, steps);
             && poll in s.polls && !s.polls[poll].allowMultiple && Lists(options, s.polls[poll])
             && Voters(Run(s, between).rows, poll) > 0
    ensures var s := Run(EMPTY, steps);
            var bars := TalliesOf(s.rows, poll, options);
            var early, later := Voters(s.rows, poll), Voters(Run(s, between).rows, poll);
            && (early == later ==> SumsToAHundred(bars, later))
            && (1000 * (early - later) > later * |options| || 1000 * (later - early) > later * |options|
                ==> !SumsToAHundred(bars, later))
  {
    var s := Run(EMPTY, steps);
    var bars := TalliesOf(s.rows, poll, options);
    var early, later := Voters(s.rows, poll), Voters(Run(s, between).rows, poll);
    SingleAnswerVotesAreTheVoters(steps, poll, options);
    TalliesLength(s.rows, poll, options);
    if early == later {
      BarsSumToAHundred(bars, later);
    }
    if SumsToAHundred(bars, later) {
      SingleAnswerBars(steps, between, poll, options);
      CountsAreClose(PercentSum(bars, later), early, later, |options|);
    }
  }

  lemma CountsAreClose(sum: int, early: int, later: int, n: int)
    requires later > 0 && -n <= 2 * sum - 2000 <= n
    requires -(later * n) <= 2 * later * sum - 2000 * early <= later * n
    ensures 1000 * (early - later) <= later * n && 1000 * (later - early) <= later * n
  {
    var off: int := 2 * sum - 2000;
    Distributed(later, sum, n);
    Scaled(later, off, -n);
    Scaled(later, n, off);
    assert later * -n == -(later * n);
  }

  /** Another vote, between the two reads. */
  const SECOND_VOTE: seq<Step> := [Check(1, 1, "w", [0], true), Commit(1)]

  lemma AfterSecondVote()
    ensures Run(Run(EMPTY, ONE_VOTE), SECOND_VOTE).rows == {Vote(1, "u", 0), Vote(1, "w", 0)}
  {
    AfterOneVote();
    var s := Run(EMPTY, ONE_VOTE);
    OneAnswer(0);
    var checked := Apply(s, SECOND_VOTE[0]);
    assert checked.pending == map[1 := Checked(1, "w", [0])] && checked.rows == s.rows && checked.gone == {};
    assert SECOND_VOTE[..1][..0] == [] && Run(s, SECOND_VOTE[..1]) == checked;
    assert Run(s, SECOND_VOTE) == Apply(checked, Commit(1));
    assert Replaced(s.rows, 1, "w", [0]) == {Vote(1, "u", 0), Vote(1, "w", 0)};
  }

  lemma OneVoteTallies(rows: set<Vote>)
    requires rows == {Vote(1, "u", 0)}
    ensures TalliesOf(rows, 1, [0, 1]) == [1, 0]
  {
    assert (set v | v in rows && v.poll == 1 && v.option == 0) == {Vote(1, "u", 0)};
    assert (set v | v in rows && v.poll == 1 && v.option == 1) == {};
    assert [0, 1][1..] == [1] && [1][1..] == [];
    assert TalliesOf(rows, 1, [1]) == [0];
  }

  lemma TwoVoters(rows: set<Vote>)
    requires rows == {Vote(1, "u", 0), Vote(1, "w", 0)}
    ensures Voters(rows, 1) == 2
  {
    assert "u"[0] != "w"[0];
    assert VotersOf(rows, 1) == {"u", "w"};
  }

  /** Then the bars of that poll sum to 50. */
  lemma NewVoterBetweenReads()
    ensures var s := Run(EMPTY, ONE_VOTE);
            PercentSum(TalliesOf(s.rows, 1, [0, 1]), Voters(Run(s, SECOND_VOTE).rows, 1)) == 500
  {
    AfterOneVote();
    AfterSecondVote();
    OneVoteTallies(Run(EMPTY, ONE_VOTE).rows);
    TwoVoters(Run(Run(EMPTY, ONE_VOTE), SECOND_VOTE).rows);
    assert [1, 0][1..] == [0] && [0][1..] == [];
    assert PercentSum([0], 2) == 0 && Percent(1, 2) == 500;
  }

  datatype Bar = Bar(option: int, votes: nat, percent: int, leading: bool)

  function VotesIn(tallies: map<int, nat>, option: int): nat {
    if option in tallies then tallies[option] else 0
  }

  /** The option list of one response: the leaders are exactly the options ahead, and only when there is a vote. */
  method Bars(options: seq<int>, tallies: map<int, nat>, voters: nat) returns (out: seq<Bar>)
    ensures |out| == |options|
    ensures forall i | 0 <= i < |out| ::
              out[i].option == options[i] && out[i].votes == (if options[i] in tallies then tallies[options[i]] else 0) &&
              out[i].percent == Percent(out[i].votes, voters)
    ensures forall i | 0 <= i < |out| ::
              out[i].leading <==> out[i].votes > 0 && forall j | 0 <= j < |out| :: out[j].votes <= out[i].votes
  {
    out := [];
    var best: nat := 0;
    for i := 0 to |options|
      invariant |out| == i
      invariant forall k | 0 <= k < i ::
                  out[k] == Bar(options[k], VotesIn(tallies, options[k]), Percent(VotesIn(tallies, options[k]), voters), false)
      invariant forall k | 0 <= k < i :: out[k].votes <= best
      invariant best > 0 ==> exists k | 0 <= k < i :: out[k].votes == best
    {
      var votes := VotesIn(tallies, options[i]);
      out := out + [Bar(options[i], votes, Percent(votes, voters), false)];
      if votes > best {
        best := votes;
        assert out[i].votes == best;
      }
    }
    if best > 0 {
      ghost var plain := out;
      for i := 0 to |out|
        invariant |out| == |plain|
        invariant forall k | 0 <= k < i :: out[k] == plain[k].(leading := plain[k].votes == best)
        invariant forall k | i <= k < |out| :: out[k] == plain[k]
      {
        out := out[i := out[i].(leading := out[i].votes == best)];
      }
    }
  }
}
