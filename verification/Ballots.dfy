/**
 * Voting (routes/polls.rs, `normalise_choice` and `cast_vote`): votes are checked
 * first and written later, in one transaction, any number of them at once.
 */
module Ballots {
  import opened Wrappers

  const MIN_OPTIONS: nat := 2
  const MAX_OPTIONS: nat := 10

  datatype Mistake = NothingChosen | OneAnswerOnly | TooManyChosen

  /** First occurrences, in the order they come. */
  function Distinct(ids: seq<int>): (r: seq<int>)
    ensures forall x :: x in r <==> x in ids
    ensures forall i, j | 0 <= i < j < |r| :: r[i] != r[j]
  {
    if ids == [] then []
    else
      var n := |ids| - 1;
      var before := Distinct(ids[..n]);
      assert ids == ids[..n] + [ids[n]];
      if ids[n] in before then before else before + [ids[n]]
  }

  function Normalised(ids: seq<int>, allowMultiple: bool): Result<seq<int>, Mistake> {
    var chosen := Distinct(ids);
    if chosen == [] then Err(NothingChosen)
    else if !allowMultiple && |chosen| > 1 then Err(OneAnswerOnly)
    else if |chosen| > MAX_OPTIONS then Err(TooManyChosen)
    else Ok(chosen)
  }

  method NormaliseChoice(ids: seq<int>, allowMultiple: bool) returns (r: Result<seq<int>, Mistake>)
    ensures r == Normalised(ids, allowMultiple)
  {
    var seen: set<int> := {};
    var out: seq<int> := [];
    var i := 0;
    while i < |ids|
      invariant 0 <= i <= |ids|
      invariant out == Distinct(ids[..i])
      invariant forall x :: x in seen <==> x in out
    {
      assert ids[..i + 1][..i] == ids[..i];
      if ids[i] !in seen {
        seen := seen + {ids[i]};
        out := out + [ids[i]];
      }
      i := i + 1;
    }
    assert ids[..i] == ids;
    if out == [] {
      return Err(NothingChosen);
    }
    if !allowMultiple && |out| > 1 {
      return Err(OneAnswerOnly);
    }
    if |out| > MAX_OPTIONS {
      return Err(TooManyChosen);
    }
    r := Ok(out);
  }

  /** A ballot is accepted exactly when it names something, one thing only if the poll says so, and at most ten. */
  lemma AcceptedBallots(ids: seq<int>, allowMultiple: bool)
    ensures Normalised(ids, allowMultiple).Ok? <==>
            ids != [] && (allowMultiple || forall i | 0 <= i < |ids| :: ids[i] == ids[0]) && |Distinct(ids)| <= MAX_OPTIONS
  {
    var chosen := Distinct(ids);
    if ids != [] {
      assert ids[0] in chosen;
      if |chosen| > 1 {
        assert chosen[0] in ids && chosen[1] in ids;
      } else {
        forall i | 0 <= i < |ids| ensures ids[i] == ids[0] {
          assert ids[i] in chosen;
        }
      }
    }
  }

  datatype Poll = Poll(options: set<int>, allowMultiple: bool)

  /** A row of `poll_votes`; the three columns are its primary key. */
  datatype Vote = Vote(poll: int, user: string, option: int)

  datatype Checked = Checked(poll: int, user: string, chosen: seq<int>)

  datatype System = System(
    polls: map<int, Poll>, rows: set<Vote>, nextOption: int, pending: map<nat, Checked>, gone: set<string>)

  const EMPTY := System(map[], {}, 0, map[], {})

  /** `admitted` is the eligibility and liveness check, made when the vote is checked. */
  datatype Step =
    | Create(poll: int, options: nat, allowMultiple: bool)
    | Check(id: nat, poll: int, user: string, ids: seq<int>, admitted: bool)
    | Commit(id: nat)
    | RemoveUser(user: string)

  function BallotOf(rows: set<Vote>, poll: int, user: string): set<int> {
    set v | v in rows && v.poll == poll && v.user == user :: v.option
  }

  /** Delete the voter's rows, insert the new ones: one transaction. */
  function Replaced(rows: set<Vote>, poll: int, user: string, chosen: seq<int>): set<Vote> {
    (set v | v in rows && !(v.poll == poll && v.user == user)) + (set o | o in chosen :: Vote(poll, user, o))
  }

  class VoteTable {
    var rows: set<Vote>

    constructor ()
      ensures rows == {}
    {
      rows := {};
    }

    method Replace(poll: int, user: string, chosen: seq<int>)
      modifies this
      ensures rows == Replaced(old(rows), poll, user, chosen)
    {
      rows := set v | v in rows && !(v.poll == poll && v.user == user);
      var i := 0;
      ghost var kept := rows;
      while i < |chosen|
        invariant 0 <= i <= |chosen|
        invariant rows == kept + (set o | o in chosen[..i] :: Vote(poll, user, o))
      {
        assert chosen[..i + 1] == chosen[..i] + [chosen[i]];
        rows := rows + {Vote(poll, user, chosen[i])};
        i := i + 1;
      }
      assert chosen[..i] == chosen;
    }
  }

  /** Auto-incremented ids. */
  function NewOptions(first: int, n: nat): (r: set<int>)
    ensures forall o :: o in r <==> first <= o < first + n
  {
    if n == 0 then {} else NewOptions(first, n - 1) + {first + n - 1}
  }

  function Apply(s: System, step: Step): System {
    match step
    case Create(poll, options, allowMultiple) =>
      if poll in s.polls || !(MIN_OPTIONS <= options <= MAX_OPTIONS) then s
      else
        s.(polls := s.polls[poll := Poll(NewOptions(s.nextOption, options), allowMultiple)],
           nextOption := s.nextOption + options)
    case Check(id, poll, user, ids, admitted) =>
      if id in s.pending || poll !in s.polls || !admitted then s
      else
        (match Normalised(ids, s.polls[poll].allowMultiple)
         case Err(_) => s
         case Ok(chosen) =>
           if forall o | o in chosen :: o in s.polls[poll].options then
             s.(pending := s.pending[id := Checked(poll, user, chosen)])
           else s)
    case Commit(id) =>
      if id !in s.pending then s
      else
        var c := s.pending[id];
        var done := s.(pending := s.pending - {id});
        if c.user in s.gone then done else done.(rows := Replaced(s.rows, c.poll, c.user, c.chosen))
    case RemoveUser(user) =>
      s.(rows := (set v | v in s.rows && v.user != user), gone := s.gone + {user})
  }

  function Run(s: System, steps: seq<Step>): System {
    if steps == [] then s else Apply(Run(s, steps[..|steps| - 1]), steps[|steps| - 1])
  }

  ghost predicate ValidBallot(polls: map<int, Poll>, poll: int, ballot: set<int>) {
    && poll in polls && ballot <= polls[poll].options
    && (!polls[poll].allowMultiple ==> forall a, b | a in ballot && b in ballot :: a == b)
  }

  ghost predicate RowsInv(polls: map<int, Poll>, rows: set<Vote>) {
    forall v | v in rows :: ValidBallot(polls, v.poll, BallotOf(rows, v.poll, v.user))
  }

  ghost predicate CheckedFits(polls: map<int, Poll>, c: Checked) {
    c.chosen != [] && ValidBallot(polls, c.poll, set o | o in c.chosen)
  }

  ghost predicate Inv(s: System) {
    && RowsInv(s.polls, s.rows)
    && (forall id | id in s.pending :: CheckedFits(s.polls, s.pending[id]))
    && (forall p | p in s.polls :: forall o | o in s.polls[p].options :: o < s.nextOption)
    && (forall p, q | p in s.polls && q in s.polls && p != q :: s.polls[p].options !! s.polls[q].options)
  }

  /** A vote replaces the caller's ballot on that poll, whole, and no other ballot. */
  lemma OnlyTheCallersBallot(rows: set<Vote>, poll: int, user: string, chosen: seq<int>, p: int, u: string)
    ensures BallotOf(Replaced(rows, poll, user, chosen), p, u)
            == if p == poll && u == user then (set o | o in chosen) else BallotOf(rows, p, u)
  {
    var after := Replaced(rows, poll, user, chosen);
    forall o ensures o in BallotOf(after, p, u) <==>
                     o in if p == poll && u == user then (set o | o in chosen) else BallotOf(rows, p, u)
    {
      assert o in BallotOf(after, p, u) <==> Vote(p, u, o) in after;
      assert o in BallotOf(rows, p, u) <==> Vote(p, u, o) in rows;
    }
  }

  lemma ReplacingKeepsRows(polls: map<int, Poll>, rows: set<Vote>, c: Checked)
    requires RowsInv(polls, rows) && CheckedFits(polls, c)
    ensures RowsInv(polls, Replaced(rows, c.poll, c.user, c.chosen))
  {
    var after := Replaced(rows, c.poll, c.user, c.chosen);
    forall v | v in after ensures ValidBallot(polls, v.poll, BallotOf(after, v.poll, v.user)) {
      OnlyTheCallersBallot(rows, c.poll, c.user, c.chosen, v.poll, v.user);
    }
  }

  lemma RemovingKeepsRows(polls: map<int, Poll>, rows: set<Vote>, user: string)
    requires RowsInv(polls, rows)
    ensures RowsInv(polls, set v | v in rows && v.user != user)
  {
    var after := set v | v in rows && v.user != user;
    forall v | v in after ensures ValidBallot(polls, v.poll, BallotOf(after, v.poll, v.user)) {
      assert BallotOf(after, v.poll, v.user) == BallotOf(rows, v.poll, v.user);
    }
  }

  lemma CheckedBallotFits(polls: map<int, Poll>, poll: int, user: string, ids: seq<int>)
    requires poll in polls && Normalised(ids, polls[poll].allowMultiple).Ok?
    requires forall o | o in Normalised(ids, polls[poll].allowMultiple).value :: o in polls[poll].options
    ensures CheckedFits(polls, Checked(poll, user, Normalised(ids, polls[poll].allowMultiple).value))
  {
    var chosen := Normalised(ids, polls[poll].allowMultiple).value;
    if |chosen| == 1 {
      assert forall o | o in chosen :: o == chosen[0];
    }
  }

  lemma NewPollKeepsFits(s: System, step: Step, c: Checked)
    requires step.Create? && CheckedFits(s.polls, c)
    ensures CheckedFits(Apply(s, step).polls, c)
  {
  }

  lemma NewPollKeepsRows(s: System, step: Step)
    requires step.Create? && RowsInv(s.polls, s.rows)
    ensures RowsInv(Apply(s, step).polls, s.rows)
  {
  }

  lemma StepKeepsInv(s: System, step: Step)
    requires Inv(s)
    ensures Inv(Apply(s, step))
  {
    match step
    case Create(_, _, _) =>
      NewPollKeepsRows(s, step);
      forall id | id in s.pending ensures CheckedFits(Apply(s, step).polls, s.pending[id]) {
        NewPollKeepsFits(s, step, s.pending[id]);
      }
    case Check(id, poll, user, ids, _) =>
      var t := Apply(s, step);
      if t != s { CheckedBallotFits(s.polls, poll, user, ids); }
    case Commit(id) => if id in s.pending { ReplacingKeepsRows(s.polls, s.rows, s.pending[id]); }
    case RemoveUser(user) => RemovingKeepsRows(s.polls, s.rows, user);
  }

  lemma {:induction false} RunKeepsInv(s: System, steps: seq<Step>)
    requires Inv(s)
    ensures Inv(Run(s, steps))
    decreases |steps|
  {
    if steps != [] {
      RunKeepsInv(s, steps[..|steps| - 1]);
      StepKeepsInv(Run(s, steps[..|steps| - 1]), steps[|steps| - 1]);
    }
  }

  /**
   * Over any run of creations, votes and removals, in any interleaving, whoever
   * has voted holds a non-empty ballot of that poll's own options, with one
   * element on a single-answer poll; and no option belongs to two polls.
   */
  lemma BallotsAreValid(steps: seq<Step>, v: Vote)
    requires v in Run(EMPTY, steps).rows
    ensures var s := Run(EMPTY, steps);
            var ballot := BallotOf(s.rows, v.poll, v.user);
            && v.poll in s.polls && ballot != {} && ballot <= s.polls[v.poll].options
            && (!s.polls[v.poll].allowMultiple ==> ballot == {v.option})
            && forall p | p in s.polls && v.option in s.polls[p].options :: p == v.poll
  {
    RunKeepsInv(EMPTY, steps);
    var s := Run(EMPTY, steps);
    assert v.option in BallotOf(s.rows, v.poll, v.user);
  }
}
