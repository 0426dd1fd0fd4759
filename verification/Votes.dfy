/**
 * What one vote does (routes/polls.rs, `normalise_choice` and `cast_vote`): which
 * choices are taken and as what, and what the ballots are once it is written,
 * whatever other requests come in between.
 */
module Votes {
  import opened Wrappers
  import opened Sequences
  import opened Ballots

  function Chosen(ids: seq<int>): set<int> {
    set o | o in ids
  }

  lemma {:induction false} NoRepeatsCount(s: seq<int>)
    requires NoRepeats(s)
    ensures |s| == |Chosen(s)|
    decreases |s|
  {
    if s == [] {
      assert Chosen(s) == {};
    } else {
      NoRepeatsCount(s[1..]);
      assert s == [s[0]] + s[1..];
      assert Chosen(s) == Chosen(s[1..]) + {s[0]};
      assert s[0] !in Chosen(s[1..]);
    }
  }

  /** How often and what is chosen: what is accepted, and the reason for each refusal. */
  lemma AnswerToAChoice(ids: seq<int>, allowMultiple: bool)
    ensures var r := Normalised(ids, allowMultiple);
            && (r == Err(NothingChosen) <==> ids == [])
            && (r == Err(OneAnswerOnly) <==> !allowMultiple && |Chosen(ids)| > 1)
            && (r == Err(TooManyChosen) <==> allowMultiple && |Chosen(ids)| > 10)
            && (r.Ok? ==> Chosen(r.value) == Chosen(ids) && NoRepeats(r.value))
  {
    NoRepeatsCount(Distinct(ids));
    assert Chosen(Distinct(ids)) == Chosen(ids);
    if ids != [] { assert ids[0] in Chosen(ids); }
  }

  /** What is chosen twice stands where it came first. */
  lemma {:induction false} InTheOrderGiven(ids: seq<int>, i: nat, j: nat)
    requires i < j < |Distinct(ids)|
    ensures exists n: nat :: n < |ids| && ids[n] == Distinct(ids)[i] && Distinct(ids)[j] !in ids[..n + 1]
    decreases |ids|
  {
    var n := |ids| - 1;
    var before := Distinct(ids[..n]);
    assert ids == ids[..n] + [ids[n]];
    if j < |before| {
      InTheOrderGiven(ids[..n], i, j);
      var k: nat :| k < n && ids[..n][k] == before[i] && before[j] !in ids[..n][..k + 1];
      assert ids[k] == before[i] && ids[..n][..k + 1] == ids[..k + 1];
    } else {
      assert before[i] in ids[..n];
      var k: nat :| k < n && ids[k] == before[i];
      forall m | 0 <= m < k + 1 ensures ids[m] != ids[n] {
        assert ids[m] in ids[..n];
      }
    }
  }

  /** A choice the poll takes. */
  ghost predicate Takes(poll: Poll, ids: seq<int>) {
    && ids != [] && Chosen(ids) <= poll.options && |Chosen(ids)| <= 10
    && (!poll.allowMultiple ==> |Chosen(ids)| == 1)
  }

  lemma TakenIsChecked(s: System, id: nat, poll: int, user: string, ids: seq<int>)
    requires id !in s.pending && poll in s.polls && Takes(s.polls[poll], ids)
    ensures exists chosen ::
              Chosen(chosen) == Chosen(ids)
              && Apply(s, Check(id, poll, user, ids, true)) == s.(pending := s.pending[id := Checked(poll, user, chosen)])
  {
    AnswerToAChoice(ids, s.polls[poll].allowMultiple);
    var chosen := Normalised(ids, s.polls[poll].allowMultiple).value;
    assert forall o | o in chosen :: o in Chosen(ids);
  }

  ghost predicate NeverCommits(steps: seq<Step>, id: nat) {
    forall i | 0 <= i < |steps| :: steps[i] != Commit(id)
  }

  lemma {:induction false} WaitsUntilCommitted(s: System, steps: seq<Step>, id: nat, c: Checked)
    requires id in s.pending && s.pending[id] == c && NeverCommits(steps, id)
    ensures id in Run(s, steps).pending && Run(s, steps).pending[id] == c
    decreases |steps|
  {
    if steps != [] {
      WaitsUntilCommitted(s, steps[..|steps| - 1], id, c);
    }
  }

  /**
   * A vote that is taken makes what it chose the voter's ballot on that poll at
   * its commit, whatever that was by then, and leaves every other ballot, poll and
   * request alone -- unless the account is gone, when it changes nothing.
   */
  lemma VoteIsCast(
    s: System, id: nat, poll: int, user: string, ids: seq<int>, between: seq<Step>, p: int, w: string)
    requires id !in s.pending && poll in s.polls && Takes(s.polls[poll], ids) && NeverCommits(between, id)
    ensures var u := Run(Apply(s, Check(id, poll, user, ids, true)), between);
            var t := Apply(u, Commit(id));
            && t.polls == u.polls && t.gone == u.gone && t.pending == u.pending - {id}
            && BallotOf(t.rows, p, w)
               == if p == poll && w == user && user !in u.gone then Chosen(ids) else BallotOf(u.rows, p, w)
  {
    TakenIsChecked(s, id, poll, user, ids);
    var checked := Apply(s, Check(id, poll, user, ids, true));
    var chosen := checked.pending[id].chosen;
    WaitsUntilCommitted(checked, between, id, Checked(poll, user, chosen));
    OnlyTheCallersBallot(Run(checked, between).rows, poll, user, chosen, p, w);
  }

  /** Any other vote changes nothing. */
  lemma OtherVoteChangesNothing(s: System, id: nat, poll: int, user: string, ids: seq<int>, admitted: bool)
    requires !admitted || poll !in s.polls || !Takes(s.polls[poll], ids)
    ensures Apply(s, Check(id, poll, user, ids, admitted)) == s
  {
    if poll in s.polls {
      AnswerToAChoice(ids, s.polls[poll].allowMultiple);
      NoRepeatsCount(Distinct(ids));
      if Normalised(ids, s.polls[poll].allowMultiple).Ok? {
        var chosen := Normalised(ids, s.polls[poll].allowMultiple).value;
        assert Chosen(chosen) == Chosen(ids);
        assert (forall o | o in chosen :: o in s.polls[poll].options) ==> Chosen(ids) <= s.polls[poll].options;
      }
    }
  }

  lemma {:induction false} OptionsCount(first: int, n: nat)
    ensures |NewOptions(first, n)| == n
    decreases n
  {
    if n > 0 {
      OptionsCount(first, n - 1);
    }
  }

  /** A new poll has as many options as it was given, from two to ten, none of them any other poll's. */
  lemma PollIsCreated(s: System, poll: int, options: nat, allowMultiple: bool)
    requires Ballots.Inv(s)
    ensures var t := Apply(s, Create(poll, options, allowMultiple));
            if poll !in s.polls && 2 <= options <= 10
            then && t.polls.Keys == s.polls.Keys + {poll} && (forall p | p in s.polls :: t.polls[p] == s.polls[p])
                 && |t.polls[poll].options| == options && t.polls[poll].allowMultiple == allowMultiple
                 && (forall p | p in s.polls :: t.polls[p].options !! t.polls[poll].options)
                 && t.rows == s.rows && t.pending == s.pending && t.gone == s.gone
            else t == s
  {
    OptionsCount(s.nextOption, options);
  }

  /** With an account go all its votes and nobody else's. */
  lemma AccountGoes(s: System, user: string, p: int, w: string)
    ensures var t := Apply(s, RemoveUser(user));
            && BallotOf(t.rows, p, w) == (if w == user then {} else BallotOf(s.rows, p, w))
            && t.polls == s.polls && t.pending == s.pending && t.gone == s.gone + {user}
  {
    var t := Apply(s, RemoveUser(user));
    assert forall o :: o in BallotOf(t.rows, p, w) <==> Vote(p, w, o) in t.rows;
    assert forall o :: o in BallotOf(s.rows, p, w) <==> Vote(p, w, o) in s.rows;
  }
}
