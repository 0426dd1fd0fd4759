/**
 * What one RCON call answers, by what the peer sends (rcon.rs,
 * `connect_and_auth`, `run_command` and `execute_within`): when a login is
 * refused, when a call is answered, what stays unread, and what a retry saves.
 */
module RconCalls {
  import opened Wrappers
  import opened RconWire
  import opened RconClient
  import opened RconRuns

  // ---- The login ----

  /** What a login passes over: silence, and packets that are not of type 2. */
  ghost predicate BeforeTheVerdict(before: Inbox) {
    forall i | 0 <= i < |before| :: before[i].Gap? || (before[i].Arrived? && before[i].packet.kind != 2)
  }

  /** What ends one: the connection, an error, or the first packet of type 2, refused by the id -1. */
  function VerdictOf(rest: Inbox): Result<Inbox, RconError> {
    if rest == [] then Err(Io)
    else if rest[0].Broken? then Err(rest[0].error)
    else if rest[0].Arrived? && rest[0].packet.id == -1 then Err(Auth)
    else Ok(rest[1..])
  }

  ghost predicate BeginsWithAVerdict(rest: Inbox) {
    rest != [] ==> rest[0].Broken? || (rest[0].Arrived? && rest[0].packet.kind == 2)
  }

  lemma {:induction false} LoginIsDecided(before: Inbox, rest: Inbox)
    requires BeforeTheVerdict(before) && BeginsWithAVerdict(rest)
    ensures Authenticate(before + rest) == VerdictOf(rest)
    decreases |before|
  {
    if before == [] {
      assert before + rest == rest;
    } else {
      assert (before + rest)[1..] == before[1..] + rest && (before + rest)[0] == before[0];
      LoginIsDecided(before[1..], rest);
    }
  }

  /** Every inbox is one of those. */
  lemma {:induction false} LoginSplits(inbox: Inbox) returns (before: Inbox, rest: Inbox)
    ensures inbox == before + rest && BeforeTheVerdict(before) && BeginsWithAVerdict(rest)
    decreases |inbox|
  {
    if BeginsWithAVerdict(inbox) {
      before, rest := [], inbox;
    } else {
      before, rest := LoginSplits(inbox[1..]);
      before := [inbox[0]] + before;
    }
  }

  /** A login succeeds exactly when the first packet of type 2 arrives unbroken and does not carry the id -1. */
  lemma LoggedInExactly(inbox: Inbox, rest: Inbox)
    ensures Authenticate(inbox) == Ok(rest) <==>
            exists before, p: Packet ::
              BeforeTheVerdict(before) && p.kind == 2 && p.id != -1 && inbox == before + ([Arrived(p)] + rest)
  {
    if Authenticate(inbox) == Ok(rest) {
      var before, verdict := LoginSplits(inbox);
      LoginIsDecided(before, verdict);
      assert verdict == [Arrived(verdict[0].packet)] + rest;
    }
    forall before, p: Packet |
      BeforeTheVerdict(before) && p.kind == 2 && p.id != -1 && inbox == before + ([Arrived(p)] + rest)
      ensures Authenticate(inbox) == Ok(rest)
    {
      LoginIsDecided(before, [Arrived(p)] + rest);
      assert ([Arrived(p)] + rest)[1..] == rest;
    }
  }

  /** A refused password ends the call: no attempt, no retry, and the client as it was. */
  lemma RefusedLoginEndsTheCall(c: Client, first: Env, second: Env, before: Inbox, p: Packet, rest: Inbox)
    requires c.held.None? && first.dial == Opened(before + ([Arrived(p)] + rest))
    requires BeforeTheVerdict(before) && p.kind == 2 && p.id == -1
    ensures Execute(c, true, first, second) == Execution(c, [], Err(Auth))
  {
    LoginIsDecided(before, [Arrived(p)] + rest);
  }

  /** So does a connection that is refused, and a login that breaks; and without a password nothing is dialled. */
  lemma UnreachedServerEndsTheCall(c: Client, first: Env, second: Env, before: Inbox, e: RconError, rest: Inbox)
    requires c.held.None? && BeforeTheVerdict(before)
    requires first.dial in {Refused(e), Opened(before + ([Broken(e)] + rest))}
    ensures Execute(c, true, first, second) == Execution(c, [], Err(e))
    ensures Execute(c, false, first, second) == Execution(c, [], Err(NotConfigured))
  {
    LoginIsDecided(before, [Broken(e)] + rest);
  }

  // ---- One attempt ----

  /** The rest of an attempt that goes well: the reply's packets, and what is left after them. */
  lemma {:induction false} DrainLeaves(id: int, ps: seq<Packet>, rest: Inbox)
    requires (forall i | 0 <= i < |ps| :: ps[i].id == id && ps[i].kind == 0) && Ends(id, rest)
    ensures Drain(id, Arriving(ps) + rest) == (ps, if rest == [] then [] else rest[1..])
    decreases |ps|
  {
    if ps == [] {
      assert Arriving(ps) + rest == rest;
    } else {
      var inbox := Arriving(ps) + rest;
      assert inbox[0] == Arrived(ps[0]) && inbox[1..] == Arriving(ps[1..]) + rest;
      DrainLeaves(id, ps[1..], rest);
      assert ps == [ps[0]] + ps[1..];
    }
  }

  /** A reply of under 4000 bytes behind up to 16 stale packets is the answer, and nothing after it is read. */
  lemma ShortReplyIsTheAnswer(id: int, stale: Inbox, reply: Packet, rest: Inbox)
    requires Stale(id, stale) && Packets(stale) <= 16 && reply.id == id && |reply.body| < 4000
    ensures RunCommand(id, true, stale + ([Arrived(reply)] + rest)) == (Attempt(id, [reply], Ok(reply.body)), rest)
  {
    StaleIsSkipped(id, stale, reply, rest, 0);
    assert [reply] + [] == [reply] && reply.body + [] == reply.body;
  }

  /** A longer one is drained to the first thing that is not part of it, which is read and dropped. */
  lemma LongReplyIsDrained(id: int, stale: Inbox, reply: Packet, more: seq<Packet>, rest: Inbox)
    requires Stale(id, stale) && Packets(stale) <= 16 && reply.id == id && |reply.body| >= 4000
    requires (forall i | 0 <= i < |more| :: more[i].id == id && more[i].kind == 0) && Ends(id, rest)
    ensures RunCommand(id, true, stale + ([Arrived(reply)] + (Arriving(more) + rest)))
            == (Attempt(id, [reply] + more, Ok(reply.body + Bodies(more))), if rest == [] then [] else rest[1..])
  {
    StaleIsSkipped(id, stale, reply, Arriving(more) + rest, 0);
    DrainLeaves(id, more, rest);
  }

  /** Without a reply, an attempt fails as the connection did, or by the 17th stale packet. */
  lemma {:induction false} NoReply(id: int, stale: Inbox, end: Inbox, skipped: nat)
    requires Stale(id, stale) && (end != [] ==> end[0].Broken?) && skipped <= 16
    ensures FindReply(id, stale + end, skipped)
            == if skipped + Packets(stale) > 16 then Err(Protocol) else if end == [] then Err(Io) else Err(end[0].error)
    decreases |stale|
  {
    if stale == [] {
      assert stale + end == end;
    } else {
      assert (stale + end)[0] == stale[0] && (stale + end)[1..] == stale[1..] + end;
      if stale[0].Gap? {
        NoReply(id, stale[1..], end, skipped);
      } else if skipped < 16 {
        NoReply(id, stale[1..], end, skipped + 1);
      }
    }
  }

  /** An attempt that cannot be written, or to which no reply comes before the connection ends. */
  ghost predicate Fails(id: int, writes: bool, inbox: Inbox) {
    !writes || exists stale: Inbox, end: Inbox :: inbox == stale + end && Stale(id, stale) && (end != [] ==> end[0].Broken?)
  }

  lemma FailedAttempt(id: int, writes: bool, inbox: Inbox)
    requires Fails(id, writes, inbox)
    ensures RunCommand(id, writes, inbox).0.used == [] && RunCommand(id, writes, inbox).0.result.Err?
  {
    if writes {
      var stale: Inbox, end: Inbox :| inbox == stale + end && Stale(id, stale) && (end != [] ==> end[0].Broken?);
      NoReply(id, stale, end, 0);
    }
  }

  // ---- The whole call ----

  /** A call on a connection that is held, answered at once. */
  lemma HeldConnectionAnswers(c: Client, first: Env, second: Env, stale: Inbox, reply: Packet, rest: Inbox)
    requires c.held == Some(stale + ([Arrived(reply)] + rest)) && first.writes
    requires Stale(c.nextId, stale) && Packets(stale) <= 16 && reply.id == c.nextId && |reply.body| < 4000
    ensures Execute(c, true, first, second)
            == Execution(Client(Some(rest), Wrap32(c.nextId + 1)), [Attempt(c.nextId, [reply], Ok(reply.body))], Ok(reply.body))
  {
    ShortReplyIsTheAnswer(c.nextId, stale, reply, rest);
  }

  /** A connection that opens, lets the client in, and answers a short reply behind stale packets. */
  ghost predicate Serves(env: Env, id: int, reply: Packet, rest: Inbox) {
    && env.writes && reply.id == id && |reply.body| < 4000
    && exists before, login: Packet, stale ::
         && BeforeTheVerdict(before) && login.kind == 2 && login.id != -1
         && Stale(id, stale) && Packets(stale) <= 16
         && env.dial == Opened(before + ([Arrived(login)] + (stale + ([Arrived(reply)] + rest))))
  }

  lemma ServedTry(c: Client, env: Env, reply: Packet, rest: Inbox)
    requires c.held.None? && Serves(env, c.nextId, reply, rest)
    ensures TryOnce(c, env)
            == Ran(Client(Some(rest), Wrap32(c.nextId + 1)), Attempt(c.nextId, [reply], Ok(reply.body)))
  {
    var before, login: Packet, stale :|
      && BeforeTheVerdict(before) && login.kind == 2 && login.id != -1
      && Stale(c.nextId, stale) && Packets(stale) <= 16
      && env.dial == Opened(before + ([Arrived(login)] + (stale + ([Arrived(reply)] + rest))));
    var inbox := stale + ([Arrived(reply)] + rest);
    LoginIsDecided(before, [Arrived(login)] + inbox);
    assert ([Arrived(login)] + inbox)[1..] == inbox;
    ShortReplyIsTheAnswer(c.nextId, stale, reply, rest);
  }

  /** A client that holds no connection dials one and gets its answer. */
  lemma NewConnectionAnswers(c: Client, first: Env, second: Env, reply: Packet, rest: Inbox)
    requires c.held.None? && Serves(first, c.nextId, reply, rest)
    ensures Execute(c, true, first, second)
            == Execution(Client(Some(rest), Wrap32(c.nextId + 1)), [Attempt(c.nextId, [reply], Ok(reply.body))], Ok(reply.body))
  {
    ServedTry(c, first, reply, rest);
  }

  /** A held connection that fails is replaced once, under the next id, and the caller gets the new one's answer. */
  lemma RetryAnswers(c: Client, first: Env, second: Env, reply: Packet, rest: Inbox)
    requires c.held.Some? && Fails(c.nextId, first.writes, c.held.value)
    requires Serves(second, Wrap32(c.nextId + 1), reply, rest)
    ensures var e := Execute(c, true, first, second);
            && e.client == Client(Some(rest), Wrap32(Wrap32(c.nextId + 1) + 1)) && e.result == Ok(reply.body)
            && |e.attempts| == 2 && e.attempts[1].used == [reply]
  {
    FailedAttempt(c.nextId, first.writes, c.held.value);
    ServedTry(Client(None, Wrap32(c.nextId + 1)), second, reply, rest);
  }

  /** ... and when that one refuses the password, the refusal. */
  lemma RetryRefused(c: Client, first: Env, second: Env, before: Inbox, p: Packet, rest: Inbox)
    requires c.held.Some? && Fails(c.nextId, first.writes, c.held.value)
    requires BeforeTheVerdict(before) && p.kind == 2 && p.id == -1 && second.dial == Opened(before + ([Arrived(p)] + rest))
    ensures var e := Execute(c, true, first, second);
            e.client == Client(None, Wrap32(c.nextId + 1)) && e.result == Err(Auth) && |e.attempts| == 1
  {
    FailedAttempt(c.nextId, first.writes, c.held.value);
    LoginIsDecided(before, [Arrived(p)] + rest);
  }
}
