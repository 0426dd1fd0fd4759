/**
 * What every run of RCON commands keeps (rcon.rs), whatever the peer sends:
 * answers are made of their own packets, ids are not used twice, and the
 * connection that stays is one whose last command succeeded.
 */
module RconRuns {
  import opened Wrappers
  import opened RconWire
  import opened RconClient

  datatype Call = Call(first: Env, second: Env)

  /** The client after a run of calls, and every attempt those calls made. */
  datatype Log = Log(client: Client, attempts: seq<Attempt>)

  function RunAll(configured: bool, calls: seq<Call>): Log {
    if calls == [] then Log(Client(None, FIRST_ID), [])
    else
      var before := RunAll(configured, calls[..|calls| - 1]);
      var call := calls[|calls| - 1];
      var e := Execute(before.client, configured, call.first, call.second);
      Log(e.client, before.attempts + e.attempts)
  }

  /** An answer is the bodies of its packets, and every one carries the attempt's own id. */
  ghost predicate Answered(a: Attempt) {
    a.result.Ok? ==>
      && a.used != [] && a.result.value == Bodies(a.used)
      && forall i | 0 <= i < |a.used| :: a.used[i].id == a.id
  }

  lemma {:induction false} FoundReplyMatches(id: int, inbox: Inbox, skipped: nat)
    requires FindReply(id, inbox, skipped).Ok?
    ensures FindReply(id, inbox, skipped).value.0.id == id
    decreases |inbox|
  {
    match inbox[0]
    case Gap => FoundReplyMatches(id, inbox[1..], skipped);
    case Arrived(p) => if p.id != id { FoundReplyMatches(id, inbox[1..], skipped + 1); }
  }

  lemma {:induction false} DrainedMatch(id: int, inbox: Inbox)
    ensures forall i | 0 <= i < |Drain(id, inbox).0| ::
              Drain(id, inbox).0[i].id == id && Drain(id, inbox).0[i].kind == TYPE_RESPONSE
    decreases |inbox|
  {
    if inbox != [] {
      DrainedMatch(id, inbox[1..]);
    }
  }

  lemma AttemptIsAnswered(id: int, writes: bool, inbox: Inbox)
    ensures Answered(RunCommand(id, writes, inbox).0) && RunCommand(id, writes, inbox).0.id == id
  {
    if writes {
      match FindReply(id, inbox, 0)
      case Err(_) =>
      case Ok((first, rest)) =>
        FoundReplyMatches(id, inbox, 0);
        DrainedMatch(id, rest);
        var more := Drain(id, rest).0;
        assert ([first] + more)[1..] == more;
        assert [first] + [] == [first] && [first][1..] == [];
    }
  }

  /** The id of the attempt that `n` attempts came before. */
  function IdAfter(n: nat): int {
    Wrap32(FIRST_ID + n)
  }

  lemma NextIdFollows(n: nat)
    ensures Wrap32(IdAfter(n) + 1) == IdAfter(n + 1)
  {
  }

  ghost predicate InOrder(attempts: seq<Attempt>, before: nat) {
    forall i | 0 <= i < |attempts| :: Answered(attempts[i]) && attempts[i].id == IdAfter(before + i)
  }

  lemma TryIsInOrder(c: Client, env: Env, n: nat)
    requires c.nextId == IdAfter(n)
    ensures match TryOnce(c, env)
            case NoConnection(_) => true
            case Ran(c', a) =>
              && Answered(a) && a.id == IdAfter(n) && c'.nextId == IdAfter(n + 1)
              && (c'.held.Some? <==> a.result.Ok?)
  {
    match Connection(c.held, env.dial)
    case Err(_) =>
    case Ok(inbox) =>
      AttemptIsAnswered(c.nextId, env.writes, inbox);
      NextIdFollows(n);
  }

  lemma ExecuteIsInOrder(c: Client, configured: bool, first: Env, second: Env, n: nat)
    requires c.nextId == IdAfter(n)
    ensures var e := Execute(c, configured, first, second);
            InOrder(e.attempts, n) && e.client.nextId == IdAfter(n + |e.attempts|)
  {
    TryIsInOrder(c, first, n);
    var t := TryOnce(c, first);
    if configured && t.Ran? && t.attempt.result.Err? {
      TryIsInOrder(t.client, second, n + 1);
    }
  }

  lemma {:induction false} RunIsInOrder(configured: bool, calls: seq<Call>)
    ensures var log := RunAll(configured, calls);
            InOrder(log.attempts, 0) && log.client.nextId == IdAfter(|log.attempts|)
    decreases |calls|
  {
    if calls != [] {
      var before := RunAll(configured, calls[..|calls| - 1]);
      var call := calls[|calls| - 1];
      RunIsInOrder(configured, calls[..|calls| - 1]);
      ExecuteIsInOrder(before.client, configured, call.first, call.second, |before.attempts|);
      var e := Execute(before.client, configured, call.first, call.second);
      forall i | 0 <= i < |e.attempts|
        ensures Answered(e.attempts[i]) && e.attempts[i].id == IdAfter(|before.attempts| + i)
      {
      }
    }
  }

  /** Two attempts share an id exactly when a multiple of 2^32 attempts lies between them. */
  lemma IdsRepeatOnlyOnWrap(i: nat, j: nat)
    ensures IdAfter(i) == IdAfter(j) <==> (j - i) % TWO_32 == 0
  {
  }

  /**
   * In any run of calls against any peer: every answer is its own packets' bodies,
   * and -- until the 32-bit id comes round -- no packet answers two attempts.
   */
  lemma AnswersAreTheirOwn(configured: bool, calls: seq<Call>, i: nat, j: nat)
    requires i < j < |RunAll(configured, calls).attempts| && j - i < TWO_32
    ensures var a, b := RunAll(configured, calls).attempts[i], RunAll(configured, calls).attempts[j];
            && Answered(a) && Answered(b) && a.id != b.id
            && (a.result.Ok? && b.result.Ok? ==> forall p | p in a.used :: p !in b.used)
  {
    RunIsInOrder(configured, calls);
    IdsRepeatOnlyOnWrap(i, j);
  }

  /** One call: at most one retry, none after a failed connection, and only a success leaves a connection. */
  lemma OneRetryAtMost(c: Client, first: Env, second: Env)
    ensures var e := Execute(c, true, first, second);
            && |e.attempts| <= 2
            && (TryOnce(c, first).NoConnection? ==> e.attempts == [] && e.result == Err(TryOnce(c, first).error) && e.client == c)
            && (e.result.Ok? <==> |e.attempts| > 0 && e.attempts[|e.attempts| - 1].result.Ok?)
            && (|e.attempts| == 2 ==> e.attempts[0].result.Err?)
            && (e.result.Ok? ==> e.client.held.Some?)
            && (e.result.Err? ==> e.client.held.None?)
  {
  }

  /** What arrived on a connection and is not part of the present reply. */
  ghost predicate Stale(id: int, inbox: Inbox) {
    forall i | 0 <= i < |inbox| :: inbox[i].Gap? || (inbox[i].Arrived? && inbox[i].packet.id != id)
  }

  function Packets(inbox: Inbox): nat {
    if inbox == [] then 0 else (if inbox[0].Arrived? then 1 else 0) + Packets(inbox[1..])
  }

  /** Stale packets are passed over, up to the limit and not one further. */
  lemma {:induction false} StaleIsSkipped(id: int, stale: Inbox, p: Packet, rest: Inbox, skipped: nat)
    requires Stale(id, stale) && p.id == id && skipped <= MAX_SKIPPED_PACKETS
    ensures FindReply(id, stale + ([Arrived(p)] + rest), skipped)
            == if skipped + Packets(stale) <= MAX_SKIPPED_PACKETS then Ok((p, rest)) else Err(Protocol)
    decreases |stale|
  {
    var inbox := stale + ([Arrived(p)] + rest);
    if stale == [] {
      assert inbox == [Arrived(p)] + rest;
      assert inbox[1..] == rest;
    } else {
      assert inbox[0] == stale[0] && inbox[1..] == stale[1..] + ([Arrived(p)] + rest);
      if stale[0].Gap? {
        StaleIsSkipped(id, stale[1..], p, rest, skipped);
      } else if skipped < MAX_SKIPPED_PACKETS {
        StaleIsSkipped(id, stale[1..], p, rest, skipped + 1);
      }
    }
  }

  /** The remaining packets of a reply, as they arrive. */
  function Arriving(ps: seq<Packet>): Inbox {
    if ps == [] then [] else [Arrived(ps[0])] + Arriving(ps[1..])
  }

  /** Something that ends a reply: silence, a break, or another packet. */
  ghost predicate Ends(id: int, rest: Inbox) {
    rest == [] || !rest[0].Arrived? || rest[0].packet.id != id || rest[0].packet.kind != TYPE_RESPONSE
  }

  lemma {:induction false} DrainTakesTheReply(id: int, ps: seq<Packet>, rest: Inbox)
    requires (forall i | 0 <= i < |ps| :: ps[i].id == id && ps[i].kind == TYPE_RESPONSE) && Ends(id, rest)
    ensures Drain(id, Arriving(ps) + rest).0 == ps
    decreases |ps|
  {
    if ps == [] {
      assert Arriving(ps) + rest == rest;
    } else {
      var inbox := Arriving(ps) + rest;
      assert inbox[0] == Arrived(ps[0]) && inbox[1..] == Arriving(ps[1..]) + rest;
      DrainTakesTheReply(id, ps[1..], rest);
      assert ps == [ps[0]] + ps[1..];
    }
  }

  /**
   * A reply split over several packets, behind stale ones, comes back whole --
   * exactly when at most 16 stale packets precede it and its first packet is long
   * enough to have been split (or nothing more was to come).
   */
  lemma SplitReplyIsWhole(id: int, stale: Inbox, first: Packet, more: seq<Packet>, rest: Inbox)
    requires Stale(id, stale) && first.id == id && Ends(id, rest)
    requires forall i | 0 <= i < |more| :: more[i].id == id && more[i].kind == TYPE_RESPONSE
    ensures RunCommand(id, true, stale + ([Arrived(first)] + (Arriving(more) + rest))).0.result
              == Ok(first.body + Bodies(more))
            <==> Packets(stale) <= MAX_SKIPPED_PACKETS && (|first.body| >= SPLIT_THRESHOLD || Bodies(more) == [])
  {
    StaleIsSkipped(id, stale, first, Arriving(more) + rest, 0);
    DrainTakesTheReply(id, more, rest);
    if |first.body| < SPLIT_THRESHOLD {
      assert first.body + [] == first.body;
      if Bodies(more) != [] {
        assert |first.body + Bodies(more)| > |first.body|;
      }
    }
  }

  /** A connection that died while idle is replaced, and the caller sees only the answer. */
  lemma DeadConnectionIsReplaced(c: Client, first: Env, second: Env, inbox: Inbox)
    requires c.held.Some? && RunCommand(c.nextId, first.writes, c.held.value).0.result.Err?
    requires second.dial.Opened? && Authenticate(second.dial.inbox) == Ok(inbox)
    ensures Execute(c, true, first, second).result
            == RunCommand(Wrap32(c.nextId + 1), second.writes, inbox).0.result
  {
  }
}
