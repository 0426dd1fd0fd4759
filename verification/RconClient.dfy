/**
 * The RCON client (rcon.rs): one held connection, one retry, stale replies
 * skipped, long replies drained. Packets arrive whole; what will arrive on a
 * connection, and when it falls silent or breaks, is the environment's choice.
 */
module RconClient {
  import opened Wrappers
  import opened Bytes
  import opened Sequences
  import opened RconWire

  const TYPE_COMMAND := 2
  const TYPE_RESPONSE := 0
  const AUTH_FAILED := -1
  const FIRST_ID := 10
  const SPLIT_THRESHOLD: nat := 4000
  const MAX_SKIPPED_PACKETS: nat := 16

  datatype RconError = NotConfigured | Connect | Auth | Protocol | Io

  /** A packet, a silence longer than the drain window, or a read that fails. */
  datatype Incoming = Arrived(packet: Packet) | Gap | Broken(error: RconError)

  type Inbox = seq<Incoming>

  datatype Dial = Refused(error: RconError) | Opened(inbox: Inbox)

  /** What the environment does to one attempt: its dial, if it needs one, and its write. */
  datatype Env = Env(dial: Dial, writes: bool)

  /** The auth outcome is the first packet of type COMMAND. */
  function Authenticate(inbox: Inbox): Result<Inbox, RconError> {
    if inbox == [] then Err(Io)
    else
      match inbox[0]
      case Broken(e) => Err(e)
      case Gap => Authenticate(inbox[1..])
      case Arrived(p) =>
        if p.kind != TYPE_COMMAND then Authenticate(inbox[1..])
        else if p.id == AUTH_FAILED then Err(Auth)
        else Ok(inbox[1..])
  }

  /** The first packet that carries `id`, and what comes after it. */
  function FindReply(id: int, inbox: Inbox, skipped: nat): Result<(Packet, Inbox), RconError> {
    if inbox == [] then Err(Io)
    else
      match inbox[0]
      case Broken(e) => Err(e)
      case Gap => FindReply(id, inbox[1..], skipped)
      case Arrived(p) =>
        if p.id == id then Ok((p, inbox[1..]))
        else if skipped + 1 > MAX_SKIPPED_PACKETS then Err(Protocol)
        else FindReply(id, inbox[1..], skipped + 1)
  }

  /** Further packets of the same reply, up to the first thing that is not one. */
  function Drain(id: int, inbox: Inbox): (seq<Packet>, Inbox) {
    if inbox == [] then ([], [])
    else if inbox[0].Arrived? && inbox[0].packet.id == id && inbox[0].packet.kind == TYPE_RESPONSE then
      var (more, rest) := Drain(id, inbox[1..]);
      ([inbox[0].packet] + more, rest)
    else ([], inbox[1..])
  }

  function Bodies(ps: seq<Packet>): seq<Byte> {
    if ps == [] then [] else ps[0].body + Bodies(ps[1..])
  }

  /** One attempt's trace: the packets its answer was made of, and the answer. */
  datatype Attempt = Attempt(id: int, used: seq<Packet>, result: Result<seq<Byte>, RconError>)

  function RunCommand(id: int, writes: bool, inbox: Inbox): (Attempt, Inbox) {
    if !writes then (Attempt(id, [], Err(Io)), inbox)
    else
      match FindReply(id, inbox, 0)
      case Err(e) => (Attempt(id, [], Err(e)), inbox)
      case Ok((first, rest)) =>
        var (more, left) := if |first.body| >= SPLIT_THRESHOLD then Drain(id, rest) else ([], rest);
        (Attempt(id, [first] + more, Ok(first.body + Bodies(more))), left)
  }

  datatype Client = Client(held: Option<Inbox>, nextId: int)

  function Connection(held: Option<Inbox>, dial: Dial): Result<Inbox, RconError> {
    match held
    case Some(inbox) => Ok(inbox)
    case None => match dial case Refused(e) => Err(e) case Opened(inbox) => Authenticate(inbox)
  }

  datatype Try = NoConnection(error: RconError) | Ran(client: Client, attempt: Attempt)

  function TryOnce(c: Client, env: Env): Try {
    match Connection(c.held, env.dial)
    case Err(e) => NoConnection(e)
    case Ok(inbox) =>
      var (attempt, rest) := RunCommand(c.nextId, env.writes, inbox);
      Ran(Client(if attempt.result.Ok? then Some(rest) else None, Wrap32(c.nextId + 1)), attempt)
  }

  datatype Execution = Execution(client: Client, attempts: seq<Attempt>, result: Result<seq<Byte>, RconError>)

  function Execute(c: Client, configured: bool, first: Env, second: Env): Execution {
    if !configured then Execution(c, [], Err(NotConfigured))
    else
      match TryOnce(c, first)
      case NoConnection(e) => Execution(c, [], Err(e))
      case Ran(c1, a1) =>
        if a1.result.Ok? then Execution(c1, [a1], a1.result)
        else
          match TryOnce(c1, second)
          case NoConnection(e) => Execution(c1, [a1], Err(e))
          case Ran(c2, a2) => Execution(c2, [a1, a2], a2.result)
  }

  class RconConnection {
    const configured: bool
    var held: Option<Inbox>
    var nextId: int

    constructor (configured: bool)
      ensures held == None && nextId == FIRST_ID && this.configured == configured
    {
      this.configured := configured;
      held := None;
      nextId := FIRST_ID;
    }

    /** `run_command`: write, look for this request's reply, then drain what follows it. */
    method RunOn(inbox: Inbox, id: int, writes: bool) returns (r: Result<seq<Byte>, RconError>, rest: Inbox)
      ensures r == RunCommand(id, writes, inbox).0.result
      ensures r.Ok? ==> rest == RunCommand(id, writes, inbox).1
    {
      rest := inbox;
      if !writes {
        return Err(Io), rest;
      }
      var output: seq<Byte> := [];
      var skipped := 0;
      while true
        invariant FindReply(id, rest, skipped) == FindReply(id, inbox, 0)
        decreases |rest|
      {
        if rest == [] {
          return Err(Io), rest;
        }
        var next := rest[0];
        rest := rest[1..];
        match next {
          case Broken(e) => return Err(e), rest;
          case Gap =>
          case Arrived(p) =>
            if p.id == id {
              output := p.body;
              break;
            }
            skipped := skipped + 1;
            if skipped > MAX_SKIPPED_PACKETS {
              return Err(Protocol), rest;
            }
        }
      }
      if |output| < SPLIT_THRESHOLD {
        assert output + Bodies([]) == output;
        return Ok(output), rest;
      }
      ghost var (more, left) := Drain(id, rest);
      ghost var whole := output + Bodies(more);
      while rest != []
        invariant whole == output + Bodies(Drain(id, rest).0) && left == Drain(id, rest).1
        decreases |rest|
      {
        var next := rest[0];
        ghost var tail := Drain(id, rest[1..]).0;
        rest := rest[1..];
        if !next.Arrived? || next.packet.id != id || next.packet.kind != TYPE_RESPONSE {
          assert output + Bodies([]) == output;
          return Ok(output), rest;
        }
        assert ([next.packet] + tail)[1..] == tail;
        AppendIsAssociative(output, next.packet.body, Bodies(tail));
        output := output + next.packet.body;
      }
      assert output + Bodies([]) == output;
      return Ok(output), rest;
    }

    /** `execute_within`. */
    method ExecuteWithin(first: Env, second: Env) returns (r: Result<seq<Byte>, RconError>)
      modifies this
      ensures r == Execute(old(Client(held, nextId)), configured, first, second).result
      ensures Client(held, nextId) == Execute(old(Client(held, nextId)), configured, first, second).client
    {
      if !configured {
        return Err(NotConfigured);
      }
      r := Err(Io);
      var attempt := 0;
      while attempt < 2
        invariant 0 <= attempt <= 2
        invariant attempt == 0 ==> Client(held, nextId) == old(Client(held, nextId))
        invariant attempt == 1 ==>
          TryOnce(old(Client(held, nextId)), first).Ran? &&
          TryOnce(old(Client(held, nextId)), first).client == Client(held, nextId) &&
          TryOnce(old(Client(held, nextId)), first).attempt.result == r && r.Err?
        invariant attempt == 2 ==>
          Execute(old(Client(held, nextId)), configured, first, second).client == Client(held, nextId) &&
          Execute(old(Client(held, nextId)), configured, first, second).result == r
      {
        var env := if attempt == 0 then first else second;
        var stream := Connection(held, env.dial);
        if stream.Err? {
          return Err(stream.error);
        }
        var id := nextId;
        nextId := Wrap32(nextId + 1);
        var outcome, rest := RunOn(stream.value, id, env.writes);
        if outcome.Ok? {
          held := Some(rest);
          return outcome;
        }
        held := None;
        r := outcome;
        attempt := attempt + 1;
      }
    }
  }
}
