/**
 * The console's fan-out point (console/mod.rs, `LogHub`): a bounded replay
 * buffer and a broadcast channel, and the arrival numbers shared by every hub.
 */
module LogHub {
  import opened Sequences

  datatype Line = Line(number: nat, text: string)

  /** Lines a receiver may fall behind before the channel drops the oldest. */
  const CHANNEL_CAPACITY: nat := 1024

  function Texts(lines: seq<Line>): (r: seq<string>)
    ensures |r| == |lines| && forall i | 0 <= i < |r| :: r[i] == lines[i].text
  {
    seq(|lines|, i requires 0 <= i < |lines| => lines[i].text)
  }

  ghost predicate Increasing(lines: seq<Line>) {
    forall i, j | 0 <= i < j < |lines| :: lines[i].number < lines[j].number
  }

  /** What the next `recv` of a receiver standing at `next` finds in the channel. */
  datatype Received = Empty | Message(line: Line) | Lagged(missed: nat)

  function Receive(sent: seq<Line>, next: nat): Received
    requires next <= |sent|
  {
    if next + CHANNEL_CAPACITY < |sent| then Lagged(|sent| - CHANNEL_CAPACITY - next)
    else if next < |sent| then Message(sent[next])
    else Empty
  }

  /** The process-wide arrival counter, `SEQUENCE`. */
  class Sequence {
    var next: nat

    constructor ()
      ensures next == 0
    {
      next := 0;
    }
  }

  /** The sending half of the channel, as the list of everything it ever sent. */
  class Channel {
    var sent: seq<Line>

    constructor ()
      ensures sent == []
    {
      sent := [];
    }
  }

  class Receiver {
    const channel: Channel
    var next: nat

    ghost predicate Valid()
      reads this, channel
    {
      next <= |channel.sent|
    }

    constructor (channel: Channel)
      ensures this.channel == channel && next == |channel.sent| && Valid()
    {
      this.channel := channel;
      next := |channel.sent|;
    }

    /** Each call moves past exactly what it returned or reported lost. */
    method Recv() returns (r: Received)
      requires Valid()
      modifies this
      ensures Valid()
      ensures r == Receive(channel.sent, old(next))
      ensures next == old(next) + (match r case Empty => 0 case Message(_) => 1 case Lagged(n) => n)
    {
      r := Receive(channel.sent, next);
      match r
      case Empty =>
      case Message(_) => next := next + 1;
      case Lagged(n) => next := next + n;
    }
  }

  class Hub {
    const channel: Channel
    const sequence: Sequence
    const capacity: nat
    var backlog: seq<Line>

    /** The replay buffer is the tail of what was sent, numbered as it arrived. */
    ghost predicate Valid()
      reads this, channel, sequence
    {
      && capacity >= 1
      && backlog == LastN(channel.sent, capacity)
      && Increasing(channel.sent)
      && (forall i | 0 <= i < |channel.sent| :: channel.sent[i].number < sequence.next)
    }

    constructor (capacity: nat, sequence: Sequence)
      ensures Valid() && channel.sent == [] && fresh(channel)
      ensures this.sequence == sequence && this.capacity == if capacity >= 1 then capacity else 1
    {
      this.capacity := if capacity >= 1 then capacity else 1;
      this.sequence := sequence;
      this.channel := new Channel();
      backlog := [];
    }

    method Push(text: string)
      requires Valid()
      modifies this, channel, sequence
      ensures Valid()
      ensures channel.sent == old(channel.sent) + [Line(old(sequence.next), text)]
      ensures sequence.next == old(sequence.next) + 1
    {
      while |backlog| >= capacity
        invariant |backlog| <= |old(backlog)| && backlog == LastN(old(backlog), |backlog|)
        invariant |backlog| >= capacity - 1 || backlog == old(backlog)
        modifies this
      {
        backlog := backlog[1..];
      }
      var line := Line(sequence.next, text);
      sequence.next := sequence.next + 1;
      backlog := backlog + [line];
      channel.sent := channel.sent + [line];
    }

    /** A snapshot and a receiver that starts exactly where the snapshot ends. */
    method Subscribe() returns (snapshot: seq<Line>, receiver: Receiver)
      requires Valid()
      ensures snapshot == LastN(channel.sent, capacity)
      ensures fresh(receiver) && receiver.Valid() && receiver.channel == channel
      ensures receiver.next == |channel.sent|
    {
      receiver := new Receiver(channel);
      snapshot := backlog;
    }
  }
}
