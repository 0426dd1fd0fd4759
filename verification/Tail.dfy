/**
 * Following a log file that grows, rotates, shrinks and disappears
 * (console/tail.rs, `tail_log`). One tick is one `stat` and one read; the file
 * system's side of it is an `Observation`.
 */
module Tail {
  import opened Wrappers
  import opened Sequences
  import opened Bytes
  import opened Lines
  import LogHub

  const COLD_START_BYTES: nat := 64 * 1024
  const MAX_CHUNK: nat := 1024 * 1024

  datatype Cursor = Cursor(id: int, pos: nat)

  /** A read may fail, or return fewer bytes than asked for. */
  datatype Reading = Failed | Got(n: nat)

  datatype Observation = Absent | File(id: int, content: seq<Byte>, reading: Reading)

  datatype Notice = Closed | Rotated | Truncated

  datatype State = State(cursor: Option<Cursor>, carry: seq<Byte>)

  /** Where this tick starts reading, and what it has to forget first. */
  datatype Begin = Begin(pos: nat, skipPartial: bool, restart: bool, notices: seq<Notice>)

  function Min(a: nat, b: nat): nat {
    if a <= b then a else b
  }

  function BeginAt(cursor: Option<Cursor>, id: int, len: nat): Begin {
    match cursor
    case None =>
      var start := if len <= COLD_START_BYTES then 0 else len - COLD_START_BYTES;
      Begin(start, start > 0, true, [])
    case Some(prev) =>
      if prev.id != id then Begin(0, false, true, [Rotated])
      else if len < prev.pos then Begin(0, false, true, [Truncated])
      else Begin(prev.pos, false, false, [])
  }

  /** The bytes one tick reads: none when there is nothing new or the read comes back empty. */
  function Chunk(o: Observation, pos: nat): seq<Byte>
    requires o.File?
  {
    if o.reading.Failed? || |o.content| <= pos then []
    else o.content[pos..pos + Min(o.reading.n, Min(|o.content| - pos, MAX_CHUNK))]
  }

  /** What of the chunk goes to the splitter. */
  function Kept(skipPartial: bool, chunk: seq<Byte>): seq<Byte> {
    if !skipPartial then chunk
    else match Position(chunk, NEWLINE) case None => [] case Some(i) => chunk[i + 1..]
  }

  datatype Outcome = Outcome(state: State, notices: seq<Notice>, lines: seq<seq<Byte>>)

  function TickFile(s: State, id: int, len: nat, begin: Begin, chunk: seq<Byte>): Outcome {
    var carry := if begin.restart then [] else s.carry;
    if len <= begin.pos then Outcome(State(Some(Cursor(id, begin.pos)), carry), begin.notices, [])
    else if chunk == [] then Outcome(State(s.cursor, carry), begin.notices, [])
    else
      var split := Feed(carry, Kept(begin.skipPartial, chunk));
      Outcome(State(Some(Cursor(id, begin.pos + |chunk|)), split.carry), begin.notices, split.lines)
  }

  function Tick(s: State, o: Observation): Outcome {
    match o
    case Absent => Outcome(State(None, []), if s.cursor.Some? then [Closed] else [], [])
    case File(id, content, _) =>
      var begin := BeginAt(s.cursor, id, |content|);
      TickFile(s, id, |content|, begin, Chunk(o, begin.pos))
  }

  function NoticeText(n: Notice): string {
    match n
    case Closed => "── log file closed ──"
    case Rotated => "── log rotated ──"
    case Truncated => "── log truncated ──"
  }

  function NoticeTexts(notices: seq<Notice>): (r: seq<string>)
    ensures |r| == |notices| && forall i | 0 <= i < |r| :: r[i] == NoticeText(notices[i])
  {
    seq(|notices|, i requires 0 <= i < |notices| => NoticeText(notices[i]))
  }

  /** A chunk that lies within the line to be skipped leaves nothing for the splitter. */
  lemma SkippedWhole(s: State, id: int, len: nat, begin: Begin, chunk: seq<Byte>)
    requires begin.skipPartial && begin.restart && Position(chunk, NEWLINE).None? && chunk != [] && begin.pos < len
    ensures TickFile(s, id, len, begin, chunk)
            == Outcome(State(Some(Cursor(id, begin.pos + |chunk|)), []), begin.notices, [])
  {
    FeedNothing();
  }

  lemma FeedNothing()
    ensures Feed([], []) == Split([], [])
  {
    var none: seq<Byte> := [];
    assert none + none == none;
    assert Position(none, NEWLINE) == None;
  }

  class Tailer {
    var cursor: Option<Cursor>
    const splitter: LineSplitter
    const hub: LogHub.Hub

    ghost predicate Valid()
      reads hub, hub.channel, hub.sequence
    {
      hub.Valid()
    }

    constructor (hub: LogHub.Hub, decode: seq<Byte> -> string)
      requires hub.Valid()
      ensures Valid() && cursor == None && this.hub == hub
      ensures fresh(splitter) && splitter.carry == [] && splitter.decode == decode
    {
      cursor := None;
      this.hub := hub;
      splitter := new LineSplitter(decode);
    }

    ghost function Texts(): seq<string>
      reads hub.channel
    {
      LogHub.Texts(hub.channel.sent)
    }

    method PushAll(texts: seq<string>)
      requires Valid()
      modifies hub, hub.channel, hub.sequence
      ensures Valid() && Texts() == old(Texts()) + texts
    {
      var i := 0;
      while i < |texts|
        invariant 0 <= i <= |texts|
        invariant Valid() && Texts() == old(Texts()) + texts[..i]
        modifies hub, hub.channel, hub.sequence
      {
        hub.Push(texts[i]);
        assert texts[..i + 1] == texts[..i] + [texts[i]];
        i := i + 1;
      }
      assert texts[..i] == texts;
    }

    /** One turn of the loop. */
    method OneTick(o: Observation)
      requires Valid()
      modifies this, splitter, hub, hub.channel, hub.sequence
      ensures Valid()
      ensures State(cursor, splitter.carry) == Tick(old(State(cursor, splitter.carry)), o).state
      ensures var out := Tick(old(State(cursor, splitter.carry)), o);
              Texts() == old(Texts()) + NoticeTexts(out.notices) + Decoded(splitter.decode, out.lines)
    {
      ghost var was := State(cursor, splitter.carry);
      if o.Absent? {
        if cursor.Some? {
          PushAll([NoticeText(Closed)]);
        }
        cursor := None;
        splitter.Reset();
        return;
      }
      var begin := BeginAt(cursor, o.id, |o.content|);
      if begin.restart {
        splitter.Reset();
      }
      PushAll(NoticeTexts(begin.notices));
      assert Tick(was, o) == TickFile(was, o.id, |o.content|, begin, Chunk(o, begin.pos));
      Consume(o, begin, was);
    }

    /** The rest of the turn, once the tail knows where it starts. */
    method Consume(o: Observation, begin: Begin, ghost was: State)
      requires Valid() && o.File? && begin == BeginAt(cursor, o.id, |o.content|)
      requires was == State(cursor, if begin.restart then was.carry else splitter.carry)
      requires begin.restart ==> splitter.carry == []
      modifies this, splitter, hub, hub.channel, hub.sequence
      ensures Valid()
      ensures var out := TickFile(was, o.id, |o.content|, begin, Chunk(o, begin.pos));
              && State(cursor, splitter.carry) == out.state
              && Texts() == old(Texts()) + Decoded(splitter.decode, out.lines)
    {
      ghost var out := TickFile(was, o.id, |o.content|, begin, Chunk(o, begin.pos));
      ghost var carry := splitter.carry;
      if |o.content| <= begin.pos {
        cursor := Some(Cursor(o.id, begin.pos));
        assert out == Outcome(State(cursor, carry), begin.notices, []);
        return;
      }
      var chunk := Chunk(o, begin.pos);
      if chunk == [] {
        assert out == Outcome(State(cursor, carry), begin.notices, []);
        return;
      }
      cursor := Some(Cursor(o.id, begin.pos + |chunk|));
      if begin.skipPartial && Position(chunk, NEWLINE).None? {
        SkippedWhole(was, o.id, |o.content|, begin, chunk);
        return;
      }
      var lines := splitter.Push(Kept(begin.skipPartial, chunk));
      ghost var split := Feed(carry, Kept(begin.skipPartial, chunk));
      assert out == Outcome(State(cursor, split.carry), begin.notices, split.lines);
      PushAll(lines);
    }
  }
}
