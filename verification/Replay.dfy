/**
 * What one console viewer is sent (routes/console.rs, `log_stream`): both
 * replay buffers merged by arrival number in one opening frame, then live lines.
 */
module Replay {
  import opened Wrappers
  import opened Sequences
  import opened Numbers
  import opened LogHub
  import opened Delivery
  import opened Sse

  const AUDIT_EVENT := "audit"

  datatype Entry = Entry(line: Line, source: Source)

  function Entries(lines: seq<Line>, source: Source): (r: seq<Entry>)
    ensures |r| == |lines| && forall i | 0 <= i < |r| :: r[i] == Entry(lines[i], source)
  {
    seq(|lines|, i requires 0 <= i < |lines| => Entry(lines[i], source))
  }

  function Insert(e: Entry, sorted: seq<Entry>): seq<Entry> {
    if sorted == [] || e.line.number <= sorted[0].line.number then [e] + sorted
    else [sorted[0]] + Insert(e, sorted[1..])
  }

  /** `sort_by_key` on the arrival number: equal keys would keep their order. */
  function Sorted(entries: seq<Entry>): seq<Entry> {
    if entries == [] then [] else Insert(entries[0], Sorted(entries[1..]))
  }

  function Merge(log: seq<Line>, audit: seq<Line>): seq<Entry> {
    Sorted(Entries(log, Log) + Entries(audit, Audit))
  }

  function FrameOf(e: Entry): Frame {
    if e.source == Log then Unnamed(e.line.text) else Named(AUDIT_EVENT, e.line.text)
  }

  function Frames(entries: seq<Entry>): seq<Frame> {
    if entries == [] then [] else [FrameOf(entries[0])] + Frames(entries[1..])
  }

  /** The opening bytes of a stream. */
  method OpeningFrame(log: seq<Line>, audit: seq<Line>) returns (head: string)
    ensures head == EmitAll(Frames(Merge(log, audit)))
  {
    var replay := Merge(log, audit);
    head := "";
    var i := 0;
    while i < |replay|
      invariant 0 <= i <= |replay|
      invariant head + EmitAll(Frames(replay[i..])) == EmitAll(Frames(replay))
    {
      var frame: string;
      if replay[i].source == Log {
        frame := SseFrame(replay[i].line.text);
      } else {
        frame := SseEvent(AUDIT_EVENT, replay[i].line.text);
      }
      assert frame == Emit(FrameOf(replay[i]));
      NextFrame(replay, i);
      AppendIsAssociative(head, frame, EmitAll(Frames(replay[i + 1..])));
      head := head + frame;
      i := i + 1;
    }
    assert head + "" == head;
  }

  lemma NextFrame(entries: seq<Entry>, i: nat)
    requires i < |entries|
    ensures EmitAll(Frames(entries[i..])) == Emit(FrameOf(entries[i])) + EmitAll(Frames(entries[i + 1..]))
  {
    assert entries[i..][1..] == entries[i + 1..];
    var frames := Frames(entries[i + 1..]);
    assert ([FrameOf(entries[i])] + frames)[1..] == frames;
  }

  /** The lines of one source, in the order the entries have them. */
  function Only(entries: seq<Entry>, source: Source): seq<Line> {
    if entries == [] then []
    else (if entries[0].source == source then [entries[0].line] else []) + Only(entries[1..], source)
  }

  ghost predicate Ordered(entries: seq<Entry>) {
    forall i, j | 0 <= i < j < |entries| :: entries[i].line.number < entries[j].line.number
  }

  /** `number` is not, or comes before, any number in `entries`. */
  ghost predicate Unused(number: nat, entries: seq<Entry>) {
    forall i | 0 <= i < |entries| :: entries[i].line.number != number
  }

  lemma {:induction false} InsertAdds(e: Entry, sorted: seq<Entry>)
    ensures multiset(Insert(e, sorted)) == multiset{e} + multiset(sorted)
    decreases |sorted|
  {
    if sorted != [] && e.line.number > sorted[0].line.number {
      InsertAdds(e, sorted[1..]);
      assert sorted == [sorted[0]] + sorted[1..];
    }
  }

  lemma {:induction false} InsertIsOrdered(e: Entry, sorted: seq<Entry>)
    requires Ordered(sorted) && Unused(e.line.number, sorted)
    ensures Ordered(Insert(e, sorted))
    decreases |sorted|
  {
    if sorted == [] || e.line.number <= sorted[0].line.number {
    } else {
      InsertIsOrdered(e, sorted[1..]);
      InsertAdds(e, sorted[1..]);
      var rest := Insert(e, sorted[1..]);
      forall i | 0 <= i < |rest| ensures sorted[0].line.number < rest[i].line.number {
        assert rest[i] in multiset(rest);
        assert rest[i] == e || rest[i] in sorted[1..];
      }
    }
  }

  lemma {:induction false} SortedIsOrdered(entries: seq<Entry>)
    requires forall i, j | 0 <= i < j < |entries| :: entries[i].line.number != entries[j].line.number
    ensures Ordered(Sorted(entries)) && multiset(Sorted(entries)) == multiset(entries)
    decreases |entries|
  {
    if entries != [] {
      var rest := Sorted(entries[1..]);
      SortedIsOrdered(entries[1..]);
      forall i | 0 <= i < |rest| ensures rest[i].line.number != entries[0].line.number {
        assert rest[i] in multiset(rest);
        assert rest[i] in entries[1..];
      }
      InsertIsOrdered(entries[0], rest);
      InsertAdds(entries[0], rest);
      assert entries == [entries[0]] + entries[1..];
    }
  }

  lemma {:induction false} OnlyAfterInsert(e: Entry, sorted: seq<Entry>, source: Source)
    requires forall i | 0 <= i < |sorted| && sorted[i].source == e.source :: e.line.number < sorted[i].line.number
    ensures Only(Insert(e, sorted), source)
            == (if e.source == source then [e.line] else []) + Only(sorted, source)
    decreases |sorted|
  {
    if sorted == [] || e.line.number <= sorted[0].line.number {
      assert ([e] + sorted)[1..] == sorted;
    } else {
      OnlyAfterInsert(e, sorted[1..], source);
      var rest := Insert(e, sorted[1..]);
      assert ([sorted[0]] + rest)[1..] == rest;
    }
  }

  /** Within one source the entries already come in arrival order. */
  ghost predicate OrderedBySource(entries: seq<Entry>) {
    forall i, j | 0 <= i < j < |entries| && entries[i].source == entries[j].source ::
      entries[i].line.number < entries[j].line.number
  }

  lemma {:induction false} SortKeepsEachSource(entries: seq<Entry>, source: Source)
    requires forall i, j | 0 <= i < j < |entries| :: entries[i].line.number != entries[j].line.number
    requires OrderedBySource(entries)
    ensures Only(Sorted(entries), source) == Only(entries, source)
    decreases |entries|
  {
    if entries != [] {
      var rest := Sorted(entries[1..]);
      SortKeepsEachSource(entries[1..], source);
      SortedIsOrdered(entries[1..]);
      forall i | 0 <= i < |rest| && rest[i].source == entries[0].source
        ensures entries[0].line.number < rest[i].line.number
      {
        assert rest[i] in multiset(rest);
        assert rest[i] in entries[1..];
      }
      OnlyAfterInsert(entries[0], rest, source);
    }
  }

  lemma {:induction false} OnlyOfEntries(lines: seq<Line>, kind: Source, more: seq<Entry>, source: Source)
    ensures Only(Entries(lines, kind) + more, source)
            == (if kind == source then lines else []) + Only(more, source)
    decreases |lines|
  {
    var all := Entries(lines, kind) + more;
    if lines == [] {
      assert all == more;
    } else {
      assert all[0] == Entry(lines[0], kind) && all[1..] == Entries(lines[1..], kind) + more;
      OnlyOfEntries(lines[1..], kind, more, source);
      assert lines == [lines[0]] + lines[1..];
      AppendIsAssociative([lines[0]], lines[1..], Only(more, source));
      AppendIsAssociative([], [], Only(more, source));
    }
  }

  /** Merging puts two buffers in arrival order and loses nothing of either. */
  lemma MergeKeepsBoth(log: seq<Line>, audit: seq<Line>)
    requires Increasing(log) && Increasing(audit) && Apart(log, audit)
    ensures Ordered(Merge(log, audit))
    ensures Only(Merge(log, audit), Log) == log && Only(Merge(log, audit), Audit) == audit
  {
    var all := Entries(log, Log) + Entries(audit, Audit);
    SortedIsOrdered(all);
    SortKeepsEachSource(all, Log);
    SortKeepsEachSource(all, Audit);
    OnlyOfEntries(log, Log, Entries(audit, Audit), Log);
    OnlyOfEntries(log, Log, Entries(audit, Audit), Audit);
    OnlyOfEntries(audit, Audit, [], Log);
    OnlyOfEntries(audit, Audit, [], Audit);
    assert Entries(audit, Audit) + [] == Entries(audit, Audit);
    assert log + [] == log && audit + [] == audit;
  }

  lemma SnapshotIsSlice(h: HubState, clock: nat, id: nat, sub: Sub)
    requires HubInv(h, clock) && SubInv(h, id, sub) && !sub.holding
    ensures sub.snapshot.Some? && Increasing(sub.snapshot.value)
    ensures forall i | 0 <= i < |sub.snapshot.value| :: sub.snapshot.value[i] in Numbered(h)
  {
    SentInOrder(h, clock);
    assert forall i | 0 <= i < |h.sent| :: h.sent[i] in Numbered(h);
  }

  /**
   * A viewer's opening frame, in every interleaving: strictly in arrival order,
   * with each hub's own replay buffer whole.
   */
  lemma OpeningFrameInArrivalOrder(logCapacity: nat, auditCapacity: nat, steps: seq<Step>, a: nat, b: nat)
    requires var s := Run(Start(logCapacity, auditCapacity), steps);
             Subscribed(s, a) && s.subs[a].source == Log && Subscribed(s, b) && s.subs[b].source == Audit
    ensures var s := Run(Start(logCapacity, auditCapacity), steps);
            var log, audit := s.subs[a].snapshot, s.subs[b].snapshot;
            && log.Some? && audit.Some?
            && Ordered(Merge(log.value, audit.value))
            && Only(Merge(log.value, audit.value), Log) == log.value
            && Only(Merge(log.value, audit.value), Audit) == audit.value
  {
    var s := Run(Start(logCapacity, auditCapacity), steps);
    RunKeepsInv(Start(logCapacity, auditCapacity), steps);
    assert SubInv(s.log, a, s.subs[a]) && SubInv(s.audit, b, s.subs[b]);
    SnapshotIsSlice(s.log, s.clock, a, s.subs[a]);
    SnapshotIsSlice(s.audit, s.clock, b, s.subs[b]);
    MergeKeepsBoth(s.subs[a].snapshot.value, s.subs[b].snapshot.value);
  }

  /** The texts a stream shows for one source: log lines unnamed, attribution named. */
  function Shown(frames: seq<Frame>, source: Source): seq<string> {
    if frames == [] then []
    else
      (match (frames[0], source)
       case (Unnamed(p), Log) => [p]
       case (Named(_, p), Audit) => [p]
       case _ => []) + Shown(frames[1..], source)
  }

  /** The data of the events a browser hands to the listener for `name`. */
  function Heard(events: seq<Event>, name: string): seq<string> {
    if events == [] then []
    else (if events[0].name == name then [events[0].data] else []) + Heard(events[1..], name)
  }

  function Listener(source: Source): string {
    if source == Log then "message" else AUDIT_EVENT
  }

  /** Frames as this program writes them: the only event name is the audit one. */
  ghost predicate ConsoleFrames(frames: seq<Frame>) {
    forall f | f in frames :: (f.Named? ==> f.name == AUDIT_EVENT) && (f.Comment? ==> OneLine(f.text))
  }

  lemma {:induction false} HeardAppend(a: seq<Event>, b: seq<Event>, name: string)
    ensures Heard(a + b, name) == Heard(a, name) + Heard(b, name)
    decreases |a|
  {
    if a == [] {
      assert a + b == b;
    } else {
      assert (a + b)[1..] == a[1..] + b;
      HeardAppend(a[1..], b, name);
    }
  }

  lemma {:induction false} HeardIsShown(frames: seq<Frame>, source: Source)
    requires ConsoleFrames(frames)
    ensures Heard(DeliveredAll(frames), Listener(source)) == Shown(frames, source)
    decreases |frames|
  {
    if frames != [] {
      assert frames[0] in frames;
      HeardAppend(Delivered(frames[0]), DeliveredAll(frames[1..]), Listener(source));
      HeardIsShown(frames[1..], source);
      assert "message" != AUDIT_EVENT by { assert "message"[0] != AUDIT_EVENT[0]; }
    }
  }

  lemma {:induction false} ShownAppend(a: seq<Frame>, b: seq<Frame>, source: Source)
    ensures Shown(a + b, source) == Shown(a, source) + Shown(b, source)
    decreases |a|
  {
    if a == [] {
      assert a + b == b;
    } else {
      assert (a + b)[1..] == a[1..] + b;
      ShownAppend(a[1..], b, source);
    }
  }

  lemma TextsAppend(a: seq<Line>, b: seq<Line>)
    ensures Texts(a + b) == Texts(a) + Texts(b)
  {
  }

  lemma {:induction false} ReplayShowsEachSource(entries: seq<Entry>, source: Source)
    ensures Shown(Frames(entries), source) == Texts(Only(entries, source))
    decreases |entries|
  {
    if entries != [] {
      var e, rest := entries[0], entries[1..];
      assert Frames(entries)[1..] == Frames(rest);
      ReplayShowsEachSource(rest, source);
      TextsAppend([e.line], Only(rest, source));
      TextsAppend([], Only(rest, source));
    }
  }

  lemma {:induction false} ReplayIsConsoleFrames(entries: seq<Entry>)
    ensures ConsoleFrames(Frames(entries))
    decreases |entries|
  {
    if entries != [] {
      var frames, rest := Frames(entries), Frames(entries[1..]);
      assert forall f | f in frames :: f == frames[0] || f in rest;
      ReplayIsConsoleFrames(entries[1..]);
    }
  }

  /* ------------------------------------------------------------- live frames */

  /** One turn of the live half of a stream: what `recv` on a channel becomes; a silent log is pinged. */
  function LiveFrames(source: Source, r: Received): seq<Frame> {
    match r
    case Message(line) => [FrameOf(Entry(line, source))]
    case Lagged(n) => [Comment((if source == Log then " lagged " else " audit lagged ") + DecimalText(n))]
    case Empty => if source == Log then [Comment(" ping")] else []
  }

  /** What one step adds to the stream of the viewer that reads through `a` and `b`. */
  function LiveOf(s: System, step: Step, a: nat, b: nat): seq<Frame> {
    if !step.Recv? || step.id !in {a, b} || step.id !in s.subs then []
    else
      var sub := s.subs[step.id];
      var sent := HubOf(s, sub.source).sent;
      if sub.holding || sub.next > |sent| then [] else LiveFrames(sub.source, LogHub.Receive(sent, sub.next))
  }

  function Live(s: System, steps: seq<Step>, a: nat, b: nat): seq<Frame> {
    if steps == [] then []
    else
      var before := steps[..|steps| - 1];
      Live(s, before, a, b) + LiveOf(Run(s, before), steps[|steps| - 1], a, b)
  }

  function GotBy(s: System, id: nat): seq<Line> {
    if id in s.subs then s.subs[id].got else []
  }

  /** `a` reads the log, if it reads at all, and `b` the attribution. */
  ghost predicate Listens(s: System, a: nat, b: nat) {
    a != b && (a in s.subs ==> s.subs[a].source == Log) && (b in s.subs ==> s.subs[b].source == Audit)
  }

  lemma StepIsShown(s: System, step: Step, a: nat, b: nat, id: nat, source: Source)
    requires Listens(Apply(s, step), a, b) && (if source == Log then id == a else id == b)
    ensures Listens(s, a, b)
    ensures Texts(GotBy(Apply(s, step), id)) == Texts(GotBy(s, id)) + Shown(LiveOf(s, step, a, b), source)
  {
    if step.Recv? && step.id == id && id in s.subs {
      ReceivedIsShown(s, step, source);
    } else if step.Recv? && step.id in s.subs {
      OtherIsNotShown(s, step, a, b, id, source);
    }
  }

  lemma ReceivedIsShown(s: System, step: Step, source: Source)
    requires step.Recv? && step.id in s.subs && s.subs[step.id].source == source
    ensures Texts(GotBy(Apply(s, step), step.id))
            == Texts(GotBy(s, step.id)) + Shown(LiveOf(s, step, step.id, step.id), source)
  {
    var sub := s.subs[step.id];
    var sent := HubOf(s, source).sent;
    if !sub.holding && sub.next <= |sent| {
      var r := LogHub.Receive(sent, sub.next);
      if r.Message? {
        TextsAppend(sub.got, [r.line]);
        assert Shown(LiveFrames(source, r), source) == [r.line.text];
      } else {
        assert Shown(LiveFrames(source, r), source) == [];
      }
    }
  }

  lemma OtherIsNotShown(s: System, step: Step, a: nat, b: nat, id: nat, source: Source)
    requires step.Recv? && step.id in s.subs && step.id != id
    requires Listens(s, a, b) && (if source == Log then id == a else id == b)
    ensures Shown(LiveOf(s, step, a, b), source) == [] && GotBy(Apply(s, step), id) == GotBy(s, id)
  {
    if step.id in {a, b} {
      var sub := s.subs[step.id];
      assert sub.source != source;
      var sent := HubOf(s, sub.source).sent;
      if !sub.holding && sub.next <= |sent| {
        assert Shown(LiveFrames(sub.source, LogHub.Receive(sent, sub.next)), source) == [];
      }
    }
  }

  /** The live frames show, for each source, exactly the lines received. */
  lemma {:induction false} LiveShowsWhatWasReceived(s: System, steps: seq<Step>, a: nat, b: nat, id: nat, source: Source)
    requires Listens(Run(s, steps), a, b) && (if source == Log then id == a else id == b) && id !in s.subs
    ensures Listens(s, a, b)
    ensures Shown(Live(s, steps, a, b), source) == Texts(GotBy(Run(s, steps), id))
    decreases |steps|
  {
    if steps != [] {
      var before, step := steps[..|steps| - 1], steps[|steps| - 1];
      StepIsShown(Run(s, before), step, a, b, id, source);
      LiveShowsWhatWasReceived(s, before, a, b, id, source);
      ShownAppend(Live(s, before, a, b), LiveOf(Run(s, before), step, a, b), source);
    }
  }

  lemma NoBreakInNumber(head: string, n: nat)
    requires OneLine(head)
    ensures OneLine(head + DecimalText(n))
  {
  }

  lemma LiveFramesAreConsoleFrames(source: Source, r: Received)
    ensures ConsoleFrames(LiveFrames(source, r))
  {
    if r.Lagged? {
      NoBreakInNumber(" lagged ", r.missed);
      NoBreakInNumber(" audit lagged ", r.missed);
    }
  }

  lemma {:induction false} LiveIsConsoleFrames(s: System, steps: seq<Step>, a: nat, b: nat)
    ensures ConsoleFrames(Live(s, steps, a, b))
    decreases |steps|
  {
    if steps != [] {
      var before, step := steps[..|steps| - 1], steps[|steps| - 1];
      var t := Run(s, before);
      LiveIsConsoleFrames(s, before, a, b);
      if LiveOf(t, step, a, b) != [] {
        var sub := t.subs[step.id];
        LiveFramesAreConsoleFrames(sub.source, LogHub.Receive(HubOf(t, sub.source).sent, sub.next));
      }
    }
  }

  lemma OneFrame(f: Frame)
    ensures EmitAll([f]) == Emit(f)
  {
    assert [f][1..] == [] && Emit(f) + "" == Emit(f);
  }

  lemma CommentIs(head: string, said: string)
    ensures Emit(Comment(head + said)) == (":" + head) + (said + "\n\n")
  {
    AppendIsAssociative(head, said, "\n\n");
    AppendIsAssociative(":", head, said + "\n\n");
  }

  lemma LossIsSent(source: Source, n: nat)
    ensures EmitAll(LiveFrames(source, Lagged(n)))
            == (if source == Log then ": lagged " else ": audit lagged ") + (DecimalText(n) + "\n\n")
  {
    var head := if source == Log then " lagged " else " audit lagged ";
    OneFrame(Comment(head + DecimalText(n)));
    CommentIs(head, DecimalText(n));
    assert ":" + head == if source == Log then ": lagged " else ": audit lagged ";
  }

  lemma SilenceIsSent(source: Source)
    ensures EmitAll(LiveFrames(source, Received.Empty)) == if source == Log then ": ping\n\n" else ""
  {
    if source == Log {
      OneFrame(Comment(" ping"));
      CommentIs(" ping", "");
      assert " ping" + "" == " ping" && (":" + " ping") + ("" + "\n\n") == ": ping\n\n";
    }
  }

  lemma LineIsSent(source: Source, line: Line)
    ensures EmitAll(LiveFrames(source, Message(line)))
            == Emit(if source == Log then Unnamed(line.text) else Named("audit", line.text))
  {
    OneFrame(FrameOf(Entry(line, source)));
  }

  /**
   * What each `recv` of a viewer sends: the line as a frame of its source, how
   * many lines were lost, or, for a silent log, a sign of life.
   */
  lemma TurnIsSent(s: System, id: nat, a: nat, b: nat)
    requires id in {a, b} && id in s.subs && !s.subs[id].holding
    requires s.subs[id].next <= |HubOf(s, s.subs[id].source).sent|
    ensures var sub, sent := s.subs[id], HubOf(s, s.subs[id].source).sent;
            var waiting := |sent| - sub.next;
            EmitAll(LiveOf(s, Recv(id), a, b)) ==
              if waiting > 1024 then
                (if sub.source == Log then ": lagged " else ": audit lagged ") + (DecimalText(waiting - 1024) + "\n\n")
              else if waiting > 0 then
                Emit(if sub.source == Log then Unnamed(sent[sub.next].text) else Named("audit", sent[sub.next].text))
              else if sub.source == Log then ": ping\n\n" else ""
  {
    var sub, sent := s.subs[id], HubOf(s, s.subs[id].source).sent;
    match LogHub.Receive(sent, sub.next)
    case Message(line) => LineIsSent(sub.source, line);
    case Lagged(n) => LossIsSent(sub.source, n);
    case Empty => SilenceIsSent(sub.source);
  }

  /* -------------------------------------------------------------- the viewer */

  /** Subscribed to both hubs. */
  ghost predicate Viewing(s: System, a: nat, b: nat) {
    Subscribed(s, a) && s.subs[a].source == Log && Subscribed(s, b) && s.subs[b].source == Audit
  }

  function Oldest(start: nat, capacity: nat): nat {
    if start <= capacity then 0 else start - capacity
  }

  /** One unbroken run of a hub's lines: from the oldest replayed to the last received. */
  function RunOfLines(h: HubState, start: nat, next: nat): seq<Line>
    requires start <= next <= |h.sent|
  {
    h.sent[Oldest(start, h.capacity)..next]
  }

  lemma ViewIsOneRun(h: HubState, sub: Sub)
    requires sub.start.Some? && sub.start.value <= sub.next <= |h.sent|
    requires sub.snapshot == Some(LastN(h.sent[..sub.start.value], h.capacity))
    ensures sub.got == h.sent[sub.start.value..sub.next] ==>
              sub.snapshot.value + sub.got == RunOfLines(h, sub.start.value, sub.next)
  {
  }

  lemma StreamIsHeard(frames: seq<Frame>, source: Source)
    requires ConsoleFrames(frames) && forall f | f in frames :: CrFree(f)
    ensures Heard(Sse.Receive(NEW_CLIENT, EmitAll(frames)).got, Listener(source)) == Shown(frames, source)
  {
    assert forall f | f in frames :: WellNamed(f);
    FramesReadBack(frames);
    HeardIsShown(frames, source);
  }

  ghost predicate NoReturns(lines: seq<Line>) {
    forall i | 0 <= i < |lines| :: '\r' !in lines[i].text
  }

  lemma {:induction false} PayloadIsShown(frames: seq<Frame>, f: Frame)
    requires ConsoleFrames(frames) && f in frames && !f.Comment?
    ensures f.payload in Shown(frames, if f.Unnamed? then Log else Audit)
    decreases |frames|
  {
    if f != frames[0] {
      assert f in frames[1..];
      PayloadIsShown(frames[1..], f);
    }
  }

  lemma ShownWithoutReturns(frames: seq<Frame>, log: seq<Line>, audit: seq<Line>)
    requires ConsoleFrames(frames) && Shown(frames, Log) == Texts(log) && Shown(frames, Audit) == Texts(audit)
    requires NoReturns(log) && NoReturns(audit)
    ensures forall f | f in frames :: CrFree(f)
  {
    forall f | f in frames ensures CrFree(f) {
      if !f.Comment? {
        PayloadIsShown(frames, f);
        assert f.payload in Texts(log) || f.payload in Texts(audit);
      }
    }
  }

  /** Whatever is fed to a reader, no listener hears a carriage return. */
  lemma HeardWithoutReturns(s: string, name: string, lines: seq<Line>)
    requires Heard(Sse.Receive(NEW_CLIENT, s).got, name) == Texts(lines)
    ensures NoReturns(lines)
  {
    ReceiveKeepsNoCr(NEW_CLIENT, s);
    HeardIsData(Sse.Receive(NEW_CLIENT, s).got, name);
    forall i | 0 <= i < |lines| ensures '\r' !in lines[i].text {
      assert Texts(lines)[i] == lines[i].text;
    }
  }

  lemma {:induction false} HeardIsData(events: seq<Event>, name: string)
    requires forall e | e in events :: '\r' !in e.data
    ensures forall t | t in Heard(events, name) :: '\r' !in t
    decreases |events|
  {
    if events != [] {
      HeardIsData(events[1..], name);
    }
  }

  /** A stream whose frames show two lists of lines is heard as those lines, exactly when none holds a carriage return. */
  lemma ShownIsHeard(frames: seq<Frame>, log: seq<Line>, audit: seq<Line>)
    requires ConsoleFrames(frames) && Shown(frames, Log) == Texts(log) && Shown(frames, Audit) == Texts(audit)
    ensures var got := Sse.Receive(NEW_CLIENT, EmitAll(frames)).got;
            Heard(got, "message") == Texts(log) && Heard(got, AUDIT_EVENT) == Texts(audit)
            <==> NoReturns(log) && NoReturns(audit)
  {
    if NoReturns(log) && NoReturns(audit) {
      ShownWithoutReturns(frames, log, audit);
      StreamIsHeard(frames, Log);
      StreamIsHeard(frames, Audit);
    }
    var got := Sse.Receive(NEW_CLIENT, EmitAll(frames)).got;
    if Heard(got, "message") == Texts(log) && Heard(got, AUDIT_EVENT) == Texts(audit) {
      HeardWithoutReturns(EmitAll(frames), "message", log);
      HeardWithoutReturns(EmitAll(frames), AUDIT_EVENT, audit);
    }
  }

  /** The bytes a viewer is sent: the opening frame, then a frame for each thing its two receivers gave. */
  function Stream(start: System, steps: seq<Step>, a: nat, b: nat): string
    requires var s := Run(start, steps);
             a in s.subs && b in s.subs && s.subs[a].snapshot.Some? && s.subs[b].snapshot.Some?
  {
    var s := Run(start, steps);
    EmitAll(Frames(Merge(s.subs[a].snapshot.value, s.subs[b].snapshot.value)) + Live(start, steps, a, b))
  }

  lemma StreamFrames(logCapacity: nat, auditCapacity: nat, steps: seq<Step>, a: nat, b: nat) returns (frames: seq<Frame>)
    requires Viewing(Run(Start(logCapacity, auditCapacity), steps), a, b)
    ensures var s := Run(Start(logCapacity, auditCapacity), steps);
            var u, v := s.subs[a], s.subs[b];
            && u.snapshot.Some? && v.snapshot.Some? && ConsoleFrames(frames)
            && EmitAll(frames) == Stream(Start(logCapacity, auditCapacity), steps, a, b)
            && Shown(frames, Log) == Texts(u.snapshot.value + u.got)
            && Shown(frames, Audit) == Texts(v.snapshot.value + v.got)
  {
    var start := Start(logCapacity, auditCapacity);
    var s := Run(start, steps);
    OpeningFrameInArrivalOrder(logCapacity, auditCapacity, steps, a, b);
    var u, v := s.subs[a], s.subs[b];
    var entries, live := Merge(u.snapshot.value, v.snapshot.value), Live(start, steps, a, b);
    frames := Frames(entries) + live;
    ReplayIsConsoleFrames(entries);
    LiveIsConsoleFrames(start, steps, a, b);
    ReplayShowsEachSource(entries, Log);
    ReplayShowsEachSource(entries, Audit);
    LiveShowsWhatWasReceived(start, steps, a, b, a, Log);
    LiveShowsWhatWasReceived(start, steps, a, b, b, Audit);
    TextsAppend(u.snapshot.value, u.got);
    TextsAppend(v.snapshot.value, v.got);
    ShownAppend(Frames(entries), live, Log);
    ShownAppend(Frames(entries), live, Audit);
  }

  /**
   * From the hubs to the browser, in every interleaving: feeding the whole
   * stream to the event-stream reader gives each listener its snapshot and then
   * every line received, exactly when no line holds a carriage return; and when
   * nothing was lost that is one unbroken run of its hub's lines, starting
   * `capacity` before the subscription.
   */
  lemma ViewerHearsEveryLine(logCapacity: nat, auditCapacity: nat, steps: seq<Step>, a: nat, b: nat)
    requires Viewing(Run(Start(logCapacity, auditCapacity), steps), a, b)
    ensures var s := Run(Start(logCapacity, auditCapacity), steps);
            var u, v := s.subs[a], s.subs[b];
            && u.snapshot.Some? && u.start.Some? && u.start.value <= u.next <= |s.log.sent|
            && v.snapshot.Some? && v.start.Some? && v.start.value <= v.next <= |s.audit.sent|
            && (var got := Sse.Receive(NEW_CLIENT, Stream(Start(logCapacity, auditCapacity), steps, a, b)).got;
                && Heard(got, "message") == Texts(u.snapshot.value + u.got)
                && Heard(got, AUDIT_EVENT) == Texts(v.snapshot.value + v.got)
                <==> NoReturns(u.snapshot.value + u.got) && NoReturns(v.snapshot.value + v.got))
            && (u.missed == 0 ==> u.snapshot.value + u.got == RunOfLines(s.log, u.start.value, u.next))
            && (v.missed == 0 ==> v.snapshot.value + v.got == RunOfLines(s.audit, v.start.value, v.next))
  {
    var s := Run(Start(logCapacity, auditCapacity), steps);
    var u, v := s.subs[a], s.subs[b];
    EveryLineExactlyOnce(logCapacity, auditCapacity, steps, a);
    EveryLineExactlyOnce(logCapacity, auditCapacity, steps, b);
    var frames := StreamFrames(logCapacity, auditCapacity, steps, a, b);
    ShownIsHeard(frames, u.snapshot.value + u.got, v.snapshot.value + v.got);
    ViewIsOneRun(s.log, u);
    ViewIsOneRun(s.audit, v);
  }
}
