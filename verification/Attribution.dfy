/**
 * The event names of a console stream (console/mod.rs, `sse_event`; routes/console.rs,
 * `AUDIT_EVENT`): which log lines reach the listener for attribution, and when
 * that listener hears the attribution lines and nothing else.
 */
module Attribution {
  import opened Sequences
  import opened LogHub
  import opened Delivery
  import opened Sse
  import opened Replay

  // ---- Frames do not run into each other, whatever they carry ----

  lemma DispatchFurther(c: Client, before: seq<Event>)
    ensures Dispatch(c.(got := before + c.got)) == Dispatch(c).(got := before + Dispatch(c).got)
  {
    if c.data != "" {
      var n := |c.data| - 1;
      var e := Event(if c.event == "" then "message" else c.event, if c.data[n] == '\n' then c.data[..n] else c.data);
      AppendIsAssociative(before, c.got, [e]);
    }
  }

  lemma OneLineFurther(c: Client, before: seq<Event>)
    ensures EndLine(c.(got := before + c.got)) == EndLine(c).(got := before + EndLine(c).got)
  {
    DispatchFurther(c.(line := ""), before);
  }

  lemma OneCharFurther(c: Client, before: seq<Event>, ch: char)
    ensures ReceiveChar(c.(got := before + c.got), ch)
            == ReceiveChar(c, ch).(got := before + ReceiveChar(c, ch).got)
  {
    OneLineFurther(c, before);
  }

  /** What was dispatched before has no bearing on what is dispatched next. */
  lemma {:induction false} EarlierEventsStay(c: Client, before: seq<Event>, s: string)
    ensures Sse.Receive(c.(got := before + c.got), s)
            == Sse.Receive(c, s).(got := before + Sse.Receive(c, s).got)
    decreases |s|
  {
    if s != "" {
      OneCharFurther(c, before, s[0]);
      EarlierEventsStay(ReceiveChar(c, s[0]), before, s[1..]);
    }
  }

  ghost predicate Started(c: Client) {
    c.afterCr ==> c.line == ""
  }

  lemma {:induction false} StaysStarted(c: Client, s: string)
    requires Started(c)
    ensures Started(Sse.Receive(c, s))
    decreases |s|
  {
    if s != "" {
      StaysStarted(ReceiveChar(c, s[0]), s[1..]);
    }
  }

  /** A text that ends in a blank line. */
  ghost predicate Closes(s: string) {
    exists text :: s == text + "\n\n"
  }

  lemma ClosedIsBetween(c: Client, s: string)
    requires Started(c) && Closes(s)
    ensures Between(Sse.Receive(c, s))
  {
    var text :| s == text + "\n\n";
    var d := Sse.Receive(c, text);
    StaysStarted(c, text);
    ReceiveAppend(c, text, "\n\n");
    var e := ReceiveChar(d, '\n');
    assert "\n\n"[1..] == "\n" && "\n"[1..] == "";
    assert e.line == "" && !e.afterCr;
    assert Sse.Receive(d, "\n\n") == ReceiveChar(e, '\n');
  }

  lemma {:induction false} BodyEndsALine(line: string)
    ensures exists text :: Body(line) == text + "\n"
    decreases |line|
  {
    match Position(line, '\n')
    case None => assert Body(line) == ("data: " + TrimCr(line)) + "\n";
    case Some(i) =>
      BodyEndsALine(line[i + 1..]);
      var text :| Body(line[i + 1..]) == text + "\n";
      assert Body(line) == ("data: " + (TrimCr(line[..i]) + ("\n" + text))) + "\n";
  }

  lemma EmitCloses(f: Frame)
    ensures Closes(Emit(f))
  {
    match f
    case Unnamed(payload) =>
      BodyEndsALine(payload);
      var text :| Body(payload) == text + "\n";
      assert Emit(f) == text + "\n\n";
    case Named(name, payload) =>
      BodyEndsALine(payload);
      var text :| Body(payload) == text + "\n";
      assert Emit(f) == ("event: " + (name + ("\n" + text))) + "\n\n";
    case Comment(text) =>
      assert Emit(f) == (":" + text) + "\n\n";
  }

  /** The events a frame by itself is read as. */
  function EventsOf(f: Frame): seq<Event> {
    Sse.Receive(NEW_CLIENT, Emit(f)).got
  }

  function EventsOfAll(frames: seq<Frame>): seq<Event> {
    if frames == [] then [] else EventsOf(frames[0]) + EventsOfAll(frames[1..])
  }

  /** A sequence of frames is read frame by frame, carriage returns or not. */
  lemma {:induction false} FramesStayApart(c: Client, frames: seq<Frame>)
    requires Between(c)
    ensures Sse.Receive(c, EmitAll(frames)).got == c.got + EventsOfAll(frames)
    decreases |frames|
  {
    if frames == [] {
      assert c.got + [] == c.got;
    } else {
      var f, rest := frames[0], EmitAll(frames[1..]);
      var d := Sse.Receive(c, Emit(f));
      ReceiveAppend(c, Emit(f), rest);
      EmitCloses(f);
      ClosedIsBetween(c, Emit(f));
      assert c == NEW_CLIENT.(got := c.got + NEW_CLIENT.got);
      EarlierEventsStay(NEW_CLIENT, c.got, Emit(f));
      FramesStayApart(d, frames[1..]);
      AppendIsAssociative(c.got, EventsOf(f), EventsOfAll(frames[1..]));
    }
  }

  // ---- Which lines reach the other listener ----

  /** Read by itself, a log line comes out as an event under the attribution's name. */
  predicate Renamed(line: string) {
    Heard(EventsOf(Unnamed(line)), AUDIT_EVENT) != []
  }

  lemma FaithfulFrame(f: Frame)
    requires WellNamed(f) && CrFree(f)
    ensures EventsOf(f) == Delivered(f)
  {
    FramesArrive(NEW_CLIENT, [f]);
    assert [f][1..] == [] && EmitAll([f]) == Emit(f) + "" == Emit(f);
    assert Delivered(f) + [] == Delivered(f) && [] + Delivered(f) == Delivered(f);
  }

  /** A carriage return is what it takes. */
  lemma OrdinaryLineKeepsItsName(line: string)
    requires '\r' !in line
    ensures !Renamed(line)
  {
    FaithfulFrame(Unnamed(line));
    assert "message"[0] != AUDIT_EVENT[0];
  }

  ghost predicate NoneRenamed(frames: seq<Frame>) {
    forall f | f in frames && f.Unnamed? :: !Renamed(f.payload)
  }

  ghost predicate FaithfulNames(frames: seq<Frame>) {
    ConsoleFrames(frames) && forall f | f in frames && f.Named? :: CrFree(f)
  }

  /** What the attribution listener hears of one frame. */
  lemma OneFrameIsHeard(f: Frame)
    requires FaithfulNames([f])
    ensures var heard := Heard(EventsOf(f), AUDIT_EVENT);
            if f.Unnamed? then heard == [] <==> !Renamed(f.payload) else heard == Shown([f], Audit)
  {
    assert f in [f];
    if !f.Unnamed? {
      FaithfulFrame(f);
      assert [f][1..] == [];
    }
  }

  lemma FirstFrame(frames: seq<Frame>)
    requires frames != []
    ensures Shown(frames, Audit) == Shown([frames[0]], Audit) + Shown(frames[1..], Audit)
    ensures frames[0].Unnamed? ==> Shown([frames[0]], Audit) == []
    ensures NoneRenamed(frames) <==> (frames[0].Unnamed? ==> !Renamed(frames[0].payload)) && NoneRenamed(frames[1..])
    ensures FaithfulNames(frames) ==> FaithfulNames([frames[0]]) && FaithfulNames(frames[1..])
  {
    assert frames == [frames[0]] + frames[1..];
    ShownAppend([frames[0]], frames[1..], Audit);
  }

  /** For the attribution listener, one frame at a time. */
  lemma {:induction false} ListenerHears(frames: seq<Frame>)
    requires FaithfulNames(frames)
    ensures var heard := Heard(EventsOfAll(frames), AUDIT_EVENT);
            && |heard| >= |Shown(frames, Audit)|
            && (|heard| == |Shown(frames, Audit)| <==> NoneRenamed(frames))
            && (NoneRenamed(frames) ==> heard == Shown(frames, Audit))
    decreases |frames|
  {
    if frames != [] {
      FirstFrame(frames);
      OneFrameIsHeard(frames[0]);
      ListenerHears(frames[1..]);
      HeardAppend(EventsOf(frames[0]), EventsOfAll(frames[1..]), AUDIT_EVENT);
    }
  }

  lemma {:induction false} ShownIsAPayload(frames: seq<Frame>, line: string)
    requires line in Shown(frames, Log)
    ensures Unnamed(line) in frames
    decreases |frames|
  {
    if frames[0] != Unnamed(line) {
      ShownIsAPayload(frames[1..], line);
    }
  }

  /** A stream, by the lines it shows. */
  lemma StreamNames(frames: seq<Frame>, log: seq<Line>, audit: seq<Line>)
    requires ConsoleFrames(frames) && Shown(frames, Log) == Texts(log) && Shown(frames, Audit) == Texts(audit)
    requires NoReturns(audit)
    ensures Heard(Sse.Receive(NEW_CLIENT, EmitAll(frames)).got, AUDIT_EVENT) == Texts(audit)
            <==> forall i | 0 <= i < |log| :: !Renamed(log[i].text)
  {
    forall f | f in frames && f.Named? ensures CrFree(f) {
      PayloadIsShown(frames, f);
      assert f.payload in Texts(audit);
    }
    ListenerHears(frames);
    FramesStayApart(NEW_CLIENT, frames);
    assert [] + EventsOfAll(frames) == EventsOfAll(frames);
    forall f | f in frames && f.Unnamed? ensures f.payload in Texts(log) {
      PayloadIsShown(frames, f);
    }
    forall i | 0 <= i < |log| ensures Unnamed(log[i].text) in frames {
      assert log[i].text == Texts(log)[i];
      ShownIsAPayload(frames, log[i].text);
    }
  }

  /**
   * In every interleaving, losses included: the attribution listener of a viewer
   * hears exactly the attribution lines it was sent -- if and only if no log line
   * sent beside them reads as an event of that name.
   */
  lemma AttributionIsHeard(logCapacity: nat, auditCapacity: nat, steps: seq<Step>, a: nat, b: nat)
    requires Viewing(Run(Start(logCapacity, auditCapacity), steps), a, b)
    requires var s := Run(Start(logCapacity, auditCapacity), steps);
             s.subs[b].snapshot.Some? ==> NoReturns(s.subs[b].snapshot.value + s.subs[b].got)
    ensures var s := Run(Start(logCapacity, auditCapacity), steps);
            var u, v := s.subs[a], s.subs[b];
            && u.snapshot.Some? && v.snapshot.Some?
            && (var got := Sse.Receive(NEW_CLIENT, Stream(Start(logCapacity, auditCapacity), steps, a, b)).got;
                var log := u.snapshot.value + u.got;
                Heard(got, AUDIT_EVENT) == Texts(v.snapshot.value + v.got)
                <==> forall i | 0 <= i < |log| :: !Renamed(log[i].text))
  {
    var start := Start(logCapacity, auditCapacity);
    var frames := StreamFrames(logCapacity, auditCapacity, steps, a, b);
    var u, v := Run(start, steps).subs[a], Run(start, steps).subs[b];
    StreamNames(frames, u.snapshot.value + u.got, v.snapshot.value + v.got);
  }

  // ---- Such a line ----

  lemma ReceiveTextAfterCr(c: Client, text: string)
    requires OneLine(text) && text != ""
    ensures Sse.Receive(c, text) == c.(line := c.line + text, afterCr := false)
  {
    var d := ReceiveChar(c, text[0]);
    ReceiveText(d, text[1..]);
    assert c.line + [text[0]] + text[1..] == c.line + text;
  }

  /** A line that a carriage return ends. */
  lemma ReceiveLineCr(c: Client, text: string, rest: string)
    requires OneLine(text) && c.line == "" && text != ""
    ensures Sse.Receive(c, text + ("\r" + rest))
            == Sse.Receive(EndLine(c.(line := text, afterCr := false)).(afterCr := true), rest)
  {
    ReceiveAppend(c, text, "\r" + rest);
    ReceiveTextAfterCr(c, text);
    assert c.line + text == text;
    assert ("\r" + rest)[0] == '\r' && ("\r" + rest)[1..] == rest;
  }

  /** What a payload of three fields looks like after the first `data: `. */
  function Payload(before: string, name: string, data: string): string {
    before + ("\r" + ("\r" + (("event: " + name) + ("\r" + ("data: " + data)))))
  }

  lemma PayloadBody(before: string, name: string, data: string)
    requires OneLine(before) && OneLine(name) && OneLine(data) && data != ""
    ensures Emit(Unnamed(Payload(before, name, data)))
            == ("data: " + before) + ("\r" + ("\r" + (("event: " + name) + ("\r" + (("data: " + data) + ("\n" + "\n"))))))
  {
    var p := Payload(before, name, data);
    assert '\n' !in p;
    assert p[|p| - 1] == data[|data| - 1];
    assert TrimCr(p) == p;
    assert Emit(Unnamed(p)) == ("data: " + (p + "\n")) + "\n";
  }

  lemma FirstEvent(before: string, rest: string)
    requires OneLine(before)
    ensures Sse.Receive(NEW_CLIENT, ("data: " + before) + ("\r" + ("\r" + rest)))
            == Sse.Receive(Client("", true, "", "", [Event("message", before)]), rest)
  {
    ReceiveLineCr(NEW_CLIENT, "data: " + before, "\r" + rest);
    DataLine(NEW_CLIENT, before);
    assert "" + (before + "\n") == before + "\n" && (before + "\n")[..|before|] == before;
    var c := Client("", true, before + "\n", "", []);
    assert ("\r" + rest)[0] == '\r' && ("\r" + rest)[1..] == rest;
    assert ReceiveChar(c, '\r') == Client("", true, "", "", [Event("message", before)]);
  }

  lemma NewName(c: Client, name: string, rest: string)
    requires OneLine(name) && c.line == ""
    ensures Sse.Receive(c, ("event: " + name) + ("\r" + rest)) == Sse.Receive(c.(event := name, afterCr := true), rest)
  {
    ReceiveLineCr(c, "event: " + name, rest);
    NameLine(c.(afterCr := false), name);
  }

  /** One log line with carriage returns in it, read as a line and an event under another name. */
  lemma MovedToAnotherName(before: string, name: string, data: string)
    requires OneLine(before) && OneLine(name) && OneLine(data) && name != "" && data != ""
    ensures EventsOf(Unnamed(Payload(before, name, data))) == [Event("message", before), Event(name, data)]
  {
    PayloadBody(before, name, data);
    var last := ("data: " + data) + ("\n" + "\n");
    var c := Client("", true, "", "", [Event("message", before)]);
    FirstEvent(before, ("event: " + name) + ("\r" + last));
    NewName(c, name, last);
    LastEvent(c.(event := name), data);
  }

  lemma TwoLineEnds(c: Client)
    ensures Sse.Receive(c, "\n" + "\n") == ReceiveChar(ReceiveChar(c, '\n'), '\n')
  {
    assert ("\n" + "\n")[1..] == "\n" && "\n"[1..] == "";
  }

  lemma LastLine(c: Client, data: string)
    requires OneLine(data) && c.line == "" && c.data == ""
    ensures ReceiveChar(c.(line := "data: " + data, afterCr := false), '\n')
            == c.(line := "", afterCr := false, data := data + "\n")
  {
    DataLine(c.(afterCr := false), data);
    assert "" + (data + "\n") == data + "\n";
  }

  lemma LastEvent(c: Client, data: string)
    requires OneLine(data) && c.line == "" && c.data == "" && c.event != ""
    ensures Sse.Receive(c, ("data: " + data) + ("\n" + "\n")).got == c.got + [Event(c.event, data)]
  {
    ReceiveAppend(c, "data: " + data, "\n" + "\n");
    ReceiveTextAfterCr(c, "data: " + data);
    assert "" + ("data: " + data) == "data: " + data;
    TwoLineEnds(c.(line := "data: " + data, afterCr := false));
    LastLine(c, data);
    assert (data + "\n")[..|data|] == data;
  }

  /** So such a line is heard as attribution. */
  lemma ALineCanBeRenamed(before: string, data: string)
    requires OneLine(before) && OneLine(data) && data != ""
    ensures Renamed(Payload(before, AUDIT_EVENT, data))
  {
    assert OneLine(AUDIT_EVENT);
    MovedToAnotherName(before, AUDIT_EVENT, data);
    assert "message"[0] != AUDIT_EVENT[0];
    var events := [Event("message", before), Event(AUDIT_EVENT, data)];
    assert events[1..] == [Event(AUDIT_EVENT, data)];
    assert Heard(events[1..], AUDIT_EVENT) != [];
  }
}
