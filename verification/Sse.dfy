/**
 * Server-sent events: the frames the console writes (console/mod.rs,
 * `sse_frame` and `sse_event`) and the reader they are written for, the
 * event-stream interpreter of section 9.2.6 of the WHATWG HTML standard.
 */
module Sse {
  import opened Wrappers
  import opened Sequences

  /** `trim_end_matches('\r')`. */
  function TrimCr(s: string): string {
    if s != "" && s[|s| - 1] == '\r' then TrimCr(s[..|s| - 1]) else s
  }

  /** One `data:` line for every physical line of the payload. */
  function Body(line: string): string {
    match Position(line, '\n')
    case None => "data: " + (TrimCr(line) + "\n")
    case Some(i) => "data: " + (TrimCr(line[..i]) + ("\n" + Body(line[i + 1..])))
  }

  method SseFrame(line: string) returns (out: string)
    ensures out == Body(line) + "\n"
  {
    out := "";
    var rest, more := line, true;
    while more
      invariant if more then out + Body(rest) == Body(line) else out == Body(line)
      decreases if more then 1 + |rest| else 0
    {
      var newline := Position(rest, '\n');
      var part := TrimCr(if newline.Some? then rest[..newline.value] else rest);
      Reassociate(out, part, if newline.Some? then Body(rest[newline.value + 1..]) else "");
      out := out + "data: ";
      out := out + part;
      out := out + "\n";
      match newline {
        case None => more := false;
        case Some(i) => rest := rest[i + 1..];
      }
    }
    out := out + "\n";
  }

  lemma Reassociate(out: string, part: string, rest: string)
    ensures out + ("data: " + (part + ("\n" + rest))) == (((out + "data: ") + part) + "\n") + rest
    ensures rest == "" ==> out + ("data: " + (part + "\n")) == ((out + "data: ") + part) + "\n"
  {
  }

  method SseEvent(name: string, line: string) returns (out: string)
    ensures out == "event: " + (name + ("\n" + (Body(line) + "\n")))
  {
    out := "event: ";
    out := out + name;
    out := out + "\n";
    var frame := SseFrame(line);
    out := out + frame;
  }

  datatype Event = Event(name: string, data: string)

  /** The interpreter's buffers, and the events it has dispatched so far. */
  datatype Client = Client(line: string, afterCr: bool, data: string, event: string, got: seq<Event>)

  const NEW_CLIENT := Client("", false, "", "", [])

  /** A blank line: dispatch what the buffers hold, unless there is no data. */
  function Dispatch(c: Client): Client {
    if c.data == "" then c.(event := "")
    else
      var name := if c.event == "" then "message" else c.event;
      var n := |c.data| - 1;
      var data := if c.data[n] == '\n' then c.data[..n] else c.data;
      c.(data := "", event := "", got := c.got + [Event(name, data)])
  }

  /** Fields that bear on neither the name nor the data (`id`, `retry`) are skipped with the unknown ones. */
  function ProcessField(c: Client, field: string, value: string): Client {
    if field == "event" then c.(event := value)
    else if field == "data" then c.(data := c.data + (value + "\n"))
    else c
  }

  function Value(s: string): string {
    if s != "" && s[0] == ' ' then s[1..] else s
  }

  function EndLine(c: Client): Client {
    var line, next := c.line, c.(line := "");
    if line == "" then Dispatch(next)
    else
      match Position(line, ':')
      case Some(i) => if i == 0 then next else ProcessField(next, line[..i], Value(line[i + 1..]))
      case None => ProcessField(next, line, "")
  }

  /** Lines end with LF, CR or the two together. */
  function ReceiveChar(c: Client, ch: char): Client {
    if ch == '\n' then (if c.afterCr then c.(afterCr := false) else EndLine(c))
    else if ch == '\r' then EndLine(c).(afterCr := true)
    else c.(line := c.line + [ch], afterCr := false)
  }

  function Receive(c: Client, s: string): Client
    decreases |s|
  {
    if s == "" then c else Receive(ReceiveChar(c, s[0]), s[1..])
  }

  lemma {:induction false} ReceiveAppend(c: Client, a: string, b: string)
    ensures Receive(c, a + b) == Receive(Receive(c, a), b)
    decreases |a|
  {
    if a == "" {
      assert a + b == b;
    } else {
      assert (a + b)[1..] == a[1..] + b;
      ReceiveAppend(ReceiveChar(c, a[0]), a[1..], b);
    }
  }

  /** No line break of either kind. */
  ghost predicate OneLine(s: string) {
    '\n' !in s && '\r' !in s
  }

  lemma {:induction false} ReceiveText(c: Client, text: string)
    requires OneLine(text) && !c.afterCr
    ensures Receive(c, text) == c.(line := c.line + text)
    decreases |text|
  {
    if text == "" {
      assert c.line + text == c.line;
    } else {
      ReceiveText(ReceiveChar(c, text[0]), text[1..]);
      assert c.line + [text[0]] + text[1..] == c.line + text;
    }
  }

  lemma ReceiveLine(c: Client, text: string, rest: string)
    requires OneLine(text) && !c.afterCr && c.line == ""
    ensures Receive(c, text + ("\n" + rest)) == Receive(EndLine(c.(line := text)), rest)
  {
    ReceiveAppend(c, text, "\n" + rest);
    ReceiveText(c, text);
    assert c.line + text == text;
    assert ("\n" + rest)[0] == '\n' && ("\n" + rest)[1..] == rest;
  }

  lemma DataLine(c: Client, text: string)
    requires OneLine(text)
    ensures EndLine(c.(line := "data: " + text)) == c.(line := "", data := c.data + (text + "\n"))
  {
    var line := "data: " + text;
    PositionAfter("data", ": " + text, ':');
    assert line == "data" + (": " + text);
    assert Position(": " + text, ':') == Some(0);
    assert line[..4] == "data" && line[5..] == " " + text;
    assert (" " + text)[1..] == text;
  }

  lemma TrimmedIsItself(s: string)
    requires '\r' !in s
    ensures TrimCr(s) == s
  {
  }

  lemma Regroup(head: string, text: string, more: string, rest: string)
    ensures (head + (text + ("\n" + more))) + rest == (head + text) + ("\n" + (more + rest))
    ensures (head + (text + "\n")) + rest == (head + text) + ("\n" + rest)
  {
  }

  lemma RestOfLine(data: string, line: string, i: nat)
    requires i < |line| && line[i] == '\n'
    ensures (data + (line[..i] + "\n")) + (line[i + 1..] + "\n") == data + (line + "\n")
  {
    assert line == line[..i] + "\n" + line[i + 1..];
  }

  /** Whatever lines a payload is written as, the data buffer gets the payload back. */
  lemma {:induction false} BodyFillsData(c: Client, line: string, rest: string)
    requires '\r' !in line && !c.afterCr && c.line == ""
    ensures Receive(c, Body(line) + rest) == Receive(c.(data := c.data + (line + "\n")), rest)
    decreases |line|
  {
    match Position(line, '\n')
    case None =>
      TrimmedIsItself(line);
      Regroup("data: ", line, "", rest);
      ReceiveLine(c, "data: " + line, rest);
      DataLine(c, line);
    case Some(i) =>
      var first, more := line[..i], line[i + 1..];
      TrimmedIsItself(first);
      Regroup("data: ", first, Body(more), rest);
      ReceiveLine(c, "data: " + first, Body(more) + rest);
      DataLine(c, first);
      BodyFillsData(c.(data := c.data + (first + "\n")), more, rest);
      RestOfLine(c.data, line, i);
  }

  datatype Frame = Unnamed(payload: string) | Named(name: string, payload: string) | Comment(text: string)

  /** The bytes of one frame: a log line, an attribution line, a heartbeat or lag notice. */
  function Emit(f: Frame): string {
    match f
    case Unnamed(payload) => Body(payload) + "\n"
    case Named(name, payload) => "event: " + (name + ("\n" + (Body(payload) + "\n")))
    case Comment(text) => ":" + (text + "\n\n")
  }

  function EmitAll(frames: seq<Frame>): string {
    if frames == [] then "" else Emit(frames[0]) + EmitAll(frames[1..])
  }

  function Delivered(f: Frame): seq<Event> {
    match f
    case Unnamed(payload) => [Event("message", payload)]
    case Named(name, payload) => [Event(name, payload)]
    case Comment(_) => []
  }

  function DeliveredAll(frames: seq<Frame>): seq<Event> {
    if frames == [] then [] else Delivered(frames[0]) + DeliveredAll(frames[1..])
  }

  /** Names and comments are this program's own: one line, and a name is not empty. */
  ghost predicate WellNamed(f: Frame) {
    (f.Named? ==> f.name != "" && OneLine(f.name)) && (f.Comment? ==> OneLine(f.text))
  }

  ghost predicate CrFree(f: Frame) {
    f.Comment? || '\r' !in f.payload
  }

  ghost predicate Between(c: Client) {
    c.line == "" && !c.afterCr && c.data == "" && c.event == ""
  }

  lemma PayloadArrives(c: Client, payload: string, rest: string)
    requires '\r' !in payload && c.line == "" && !c.afterCr && c.data == ""
    ensures Receive(c, (Body(payload) + "\n") + rest)
            == Receive(c.(event := "", got := c.got + [Event(if c.event == "" then "message" else c.event, payload)]), rest)
  {
    assert (Body(payload) + "\n") + rest == Body(payload) + ("\n" + rest);
    BodyFillsData(c, payload, "\n" + rest);
    var d := c.(data := c.data + (payload + "\n"));
    assert d.data == payload + "\n";
    assert "\n" + rest == "" + ("\n" + rest);
    ReceiveLine(d, "", rest);
    assert (payload + "\n")[..|payload|] == payload;
  }

  lemma NameLine(c: Client, name: string)
    requires OneLine(name)
    ensures EndLine(c.(line := "event: " + name)) == c.(line := "", event := name)
  {
    var line := "event: " + name;
    PositionAfter("event", ": " + name, ':');
    assert line == "event" + (": " + name);
    assert Position(": " + name, ':') == Some(0);
    assert line[..5] == "event" && line[6..] == " " + name;
    assert (" " + name)[1..] == name;
  }

  lemma NamedArrives(c: Client, name: string, payload: string, rest: string)
    requires Between(c) && name != "" && OneLine(name) && '\r' !in payload
    ensures Receive(c, Emit(Named(name, payload)) + rest)
            == Receive(c.(got := c.got + [Event(name, payload)]), rest)
  {
    var frame := Body(payload) + "\n";
    Regroup("event: ", name, frame, rest);
    ReceiveLine(c, "event: " + name, frame + rest);
    NameLine(c, name);
    PayloadArrives(c.(event := name), payload, rest);
  }

  lemma CommentArrives(c: Client, text: string, rest: string)
    requires Between(c) && OneLine(text)
    ensures Receive(c, Emit(Comment(text)) + rest) == Receive(c, rest)
  {
    assert Emit(Comment(text)) + rest == (":" + text) + ("\n" + ("" + ("\n" + rest)));
    ReceiveLine(c, ":" + text, "" + ("\n" + rest));
    assert Position(":" + text, ':') == Some(0);
    ReceiveLine(c, "", rest);
  }

  lemma FrameArrives(c: Client, f: Frame, rest: string)
    requires Between(c) && WellNamed(f) && CrFree(f)
    ensures Receive(c, Emit(f) + rest) == Receive(c.(got := c.got + Delivered(f)), rest)
  {
    match f
    case Unnamed(payload) => PayloadArrives(c, payload, rest);
    case Named(name, payload) => NamedArrives(c, name, payload, rest);
    case Comment(text) =>
      CommentArrives(c, text, rest);
      assert c.got + [] == c.got;
  }

  lemma {:induction false} FramesArrive(c: Client, frames: seq<Frame>)
    requires Between(c)
    requires forall f | f in frames :: WellNamed(f) && CrFree(f)
    ensures Receive(c, EmitAll(frames)) == c.(got := c.got + DeliveredAll(frames))
    decreases |frames|
  {
    if frames == [] {
      assert c.got + [] == c.got;
    } else {
      FrameArrives(c, frames[0], EmitAll(frames[1..]));
      var d := c.(got := c.got + Delivered(frames[0]));
      FramesArrive(d, frames[1..]);
      AppendIsAssociative(c.got, Delivered(frames[0]), DeliveredAll(frames[1..]));
    }
  }

  /** A carriage return is a line break to the reader, so no event ever carries one. */
  ghost predicate NoCr(c: Client) {
    '\r' !in c.line && '\r' !in c.data && forall e | e in c.got :: '\r' !in e.data
  }

  lemma DispatchKeepsNoCr(c: Client)
    requires NoCr(c)
    ensures NoCr(Dispatch(c))
  {
  }

  lemma EndLineKeepsNoCr(c: Client)
    requires NoCr(c)
    ensures NoCr(EndLine(c))
  {
    DispatchKeepsNoCr(c.(line := ""));
  }

  lemma ReceiveCharKeepsNoCr(c: Client, ch: char)
    requires NoCr(c)
    ensures NoCr(ReceiveChar(c, ch))
  {
    EndLineKeepsNoCr(c);
  }

  lemma {:induction false} ReceiveKeepsNoCr(c: Client, s: string)
    requires NoCr(c)
    ensures NoCr(Receive(c, s))
    decreases |s|
  {
    if s != "" {
      ReceiveCharKeepsNoCr(c, s[0]);
      ReceiveKeepsNoCr(ReceiveChar(c, s[0]), s[1..]);
    }
  }

  lemma {:induction false} DeliveredKeepsPayload(frames: seq<Frame>, f: Frame)
    requires f in frames && !f.Comment?
    ensures exists e :: e in DeliveredAll(frames) && e.data == f.payload
  {
    if frames[0] == f {
      assert Delivered(f)[0] in DeliveredAll(frames);
    } else {
      DeliveredKeepsPayload(frames[1..], f);
      var e :| e in DeliveredAll(frames[1..]) && e.data == f.payload;
      assert e in DeliveredAll(frames);
    }
  }

  /**
   * Any concatenation of frames reads back as exactly its payloads, under their
   * own names and in order -- if and only if no payload has a carriage return.
   */
  lemma FramesReadBack(frames: seq<Frame>)
    requires forall f | f in frames :: WellNamed(f)
    ensures Receive(NEW_CLIENT, EmitAll(frames)).got == DeliveredAll(frames)
            <==> forall f | f in frames :: CrFree(f)
  {
    if forall f | f in frames :: CrFree(f) {
      FramesArrive(NEW_CLIENT, frames);
      assert [] + DeliveredAll(frames) == DeliveredAll(frames);
    } else {
      var f :| f in frames && !CrFree(f);
      DeliveredKeepsPayload(frames, f);
      ReceiveKeepsNoCr(NEW_CLIENT, EmitAll(frames));
    }
  }
}
