/**
 * What a single tick reads and shows (console/tail.rs), in bytes of the file: how
 * much of an existing log is replayed, where a new file is begun, what is said
 * about it, and what a read that brings nothing leaves alone.
 */
module TailTicks {
  import opened Wrappers
  import opened Sequences
  import opened Bytes
  import opened Lines
  import opened Tail
  import opened TailRuns

  /** A stretch of a file as lines and a rest, and nothing before it. */
  ghost predicate Shows(out: Outcome, text: seq<Byte>) {
    out.lines == CompleteLines(text) && out.state.carry == Unfinished(text)
  }

  lemma {:induction false} NoLongerThanTheText(text: seq<Byte>)
    ensures |Unfinished(text)| <= |text|
    decreases |text|
  {
    match Position(text, NEWLINE)
    case None =>
    case Some(i) => NoLongerThanTheText(text[i + 1..]);
  }

  lemma FedFresh(text: seq<Byte>)
    requires |text| <= 1048576
    ensures Feed([], text) == Split(CompleteLines(text), Unfinished(text))
  {
    assert [] + text == text;
    NoLongerThanTheText(text);
  }

  /** One past the first newline of a stretch. */
  ghost predicate FirstLineStart(content: seq<Byte>, start: nat, end: nat, from: nat) {
    && start < from <= end <= |content| && content[from - 1] == NEWLINE
    && forall j | start <= j < from - 1 :: content[j] != NEWLINE
  }

  lemma KeptBegins(content: seq<Byte>, start: nat, end: nat, from: nat)
    requires FirstLineStart(content, start, end, from)
    ensures Kept(true, content[start..end]) == content[from..end]
  {
    var chunk, k := content[start..end], from - 1 - start;
    assert chunk == chunk[..k] + chunk[k..] && chunk[k] == NEWLINE;
    PositionAfter(chunk[..k], chunk[k..], NEWLINE);
    assert chunk[k + 1..] == content[from..end];
  }

  function Least(a: nat, b: nat): nat {
    if a <= b then a else b
  }

  /** First seen, the file is read to `end`, and `text` shown from `base` on. */
  ghost predicate Attached(id: int, content: seq<Byte>, n: nat, end: nat, text: seq<Byte>, base: nat) {
    var o := File(id, content, Got(n));
    && Tick(State(None, []), o) == Outcome(State(Some(Cursor(id, end)), Unfinished(text)), [], CompleteLines(text))
    && Observe(IDLE, o).base == base
  }

  /** On first attach a log of up to 64 KiB is shown from its beginning. */
  lemma ShortLogIsReplayed(id: int, content: seq<Byte>, n: nat)
    requires |content| <= 65536 && n > 0
    ensures Attached(id, content, n, Least(|content|, n), content[..Least(|content|, n)], 0)
  {
    var end := Least(|content|, n);
    FedFresh(content[..end]);
    if content == [] {
      assert content[..end] == [];
    } else {
      assert Chunk(File(id, content, Got(n)), 0) == content[..end];
    }
  }

  lemma LongLogIsRead(id: int, content: seq<Byte>, n: nat, end: nat, text: seq<Byte>)
    requires |content| > 65536 && n > 0 && end == Least(|content|, |content| - 65536 + n)
    requires text == Kept(true, content[|content| - 65536..end])
    ensures |text| <= end && Attached(id, content, n, end, text, end - |text|)
  {
    var start := |content| - 65536;
    var chunk := content[start..end];
    assert Chunk(File(id, content, Got(n)), start) == chunk;
    assert BeginAt(None, id, |content|) == Begin(start, true, true, []);
    FedFresh(text);
    assert TickFile(State(None, []), id, |content|, Begin(start, true, true, []), chunk)
           == Outcome(State(Some(Cursor(id, end)), Unfinished(text)), [], CompleteLines(text));
    FirstChunkBegins(IDLE, id, content, Begin(start, true, true, []), chunk);
  }

  /** Of a longer one the last 64 KiB are read, and shown from past the first newline among them ... */
  lemma LongLogIsReplayed(id: int, content: seq<Byte>, n: nat, from: nat)
    requires |content| > 65536 && n > 0
    requires FirstLineStart(content, |content| - 65536, Least(|content|, |content| - 65536 + n), from)
    ensures var end := Least(|content|, |content| - 65536 + n);
            Attached(id, content, n, end, content[from..end], from)
  {
    var end := Least(|content|, |content| - 65536 + n);
    KeptBegins(content, |content| - 65536, end, from);
    LongLogIsRead(id, content, n, end, content[from..end]);
  }

  /** ... and without a newline among them not at all. */
  lemma LongLineIsPassedOver(id: int, content: seq<Byte>, n: nat)
    requires |content| > 65536 && n > 0
    requires NEWLINE !in content[|content| - 65536..Least(|content|, |content| - 65536 + n)]
    ensures var end := Least(|content|, |content| - 65536 + n);
            Attached(id, content, n, end, [], end)
  {
    var end := Least(|content|, |content| - 65536 + n);
    assert Position(content[|content| - 65536..end], NEWLINE) == None;
    LongLogIsRead(id, content, n, end, []);
  }

  /** Another file, or the same one cut short, is read from its beginning, a megabyte at most. */
  lemma NewFileIsReadFromItsBeginning(s: State, id: int, content: seq<Byte>, n: nat)
    requires s.cursor.Some? && (s.cursor.value.id != id || |content| < s.cursor.value.pos) && n > 0
    ensures var end := Least(|content|, Least(n, 1048576));
            var out := Tick(s, File(id, content, Got(n)));
            && out.state.cursor == Some(Cursor(id, end)) && Shows(out, content[..end])
            && NoticeTexts(out.notices)
               == [if s.cursor.value.id != id then "── log rotated ──" else "── log truncated ──"]
  {
    var end := Least(|content|, Least(n, 1048576));
    FedFresh(content[..end]);
    if content == [] {
      assert content[..end] == [];
    } else {
      assert Chunk(File(id, content, Got(n)), 0) == content[..end];
    }
  }

  /** The same file, grown, is read on where the last read ended, a megabyte at most. */
  lemma SameFileIsReadOn(s: State, id: int, content: seq<Byte>, n: nat)
    requires s.cursor.Some? && s.cursor.value.id == id && s.cursor.value.pos <= |content| && n > 0
    ensures var pos := s.cursor.value.pos;
            var end := Least(|content|, pos + Least(n, 1048576));
            var out := Tick(s, File(id, content, Got(n)));
            && out.state.cursor == Some(Cursor(id, end)) && out.notices == []
            && var text := s.carry + content[pos..end];
               if pos == |content| then out.lines == [] && out.state.carry == s.carry
               else if |Unfinished(text)| <= 1048576 then Shows(out, text)
               else out.lines == CompleteLines(text) + [Unfinished(text)] && out.state.carry == []
  {
    var pos := s.cursor.value.pos;
    var end := Least(|content|, pos + Least(n, 1048576));
    assert Chunk(File(id, content, Got(n)), pos) == content[pos..end];
  }

  /** A read that fails or brings nothing leaves the place alone; what was pending goes if the file is another. */
  lemma NothingReadNothingMoves(s: State, id: int, content: seq<Byte>, reading: Reading)
    requires reading == Failed || reading == Got(0)
    requires content != []
    ensures var out := Tick(s, File(id, content, reading));
            var same := s.cursor.Some? && s.cursor.value.id == id && s.cursor.value.pos <= |content|;
            && out.lines == [] && out.state == State(s.cursor, if same then s.carry else [])
  {
  }

  /** A file that is gone is forgotten, and said to be closed once. */
  lemma GoneIsSaidOnce(s: State)
    ensures var out := Tick(s, Absent);
            && out.state == State(None, []) && out.lines == []
            && NoticeTexts(out.notices) == (if s.cursor.Some? then ["── log file closed ──"] else [])
            && NoticeTexts(Tick(out.state, Absent).notices) == []
  {
  }
}
