/**
 * Cutting a byte stream into lines (console/mod.rs, `LineSplitter`).
 *
 * `CompleteLines` and `Unfinished` say what the lines of a text are, whole;
 * `Feed` is what one `push` does with one chunk. The theorems relate the two.
 */
module Lines {
  import opened Wrappers
  import opened Bytes
  import opened Sequences

  const NEWLINE: Byte := 10
  const MAX_CARRY: nat := 1024 * 1024

  /** The lines of `b` that a newline ends, without that newline. */
  function CompleteLines(b: seq<Byte>): seq<seq<Byte>> {
    match Position(b, NEWLINE)
    case None => []
    case Some(i) => [b[..i]] + CompleteLines(b[i + 1..])
  }

  /** What follows the last newline of `b`. */
  function Unfinished(b: seq<Byte>): seq<Byte> {
    match Position(b, NEWLINE)
    case None => b
    case Some(i) => Unfinished(b[i + 1..])
  }

  /** The text that has these lines and this unfinished rest. */
  function Joined(lines: seq<seq<Byte>>, rest: seq<Byte>): seq<Byte> {
    if lines == [] then rest else lines[0] + ([NEWLINE] + Joined(lines[1..], rest))
  }

  lemma FirstLine(line: seq<Byte>, tail: seq<Byte>)
    requires NEWLINE !in line
    ensures CompleteLines(line + ([NEWLINE] + tail)) == [line] + CompleteLines(tail)
    ensures Unfinished(line + ([NEWLINE] + tail)) == Unfinished(tail)
  {
    var rest := [NEWLINE] + tail;
    assert rest[0] == NEWLINE;
    PositionAfter(line, rest, NEWLINE);
    assert Position(line + rest, NEWLINE) == Some(|line|);
    CutAround(line, NEWLINE, tail);
  }

  lemma CutAround(line: seq<Byte>, b: Byte, tail: seq<Byte>)
    ensures (line + ([b] + tail))[..|line|] == line && (line + ([b] + tail))[|line| + 1..] == tail
  {
  }

  ghost predicate NewlineFree(lines: seq<seq<Byte>>) {
    forall i | 0 <= i < |lines| :: NEWLINE !in lines[i]
  }

  lemma {:induction false} LinesHoldNoNewline(b: seq<Byte>)
    ensures NewlineFree(CompleteLines(b)) && NEWLINE !in Unfinished(b)
  {
    match Position(b, NEWLINE)
    case None =>
    case Some(i) => LinesHoldNoNewline(b[i + 1..]);
  }

  lemma JoinedCons(line: seq<Byte>, lines: seq<seq<Byte>>, rest: seq<Byte>)
    ensures Joined([line] + lines, rest) == line + ([NEWLINE] + Joined(lines, rest))
  {
    assert ([line] + lines)[1..] == lines;
  }

  /** A text is its lines, each followed by a newline, and then its unfinished rest. */
  lemma {:induction false} LinesRebuildTheText(b: seq<Byte>)
    ensures Joined(CompleteLines(b), Unfinished(b)) == b
  {
    match Position(b, NEWLINE)
    case None =>
    case Some(i) =>
      LinesRebuildTheText(b[i + 1..]);
      JoinedCons(b[..i], CompleteLines(b[i + 1..]), Unfinished(b[i + 1..]));
      assert b == b[..i] + ([NEWLINE] + b[i + 1..]);
  }

  /** ... and no other division into newline-free lines rebuilds it. */
  lemma {:induction false} LinesAreUnique(b: seq<Byte>, lines: seq<seq<Byte>>, rest: seq<Byte>)
    requires Joined(lines, rest) == b
    requires NewlineFree(lines)
    requires NEWLINE !in rest
    ensures lines == CompleteLines(b) && rest == Unfinished(b)
    decreases |lines|
  {
    if lines == [] {
    } else {
      var tail := Joined(lines[1..], rest);
      FirstLine(lines[0], tail);
      LinesAreUnique(tail, lines[1..], rest);
    }
  }

  ghost predicate Resumes(a: seq<Byte>, c: seq<Byte>) {
    && CompleteLines(a + c) == CompleteLines(a) + CompleteLines(Unfinished(a) + c)
    && Unfinished(a + c) == Unfinished(Unfinished(a) + c)
  }

  lemma ResumesPastALine(line: seq<Byte>, tail: seq<Byte>, c: seq<Byte>)
    requires NEWLINE !in line && Resumes(tail, c)
    ensures Resumes(line + ([NEWLINE] + tail), c)
  {
    var a := line + ([NEWLINE] + tail);
    AppendAfterALine(line, tail, c);
    FirstLine(line, tail);
    FirstLine(line, tail + c);
    AppendIsAssociative([line], CompleteLines(tail), CompleteLines(Unfinished(tail) + c));
  }

  lemma AppendAfterALine(line: seq<Byte>, tail: seq<Byte>, c: seq<Byte>)
    ensures (line + ([NEWLINE] + tail)) + c == line + ([NEWLINE] + (tail + c))
  {
  }

  /** Splitting may stop at any point and go on from the unfinished rest. */
  lemma {:induction false} SplitResumes(a: seq<Byte>, c: seq<Byte>)
    ensures Resumes(a, c)
    decreases |a|
  {
    match Position(a, NEWLINE)
    case None =>
    case Some(i) =>
      SplitResumes(a[i + 1..], c);
      ResumesPastALine(a[..i], a[i + 1..], c);
      assert a == a[..i] + ([NEWLINE] + a[i + 1..]);
  }

  lemma {:induction false} OneLinePerNewline(b: seq<Byte>)
    ensures |CompleteLines(b)| == multiset(b)[NEWLINE]
  {
    match Position(b, NEWLINE)
    case None =>
    case Some(i) =>
      OneLinePerNewline(b[i + 1..]);
      assert b == b[..i] + [b[i]] + b[i + 1..];
  }

  /** The lines handed out so far, and the bytes held back for the next chunk. */
  datatype Split = Split(lines: seq<seq<Byte>>, carry: seq<Byte>)

  /** One `push`, the overflow rule included. */
  function Feed(carry: seq<Byte>, chunk: seq<Byte>): Split {
    var lines, rest := CompleteLines(carry + chunk), Unfinished(carry + chunk);
    if |rest| > MAX_CARRY then Split(lines + [rest], []) else Split(lines, rest)
  }

  /** A whole sequence of pushes into a new splitter. */
  function FeedAll(chunks: seq<seq<Byte>>): Split {
    if chunks == [] then Split([], [])
    else
      var n := |chunks| - 1;
      var before := FeedAll(chunks[..n]);
      var step := Feed(before.carry, chunks[n]);
      Split(before.lines + step.lines, step.carry)
  }

  function Flat(chunks: seq<seq<Byte>>): seq<Byte> {
    if chunks == [] then [] else Flat(chunks[..|chunks| - 1]) + chunks[|chunks| - 1]
  }

  /** No chunk ends with more than `MAX_CARRY` bytes of unfinished line pending. */
  ghost predicate WithinCarry(chunks: seq<seq<Byte>>) {
    chunks != [] ==> WithinCarry(chunks[..|chunks| - 1]) && |Unfinished(Flat(chunks))| <= MAX_CARRY
  }

  lemma CarryHasNoNewline(chunks: seq<seq<Byte>>)
    ensures NEWLINE !in FeedAll(chunks).carry
  {
    if chunks != [] {
      var n := |chunks| - 1;
      LinesHoldNoNewline(FeedAll(chunks[..n]).carry + chunks[n]);
    }
  }

  /** The pushes agree with the whole text, or have handed out too many lines for it. */
  lemma {:induction false} FeedingAgreesOrOverruns(chunks: seq<seq<Byte>>)
    ensures WithinCarry(chunks) ==>
            FeedAll(chunks) == Split(CompleteLines(Flat(chunks)), Unfinished(Flat(chunks)))
    ensures !WithinCarry(chunks) ==> |FeedAll(chunks).lines| > |CompleteLines(Flat(chunks))|
    decreases |chunks|
  {
    if chunks == [] {
    } else {
      var n := |chunks| - 1;
      var before, c := chunks[..n], chunks[n];
      FeedingAgreesOrOverruns(before);
      SplitResumes(Flat(before), c);
      var held := FeedAll(before).carry;
      CarryHasNoNewline(before);
      LinesHoldNoNewline(Flat(before));
      OneLinePerNewline(held + c);
      OneLinePerNewline(Unfinished(Flat(before)) + c);
    }
  }

  /**
   * However the bytes are cut into chunks, the pushes hand out the lines of the
   * whole text and keep its unfinished rest -- exactly when no chunk boundary
   * finds more than `MAX_CARRY` bytes of unfinished line.
   */
  lemma ChunkingIsInvisible(chunks: seq<seq<Byte>>)
    ensures FeedAll(chunks) == Split(CompleteLines(Flat(chunks)), Unfinished(Flat(chunks)))
            <==> WithinCarry(chunks)
  {
    FeedingAgreesOrOverruns(chunks);
  }

  /** One byte too many of a line still being written, and the line comes out in two. */
  lemma OverlongLineIsCut()
    ensures var long: seq<Byte> := seq(MAX_CARRY + 1, _ => 65);
            FeedAll([long, [NEWLINE]]) != Split(CompleteLines(Flat([long, [NEWLINE]])), Unfinished(Flat([long, [NEWLINE]])))
  {
    var long: seq<Byte> := seq(MAX_CARRY + 1, _ => 65);
    var chunks := [long, [NEWLINE]];
    assert chunks[..1] == [long] && [long][..0] == [];
    assert Flat([long]) == long;
    assert Unfinished(long) == long;
    ChunkingIsInvisible(chunks);
  }

  /** Every line handed out by the splitter goes through the same decoder. */
  function Decoded(decode: seq<Byte> -> string, lines: seq<seq<Byte>>): (r: seq<string>)
    ensures |r| == |lines| && forall i | 0 <= i < |r| :: r[i] == decode(lines[i])
  {
    seq(|lines|, i requires 0 <= i < |lines| => decode(lines[i]))
  }

  lemma DecodedSnoc(decode: seq<Byte> -> string, lines: seq<seq<Byte>>, line: seq<Byte>)
    ensures Decoded(decode, lines + [line]) == Decoded(decode, lines) + [decode(line)]
  {
  }

  /** The lines before `start` are `raw`. */
  ghost predicate CutTo(text: seq<Byte>, start: nat, raw: seq<seq<Byte>>) {
    && start <= |text| && CompleteLines(text) == raw + CompleteLines(text[start..])
    && Unfinished(text) == Unfinished(text[start..])
  }

  lemma CutNothing(text: seq<Byte>)
    ensures CutTo(text, 0, [])
  {
    assert text[0..] == text;
  }

  lemma TakeLine(b: seq<Byte>, start: nat, i: nat)
    requires start <= |b| && Position(b[start..], NEWLINE) == Some(i)
    ensures CompleteLines(b[start..]) == [b[start..start + i]] + CompleteLines(b[start + i + 1..])
    ensures Unfinished(b[start..]) == Unfinished(b[start + i + 1..])
  {
    assert b[start..][..i] == b[start..start + i];
    assert b[start..][i + 1..] == b[start + i + 1..];
  }

  lemma CutOneLine(text: seq<Byte>, start: nat, raw: seq<seq<Byte>>, i: nat)
    requires CutTo(text, start, raw) && Position(text[start..], NEWLINE) == Some(i)
    ensures CutTo(text, start + i + 1, raw + [text[start..start + i]])
  {
    TakeLine(text, start, i);
    AppendIsAssociative(raw, [text[start..start + i]], CompleteLines(text[start + i + 1..]));
  }

  lemma CutAll(text: seq<Byte>, start: nat, raw: seq<seq<Byte>>)
    requires CutTo(text, start, raw) && Position(text[start..], NEWLINE).None?
    ensures CompleteLines(text) == raw && Unfinished(text) == text[start..]
  {
    assert raw + [] == raw;
  }

  /** The same, as handed out by the splitter. */
  ghost predicate HandedTo(decode: seq<Byte> -> string, text: seq<Byte>, start: nat, lines: seq<string>) {
    exists raw :: CutTo(text, start, raw) && lines == Decoded(decode, raw)
  }

  lemma HandedNothing(decode: seq<Byte> -> string, text: seq<Byte>)
    ensures HandedTo(decode, text, 0, [])
  {
    CutNothing(text);
    assert Decoded(decode, []) == [];
  }

  lemma HandedOneLine(decode: seq<Byte> -> string, text: seq<Byte>, start: nat, lines: seq<string>, i: nat)
    requires HandedTo(decode, text, start, lines) && start <= |text| && Position(text[start..], NEWLINE) == Some(i)
    ensures HandedTo(decode, text, start + i + 1, lines + [decode(text[start..start + i])])
  {
    var raw :| CutTo(text, start, raw) && lines == Decoded(decode, raw);
    CutOneLine(text, start, raw, i);
    DecodedSnoc(decode, raw, text[start..start + i]);
  }

  lemma HandedAll(decode: seq<Byte> -> string, text: seq<Byte>, start: nat, lines: seq<string>)
    requires HandedTo(decode, text, start, lines) && start <= |text| && Position(text[start..], NEWLINE).None?
    ensures lines == Decoded(decode, CompleteLines(text)) && text[start..] == Unfinished(text)
  {
    var raw :| CutTo(text, start, raw) && lines == Decoded(decode, raw);
    CutAll(text, start, raw);
  }

  class LineSplitter {
    var carry: seq<Byte>
    /** `decode_line`: lossy UTF-8, carriage returns trimmed, escapes translated. */
    const decode: seq<Byte> -> string

    constructor (decode: seq<Byte> -> string)
      ensures carry == [] && this.decode == decode
    {
      carry := [];
      this.decode := decode;
    }

    method Push(chunk: seq<Byte>) returns (lines: seq<string>)
      modifies this
      ensures lines == Decoded(decode, Feed(old(carry), chunk).lines)
      ensures carry == Feed(old(carry), chunk).carry
    {
      carry := carry + chunk;
      var start: nat;
      lines, start := CutLines();
      DecodedSnoc(decode, CompleteLines(carry), carry[start..]);
      carry := carry[start..];
      if |carry| > MAX_CARRY {
        lines := lines + [decode(carry)];
        carry := [];
      }
    }

    /** The loop of `push`: every line the buffer holds, and where the unfinished one starts. */
    method CutLines() returns (lines: seq<string>, start: nat)
      ensures lines == Decoded(decode, CompleteLines(carry))
      ensures start <= |carry| && carry[start..] == Unfinished(carry)
    {
      HandedNothing(decode, carry);
      lines, start := [], 0;
      var offset := Position(carry[start..], NEWLINE);
      while offset.Some?
        invariant start <= |carry| && offset == Position(carry[start..], NEWLINE)
        invariant HandedTo(decode, carry, start, lines)
        decreases |carry| - start
      {
        var end := start + offset.value;
        HandedOneLine(decode, carry, start, lines, offset.value);
        lines := lines + [decode(carry[start..end])];
        start := end + 1;
        offset := Position(carry[start..], NEWLINE);
      }
      HandedAll(decode, carry, start, lines);
    }

    method Reset()
      modifies this
      ensures carry == []
    {
      carry := [];
    }
  }
}
