/**
 * What a tail has shown after any run of ticks (console/tail.rs).
 *
 * `Watch` runs beside the tail and remembers what the tail does not: the part of
 * the file it has read, where in it the present stretch of lines begins, and the
 * chunks fed to the splitter since.
 */
module TailRuns {
  import opened Wrappers
  import opened Sequences
  import opened Bytes
  import opened Lines
  import opened Tail

  datatype Watch = Watch(
    state: State, seen: seq<Byte>, base: nat, chunks: seq<seq<Byte>>, shown: seq<seq<Byte>>)

  const IDLE := Watch(State(None, []), [], 0, [], [])

  function WatchFile(w: Watch, id: int, content: seq<Byte>, begin: Begin, chunk: seq<Byte>): Watch {
    var out := TickFile(w.state, id, |content|, begin, chunk);
    var end := begin.pos + |chunk|;
    var seen := if (chunk == [] && begin.pos < |content|) || end > |content| then w.seen else content[..end];
    if !begin.restart then
      if chunk == [] then w.(state := out.state, seen := seen)
      else Watch(out.state, seen, w.base, w.chunks + [Kept(begin.skipPartial, chunk)], w.shown + out.lines)
    else if chunk == [] then Watch(out.state, seen, |seen|, [], [])
    else
      var kept := Kept(begin.skipPartial, chunk);
      Watch(out.state, seen, if |kept| <= end then end - |kept| else 0, [kept], out.lines)
  }

  function Observe(w: Watch, o: Observation): Watch {
    match o
    case Absent => Watch(Tick(w.state, o).state, [], 0, [], [])
    case File(id, content, _) =>
      var begin := BeginAt(w.state.cursor, id, |content|);
      WatchFile(w, id, content, begin, Chunk(o, begin.pos))
  }

  function ObserveAll(w: Watch, os: seq<Observation>): Watch {
    if os == [] then w else Observe(ObserveAll(w, os[..|os| - 1]), os[|os| - 1])
  }

  /** A file with the same identity has only grown, or is seen shorter than the cursor. */
  ghost predicate Faithful(w: Watch, o: Observation) {
    o.File? && w.state.cursor.Some? && w.state.cursor.value.id == o.id && w.state.cursor.value.pos <= |o.content|
    ==> o.content[..w.state.cursor.value.pos] == w.seen
  }

  ghost predicate FaithfulRun(w: Watch, os: seq<Observation>) {
    os != [] ==> FaithfulRun(w, os[..|os| - 1]) && Faithful(ObserveAll(w, os[..|os| - 1]), os[|os| - 1])
  }

  ghost predicate Inv(w: Watch) {
    && |w.seen| == (if w.state.cursor.None? then 0 else w.state.cursor.value.pos)
    && w.base <= |w.seen|
    && Flat(w.chunks) == w.seen[w.base..]
    && FeedAll(w.chunks) == Split(w.shown, w.state.carry)
  }

  /** What `BeginAt` and `Chunk` promise about the place and the bytes they choose. */
  ghost predicate Sound(w: Watch, content: seq<Byte>, begin: Begin, chunk: seq<Byte>) {
    && begin.pos + |chunk| <= |content|
    && chunk == content[begin.pos..begin.pos + |chunk|]
    && (begin.restart ==> begin.skipPartial || begin.pos == 0)
    && (begin.skipPartial ==> begin.pos < |content|)
    && (!begin.restart ==> !begin.skipPartial && content[..begin.pos] == w.seen && w.state.cursor.Some?)
  }

  lemma TickIsSound(w: Watch, o: Observation)
    requires Inv(w) && Faithful(w, o) && o.File?
    ensures var begin := BeginAt(w.state.cursor, o.id, |o.content|);
            && Sound(w, o.content, begin, Chunk(o, begin.pos))
            && (!begin.restart ==> w.state.cursor == Some(Cursor(o.id, begin.pos)))
  {
    BeginIsInTheFile(w.state.cursor, o.id, |o.content|);
    ChunkIsOfTheFile(o, BeginAt(w.state.cursor, o.id, |o.content|).pos);
  }

  lemma BeginIsInTheFile(cursor: Option<Cursor>, id: int, len: nat)
    ensures var begin := BeginAt(cursor, id, len);
            && begin.pos <= len && (begin.restart ==> begin.skipPartial || begin.pos == 0)
            && (begin.skipPartial ==> begin.pos < len && begin.restart)
            && (!begin.restart ==> cursor == Some(Cursor(id, begin.pos)))
  {
  }

  lemma ChunkIsOfTheFile(o: Observation, pos: nat)
    requires o.File? && pos <= |o.content|
    ensures var chunk := Chunk(o, pos); pos + |chunk| <= |o.content| && chunk == o.content[pos..pos + |chunk|]
  {
  }

  lemma FlatAppend(chunks: seq<seq<Byte>>, c: seq<Byte>)
    ensures Flat(chunks + [c]) == Flat(chunks) + c
    ensures FeedAll(chunks + [c]) == Split(FeedAll(chunks).lines + Feed(FeedAll(chunks).carry, c).lines,
                                           Feed(FeedAll(chunks).carry, c).carry)
  {
    assert (chunks + [c])[..|chunks|] == chunks;
  }

  lemma FirstChunk(c: seq<Byte>)
    ensures Flat([c]) == c && FeedAll([c]) == Feed([], c)
  {
    FlatAppend([], c);
    assert [] + [c] == [c];
  }

  ghost predicate EndsWith(chunk: seq<Byte>, kept: seq<Byte>) {
    |kept| <= |chunk| && kept == chunk[|chunk| - |kept|..]
  }

  lemma KeptIsASuffix(skipPartial: bool, chunk: seq<Byte>)
    ensures EndsWith(chunk, Kept(skipPartial, chunk))
  {
  }

  lemma KeptEndsThePrefix(content: seq<Byte>, pos: nat, chunk: seq<Byte>, kept: seq<Byte>)
    requires pos + |chunk| <= |content| && chunk == content[pos..pos + |chunk|]
    requires EndsWith(chunk, kept)
    ensures content[..pos + |chunk|][pos + |chunk| - |kept|..] == kept
  {
    var end := pos + |chunk|;
    forall i | 0 <= i < |kept| ensures content[..end][end - |kept|..][i] == kept[i] {
      assert kept[i] == chunk[|chunk| - |kept| + i];
    }
  }

  lemma PrefixGrows(content: seq<Byte>, pos: nat, end: nat, base: nat)
    requires base <= pos <= end <= |content|
    ensures content[..end][base..] == content[..pos][base..] + content[pos..end]
  {
  }

  /** A chunk read where the last one ended. */
  lemma ContinueKeepsInv(w: Watch, id: int, content: seq<Byte>, begin: Begin, chunk: seq<Byte>)
    requires Inv(w) && Sound(w, content, begin, chunk) && !begin.restart
    requires w.state.cursor == Some(Cursor(id, begin.pos))
    ensures Inv(WatchFile(w, id, content, begin, chunk))
  {
    if chunk != [] {
      FlatAppend(w.chunks, chunk);
      PrefixGrows(content, begin.pos, begin.pos + |chunk|, w.base);
    } else {
      assert w.seen == content[..begin.pos];
    }
  }

  /** The stretch that begins with the first chunk after forgetting everything. */
  function Begun(id: int, content: seq<Byte>, end: nat, kept: seq<Byte>): Watch
    requires |kept| <= end <= |content|
  {
    var split := Feed([], kept);
    Watch(State(Some(Cursor(id, end)), split.carry), content[..end], end - |kept|, [kept], split.lines)
  }

  lemma FirstChunkBegins(w: Watch, id: int, content: seq<Byte>, begin: Begin, chunk: seq<Byte>)
    requires Sound(w, content, begin, chunk) && begin.restart && chunk != []
    ensures WatchFile(w, id, content, begin, chunk)
            == Begun(id, content, begin.pos + |chunk|, Kept(begin.skipPartial, chunk))
  {
  }

  lemma BegunKeepsInv(id: int, content: seq<Byte>, end: nat, kept: seq<Byte>)
    requires |kept| <= end <= |content| && content[..end][end - |kept|..] == kept
    ensures Inv(Begun(id, content, end, kept))
  {
    FirstChunk(kept);
  }

  lemma BegunFromAChunk(id: int, content: seq<Byte>, pos: nat, chunk: seq<Byte>, kept: seq<Byte>)
    requires pos + |chunk| <= |content| && chunk == content[pos..pos + |chunk|] && EndsWith(chunk, kept)
    ensures Inv(Begun(id, content, pos + |chunk|, kept))
  {
    KeptEndsThePrefix(content, pos, chunk, kept);
    BegunKeepsInv(id, content, pos + |chunk|, kept);
  }

  /** The first chunk after forgetting everything. */
  lemma FirstChunkKeepsInv(w: Watch, id: int, content: seq<Byte>, begin: Begin, chunk: seq<Byte>)
    requires Sound(w, content, begin, chunk) && begin.restart && chunk != []
    ensures Inv(WatchFile(w, id, content, begin, chunk))
  {
    KeptIsASuffix(begin.skipPartial, chunk);
    BegunFromAChunk(id, content, begin.pos, chunk, Kept(begin.skipPartial, chunk));
    FirstChunkBegins(w, id, content, begin, chunk);
  }

  /** Forgetting everything, and then reading nothing. */
  lemma EmptyRestartKeepsInv(w: Watch, id: int, content: seq<Byte>, begin: Begin)
    requires Inv(w) && Sound(w, content, begin, []) && begin.restart
    ensures Inv(WatchFile(w, id, content, begin, []))
  {
    var v := WatchFile(w, id, content, begin, []);
    assert v.seen[|v.seen|..] == [];
  }

  lemma ObserveKeepsInv(w: Watch, o: Observation)
    requires Inv(w) && Faithful(w, o)
    ensures Inv(Observe(w, o))
  {
    match o
    case Absent =>
    case File(id, content, _) =>
      var begin := BeginAt(w.state.cursor, id, |content|);
      var chunk := Chunk(o, begin.pos);
      TickIsSound(w, o);
      if !begin.restart {
        ContinueKeepsInv(w, id, content, begin, chunk);
      } else if chunk == [] {
        EmptyRestartKeepsInv(w, id, content, begin);
      } else {
        FirstChunkKeepsInv(w, id, content, begin, chunk);
      }
  }

  lemma {:induction false} RunKeepsInv(os: seq<Observation>)
    requires FaithfulRun(IDLE, os)
    ensures Inv(ObserveAll(IDLE, os))
  {
    if os != [] {
      RunKeepsInv(os[..|os| - 1]);
      ObserveKeepsInv(ObserveAll(IDLE, os[..|os| - 1]), os[|os| - 1]);
    }
  }

  /**
   * After any run of ticks, the lines shown are the complete lines of the bytes
   * read since the stretch began, and the splitter holds the unfinished rest --
   * exactly when no tick left more than `MAX_CARRY` bytes of one line pending.
   */
  lemma ShownLinesAreTheFilesLines(os: seq<Observation>)
    requires FaithfulRun(IDLE, os)
    ensures var w := ObserveAll(IDLE, os);
            && w.base <= |w.seen|
            && Flat(w.chunks) == w.seen[w.base..]
            && (w.shown == CompleteLines(w.seen[w.base..]) && w.state.carry == Unfinished(w.seen[w.base..])
                <==> WithinCarry(w.chunks))
  {
    RunKeepsInv(os);
    ChunkingIsInvisible(ObserveAll(IDLE, os).chunks);
  }

  /** Two schedules that have read the same stretch of a file have shown the same lines. */
  lemma ScheduleIsInvisible(os: seq<Observation>, other: seq<Observation>)
    requires FaithfulRun(IDLE, os) && FaithfulRun(IDLE, other)
    requires var v, w := ObserveAll(IDLE, os), ObserveAll(IDLE, other);
             v.seen == w.seen && v.base == w.base && WithinCarry(v.chunks) && WithinCarry(w.chunks)
    ensures var v, w := ObserveAll(IDLE, os), ObserveAll(IDLE, other);
            v.shown == w.shown && v.state.carry == w.state.carry
  {
    ShownLinesAreTheFilesLines(os);
    ShownLinesAreTheFilesLines(other);
  }

  ghost predicate Restarts(w: Watch, o: Observation) {
    o.Absent? || BeginAt(w.state.cursor, o.id, |o.content|).restart
  }

  /** The tail stands in the file it looked at, not past its end -- unless it had to start over and read nothing. */
  lemma CursorStaysInTheFile(w: Watch, o: Observation)
    requires o.File?
    ensures var c, begin := Tick(w.state, o).state.cursor, BeginAt(w.state.cursor, o.id, |o.content|);
            (c.Some? && c.value.id == o.id && c.value.pos <= |o.content|)
            <==> !(begin.restart && begin.pos < |o.content| && Chunk(o, begin.pos) == [])
  {
  }

  /** The present stretch begins with a whole line. */
  ghost predicate AtLineStart(w: Watch) {
    w.base == 0 || (w.base <= |w.seen| && w.seen[w.base - 1] == NEWLINE)
  }

  /** A cold start inside a line read no newline, so nothing marks the fragment that follows as one. */
  ghost predicate LosesTheSkip(w: Watch, o: Observation) {
    o.File? &&
    var begin := BeginAt(w.state.cursor, o.id, |o.content|);
    begin.skipPartial && Chunk(o, begin.pos) != [] && NEWLINE !in Chunk(o, begin.pos)
  }

  /** Starting over, the tail dropped the carry, read nothing, and so kept its old place. */
  ghost predicate DropsMidLine(w: Watch, o: Observation) {
    o.File? &&
    var begin := BeginAt(w.state.cursor, o.id, |o.content|);
    begin.restart && begin.pos < |o.content| && Chunk(o, begin.pos) == [] &&
    w.seen != [] && w.seen[|w.seen| - 1] != NEWLINE
  }

  /** After a skip, the byte before the stretch is the newline found -- or there was none. */
  lemma SkipEndsAtANewline(content: seq<Byte>, pos: nat, end: nat)
    requires pos < end <= |content|
    ensures var chunk := content[pos..end];
            var from := end - |Kept(true, chunk)|;
            && pos < from <= end
            && (content[from - 1] == NEWLINE <==> NEWLINE in chunk)
  {
    var chunk := content[pos..end];
    match Position(chunk, NEWLINE)
    case None => assert content[end - 1] == chunk[end - 1 - pos];
    case Some(i) => assert |Kept(true, chunk)| == |chunk| - (i + 1) && content[pos + i] == chunk[i];
  }

  /** When lines begin where lines begin: exactly unless one of those two happened. */
  lemma StretchBeginsAtALine(w: Watch, o: Observation)
    requires Inv(w) && Faithful(w, o)
    ensures AtLineStart(Observe(w, o)) <==>
            if Restarts(w, o) then !LosesTheSkip(w, o) && !DropsMidLine(w, o) else AtLineStart(w)
  {
    if o.File? {
      var begin := BeginAt(w.state.cursor, o.id, |o.content|);
      var chunk := Chunk(o, begin.pos);
      TickIsSound(w, o);
      if begin.restart {
        RestartBeginsAtALine(w, o.id, o.content, begin, chunk);
      } else {
        ContinueBeginsAtALine(w, o.id, o.content, begin, chunk);
      }
    }
  }

  lemma RestartBeginsAtALine(w: Watch, id: int, content: seq<Byte>, begin: Begin, chunk: seq<Byte>)
    requires Inv(w) && Sound(w, content, begin, chunk) && begin.restart
    ensures AtLineStart(WatchFile(w, id, content, begin, chunk)) <==>
            if chunk != [] then begin.skipPartial ==> NEWLINE in chunk
            else begin.pos == |content| || w.seen == [] || w.seen[|w.seen| - 1] == NEWLINE
  {
    var v := WatchFile(w, id, content, begin, chunk);
    if chunk == [] {
      assert v.base == |v.seen| && v.seen == if begin.pos < |content| then w.seen else content[..begin.pos];
    } else if begin.skipPartial {
      FirstChunkBeginsAtALine(w, id, content, begin, chunk);
    } else {
      assert v.base == 0;
    }
  }

  lemma FirstChunkBeginsAtALine(w: Watch, id: int, content: seq<Byte>, begin: Begin, chunk: seq<Byte>)
    requires Sound(w, content, begin, chunk) && begin.restart && chunk != [] && begin.skipPartial
    ensures AtLineStart(WatchFile(w, id, content, begin, chunk)) <==> NEWLINE in chunk
  {
    var end := begin.pos + |chunk|;
    var v := Begun(id, content, end, Kept(true, chunk));
    FirstChunkBegins(w, id, content, begin, chunk);
    SkipEndsAtANewline(content, begin.pos, end);
    assert v.seen[v.base - 1] == content[v.base - 1];
  }

  lemma ContinueBeginsAtALine(w: Watch, id: int, content: seq<Byte>, begin: Begin, chunk: seq<Byte>)
    requires Inv(w) && Sound(w, content, begin, chunk) && !begin.restart
    requires w.state.cursor == Some(Cursor(id, begin.pos))
    ensures AtLineStart(WatchFile(w, id, content, begin, chunk)) <==> AtLineStart(w)
  {
    if w.base > 0 {
      assert content[..begin.pos][w.base - 1] == w.seen[w.base - 1];
    }
  }

  /** The tick that began the present stretch began it at a line. */
  ghost predicate BeganAtALine(os: seq<Observation>) {
    os != [] ==>
      var w, o := ObserveAll(IDLE, os[..|os| - 1]), os[|os| - 1];
      if Restarts(w, o) then !LosesTheSkip(w, o) && !DropsMidLine(w, o) else BeganAtALine(os[..|os| - 1])
  }

  /** After any run of ticks the stretch begins at a line exactly when its first tick was neither of those two. */
  lemma {:induction false} RunBeginsAtALine(os: seq<Observation>)
    requires FaithfulRun(IDLE, os)
    ensures AtLineStart(ObserveAll(IDLE, os)) <==> BeganAtALine(os)
    decreases |os|
  {
    if os != [] {
      var before := os[..|os| - 1];
      RunBeginsAtALine(before);
      RunKeepsInv(before);
      StretchBeginsAtALine(ObserveAll(IDLE, before), os[|os| - 1]);
    }
  }

  /** ... in particular when no tick at all loses the skip or drops a line in the middle. */
  lemma {:induction false} UndisturbedRunBeginsAtALine(os: seq<Observation>)
    requires forall i | 0 <= i < |os| ::
               !LosesTheSkip(ObserveAll(IDLE, os[..i]), os[i]) && !DropsMidLine(ObserveAll(IDLE, os[..i]), os[i])
    ensures BeganAtALine(os)
    decreases |os|
  {
    if os != [] {
      var n := |os| - 1;
      var before := os[..n];
      forall i | 0 <= i < |before|
        ensures !LosesTheSkip(ObserveAll(IDLE, before[..i]), before[i])
             && !DropsMidLine(ObserveAll(IDLE, before[..i]), before[i])
      {
        assert before[..i] == os[..i];
      }
      UndisturbedRunBeginsAtALine(before);
    }
  }

  lemma {:induction false} NothingPending(b: seq<Byte>)
    requires b != []
    ensures Unfinished(b) == [] <==> b[|b| - 1] == NEWLINE
    decreases |b|
  {
    match Position(b, NEWLINE)
    case None => assert b[|b| - 1] in b;
    case Some(i) =>
      if i + 1 < |b| {
        NothingPending(b[i + 1..]);
      }
  }

  /** The lines and the rest of a text, from a place in it on. */
  ghost predicate EndsTheText(text: seq<Byte>, from: nat, lines: seq<seq<Byte>>, rest: seq<Byte>)
    requires from <= |text|
  {
    CompleteLines(text) == CompleteLines(text[..from]) + lines && Unfinished(text) == rest
  }

  /** Splitting from a place on gives the text's own last lines exactly when a line begins there. */
  lemma SplitFromALine(text: seq<Byte>, from: nat)
    requires from <= |text|
    ensures EndsTheText(text, from, CompleteLines(text[from..]), Unfinished(text[from..]))
            <==> from == 0 || text[from - 1] == NEWLINE
  {
    var a, c := text[..from], text[from..];
    assert text == a + c;
    SplitResumes(a, c);
    if from > 0 {
      NothingPending(a);
      assert a[from - 1] == text[from - 1];
    }
    ResumesAsIs(a, c);
  }

  /** Splitting goes on as if from the start exactly when nothing is pending. */
  lemma ResumesAsIs(a: seq<Byte>, c: seq<Byte>)
    ensures CompleteLines(a) + CompleteLines(Unfinished(a) + c) == CompleteLines(a) + CompleteLines(c)
            && Unfinished(Unfinished(a) + c) == Unfinished(c)
            <==> Unfinished(a) == []
  {
    if Unfinished(a) == [] {
      assert [] + c == c;
    } else {
      LinesHoldNoNewline(a);
      PendingShows(Unfinished(a), c, CompleteLines(a));
    }
  }

  /** Bytes pending before a text change its first line, or its rest. */
  lemma PendingShows(pending: seq<Byte>, c: seq<Byte>, before: seq<seq<Byte>>)
    requires pending != [] && NEWLINE !in pending
    ensures before + CompleteLines(pending + c) != before + CompleteLines(c) || Unfinished(pending + c) != Unfinished(c)
  {
    PositionAfter(pending, c, NEWLINE);
    match Position(c, NEWLINE)
    case None =>
    case Some(i) =>
      var lines, longer := before + CompleteLines(c), before + CompleteLines(pending + c);
      assert CompleteLines(pending + c)[0] == (pending + c)[..|pending| + i];
      assert longer[|before|] == (pending + c)[..|pending| + i] && lines[|before|] == c[..i];
      assert |longer[|before|]| != |lines[|before|]|;
  }

  lemma TooManyLines(text: seq<Byte>, from: nat, lines: seq<seq<Byte>>)
    requires from <= |text| && |lines| > |CompleteLines(text[from..])|
    ensures CompleteLines(text) != CompleteLines(text[..from]) + lines
  {
    assert text == text[..from] + text[from..];
    OneLinePerNewline(text);
    OneLinePerNewline(text[..from]);
    OneLinePerNewline(text[from..]);
  }

  /** Chunks fed from a place on give the text's own last lines exactly when a line begins there and none overran. */
  lemma FeedingEndsTheText(text: seq<Byte>, from: nat, chunks: seq<seq<Byte>>)
    requires from <= |text| && Flat(chunks) == text[from..]
    ensures EndsTheText(text, from, FeedAll(chunks).lines, FeedAll(chunks).carry)
            <==> (from == 0 || text[from - 1] == NEWLINE) && WithinCarry(chunks)
  {
    FeedingAgreesOrOverruns(chunks);
    if WithinCarry(chunks) {
      SplitFromALine(text, from);
    } else {
      TooManyLines(text, from, FeedAll(chunks).lines);
    }
  }

  lemma StretchEndsTheFile(w: Watch)
    requires Inv(w)
    ensures EndsTheText(w.seen, w.base, w.shown, w.state.carry) <==> AtLineStart(w) && WithinCarry(w.chunks)
  {
    FeedingEndsTheText(w.seen, w.base, w.chunks);
  }

  /**
   * After any run of ticks, the lines shown in the present stretch are the last
   * lines of the bytes consumed and the splitter holds their unfinished rest --
   * exactly when the stretch began at a line and no line overran `MAX_CARRY`.
   */
  lemma ShownLinesEndTheFile(os: seq<Observation>)
    requires FaithfulRun(IDLE, os)
    ensures var w := ObserveAll(IDLE, os);
            && w.base <= |w.seen|
            && (EndsTheText(w.seen, w.base, w.shown, w.state.carry) <==> BeganAtALine(os) && WithinCarry(w.chunks))
  {
    var w := ObserveAll(IDLE, os);
    RunKeepsInv(os);
    RunBeginsAtALine(os);
    StretchEndsTheFile(w);
  }

  /** Rotation, shrinkage and disappearance all begin again with nothing carried over. */
  lemma RestartForgets(w: Watch, o: Observation)
    requires Inv(w) && Faithful(w, o) && Restarts(w, o)
    ensures var v := Observe(w, o);
            && (o.Absent? ==> v.state == State(None, []))
            && (o.File? && Chunk(o, BeginAt(w.state.cursor, o.id, |o.content|).pos) == [] ==> v.state.carry == [])
            && |v.chunks| <= 1 && Inv(v)
  {
    ObserveKeepsInv(w, o);
  }

  /** `n` successful reads of the same file. */
  function Follow(w: Watch, id: int, content: seq<Byte>, n: nat): Watch {
    if n == 0 then w else Observe(Follow(w, id, content, n - 1), File(id, content, Got(MAX_CHUNK)))
  }

  ghost predicate StandsAt(w: Watch, id: int, pos: nat) {
    w.state.cursor == Some(Cursor(id, pos))
  }

  lemma TickAdvances(w: Watch, id: int, content: seq<Byte>, pos: nat)
    requires StandsAt(w, id, pos) && pos <= |content|
    ensures StandsAt(Observe(w, File(id, content, Got(MAX_CHUNK))), id, Min(|content|, pos + MAX_CHUNK))
  {
  }

  /** Where `n` reads of at most `MAX_CHUNK` bytes from `pos` get to. */
  function Reached(len: nat, pos: nat, n: nat): (r: nat)
    ensures r <= len
  {
    Min(len, pos + n * MAX_CHUNK)
  }

  lemma OneMoreRead(len: nat, pos: nat, n: nat)
    requires n > 0
    ensures Min(len, Reached(len, pos, n - 1) + MAX_CHUNK) == Reached(len, pos, n)
  {
  }

  lemma FollowAdvances(w: Watch, id: int, content: seq<Byte>, pos: nat, n: nat)
    requires n > 0 && StandsAt(w, id, Reached(|content|, pos, n - 1))
    ensures StandsAt(Observe(w, File(id, content, Got(MAX_CHUNK))), id, Reached(|content|, pos, n))
  {
    TickAdvances(w, id, content, Reached(|content|, pos, n - 1));
    OneMoreRead(|content|, pos, n);
  }

  /** While reads succeed, a tail reaches the end of a file it is following, `MAX_CHUNK` a tick. */
  lemma {:induction false} CatchesUp(w: Watch, id: int, content: seq<Byte>, pos: nat, n: nat)
    requires StandsAt(w, id, pos) && pos <= |content|
    ensures StandsAt(Follow(w, id, content, n), id, Reached(|content|, pos, n))
    decreases n
  {
    if n > 0 {
      CatchesUp(w, id, content, pos, n - 1);
      FollowAdvances(Follow(w, id, content, n - 1), id, content, pos, n);
    }
  }

  /* ------------------------------------------------------ the two disturbances */

  lemma OneObservation(o: Observation)
    ensures ObserveAll(IDLE, [o]) == Observe(IDLE, o)
    ensures FaithfulRun(IDLE, [o])
  {
    assert [o][..0] == [];
  }

  lemma OneMoreObservation(os: seq<Observation>, o: Observation)
    ensures ObserveAll(IDLE, os + [o]) == Observe(ObserveAll(IDLE, os), o)
    ensures FaithfulRun(IDLE, os + [o]) <==> FaithfulRun(IDLE, os) && Faithful(ObserveAll(IDLE, os), o)
  {
    assert (os + [o])[..|os|] == os;
  }

  /** A line and its newline, fed with nothing pending. */
  lemma FeedOneLine(line: seq<Byte>)
    requires NEWLINE !in line
    ensures Feed([], line + [NEWLINE]) == Split([line], [])
    ensures CompleteLines(line + [NEWLINE]) == [line]
  {
    assert [NEWLINE] + [] == [NEWLINE] && [] + (line + [NEWLINE]) == line + [NEWLINE];
    FirstLine(line, []);
  }

  /** What the tail knows after a cold start in a long unfinished line: where it stands, and nothing else. */
  lemma SkippedColdStart(first: seq<Byte>)
    requires |first| > COLD_START_BYTES && NEWLINE !in first
    ensures ObserveAll(IDLE, [File(0, first, Got(MAX_CHUNK))])
            == Watch(State(Some(Cursor(0, |first|)), []), first, |first|, [[]], [])
  {
    var o := File(0, first, Got(MAX_CHUNK));
    OneObservation(o);
    var begin := BeginAt(None, 0, |first|);
    var chunk := Chunk(o, begin.pos);
    assert begin == Begin(|first| - COLD_START_BYTES, true, true, []);
    assert chunk == first[begin.pos..];
    forall i | 0 <= i < |chunk| ensures chunk[i] != NEWLINE {
      assert chunk[i] == first[begin.pos + i];
    }
    assert Position(chunk, NEWLINE) == None;
    FirstChunkBegins(IDLE, 0, first, begin, chunk);
    FeedNothing();
    assert first[..|first|] == first;
  }

  /** The rest of a line, read where the tail stands with nothing pending. */
  lemma ReadsOn(w: Watch, content: seq<Byte>, more: seq<Byte>)
    requires StandsAt(w, 0, |w.seen|) && w.state.carry == [] && w.shown == []
    requires content == w.seen + (more + [NEWLINE]) && NEWLINE !in more && |more| < MAX_CHUNK
    ensures Observe(w, File(0, content, Got(MAX_CHUNK))).shown == [more]
  {
    var o, pos := File(0, content, Got(MAX_CHUNK)), |w.seen|;
    assert BeginAt(w.state.cursor, 0, |content|) == Begin(pos, false, false, []);
    assert Chunk(o, pos) == more + [NEWLINE];
    FeedOneLine(more);
    assert Kept(false, more + [NEWLINE]) == more + [NEWLINE];
    assert [] + [more] == [more];
  }

  /**
   * A log first seen in the middle of a line longer than the cold-start window:
   * when the line is finished, what was added to it is shown as a line.
   */
  lemma ColdStartMayShowAFragment(first: seq<Byte>, more: seq<Byte>)
    requires |first| > COLD_START_BYTES && |more| < MAX_CHUNK && NEWLINE !in first && NEWLINE !in more
    ensures var second := first + (more + [NEWLINE]);
            var os := [File(0, first, Got(MAX_CHUNK))] + [File(0, second, Got(MAX_CHUNK))];
            FaithfulRun(IDLE, os) && ObserveAll(IDLE, os).shown == [more] && CompleteLines(second) == [first + more]
  {
    var second := first + (more + [NEWLINE]);
    var a, b := File(0, first, Got(MAX_CHUNK)), File(0, second, Got(MAX_CHUNK));
    OneObservation(a);
    SkippedColdStart(first);
    OneMoreObservation([a], b);
    var w := ObserveAll(IDLE, [a]);
    assert second[..|first|] == first;
    ReadsOn(w, second, more);
    AppendIsAssociative(first, more, [NEWLINE]);
    FeedOneLine(first + more);
  }

  /** What the tail holds of a short unfinished line seen from its beginning. */
  lemma HeldLine(line: seq<Byte>)
    requires 0 < |line| <= COLD_START_BYTES && NEWLINE !in line
    ensures ObserveAll(IDLE, [File(0, line, Got(MAX_CHUNK))])
            == Watch(State(Some(Cursor(0, |line|)), line), line, 0, [line], [])
  {
    var o := File(0, line, Got(MAX_CHUNK));
    OneObservation(o);
    var begin := BeginAt(None, 0, |line|);
    assert begin == Begin(0, false, true, []);
    assert Chunk(o, 0) == line;
    FirstChunkBegins(IDLE, 0, line, begin, line);
    assert [] + line == line && line[..|line|] == line;
    assert Feed([], line) == Split([], line);
  }

  /** Another file in its place, which cannot be read: the carry goes and the place stays. */
  lemma UnreadRotation(w: Watch, other: seq<Byte>)
    requires StandsAt(w, 0, |w.seen|) && other != []
    ensures Observe(w, File(1, other, Failed)) == Watch(State(w.state.cursor, []), w.seen, |w.seen|, [], [])
  {
  }

  /** A log rotated to a file that cannot be read, and then back, in the middle of a line: its end is shown as a line. */
  lemma RotationMayShowAFragment(line: seq<Byte>, other: seq<Byte>, more: seq<Byte>)
    requires 0 < |line| <= COLD_START_BYTES && |more| < MAX_CHUNK && other != []
    requires NEWLINE !in line && NEWLINE !in more
    ensures var back := line + (more + [NEWLINE]);
            var os := ([File(0, line, Got(MAX_CHUNK))] + [File(1, other, Failed)]) + [File(0, back, Got(MAX_CHUNK))];
            FaithfulRun(IDLE, os) && ObserveAll(IDLE, os).shown == [more] && CompleteLines(back) == [line + more]
  {
    var back := line + (more + [NEWLINE]);
    var a, b, c := File(0, line, Got(MAX_CHUNK)), File(1, other, Failed), File(0, back, Got(MAX_CHUNK));
    OneObservation(a);
    HeldLine(line);
    OneMoreObservation([a], b);
    UnreadRotation(ObserveAll(IDLE, [a]), other);
    OneMoreObservation([a] + [b], c);
    assert back[..|line|] == line;
    ReadsOn(ObserveAll(IDLE, [a] + [b]), back, more);
    AppendIsAssociative(line, more, [NEWLINE]);
    FeedOneLine(line + more);
  }
}
