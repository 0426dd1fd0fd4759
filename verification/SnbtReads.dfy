/**
 * The parser reads every document back (console/snbt.rs): whatever is written in
 * the grammar is parsed to what it means, or refused exactly for its depth.
 */
module SnbtReads {
  import opened Wrappers
  import opened Bytes
  import opened Sequences
  import opened Snbt
  import opened SnbtScalars
  import opened SnbtGrammar

  /** `p` is the value `v` with `k` left over, or the refusal of a value nested too deep. */
  ghost predicate Reads<T(!new)>(p: Parsed<T>, v: T, k: Text, fits: bool) {
    if fits then p == Got(v, k) else p.Bad? && p.problem == TooDeep
  }

  /** A text whose first byte is neither whitespace nor a closing byte. */
  ghost predicate Starts(s: Text) {
    s != [] && !IsSpace(s[0]) && s[0] != CLOSE_BRACE && s[0] != CLOSE_BRACKET
  }

  lemma {:induction false} SpaceIsSkipped(space: Text, k: Text)
    requires AllSpace(space) && (k != [] ==> !IsSpace(k[0]))
    ensures SkipSpace(space + k) == k
    decreases |space|
  {
    if space == [] {
      assert space + k == k;
    } else {
      assert (space + k)[1..] == space[1..] + k;
      SpaceIsSkipped(space[1..], k);
    }
  }

  lemma {:induction false} TokenIsRead(token: Text, k: Text)
    requires (forall i | 0 <= i < |token| :: IsTokenByte(token[i])) && Stops(k)
    ensures TokenLength(token + k) == |token|
    ensures (token + k)[..|token|] == token && (token + k)[|token|..] == k
    decreases |token|
  {
    if token == [] {
      assert token + k == k;
    } else {
      assert (token + k)[1..] == token[1..] + k;
      TokenIsRead(token[1..], k);
    }
  }

  lemma PieceIsRead(p: Piece, quote: Byte, out: Text, k: Text)
    requires PieceFits(p, quote) && IsQuote(quote)
    ensures ParseChars(Written(p) + k, quote, out) == ParseChars(k, quote, out + PieceMeaning(p))
  {
    var s := Written(p) + k;
    match p
    case Plain(bytes) =>
      assert s[0] == bytes[0];
      assert s[..|bytes|] == bytes && s[|bytes|..] == k;
    case Escaped(b) =>
      assert s[0] == BACKSLASH && s[1] == b && s[2..] == k;
  }

  lemma {:induction false} PiecesAreRead(pieces: seq<Piece>, quote: Byte, out: Text, k: Text)
    requires PiecesFit(pieces, quote)
    ensures ParseChars(PrintPieces(pieces, [quote] + k), quote, out) == Got(out + TextMeaning(pieces), k)
    decreases |pieces|
  {
    if pieces == [] {
      assert ([quote] + k)[1..] == k;
      assert out + [] == out;
    } else {
      PieceIsRead(pieces[0], quote, out, PrintPieces(pieces[1..], [quote] + k));
      PiecesAreRead(pieces[1..], quote, out + PieceMeaning(pieces[0]), k);
      AppendIsAssociative(out, PieceMeaning(pieces[0]), TextMeaning(pieces[1..]));
    }
  }

  lemma QuotedIsRead(quote: Byte, pieces: seq<Piece>, k: Text)
    requires PiecesFit(pieces, quote)
    ensures var s := PrintQuoted(quote, pieces, k);
            s != [] && s[0] == quote && ParseChars(s[1..], quote, []) == Got(TextMeaning(pieces), k)
  {
    PiecesAreRead(pieces, quote, [], k);
    assert PrintQuoted(quote, pieces, k)[1..] == PrintPieces(pieces, [quote] + k);
    assert [] + TextMeaning(pieces) == TextMeaning(pieces);
  }

  lemma KeyIsRead(key: Key, k: Text)
    requires KeyFits(key) && Stops(k)
    ensures ParseKey(PrintKey(key, k)) == Got(KeyMeaning(key), k)
    ensures Starts(PrintKey(key, k))
  {
    match key
    case BareKey(token) =>
      TokenIsRead(token, k);
      assert (token + k)[0] == token[0] && IsTokenByte(token[0]);
    case QuotedKey(quote, pieces) => QuotedIsRead(quote, pieces, k);
  }

  lemma DocStarts(doc: Doc, k: Text)
    requires WellFormed(doc)
    ensures Starts(Print(doc, k))
  {
    match doc
    case Bare(token) => assert (token + k)[0] == token[0] && IsTokenByte(token[0]);
    case Quoted(quote, pieces) =>
    case Compound(members) =>
    case List(kind, elements) =>
  }

  lemma SpaceStops(space: Text, k: Text)
    requires AllSpace(space) && Stops(k)
    ensures Stops(space + k)
  {
  }

  lemma ClosingStops(after: Text, b: Byte, k: Text)
    requires AllSpace(after) && !IsTokenByte(b)
    ensures Stops(after + ([b] + k))
  {
    SpaceStops(after, [b] + k);
  }

  lemma CloseIsRead(after: Text, close: Byte, problem: Problem, k: Text)
    requires AllSpace(after) && !IsSpace(close) && close != COMMA
    ensures Separator(after + ([close] + k), close, problem) == Got((), [close] + k)
  {
    SpaceIsSkipped(after, [close] + k);
  }

  lemma CommaIsRead(after: Text, close: Byte, problem: Problem, k: Text)
    requires AllSpace(after)
    ensures Separator(after + ([COMMA] + k), close, problem) == Got((), k)
  {
    SpaceIsSkipped(after, [COMMA] + k);
    assert ([COMMA] + k)[1..] == k;
  }

  lemma TokenIsParsed(token: Text, k: Text, depth: nat)
    requires IsToken(token) && Stops(k)
    ensures Reads(ParseValue(token + k, depth), ParseScalar(token), k, depth <= MAX_DEPTH)
  {
    TokenIsRead(token, k);
    assert (token + k)[0] == token[0] && IsTokenByte(token[0]);
  }

  lemma BareIsRead(token: Text, k: Text, depth: nat)
    requires IsToken(token) && Stops(k)
    ensures Reads(ParseValue(token + k, depth), TokenMeaning(token), k, depth <= MAX_DEPTH)
  {
    TokenIsParsed(token, k, depth);
    ReadAsMeant(token);
  }

  lemma {:induction false} QuotedValueIsRead(quote: Byte, pieces: seq<Piece>, k: Text, depth: nat)
    requires PiecesFit(pieces, quote)
    ensures Reads(ParseValue(PrintQuoted(quote, pieces, k), depth), StringValue(TextMeaning(pieces)), k, depth <= MAX_DEPTH)
  {
    QuotedIsRead(quote, pieces, k);
  }

  /** A written document is read back whole, and is refused exactly when it reaches below `MAX_DEPTH`. */
  lemma {:induction false} DocumentIsRead(doc: Doc, k: Text, depth: nat)
    requires WellFormed(doc) && Stops(k)
    ensures Reads(ParseValue(Print(doc, k), depth), Meaning(doc), k, depth + Height(doc) <= MAX_DEPTH)
    decreases doc
  {
    match doc
    case Bare(token) => BareIsRead(token, k, depth);
    case Quoted(quote, pieces) => QuotedValueIsRead(quote, pieces, k, depth);
    case Compound(members) =>
      if depth <= MAX_DEPTH {
        MembersAreRead(members, k, depth, map[]);
        assert Print(doc, k)[1..] == PrintMembers(members, k);
      }
    case List(kind, elements) =>
      if depth <= MAX_DEPTH {
        ListIsRead(kind, elements, k, depth);
        assert Print(doc, k)[1..] == PrintKind(kind, PrintElements(elements, k));
      }
  }

  lemma {:induction false} MemberIsRead(m: Member, k: Text, depth: nat)
    requires MemberFits(m) && Stops(k)
    ensures Starts(PrintMember(m, k))
    ensures Reads(ParseMember(PrintMember(m, k), depth), (KeyMeaning(m.key), Meaning(m.value)), k,
                  depth + 1 + Height(m.value) <= MAX_DEPTH)
    decreases m
  {
    var value := Print(m.value, k);
    var afterColon := m.afterColon + value;
    ClosingStops(m.beforeColon, COLON, afterColon);
    KeyIsRead(m.key, m.beforeColon + ([COLON] + afterColon));
    SpaceIsSkipped(m.beforeColon, [COLON] + afterColon);
    assert ([COLON] + afterColon)[1..] == afterColon;
    DocStarts(m.value, k);
    SpaceIsSkipped(m.afterColon, value);
    DocumentIsRead(m.value, k, depth + 1);
  }

  lemma {:induction false} MembersAreRead(ms: Members, k: Text, depth: nat, fields: map<Text, Value>)
    requires MembersFit(ms) && depth <= MAX_DEPTH
    ensures Reads(ParseMembers(PrintMembers(ms, k), depth, fields), CompoundValue(Fields(ms, fields)), k,
                  depth + MembersHeight(ms) <= MAX_DEPTH)
    decreases ms
  {
    match ms
    case NoMembers(space) => MembersEnd(space, k, depth, fields);
    case LastMember(space, m, after) =>
      var rest := after + ([CLOSE_BRACE] + k);
      ClosingStops(after, CLOSE_BRACE, k);
      MemberIsRead(m, rest, depth);
      SpaceIsSkipped(space, PrintMember(m, rest));
      CloseIsRead(after, CLOSE_BRACE, ExpectedCommaOrBrace, k);
      assert [] + ([CLOSE_BRACE] + k) == [CLOSE_BRACE] + k;
      MembersEnd([], k, depth, fields[KeyMeaning(m.key) := Meaning(m.value)]);
    case MoreMembers(space, m, after, more) =>
      var next := PrintMembers(more, k);
      var rest := after + ([COMMA] + next);
      ClosingStops(after, COMMA, next);
      MemberIsRead(m, rest, depth);
      SpaceIsSkipped(space, PrintMember(m, rest));
      CommaIsRead(after, CLOSE_BRACE, ExpectedCommaOrBrace, next);
      MembersAreRead(more, k, depth, fields[KeyMeaning(m.key) := Meaning(m.value)]);
  }

  lemma MembersEnd(space: Text, k: Text, depth: nat, fields: map<Text, Value>)
    requires AllSpace(space)
    ensures ParseMembers(space + ([CLOSE_BRACE] + k), depth, fields) == Got(CompoundValue(fields), k)
  {
    SpaceIsSkipped(space, [CLOSE_BRACE] + k);
    assert ([CLOSE_BRACE] + k)[1..] == k;
  }

  lemma {:induction false} ElementsAreRead(es: Elements, k: Text, depth: nat, items: seq<Value>)
    requires ElementsFit(es) && depth <= MAX_DEPTH
    ensures Reads(ParseElements(PrintElements(es, k), depth, items), items + Items(es), k,
                  depth + ElementsHeight(es) <= MAX_DEPTH)
    decreases es, 0
  {
    match es
    case NoElements(space) =>
      ElementsEnd(space, k, depth, items);
      assert items + [] == items;
    case LastElement(space, item, after) =>
      var rest := after + ([CLOSE_BRACKET] + k);
      ClosingStops(after, CLOSE_BRACKET, k);
      DocumentIsRead(item, rest, depth + 1);
      DocStarts(item, rest);
      SpaceIsSkipped(space, Print(item, rest));
      CloseIsRead(after, CLOSE_BRACKET, ExpectedCommaOrBracket, k);
      assert [] + ([CLOSE_BRACKET] + k) == [CLOSE_BRACKET] + k;
      ElementsEnd([], k, depth, items + [Meaning(item)]);
    case MoreElements(space, item, after, more) =>
      var next := PrintElements(more, k);
      var rest := after + ([COMMA] + next);
      ClosingStops(after, COMMA, next);
      DocumentIsRead(item, rest, depth + 1);
      DocStarts(item, rest);
      SpaceIsSkipped(space, Print(item, rest));
      CommaIsRead(after, CLOSE_BRACKET, ExpectedCommaOrBracket, next);
      ElementsAreRead(more, k, depth, items + [Meaning(item)]);
      AppendIsAssociative(items, [Meaning(item)], Items(more));
  }

  lemma ElementsEnd(space: Text, k: Text, depth: nat, items: seq<Value>)
    requires AllSpace(space)
    ensures ParseElements(space + ([CLOSE_BRACKET] + k), depth, items) == Got(items, k)
  {
    SpaceIsSkipped(space, [CLOSE_BRACKET] + k);
    assert ([CLOSE_BRACKET] + k)[1..] == k;
  }

  lemma {:induction false} ListIsRead(kind: Option<Byte>, es: Elements, k: Text, depth: nat)
    requires WellFormed(List(kind, es)) && depth <= MAX_DEPTH
    ensures Reads(ParseList(PrintKind(kind, PrintElements(es, k)), depth), Meaning(List(kind, es)), k,
                  depth + ElementsHeight(es) <= MAX_DEPTH)
    decreases es, 1
  {
    var s := PrintElements(es, k);
    ElementsAreRead(es, k, depth, []);
    assert [] + Items(es) == Items(es);
    match kind
    case None => PlainListIsPlain(es, k);
    case Some(b) => assert ([b, SEMICOLON] + s)[2..] == s;
  }

  /** The elements of a plain list never look like the start of a typed array. */
  lemma PlainListIsPlain(es: Elements, k: Text)
    requires ElementsFit(es)
    ensures ArrayKind(PrintElements(es, k)) == None
  {
    match es
    case NoElements(space) => if space != [] { assert IsSpace(space[0]); }
    case LastElement(space, item, after) =>
      NotAnnounced(space, item, after, [CLOSE_BRACKET] + k);
    case MoreElements(space, item, after, more) =>
      NotAnnounced(space, item, after, [COMMA] + PrintElements(more, k));
  }

  lemma NotAnnounced(space: Text, item: Doc, after: Text, k: Text)
    requires AllSpace(space) && WellFormed(item) && AllSpace(after) && k != [] && k[0] in {CLOSE_BRACKET, COMMA}
    ensures ArrayKind(space + Print(item, after + k)) == None
  {
    var s := space + Print(item, after + k);
    if space != [] {
      assert IsSpace(space[0]) && s[0] == space[0];
    } else {
      assert s == Print(item, after + k);
      match item
      case Bare(token) =>
        assert s[0] == token[0];
        if |token| > 1 {
          assert s[1] == token[1] && IsTokenByte(token[1]);
        } else {
          assert s[1] == (after + k)[0];
          if after != [] { assert IsSpace(after[0]); }
        }
      case Quoted(quote, pieces) =>
      case Compound(members) =>
      case List(kind, elements) =>
    }
  }

  /* ---------------------------------------------------------------- escapes */

  /** One whole character, in UTF-8. */
  ghost predicate IsCharacter(c: Text) {
    Utf8.BeginsCodePoint(c) && |c| == Utf8.Announced(c[0])
  }

  /** What has been read of a string stays. */
  lemma {:induction false} CharsOnlyGrow(s: seq<Byte>, quote: Byte, out: Text)
    requires ParseChars(s, quote, out).Got?
    ensures |ParseChars(s, quote, out).value| >= |out|
    decreases |s|
  {
    if s[0] == BACKSLASH {
      CharsOnlyGrow(s[2..], quote, out + Utf8.Latin1(s[1]));
    } else if s[0] != quote {
      var width := Utf8Width(s[0]);
      CharsOnlyGrow(s[width..], quote, out + Utf8.Lossy(s[..width]));
    }
  }

  /** The byte after the first of a longer character is taken to begin four, and they are no character. */
  lemma StrayByteIsReplaced(s: seq<Byte>, quote: Byte, out: Text)
    requires s != [] && Utf8.Continues(s[0]) && IsQuote(quote)
    ensures if |s| < 4 then ParseChars(s, quote, out) == Bad(BadUtf8, |s|)
            else ParseChars(s, quote, out).Got? ==> |ParseChars(s, quote, out).value| >= |out| + 3
  {
    if |s| >= 4 && ParseChars(s, quote, out).Got? {
      var four := s[..4];
      assert Utf8.Announced(four[0]) == 0 && |Utf8.Lossy(four)| >= 3;
      CharsOnlyGrow(s[4..], quote, out + Utf8.Lossy(four));
    }
  }

  /** Right before the closing quote, whatever bytes follow. */
  lemma EscapedBeforeTheQuote(c: Text, quote: Byte, out: Text, k: Text)
    requires IsCharacter(c) && IsQuote(quote)
    ensures ParseChars([BACKSLASH] + (c + ([quote] + k)), quote, out) == Got(out + c, k) <==> |c| == 1
    ensures |c| > 1 && k == [] ==> ParseChars([BACKSLASH] + (c + [quote]), quote, out).Bad?
  {
    var s := [BACKSLASH] + (c + ([quote] + k));
    var rest := c[1..] + ([quote] + k);
    assert s[1] == c[0] && s[2..] == rest;
    var next := out + Utf8.Latin1(c[0]);
    assert ParseChars(s, quote, out) == ParseChars(rest, quote, next);
    if |c| == 1 {
      assert rest == [quote] + k && rest[1..] == k && Utf8.Latin1(c[0]) == c;
    } else {
      assert rest[0] == c[1] && |Utf8.Latin1(c[0])| == 2;
      StrayByteIsReplaced(rest, quote, next);
      if k == [] {
        assert [quote] + k == [quote];
        NothingAfterFour(rest, quote, next);
      }
    }
  }

  /** With nothing after the quote, the stray byte takes the quote too. */
  lemma NothingAfterFour(s: seq<Byte>, quote: Byte, out: Text)
    requires 1 <= |s| <= 4 && Utf8.Continues(s[0]) && IsQuote(quote)
    ensures ParseChars(s, quote, out).Bad?
  {
    if |s| == 4 {
      assert s[4..] == [];
    }
  }

  function Prefixed(out: Text, p: Parsed<Text>): Parsed<Text> {
    match p
    case Got(text, rest) => Got(out + text, rest)
    case Bad(problem, left) => Bad(problem, left)
  }

  /** What was read before has no bearing on what is read next. */
  lemma {:induction false} CharsGoOn(s: seq<Byte>, quote: Byte, out: Text)
    ensures ParseChars(s, quote, out) == Prefixed(out, ParseChars(s, quote, []))
    decreases |s|, 0
  {
    if s == [] || (s[0] == BACKSLASH && |s| == 1) {
    } else if s[0] == BACKSLASH {
      CharsGoOnAfter(s[2..], quote, out, Utf8.Latin1(s[1]));
    } else if s[0] == quote {
      assert out + [] == out;
    } else if |s| >= Utf8Width(s[0]) {
      CharsGoOnAfter(s[Utf8Width(s[0])..], quote, out, Utf8.Lossy(s[..Utf8Width(s[0])]));
    }
  }

  lemma CharsGoOnAfter(s: seq<Byte>, quote: Byte, out: Text, piece: Text)
    ensures ParseChars(s, quote, out + piece) == Prefixed(out, ParseChars(s, quote, [] + piece))
    decreases |s|, 1
  {
    CharsGoOn(s, quote, out + piece);
    CharsGoOn(s, quote, [] + piece);
    var p := ParseChars(s, quote, []);
    if p.Got? {
      assert (out + piece) + p.value == out + (([] + piece) + p.value);
    }
  }

  /** U+FFFD at the front of what is left is the only text a replaced byte could be taken for. */
  lemma StartsWithReplacement(t: Text, quote: Byte, text: Text)
    requires Utf8.Valid(t) && IsQuote(quote) && ParseChars(t, quote, []).Got? && ParseChars(t, quote, []).value == Utf8.REPLACEMENT + text
    ensures |t| >= 3 && t[..3] == Utf8.REPLACEMENT && ParseChars(t[3..], quote, []).Got? && ParseChars(t[3..], quote, []).value == text
  {
    var value := ParseChars(t, quote, []).value;
    assert value[0] == 0xEF;
    if t[0] == BACKSLASH {
      CharsGoOn(t[2..], quote, [] + Utf8.Latin1(t[1]));
      assert false;
    } else {
      var width := Utf8Width(t[0]);
      assert width == Utf8.Announced(t[0]) && |t| >= width;
      OneCharacterIsKept(t[..width]);
      CharsGoOn(t[width..], quote, [] + t[..width]);
      assert value == ([] + t[..width]) + ParseChars(t[width..], quote, []).value;
      assert value[0] == t[0];
      assert value[..3] == t[..3] && value[3..] == text;
    }
  }

  lemma OneCharacterIsKept(c: Text)
    requires IsCharacter(c)
    ensures Utf8.Lossy(c) == c
  {
    assert c[..|c|] == c && c[|c|..] == [];
  }

  /**
   * Whatever string content follows, a backslash passes the character after it
   * through as written exactly when that is a character of one byte.
   */
  lemma EscapedAsWritten(c: Text, t: Text, quote: Byte, out: Text)
    requires IsCharacter(c) && IsQuote(quote) && Utf8.Valid(t) && ParseChars(t, quote, out + c).Got?
    ensures ParseChars([BACKSLASH] + (c + t), quote, out) == ParseChars(t, quote, out + c) <==> |c| == 1
  {
    var s := [BACKSLASH] + (c + t);
    var rest := c[1..] + t;
    assert s[1] == c[0] && s[2..] == rest;
    if |c| == 1 {
      assert rest == t && Utf8.Latin1(c[0]) == c;
    } else {
      LongerIsBroken(c, t, rest, quote, out);
    }
  }

  lemma LongerIsBroken(c: Text, t: Text, rest: Text, quote: Byte, out: Text)
    requires IsCharacter(c) && |c| > 1 && rest == c[1..] + t
    requires IsQuote(quote) && Utf8.Valid(t) && ParseChars(t, quote, out + c).Got?
    ensures ParseChars(rest, quote, out + Utf8.Latin1(c[0])) != ParseChars(t, quote, out + c)
  {
    var next := Utf8.Latin1(c[0]);
    var broken, whole := ParseChars(rest, quote, out + next), ParseChars(t, quote, out + c);
    assert rest[0] == c[1] && Utf8.Continues(c[1]);
    if |rest| < 4 {
      assert broken == Bad(BadUtf8, |rest|);
    } else if broken == whole {
      var replaced := Utf8.REPLACEMENT + Utf8.Lossy(rest[..4][1..]);
      StrayIsReplaced(rest, quote, out + next);
      CharsGoOn(t, quote, out + c);
      var b, w := ParseChars(rest[4..], quote, []).value, ParseChars(t, quote, []).value;
      Regroup(out, next, replaced, b);
      AppendIsAssociative(out, c, w);
      SameAfter(out, next + (replaced + b), c + w);
      BrokenDiffers(c, t, quote, next, replaced, b, w, rest);
    }
  }

  lemma SameAfter(out: Text, a: Text, b: Text)
    requires out + a == out + b
    ensures a == b
  {
    assert (out + a)[|out|..] == a && (out + b)[|out|..] == b;
  }

  lemma Regroup(out: Text, next: Text, replaced: Text, b: Text)
    ensures ((out + next) + replaced) + b == out + (next + (replaced + b))
  {
  }

  lemma StrayIsReplaced(s: seq<Byte>, quote: Byte, out: Text)
    requires |s| >= 4 && Utf8.Continues(s[0]) && IsQuote(quote)
    ensures ParseChars(s, quote, out)
            == Prefixed(out + (Utf8.REPLACEMENT + Utf8.Lossy(s[..4][1..])), ParseChars(s[4..], quote, []))
  {
    StrayFour(s[..4]);
    CharsGoOn(s[4..], quote, out + (Utf8.REPLACEMENT + Utf8.Lossy(s[..4][1..])));
  }

  lemma StrayFour(four: seq<Byte>)
    requires |four| == 4 && Utf8.Continues(four[0])
    ensures Utf8.Lossy(four) == Utf8.REPLACEMENT + Utf8.Lossy(four[1..])
  {
    assert Utf8.Announced(four[0]) == 0 && Utf8.Fitting(four) == 0;
  }

  /** Only the one character that is its own first byte in Latin-1 comes near, and then a U+FFFD is too many. */
  lemma BrokenDiffers(c: Text, t: Text, quote: Byte, next: Text, replaced: Text, b: Text, w: Text, rest: Text)
    requires IsCharacter(c) && |c| > 1 && rest == c[1..] + t && |rest| >= 4 && next == Utf8.Latin1(c[0])
    requires IsQuote(quote) && Utf8.Valid(t) && ParseChars(t, quote, []).Got? && ParseChars(t, quote, []).value == w
    requires replaced == Utf8.REPLACEMENT + Utf8.Lossy(rest[..4][1..])
    requires ParseChars(rest[4..], quote, []).Got? && ParseChars(rest[4..], quote, []).value == b
    ensures next + (replaced + b) != c + w
  {
    if next + (replaced + b) == c + w {
      assert (c + w)[0] == next[0] == 0xC3;
      assert |c| == 2;
      assert c == next by { assert (c + w)[..2] == c && (next + (replaced + b))[..2] == next; }
      SameAfter(c, replaced + b, w);
      var text := Utf8.Lossy(rest[..4][1..]) + b;
      assert w == Utf8.REPLACEMENT + text;
      assert rest[..4][1..] == t[..3] && rest[4..] == t[3..];
      assert |text| > |b|;
      StartsWithReplacement(t, quote, text);
    }
  }

  /** A typed array is announced by its letter and a semicolon, whatever follows. */
  lemma TypedArrayIsAnnounced(s: Text, kind: Byte)
    ensures ArrayKind(s) == Some(kind) <==>
            kind in {'B' as int, 'I' as int, 'L' as int} && |s| >= 2 && s[..2] == [kind, ';' as int]
  {
    if |s| >= 2 { assert s[..2] == [s[0], s[1]]; }
  }

  /** A whole input: a document with whitespace around it. */
  ghost predicate IsSpelling(input: Text, doc: Doc) {
    WellFormed(doc) && exists before: Text, after: Text ::
      AllSpace(before) && AllSpace(after) && input == before + Print(doc, after)
  }

  /** Every spelling of a document parses to its meaning, unless a value in it is nested too deep. */
  lemma SpellingsParse(input: Text, doc: Doc)
    requires IsSpelling(input, doc)
    ensures if Height(doc) <= 64 then Parse(input) == Ok(Meaning(doc))
            else Parse(input).Err? && Parse(input).error.problem == TooDeep
  {
    var before, after :| AllSpace(before) && AllSpace(after) && input == before + Print(doc, after);
    DocStarts(doc, after);
    SpaceIsSkipped(before, Print(doc, after));
    if after != [] { assert IsSpace(after[0]); }
    DocumentIsRead(doc, after, 0);
    assert after + [] == after;
    SpaceIsSkipped(after, []);
  }
}
