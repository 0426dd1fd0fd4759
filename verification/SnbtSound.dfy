/**
 * The parser accepts nothing else (console/snbt.rs): every input it accepts is a
 * written document, with no value nested below the limit, that means the result.
 */
module SnbtSound {
  import opened Wrappers
  import opened Bytes
  import opened Sequences
  import opened Snbt
  import opened SnbtScalars
  import opened SnbtGrammar
  import opened SnbtReads

  lemma {:induction false} SpaceSplits(s: Text) returns (space: Text)
    ensures AllSpace(space) && s == space + SkipSpace(s)
    decreases |s|
  {
    if s != [] && IsSpace(s[0]) {
      var more := SpaceSplits(s[1..]);
      space := [s[0]] + more;
      assert s == [s[0]] + s[1..];
    } else {
      space := [];
    }
  }

  /** What `ParseChars` adds to its output is the meaning of the pieces it passed. */
  lemma {:induction false} CharsSplit(s: Text, quote: Byte, out: Text) returns (pieces: seq<Piece>)
    requires IsQuote(quote) && ParseChars(s, quote, out).Got?
    ensures PiecesFit(pieces, quote)
    ensures var p := ParseChars(s, quote, out);
            s == PrintPieces(pieces, [quote] + p.rest) && p.value == out + TextMeaning(pieces)
    decreases |s|
  {
    if s[0] == quote {
      pieces := [];
      assert s == [quote] + s[1..];
      assert out + [] == out;
    } else {
      var first := if s[0] == BACKSLASH then Escaped(s[1]) else Plain(s[..Utf8Width(s[0])]);
      var n := |Written(first)|;
      assert s == Written(first) + s[n..];
      var more := CharsSplit(s[n..], quote, out + PieceMeaning(first));
      pieces := [first] + more;
      assert pieces[1..] == more;
      AppendIsAssociative(out, PieceMeaning(first), TextMeaning(more));
    }
  }

  lemma QuotedSplits(s: Text, rest: Text, text: Text) returns (pieces: seq<Piece>)
    requires s != [] && IsQuote(s[0]) && ParseChars(s[1..], s[0], []) == Got(text, rest)
    ensures PiecesFit(pieces, s[0]) && s == PrintQuoted(s[0], pieces, rest) && text == TextMeaning(pieces)
  {
    pieces := CharsSplit(s[1..], s[0], []);
    assert s == [s[0]] + s[1..];
    assert [] + TextMeaning(pieces) == TextMeaning(pieces);
  }

  lemma KeySplits(s: Text) returns (key: Key)
    requires ParseKey(s).Got?
    ensures KeyFits(key) && s == PrintKey(key, ParseKey(s).rest) && ParseKey(s).value == KeyMeaning(key)
  {
    var p := ParseKey(s);
    if s != [] && IsQuote(s[0]) {
      var pieces := QuotedSplits(s, p.rest, p.value);
      key := QuotedKey(s[0], pieces);
    } else {
      key := BareKey(p.value);
      assert s == p.value + p.rest;
    }
  }

  /** An accepted text, taken apart. */
  ghost predicate Explains(doc: Doc, s: Text, depth: nat, value: Value, rest: Text) {
    WellFormed(doc) && s == Print(doc, rest) && Meaning(doc) == value && depth + Height(doc) <= 64
  }

  lemma {:induction false} ValueSplits(s: Text, depth: nat) returns (doc: Doc)
    requires ParseValue(s, depth).Got?
    ensures Explains(doc, s, depth, ParseValue(s, depth).value, ParseValue(s, depth).rest)
    decreases |s|, 0
  {
    var p := ParseValue(s, depth);
    if s[0] == OPEN_BRACE {
      var ms := MembersSplit(s[1..], depth, map[]);
      doc := Compound(ms);
      assert s == [OPEN_BRACE] + s[1..];
    } else if s[0] == OPEN_BRACKET {
      doc := ListSplits(s[1..], depth);
      assert s == [OPEN_BRACKET] + s[1..];
    } else if IsQuote(s[0]) {
      var pieces := QuotedSplits(s, p.rest, p.value.text);
      doc := Quoted(s[0], pieces);
    } else {
      var n := TokenLength(s);
      doc := Bare(s[..n]);
      ReadAsMeant(s[..n]);
      assert s == s[..n] + s[n..];
    }
  }

  lemma {:induction false} MemberSplits(s: Text, depth: nat) returns (m: Member)
    requires ParseMember(s, depth).Got?
    ensures MemberFits(m) && s == PrintMember(m, ParseMember(s, depth).rest)
    ensures ParseMember(s, depth).value == (KeyMeaning(m.key), Meaning(m.value))
    ensures depth + 1 + Height(m.value) <= MAX_DEPTH
    decreases |s|, 1
  {
    var key := KeySplits(s);
    var afterKey := ParseKey(s).rest;
    var beforeColon := SpaceSplits(afterKey);
    var b := SkipSpace(afterKey);
    assert b == [COLON] + b[1..];
    var afterColon := SpaceSplits(b[1..]);
    var doc := ValueSplits(SkipSpace(b[1..]), depth + 1);
    m := Member(key, beforeColon, afterColon, doc);
  }

  lemma SeparatorSplits(s: Text, close: Byte, problem: Problem) returns (after: Text, comma: bool)
    requires Separator(s, close, problem).Got?
    ensures AllSpace(after)
    ensures var next := Separator(s, close, problem).rest;
            if comma then s == after + ([COMMA] + next)
            else next != [] && next[0] == close && s == after + ([close] + next[1..]) && next == [] + next
  {
    after := SpaceSplits(s);
    var c := SkipSpace(s);
    comma := c[0] == COMMA;
    assert c == [c[0]] + c[1..];
  }

  lemma {:induction false} MembersSplit(s: Text, depth: nat, fields: map<Text, Value>) returns (ms: Members)
    requires ParseMembers(s, depth, fields).Got? && depth <= MAX_DEPTH
    ensures MembersFit(ms) && s == PrintMembers(ms, ParseMembers(s, depth, fields).rest)
    ensures ParseMembers(s, depth, fields).value == CompoundValue(Fields(ms, fields))
    ensures depth + MembersHeight(ms) <= MAX_DEPTH
    decreases |s|, 2
  {
    var space := SpaceSplits(s);
    var a := SkipSpace(s);
    if a != [] && a[0] == CLOSE_BRACE {
      ms := NoMembers(space);
      assert a == [CLOSE_BRACE] + a[1..];
    } else {
      var m := MemberSplits(a, depth);
      var afterValue := ParseMember(a, depth).rest;
      var after, comma := SeparatorSplits(afterValue, CLOSE_BRACE, ExpectedCommaOrBrace);
      var next := Separator(afterValue, CLOSE_BRACE, ExpectedCommaOrBrace).rest;
      var now := fields[KeyMeaning(m.key) := Meaning(m.value)];
      assert ParseMembers(s, depth, fields) == ParseMembers(next, depth, now);
      if comma {
        var more := MembersSplit(next, depth, now);
        ms := MoreMembers(space, m, after, more);
      } else {
        ms := LastMember(space, m, after);
        assert next == [] + ([CLOSE_BRACE] + next[1..]);
        MembersEnd([], next[1..], depth, now);
      }
    }
  }

  lemma {:induction false} ElementsSplit(s: Text, depth: nat, items: seq<Value>) returns (es: Elements)
    requires ParseElements(s, depth, items).Got? && depth <= MAX_DEPTH
    ensures ElementsFit(es) && s == PrintElements(es, ParseElements(s, depth, items).rest)
    ensures ParseElements(s, depth, items).value == items + Items(es)
    ensures depth + ElementsHeight(es) <= MAX_DEPTH
    decreases |s|, 1
  {
    var space := SpaceSplits(s);
    var a := SkipSpace(s);
    if a != [] && a[0] == CLOSE_BRACKET {
      es := NoElements(space);
      assert a == [CLOSE_BRACKET] + a[1..];
      assert items + [] == items;
    } else {
      var doc := ValueSplits(a, depth + 1);
      var v := ParseValue(a, depth + 1);
      var after, comma := SeparatorSplits(v.rest, CLOSE_BRACKET, ExpectedCommaOrBracket);
      var next := Separator(v.rest, CLOSE_BRACKET, ExpectedCommaOrBracket).rest;
      assert ParseElements(s, depth, items) == ParseElements(next, depth, items + [v.value]);
      if comma {
        var more := ElementsSplit(next, depth, items + [v.value]);
        es := MoreElements(space, doc, after, more);
        AppendIsAssociative(items, [v.value], Items(more));
      } else {
        es := LastElement(space, doc, after);
        assert next == [] + ([CLOSE_BRACKET] + next[1..]);
        ElementsEnd([], next[1..], depth, items + [v.value]);
      }
    }
  }

  lemma {:induction false} ListSplits(s: Text, depth: nat) returns (doc: Doc)
    requires ParseList(s, depth).Got? && depth <= MAX_DEPTH
    ensures doc.List? && Explains(doc, [OPEN_BRACKET] + s, depth, ParseList(s, depth).value, ParseList(s, depth).rest)
    decreases |s|, 2
  {
    var kind := ArrayKind(s);
    var body := if kind.Some? then s[2..] else s;
    var es := ElementsSplit(body, depth, []);
    doc := List(kind, es);
    assert [] + Items(es) == Items(es);
    if kind.Some? {
      assert s == [kind.value, SEMICOLON] + body;
    }
  }

  /**
   * The parser accepts an input if and only if it spells a document that does
   * not reach below `MAX_DEPTH`; the answer is then what that document means.
   */
  lemma AcceptsExactlyTheGrammar(input: Text, value: Value)
    ensures Parse(input) == Ok(value) <==>
            exists doc :: IsSpelling(input, doc) && Height(doc) <= 64 && Meaning(doc) == value
  {
    if Parse(input) == Ok(value) {
      var before := SpaceSplits(input);
      var s := SkipSpace(input);
      var doc := ValueSplits(s, 0);
      var after := SpaceSplits(ParseValue(s, 0).rest);
      assert after + [] == after;
      assert input == before + Print(doc, after);
      assert IsSpelling(input, doc);
    }
    forall doc | IsSpelling(input, doc) && Height(doc) <= 64 && Meaning(doc) == value
      ensures Parse(input) == Ok(value)
    {
      SpellingsParse(input, doc);
    }
  }
}
