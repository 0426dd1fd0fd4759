/** The SNBT parser as it runs (console/snbt.rs, `Parser`): loops over a byte cursor. */
module SnbtParser {
  import opened Wrappers
  import opened Bytes
  import opened Snbt

  class Parser {
    const bytes: seq<Byte>
    var position: nat

    ghost predicate Valid()
      reads this
    {
      position <= |bytes|
    }

    ghost function Rest(): seq<Byte>
      requires Valid()
      reads this
    {
      bytes[position..]
    }

    /** The outcome a method returned, and where it left the cursor, are those of the step `p`. */
    ghost predicate Agrees<T(!new)>(r: Result<T, SnbtError>, p: Parsed<T>)
      requires Valid()
      reads this
    {
      match p
      case Got(value, rest) => r == Ok(value) && Rest() == rest
      case Bad(problem, left) => left <= |bytes| && r == Err(SnbtError(problem, |bytes| - left))
    }

    constructor (bytes: seq<Byte>)
      ensures Valid() && this.bytes == bytes && Rest() == bytes
    {
      this.bytes := bytes;
      position := 0;
    }

    function Error(problem: Problem): SnbtError
      reads this
    {
      SnbtError(problem, position)
    }

    function Peek(): (b: Option<Byte>)
      requires Valid()
      reads this
      ensures b == if Rest() == [] then None else Some(Rest()[0])
    {
      if position < |bytes| then Some(bytes[position]) else None
    }

    method Advance(n: nat)
      requires Valid() && position + n <= |bytes|
      modifies this
      ensures Valid() && position == old(position) + n && Rest() == old(Rest())[n..]
    {
      position := position + n;
    }

    method SkipWhitespace()
      requires Valid()
      modifies this
      ensures Valid() && Rest() == SkipSpace(old(Rest())) && position >= old(position)
    {
      while position < |bytes| && IsSpace(bytes[position])
        invariant Valid() && position >= old(position)
        invariant SkipSpace(Rest()) == SkipSpace(old(Rest()))
      {
        Advance(1);
      }
    }

    method Expect(b: Byte) returns (r: Result<(), SnbtError>)
      requires Valid()
      modifies this
      ensures Valid() && position >= old(position)
      ensures if old(Rest()) != [] && old(Rest())[0] == b then r.Ok? && Rest() == old(Rest())[1..]
              else r == Err(SnbtError(Expected(b), |bytes| - |old(Rest())|)) && position == old(position)
    {
      if Peek() == Some(b) {
        Advance(1);
        r := Ok(());
      } else {
        r := Err(Error(Expected(b)));
      }
    }

    method BareToken() returns (token: Text)
      requires Valid()
      modifies this
      ensures Valid() && position >= old(position)
      ensures var n := TokenLength(old(Rest())); token == old(Rest())[..n] && Rest() == old(Rest())[n..]
    {
      var start := position;
      while position < |bytes| && IsTokenByte(bytes[position])
        invariant Valid() && start <= position
        invariant TokenLength(bytes[start..]) == position - start + TokenLength(bytes[position..])
      {
        assert bytes[position..][1..] == bytes[position + 1..];
        position := position + 1;
      }
      token := bytes[start..position];
    }

    /** A backslash and the byte after it, which stands for itself. */
    method Escaped() returns (r: Result<Text, SnbtError>)
      requires Valid() && Rest() != []
      modifies this
      ensures Valid() && position > old(position)
      ensures if |old(Rest())| == 1 then r == Err(SnbtError(UnterminatedEscape, |bytes|))
              else r == Ok(Utf8.Latin1(old(Rest())[1])) && Rest() == old(Rest())[2..]
    {
      if position + 1 == |bytes| {
        position := position + 1;
        return Err(Error(UnterminatedEscape));
      }
      r := Ok(Utf8.Latin1(bytes[position + 1]));
      Advance(2);
    }

    /** As many bytes as the first of them announces. */
    method Character() returns (r: Result<Text, SnbtError>)
      requires Valid() && Rest() != []
      modifies this
      ensures Valid() && position >= old(position) && (r.Ok? ==> position > old(position))
      ensures var s, width := old(Rest()), Utf8Width(old(Rest())[0]);
              if |s| < width then r == Err(SnbtError(BadUtf8, |bytes| - |s|))
              else r == Ok(Utf8.Lossy(s[..width])) && Rest() == s[width..]
    {
      ghost var s := Rest();
      var width := Utf8Width(bytes[position]);
      if |bytes| - position < width {
        return Err(Error(BadUtf8));
      }
      assert s[..width] == bytes[position..position + width];
      r := Ok(Utf8.Lossy(bytes[position..position + width]));
      Advance(width);
    }

    method QuotedString() returns (r: Result<Text, SnbtError>)
      requires Valid() && Rest() != []
      modifies this
      ensures Valid() && position >= old(position)
      ensures Agrees(r, ParseChars(old(Rest())[1..], old(Rest())[0], []))
    {
      var quote := bytes[position];
      Advance(1);
      ghost var goal := ParseChars(Rest(), quote, []);
      var out: Text := [];
      while true
        invariant Valid() && position >= old(position)
        invariant ParseChars(Rest(), quote, out) == goal
        decreases |bytes| - position
      {
        if position == |bytes| {
          assert goal == Bad(UnterminatedString, 0);
          return Err(Error(UnterminatedString));
        }
        var byte := bytes[position];
        if byte == quote && byte != BACKSLASH {
          Advance(1);
          assert goal == Got(out, Rest());
          return Ok(out);
        }
        ghost var here := Rest();
        var text;
        if byte == BACKSLASH {
          text := Escaped();
          assert text.Err? ==> goal == Bad(UnterminatedEscape, 0);
        } else {
          text := Character();
          assert text.Err? ==> goal == Bad(BadUtf8, |here|);
        }
        if text.Err? {
          return Err(text.error);
        }
        out := out + text.value;
      }
    }

    method Key() returns (r: Result<Text, SnbtError>)
      requires Valid()
      modifies this
      ensures Valid() && position >= old(position)
      ensures Agrees(r, ParseKey(old(Rest())))
    {
      if position < |bytes| && IsQuote(bytes[position]) {
        r := QuotedString();
      } else {
        var bare := BareToken();
        if bare == [] {
          return Err(Error(ExpectedKey));
        }
        r := Ok(bare);
      }
    }

    method Value(depth: nat) returns (r: Result<Value, SnbtError>)
      requires Valid()
      modifies this
      ensures Valid() && position >= old(position)
      ensures Agrees(r, ParseValue(old(Rest()), depth))
      decreases |bytes| - position, 1
    {
      if depth > MAX_DEPTH {
        return Err(Error(TooDeep));
      }
      match Peek() {
        case None => r := Err(Error(UnexpectedEnd));
        case Some(b) =>
          if b == OPEN_BRACE {
            r := Compound(depth);
          } else if b == OPEN_BRACKET {
            r := ListOrArray(depth);
          } else if IsQuote(b) {
            var text := QuotedString();
            r := if text.Ok? then Ok(StringValue(text.value)) else Err(text.error);
          } else {
            r := BareValue();
          }
      }
    }

    method BareValue() returns (r: Result<Value, SnbtError>)
      requires Valid()
      modifies this
      ensures Valid() && position >= old(position)
      ensures var n := TokenLength(old(Rest()));
              Agrees(r, if n == 0 then Bad(ExpectedValue, |old(Rest())|)
                        else Got(ParseScalar(old(Rest())[..n]), old(Rest())[n..]))
    {
      var token := BareToken();
      if token == [] {
        return Err(Error(ExpectedValue));
      }
      r := Ok(ParseScalar(token));
    }

    method Member(depth: nat) returns (r: Result<(Text, Value), SnbtError>)
      requires Valid()
      modifies this
      ensures Valid() && position >= old(position)
      ensures r.Ok? ==> position > old(position)
      ensures Agrees(r, ParseMember(old(Rest()), depth))
      decreases |bytes| - position, 2
    {
      ghost var s := Rest();
      var key := Key();
      if key.Err? {
        return Err(key.error);
      }
      r := Field(key.value, depth, s);
    }

    /** The colon and the value that follow a key. */
    method Field(key: Text, depth: nat, ghost s: seq<Byte>) returns (r: Result<(Text, Value), SnbtError>)
      requires Valid() && ParseKey(s) == Got(key, Rest())
      modifies this
      ensures Valid() && position >= old(position)
      ensures r.Ok? ==> position > old(position)
      ensures Agrees(r, ParseMember(s, depth))
      decreases |bytes| - position, 2
    {
      SkipWhitespace();
      var colon := Expect(COLON);
      if colon.Err? {
        return Err(colon.error);
      }
      SkipWhitespace();
      var value := Value(depth + 1);
      r := if value.Ok? then Ok((key, value.value)) else Err(value.error);
    }

    /** Between two items, or before the closing byte. */
    method NextItem(close: Byte, problem: Problem) returns (r: Result<(), SnbtError>)
      requires Valid()
      modifies this
      ensures Valid() && position >= old(position)
      ensures Agrees(r, Separator(old(Rest()), close, problem))
    {
      SkipWhitespace();
      var next := Peek();
      if next == Some(COMMA) {
        Advance(1);
      } else if next != Some(close) {
        return Err(Error(problem));
      }
      r := Ok(());
    }

    /** A member and what separates it from the next, as one turn of the loop takes them. */
    method MemberTurn(depth: nat, ghost fields: map<Text, Value>, ghost goal: Parsed<Value>)
      returns (r: Result<(Text, Value), SnbtError>)
      requires Valid() && SkipSpace(Rest()) == Rest() && !(Rest() != [] && Rest()[0] == CLOSE_BRACE)
      requires goal == ParseMembers(Rest(), depth, fields)
      modifies this
      ensures Valid() && position >= old(position)
      ensures r.Err? ==> goal.Bad? && Agrees(r, Bad(goal.problem, goal.left))
      ensures r.Ok? ==> position > old(position)
      ensures r.Ok? ==> goal == ParseMembers(Rest(), depth, fields[r.value.0 := r.value.1])
      decreases |bytes| - position, 3
    {
      r := Member(depth);
      if r.Ok? {
        ghost var separator := Separator(Rest(), CLOSE_BRACE, ExpectedCommaOrBrace);
        var next := NextItem(CLOSE_BRACE, ExpectedCommaOrBrace);
        if next.Err? {
          assert goal == Bad(separator.problem, separator.left);
          return Err(next.error);
        }
      }
    }

    method Compound(depth: nat) returns (r: Result<Value, SnbtError>)
      requires Valid() && Rest() != [] && Rest()[0] == OPEN_BRACE
      modifies this
      ensures Valid() && position >= old(position)
      ensures Agrees(r, ParseMembers(old(Rest())[1..], depth, map[]))
      decreases |bytes| - position, 0
    {
      var brace := Expect(OPEN_BRACE);
      ghost var goal := ParseMembers(Rest(), depth, map[]);
      var fields: map<Text, Value> := map[];
      while true
        invariant Valid() && position > old(position)
        invariant ParseMembers(Rest(), depth, fields) == goal
        decreases |bytes| - position
      {
        SkipWhitespace();
        assert ParseMembers(Rest(), depth, fields) == goal;
        if Peek() == Some(CLOSE_BRACE) {
          Advance(1);
          assert goal == Got(CompoundValue(fields), Rest());
          return Ok(CompoundValue(fields));
        }
        var member := MemberTurn(depth, fields, goal);
        if member.Err? {
          return Err(member.error);
        }
        fields := fields[member.value.0 := member.value.1];
      }
    }

    /** An element and what separates it from the next. */
    method ElementTurn(depth: nat, ghost items: seq<Snbt.Value>, ghost goal: Parsed<seq<Snbt.Value>>)
      returns (r: Result<Value, SnbtError>)
      requires Valid() && SkipSpace(Rest()) == Rest() && !(Rest() != [] && Rest()[0] == CLOSE_BRACKET)
      requires goal == ParseElements(Rest(), depth, items)
      modifies this
      ensures Valid() && position >= old(position)
      ensures r.Err? ==> goal.Bad? && Agrees(r, Bad(goal.problem, goal.left))
      ensures r.Ok? ==> position > old(position)
      ensures r.Ok? ==> goal == ParseElements(Rest(), depth, items + [r.value])
      decreases |bytes| - position, 2
    {
      r := Value(depth + 1);
      if r.Ok? {
        ghost var separator := Separator(Rest(), CLOSE_BRACKET, ExpectedCommaOrBracket);
        var next := NextItem(CLOSE_BRACKET, ExpectedCommaOrBracket);
        if next.Err? {
          assert goal == Bad(separator.problem, separator.left);
          return Err(next.error);
        }
      }
    }

    method Elements(depth: nat) returns (r: Result<seq<Value>, SnbtError>)
      requires Valid()
      modifies this
      ensures Valid() && position >= old(position)
      ensures Agrees(r, ParseElements(old(Rest()), depth, []))
      decreases |bytes| - position, 3
    {
      ghost var goal := ParseElements(Rest(), depth, []);
      var items: seq<Snbt.Value> := [];
      while true
        invariant Valid() && position >= old(position)
        invariant ParseElements(Rest(), depth, items) == goal
        decreases |bytes| - position
      {
        SkipWhitespace();
        if Peek() == Some(CLOSE_BRACKET) {
          Advance(1);
          assert goal == Got(items, Rest());
          return Ok(items);
        }
        var value := ElementTurn(depth, items, goal);
        if value.Err? {
          return Err(value.error);
        }
        items := items + [value.value];
      }
    }

    method ListOrArray(depth: nat) returns (r: Result<Value, SnbtError>)
      requires Valid() && Rest() != [] && Rest()[0] == OPEN_BRACKET
      modifies this
      ensures Valid() && position >= old(position)
      ensures Agrees(r, ParseList(old(Rest())[1..], depth))
      decreases |bytes| - position, 0
    {
      var bracket := Expect(OPEN_BRACKET);
      var kind := ArrayKind(bytes[position..]);
      if kind.Some? {
        Advance(2);
      }
      var items := Elements(depth);
      if items.Err? {
        return Err(items.error);
      }
      if kind.None? {
        return Ok(ListValue(items.value));
      }
      if !AllNumbers(items.value) {
        return Err(Error(NonNumericElement));
      }
      r := Ok(ArrayOf(kind.value, items.value));
    }

    /** After the outermost value. */
    method End(value: Result<Value, SnbtError>, ghost p: Parsed<Value>) returns (r: Result<Value, SnbtError>)
      requires Valid() && Agrees(value, p)
      requires if p.Got? then |p.rest| <= |bytes| else p.left <= |bytes|
      modifies this
      ensures r == Conclude(p, |bytes|)
    {
      if value.Err? {
        return value;
      }
      SkipWhitespace();
      r := if position != |bytes| then Err(Error(TrailingCharacters)) else value;
    }
  }

  /** The entry point. */
  method ParseInput(input: seq<Byte>) returns (r: Result<Value, SnbtError>)
    ensures r == Parse(input)
  {
    var parser := new Parser(input);
    parser.SkipWhitespace();
    var value := parser.Value(0);
    r := parser.End(value, ParseValue(SkipSpace(input), 0));
  }
}
