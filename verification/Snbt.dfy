/**
 * The reader for stringified NBT (console/snbt.rs): what each step of the parser
 * does with the rest of the input, and the parser itself, advancing a cursor.
 */
module Snbt {
  import opened Wrappers
  import opened Bytes
  import opened Numbers
  import Utf8

  const MAX_DEPTH: nat := 64

  const OPEN_BRACE: Byte := 123
  const CLOSE_BRACE: Byte := 125
  const OPEN_BRACKET: Byte := 91
  const CLOSE_BRACKET: Byte := 93
  const COLON: Byte := 58
  const SEMICOLON: Byte := 59
  const COMMA: Byte := 44
  const DOUBLE_QUOTE: Byte := 34
  const SINGLE_QUOTE: Byte := 39
  const BACKSLASH: Byte := 92
  const UPPER_B: Byte := 66
  const UPPER_I: Byte := 73
  const UPPER_L: Byte := 76

  /** A string, as its UTF-8 bytes. */
  type Text = seq<Byte>

  /** Floating-point values stay the token that spelled them. */
  datatype Value =
    | ByteValue(v: int)
    | ShortValue(v: int)
    | IntValue(v: int)
    | LongValue(v: int)
    | FloatValue(token: Text)
    | DoubleValue(token: Text)
    | StringValue(text: Text)
    | ListValue(items: seq<Value>)
    | CompoundValue(fields: map<Text, Value>)
    | ByteArray(numbers: seq<int>)
    | IntArray(numbers: seq<int>)
    | LongArray(numbers: seq<int>)

  datatype Problem =
    | TrailingCharacters
    | TooDeep
    | UnexpectedEnd
    | Expected(b: Byte)
    | ExpectedKey
    | ExpectedCommaOrBrace
    | ExpectedCommaOrBracket
    | NonNumericElement
    | UnterminatedString
    | UnterminatedEscape
    | BadUtf8
    | ExpectedValue

  /** A step's answer: a value and what follows it, or a problem met with `left` bytes to go. */
  datatype Parsed<T> = Got(value: T, rest: seq<Byte>) | Bad(problem: Problem, left: nat)

  predicate IsSpace(b: Byte) {
    b == 32 || b == 9 || b == 10 || b == 13
  }

  predicate IsTokenByte(b: Byte) {
    IsDigit(b) || 65 <= b <= 90 || 97 <= b <= 122 || b == 95 || b == 45 || b == 46 || b == 43
  }

  function SkipSpace(s: seq<Byte>): (r: seq<Byte>)
    ensures |r| <= |s|
    ensures r != [] ==> !IsSpace(r[0])
  {
    if s != [] && IsSpace(s[0]) then SkipSpace(s[1..]) else s
  }

  /** Length of the run of token bytes at the front. */
  function TokenLength(s: seq<Byte>): (n: nat)
    ensures n <= |s| && (forall i | 0 <= i < n :: IsTokenByte(s[i]))
    ensures n < |s| ==> !IsTokenByte(s[n])
  {
    if s == [] || !IsTokenByte(s[0]) then 0 else 1 + TokenLength(s[1..])
  }

  function Utf8Width(first: Byte): nat {
    if first <= 0x7F then 1
    else if 0xC0 <= first <= 0xDF then 2
    else if 0xE0 <= first <= 0xEF then 3
    else 4
  }

  /* ---------------------------------------------------------------- scalars */

  function Lower(b: Byte): Byte {
    if 65 <= b <= 90 then b + 32 else b
  }

  /** `eq_ignore_ascii_case` against a lower-case word. */
  predicate Spells(token: Text, word: Text) {
    |token| == |word| && forall i | 0 <= i < |token| :: Lower(token[i]) == word[i]
  }

  const TRUE: Text := [116, 114, 117, 101]
  const FALSE: Text := [102, 97, 108, 115, 101]
  const INF: Text := [105, 110, 102]
  const INFINITY: Text := [105, 110, 102, 105, 110, 105, 116, 121]
  const NAN: Text := [110, 97, 110]

  function WithoutSign(t: Text): Text {
    if t != [] && (t[0] == PLUS || t[0] == MINUS) then t[1..] else t
  }

  function DigitRun(t: Text): (n: nat)
    ensures n <= |t|
  {
    if t == [] || !IsDigit(t[0]) then 0 else 1 + DigitRun(t[1..])
  }

  predicate IsExponent(t: Text) {
    t != [] && Lower(t[0]) == 101 &&
    var exponent := WithoutSign(t[1..]);
    exponent != [] && AllDigits(exponent)
  }

  /** Digits, at most one point among them, and at least one digit in all; then perhaps an exponent. */
  predicate IsDecimal(t: Text) {
    var whole := DigitRun(t);
    var rest := t[whole..];
    if rest == [] || rest[0] != 46 then whole > 0 && (rest == [] || IsExponent(rest))
    else
      var fraction := DigitRun(rest[1..]);
      var end := rest[1 + fraction..];
      whole + fraction > 0 && (end == [] || IsExponent(end))
  }

  /** The tokens Rust parses as a float. */
  predicate IsFloat(t: Text) {
    var body := WithoutSign(t);
    Spells(body, INF) || Spells(body, INFINITY) || Spells(body, NAN) || IsDecimal(body)
  }

  const I8_MAX := 0x7F
  const I16_MAX := 0x7FFF
  const I32_MAX := 0x7FFF_FFFF
  const I64_MAX := 0x7FFF_FFFF_FFFF_FFFF

  function ParseSigned(t: Text, max: int): Option<int> {
    ParseInt(t, -max - 1, max)
  }

  /** The value a type suffix gives a token, when what is before it parses as that type. */
  function ParseSuffixed(head: Text, suffix: Byte): Option<Value> {
    var s := Lower(suffix);
    if head == [] then None
    else if s == 98 then
      match ParseSigned(head, I8_MAX) case Some(v) => Some(ByteValue(v)) case None => None
    else if s == 115 then
      match ParseSigned(head, I16_MAX) case Some(v) => Some(ShortValue(v)) case None => None
    else if s == 108 then
      match ParseSigned(head, I64_MAX) case Some(v) => Some(LongValue(v)) case None => None
    else if s == 102 && IsFloat(head) then Some(FloatValue(head))
    else if s == 100 && IsFloat(head) then Some(DoubleValue(head))
    else None
  }

  function ParseScalar(token: Text): Value
    requires token != []
  {
    var n := |token| - 1;
    var suffixed := ParseSuffixed(token[..n], token[n]);
    if Spells(token, TRUE) then ByteValue(1)
    else if Spells(token, FALSE) then ByteValue(0)
    else if suffixed.Some? then suffixed.value
    else if ParseSigned(token, I32_MAX).Some? then IntValue(ParseSigned(token, I32_MAX).value)
    else if ParseSigned(token, I64_MAX).Some? then LongValue(ParseSigned(token, I64_MAX).value)
    else if 46 in token && IsFloat(token) then DoubleValue(token)
    else StringValue(token)
  }

  /* ----------------------------------------------------------------- strings */

  /** From inside a quoted string to past its closing quote. */
  function ParseChars(s: seq<Byte>, quote: Byte, out: Text): (r: Parsed<Text>)
    ensures r.Got? ==> |r.rest| < |s|
    ensures r.Bad? ==> r.left <= |s|
    decreases |s|
  {
    if s == [] then Bad(UnterminatedString, 0)
    else if s[0] == BACKSLASH then
      if |s| == 1 then Bad(UnterminatedEscape, 0)
      else ParseChars(s[2..], quote, out + Utf8.Latin1(s[1]))
    else if s[0] == quote then Got(out, s[1..])
    else
      var width := Utf8Width(s[0]);
      if |s| < width then Bad(BadUtf8, |s|)
      else ParseChars(s[width..], quote, out + Utf8.Lossy(s[..width]))
  }

  predicate IsQuote(b: Byte) {
    b == DOUBLE_QUOTE || b == SINGLE_QUOTE
  }

  function ParseKey(s: seq<Byte>): (r: Parsed<Text>)
    ensures r.Got? ==> |r.rest| < |s|
    ensures r.Bad? ==> r.left <= |s|
  {
    if s != [] && IsQuote(s[0]) then ParseChars(s[1..], s[0], [])
    else
      var n := TokenLength(s);
      if n == 0 then Bad(ExpectedKey, |s|) else Got(s[..n], s[n..])
  }

  /* -------------------------------------------------------------- structure */

  function ParseValue(s: seq<Byte>, depth: nat): (r: Parsed<Value>)
    ensures r.Got? ==> |r.rest| < |s|
    ensures r.Bad? ==> r.left <= |s|
    decreases |s|, 0
  {
    if depth > MAX_DEPTH then Bad(TooDeep, |s|)
    else if s == [] then Bad(UnexpectedEnd, 0)
    else if s[0] == OPEN_BRACE then ParseMembers(s[1..], depth, map[])
    else if s[0] == OPEN_BRACKET then
      ParseList(s[1..], depth)
    else if IsQuote(s[0]) then
      match ParseChars(s[1..], s[0], [])
      case Got(text, rest) => Got(StringValue(text), rest)
      case Bad(problem, left) => Bad(problem, left)
    else
      var n := TokenLength(s);
      if n == 0 then Bad(ExpectedValue, |s|) else Got(ParseScalar(s[..n]), s[n..])
  }

  /** A key, a colon and a value. */
  function ParseMember(s: seq<Byte>, depth: nat): (r: Parsed<(Text, Value)>)
    ensures r.Got? ==> |r.rest| < |s|
    ensures r.Bad? ==> r.left <= |s|
    decreases |s|, 1
  {
    match ParseKey(s)
    case Bad(problem, left) => Bad(problem, left)
    case Got(key, afterKey) =>
      var b := SkipSpace(afterKey);
      if b == [] || b[0] != COLON then Bad(Expected(COLON), |b|)
      else
        match ParseValue(SkipSpace(b[1..]), depth + 1)
        case Bad(problem, left) => Bad(problem, left)
        case Got(value, rest) => Got((key, value), rest)
  }

  /** What comes after an item: past a comma, or at the closing byte, which the next turn consumes. */
  function Separator(s: seq<Byte>, close: Byte, problem: Problem): (r: Parsed<()>)
    ensures r.Got? ==> |r.rest| <= |s|
    ensures r.Bad? ==> r.left <= |s|
  {
    var c := SkipSpace(s);
    if c != [] && c[0] == COMMA then Got((), c[1..])
    else if c != [] && c[0] == close then Got((), c)
    else Bad(problem, |c|)
  }

  function ParseMembers(s: seq<Byte>, depth: nat, fields: map<Text, Value>): (r: Parsed<Value>)
    ensures r.Got? ==> |r.rest| < |s|
    ensures r.Bad? ==> r.left <= |s|
    decreases |s|, 2
  {
    var a := SkipSpace(s);
    if a != [] && a[0] == CLOSE_BRACE then Got(CompoundValue(fields), a[1..])
    else
      match ParseMember(a, depth)
      case Bad(problem, left) => Bad(problem, left)
      case Got((key, value), afterValue) =>
        match Separator(afterValue, CLOSE_BRACE, ExpectedCommaOrBrace)
        case Bad(problem, left) => Bad(problem, left)
        case Got(_, next) => ParseMembers(next, depth, fields[key := value])
  }

  /** `B;`, `I;` or `L;` right after the bracket announces a typed array. */
  function ArrayKind(s: seq<Byte>): (r: Option<Byte>)
    ensures r.Some? ==> |s| >= 2
  {
    if |s| >= 2 && (s[0] == UPPER_B || s[0] == UPPER_I || s[0] == UPPER_L) && s[1] == SEMICOLON then Some(s[0])
    else None
  }

  function ParseList(s: seq<Byte>, depth: nat): (r: Parsed<Value>)
    ensures r.Got? ==> |r.rest| < |s|
    ensures r.Bad? ==> r.left <= |s|
    decreases |s|, 2
  {
    var kind := ArrayKind(s);
    Finish(kind, ParseElements(if kind.Some? then s[2..] else s, depth, []))
  }

  function ParseElements(s: seq<Byte>, depth: nat, items: seq<Value>): (r: Parsed<seq<Value>>)
    ensures r.Got? ==> |r.rest| < |s|
    ensures r.Bad? ==> r.left <= |s|
    decreases |s|, 1
  {
    var a := SkipSpace(s);
    if a != [] && a[0] == CLOSE_BRACKET then Got(items, a[1..])
    else
      match ParseValue(a, depth + 1)
      case Bad(problem, left) => Bad(problem, left)
      case Got(value, afterValue) =>
        match Separator(afterValue, CLOSE_BRACKET, ExpectedCommaOrBracket)
        case Bad(problem, left) => Bad(problem, left)
        case Got(_, next) => ParseElements(next, depth, items + [value])
  }

  predicate IsNumber(v: Value) {
    v.ByteValue? || v.ShortValue? || v.IntValue? || v.LongValue?
  }

  predicate AllNumbers(items: seq<Value>) {
    forall i | 0 <= i < |items| :: IsNumber(items[i])
  }

  /** `as i8`, `as i32`: keep the low bits, read them as two's complement. */
  function Wrapped(v: int, max: int): int
    requires max >= 0
  {
    var r := v % (2 * (max + 1));
    if r > max then r - 2 * (max + 1) else r
  }

  function ElementNumbers(items: seq<Value>, max: int): (r: seq<int>)
    requires AllNumbers(items) && max >= 0
    ensures |r| == |items| && forall i | 0 <= i < |r| :: r[i] == Wrapped(items[i].v, max)
  {
    seq(|items|, i requires 0 <= i < |items| => Wrapped(items[i].v, max))
  }

  function ArrayOf(kind: Byte, items: seq<Value>): Value
    requires AllNumbers(items)
  {
    if kind == UPPER_B then ByteArray(ElementNumbers(items, I8_MAX))
    else if kind == UPPER_I then IntArray(ElementNumbers(items, I32_MAX))
    else LongArray(ElementNumbers(items, I64_MAX))
  }

  function Finish(kind: Option<Byte>, p: Parsed<seq<Value>>): (r: Parsed<Value>)
    ensures r.Got? ==> p.Got? && r.rest == p.rest
    ensures r.Bad? ==> r.left <= if p.Got? then |p.rest| else p.left
  {
    match p
    case Bad(problem, left) => Bad(problem, left)
    case Got(items, rest) =>
      if kind.None? then Got(ListValue(items), rest)
      else if AllNumbers(items) then Got(ArrayOf(kind.value, items), rest)
      else Bad(NonNumericElement, |rest|)
  }

  datatype SnbtError = SnbtError(problem: Problem, position: nat)

  /** Only whitespace may follow the value of a whole input of `total` bytes. */
  function Conclude(p: Parsed<Value>, total: nat): Result<Value, SnbtError>
    requires if p.Got? then |p.rest| <= total else p.left <= total
  {
    match p
    case Bad(problem, left) => Err(SnbtError(problem, total - left))
    case Got(value, rest) =>
      var end := SkipSpace(rest);
      if end == [] then Ok(value) else Err(SnbtError(TrailingCharacters, total - |end|))
  }

  function Parse(input: seq<Byte>): Result<Value, SnbtError> {
    Conclude(ParseValue(SkipSpace(input), 0), |input|)
  }
}
