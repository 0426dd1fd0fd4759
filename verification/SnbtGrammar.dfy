/**
 * What SNBT is, apart from any parser: documents with every choice a writer has
 * (whitespace, quotes, escapes, trailing commas), how they are written, how deep
 * they nest and which value they mean.
 */
module SnbtGrammar {
  import opened Wrappers
  import opened Bytes
  import opened Snbt
  import opened SnbtScalars

  /** A code point written as it is, or one byte behind a backslash. */
  datatype Piece = Plain(bytes: Text) | Escaped(b: Byte)

  datatype Key = BareKey(token: Text) | QuotedKey(quote: Byte, pieces: seq<Piece>)

  datatype Doc =
    | Bare(token: Text)
    | Quoted(quote: Byte, pieces: seq<Piece>)
    | Compound(members: Members)
    | List(kind: Option<Byte>, elements: Elements)

  /** A comma after the final item is a `More` whose `rest` is `NoMembers`. */
  datatype Members =
    | NoMembers(space: Text)
    | LastMember(space: Text, member: Member, after: Text)
    | MoreMembers(space: Text, member: Member, after: Text, rest: Members)

  datatype Member = Member(key: Key, beforeColon: Text, afterColon: Text, value: Doc)

  datatype Elements =
    | NoElements(space: Text)
    | LastElement(space: Text, item: Doc, after: Text)
    | MoreElements(space: Text, item: Doc, after: Text, rest: Elements)

  /* ----------------------------------------------------------------- writing */

  function Written(p: Piece): Text {
    match p case Plain(bytes) => bytes case Escaped(b) => [BACKSLASH, b]
  }

  /** Every printer takes the text `k` that follows. */
  function PrintPieces(pieces: seq<Piece>, k: Text): Text {
    if pieces == [] then k else Written(pieces[0]) + PrintPieces(pieces[1..], k)
  }

  function PrintQuoted(quote: Byte, pieces: seq<Piece>, k: Text): Text {
    [quote] + PrintPieces(pieces, [quote] + k)
  }

  function PrintKey(key: Key, k: Text): Text {
    match key
    case BareKey(token) => token + k
    case QuotedKey(quote, pieces) => PrintQuoted(quote, pieces, k)
  }

  function Print(doc: Doc, k: Text): Text {
    match doc
    case Bare(token) => token + k
    case Quoted(quote, pieces) => PrintQuoted(quote, pieces, k)
    case Compound(members) => [OPEN_BRACE] + PrintMembers(members, k)
    case List(kind, elements) => [OPEN_BRACKET] + PrintKind(kind, PrintElements(elements, k))
  }

  function PrintKind(kind: Option<Byte>, k: Text): Text {
    match kind case None => k case Some(b) => [b, SEMICOLON] + k
  }

  function PrintMember(m: Member, k: Text): Text {
    PrintKey(m.key, m.beforeColon + ([COLON] + (m.afterColon + Print(m.value, k))))
  }

  function PrintMembers(ms: Members, k: Text): Text {
    match ms
    case NoMembers(space) => space + ([CLOSE_BRACE] + k)
    case LastMember(space, m, after) => space + PrintMember(m, after + ([CLOSE_BRACE] + k))
    case MoreMembers(space, m, after, rest) => space + PrintMember(m, after + ([COMMA] + PrintMembers(rest, k)))
  }

  function PrintElements(es: Elements, k: Text): Text {
    match es
    case NoElements(space) => space + ([CLOSE_BRACKET] + k)
    case LastElement(space, item, after) => space + Print(item, after + ([CLOSE_BRACKET] + k))
    case MoreElements(space, item, after, rest) => space + Print(item, after + ([COMMA] + PrintElements(rest, k)))
  }

  /* ----------------------------------------------------------------- meaning */

  function PieceMeaning(p: Piece): Text {
    match p case Plain(bytes) => Utf8.Lossy(bytes) case Escaped(b) => Utf8.Latin1(b)
  }

  function TextMeaning(pieces: seq<Piece>): Text {
    if pieces == [] then [] else PieceMeaning(pieces[0]) + TextMeaning(pieces[1..])
  }

  function KeyMeaning(key: Key): Text {
    match key case BareKey(token) => token case QuotedKey(_, pieces) => TextMeaning(pieces)
  }

  ghost function Meaning(doc: Doc): Value {
    match doc
    case Bare(token) => TokenMeaning(token)
    case Quoted(_, pieces) => StringValue(TextMeaning(pieces))
    case Compound(members) => CompoundValue(Fields(members, map[]))
    case List(kind, elements) =>
      var items := Items(elements);
      if kind.None? || !AllNumbers(items) then ListValue(items) else ArrayOf(kind.value, items)
  }

  /** A key written twice means its later value. */
  ghost function Fields(ms: Members, before: map<Text, Value>): map<Text, Value> {
    match ms
    case NoMembers(_) => before
    case LastMember(_, m, _) => before[KeyMeaning(m.key) := Meaning(m.value)]
    case MoreMembers(_, m, _, rest) => Fields(rest, before[KeyMeaning(m.key) := Meaning(m.value)])
  }

  ghost function Items(es: Elements): seq<Value> {
    match es
    case NoElements(_) => []
    case LastElement(_, item, _) => [Meaning(item)]
    case MoreElements(_, item, _, rest) => [Meaning(item)] + Items(rest)
  }

  function Max(a: nat, b: nat): nat {
    if a >= b then a else b
  }

  /** How many levels below a value its deepest value sits. */
  function Height(doc: Doc): nat {
    match doc
    case Bare(_) => 0
    case Quoted(_, _) => 0
    case Compound(members) => MembersHeight(members)
    case List(_, elements) => ElementsHeight(elements)
  }

  function MembersHeight(ms: Members): nat {
    match ms
    case NoMembers(_) => 0
    case LastMember(_, m, _) => 1 + Height(m.value)
    case MoreMembers(_, m, _, rest) => Max(1 + Height(m.value), MembersHeight(rest))
  }

  function ElementsHeight(es: Elements): nat {
    match es
    case NoElements(_) => 0
    case LastElement(_, item, _) => 1 + Height(item)
    case MoreElements(_, item, _, rest) => Max(1 + Height(item), ElementsHeight(rest))
  }

  /* ------------------------------------------------------------ well-formed */

  predicate IsBlank(b: Byte) {
    b == ' ' as int || b == '\t' as int || b == '\n' as int || b == '\r' as int
  }

  predicate AllSpace(s: Text) {
    forall i | 0 <= i < |s| :: IsBlank(s[i])
  }

  /** Letters, digits and `_`, `-`, `.`, `+`. */
  predicate InToken(b: Byte) {
    || 'a' as int <= b <= 'z' as int || 'A' as int <= b <= 'Z' as int || '0' as int <= b <= '9' as int
    || b == '_' as int || b == '-' as int || b == '.' as int || b == '+' as int
  }

  predicate IsToken(s: Text) {
    s != [] && forall i | 0 <= i < |s| :: InToken(s[i])
  }

  predicate PieceFits(p: Piece, quote: Byte) {
    p.Plain? ==>
      p.bytes != [] && |p.bytes| == Utf8Width(p.bytes[0]) && p.bytes[0] != BACKSLASH && p.bytes[0] != quote
  }

  predicate PiecesFit(pieces: seq<Piece>, quote: Byte) {
    (quote == '"' as int || quote == '\'' as int) && forall i | 0 <= i < |pieces| :: PieceFits(pieces[i], quote)
  }

  predicate KeyFits(key: Key) {
    match key
    case BareKey(token) => IsToken(token)
    case QuotedKey(quote, pieces) => PiecesFit(pieces, quote)
  }

  /** A typed array holds whole numbers only; nothing else restricts a document. */
  ghost predicate WellFormed(doc: Doc) {
    match doc
    case Bare(token) => IsToken(token)
    case Quoted(quote, pieces) => PiecesFit(pieces, quote)
    case Compound(members) => MembersFit(members)
    case List(kind, elements) =>
      && ElementsFit(elements)
      && (kind.Some? ==> kind.value in {UPPER_B, UPPER_I, UPPER_L} && AllNumbers(Items(elements)))
  }

  ghost predicate MemberFits(m: Member) {
    KeyFits(m.key) && AllSpace(m.beforeColon) && AllSpace(m.afterColon) && WellFormed(m.value)
  }

  ghost predicate MembersFit(ms: Members) {
    match ms
    case NoMembers(space) => AllSpace(space)
    case LastMember(space, m, after) => AllSpace(space) && MemberFits(m) && AllSpace(after)
    case MoreMembers(space, m, after, rest) =>
      AllSpace(space) && MemberFits(m) && AllSpace(after) && MembersFit(rest)
  }

  ghost predicate ElementsFit(es: Elements) {
    match es
    case NoElements(space) => AllSpace(space)
    case LastElement(space, item, after) => AllSpace(space) && WellFormed(item) && AllSpace(after)
    case MoreElements(space, item, after, rest) =>
      AllSpace(space) && WellFormed(item) && AllSpace(after) && ElementsFit(rest)
  }

  /** A text that cannot run on from a bare token. */
  predicate Stops(k: Text) {
    k == [] || !InToken(k[0])
  }
}
