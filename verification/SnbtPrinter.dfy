/**
 * Writing a value down (console/snbt.rs): every value has a spelling, and the
 * parser reads it back.
 */
module SnbtPrinter {
  import opened Wrappers
  import opened Bytes
  import opened Numbers
  import opened Snbt
  import opened SnbtScalars
  import opened SnbtGrammar
  import opened SnbtReads

  const LOWER_B: Byte := 98
  const LOWER_D: Byte := 100
  const LOWER_F: Byte := 102
  const LOWER_S: Byte := 115

  predicate InRange(v: int, max: int) {
    -max - 1 <= v <= max
  }

  predicate AllInRange(numbers: seq<int>, max: int) {
    forall i | 0 <= i < |numbers| :: InRange(numbers[i], max)
  }

  /** Numbers of their width, valid UTF-8, float tokens that are floats. */
  ghost predicate Sane(v: Value) {
    match v
    case ByteValue(n) => InRange(n, I8_MAX)
    case ShortValue(n) => InRange(n, I16_MAX)
    case IntValue(n) => InRange(n, I32_MAX)
    case LongValue(n) => InRange(n, I64_MAX)
    case FloatValue(t) => IsToken(t) && IsFloat(t)
    case DoubleValue(t) => IsToken(t) && IsFloat(t)
    case StringValue(t) => Utf8.Valid(t)
    case ListValue(items) => forall i | 0 <= i < |items| :: Sane(items[i])
    case CompoundValue(fields) => forall k | k in fields :: Utf8.Valid(k) && Sane(fields[k])
    case ByteArray(ns) => AllInRange(ns, I8_MAX)
    case IntArray(ns) => AllInRange(ns, I32_MAX)
    case LongArray(ns) => AllInRange(ns, I64_MAX)
  }

  /** No value in `v` sits more than `levels` below it. */
  ghost predicate Within(v: Value, levels: int) {
    0 <= levels &&
    match v
    case ListValue(items) => forall i | 0 <= i < |items| :: Within(items[i], levels - 1)
    case CompoundValue(fields) => forall k | k in fields :: Within(fields[k], levels - 1)
    case ByteArray(ns) => ns == [] || 1 <= levels
    case IntArray(ns) => ns == [] || 1 <= levels
    case LongArray(ns) => ns == [] || 1 <= levels
    case _ => true
  }

  /* ----------------------------------------------------------------- strings */

  function FirstPiece(t: Text): Piece
    requires t != [] && Utf8.BeginsCodePoint(t)
  {
    if t[0] == DOUBLE_QUOTE || t[0] == BACKSLASH then Escaped(t[0]) else Plain(t[..Utf8.Announced(t[0])])
  }

  function PiecesOf(t: Text): seq<Piece>
    requires Utf8.Valid(t)
  {
    if t == [] then []
    else [FirstPiece(t)] + PiecesOf(t[Utf8.Announced(t[0])..])
  }

  lemma CodePointIsKept(t: Text)
    requires t != [] && Utf8.BeginsCodePoint(t)
    ensures var n := Utf8.Announced(t[0]);
            n <= |t| && n == Utf8Width(t[0]) && Utf8.Lossy(t[..n]) == t[..n]
  {
    var c := t[..Utf8.Announced(t[0])];
    assert Utf8.BeginsCodePoint(c);
    assert c[|c|..] == [];
    Utf8.LossyKeepsValid(c);
  }

  lemma FirstPieceIsKept(t: Text)
    requires t != [] && Utf8.BeginsCodePoint(t)
    ensures PieceFits(FirstPiece(t), DOUBLE_QUOTE) && PieceMeaning(FirstPiece(t)) == t[..Utf8.Announced(t[0])]
  {
    CodePointIsKept(t);
  }

  lemma PiecesCons(p: Piece, pieces: seq<Piece>, quote: Byte)
    requires PieceFits(p, quote) && PiecesFit(pieces, quote)
    ensures PiecesFit([p] + pieces, quote)
    ensures TextMeaning([p] + pieces) == PieceMeaning(p) + TextMeaning(pieces)
  {
    assert ([p] + pieces)[1..] == pieces;
  }

  lemma {:induction false} PiecesMeanTheText(t: Text)
    requires Utf8.Valid(t)
    ensures PiecesFit(PiecesOf(t), DOUBLE_QUOTE) && TextMeaning(PiecesOf(t)) == t
    decreases |t|
  {
    if t != [] {
      var n := Utf8.Announced(t[0]);
      FirstPieceIsKept(t);
      PiecesMeanTheText(t[n..]);
      PiecesCons(FirstPiece(t), PiecesOf(t[n..]), DOUBLE_QUOTE);
      assert t == t[..n] + t[n..];
    }
  }

  /* ----------------------------------------------------------------- scalars */

  lemma DecimalIsToken(v: int)
    ensures IsToken(Decimal(v))
  {
    if v < 0 {
      assert forall i | 1 <= i < |Decimal(v)| :: Decimal(v)[i] == Digits(-v)[i - 1];
    }
  }

  lemma SuffixedToken(head: Text, suffix: Byte)
    requires IsToken(head) && IsTokenByte(suffix) && Lower(suffix) != 101
    ensures IsToken(head + [suffix])
    ensures ParseSuffixed(head, suffix).Some? ==> TokenMeaning(head + [suffix]) == ParseSuffixed(head, suffix).value
  {
    var token := head + [suffix];
    ReadAsMeant(token);
    assert token[..|token| - 1] == head;
    assert Lower(token[|token| - 1]) != TRUE[3] && Lower(token[|token| - 1]) != FALSE[4];
  }

  /** A number that reads as `v` before its suffix letter. */
  lemma SuffixedNumber(v: int, max: int, suffix: Byte)
    requires InRange(v, max) && max >= 0 && suffix in {LOWER_B, LOWER_S, UPPER_L}
    ensures ParseSigned(Decimal(v), max) == Some(v)
    ensures IsToken(Decimal(v)) && IsToken(Decimal(v) + [suffix])
    ensures ParseSuffixed(Decimal(v), suffix).Some? ==>
            TokenMeaning(Decimal(v) + [suffix]) == ParseSuffixed(Decimal(v), suffix).value
  {
    DecimalIsToken(v);
    ParseReadsDecimal(v, -max - 1, max);
    SuffixedToken(Decimal(v), suffix);
  }

  function WidthOf(suffix: Byte): int {
    if suffix == LOWER_B then I8_MAX else if suffix == LOWER_S then I16_MAX else I64_MAX
  }

  function NumberOf(v: int, suffix: Byte): Value {
    if suffix == LOWER_B then ByteValue(v) else if suffix == LOWER_S then ShortValue(v) else LongValue(v)
  }

  /** A number and its suffix letter. */
  lemma NumberIsRead(v: int, suffix: Byte)
    requires suffix in {LOWER_B, LOWER_S, UPPER_L} && InRange(v, WidthOf(suffix))
    ensures IsToken(Decimal(v) + [suffix]) && TokenMeaning(Decimal(v) + [suffix]) == NumberOf(v, suffix)
  {
    SuffixedNumber(v, WidthOf(suffix), suffix);
    assert ParseSuffixed(Decimal(v), suffix) == Some(NumberOf(v, suffix));
  }

  lemma IntIsParsed(v: int)
    requires InRange(v, I32_MAX)
    ensures IsToken(Decimal(v)) && ParseScalar(Decimal(v)) == IntValue(v)
  {
    DecimalIsToken(v);
    ParseReadsDecimal(v, -I32_MAX - 1, I32_MAX);
    UnletteredIsRead(Decimal(v));
  }

  lemma IntIsRead(v: int)
    requires InRange(v, I32_MAX)
    ensures IsToken(Decimal(v)) && TokenMeaning(Decimal(v)) == IntValue(v)
  {
    IntIsParsed(v);
    ReadAsMeant(Decimal(v));
  }

  function NumberDoc(v: int, suffix: Text): Doc {
    Bare(Decimal(v) + suffix)
  }

  function NumberDocs(ns: seq<int>, suffix: Text): Elements {
    if ns == [] then NoElements([])
    else if |ns| == 1 then LastElement([], NumberDoc(ns[0], suffix), [])
    else MoreElements([], NumberDoc(ns[0], suffix), [], NumberDocs(ns[1..], suffix))
  }

  /** The element values of a typed array, before they are packed. */
  function Boxed(ns: seq<int>, suffix: Text): (r: seq<Value>)
    ensures |r| == |ns|
    ensures forall i | 0 <= i < |r| :: IsNumber(r[i]) && r[i].v == ns[i]
  {
    seq(|ns|, i requires 0 <= i < |ns| =>
      if suffix == [LOWER_B] then ByteValue(ns[i]) else if suffix == [] then IntValue(ns[i]) else LongValue(ns[i]))
  }

  lemma {:induction false} NumberDocsAreRead(ns: seq<int>, max: int, suffix: Text)
    requires AllInRange(ns, max)
    requires (suffix, max) in {([LOWER_B], I8_MAX), ([], I32_MAX), ([UPPER_L], I64_MAX)}
    ensures ElementsFit(NumberDocs(ns, suffix)) && Items(NumberDocs(ns, suffix)) == Boxed(ns, suffix)
    ensures ElementsHeight(NumberDocs(ns, suffix)) == if ns == [] then 0 else 1
    decreases |ns|
  {
    if ns != [] {
      if suffix == [] {
        IntIsRead(ns[0]);
        assert Decimal(ns[0]) + suffix == Decimal(ns[0]);
      } else {
        NumberIsRead(ns[0], suffix[0]);
      }
      assert Meaning(NumberDoc(ns[0], suffix)) == Boxed(ns, suffix)[0];
      assert Boxed(ns, suffix) == [Boxed(ns, suffix)[0]] + Boxed(ns[1..], suffix);
      NumberDocsAreRead(ns[1..], max, suffix);
    }
  }

  lemma PackedIsItself(ns: seq<int>, suffix: Text, max: int)
    requires AllInRange(ns, max) && max in {I8_MAX, I32_MAX, I64_MAX}
    ensures ElementNumbers(Boxed(ns, suffix), max) == ns
  {
    forall i | 0 <= i < |ns| ensures Wrapped(ns[i], max) == ns[i] {
      WrapsToItself(ns[i], max);
    }
  }

  lemma WrapsToItself(v: int, max: int)
    requires InRange(v, max) && max in {I8_MAX, I32_MAX, I64_MAX}
    ensures Wrapped(v, max) == v
  {
    if max == I8_MAX {
      assert v % 0x100 == if v < 0 then v + 0x100 else v;
    } else if max == I32_MAX {
      assert v % 0x1_0000_0000 == if v < 0 then v + 0x1_0000_0000 else v;
    } else {
      assert v % 0x1_0000_0000_0000_0000 == if v < 0 then v + 0x1_0000_0000_0000_0000 else v;
    }
  }

  /** Numbers that agree in their low bits and lie in the signed range of that width. */
  ghost predicate SameLowBits(numbers: seq<int>, items: seq<Value>, span: int)
    requires AllNumbers(items) && span > 0
  {
    |numbers| == |items| &&
    forall i | 0 <= i < |numbers| ::
      -span <= 2 * numbers[i] < span && (items[i].v - numbers[i]) % span == 0
  }

  /** An element too wide for its array keeps its low 8, 32 or 64 bits. */
  lemma ArrayKeepsTheLowBits(items: seq<Value>)
    requires AllNumbers(items)
    ensures var b := ArrayOf('B' as int, items); b.ByteArray? && SameLowBits(b.numbers, items, 0x100)
    ensures var i := ArrayOf('I' as int, items); i.IntArray? && SameLowBits(i.numbers, items, 0x1_0000_0000)
    ensures var l := ArrayOf('L' as int, items); l.LongArray? && SameLowBits(l.numbers, items, 0x1_0000_0000_0000_0000)
  {
    forall k | 0 <= k < |items|
      ensures -0x100 <= 2 * Wrapped(items[k].v, I8_MAX) < 0x100 && (items[k].v - Wrapped(items[k].v, I8_MAX)) % 0x100 == 0
    {
      WrapKeepsLowBits(items[k].v);
    }
    forall k | 0 <= k < |items|
      ensures -0x1_0000_0000 <= 2 * Wrapped(items[k].v, I32_MAX) < 0x1_0000_0000
           && (items[k].v - Wrapped(items[k].v, I32_MAX)) % 0x1_0000_0000 == 0
    {
      WrapKeepsLowBits(items[k].v);
    }
    forall k | 0 <= k < |items|
      ensures -0x1_0000_0000_0000_0000 <= 2 * Wrapped(items[k].v, I64_MAX) < 0x1_0000_0000_0000_0000
           && (items[k].v - Wrapped(items[k].v, I64_MAX)) % 0x1_0000_0000_0000_0000 == 0
    {
      WrapKeepsLowBits(items[k].v);
    }
  }

  lemma WrapKeepsLowBits(v: int)
    ensures var w := Wrapped(v, I8_MAX); -0x100 <= 2 * w < 0x100 && (v - w) % 0x100 == 0
    ensures var w := Wrapped(v, I32_MAX); -0x1_0000_0000 <= 2 * w < 0x1_0000_0000 && (v - w) % 0x1_0000_0000 == 0
    ensures var w := Wrapped(v, I64_MAX);
            -0x1_0000_0000_0000_0000 <= 2 * w < 0x1_0000_0000_0000_0000 && (v - w) % 0x1_0000_0000_0000_0000 == 0
  {
  }

  lemma ArrayIsRead(kind: Byte, ns: seq<int>, suffix: Text, max: int)
    requires AllInRange(ns, max)
    requires (kind, suffix, max) in
             {(UPPER_B, [LOWER_B], I8_MAX), (UPPER_I, [], I32_MAX), (UPPER_L, [UPPER_L], I64_MAX)}
    ensures var doc := List(Some(kind), NumberDocs(ns, suffix));
            && WellFormed(doc) && Height(doc) == (if ns == [] then 0 else 1)
            && Meaning(doc) == if kind == UPPER_B then ByteArray(ns) else if kind == UPPER_I then IntArray(ns) else LongArray(ns)
  {
    NumberDocsAreRead(ns, max, suffix);
    PackedIsItself(ns, suffix, max);
  }

  /* --------------------------------------------------------------- structure */

  ghost function Describe(v: Value): Doc
    requires Sane(v)
    decreases v, 1, 0
  {
    match v
    case ByteValue(n) => NumberDoc(n, [LOWER_B])
    case ShortValue(n) => NumberDoc(n, [LOWER_S])
    case IntValue(n) => NumberDoc(n, [])
    case LongValue(n) => NumberDoc(n, [UPPER_L])
    case FloatValue(t) => Bare(t + [LOWER_F])
    case DoubleValue(t) => Bare(t + [LOWER_D])
    case StringValue(t) => Quoted(DOUBLE_QUOTE, PiecesOf(t))
    case ListValue(items) => List(None, DescribeItems(v, 0))
    case CompoundValue(fields) => Compound(DescribeFields(v, fields.Keys))
    case ByteArray(ns) => List(Some(UPPER_B), NumberDocs(ns, [LOWER_B]))
    case IntArray(ns) => List(Some(UPPER_I), NumberDocs(ns, []))
    case LongArray(ns) => List(Some(UPPER_L), NumberDocs(ns, [UPPER_L]))
  }

  ghost function DescribeItems(v: Value, i: nat): Elements
    requires Sane(v) && v.ListValue? && i <= |v.items|
    decreases v, 0, |v.items| - i
  {
    if i == |v.items| then NoElements([])
    else if i + 1 == |v.items| then LastElement([], Describe(v.items[i]), [])
    else MoreElements([], Describe(v.items[i]), [], DescribeItems(v, i + 1))
  }

  ghost function DescribeMember(v: Value, k: Text): Member
    requires Sane(v) && v.CompoundValue? && k in v.fields
    decreases v, 0, 0
  {
    Member(QuotedKey(DOUBLE_QUOTE, PiecesOf(k)), [], [], Describe(v.fields[k]))
  }

  ghost function DescribeFields(v: Value, keys: set<Text>): Members
    requires Sane(v) && v.CompoundValue? && keys <= v.fields.Keys
    decreases v, 0, 1 + |keys|
  {
    if keys == {} then NoMembers([])
    else
      var k :| k in keys;
      if keys == {k} then LastMember([], DescribeMember(v, k), [])
      else MoreMembers([], DescribeMember(v, k), [], DescribeFields(v, keys - {k}))
  }

  /** The document says `v`. */
  ghost predicate Says(doc: Doc, v: Value) {
    WellFormed(doc) && Meaning(doc) == v
  }

  lemma NumberSays(v: Value)
    requires Sane(v) && IsNumber(v)
    ensures Says(Describe(v), v)
  {
    match v
    case ByteValue(n) => NumberIsRead(n, LOWER_B);
    case ShortValue(n) => NumberIsRead(n, LOWER_S);
    case IntValue(n) =>
      IntIsRead(n);
      assert Decimal(n) + [] == Decimal(n);
    case LongValue(n) => NumberIsRead(n, UPPER_L);
  }

  lemma FloatSays(v: Value)
    requires Sane(v) && (v.FloatValue? || v.DoubleValue?)
    ensures Says(Describe(v), v)
  {
    SuffixedToken(v.token, if v.FloatValue? then LOWER_F else LOWER_D);
  }

  lemma ArraySays(v: Value)
    requires Sane(v) && (v.ByteArray? || v.IntArray? || v.LongArray?)
    ensures Says(Describe(v), v)
  {
    match v
    case ByteArray(ns) => ArrayIsRead(UPPER_B, ns, [LOWER_B], I8_MAX);
    case IntArray(ns) => ArrayIsRead(UPPER_I, ns, [], I32_MAX);
    case LongArray(ns) => ArrayIsRead(UPPER_L, ns, [UPPER_L], I64_MAX);
  }

  /** Every value has a document that says it. */
  lemma {:induction false} DescriptionSays(v: Value)
    requires Sane(v)
    ensures Says(Describe(v), v)
    decreases v, 1, 0
  {
    if IsNumber(v) {
      NumberSays(v);
    } else if v.FloatValue? || v.DoubleValue? {
      FloatSays(v);
    } else if v.StringValue? {
      PiecesMeanTheText(v.text);
    } else if v.ListValue? {
      ItemsSay(v, 0);
    } else if v.CompoundValue? {
      FieldsSay(v, v.fields.Keys, map[]);
      assert map[] + Restricted(v, v.fields.Keys) == v.fields;
    } else {
      ArraySays(v);
    }
  }

  lemma {:induction false} ItemsSay(v: Value, i: nat)
    requires Sane(v) && v.ListValue? && i <= |v.items|
    ensures ElementsFit(DescribeItems(v, i)) && Items(DescribeItems(v, i)) == v.items[i..]
    decreases v, 0, |v.items| - i
  {
    if i < |v.items| {
      DescriptionSays(v.items[i]);
      ItemsSay(v, i + 1);
      assert v.items[i..] == [v.items[i]] + v.items[i + 1..];
    }
  }

  ghost function Restricted(v: Value, keys: set<Text>): map<Text, Value>
    requires v.CompoundValue? && keys <= v.fields.Keys
  {
    map k | k in keys :: v.fields[k]
  }

  lemma RestrictedStep(v: Value, keys: set<Text>, k: Text, before: map<Text, Value>)
    requires v.CompoundValue? && keys <= v.fields.Keys && k in keys
    ensures before[k := v.fields[k]] + Restricted(v, keys - {k}) == before + Restricted(v, keys)
  {
  }

  lemma {:induction false} FieldsSay(v: Value, keys: set<Text>, before: map<Text, Value>)
    requires Sane(v) && v.CompoundValue? && keys <= v.fields.Keys
    ensures MembersFit(DescribeFields(v, keys))
    ensures Fields(DescribeFields(v, keys), before) == before + Restricted(v, keys)
    decreases v, 0, 1 + |keys|
  {
    if keys == {} {
      assert before + Restricted(v, {}) == before;
    } else {
      var k := FirstKey(v, keys);
      MemberSays(v, k);
      RestrictedStep(v, keys, k, before);
      var now := before[k := v.fields[k]];
      if keys == {k} {
        assert now + Restricted(v, {}) == now;
      } else {
        FieldsSay(v, keys - {k}, now);
      }
    }
  }

  lemma {:induction false} MemberSays(v: Value, k: Text)
    requires Sane(v) && v.CompoundValue? && k in v.fields
    ensures var m := DescribeMember(v, k);
            MemberFits(m) && KeyMeaning(m.key) == k && Meaning(m.value) == v.fields[k]
    decreases v, 0, 0
  {
    PiecesMeanTheText(k);
    DescriptionSays(v.fields[k]);
  }

  /** The member that `DescribeFields` writes first. */
  lemma FirstKey(v: Value, keys: set<Text>) returns (k: Text)
    requires Sane(v) && v.CompoundValue? && keys <= v.fields.Keys && keys != {}
    ensures k in keys
    ensures DescribeFields(v, keys) ==
            if keys == {k} then LastMember([], DescribeMember(v, k), [])
            else MoreMembers([], DescribeMember(v, k), [], DescribeFields(v, keys - {k}))
    ensures keys == {k} ==> keys - {k} == {}
  {
    k :| k in keys && DescribeFields(v, keys) ==
         if keys == {k} then LastMember([], DescribeMember(v, k), [])
         else MoreMembers([], DescribeMember(v, k), [], DescribeFields(v, keys - {k}));
  }

  lemma {:induction false} NumberDocsHeight(ns: seq<int>, suffix: Text)
    ensures ElementsHeight(NumberDocs(ns, suffix)) == if ns == [] then 0 else 1
    decreases |ns|
  {
    if |ns| > 1 {
      NumberDocsHeight(ns[1..], suffix);
    }
  }

  /** ... which nests exactly as deep as the value. */
  lemma {:induction false} DescriptionNests(v: Value, levels: nat)
    requires Sane(v)
    ensures Height(Describe(v)) <= levels <==> Within(v, levels)
    decreases v, 1, 0
  {
    match v
    case ListValue(items) => ItemsNest(v, 0, levels);
    case CompoundValue(fields) => FieldsNest(v, fields.Keys, levels);
    case ByteArray(ns) => NumberDocsHeight(ns, [LOWER_B]);
    case IntArray(ns) => NumberDocsHeight(ns, []);
    case LongArray(ns) => NumberDocsHeight(ns, [UPPER_L]);
    case _ =>
  }

  ghost predicate ItemsWithin(v: Value, i: nat, levels: int)
    requires v.ListValue?
  {
    forall j | i <= j < |v.items| :: Within(v.items[j], levels)
  }

  lemma ItemsWithinStep(v: Value, i: nat, levels: int)
    requires v.ListValue? && i < |v.items|
    ensures ItemsWithin(v, i, levels) <==> Within(v.items[i], levels) && ItemsWithin(v, i + 1, levels)
  {
  }

  lemma {:induction false} ItemsNest(v: Value, i: nat, levels: nat)
    requires Sane(v) && v.ListValue? && i <= |v.items|
    ensures ElementsHeight(DescribeItems(v, i)) <= levels <==> ItemsWithin(v, i, levels - 1)
    decreases v, 0, 1 + |v.items| - i
  {
    if i < |v.items| {
      ItemsWithinStep(v, i, levels - 1);
      if levels > 0 { DescriptionNests(v.items[i], levels - 1); }
      ItemsNest(v, i + 1, levels);
    }
  }

  ghost predicate AllWithin(v: Value, keys: set<Text>, levels: int)
    requires v.CompoundValue? && keys <= v.fields.Keys
  {
    forall k | k in keys :: Within(v.fields[k], levels)
  }

  lemma AllWithinStep(v: Value, keys: set<Text>, k: Text, levels: int)
    requires v.CompoundValue? && keys <= v.fields.Keys && k in keys
    ensures AllWithin(v, keys, levels) <==> Within(v.fields[k], levels) && AllWithin(v, keys - {k}, levels)
  {
    assert forall x | x in keys :: x == k || x in keys - {k};
  }

  lemma {:induction false} FieldsNest(v: Value, keys: set<Text>, levels: nat)
    requires Sane(v) && v.CompoundValue? && keys <= v.fields.Keys
    ensures MembersHeight(DescribeFields(v, keys)) <= levels <==> AllWithin(v, keys, levels - 1)
    decreases v, 0, 1 + |keys|
  {
    if keys != {} {
      var k := FirstKey(v, keys);
      AllWithinStep(v, keys, k, levels - 1);
      if levels > 0 {
        DescriptionNests(v.fields[k], levels - 1);
      }
      FieldsNest(v, keys - {k}, levels);
    }
  }

  /**
   * The round trip: every value that nests within the limit is read back from
   * its description, and every value that nests deeper is refused for its depth.
   */
  lemma EveryValueRoundTrips(v: Value)
    requires Sane(v)
    ensures if Within(v, MAX_DEPTH) then Parse(Print(Describe(v), [])) == Ok(v)
            else Parse(Print(Describe(v), [])).Err? && Parse(Print(Describe(v), [])).error.problem == TooDeep
  {
    var doc := Describe(v);
    DescriptionSays(v);
    DescriptionNests(v, MAX_DEPTH);
    assert IsSpelling(Print(doc, []), doc) by {
      var nothing: Text := [];
      assert AllSpace(nothing) && Print(doc, nothing) == nothing + Print(doc, nothing);
    }
    SpellingsParse(Print(doc, []), doc);
  }
}
