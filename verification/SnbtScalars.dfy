/**
 * How scalars are spelled in SNBT and what they mean, apart from any parser: the
 * two truth values, whole numbers and floating-point numbers with or without a
 * type letter, and words, which is every other token. `parse_scalar`
 * (console/snbt.rs) reads exactly these.
 */
module SnbtScalars {
  import opened Wrappers
  import opened Bytes
  import opened Numbers
  import opened Snbt

  // ---- Spellings ----

  function Ascii(s: string): (t: Text)
    requires forall i | 0 <= i < |s| :: s[i] < '\U{80}'
    ensures |t| == |s| && forall i | 0 <= i < |t| :: t[i] == s[i] as int
  {
    seq(|s|, i requires 0 <= i < |s| => s[i] as int)
  }

  /** A lower-case word, in letters of any case. */
  predicate IsWord(t: Text, word: string) {
    |t| == |word| && forall i | 0 <= i < |t| :: t[i] == word[i] as int || t[i] == word[i] as int - 32
  }

  predicate AreDigits(t: Text) {
    forall i | 0 <= i < |t| :: '0' as int <= t[i] <= '9' as int
  }

  datatype Sign = NoSign | PlusSign | MinusSign

  datatype Exponent = Exponent(letter: char, sign: Sign, digits: Text)

  datatype Magnitude =
    | Named(word: Text)
    | Figures(whole: Text, fraction: Option<Text>, exponent: Option<Exponent>)

  datatype Scalar =
    | Truth(token: Text, value: bool)
    | Whole(sign: Sign, digits: Text, letter: Option<char>)
    | Real(sign: Sign, magnitude: Magnitude, letter: Option<char>)

  function SignText(s: Sign): Text {
    match s case NoSign => [] case PlusSign => Ascii("+") case MinusSign => Ascii("-")
  }

  function LetterText(letter: Option<char>): Text
    requires letter.Some? ==> letter.value < '\U{80}'
  {
    match letter case None => [] case Some(c) => Ascii([c])
  }

  predicate ExponentFits(e: Exponent) {
    e.letter in {'e', 'E'} && e.digits != [] && AreDigits(e.digits)
  }

  function ExponentText(e: Exponent): Text
    requires ExponentFits(e)
  {
    Ascii([e.letter]) + (SignText(e.sign) + e.digits)
  }

  predicate IsNamed(t: Text) {
    IsWord(t, "inf") || IsWord(t, "infinity") || IsWord(t, "nan")
  }

  function ExponentOf(e: Option<Exponent>): Text
    requires e.Some? ==> ExponentFits(e.value)
  {
    if e.None? then [] else ExponentText(e.value)
  }

  function FractionOf(f: Option<Text>): Text {
    match f case None => [] case Some(digits) => Ascii(".") + digits
  }

  predicate MagnitudeFits(m: Magnitude) {
    match m
    case Named(word) => IsNamed(word)
    case Figures(whole, fraction, exponent) =>
      && AreDigits(whole) && (fraction.Some? ==> AreDigits(fraction.value))
      && (whole != [] || (fraction.Some? && fraction.value != []))
      && (exponent.Some? ==> ExponentFits(exponent.value))
  }

  function MagnitudeText(m: Magnitude): Text
    requires MagnitudeFits(m)
  {
    match m
    case Named(word) => word
    case Figures(whole, fraction, exponent) => whole + (FractionOf(fraction) + ExponentOf(exponent))
  }

  /** Digits by their places. */
  function PlaceValue(digits: Text): int
    requires AreDigits(digits)
  {
    if digits == [] then 0 else (digits[0] - 48) * Power10(|digits| - 1) + PlaceValue(digits[1..])
  }

  function Power10(n: nat): nat {
    if n == 0 then 1 else 10 * Power10(n - 1)
  }

  function Amount(sign: Sign, digits: Text): int
    requires AreDigits(digits)
  {
    if sign.MinusSign? then -PlaceValue(digits) else PlaceValue(digits)
  }

  /** The type letters and their ranges; without a letter a long will do. */
  predicate InRangeOf(letter: Option<char>, v: int) {
    match letter
    case Some(c) =>
      if c in {'b', 'B'} then -128 <= v < 128
      else if c in {'s', 'S'} then -32768 <= v < 32768
      else c in {'l', 'L'} && -9223372036854775808 <= v < 9223372036854775808
    case None => -9223372036854775808 <= v < 9223372036854775808
  }

  /** Without a letter, a floating-point number has a point. */
  predicate ScalarFits(s: Scalar) {
    match s
    case Truth(token, value) => IsWord(token, if value then "true" else "false")
    case Whole(sign, digits, letter) =>
      digits != [] && AreDigits(digits) && InRangeOf(letter, Amount(sign, digits))
    case Real(_, magnitude, letter) =>
      && MagnitudeFits(magnitude)
      && match letter
         case Some(c) => c in {'f', 'F', 'd', 'D'}
         case None => magnitude.Figures? && magnitude.fraction.Some?
  }

  function ScalarText(s: Scalar): Text
    requires ScalarFits(s)
  {
    match s
    case Truth(token, _) => token
    case Whole(sign, digits, letter) => (SignText(sign) + digits) + LetterText(letter)
    case Real(sign, magnitude, letter) => (SignText(sign) + MagnitudeText(magnitude)) + LetterText(letter)
  }

  function ScalarMeaning(s: Scalar): Value
    requires ScalarFits(s)
  {
    match s
    case Truth(_, value) => ByteValue(if value then 1 else 0)
    case Whole(sign, digits, letter) =>
      var v := Amount(sign, digits);
      if letter in {Some('b'), Some('B')} then ByteValue(v)
      else if letter in {Some('s'), Some('S')} then ShortValue(v)
      else if letter.None? && -2147483648 <= v < 2147483648 then IntValue(v)
      else LongValue(v)
    case Real(sign, magnitude, letter) =>
      var number := SignText(sign) + MagnitudeText(magnitude);
      if letter in {Some('f'), Some('F')} then FloatValue(number) else DoubleValue(number)
  }

  ghost predicate IsSpelledAs(token: Text, s: Scalar) {
    ScalarFits(s) && ScalarText(s) == token
  }

  /** A token that spells no scalar is a word. */
  ghost predicate IsPlainWord(token: Text) {
    forall s :: !IsSpelledAs(token, s)
  }

  ghost function TokenMeaning(token: Text): Value {
    if IsPlainWord(token) then StringValue(token)
    else
      var s :| IsSpelledAs(token, s);
      ScalarMeaning(s)
  }

  // ---- Whole numbers ----

  lemma {:induction false} PlacesFromTheRight(digits: Text, last: Byte)
    requires AreDigits(digits) && '0' as int <= last <= '9' as int
    ensures PlaceValue(digits + [last]) == 10 * PlaceValue(digits) + (last - 48)
    decreases |digits|
  {
    if digits == [] {
      assert ([] + [last])[1..] == [];
      assert Power10(0) == 1;
    } else {
      assert (digits + [last])[1..] == digits[1..] + [last];
      PlacesFromTheRight(digits[1..], last);
      assert Power10(|digits|) == 10 * Power10(|digits| - 1);
      Distributes(digits[0] - 48, Power10(|digits| - 1), PlaceValue(digits[1..]));
    }
  }

  lemma Distributes(d: int, p: int, v: int)
    ensures d * (10 * p) + 10 * v == 10 * (d * p + v)
  {
  }

  lemma {:induction false} NaturalIsPlaceValue(digits: Text)
    requires AreDigits(digits)
    ensures AllDigits(digits) && Natural(digits) == PlaceValue(digits)
    decreases |digits|
  {
    if digits != [] {
      var n := |digits| - 1;
      assert digits == digits[..n] + [digits[n]];
      NaturalIsPlaceValue(digits[..n]);
      PlacesFromTheRight(digits[..n], digits[n]);
    }
  }

  /** A sign and digits parse to their amount, within the range asked for. */
  lemma NumeralIsRead(sign: Sign, digits: Text, max: int)
    requires digits != [] && AreDigits(digits) && max >= 0
    ensures ParseSigned(SignText(sign) + digits, max)
            == if -max - 1 <= Amount(sign, digits) <= max then Some(Amount(sign, digits)) else None
  {
    NaturalIsPlaceValue(digits);
    var t := SignText(sign) + digits;
    if sign.NoSign? { assert t == digits; } else { assert t[1..] == digits; }
  }

  /** Whatever parses is a sign and digits. */
  lemma NumeralSplits(t: Text, max: int) returns (sign: Sign, digits: Text)
    requires ParseSigned(t, max).Some? && max >= 0
    ensures t == SignText(sign) + digits && digits != [] && AreDigits(digits)
    ensures ParseSigned(t, max) == Some(Amount(sign, digits)) && -max - 1 <= Amount(sign, digits) <= max
  {
    if t[0] == PLUS {
      sign, digits := PlusSign, t[1..];
    } else if t[0] == MINUS {
      sign, digits := MinusSign, t[1..];
    } else {
      sign, digits := NoSign, t;
    }
    assert t == SignText(sign) + digits;
    NumeralIsRead(sign, digits, max);
  }

  // ---- Floating-point numbers ----

  lemma SpellsIsWord(t: Text, word: string)
    requires forall i | 0 <= i < |word| :: 'a' <= word[i] <= 'z'
    ensures Spells(t, Ascii(word)) <==> IsWord(t, word)
  {
  }

  lemma WordsAreTheSame()
    ensures TRUE == Ascii("true") && FALSE == Ascii("false")
    ensures INF == Ascii("inf") && INFINITY == Ascii("infinity") && NAN == Ascii("nan")
  {
  }

  lemma NamedIsRead(t: Text)
    ensures Spells(t, INF) || Spells(t, INFINITY) || Spells(t, NAN) <==> IsNamed(t)
    ensures Spells(t, TRUE) <==> IsWord(t, "true")
    ensures Spells(t, FALSE) <==> IsWord(t, "false")
  {
    WordsAreTheSame();
    SpellsIsWord(t, "true");
    SpellsIsWord(t, "false");
    SpellsIsWord(t, "inf");
    SpellsIsWord(t, "infinity");
    SpellsIsWord(t, "nan");
  }

  lemma {:induction false} DigitRunIs(digits: Text, rest: Text)
    requires AreDigits(digits) && (rest == [] || !IsDigit(rest[0]))
    ensures DigitRun(digits + rest) == |digits|
    decreases |digits|
  {
    if digits == [] {
      assert digits + rest == rest;
    } else {
      assert (digits + rest)[1..] == digits[1..] + rest;
      DigitRunIs(digits[1..], rest);
    }
  }

  lemma {:induction false} DigitRunSplits(t: Text)
    ensures AreDigits(t[..DigitRun(t)]) && (DigitRun(t) < |t| ==> !IsDigit(t[DigitRun(t)]))
    decreases |t|
  {
    if t != [] && IsDigit(t[0]) {
      DigitRunSplits(t[1..]);
      assert t[..DigitRun(t)] == [t[0]] + t[1..][..DigitRun(t[1..])];
    }
  }

  lemma ExponentBegins(e: Option<Exponent>)
    requires e.Some? ==> ExponentFits(e.value)
    ensures var t := ExponentOf(e);
            t != [] ==> t[0] != 46 && !IsDigit(t[0]) && IsExponent(t)
  {
    if e.Some? {
      var t := ExponentText(e.value);
      assert t[1..] == SignText(e.value.sign) + e.value.digits;
      if !e.value.sign.NoSign? {
        assert t[1..][1..] == e.value.digits;
      } else {
        assert t[1..] == e.value.digits;
      }
    }
  }

  lemma FiguresAreRead(m: Magnitude)
    requires m.Figures? && MagnitudeFits(m)
    ensures IsDecimal(MagnitudeText(m))
  {
    var e := ExponentOf(m.exponent);
    ExponentBegins(m.exponent);
    var rest := FractionOf(m.fraction) + e;
    assert MagnitudeText(m) == m.whole + rest;
    if m.fraction.None? {
      assert rest == e;
    } else {
      var f := m.fraction.value;
      assert rest[1..] == f + e;
      DigitRunIs(f, e);
      assert rest[1 + |f|..] == e;
    }
    DigitRunIs(m.whole, rest);
    assert (m.whole + rest)[|m.whole|..] == rest;
  }

  /** What may follow the whole digits of a number, given how many there are. */
  predicate IsDecimalEnd(whole: nat, rest: Text) {
    if rest == [] || rest[0] != 46 then whole > 0 && (rest == [] || IsExponent(rest))
    else
      var n := DigitRun(rest[1..]);
      whole + n > 0 && (rest[1..][n..] == [] || IsExponent(rest[1..][n..]))
  }

  lemma DecimalParts(t: Text) returns (whole: Text, rest: Text)
    requires IsDecimal(t)
    ensures t == whole + rest && AreDigits(whole) && IsDecimalEnd(|whole|, rest)
  {
    var n := DigitRun(t);
    whole, rest := t[..n], t[n..];
    DigitRunSplits(t);
    if rest != [] { assert rest[1..][DigitRun(rest[1..])..] == rest[1 + DigitRun(rest[1..])..]; }
  }

  lemma DecimalSplits(t: Text) returns (m: Magnitude)
    requires IsDecimal(t)
    ensures m.Figures? && MagnitudeFits(m) && MagnitudeText(m) == t
  {
    var whole, rest := DecimalParts(t);
    m := EndSplits(whole, rest);
  }

  lemma EndSplits(whole: Text, rest: Text) returns (m: Magnitude)
    requires AreDigits(whole) && IsDecimalEnd(|whole|, rest)
    ensures m.Figures? && MagnitudeFits(m) && MagnitudeText(m) == whole + rest
  {
    var fraction, exponent := FractionSplits(rest);
    m := Figures(whole, fraction, exponent);
  }

  lemma FractionSplits(rest: Text) returns (fraction: Option<Text>, exponent: Option<Exponent>)
    requires exists n: nat :: IsDecimalEnd(n, rest)
    ensures exponent.Some? ==> ExponentFits(exponent.value)
    ensures fraction.None? <==> rest == [] || rest[0] != 46
    ensures fraction.Some? ==> AreDigits(fraction.value) && |fraction.value| == DigitRun(rest[1..])
    ensures rest == FractionOf(fraction) + ExponentOf(exponent)
  {
    if rest == [] || rest[0] != 46 {
      fraction := None;
      exponent := ExponentSplits(rest);
    } else {
      var n := DigitRun(rest[1..]);
      DigitRunSplits(rest[1..]);
      fraction := Some(rest[1..][..n]);
      exponent := ExponentSplits(rest[1..][n..]);
      assert rest == ([rest[0]] + rest[1..][..n]) + rest[1..][n..];
      assert Ascii(".") == [rest[0]];
    }
  }

  lemma ExponentSplits(t: Text) returns (e: Option<Exponent>)
    requires t == [] || IsExponent(t)
    ensures (e.Some? ==> ExponentFits(e.value)) && ExponentOf(e) == t
  {
    if t == [] {
      e := None;
    } else {
      var letter, rest := if t[0] == 101 then 'e' else 'E', t[1..];
      var sign := if rest[0] == PLUS then PlusSign else if rest[0] == MINUS then MinusSign else NoSign;
      e := Some(Exponent(letter, sign, WithoutSign(rest)));
      assert rest == SignText(sign) + WithoutSign(rest);
      assert t == Ascii([letter]) + rest;
    }
  }

  lemma MagnitudeBegins(m: Magnitude)
    requires MagnitudeFits(m)
    ensures MagnitudeText(m) != [] && MagnitudeText(m)[0] != PLUS && MagnitudeText(m)[0] != MINUS
  {
  }

  lemma FloatIsRead(sign: Sign, m: Magnitude)
    requires MagnitudeFits(m)
    ensures IsFloat(SignText(sign) + MagnitudeText(m))
  {
    var t := MagnitudeText(m);
    MagnitudeBegins(m);
    assert WithoutSign(SignText(sign) + t) == t by {
      if sign.NoSign? { assert [] + t == t; } else { assert (SignText(sign) + t)[1..] == t; }
    }
    if m.Figures? { FiguresAreRead(m); } else { NamedIsRead(t); }
  }

  lemma FloatSplits(t: Text) returns (sign: Sign, m: Magnitude)
    requires IsFloat(t)
    ensures MagnitudeFits(m) && t == SignText(sign) + MagnitudeText(m)
  {
    var body := WithoutSign(t);
    sign := if body == t then NoSign else if t[0] == PLUS then PlusSign else MinusSign;
    assert t == SignText(sign) + body;
    NamedIsRead(body);
    if IsNamed(body) {
      m := Named(body);
    } else {
      m := DecimalSplits(body);
    }
  }

  // ---- Any scalar ----

  lemma DigitsHaveNoPoint(t: Text)
    requires AreDigits(t)
    ensures 46 !in t
  {
  }

  lemma NamesHaveNoPoint(t: Text)
    requires IsNamed(t)
    ensures 46 !in t
  {
  }

  lemma ExponentHasNoPoint(e: Option<Exponent>)
    requires e.Some? ==> ExponentFits(e.value)
    ensures 46 !in ExponentOf(e)
  {
    if e.Some? { DigitsHaveNoPoint(e.value.digits); }
  }

  lemma PointHasFraction(sign: Sign, m: Magnitude)
    requires MagnitudeFits(m)
    ensures 46 in SignText(sign) + MagnitudeText(m) <==> m.Figures? && m.fraction.Some?
  {
    assert 46 !in SignText(sign);
    if m.Named? {
      NamesHaveNoPoint(m.word);
    } else {
      DigitsHaveNoPoint(m.whole);
      ExponentHasNoPoint(m.exponent);
      assert 46 in FractionOf(m.fraction) <==> m.fraction.Some? by {
        if m.fraction.Some? { assert FractionOf(m.fraction)[0] == 46; }
      }
    }
  }

  lemma FiguresEnd(sign: Sign, m: Magnitude)
    requires MagnitudeFits(m) && m.Figures?
    ensures var t := SignText(sign) + MagnitudeText(m); t != [] && (IsDigit(t[|t| - 1]) || t[|t| - 1] == 46)
  {
  }

  lemma LetterIsLast(head: Text, c: Byte)
    requires Lower(c) != 101
    ensures var t := head + [c]; t[..|t| - 1] == head && t[|t| - 1] == c && !Spells(t, TRUE) && !Spells(t, FALSE)
  {
    assert TRUE[3] == 101 && FALSE[4] == 101;
  }

  lemma NoLetter(t: Text)
    requires t != [] && (IsDigit(t[|t| - 1]) || t[|t| - 1] == 46)
    ensures ParseSuffixed(t[..|t| - 1], t[|t| - 1]).None? && !Spells(t, TRUE) && !Spells(t, FALSE)
  {
    assert TRUE[3] == 101 && FALSE[4] == 101;
  }

  lemma LetteredIsRead(head: Text, c: Byte)
    requires ParseSuffixed(head, c).Some?
    ensures ParseScalar(head + [c]) == ParseSuffixed(head, c).value
  {
    LetterIsLast(head, c);
  }

  lemma UnletteredIsRead(t: Text)
    requires t != [] && (IsDigit(t[|t| - 1]) || t[|t| - 1] == 46)
    ensures ParseScalar(t) ==
            if ParseSigned(t, I32_MAX).Some? then IntValue(ParseSigned(t, I32_MAX).value)
            else if ParseSigned(t, I64_MAX).Some? then LongValue(ParseSigned(t, I64_MAX).value)
            else if 46 in t && IsFloat(t) then DoubleValue(t)
            else StringValue(t)
  {
    NoLetter(t);
  }

  lemma LetteredWholeIsRead(sign: Sign, digits: Text, c: char)
    requires ScalarFits(Whole(sign, digits, Some(c)))
    ensures ParseSuffixed(SignText(sign) + digits, c as int) == Some(ScalarMeaning(Whole(sign, digits, Some(c))))
  {
    NumeralIsRead(sign, digits, if c in {'b', 'B'} then 127 else if c in {'s', 'S'} then 32767 else 9223372036854775807);
  }

  lemma UnletteredWholeIsRead(sign: Sign, digits: Text)
    requires ScalarFits(Whole(sign, digits, None))
    ensures ParseScalar(SignText(sign) + digits) == ScalarMeaning(Whole(sign, digits, None))
  {
    var t := SignText(sign) + digits;
    assert t[|t| - 1] == digits[|digits| - 1];
    UnletteredIsRead(t);
    NumeralIsRead(sign, digits, 2147483647);
    NumeralIsRead(sign, digits, 9223372036854775807);
  }

  lemma WholeIsRead(s: Scalar)
    requires ScalarFits(s) && s.Whole?
    ensures ScalarText(s) != [] && ParseScalar(ScalarText(s)) == ScalarMeaning(s)
  {
    var head := SignText(s.sign) + s.digits;
    match s.letter
    case Some(c) =>
      LetteredWholeIsRead(s.sign, s.digits, c);
      LetteredIsRead(head, c as int);
      assert ScalarText(s) == head + [c as int];
    case None =>
      UnletteredWholeIsRead(s.sign, s.digits);
      assert ScalarText(s) == head;
  }

  lemma LetteredRealIsRead(head: Text, c: char)
    requires head != [] && IsFloat(head) && c in {'f', 'F', 'd', 'D'}
    ensures ParseScalar(head + [c as int]) == if c in {'f', 'F'} then FloatValue(head) else DoubleValue(head)
  {
    LetteredIsRead(head, c as int);
  }

  lemma RealIsRead(s: Scalar)
    requires ScalarFits(s) && s.Real?
    ensures ScalarText(s) != [] && ParseScalar(ScalarText(s)) == ScalarMeaning(s)
  {
    var head := SignText(s.sign) + MagnitudeText(s.magnitude);
    FloatIsRead(s.sign, s.magnitude);
    match s.letter
    case Some(c) =>
      MagnitudeBegins(s.magnitude);
      LetteredRealIsRead(head, c);
      assert ScalarText(s) == head + [c as int];
    case None =>
      UnletteredRealIsRead(s.sign, s.magnitude);
      assert ScalarText(s) == head;
  }

  lemma UnletteredRealIsRead(sign: Sign, m: Magnitude)
    requires MagnitudeFits(m) && m.Figures? && m.fraction.Some?
    ensures var t := SignText(sign) + MagnitudeText(m); t != [] && ParseScalar(t) == DoubleValue(t)
  {
    FloatIsRead(sign, m);
    FiguresEnd(sign, m);
    PointHasFraction(sign, m);
    PointedIsRead(SignText(sign) + MagnitudeText(m));
  }

  lemma PointedIsRead(t: Text)
    requires t != [] && (IsDigit(t[|t| - 1]) || t[|t| - 1] == 46) && 46 in t && IsFloat(t)
    ensures ParseScalar(t) == DoubleValue(t)
  {
    UnletteredIsRead(t);
    NoPointInANumeral(t, 2147483647);
    NoPointInANumeral(t, 9223372036854775807);
  }

  lemma NoPointInANumeral(t: Text, max: int)
    requires 46 in t && max >= 0
    ensures ParseSigned(t, max).None?
  {
    if ParseSigned(t, max).Some? {
      var sign, digits := NumeralSplits(t, max);
    }
  }

  /** Every spelling of a scalar is read as what it means. */
  lemma ScalarIsRead(s: Scalar)
    requires ScalarFits(s)
    ensures ScalarText(s) != [] && ParseScalar(ScalarText(s)) == ScalarMeaning(s)
  {
    match s
    case Truth(token, _) => NamedIsRead(token);
    case Whole(_, _, _) => WholeIsRead(s);
    case Real(_, _, _) => RealIsRead(s);
  }

  lemma SuffixedSplits(head: Text, c: Byte) returns (s: Scalar)
    requires ParseSuffixed(head, c).Some?
    ensures IsSpelledAs(head + [c], s)
  {
    var letter := c as char;
    assert Ascii([letter]) == [c];
    if Lower(c) == 102 || Lower(c) == 100 {
      var sign, m := FloatSplits(head);
      s := Real(sign, m, Some(letter));
    } else {
      var max := if Lower(c) == 98 then 127 else if Lower(c) == 115 then 32767 else 9223372036854775807;
      var sign, digits := NumeralSplits(head, max);
      s := Whole(sign, digits, Some(letter));
    }
  }

  lemma WholeSplits(token: Text, max: int) returns (s: Scalar)
    requires ParseSigned(token, max).Some? && 0 <= max <= I64_MAX
    ensures IsSpelledAs(token, s)
  {
    var sign, digits := NumeralSplits(token, max);
    s := Whole(sign, digits, None);
    assert token + [] == token;
  }

  lemma PointedSplits(token: Text) returns (s: Scalar)
    requires 46 in token && IsFloat(token)
    ensures IsSpelledAs(token, s)
  {
    var sign, m := FloatSplits(token);
    PointHasFraction(sign, m);
    s := Real(sign, m, None);
    assert token + [] == token;
  }

  lemma UnsuffixedSplits(token: Text) returns (s: Scalar)
    requires ParseSigned(token, I32_MAX).Some? || ParseSigned(token, I64_MAX).Some? || (46 in token && IsFloat(token))
    ensures IsSpelledAs(token, s)
  {
    if ParseSigned(token, I32_MAX).Some? {
      s := WholeSplits(token, I32_MAX);
    } else if ParseSigned(token, I64_MAX).Some? {
      s := WholeSplits(token, I64_MAX);
    } else {
      s := PointedSplits(token);
    }
  }

  /** What is read as anything but a word spells a scalar. */
  lemma ScalarSplits(token: Text) returns (s: Option<Scalar>)
    requires token != []
    ensures s.Some? ==> IsSpelledAs(token, s.value)
    ensures s.None? ==> ParseScalar(token) == StringValue(token)
  {
    var n := |token| - 1;
    NamedIsRead(token);
    s := None;
    if Spells(token, TRUE) || Spells(token, FALSE) {
      s := Some(Truth(token, Spells(token, TRUE)));
    } else if ParseSuffixed(token[..n], token[n]).Some? {
      var scalar := SuffixedSplits(token[..n], token[n]);
      assert token == token[..n] + [token[n]];
      s := Some(scalar);
    } else if ParseSigned(token, I32_MAX).Some? || ParseSigned(token, I64_MAX).Some? || (46 in token && IsFloat(token)) {
      var scalar := UnsuffixedSplits(token);
      s := Some(scalar);
    }
  }

  lemma SpelledIsRead(token: Text, s: Scalar)
    requires IsSpelledAs(token, s)
    ensures token != [] && ParseScalar(token) == ScalarMeaning(s) && !ScalarMeaning(s).StringValue?
  {
    ScalarIsRead(s);
  }

  lemma WordIsRead(token: Text)
    requires token != [] && IsPlainWord(token)
    ensures ParseScalar(token) == StringValue(token)
  {
    var split := ScalarSplits(token);
  }

  /** A token is read as what it spells, and as a word exactly when it spells nothing else. */
  lemma ReadAsMeant(token: Text)
    requires token != []
    ensures ParseScalar(token) == TokenMeaning(token)
    ensures IsPlainWord(token) <==> ParseScalar(token) == StringValue(token)
  {
    if IsPlainWord(token) {
      WordIsRead(token);
    } else {
      var s: Scalar :| IsSpelledAs(token, s) && TokenMeaning(token) == ScalarMeaning(s);
      SpelledIsRead(token, s);
    }
  }

  /** So a token is read as a value exactly when it spells a scalar of that value, or is a word and the value its text. */
  lemma ReadsExactlyTheScalars(token: Text, v: Value)
    requires token != []
    ensures ParseScalar(token) == v <==>
            || (exists s :: IsSpelledAs(token, s) && ScalarMeaning(s) == v)
            || (IsPlainWord(token) && v == StringValue(token))
  {
    ReadAsMeant(token);
    forall s | IsSpelledAs(token, s) ensures ParseScalar(token) == ScalarMeaning(s) {
      SpelledIsRead(token, s);
    }
  }
}
