/**
 * How the admin panel shows a console line (private/rdadmin.html,
 * `renderMinecraftFormatting` and `readHexColour`): the line cut at its section
 * signs, and each segment read as a code and the text after it.
 */
module Panel {
  import opened Wrappers
  import opened Bytes
  import opened Sequences
  import opened Ansi

  datatype Shade = Sixteen(colour: Colour) | TrueColour(r: Byte, g: Byte, b: Byte) | Indexed(n: nat)

  datatype Look = Look(shade: Option<Shade>, bold: bool, italic: bool, underlined: bool, struck: bool)

  const PLAIN := Look(None, false, false, false, false)

  datatype Shown = Shown(c: char, look: Look)

  function Text(s: string, look: Look): (r: seq<Shown>)
    ensures |r| == |s| && forall i | 0 <= i < |r| :: r[i] == Shown(s[i], look)
  {
    seq(|s|, i requires 0 <= i < |s| => Shown(s[i], look))
  }

  /** A colour, and no style: the panel clears them. */
  function InColour(shade: Shade): Look {
    Look(Some(shade), false, false, false, false)
  }

  /** `toLowerCase` on one character, where it matters: the Kelvin sign is a `k` too. */
  function LowerCode(c: char): char {
    if 'A' <= c <= 'Z' then (c as int + 32) as char else if c == '\U{212A}' then 'k' else c
  }

  function DigitOf(c: char): Option<Digit> {
    if '0' <= c <= '9' then Some(c as int - '0' as int)
    else if 'a' <= c <= 'f' then Some(c as int - 'a' as int + 10)
    else None
  }

  /** The look after a code, or nothing for an unknown one. */
  function Coded(code: char, look: Look): Option<Look> {
    if code == 'r' then Some(PLAIN)
    else if code == 'l' then Some(look.(bold := true))
    else if code == 'o' then Some(look.(italic := true))
    else if code == 'n' then Some(look.(underlined := true))
    else if code == 'm' then Some(look.(struck := true))
    else if code == 'k' then Some(look)
    else
      match DigitOf(code)
      case None => None
      case Some(v) => Some(InColour(Sixteen(Colour(v / 4 % 2 == 1, v / 2 % 2 == 1, v % 2 == 1, v / 8 == 1))))
  }

  /** The codes the panel knows besides `x`, in either case; `k` alone changes nothing. */
  lemma KnownCodes(c: char, look: Look)
    ensures Coded(LowerCode(c), look).Some? <==>
            || '0' <= c <= '9' || 'a' <= c <= 'f' || 'A' <= c <= 'F' || 'k' <= c <= 'o' || 'K' <= c <= 'O'
            || c == 'r' || c == 'R' || c == '\U{212A}'
    ensures c == 'k' || c == 'K' ==> Coded(LowerCode(c), look) == Some(look)
    ensures c == 'r' || c == 'R' ==> Coded(LowerCode(c), look) == Some(PLAIN)
    ensures LowerCode(c) == 'x' <==> c == 'x' || c == 'X'
    ensures 'A' <= c <= 'Z' ==> Coded(LowerCode(c), look) == Coded((c as int + 32) as char, look)
  {
  }

  /** The hex digits that the next `n` segments begin with. */
  function HexDigits(parts: seq<string>, n: nat): (d: Option<seq<Digit>>)
    ensures d.Some? ==> |d.value| == n <= |parts| && forall i | 0 <= i < n :: parts[i] != ""
  {
    if n == 0 then Some([])
    else if parts == [] || parts[0] == "" then None
    else
      match (DigitOf(LowerCode(parts[0][0])), HexDigits(parts[1..], n - 1))
      case (Some(v), Some(rest)) => Some([v] + rest)
      case _ => None
  }

  function Join(high: int, low: int): Byte
    requires 0 <= high < 16 && 0 <= low < 16
  {
    high * 16 + low
  }

  function HexShade(d: seq<Digit>): Shade
    requires |d| == 6
  {
    TrueColour(Join(d[0], d[1]), Join(d[2], d[3]), Join(d[4], d[5]))
  }

  /** A sign that is no code: it and its segment are shown as they are. */
  predicate IsLiteral(parts: seq<string>) {
    parts != [] && parts[0] != "" &&
    var code := LowerCode(parts[0][0]);
    if code == 'x' then HexDigits(parts[1..], 6).None? else Coded(code, PLAIN).None?
  }

  /** The segments after the first sign. */
  function Render(parts: seq<string>, look: Look): seq<Shown>
    decreases |parts|
  {
    if parts == [] then []
    else if parts[0] == "" then Render(parts[1..], look)
    else
      var code := LowerCode(parts[0][0]);
      if code == 'x' then
        match HexDigits(parts[1..], 6)
        case None => Text([SECTION] + parts[0], PLAIN) + Render(parts[1..], look)
        case Some(d) =>
          var next := InColour(HexShade(d));
          Text(parts[6][1..], next) + Render(parts[7..], next)
      else
        match Coded(code, look)
        case None => Text([SECTION] + parts[0], PLAIN) + Render(parts[1..], look)
        case Some(next) => Text(parts[0][1..], next) + Render(parts[1..], next)
  }

  /** A line from some place on, where text is in one look and the next code changes another. */
  function Continued(t: string, text: Look, look: Look): seq<Shown> {
    var parts := Split(t, SECTION);
    Text(parts[0], text) + Render(parts[1..], look)
  }

  function Panel(line: string): seq<Shown> {
    Continued(line, PLAIN, PLAIN)
  }

  lemma {:induction false} Unsplit(s: string, separator: char)
    requires separator !in s
    ensures Split(s, separator) == [s]
    decreases |s|
  {
    if s != "" {
      Unsplit(s[1..], separator);
      assert s == [s[0]] + s[1..];
    }
  }

  // ---- One character, sign or code on ----

  lemma GlyphContinues(c: char, t: string, text: Look, look: Look)
    requires c != SECTION
    ensures Continued([c] + t, text, look) == [Shown(c, text)] + Continued(t, text, look)
  {
    assert ([c] + t)[1..] == t;
    var parts := Split(t, SECTION);
    var longer := Split([c] + t, SECTION);
    assert longer[0] == [c] + parts[0] && longer[1..] == parts[1..];
    assert Text([c] + parts[0], text) == [Shown(c, text)] + Text(parts[0], text);
  }

  lemma SignContinues(t: string, text: Look, look: Look)
    ensures Split([SECTION] + t, SECTION)[1..] == Split(t, SECTION)
    ensures Continued([SECTION] + t, text, look) == Render(Split(t, SECTION), look)
  {
    assert ([SECTION] + t)[1..] == t;
    assert Text("", text) == [];
  }

  lemma LiteralContinues(t: string, text: Look, look: Look)
    requires IsLiteral(Split(t, SECTION))
    ensures Continued([SECTION] + t, text, look) == [Shown(SECTION, PLAIN)] + Continued(t, PLAIN, look)
  {
    SignContinues(t, text, look);
    var parts := Split(t, SECTION);
    LiteralRenders(parts, look);
    AppendIsAssociative([Shown(SECTION, PLAIN)], Text(parts[0], PLAIN), Render(parts[1..], look));
  }

  lemma KnownAlike(code: char, look: Look, other: Look)
    ensures Coded(code, look).None? <==> Coded(code, other).None?
  {
  }

  lemma LiteralRenders(parts: seq<string>, look: Look)
    requires IsLiteral(parts)
    ensures Render(parts, look) == ([Shown(SECTION, PLAIN)] + Text(parts[0], PLAIN)) + Render(parts[1..], look)
  {
    KnownAlike(LowerCode(parts[0][0]), look, PLAIN);
    assert Text([SECTION] + parts[0], PLAIN) == [Shown(SECTION, PLAIN)] + Text(parts[0], PLAIN);
  }

  lemma SplitCoded(code: char, t: string)
    requires code != SECTION
    ensures var parts := Split(t, SECTION);
            Split([SECTION, code] + t, SECTION) == [""] + ([[code] + parts[0]] + parts[1..])
  {
    assert ([SECTION, code] + t)[1..] == [code] + t && ([code] + t)[1..] == t;
  }

  lemma CodeContinues(code: char, t: string, text: Look, look: Look)
    requires code != SECTION && LowerCode(code) != 'x' && Coded(LowerCode(code), look).Some?
    ensures var next := Coded(LowerCode(code), look).value;
            Continued([SECTION, code] + t, text, look) == Continued(t, next, next)
  {
    var parts := Split(t, SECTION);
    SplitCoded(code, t);
    var segment := [code] + parts[0];
    assert segment[1..] == parts[0] && ([segment] + parts[1..])[1..] == parts[1..];
    assert Text("", text) == [];
  }

  /** `SECTION` before each digit of a list. */
  function Spelled(digits: string): string {
    if digits == "" then "" else [SECTION, digits[0]] + Spelled(digits[1..])
  }

  /** The segments `digits` make: nothing, a digit each, and the last before the text of `tail`. */
  predicate AreSpelled(parts: seq<string>, digits: string, tail: seq<string>) {
    var n := |digits|;
    && n > 0 && tail != [] && |parts| == n + |tail| && parts[0] == ""
    && (forall i | 1 <= i < n :: parts[i] == [digits[i - 1]])
    && parts[n] == [digits[n - 1]] + tail[0] && parts[n + 1..] == tail[1..]
  }

  lemma OneMoreDigit(parts: seq<string>, fewer: seq<string>, digits: string, tail: seq<string>)
    requires |digits| > 1 && AreSpelled(fewer, digits[1..], tail)
    requires parts == [""] + ([[digits[0]] + fewer[0]] + fewer[1..])
    ensures AreSpelled(parts, digits, tail)
  {
    assert [digits[0]] + fewer[0] == [digits[0]];
    assert forall i | 2 <= i < |parts| :: parts[i] == fewer[i - 1];
    assert parts[|digits| + 1..] == fewer[|digits|..];
  }

  /** The segments of spelled digits and the text after them. */
  lemma {:induction false} SplitSpelled(digits: string, t: string)
    requires digits != "" && SECTION !in digits
    ensures AreSpelled(Split(Spelled(digits) + t, SECTION), digits, Split(t, SECTION))
    decreases |digits|
  {
    var rest := Spelled(digits[1..]) + t;
    assert Spelled(digits) + t == [SECTION, digits[0]] + rest;
    SplitCoded(digits[0], rest);
    if |digits| == 1 {
      assert rest == t;
    } else {
      SplitSpelled(digits[1..], t);
      OneMoreDigit(Split(Spelled(digits) + t, SECTION), Split(rest, SECTION), digits, Split(t, SECTION));
    }
  }

  lemma {:induction false} HexDigitsRead(parts: seq<string>, digits: string, d: seq<Digit>)
    requires |digits| == |d| <= |parts|
    requires forall i | 0 <= i < |d| :: parts[i] != "" && parts[i][0] == digits[i] && DigitOf(LowerCode(digits[i])) == Some(d[i])
    ensures HexDigits(parts, |d|) == Some(d)
    decreases |d|
  {
    if d != [] {
      HexDigitsRead(parts[1..], digits[1..], d[1..]);
      assert d == [d[0]] + d[1..];
    }
  }

  /** An `x` and the segments of its six digits. */
  lemma HexRenders(parts: seq<string>, digits: string, d: seq<Digit>, tail: seq<string>, look: Look)
    requires |digits| == |d| == 6 && parts != [] && parts[0] == "x"
    requires AreSpelled([""] + parts[1..], digits, tail)
    requires forall i | 0 <= i < 6 :: DigitOf(LowerCode(digits[i])) == Some(d[i])
    ensures var next := InColour(HexShade(d));
            tail != [] && Render(parts, look) == Text(tail[0], next) + Render(tail[1..], next)
  {
    var spelled := [""] + parts[1..];
    forall i | 1 <= i < 7 ensures parts[i] != "" && parts[i][0] == digits[i - 1] {
      assert parts[i] == spelled[i];
    }
    HexDigitsRead(parts[1..], digits, d);
    assert parts[6] == spelled[6] && parts[6][1..] == tail[0];
    assert parts[7..] == spelled[7..];
  }

  /** The 24-bit form, all seven signs of it. */
  lemma HexContinues(digits: string, d: seq<Digit>, t: string, text: Look, look: Look)
    requires |digits| == |d| == 6 && SECTION !in digits
    requires forall i | 0 <= i < 6 :: DigitOf(LowerCode(digits[i])) == Some(d[i])
    ensures var next := InColour(HexShade(d));
            Continued([SECTION, 'x'] + (Spelled(digits) + t), text, look) == Continued(t, next, next)
  {
    var rest := Spelled(digits) + t;
    var inner := Split(rest, SECTION);
    SplitSpelled(digits, t);
    SplitCoded('x', rest);
    assert ['x'] + inner[0] == "x";
    var parts := ["x"] + inner[1..];
    assert Split([SECTION, 'x'] + rest, SECTION) == [""] + parts && ([""] + parts)[1..] == parts;
    assert [""] + parts[1..] == inner;
    HexRenders(parts, digits, d, Split(t, SECTION), look);
    assert Text("", text) == [];
  }
}
