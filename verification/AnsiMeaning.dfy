/**
 * What becomes of a terminal's line in the panel: which text is shown, in which
 * look, and when that is the text and the look the terminal gives it.
 */
module AnsiMeaning {
  import opened Wrappers
  import opened Bytes
  import opened Sequences
  import opened Ansi
  import opened Panel
  import opened Terminal

  // ---- Effects in the panel ----

  function PanelEffect(e: Effect, look: Look): Look {
    match e
    case Reset => PLAIN
    case Bold => look.(bold := true)
    case Italic => look.(italic := true)
    case Underlined => look.(underlined := true)
    case Struck => look.(struck := true)
    case Named(colour) => InColour(Sixteen(colour))
    case Rgb(r, g, b) => InColour(TrueColour(r, g, b))
  }

  function Panelled(effects: seq<Effect>, look: Look): Look {
    if effects == [] then look else Panelled(effects[1..], PanelEffect(effects[0], look))
  }

  lemma DigitReadsBack(v: Digit)
    ensures DigitOf(HexDigit(v)) == Some(v) && LowerCode(HexDigit(v)) == HexDigit(v) && HexDigit(v) != SECTION
  {
  }

  lemma LetterIsCoded(e: Effect, look: Look)
    requires !e.Rgb?
    ensures var c := Letter(e);
            c != SECTION && c != 'x' && LowerCode(c) == c && Coded(c, look) == Some(PanelEffect(e, look))
  {
    if e.Named? {
      DigitReadsBack(GameNumber(e.colour));
    }
  }

  function DigitsOf(e: Effect): seq<Digit>
    requires e.Rgb?
  {
    [e.r / 16, e.r % 16, e.g / 16, e.g % 16, e.b / 16, e.b % 16]
  }

  function Hex(d: seq<Digit>): (s: string)
    ensures |s| == |d| && forall i | 0 <= i < |s| :: s[i] == HexDigit(d[i])
  {
    seq(|d|, i requires 0 <= i < |d| => HexDigit(d[i]))
  }

  lemma PairIsSpelled(v: Byte, rest: string)
    ensures HexPair(v) + Spelled(rest) == Spelled([HexDigit(v / 16), HexDigit(v % 16)] + rest)
  {
    var digits := [HexDigit(v / 16), HexDigit(v % 16)] + rest;
    assert digits[1..][1..] == rest;
  }

  lemma RgbIsSpelled(e: Effect)
    requires e.Rgb?
    ensures Code(e) == [SECTION, 'x'] + Spelled(Hex(DigitsOf(e)))
  {
    var b := [HexDigit(e.b / 16), HexDigit(e.b % 16)];
    var g := [HexDigit(e.g / 16), HexDigit(e.g % 16)];
    var r := [HexDigit(e.r / 16), HexDigit(e.r % 16)];
    PairIsSpelled(e.b, "");
    assert HexPair(e.b) + "" == HexPair(e.b) && b + "" == b;
    PairIsSpelled(e.g, b);
    PairIsSpelled(e.r, g + b);
    assert Hex(DigitsOf(e)) == r + (g + b);
  }

  lemma CodeIsTaken(e: Effect, t: string, text: Look, look: Look)
    ensures var next := PanelEffect(e, look);
            Continued(Code(e) + t, text, look) == Continued(t, next, next)
  {
    if e.Rgb? {
      RgbContinues(e, t, text, look);
    } else {
      LetterIsCoded(e, look);
      CodeContinues(Letter(e), t, text, look);
    }
  }

  lemma RgbContinues(e: Effect, t: string, text: Look, look: Look)
    requires e.Rgb?
    ensures var next := PanelEffect(e, look);
            Continued(Code(e) + t, text, look) == Continued(t, next, next)
  {
    var d := DigitsOf(e);
    RgbIsSpelled(e);
    AppendIsAssociative([SECTION, 'x'], Spelled(Hex(d)), t);
    forall i | 0 <= i < 6 ensures DigitOf(LowerCode(Hex(d)[i])) == Some(d[i]) && Hex(d)[i] != SECTION {
      DigitReadsBack(d[i]);
    }
    HexContinues(Hex(d), d, t, text, look);
    assert HexShade(d) == TrueColour(e.r, e.g, e.b);
  }

  /** The codes of some effects, read by the panel, have those effects. */
  lemma {:induction false} CodesAreTaken(effects: seq<Effect>, t: string, text: Look, look: Look)
    requires effects != []
    ensures var next := Panelled(effects, look);
            Continued(Codes(effects) + t, text, look) == Continued(t, next, next)
    decreases |effects|
  {
    var rest, next := Codes(effects[1..]) + t, PanelEffect(effects[0], look);
    AppendIsAssociative(Code(effects[0]), Codes(effects[1..]), t);
    CodeIsTaken(effects[0], rest, text, look);
    if effects[1..] == [] {
      assert rest == t;
    } else {
      CodesAreTaken(effects[1..], t, next, next);
    }
  }

  // ---- A whole line in the panel ----

  /** Every section sign the server itself wrote is one the panel shows as it is. */
  predicate AllLiteral(s: string)
    decreases |s|
  {
    s != "" ==>
      if s[0] == ESC then AllLiteral(s[EscapeLength(s)..])
      else (s[0] == SECTION ==> IsLiteral(Split(Translated(s[1..]), SECTION))) && AllLiteral(s[1..])
  }

  /**
   * The line as the panel shows it: a colour clears the styles, and text after a
   * literal sign is plain until the next code.
   */
  function Seen(s: string, look: Look, literal: bool): seq<Shown>
    decreases |s|
  {
    if s == "" then []
    else if s[0] == ESC then
      var effects := EscapeEffects(s);
      Seen(s[EscapeLength(s)..], Panelled(effects, look), literal && effects == [])
    else
      var plain := literal || s[0] == SECTION;
      [Shown(s[0], if plain then PLAIN else look)] + Seen(s[1..], look, plain)
  }

  lemma {:induction false} PanelSees(s: string, look: Look, literal: bool)
    requires AllLiteral(s)
    ensures Continued(Translated(s), if literal then PLAIN else look, look) == Seen(s, look, literal)
    decreases |s|
  {
    var text := if literal then PLAIN else look;
    if s == "" {
      assert Text("", text) == [];
    } else if s[0] == ESC {
      var effects, rest := EscapeEffects(s), s[EscapeLength(s)..];
      if effects == [] {
        assert Codes(effects) + Translated(rest) == Translated(rest);
        PanelSees(rest, look, literal);
      } else {
        CodesAreTaken(effects, Translated(rest), text, look);
        PanelSees(rest, Panelled(effects, look), false);
      }
    } else if s[0] == SECTION {
      LiteralContinues(Translated(s[1..]), text, look);
      PanelSees(s[1..], look, true);
    } else {
      GlyphContinues(s[0], Translated(s[1..]), text, look);
      PanelSees(s[1..], look, literal);
    }
  }

  // ---- The text that is shown ----

  function TextOf(shown: seq<Shown>): (s: string)
    ensures |s| == |shown| && forall i | 0 <= i < |s| :: s[i] == shown[i].c
  {
    seq(|shown|, i requires 0 <= i < |shown| => shown[i].c)
  }

  /** How many section signs a text has. */
  function Signs(s: string): nat {
    if s == "" then 0 else (if s[0] == SECTION then 1 else 0) + Signs(s[1..])
  }

  lemma {:induction false} SignsAppend(a: string, b: string)
    ensures Signs(a + b) == Signs(a) + Signs(b)
    decreases |a|
  {
    if a == "" {
      assert a + b == b;
    } else {
      assert (a + b)[1..] == a[1..] + b;
      SignsAppend(a[1..], b);
    }
  }

  lemma {:induction false} NoSigns(s: string)
    ensures Signs(s) == 0 <==> SECTION !in s
    decreases |s|
  {
    if s != "" {
      NoSigns(s[1..]);
      assert s == [s[0]] + s[1..];
    }
  }

  lemma TextOfAppend(a: seq<Shown>, b: seq<Shown>)
    ensures TextOf(a + b) == TextOf(a) + TextOf(b)
  {
  }

  /** How many of the segments are shown with their sign. */
  function LiteralParts(parts: seq<string>): nat {
    if parts == [] then 0 else (if IsLiteral(parts) then 1 else 0) + LiteralParts(parts[1..])
  }

  lemma {:induction false} FewerParts(parts: seq<string>, n: nat)
    requires n <= |parts|
    ensures LiteralParts(parts[n..]) <= LiteralParts(parts)
    decreases n
  {
    if n > 0 {
      FewerParts(parts[1..], n - 1);
      assert parts[1..][n - 1..] == parts[n..];
    }
  }

  lemma SegmentSigns(segment: string, look: Look, sign: bool)
    requires SECTION !in segment
    ensures Signs(TextOf(Text((if sign then [SECTION] else "") + segment, look))) == if sign then 1 else 0
  {
    var s := (if sign then [SECTION] else "") + segment;
    assert TextOf(Text(s, look)) == s;
    NoSigns(segment);
    SignsAppend(if sign then [SECTION] else "", segment);
    assert sign ==> [SECTION][1..] == "";
  }

  lemma {:induction false} SignsAreLiteral(parts: seq<string>, look: Look)
    requires forall i | 0 <= i < |parts| :: SECTION !in parts[i]
    ensures Signs(TextOf(Render(parts, look))) <= LiteralParts(parts)
    decreases |parts|
  {
    if parts == [] {
    } else if parts[0] == "" {
      SignsAreLiteral(parts[1..], look);
    } else {
      var code := LowerCode(parts[0][0]);
      if code == 'x' && HexDigits(parts[1..], 6).Some? {
        HexSegmentSigns(parts, look);
        SignsAreLiteral(parts[7..], InColour(HexShade(HexDigits(parts[1..], 6).value)));
        FewerParts(parts, 7);
      } else if code == 'x' || Coded(code, look).None? {
        LiteralSegmentSigns(parts, look);
        SignsAreLiteral(parts[1..], look);
      } else {
        CodedSegmentSigns(parts, look);
        SignsAreLiteral(parts[1..], Coded(code, look).value);
      }
    }
  }

  lemma HexSegmentSigns(parts: seq<string>, look: Look)
    requires (forall i | 0 <= i < |parts| :: SECTION !in parts[i]) && parts != [] && parts[0] != ""
    requires LowerCode(parts[0][0]) == 'x' && HexDigits(parts[1..], 6).Some?
    ensures Signs(TextOf(Render(parts, look)))
            == Signs(TextOf(Render(parts[7..], InColour(HexShade(HexDigits(parts[1..], 6).value)))))
  {
    var next := InColour(HexShade(HexDigits(parts[1..], 6).value));
    assert parts[6] == parts[1..][5];
    ShownTogether(parts[6][1..], next, false, Render(parts[7..], next));
  }

  lemma LiteralSegmentSigns(parts: seq<string>, look: Look)
    requires (forall i | 0 <= i < |parts| :: SECTION !in parts[i]) && IsLiteral(parts)
    ensures Signs(TextOf(Render(parts, look))) == 1 + Signs(TextOf(Render(parts[1..], look)))
  {
    ShownTogether(parts[0], PLAIN, true, Render(parts[1..], look));
  }

  lemma CodedSegmentSigns(parts: seq<string>, look: Look)
    requires (forall i | 0 <= i < |parts| :: SECTION !in parts[i]) && parts != [] && parts[0] != ""
    requires LowerCode(parts[0][0]) != 'x' && Coded(LowerCode(parts[0][0]), look).Some?
    ensures Signs(TextOf(Render(parts, look)))
            == Signs(TextOf(Render(parts[1..], Coded(LowerCode(parts[0][0]), look).value)))
  {
    var next := Coded(LowerCode(parts[0][0]), look).value;
    ShownTogether(parts[0][1..], next, false, Render(parts[1..], next));
  }

  lemma ShownTogether(segment: string, look: Look, sign: bool, rest: seq<Shown>)
    requires SECTION !in segment
    ensures Signs(TextOf(Text((if sign then [SECTION] else "") + segment, look) + rest))
            == (if sign then 1 else 0) + Signs(TextOf(rest))
    ensures !sign ==> Text((if sign then [SECTION] else "") + segment, look) == Text(segment, look)
  {
    var first := Text((if sign then [SECTION] else "") + segment, look);
    TextOfAppend(first, rest);
    SignsAppend(TextOf(first), TextOf(rest));
    SegmentSigns(segment, look, sign);
    assert "" + segment == segment;
  }

  /** How many signs of a line are literal. */
  function LiteralSigns(s: string): nat
    decreases |s|
  {
    if s == "" then 0
    else if s[0] == ESC then LiteralSigns(s[EscapeLength(s)..])
    else
      (if s[0] == SECTION && IsLiteral(Split(Translated(s[1..]), SECTION)) then 1 else 0) + LiteralSigns(s[1..])
  }

  lemma {:induction false} LiteralOrFewer(s: string)
    ensures LiteralSigns(s) <= Signs(Stripped(s)) && (LiteralSigns(s) == Signs(Stripped(s)) ==> AllLiteral(s))
    decreases |s|
  {
    if s == "" {
    } else if s[0] == ESC {
      LiteralOrFewer(s[EscapeLength(s)..]);
    } else {
      LiteralOrFewer(s[1..]);
      assert ([s[0]] + Stripped(s[1..]))[1..] == Stripped(s[1..]);
    }
  }

  lemma CodeIsNotLiteral(e: Effect, t: string)
    ensures LiteralParts(Split(Code(e) + t, SECTION)[1..]) == LiteralParts(Split(t, SECTION)[1..])
  {
    var tail := Split(t, SECTION);
    if e.Rgb? {
      RgbIsNotLiteral(e, t);
    } else {
      LetterIsCoded(e, PLAIN);
      SplitCoded(Letter(e), t);
      var parts := [[Letter(e)] + tail[0]] + tail[1..];
      assert ([""] + parts)[1..] == parts && parts[1..] == tail[1..];
      assert !IsLiteral(parts);
    }
  }

  lemma RgbIsNotLiteral(e: Effect, t: string)
    requires e.Rgb?
    ensures LiteralParts(Split(Code(e) + t, SECTION)[1..]) == LiteralParts(Split(t, SECTION)[1..])
  {
    var d, tail := DigitsOf(e), Split(t, SECTION);
    var digits := Hex(d);
    RgbIsSpelled(e);
    AppendIsAssociative([SECTION, 'x'], Spelled(digits), t);
    forall i | 0 <= i < 6 ensures DigitOf(LowerCode(digits[i])) == Some(d[i]) && digits[i] != SECTION {
      DigitReadsBack(d[i]);
    }
    var inner := Split(Spelled(digits) + t, SECTION);
    SplitSpelled(digits, t);
    SplitCoded('x', Spelled(digits) + t);
    var parts := ["x"] + inner[1..];
    assert ['x'] + inner[0] == "x" && ([""] + parts)[1..] == parts && parts[1..] == inner[1..];
    HexDigitsRead(inner[1..], digits, d);
    assert !IsLiteral(parts);
    DigitsAreNotLiteral(inner[1..], digits, d);
    assert inner[1..][6..] == inner[7..] == tail[1..];
  }

  lemma {:induction false} DigitsAreNotLiteral(parts: seq<string>, digits: string, d: seq<Digit>)
    requires |digits| == |d| <= |parts|
    requires forall i | 0 <= i < |d| :: parts[i] != "" && parts[i][0] == digits[i] && DigitOf(LowerCode(digits[i])) == Some(d[i])
    ensures LiteralParts(parts) == LiteralParts(parts[|d|..])
    decreases |d|
  {
    if d != [] {
      assert !IsLiteral(parts);
      DigitsAreNotLiteral(parts[1..], digits[1..], d[1..]);
      assert parts[1..][|d| - 1..] == parts[|d|..];
    }
  }

  lemma {:induction false} CodesAreNotLiteral(effects: seq<Effect>, t: string)
    ensures LiteralParts(Split(Codes(effects) + t, SECTION)[1..]) == LiteralParts(Split(t, SECTION)[1..])
    decreases |effects|
  {
    if effects == [] {
      assert Codes(effects) + t == t;
    } else {
      AppendIsAssociative(Code(effects[0]), Codes(effects[1..]), t);
      CodeIsNotLiteral(effects[0], Codes(effects[1..]) + t);
      CodesAreNotLiteral(effects[1..], t);
    }
  }

  lemma {:induction false} LiteralPartsAreSigns(s: string)
    ensures LiteralParts(Split(Translated(s), SECTION)[1..]) == LiteralSigns(s)
    decreases |s|
  {
    if s == "" {
    } else if s[0] == ESC {
      var rest := s[EscapeLength(s)..];
      CodesAreNotLiteral(EscapeEffects(s), Translated(rest));
      LiteralPartsAreSigns(rest);
    } else {
      var t := Translated(s[1..]);
      assert ([s[0]] + t)[1..] == t;
      LiteralPartsAreSigns(s[1..]);
      if s[0] == SECTION {
        SignContinues(t, PLAIN, PLAIN);
      }
    }
  }

  /** The panel shows no more section signs of a line than are literal. */
  lemma PanelSigns(s: string)
    ensures Signs(TextOf(Panel.Panel(Translated(s)))) <= LiteralSigns(s)
  {
    var parts := Split(Translated(s), SECTION);
    SignsAreLiteral(parts[1..], PLAIN);
    LiteralPartsAreSigns(s);
    ShownTogether(parts[0], PLAIN, false, Render(parts[1..], PLAIN));
    assert "" + parts[0] == parts[0];
  }

  lemma {:induction false} SeenText(s: string, look: Look, literal: bool)
    ensures TextOf(Seen(s, look, literal)) == Stripped(s)
    decreases |s|
  {
    if s == "" {
    } else if s[0] == ESC {
      SeenText(s[EscapeLength(s)..], Panelled(EscapeEffects(s), look), literal && EscapeEffects(s) == []);
    } else {
      SeenText(s[1..], look, literal || s[0] == SECTION);
    }
  }

  /**
   * The panel shows the text of every line, without its escapes and in full,
   * exactly when each section sign in it stands before a character that begins no code.
   */
  lemma PanelShowsTheText(s: string)
    ensures TextOf(Panel.Panel(Translated(s))) == Stripped(s) <==> AllLiteral(s)
    ensures AllLiteral(s) ==> Panel.Panel(Translated(s)) == Seen(s, PLAIN, false)
  {
    if AllLiteral(s) {
      PanelSees(s, PLAIN, false);
      SeenText(s, PLAIN, false);
    }
    PanelSigns(s);
    LiteralOrFewer(s);
  }

  // ---- Panel and terminal ----

  /** Where the terminal and the panel give each character the same look. */
  predicate LooksAgree(s: string, panel: Look, terminal: Look, literal: bool)
    decreases |s|
  {
    s != "" ==>
      if s[0] == ESC then
        var effects := EscapeEffects(s);
        LooksAgree(s[EscapeLength(s)..], Panelled(effects, panel), AfterEscape(s, terminal), literal && effects == [])
      else
        var plain := literal || s[0] == SECTION;
        terminal == (if plain then PLAIN else panel) && LooksAgree(s[1..], panel, terminal, plain)
  }

  lemma {:induction false} DisplayText(s: string, look: Look)
    ensures TextOf(Display(s, look)) == Stripped(s)
    decreases |s|
  {
    if s == "" {
    } else if s[0] == ESC {
      DisplayText(s[EscapeLength(s)..], AfterEscape(s, look));
    } else {
      DisplayText(s[1..], look);
    }
  }

  lemma {:induction false} SeenIsDisplayed(s: string, panel: Look, terminal: Look, literal: bool)
    ensures Seen(s, panel, literal) == Display(s, terminal) <==> LooksAgree(s, panel, terminal, literal)
    decreases |s|
  {
    if s == "" {
    } else if s[0] == ESC {
      var effects := EscapeEffects(s);
      SeenIsDisplayed(s[EscapeLength(s)..], Panelled(effects, panel), AfterEscape(s, terminal), literal && effects == []);
    } else {
      var plain := literal || s[0] == SECTION;
      SeenIsDisplayed(s[1..], panel, terminal, plain);
      SameOrNot(Shown(s[0], if plain then PLAIN else panel), Seen(s[1..], panel, plain),
                Shown(s[0], terminal), Display(s[1..], terminal));
    }
  }

  lemma SameOrNot<T>(x: T, xs: seq<T>, y: T, ys: seq<T>)
    ensures [x] + xs == [y] + ys <==> x == y && xs == ys
  {
    if [x] + xs == [y] + ys {
      assert ([x] + xs)[0] == ([y] + ys)[0] && ([x] + xs)[1..] == xs && ([y] + ys)[1..] == ys;
    }
  }

  /**
   * The panel shows a line as the terminal does, text and look, exactly when its
   * section signs are literal and the two looks agree at every character.
   */
  lemma TranslationKeepsTheLook(s: string)
    ensures Panel.Panel(Translated(s)) == Display(s, PLAIN) <==> AllLiteral(s) && LooksAgree(s, PLAIN, PLAIN, false)
  {
    PanelShowsTheText(s);
    DisplayText(s, PLAIN);
    SeenIsDisplayed(s, PLAIN, PLAIN, false);
  }
}
