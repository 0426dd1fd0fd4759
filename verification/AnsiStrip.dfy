/** What stripping leaves (console/mod.rs, `strip_ansi` and `strip_formatting`), before and after the translation. */
module AnsiStrip {
  import opened Sequences
  import opened Ansi
  import opened Panel
  import opened AnsiMeaning

  lemma CodedIsDropped(c: char, t: string)
    ensures Plain([SECTION, c] + t) == Plain(t)
  {
    assert ([SECTION, c] + t)[2..] == t;
  }

  lemma {:induction false} SpelledIsDropped(digits: string, t: string)
    ensures Plain(Spelled(digits) + t) == Plain(t)
    decreases |digits|
  {
    if digits == "" {
      assert Spelled(digits) + t == t;
    } else {
      AppendIsAssociative([SECTION, digits[0]], Spelled(digits[1..]), t);
      CodedIsDropped(digits[0], Spelled(digits[1..]) + t);
      SpelledIsDropped(digits[1..], t);
    }
  }

  lemma CodeIsDropped(e: Effect, t: string)
    ensures Plain(Code(e) + t) == Plain(t)
  {
    if e.Rgb? {
      var digits := Hex(DigitsOf(e));
      RgbIsSpelled(e);
      AppendIsAssociative([SECTION, 'x'], Spelled(digits), t);
      CodedIsDropped('x', Spelled(digits) + t);
      SpelledIsDropped(digits, t);
    } else {
      CodedIsDropped(Letter(e), t);
    }
  }

  lemma {:induction false} CodesAreDropped(effects: seq<Effect>, t: string)
    ensures Plain(Codes(effects) + t) == Plain(t)
    decreases |effects|
  {
    if effects == [] {
      assert Codes(effects) + t == t;
    } else {
      AppendIsAssociative(Code(effects[0]), Codes(effects[1..]), t);
      CodeIsDropped(effects[0], Codes(effects[1..]) + t);
      CodesAreDropped(effects[1..], t);
    }
  }

  lemma {:induction false} NoSignIsLeft(s: string)
    ensures SECTION !in Plain(s)
    decreases |s|
  {
    if s == "" || s == [SECTION] {
    } else if s[0] == SECTION {
      NoSignIsLeft(s[2..]);
    } else {
      NoSignIsLeft(s[1..]);
    }
  }

  lemma {:induction false} SignlessIsKept(s: string)
    requires SECTION !in Stripped(s)
    ensures Plain(Translated(s)) == Stripped(s)
    decreases |s|
  {
    if s == "" {
    } else if s[0] == ESC {
      var rest := s[EscapeLength(s)..];
      CodesAreDropped(EscapeEffects(s), Translated(rest));
      SignlessIsKept(rest);
    } else {
      assert Stripped(s)[0] == s[0] && Stripped(s)[1..] == Stripped(s[1..]);
      SignlessIsKept(s[1..]);
      assert Translated(s)[1..] == Translated(s[1..]);
    }
  }

  /** Translating and then removing section codes removes the escapes, exactly when no section sign is left by that. */
  lemma TranslatingThenStripping(s: string)
    ensures Plain(Translated(s)) == Stripped(s) <==> SECTION !in Stripped(s)
  {
    NoSignIsLeft(Translated(s));
    if SECTION !in Stripped(s) {
      SignlessIsKept(s);
    }
  }

  lemma {:induction false} StrippingAddsNothing(s: string, c: char)
    requires c !in s
    ensures c !in Stripped(s)
    decreases |s|
  {
    if s == "" {
    } else if s[0] == ESC {
      StrippingAddsNothing(s[EscapeLength(s)..], c);
    } else {
      StrippingAddsNothing(s[1..], c);
    }
  }

  lemma {:induction false} SignlessIsLiteral(s: string)
    requires SECTION !in Stripped(s)
    ensures AllLiteral(s)
    decreases |s|
  {
    if s == "" {
    } else if s[0] == ESC {
      SignlessIsLiteral(s[EscapeLength(s)..]);
    } else {
      assert Stripped(s)[0] == s[0] && Stripped(s)[1..] == Stripped(s[1..]);
      SignlessIsLiteral(s[1..]);
    }
  }

  /** In particular for every input without a section sign, whose text the panel shows too. */
  lemma WithoutASignAllIsKept(s: string)
    requires SECTION !in s
    ensures Plain(Translated(s)) == Stripped(s) == TextOf(Panel.Panel(Translated(s)))
  {
    StrippingAddsNothing(s, SECTION);
    TranslatingThenStripping(s);
    SignlessIsLiteral(s);
    PanelShowsTheText(s);
  }

  // ---- A second time ----

  lemma CodeHoldsNoEscape(e: Effect)
    ensures ESC !in Code(e)
  {
    if e.Rgb? {
      RgbIsSpelled(e);
      SpelledHoldsNoEscape(Hex(DigitsOf(e)));
      forall i | 0 <= i < 6 ensures Hex(DigitsOf(e))[i] != ESC {
        DigitReadsBack(DigitsOf(e)[i]);
      }
    } else {
      LetterIsCoded(e, PLAIN);
    }
  }

  lemma {:induction false} SpelledHoldsNoEscape(digits: string)
    ensures ESC in Spelled(digits) ==> ESC in digits
    decreases |digits|
  {
    if digits != "" {
      SpelledHoldsNoEscape(digits[1..]);
    }
  }

  lemma {:induction false} CodesHoldNoEscape(effects: seq<Effect>)
    ensures ESC !in Codes(effects)
    decreases |effects|
  {
    if effects != [] {
      CodeHoldsNoEscape(effects[0]);
      CodesHoldNoEscape(effects[1..]);
    }
  }

  lemma {:induction false} WithoutEscapes(s: string)
    requires ESC !in s
    ensures Translated(s) == s && Stripped(s) == s
    decreases |s|
  {
    if s != "" {
      WithoutEscapes(s[1..]);
      assert s == [s[0]] + s[1..];
    }
  }

  lemma {:induction false} NoEscapeIsLeft(s: string)
    ensures ESC !in Translated(s) && ESC !in Stripped(s)
    decreases |s|
  {
    if s == "" {
    } else if s[0] == ESC {
      CodesHoldNoEscape(EscapeEffects(s));
      NoEscapeIsLeft(s[EscapeLength(s)..]);
    } else {
      NoEscapeIsLeft(s[1..]);
    }
  }

  /** No escape survives either way, so a second time changes nothing. */
  lemma OnceIsEnough(s: string)
    ensures ESC !in Translated(s) && ESC !in Stripped(s)
    ensures Translated(Translated(s)) == Translated(s) == Stripped(Translated(s))
    ensures Stripped(Stripped(s)) == Stripped(s) == Translated(Stripped(s))
  {
    NoEscapeIsLeft(s);
    WithoutEscapes(Translated(s));
    WithoutEscapes(Stripped(s));
  }

  /** Every sign begins a code the panel knows, and an `x` its six digits and nothing else. */
  predicate WellCoded(t: string)
    decreases |t|
  {
    t != "" ==>
      if t[0] != SECTION then WellCoded(t[1..])
      else if |t| == 1 || t[1] == SECTION then false
      else if LowerCode(t[1]) == 'x' then BeginsHexColour(t) && WellCoded(t[14..])
      else Coded(LowerCode(t[1]), PLAIN).Some? && WellCoded(t[2..])
  }

  function SixDigits(t: string): string
    requires |t| >= 14
  {
    [t[3], t[5], t[7], t[9], t[11], t[13]]
  }

  predicate BeginsHexColour(t: string) {
    && |t| >= 14 && t[..14] == [SECTION, 'x'] + Spelled(SixDigits(t))
    && forall c | c in SixDigits(t) :: c != SECTION && DigitOf(LowerCode(c)).Some?
  }

  lemma PlainOfText(s: string, look: Look, rest: seq<Shown>)
    ensures TextOf(Text(s, look) + rest) == s + TextOf(rest)
  {
    TextOfAppend(Text(s, look), rest);
    assert TextOf(Text(s, look)) == s;
  }

  lemma HexColourIsTaken(t: string, text: Look, look: Look) returns (next: Look)
    requires BeginsHexColour(t)
    ensures Plain(t) == Plain(t[14..]) && Continued(t, text, look) == Continued(t[14..], next, next)
  {
    var digits := SixDigits(t);
    var d := seq(6, i requires 0 <= i < 6 => DigitOf(LowerCode(digits[i])).value);
    assert t == t[..14] + t[14..];
    AppendIsAssociative([SECTION, 'x'], Spelled(digits), t[14..]);
    CodedIsDropped('x', Spelled(digits) + t[14..]);
    SpelledIsDropped(digits, t[14..]);
    HexContinues(digits, d, t[14..], text, look);
    next := InColour(HexShade(d));
  }

  lemma {:induction false} WellCodedContinues(t: string, text: Look, look: Look)
    requires WellCoded(t)
    ensures TextOf(Continued(t, text, look)) == Plain(t)
    decreases |t|
  {
    if t == "" {
      assert Text("", text) == [];
    } else if t[0] != SECTION {
      assert t == [t[0]] + t[1..];
      GlyphContinues(t[0], t[1..], text, look);
      TextOfAppend([Shown(t[0], text)], Continued(t[1..], text, look));
      WellCodedContinues(t[1..], text, look);
    } else if LowerCode(t[1]) == 'x' {
      var next := HexColourIsTaken(t, text, look);
      WellCodedContinues(t[14..], next, next);
    } else {
      assert t == [SECTION, t[1]] + t[2..];
      CodeContinues(t[1], t[2..], text, look);
      var next := Coded(LowerCode(t[1]), look).value;
      WellCodedContinues(t[2..], next, next);
    }
  }

  /** Then the text the panel shows is what removing the codes leaves. */
  lemma PlainIsThePanelsText(t: string)
    requires WellCoded(t)
    ensures Plain(t) == TextOf(Panel.Panel(t))
  {
    WellCodedContinues(t, PLAIN, PLAIN);
  }

  lemma LiteralIsShown(t: string)
    requires SECTION !in t && IsLiteral([t])
    ensures TextOf(Panel.Panel([SECTION] + t)) == [SECTION] + t
  {
    Unsplit(t, SECTION);
    assert [t][1..] == [];
    LiteralContinues(t, PLAIN, PLAIN);
    assert Continued(t, PLAIN, PLAIN) == Text(t, PLAIN) by { assert Text(t, PLAIN) + [] == Text(t, PLAIN); }
    TextOfAppend([Shown(SECTION, PLAIN)], Text(t, PLAIN));
    assert TextOf(Text(t, PLAIN)) == t;
  }

  lemma UnknownIsLiteral(c: char, rest: string)
    requires LowerCode(c) == 'x' || Coded(LowerCode(c), PLAIN).None?
    ensures IsLiteral([[c] + rest])
  {
    assert [[c] + rest][1..] == [];
  }

  /** A sign that begins no code is shown by the panel with the text after it, and removed with one character by stripping. */
  lemma UnknownCodeIsShown(c: char, rest: string)
    requires c != SECTION && SECTION !in rest && (LowerCode(c) == 'x' || Coded(LowerCode(c), PLAIN).None?)
    ensures TextOf(Panel.Panel([SECTION] + ([c] + rest))) == [SECTION] + ([c] + rest)
    ensures Plain([SECTION] + ([c] + rest)) == Plain(rest)
  {
    UnknownIsLiteral(c, rest);
    LiteralIsShown([c] + rest);
    assert [SECTION] + ([c] + rest) == [SECTION, c] + rest;
    CodedIsDropped(c, rest);
  }
}
