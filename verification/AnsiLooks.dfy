/**
 * Lines of ordinary SGR sequences: exactly which effects a character may have
 * before it for the panel to show it in the terminal's look.
 */
module AnsiLooks {
  import opened Wrappers
  import opened Bytes
  import opened Sequences
  import opened Ansi
  import opened Panel
  import opened Terminal
  import opened AnsiMeaning

  // ---- What the translation takes from SGR parameters, and what a terminal does ----

  /** An effect in a terminal: a colour leaves the styles alone. */
  function TerminalEffect(e: Effect, look: Look): Look {
    match e
    case Reset => PLAIN
    case Bold => look.(bold := true)
    case Italic => look.(italic := true)
    case Underlined => look.(underlined := true)
    case Struck => look.(struck := true)
    case Named(colour) => look.(shade := Some(Sixteen(colour)))
    case Rgb(r, g, b) => look.(shade := Some(TrueColour(r, g, b)))
  }

  function InTerminal(effects: seq<Effect>, look: Look): Look {
    if effects == [] then look else InTerminal(effects[1..], TerminalEffect(effects[0], look))
  }

  /**
   * Parameters the translation knows or a terminal does not act on: nothing is
   * switched off on its own, no colour is indexed, no 24-bit channel is missing
   * or out of range.
   */
  predicate Supported(values: seq<nat>)
    decreases |values|
  {
    values != [] ==>
      var rest := values[1..];
      if values[0] == 38 then
        (rest != [] && rest[0] == 2 ==> TrueColourOf(rest[1..]).Some?) &&
        (rest != [] && rest[0] == 5 ==> |rest| == 1) &&
        Supported(Drop(rest, ExtendedLength(rest)))
      else if values[0] == 48 then Supported(Drop(rest, ExtendedLength(rest)))
      else values[0] !in {21, 22, 23, 24, 29, 39} && Supported(rest)
  }

  function Ascii(text: string): seq<Byte> {
    seq(|text|, i requires 0 <= i < |text| => if text[i] < '\U{80}' then text[i] as Byte else 255)
  }

  lemma {:induction false} NaturalIsNumber(text: string)
    requires IsNumeral(text)
    ensures Numbers.AllDigits(Ascii(text)) && Numbers.Natural(Ascii(text)) == Number(text)
    decreases |text|
  {
    if text != "" {
      var n := |text| - 1;
      NaturalIsNumber(text[..n]);
      assert Ascii(text)[..n] == Ascii(text[..n]);
    }
  }

  lemma ParseIsNumber(text: string, max: nat)
    requires IsNumeral(text)
    ensures Parse(text, max) == if text != "" && Number(text) <= max then Some(Number(text)) else None
  {
    NaturalIsNumber(text);
    var ascii := seq(|text|, i requires 0 <= i < |text| => if text[i] < '\U{80}' then text[i] as Byte else 255);
    assert ascii == Ascii(text);
    if text != "" {
      assert Numbers.IsDigit(ascii[0]);
    }
  }

  lemma ValuesAfter(parts: seq<string>, n: nat)
    requires AllNumerals(parts)
    ensures AllNumerals(After(parts, n))
    ensures Values(After(parts, n)) == Drop(Values(parts), n)
    ensures parts != [] ==> Values(parts[1..]) == Values(parts)[1..]
  {
  }

  lemma ChannelIsNumber(parts: seq<string>, n: nat)
    requires AllNumerals(parts) && n < |parts| && Number(parts[n]) < 256
    ensures Channel(parts, n) == Number(parts[n])
  {
    ParseIsNumber(parts[n], 255);
  }

  lemma SimpleIsSelected(code: nat, more: seq<Effect>, look: Look)
    requires code !in {21, 22, 23, 24, 29, 39}
    ensures InTerminal(Simple(code) + more, look) == InTerminal(more, Selected(code, look))
  {
    if Simple(code) == [] {
      assert [] + more == more;
    } else {
      assert (Simple(code) + more)[1..] == more;
    }
  }

  /** Three channels, for 38 and 2. */
  function ColourOf(foreground: bool, values: seq<string>): seq<Effect> {
    if foreground then [Rgb(Channel(values, 0), Channel(values, 1), Channel(values, 2))] else []
  }

  lemma TrueColourEffects(parts: seq<string>)
    requires AllNumerals(parts) && |parts| >= 2 && Number(parts[0]) in {38, 48} && Number(parts[1]) == 2
    ensures EffectsOf(parts) == ColourOf(Number(parts[0]) == 38, parts[1..][1..]) + EffectsOf(After(parts[1..][1..], 3))
  {
    ParseIsNumber(parts[0], U32_MAX);
    ParseIsNumber(parts[1], U32_MAX);
    assert parts[1..][0] == parts[1];
  }

  lemma OtherEffects(parts: seq<string>)
    requires AllNumerals(parts) && parts != [] && Number(parts[0]) in {38, 48} && (|parts| >= 2 ==> Number(parts[1]) != 2)
    ensures EffectsOf(parts)
            == EffectsOf(if |parts| == 1 then [] else if Number(parts[1]) == 5 then After(parts[1..][1..], 1) else parts[1..][1..])
  {
    ParseIsNumber(parts[0], U32_MAX);
    if |parts| >= 2 {
      ParseIsNumber(parts[1], U32_MAX);
      assert parts[1..][0] == parts[1];
    }
  }

  lemma AfterOneMore(parts: seq<string>, n: nat)
    requires |parts| >= 2
    ensures After(parts[1..][1..], n) == After(parts[1..], n + 1)
  {
  }

  /** The parameters after 38 or 48, in the translation. */
  lemma ExtendedEffects(parts: seq<string>)
    requires AllNumerals(parts) && parts != [] && Number(parts[0]) in {38, 48}
    ensures var rest := parts[1..];
            var more := EffectsOf(After(rest, ExtendedLength(Values(rest))));
            EffectsOf(parts) == if rest != [] && Number(rest[0]) == 2 then ColourOf(Number(parts[0]) == 38, rest[1..]) + more
                                else more
  {
    var rest := parts[1..];
    if rest == [] {
      OtherEffects(parts);
    } else if Number(rest[0]) == 2 {
      TrueColourEffects(parts);
      AfterOneMore(parts, 3);
    } else {
      OtherEffects(parts);
      AfterOneMore(parts, 1);
      assert rest[1..] == After(rest, 1);
    }
  }

  /** The colour of supported parameters is the same in both. */
  lemma TrueColourAgrees(values: seq<string>, more: seq<Effect>, look: Look)
    requires AllNumerals(values) && TrueColourOf(Values(values)).Some?
    ensures InTerminal(ColourOf(true, values) + more, look) == InTerminal(more, look.(shade := TrueColourOf(Values(values))))
  {
    ChannelIsNumber(values, 0);
    ChannelIsNumber(values, 1);
    ChannelIsNumber(values, 2);
    assert (ColourOf(true, values) + more)[1..] == more;
  }

  lemma ExtendedAgrees(parts: seq<string>, look: Look)
    requires AllNumerals(parts) && parts != [] && Number(parts[0]) in {38, 48}
    requires Supported(Values(parts))
    ensures var rest := parts[1..];
            var shade := ExtendedShade(Values(rest));
            var next := if Number(parts[0]) == 38 && shade.Some? then look.(shade := shade) else look;
            InTerminal(EffectsOf(parts), look) == InTerminal(EffectsOf(After(rest, ExtendedLength(Values(rest)))), next)
  {
    var rest := parts[1..];
    var more := EffectsOf(After(rest, ExtendedLength(Values(rest))));
    ValuesAfter(parts, 1);
    ExtendedEffects(parts);
    if rest != [] && Number(rest[0]) == 2 {
      ValuesAfter(rest, 1);
      if Number(parts[0]) == 38 {
        TrueColourAgrees(rest[1..], more, look);
      } else {
        assert [] + more == more;
      }
    }
  }

  lemma StaysSupported(values: seq<nat>)
    requires Supported(values) && values != []
    ensures values[0] in {38, 48} ==> Supported(Drop(values[1..], ExtendedLength(values[1..])))
    ensures values[0] !in {38, 48} ==> Supported(values[1..])
  {
  }

  lemma {:induction false} GraphicsAgree(parts: seq<string>, look: Look)
    requires AllNumerals(parts) && Supported(Values(parts))
    ensures Graphics(Values(parts), look) == InTerminal(EffectsOf(parts), look)
    decreases |parts|
  {
    if parts != [] {
      var rest, code := parts[1..], Number(parts[0]);
      ValuesAfter(parts, 1);
      StaysSupported(Values(parts));
      if code == 38 || code == 48 {
        var n, shade := ExtendedLength(Values(rest)), ExtendedShade(Values(rest));
        ExtendedAgrees(parts, look);
        ValuesAfter(rest, n);
        GraphicsAgree(After(rest, n), if code == 38 && shade.Some? then look.(shade := shade) else look);
      } else {
        ParseIsNumber(parts[0], U32_MAX);
        GraphicsAgree(rest, Selected(code, look));
        SimpleIsSelected(code, EffectsOf(rest), look);
      }
    }
  }

  /** An escape that is an SGR sequence of such parameters, or has no effect in either. */
  predicate SupportedEscape(s: string)
    requires StartsEscape(s)
  {
    match Parameters(s)
    case None => EscapeEffects(s) == []
    case Some(parts) => Supported(Values(parts))
  }

  lemma EscapesAgree(s: string, look: Look)
    requires StartsEscape(s) && SupportedEscape(s)
    ensures AfterEscape(s, look) == InTerminal(EscapeEffects(s), look)
  {
    match Parameters(s)
    case None =>
    case Some(parts) => GraphicsAgree(parts, look);
  }

  predicate AllSupported(s: string)
    decreases |s|
  {
    s != "" ==>
      if s[0] == ESC then SupportedEscape(s) && AllSupported(s[EscapeLength(s)..]) else AllSupported(s[1..])
  }

  // ---- The effects before a character ----

  predicate IsStyle(e: Effect) {
    e == Bold || e == Italic || e == Underlined || e == Struck
  }

  /** What clears the styles in the panel: a colour, as well as a reset. */
  predicate Clears(e: Effect) {
    e == Reset || e.Named? || e.Rgb?
  }

  /** Some `style` that no reset follows: a terminal still has it on. */
  ghost predicate OnInTerminal(style: Effect, effects: seq<Effect>) {
    exists i :: 0 <= i < |effects| && effects[i] == style && forall j | i < j < |effects| :: effects[j] != Reset
  }

  /** Some `style` that neither a reset nor a colour follows: the panel still has it on. */
  ghost predicate OnInPanel(style: Effect, effects: seq<Effect>) {
    exists i :: 0 <= i < |effects| && effects[i] == style && forall j | i < j < |effects| :: !Clears(effects[j])
  }

  /** Every style on in the terminal has been given again since the last colour. */
  ghost predicate StylesSurvive(effects: seq<Effect>) {
    forall style | IsStyle(style) :: OnInTerminal(style, effects) ==> OnInPanel(style, effects)
  }

  lemma PanelledAppend(effects: seq<Effect>, e: Effect, look: Look)
    ensures Panelled(effects + [e], look) == PanelEffect(e, Panelled(effects, look))
    ensures InTerminal(effects + [e], look) == TerminalEffect(e, InTerminal(effects, look))
    decreases |effects|
  {
    PanelledEffectsAppend(effects, [e], look);
    InTerminalAppend(effects, [e], look);
    assert [e][1..] == [];
  }

  lemma {:induction false} PanelledEffectsAppend(a: seq<Effect>, b: seq<Effect>, look: Look)
    ensures Panelled(a + b, look) == Panelled(b, Panelled(a, look))
    decreases |a|
  {
    if a == [] {
      assert a + b == b;
    } else {
      assert (a + b)[1..] == a[1..] + b;
      PanelledEffectsAppend(a[1..], b, PanelEffect(a[0], look));
    }
  }

  lemma {:induction false} InTerminalAppend(a: seq<Effect>, b: seq<Effect>, look: Look)
    ensures InTerminal(a + b, look) == InTerminal(b, InTerminal(a, look))
    decreases |a|
  {
    if a == [] {
      assert a + b == b;
    } else {
      assert (a + b)[1..] == a[1..] + b;
      InTerminalAppend(a[1..], b, TerminalEffect(a[0], look));
    }
  }

  lemma OnInTerminalAfter(style: Effect, effects: seq<Effect>, e: Effect)
    requires IsStyle(style)
    ensures OnInTerminal(style, effects + [e]) <==> e == style || (e != Reset && OnInTerminal(style, effects))
  {
    var n, more := |effects|, effects + [e];
    assert more[n] == e;
    if OnInTerminal(style, effects) && e != Reset {
      var i :| 0 <= i < n && effects[i] == style && forall j | i < j < n :: effects[j] != Reset;
      assert more[i] == style && forall j | i < j < n + 1 :: more[j] != Reset;
    }
    if OnInTerminal(style, more) && e != style {
      var i :| 0 <= i < n + 1 && more[i] == style && forall j | i < j < n + 1 :: more[j] != Reset;
      assert effects[i] == style && forall j | i < j < n :: effects[j] == more[j];
    }
  }

  lemma OnInPanelAfter(style: Effect, effects: seq<Effect>, e: Effect)
    requires IsStyle(style)
    ensures OnInPanel(style, effects + [e]) <==> e == style || (!Clears(e) && OnInPanel(style, effects))
  {
    var n, more := |effects|, effects + [e];
    assert more[n] == e;
    if OnInPanel(style, effects) && !Clears(e) {
      var i :| 0 <= i < n && effects[i] == style && forall j | i < j < n :: !Clears(effects[j]);
      assert more[i] == style && forall j | i < j < n + 1 :: !Clears(more[j]);
    }
    if OnInPanel(style, more) && e != style {
      var i :| 0 <= i < n + 1 && more[i] == style && forall j | i < j < n + 1 :: !Clears(more[j]);
      assert effects[i] == style && forall j | i < j < n :: effects[j] == more[j];
    }
  }

  /** A look, style by style. */
  function Has(look: Look, style: Effect): bool
    requires IsStyle(style)
  {
    match style
    case Bold => look.bold
    case Italic => look.italic
    case Underlined => look.underlined
    case Struck => look.struck
  }

  lemma {:induction false} StylesOfLooks(effects: seq<Effect>, style: Effect)
    requires IsStyle(style)
    ensures Has(Panelled(effects, PLAIN), style) <==> OnInPanel(style, effects)
    ensures Has(InTerminal(effects, PLAIN), style) <==> OnInTerminal(style, effects)
    ensures Panelled(effects, PLAIN).shade == InTerminal(effects, PLAIN).shade
    decreases |effects|
  {
    if effects != [] {
      var n := |effects| - 1;
      var before, e := effects[..n], effects[n];
      assert effects == before + [e];
      StylesOfLooks(before, style);
      PanelledAppend(before, e, PLAIN);
      OnInTerminalAfter(style, before, e);
      OnInPanelAfter(style, before, e);
    }
  }

  lemma PanelHasNoMore(effects: seq<Effect>, style: Effect)
    requires IsStyle(style) && OnInPanel(style, effects)
    ensures OnInTerminal(style, effects)
  {
    var i :| 0 <= i < |effects| && effects[i] == style && forall j | i < j < |effects| :: !Clears(effects[j]);
    assert forall j | i < j < |effects| :: effects[j] != Reset;
  }

  /** Panel and terminal have the same look exactly when every style has survived the colours after it. */
  lemma SameLook(effects: seq<Effect>)
    ensures Panelled(effects, PLAIN) == InTerminal(effects, PLAIN) <==> StylesSurvive(effects)
  {
    var p, t := Panelled(effects, PLAIN), InTerminal(effects, PLAIN);
    forall style | IsStyle(style)
      ensures (Has(p, style) <==> OnInPanel(style, effects)) && (Has(t, style) <==> OnInTerminal(style, effects))
      ensures p.shade == t.shade && (OnInPanel(style, effects) ==> OnInTerminal(style, effects))
    {
      StylesOfLooks(effects, style);
      if OnInPanel(style, effects) { PanelHasNoMore(effects, style); }
    }
    assert IsStyle(Bold) && IsStyle(Italic) && IsStyle(Underlined) && IsStyle(Struck);
    assert p == t <==> Has(p, Bold) == Has(t, Bold) && Has(p, Italic) == Has(t, Italic)
                       && Has(p, Underlined) == Has(t, Underlined) && Has(p, Struck) == Has(t, Struck);
  }

  predicate PlainAgain(effects: seq<Effect>) {
    effects != [] ==> effects[|effects| - 1] == Reset
  }

  lemma PlainExactly(effects: seq<Effect>)
    ensures InTerminal(effects, PLAIN) == PLAIN <==> PlainAgain(effects)
  {
    if effects != [] {
      var n := |effects| - 1;
      assert effects == effects[..n] + [effects[n]];
      PanelledAppend(effects[..n], effects[n], PLAIN);
    }
  }

  /** The condition on the effects before each character; after a literal sign text is plain in the panel. */
  ghost predicate EffectsAgree(s: string, before: seq<Effect>, literal: bool)
    decreases |s|
  {
    s != "" ==>
      if s[0] == ESC then
        EffectsAgree(s[EscapeLength(s)..], before + EscapeEffects(s), literal && EscapeEffects(s) == [])
      else
        var plain := literal || s[0] == SECTION;
        (if plain then PlainAgain(before) else StylesSurvive(before)) && EffectsAgree(s[1..], before, plain)
  }

  lemma {:induction false} LooksAgreeByEffects(s: string, before: seq<Effect>, literal: bool)
    requires AllSupported(s)
    ensures LooksAgree(s, Panelled(before, PLAIN), InTerminal(before, PLAIN), literal) <==> EffectsAgree(s, before, literal)
    decreases |s|
  {
    if s == "" {
    } else if s[0] == ESC {
      var effects := EscapeEffects(s);
      EscapesAgree(s, InTerminal(before, PLAIN));
      PanelledEffectsAppend(before, effects, PLAIN);
      InTerminalAppend(before, effects, PLAIN);
      LooksAgreeByEffects(s[EscapeLength(s)..], before + effects, literal && effects == []);
    } else {
      SameLook(before);
      PlainExactly(before);
      LooksAgreeByEffects(s[1..], before, literal || s[0] == SECTION);
    }
  }

  /**
   * A line of ordinary SGR sequences is shown by the panel as by the terminal,
   * text and look, exactly when its section signs are literal and, before each
   * character, every style has been given again since the last colour.
   */
  lemma OrdinaryLinesKeepTheirLook(s: string)
    requires AllSupported(s)
    ensures Panel.Panel(Translated(s)) == Display(s, PLAIN) <==> AllLiteral(s) && EffectsAgree(s, [], false)
  {
    TranslationKeepsTheLook(s);
    LooksAgreeByEffects(s, [], false);
  }

  // ---- Two lines that change their look ----

  /** An SGR sequence and what follows it. */
  function Sgr(params: string, t: string): string {
    [ESC, '['] + (params + (['m'] + t))
  }

  predicate HoldsNoFinal(params: string) {
    forall i | 0 <= i < |params| :: !IsFinal(params[i])
  }

  lemma SgrIsRead(params: string, t: string)
    requires HoldsNoFinal(params)
    ensures var s := Sgr(params, t);
            && StartsEscape(s) && EscapeLength(s) == |params| + 3 && s[EscapeLength(s)..] == t
            && EscapeEffects(s) == EffectsOf(Parts(params))
            && (AllNumerals(Parts(params)) ==> Parameters(s) == Some(Parts(params)))
  {
    var s := Sgr(params, t);
    var inner := params + (['m'] + t);
    assert s[2..] == inner && inner[|params|] == 'm' && s[2 + |params|] == 'm';
    assert forall k | 0 <= k < |params| :: inner[k] == params[k];
    assert CsiLength(inner) == |params|;
    assert inner[..|params|] == params;
    assert s[|params| + 3..] == t;
  }

  lemma OneNumeral(p: string)
    requires IsNumeral(p)
    ensures Parts(p) == [p]
  {
    assert ';' !in p;
    Unsplit(p, ';');
  }

  lemma NoFinals()
    ensures HoldsNoFinal("1") && HoldsNoFinal("22") && HoldsNoFinal("1;31")
  {
  }

  lemma NumbersRead()
    ensures IsNumeral("1") && Number("1") == 1 && IsNumeral("22") && Number("22") == 22 && IsNumeral("31") && Number("31") == 31
  {
    assert "1"[..0] == "" && "2"[..0] == "" && "3"[..0] == "" && "22"[..1] == "2" && "31"[..1] == "3";
    assert Number("2") == 2 && Number("3") == 3;
  }

  lemma BoldRedParts()
    ensures Parts("1;31") == ["1", "31"]
  {
    Unsplit("31", ';');
    assert "1;31"[1..] == ";31" && ";31"[1..] == "31";
    assert Split(";31", ';') == ["", "31"];
    assert ["", "31"][1..] == ["31"] && ['1'] + "" == "1";
  }

  const RED := Some(Sixteen(TerminalColour(1, false)))

  lemma BoldRed()
    ensures EffectsOf(["1", "31"]) == [Bold, Named(TerminalColour(1, false))]
    ensures Graphics(Values(["1", "31"]), PLAIN) == Look(RED, true, false, false, false)
    ensures AllNumerals(["1", "31"]) && Panelled([Bold, Named(TerminalColour(1, false))], PLAIN) == InColour(RED.value)
  {
    NumbersRead();
    ParseIsNumber("1", U32_MAX);
    ParseIsNumber("31", U32_MAX);
    assert ["1", "31"][1..] == ["31"] && ["31"][1..] == [];
    assert EffectsOf(["31"]) == [Named(TerminalColour(1, false))];
    assert Values(["1", "31"]) == [1, 31] && [1, 31][1..] == [31] && [31][1..] == [];
    var effects := [Bold, Named(TerminalColour(1, false))];
    assert effects[1..] == [Named(TerminalColour(1, false))] && effects[1..][1..] == [];
  }

  /** One SGR sequence on, in the panel and in the terminal. */
  lemma SgrStep(params: string, t: string, panel: Look, terminal: Look)
    requires HoldsNoFinal(params) && AllNumerals(Parts(params))
    ensures var s, effects := Sgr(params, t), EffectsOf(Parts(params));
            && Seen(s, panel, false) == Seen(t, Panelled(effects, panel), false)
            && Display(s, terminal) == Display(t, Graphics(Values(Parts(params)), terminal))
            && (AllLiteral(s) <==> AllLiteral(t))
  {
    SgrIsRead(params, t);
  }

  lemma GlyphStep(c: char, t: string, panel: Look, terminal: Look)
    requires c != ESC && c != SECTION
    ensures Seen([c] + t, panel, false) == [Shown(c, panel)] + Seen(t, panel, false)
    ensures Display([c] + t, terminal) == [Shown(c, terminal)] + Display(t, terminal)
    ensures AllLiteral([c] + t) <==> AllLiteral(t)
  {
    assert ([c] + t)[1..] == t;
  }

  /** Bold and then red: the panel shows red, and not bold. */
  lemma BoldIsLostToAColour()
    ensures var s := Sgr("1;31", "X");
            && Panel.Panel(Translated(s)) == [Shown('X', Look(RED, false, false, false, false))]
            && Display(s, PLAIN) == [Shown('X', Look(RED, true, false, false, false))]
  {
    NoFinals();
    BoldRedParts();
    BoldRed();
    SgrStep("1;31", "X", PLAIN, PLAIN);
    GlyphStep('X', "", InColour(RED.value), Look(RED, true, false, false, false));
    assert ['X'] + "" == "X";
    PanelShowsTheText(Sgr("1;31", "X"));
  }

  lemma BoldOn()
    ensures EffectsOf(["1"]) == [Bold] && Panelled([Bold], PLAIN) == Look(None, true, false, false, false)
    ensures Graphics(Values(["1"]), PLAIN) == Look(None, true, false, false, false)
    ensures EffectsOf(["22"]) == [] && Graphics(Values(["22"]), Look(None, true, false, false, false)) == PLAIN
  {
    NumbersRead();
    ParseIsNumber("1", U32_MAX);
    ParseIsNumber("22", U32_MAX);
    assert ["1"][1..] == [] && ["22"][1..] == [] && [Bold][1..] == [];
    assert Values(["1"]) == [1] && Values(["22"]) == [22] && [1][1..] == [] && [22][1..] == [];
  }

  const BOLD := Look(None, true, false, false, false)

  lemma OffCodeRead()
    ensures var b := Sgr("22", "B");
            AllLiteral(b) && Seen(b, BOLD, false) == [Shown('B', BOLD)] && Display(b, BOLD) == [Shown('B', PLAIN)]
  {
    NoFinals();
    NumbersRead();
    OneNumeral("22");
    BoldOn();
    GlyphStep('B', "", BOLD, PLAIN);
    assert ['B'] + "" == "B";
    SgrStep("22", "B", BOLD, BOLD);
    assert Panelled([], BOLD) == BOLD;
  }

  lemma BoldOnRead(t: string)
    ensures var s := Sgr("1", t);
            && Seen(s, PLAIN, false) == Seen(t, BOLD, false) && Display(s, PLAIN) == Display(t, BOLD)
            && (AllLiteral(s) <==> AllLiteral(t))
  {
    NoFinals();
    NumbersRead();
    OneNumeral("1");
    BoldOn();
    SgrStep("1", t, PLAIN, PLAIN);
  }

  /** Bold switched off again by 22: in the panel it stays on. */
  lemma OffCodeIsMissed()
    ensures var s := Sgr("1", ['A'] + Sgr("22", "B"));
            && Panel.Panel(Translated(s)) == [Shown('A', BOLD), Shown('B', BOLD)]
            && Display(s, PLAIN) == [Shown('A', BOLD), Shown('B', PLAIN)]
  {
    var b := Sgr("22", "B");
    OffCodeRead();
    GlyphStep('A', b, BOLD, BOLD);
    BoldOnRead(['A'] + b);
    PanelShowsTheText(Sgr("1", ['A'] + b));
  }
}
