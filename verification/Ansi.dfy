/**
 * Terminal escapes and Minecraft section codes (console/mod.rs,
 * `ansi_to_section`, `push_sgr`, `push_hex`, `strip_ansi`, `strip_formatting`).
 */
module Ansi {
  import opened Wrappers
  import opened Bytes
  import opened Sequences
  import Numbers

  const ESC := '\U{1B}'
  const BEL := '\U{07}'
  const SECTION := '\U{A7}'
  const U32_MAX: nat := 0xFFFF_FFFF

  /** One of sixteen colours, by the lamps that are lit. */
  datatype Colour = Colour(red: bool, green: bool, blue: bool, bright: bool)

  datatype Effect = Reset | Bold | Italic | Underlined | Struck | Named(colour: Colour) | Rgb(r: Byte, g: Byte, b: Byte)

  // ---- Escape sequences ----

  /** The bytes that end a control sequence. */
  predicate IsFinal(c: char) {
    '\U{40}' <= c <= '\U{7E}'
  }

  /** How far the final byte of a control sequence is away. */
  function CsiLength(s: string): (n: nat)
    ensures n <= |s| && (n < |s| ==> IsFinal(s[n])) && forall k | 0 <= k < n :: !IsFinal(s[k])
  {
    if s == "" || IsFinal(s[0]) then 0 else 1 + CsiLength(s[1..])
  }

  /** The length of an operating-system command, with its end: BEL, or ESC and one more. */
  function OscLength(s: string): (n: nat)
    ensures n <= |s|
  {
    if s == "" then 0
    else if s[0] == BEL then 1
    else if s[0] == ESC then (if |s| == 1 then 1 else 2)
    else 1 + OscLength(s[1..])
  }

  predicate StartsEscape(s: string) {
    s != "" && s[0] == ESC
  }

  function EscapeLength(s: string): (n: nat)
    requires StartsEscape(s)
    ensures 1 <= n <= |s|
  {
    if |s| == 1 then 1
    else if s[1] == '[' then (if CsiLength(s[2..]) == |s| - 2 then |s| else CsiLength(s[2..]) + 3)
    else if s[1] == ']' then 2 + OscLength(s[2..])
    else 2
  }

  /** The effects an escape has, none unless it is an SGR sequence. */
  function EscapeEffects(s: string): seq<Effect>
    requires StartsEscape(s)
  {
    if |s| == 1 || s[1] != '[' then []
    else
      var n := CsiLength(s[2..]);
      if n < |s| - 2 && s[2 + n] == 'm' then EffectsOf(Parts(s[2..][..n])) else []
  }

  // ---- SGR parameters ----

  function Parts(params: string): seq<string> {
    Split(params, ';')
  }

  /** `parse` on an unsigned type. */
  function Parse(text: string, max: nat): (r: Option<nat>)
    ensures r.Some? ==> r.value <= max
  {
    var ascii := seq(|text|, i requires 0 <= i < |text| => if text[i] < '\U{80}' then text[i] as Byte else 255);
    match Numbers.ParseInt(ascii, 0, max) case None => None case Some(v) => Some(v)
  }

  /** What is left of the parameters after `n` of them. */
  function After(parts: seq<string>, n: nat): seq<string> {
    if |parts| <= n then [] else parts[n..]
  }

  function Channel(parts: seq<string>, n: nat): Byte {
    if |parts| <= n then 0 else match Parse(parts[n], 255) case None => 0 case Some(v) => v
  }

  /** A terminal numbers its colours with red as the lowest bit. */
  function TerminalColour(n: nat, bright: bool): Colour
    requires n < 8
  {
    Colour(n % 2 == 1, n / 2 % 2 == 1, n / 4 == 1, bright)
  }

  /** The effect of a parameter that stands alone, as a list of one or none. */
  function Simple(code: nat): seq<Effect> {
    if code == 0 then [Reset]
    else if code == 1 then [Bold]
    else if code == 3 then [Italic]
    else if code == 4 then [Underlined]
    else if code == 9 then [Struck]
    else if 30 <= code < 38 then [Named(TerminalColour(code - 30, false))]
    else if 90 <= code < 98 then [Named(TerminalColour(code - 90, true))]
    else []
  }

  /**
   * The effects of SGR parameters in order. An omitted parameter means zero
   * and an unreadable one is passed over; `38;2;r;g;b` is a colour, and the
   * background (48) and the indexed form (5) take their parameters without
   * an effect.
   */
  function EffectsOf(parts: seq<string>): seq<Effect>
    decreases |parts|
  {
    if parts == [] then []
    else
      var rest := parts[1..];
      var code := if parts[0] == "" then Some(0) else Parse(parts[0], U32_MAX);
      if code.None? then EffectsOf(rest)
      else if code.value == 38 || code.value == 48 then
        if rest == [] then []
        else
          var kind, values := Parse(rest[0], U32_MAX), rest[1..];
          if kind == Some(2) then
            (if code.value == 38 then [Rgb(Channel(values, 0), Channel(values, 1), Channel(values, 2))] else [])
            + EffectsOf(After(values, 3))
          else if kind == Some(5) then EffectsOf(After(values, 1))
          else EffectsOf(values)
      else Simple(code.value) + EffectsOf(rest)
  }

  // ---- Section codes ----

  type Digit = x: int | 0 <= x < 16

  function HexDigit(v: Digit): char {
    if v < 10 then '0' + v as char else 'a' + (v - 10) as char
  }

  function Bit(b: bool): nat {
    if b then 1 else 0
  }

  /** Minecraft numbers its colours with blue as the lowest bit and brightness as the highest. */
  function GameNumber(c: Colour): Digit {
    8 * Bit(c.bright) + 4 * Bit(c.red) + 2 * Bit(c.green) + Bit(c.blue)
  }

  function Letter(e: Effect): char
    requires !e.Rgb?
  {
    match e
    case Reset => 'r'
    case Bold => 'l'
    case Italic => 'o'
    case Underlined => 'n'
    case Struck => 'm'
    case Named(colour) => HexDigit(GameNumber(colour))
  }

  function HexPair(v: Byte): (s: string)
    ensures |s| == 4
  {
    [SECTION, HexDigit(v / 16), SECTION, HexDigit(v % 16)]
  }

  function Code(e: Effect): string {
    if e.Rgb? then [SECTION, 'x'] + (HexPair(e.r) + (HexPair(e.g) + HexPair(e.b))) else [SECTION, Letter(e)]
  }

  function Codes(effects: seq<Effect>): string {
    if effects == [] then "" else Code(effects[0]) + Codes(effects[1..])
  }

  lemma CodesOfOne(e: Effect, rest: seq<Effect>)
    ensures Codes([e] + rest) == Code(e) + Codes(rest)
  {
    assert ([e] + rest)[1..] == rest;
  }

  // ---- The functions the methods below compute ----

  function Translated(s: string): string
    decreases |s|
  {
    if s == "" then ""
    else if s[0] == ESC then Codes(EscapeEffects(s)) + Translated(s[EscapeLength(s)..])
    else [s[0]] + Translated(s[1..])
  }

  function Stripped(s: string): string
    decreases |s|
  {
    if s == "" then ""
    else if s[0] == ESC then Stripped(s[EscapeLength(s)..])
    else [s[0]] + Stripped(s[1..])
  }

  function Plain(s: string): string
    decreases |s|
  {
    if s == "" then ""
    else if s[0] == SECTION then (if |s| == 1 then "" else Plain(s[2..]))
    else [s[0]] + Plain(s[1..])
  }

  // ---- Methods ----

  const DARK: seq<(nat, char)> :=
    [(30, '0'), (34, '1'), (32, '2'), (36, '3'), (31, '4'), (35, '5'), (33, '6'), (37, '7')]
  const BRIGHT: seq<(nat, char)> :=
    [(90, '8'), (94, '9'), (92, 'a'), (96, 'b'), (91, 'c'), (95, 'd'), (93, 'e'), (97, 'f')]
  const ANSI_COLOURS: seq<(nat, char)> := DARK + BRIGHT

  /** The row of the table for the colour with a given Minecraft number. */
  predicate RowIsRight(i: nat)
    requires i < 16
  {
    var row, lamps := ANSI_COLOURS[i], i % 8;
    && row.0 == (if i < 8 then 30 else 90) + lamps / 4 + 2 * (lamps / 2 % 2) + 4 * (lamps % 2)
    && row.1 == HexDigit(i)
  }

  lemma TableIsRight(i: nat)
    requires i < 16
    ensures RowIsRight(i)
  {
    assert DARK[0] == (30, '0') && DARK[1] == (34, '1') && DARK[2] == (32, '2') && DARK[3] == (36, '3');
    assert DARK[4] == (31, '4') && DARK[5] == (35, '5') && DARK[6] == (33, '6') && DARK[7] == (37, '7');
    assert BRIGHT[0] == (90, '8') && BRIGHT[1] == (94, '9') && BRIGHT[2] == (92, 'a') && BRIGHT[3] == (96, 'b');
    assert BRIGHT[4] == (91, 'c') && BRIGHT[5] == (95, 'd') && BRIGHT[6] == (93, 'e') && BRIGHT[7] == (97, 'f');
  }

  predicate IsColour(code: nat) {
    30 <= code < 38 || 90 <= code < 98
  }

  /** The place of a colour in the table. */
  function Row(code: nat): (i: nat)
    requires IsColour(code)
    ensures i < 16
  {
    GameNumber(TerminalColour(if code < 90 then code - 30 else code - 90, code >= 90))
  }

  lemma RowHasTheCode(code: nat)
    requires IsColour(code)
    ensures ANSI_COLOURS[Row(code)] == (code, HexDigit(Row(code)))
  {
    TableIsRight(Row(code));
  }

  lemma CodesAreColours(i: nat)
    requires i < 16
    ensures IsColour(ANSI_COLOURS[i].0) && Row(ANSI_COLOURS[i].0) == i
  {
    TableIsRight(i);
  }

  /** `ANSI_COLOURS.iter().find(..)`: the section code of the same colour, or nothing. */
  method FindColour(code: nat) returns (found: Option<char>)
    ensures found == if IsColour(code) then Some(HexDigit(Row(code))) else None
  {
    var i := 0;
    while i < 16
      invariant i <= 16
      invariant IsColour(code) ==> Row(code) >= i
    {
      CodesAreColours(i);
      if ANSI_COLOURS[i].0 == code {
        RowHasTheCode(code);
        return Some(ANSI_COLOURS[i].1);
      }
      if IsColour(code) {
        RowHasTheCode(code);
      }
      i := i + 1;
    }
    found := None;
  }

  method PushHex(rgb: seq<Byte>, out: string) returns (r: string)
    requires |rgb| == 3
    ensures r == out + Code(Rgb(rgb[0], rgb[1], rgb[2]))
  {
    r := out + [SECTION, 'x'];
    var i := 0;
    while i < 3
      invariant i <= 3
      invariant r == (out + [SECTION, 'x']) + Pairs(rgb[..i])
    {
      PairsGrow(rgb[..i], rgb[i]);
      assert rgb[..i + 1] == rgb[..i] + [rgb[i]];
      r := r + HexPair(rgb[i]);
      i := i + 1;
    }
    assert rgb[..3] == rgb;
    PairsOfThree(rgb);
    AppendIsAssociative(out, [SECTION, 'x'], Pairs(rgb));
  }

  function Pairs(values: seq<Byte>): string {
    if values == [] then "" else Pairs(values[..|values| - 1]) + HexPair(values[|values| - 1])
  }

  lemma PairsGrow(values: seq<Byte>, v: Byte)
    ensures Pairs(values + [v]) == Pairs(values) + HexPair(v)
  {
    assert (values + [v])[..|values|] == values;
  }

  lemma PairsOfThree(rgb: seq<Byte>)
    requires |rgb| == 3
    ensures Pairs(rgb) == HexPair(rgb[0]) + (HexPair(rgb[1]) + HexPair(rgb[2]))
  {
    assert rgb == (([] + [rgb[0]]) + [rgb[1]]) + [rgb[2]];
    PairsGrow([], rgb[0]);
    PairsGrow([] + [rgb[0]], rgb[1]);
    PairsGrow(([] + [rgb[0]]) + [rgb[1]], rgb[2]);
  }

  /** The section code of a parameter that stands alone. */
  method PushSimple(code: nat, out: string) returns (r: string)
    ensures r == out + Codes(Simple(code))
  {
    var found := FindColour(code);
    r := out;
    if code == 0 { r := out + [SECTION, 'r']; }
    else if code == 1 { r := out + [SECTION, 'l']; }
    else if code == 3 { r := out + [SECTION, 'o']; }
    else if code == 4 { r := out + [SECTION, 'n']; }
    else if code == 9 { r := out + [SECTION, 'm']; }
    else if found.Some? { r := out + [SECTION, found.value]; }
    CodesOfSimple(code);
  }

  lemma CodesOfSimple(code: nat)
    ensures Codes(Simple(code)) == if Simple(code) == [] then "" else Code(Simple(code)[0])
  {
    if Simple(code) != [] {
      CodesOfOne(Simple(code)[0], []);
      assert Simple(code) == [Simple(code)[0]] + [];
      assert Code(Simple(code)[0]) + Codes([]) == Code(Simple(code)[0]);
    }
  }

  /** Reading three colour channels off the parameters. */
  method TakeRgb(parts: seq<string>) returns (rgb: seq<Byte>, rest: seq<string>)
    ensures rgb == [Channel(parts, 0), Channel(parts, 1), Channel(parts, 2)]
    ensures rest == After(parts, 3)
  {
    rgb, rest := [], parts;
    var i := 0;
    while i < 3
      invariant i <= 3 && |rgb| == i
      invariant forall k | 0 <= k < i :: rgb[k] == Channel(parts, k)
      invariant rest == After(parts, i)
    {
      var channel: Byte := 0;
      if rest != [] {
        var v := Parse(rest[0], 255);
        channel := if v.Some? then v.value else 0;
        rest := rest[1..];
      }
      rgb := rgb + [channel];
      i := i + 1;
    }
  }

  lemma CodesAppend(a: seq<Effect>, b: seq<Effect>)
    ensures Codes(a + b) == Codes(a) + Codes(b)
  {
    if a == [] {
      assert a + b == b;
    } else {
      assert (a + b)[1..] == a[1..] + b;
      CodesAppend(a[1..], b);
      AppendIsAssociative(Code(a[0]), Codes(a[1..]), Codes(b));
    }
  }

  /** What is left to write: `done` followed by the codes of the remaining parameters. */
  ghost predicate Written(done: string, parts: seq<string>, all: string) {
    done + Codes(EffectsOf(parts)) == all
  }

  /** One step of translating parameters writes the codes of the effects it takes off the front. */
  lemma StepWrites(done: string, parts: seq<string>, step: seq<Effect>, rest: seq<string>, all: string)
    requires Written(done, parts, all) && EffectsOf(parts) == step + EffectsOf(rest)
    ensures Written(done + Codes(step), rest, all)
  {
    CodesAppend(step, EffectsOf(rest));
    AppendIsAssociative(done, Codes(step), Codes(EffectsOf(rest)));
  }

  method PushSgr(params: string, out: string) returns (r: string)
    ensures r == out + Codes(EffectsOf(Parts(params)))
  {
    ghost var all := out + Codes(EffectsOf(Parts(params)));
    r := out;
    var parts := Parts(params);
    while parts != []
      invariant Written(r, parts, all)
      decreases |parts|
    {
      var part, rest := parts[0], parts[1..];
      var code := if part == "" then Some(0) else Parse(part, U32_MAX);
      if code.Some? {
        if code.value == 38 || code.value == 48 {
          r, rest := PushExtended(code.value == 38, rest, r, parts, all);
        } else {
          StepWrites(r, parts, Simple(code.value), rest, all);
          r := PushSimple(code.value, r);
        }
      }
      parts := rest;
    }
  }

  lemma CodesOfOneAlone(e: Effect)
    ensures Codes([e]) == Code(e)
  {
    CodesOfOne(e, []);
    assert [e] + [] == [e] && Code(e) + "" == Code(e);
  }

  /** What `38;2` and `48;2` come to. */
  lemma ColourStep(foreground: bool, parts: seq<string>)
    requires |parts| >= 2 && parts[0] != ""
    requires Parse(parts[0], U32_MAX) == Some(if foreground then 38 else 48)
    requires Parse(parts[1..][0], U32_MAX) == Some(2)
    ensures var values := parts[1..][1..];
            && (foreground ==>
              EffectsOf(parts)
              == [Rgb(Channel(values, 0), Channel(values, 1), Channel(values, 2))] + EffectsOf(After(values, 3)))
            && (!foreground ==> EffectsOf(parts) == EffectsOf(After(values, 3)))
  {
  }

  /** How many of the parameters after 38 or 48 belong to it. */
  function Taken(next: seq<string>): nat {
    if next == [] then 0
    else
      match Parse(next[0], U32_MAX)
      case Some(2) => 4
      case Some(5) => 2
      case _ => 1
  }

  /** The branch for 38 and 48: a colour given by what follows. */
  method PushExtended(foreground: bool, next: seq<string>, out: string, ghost parts: seq<string>, ghost all: string)
    returns (r: string, rest: seq<string>)
    requires parts != [] && next == parts[1..]
    requires Parse(parts[0], U32_MAX) == Some(if foreground then 38 else 48)
    requires parts[0] != "" && Written(out, parts, all)
    ensures Written(r, rest, all) && rest == After(next, Taken(next))
  {
    r, rest := out, next;
    if rest == [] {
      return;
    }
    var kind := Parse(rest[0], U32_MAX);
    rest := rest[1..];
    if kind == Some(2) {
      var rgb, left := TakeRgb(rest);
      ColourStep(foreground, parts);
      if foreground {
        ghost var colour := Rgb(rgb[0], rgb[1], rgb[2]);
        StepWrites(out, parts, [colour], left, all);
        CodesOfOneAlone(colour);
        r := PushHex(rgb, out);
      }
      rest := left;
    } else if kind == Some(5) {
      if rest != [] {
        rest := rest[1..];
      }
    }
  }

  /** A control sequence from `start` on, its parameters and its final byte. */
  method ReadCsi(input: string, start: nat) returns (params: string, last: Option<char>, i: nat)
    requires start <= |input|
    ensures start <= i <= |input|
    ensures var n := CsiLength(input[start..]);
            && params == input[start..][..n]
            && last == (if start + n < |input| then Some(input[start + n]) else None)
            && i == start + n + (if last.Some? then 1 else 0)
  {
    params, last, i := "", None, start;
    while i < |input|
      invariant start <= i <= |input|
      invariant params == input[start..i]
      invariant forall k | start <= k < i :: !IsFinal(input[k])
    {
      var c := input[i];
      i := i + 1;
      if IsFinal(c) {
        assert input[start..][CsiLength(input[start..])] == input[start + CsiLength(input[start..])];
        return params, Some(c), i;
      }
      params := params + [c];
    }
  }

  /** The end of an operating-system command. */
  method SkipOsc(input: string, start: nat) returns (i: nat)
    requires start <= |input|
    ensures i == start + OscLength(input[start..]) <= |input|
  {
    i := start;
    while i < |input|
      invariant start <= i <= |input|
      invariant i + OscLength(input[i..]) == start + OscLength(input[start..])
    {
      var c := input[i];
      assert input[i..][1..] == input[i + 1..];
      i := i + 1;
      if c == BEL {
        break;
      }
      if c == ESC {
        if i < |input| {
          i := i + 1;
        }
        break;
      }
    }
  }

  /** Where an escape ends, and its parameters when it is an SGR sequence. */
  method ReadEscape(input: string, start: nat) returns (i: nat, sgr: Option<string>)
    requires start < |input| && input[start] == ESC
    ensures i == start + EscapeLength(input[start..]) <= |input|
    ensures EscapeEffects(input[start..]) == match sgr case None => [] case Some(params) => EffectsOf(Parts(params))
  {
    i, sgr := start + 1, None;
    if i < |input| {
      var kind := input[i];
      i := i + 1;
      assert input[start..][2..] == input[i..];
      if kind == '[' {
        var params, last, next := ReadCsi(input, i);
        i := next;
        if last == Some('m') {
          sgr := Some(params);
        }
      } else if kind == ']' {
        i := SkipOsc(input, i);
      }
    }
  }

  method AnsiToSection(input: string) returns (out: string)
    ensures out == Translated(input)
  {
    out := "";
    var i := 0;
    while i < |input|
      invariant 0 <= i <= |input|
      invariant out + Translated(input[i..]) == Translated(input)
    {
      var c := input[i];
      if c != ESC {
        AppendIsAssociative(out, [c], Translated(input[i + 1..]));
        assert input[i..][1..] == input[i + 1..];
        out := out + [c];
        i := i + 1;
      } else {
        var next, sgr := ReadEscape(input, i);
        ghost var codes := Codes(EscapeEffects(input[i..]));
        AppendIsAssociative(out, codes, Translated(input[next..]));
        assert input[i..][next - i..] == input[next..];
        if sgr.Some? {
          out := PushSgr(sgr.value, out);
        } else {
          assert out + codes == out;
        }
        i := next;
      }
    }
    assert out + "" == out;
  }

  method StripAnsi(input: string) returns (out: string)
    ensures out == Stripped(input)
  {
    out := "";
    var i := 0;
    while i < |input|
      invariant 0 <= i <= |input|
      invariant out + Stripped(input[i..]) == Stripped(input)
    {
      var c := input[i];
      if c != ESC {
        AppendIsAssociative(out, [c], Stripped(input[i + 1..]));
        assert input[i..][1..] == input[i + 1..];
        out := out + [c];
        i := i + 1;
      } else {
        var next, _ := ReadEscape(input, i);
        assert input[i..][next - i..] == input[next..];
        i := next;
      }
    }
    assert out + "" == out;
  }

  method StripFormatting(input: string) returns (out: string)
    ensures out == Plain(input)
  {
    out := "";
    var i := 0;
    while i < |input|
      invariant 0 <= i <= |input|
      invariant out + Plain(input[i..]) == Plain(input)
    {
      var c := input[i];
      assert input[i..][1..] == input[i + 1..];
      i := i + 1;
      if c == SECTION {
        if i < |input| {
          assert input[i - 1..][2..] == input[i + 1..];
          i := i + 1;
        }
      } else {
        AppendIsAssociative(out, [c], Plain(input[i..]));
        out := out + [c];
      }
    }
    assert out + "" == out;
  }
}
