/**
 * Where an escape sequence ends (console/mod.rs, `ansi_to_section` and
 * `strip_ansi`), character by character, and what is read in it.
 */
module Escapes {
  import opened Wrappers
  import opened Bytes
  import opened Sequences
  import opened Ansi
  import opened Panel
  import opened Terminal
  import opened AnsiLooks

  /** A control sequence ends with its first character from `@` to `~`, or with the text. */
  ghost predicate ControlEnds(t: string, n: nat) {
    && n <= |t| && (forall k | 0 <= k < n - 1 :: !('@' <= t[k] <= '~'))
    && ((n > 0 && '@' <= t[n - 1] <= '~') || (n == |t| && (n > 0 ==> !('@' <= t[n - 1] <= '~'))))
  }

  /** The first BEL or escape of a text. */
  ghost predicate FirstEnd(t: string, k: nat) {
    && k < |t| && (t[k] == '\U{7}' || t[k] == '\U{1B}')
    && forall j | 0 <= j < k :: t[j] != '\U{7}' && t[j] != '\U{1B}'
  }

  /** An operating-system command ends with that BEL, with the character after that escape, or with the text. */
  ghost predicate CommandEnds(t: string, n: nat) {
    || (exists k: nat :: FirstEnd(t, k) && n == if t[k] == '\U{7}' || k + 1 == |t| then k + 1 else k + 2)
    || (n == |t| && forall k | 0 <= k < |t| :: t[k] != '\U{7}' && t[k] != '\U{1B}')
  }

  lemma ControlLength(t: string, n: nat)
    ensures ControlEnds(t, n) <==> n == if CsiLength(t) < |t| then CsiLength(t) + 1 else |t|
  {
    var c := CsiLength(t);
    assert c < |t| ==> '@' <= t[c] <= '~';
    assert forall k | 0 <= k < c :: !('@' <= t[k] <= '~');
  }

  lemma {:induction false} CommandLength(t: string)
    ensures CommandEnds(t, OscLength(t))
    decreases |t|
  {
    if t == "" {
    } else if t[0] == '\U{7}' || t[0] == '\U{1B}' {
      assert FirstEnd(t, 0);
    } else {
      CommandLength(t[1..]);
      if k: nat :| FirstEnd(t[1..], k) {
        assert FirstEnd(t, k + 1);
      }
    }
  }

  lemma OneCommandEnd(t: string, n: nat, m: nat)
    requires CommandEnds(t, n) && CommandEnds(t, m)
    ensures n == m
  {
  }

  /** An escape of the length `n` begins a text: one character alone, a control sequence, a command, or two characters. */
  ghost predicate EndsAt(s: string, n: nat)
    requires StartsEscape(s)
  {
    if |s| == 1 then n == 1
    else if s[1] == '[' then n >= 2 && ControlEnds(s[2..], n - 2)
    else if s[1] == ']' then n >= 2 && CommandEnds(s[2..], n - 2)
    else n == 2
  }

  lemma EscapeEndsExactly(s: string, n: nat)
    requires StartsEscape(s)
    ensures n == EscapeLength(s) <==> EndsAt(s, n)
  {
    if |s| > 1 && s[1] == '[' {
      if n >= 2 { ControlLength(s[2..], n - 2); }
    } else if |s| > 1 && s[1] == ']' {
      CommandLength(s[2..]);
      if n >= 2 && CommandEnds(s[2..], n - 2) { OneCommandEnd(s[2..], n - 2, OscLength(s[2..])); }
    }
  }

  /** What can have an effect is a control sequence that ends with `m`, by what stands between. */
  lemma OnlyGraphicsHaveEffects(s: string)
    requires StartsEscape(s) && EscapeEffects(s) != []
    ensures var n := EscapeLength(s);
            && n >= 3 && s[1] == '[' && s[n - 1] == 'm' && EscapeEffects(s) == EffectsOf(Split(s[2..n - 1], ';'))
  {
    assert s[2..][..CsiLength(s[2..])] == s[2..2 + CsiLength(s[2..])];
  }

  // ---- What a terminal acts on and the translation does not ----

  /** A number that stands for nothing here is passed over, the off-codes among them. */
  lemma OtherNumbersArePassedOver(p: string, rest: seq<string>)
    requires IsNumeral(p) && p != ""
    requires Number(p) !in {0, 1, 3, 4, 9, 38, 48} && !(30 <= Number(p) < 38) && !(90 <= Number(p) < 98)
    ensures EffectsOf([p] + rest) == EffectsOf(rest)
  {
    ParseIsNumber(p, U32_MAX);
    assert ([p] + rest)[1..] == rest && [] + EffectsOf(rest) == EffectsOf(rest);
  }

  /** An indexed colour is passed over with its index. */
  lemma IndexedColourIsPassedOver(p: string, kind: string, index: string, rest: seq<string>)
    requires IsNumeral(p) && p != "" && Number(p) in {38, 48} && IsNumeral(kind) && kind != "" && Number(kind) == 5
    ensures EffectsOf([p, kind, index] + rest) == EffectsOf(rest)
  {
    var parts := [p, kind, index] + rest;
    ParseIsNumber(p, U32_MAX);
    ParseIsNumber(kind, U32_MAX);
    assert parts[1..][1..] == [index] + rest && After([index] + rest, 1) == rest;
  }

  /** A colour channel that is missing, empty or over 255 counts as zero. */
  lemma ChannelsDefaultToZero(values: seq<string>, n: nat)
    requires AllNumerals(values)
    ensures Channel(values, n) == if n < |values| && values[n] != "" && Number(values[n]) < 256 then Number(values[n]) else 0
  {
    if n < |values| { ParseIsNumber(values[n], 255); }
  }

  /** Lists without off-codes and extended colours are taken as a terminal takes them, and so is a whole 24-bit colour. */
  lemma {:induction false} OrdinaryParametersAreSupported(values: seq<nat>)
    requires forall i | 0 <= i < |values| :: values[i] !in {21, 22, 23, 24, 29, 38, 39, 48}
    ensures Supported(values)
    decreases |values|
  {
    if values != [] { OrdinaryParametersAreSupported(values[1..]); }
  }

  lemma TrueColoursAreSupported(r: Byte, g: Byte, b: Byte, look: Look)
    ensures Supported([38, 2, r, g, b]) && Supported([48, 2, r, g, b])
    ensures Graphics([38, 2, r, g, b], look) == look.(shade := Some(TrueColour(r, g, b)))
    ensures Graphics([48, 2, r, g, b], look) == look
  {
    var rest := [2, r, g, b];
    assert [38, 2, r, g, b][1..] == rest && [48, 2, r, g, b][1..] == rest && rest[1..] == [r, g, b];
    assert Drop(rest, 4) == [];
  }

  lemma OneCode(code: nat, look: Look)
    requires code !in {38, 48}
    ensures Graphics([code], look) == Selected(code, look)
  {
    assert [code][1..] == [];
  }

  /** What the codes the translation does not know do in a terminal. */
  lemma OffCodesInATerminal(look: Look)
    ensures Graphics([22], look) == look.(bold := false) && Graphics([23], look) == look.(italic := false)
    ensures Graphics([24], look) == look.(underlined := false) && Graphics([29], look) == look.(struck := false)
    ensures Graphics([39], look) == look.(shade := None) && Graphics([21], look) == look.(underlined := true)
  {
    OneCode(21, look);
    OneCode(22, look);
    OneCode(23, look);
    OneCode(24, look);
    OneCode(29, look);
    OneCode(39, look);
  }

  lemma IndexedColoursInATerminal(look: Look, n: nat)
    ensures Graphics([38, 5, n], look) == look.(shade := Some(IndexedShade(n)))
    ensures IndexedShade(n) == if n < 16 then Sixteen(TerminalColour(n % 8, n >= 8)) else Indexed(n)
  {
    assert [38, 5, n][1..] == [5, n] && Drop([5, n], 2) == [];
  }
}
