/**
 * How a terminal shows a line: SGR parameters as ECMA-48 defines them (section
 * 8.3.117), with the 24-bit and indexed colours of ITU-T T.416 in their
 * semicolon form. Colour and the four styles the panel knows make up a look.
 */
module Terminal {
  import opened Wrappers
  import opened Sequences
  import opened Ansi
  import opened Panel

  predicate IsNumeral(text: string) {
    forall i | 0 <= i < |text| :: '0' <= text[i] <= '9'
  }

  /** Decimal, zero when nothing is written. */
  function Number(text: string): nat
    requires IsNumeral(text)
  {
    if text == "" then 0
    else
      var n := |text| - 1;
      assert '0' <= text[n] <= '9';
      Number(text[..n]) * 10 + (text[n] as int - '0' as int)
  }

  predicate AllNumerals(parts: seq<string>) {
    forall i | 0 <= i < |parts| :: IsNumeral(parts[i])
  }

  function Values(parts: seq<string>): (v: seq<nat>)
    requires AllNumerals(parts)
    ensures |v| == |parts| && forall i | 0 <= i < |v| :: v[i] == Number(parts[i])
  {
    seq(|parts|, i requires 0 <= i < |parts| => Number(parts[i]))
  }

  /** The shade of an indexed colour: the first sixteen are the named ones. */
  function IndexedShade(n: nat): Shade {
    if n < 8 then Sixteen(TerminalColour(n, false))
    else if n < 16 then Sixteen(TerminalColour(n - 8, true))
    else Indexed(n)
  }

  /** A parameter that stands alone. */
  function Selected(code: nat, look: Look): Look {
    if code == 0 then PLAIN
    else if code == 1 then look.(bold := true)
    else if code == 3 then look.(italic := true)
    else if code == 4 || code == 21 then look.(underlined := true)
    else if code == 9 then look.(struck := true)
    else if code == 22 then look.(bold := false)
    else if code == 23 then look.(italic := false)
    else if code == 24 then look.(underlined := false)
    else if code == 29 then look.(struck := false)
    else if code == 39 then look.(shade := None)
    else if 30 <= code < 38 then look.(shade := Some(Sixteen(TerminalColour(code - 30, false))))
    else if 90 <= code < 98 then look.(shade := Some(Sixteen(TerminalColour(code - 90, true))))
    else look
  }

  function Drop(values: seq<nat>, n: nat): (r: seq<nat>)
    ensures |r| <= |values| && (n > 0 && values != [] ==> |r| < |values|)
  {
    if |values| <= n then [] else values[n..]
  }

  /** A 24-bit colour has to have its three channels, each in range. */
  function TrueColourOf(values: seq<nat>): Option<Shade> {
    if |values| >= 3 && values[0] < 256 && values[1] < 256 && values[2] < 256
    then Some(TrueColour(values[0], values[1], values[2]))
    else None
  }

  /** What follows 38: the colour, if there is one. */
  function ExtendedShade(rest: seq<nat>): Option<Shade> {
    if rest == [] then None
    else if rest[0] == 2 then TrueColourOf(rest[1..])
    else if rest[0] == 5 && |rest| >= 2 then Some(IndexedShade(rest[1]))
    else None
  }

  /** How many of the parameters after 38 or 48 belong to it. */
  function ExtendedLength(rest: seq<nat>): nat {
    if rest == [] then 0 else if rest[0] == 2 then 4 else if rest[0] == 5 then 2 else 1
  }

  function Graphics(values: seq<nat>, look: Look): Look
    decreases |values|
  {
    if values == [] then look
    else
      var rest := values[1..];
      if values[0] == 38 then
        var shade := ExtendedShade(rest);
        Graphics(Drop(rest, ExtendedLength(rest)), if shade.Some? then look.(shade := shade) else look)
      else if values[0] == 48 then Graphics(Drop(rest, ExtendedLength(rest)), look)
      else Graphics(rest, Selected(values[0], look))
  }

  /** The parameters of an SGR sequence, if the escape is one: numerals, nothing private. */
  function Parameters(s: string): Option<seq<string>>
    requires StartsEscape(s)
  {
    if |s| == 1 || s[1] != '[' then None
    else
      var n := CsiLength(s[2..]);
      var parts := Split(s[2..][..n], ';');
      if n < |s| - 2 && s[2 + n] == 'm' && AllNumerals(parts) then Some(parts) else None
  }

  function AfterEscape(s: string, look: Look): Look
    requires StartsEscape(s)
  {
    match Parameters(s)
    case None => look
    case Some(parts) => Graphics(Values(parts), look)
  }

  function Display(s: string, look: Look): seq<Shown>
    decreases |s|
  {
    if s == "" then []
    else if s[0] == ESC then Display(s[EscapeLength(s)..], AfterEscape(s, look))
    else [Shown(s[0], look)] + Display(s[1..], look)
  }
}
