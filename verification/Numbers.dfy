/** Reading and writing whole numbers, as Rust's `str::parse` reads them. */
module Numbers {
  import opened Wrappers
  import opened Bytes

  const PLUS: Byte := 43
  const MINUS: Byte := 45

  predicate IsDigit(c: Byte) {
    48 <= c <= 57
  }

  predicate AllDigits(s: seq<Byte>) {
    forall i | 0 <= i < |s| :: IsDigit(s[i])
  }

  function Natural(digits: seq<Byte>): nat
    requires AllDigits(digits)
  {
    if digits == [] then 0
    else
      assert IsDigit(digits[|digits| - 1]);
      Natural(digits[..|digits| - 1]) * 10 + (digits[|digits| - 1] - 48)
  }

  /** The digits of a number without its sign. */
  function Unsigned(s: seq<Byte>): Option<nat> {
    if s == [] || !AllDigits(s) then None else Some(Natural(s))
  }

  /** `parse` for a type that spans `low..high`; only signed types take a minus. */
  function ParseInt(s: seq<Byte>, low: int, high: int): Option<int> {
    if s == [] then None
    else
      var signed := s[0] == PLUS || (s[0] == MINUS && low < 0);
      match Unsigned(if signed then s[1..] else s)
      case None => None
      case Some(n) =>
        var v: int := if signed && s[0] == MINUS then -(n as int) else n as int;
        if low <= v <= high then Some(v) else None
  }

  function Digits(n: nat): (d: seq<Byte>)
    ensures d != [] && AllDigits(d)
  {
    if n < 10 then [48 + n] else Digits(n / 10) + [48 + n % 10]
  }

  function Decimal(v: int): (d: seq<Byte>)
    ensures d != [] && IsDigit(d[|d| - 1])
  {
    if v < 0 then [MINUS] + Digits(-v) else Digits(v)
  }

  lemma {:induction false} NaturalReadsDigits(n: nat)
    ensures Natural(Digits(n)) == n
    decreases n
  {
    if n < 10 {
      assert [48 + n][..0] == [];
    } else {
      NaturalReadsDigits(n / 10);
      assert (Digits(n / 10) + [48 + n % 10])[..|Digits(n / 10)|] == Digits(n / 10);
    }
  }

  lemma ParseReadsDecimal(v: int, low: int, high: int)
    requires low <= v <= high && (v < 0 ==> low < 0)
    ensures ParseInt(Decimal(v), low, high) == Some(v)
  {
    if v < 0 {
      NaturalReadsDigits(-v);
      assert ([MINUS] + Digits(-v))[1..] == Digits(-v);
    } else {
      NaturalReadsDigits(v);
      assert IsDigit(Digits(v)[0]);
    }
  }

  /** A number as `format!` writes it. */
  function DecimalText(v: int): (s: string)
    ensures forall c | c in s :: c == '-' || '0' <= c <= '9'
  {
    var d := Decimal(v);
    assert v < 0 ==> d[0] == MINUS && d[1..] == Digits(-v);
    assert forall i | 0 <= i < |d| :: d[i] == MINUS || IsDigit(d[i]);
    seq(|d|, i requires 0 <= i < |d| => d[i] as char)
  }
}
