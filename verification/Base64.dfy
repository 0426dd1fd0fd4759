/**
 * The hand-written base64 encoder (routes/auth/common.rs, `base64_encode`)
 * against the decoder of section 4 of RFC 4648.
 */
module Base64 {
  import opened Wrappers
  import opened Bytes
  import opened Sequences

  const UPPER_A_M := "ABCDEFGHIJKLM"
  const UPPER_N_Z := "NOPQRSTUVWXYZ"
  const LOWER_A_M := "abcdefghijklm"
  const LOWER_N_Z := "nopqrstuvwxyz"
  const DIGITS := "0123456789"
  const CHARS: string := (UPPER_A_M + UPPER_N_Z) + ((LOWER_A_M + LOWER_N_Z) + (DIGITS + "+/"))

  const PAD := '='

  type Sextet = x: int | 0 <= x < 64

  function Letter(v: Sextet): char {
    CHARS[v]
  }

  /** The place of a character in the alphabet. */
  function ValueOf(c: char): Option<Sextet> {
    if 'A' <= c <= 'Z' then Some(c as int - 'A' as int)
    else if 'a' <= c <= 'z' then Some(c as int - 'a' as int + 26)
    else if '0' <= c <= '9' then Some(c as int - '0' as int + 52)
    else if c == '+' then Some(62)
    else if c == '/' then Some(63)
    else None
  }

  /** Characters one after another in the character set. */
  ghost predicate Consecutive(s: string, first: char) {
    forall i | 0 <= i < |s| :: s[i] as int == first as int + i
  }

  lemma UpperIsConsecutive()
    ensures Consecutive(UPPER_A_M + UPPER_N_Z, 'A')
  {
    assert UPPER_A_M[0] == 'A' && UPPER_A_M[1] == 'B' && UPPER_A_M[2] == 'C' && UPPER_A_M[3] == 'D' && UPPER_A_M[4] == 'E' &&
           UPPER_A_M[5] == 'F' && UPPER_A_M[6] == 'G' && UPPER_A_M[7] == 'H' && UPPER_A_M[8] == 'I' && UPPER_A_M[9] == 'J' &&
           UPPER_A_M[10] == 'K' && UPPER_A_M[11] == 'L' && UPPER_A_M[12] == 'M';
    assert UPPER_N_Z[0] == 'N' && UPPER_N_Z[1] == 'O' && UPPER_N_Z[2] == 'P' && UPPER_N_Z[3] == 'Q' && UPPER_N_Z[4] == 'R' &&
           UPPER_N_Z[5] == 'S' && UPPER_N_Z[6] == 'T' && UPPER_N_Z[7] == 'U' && UPPER_N_Z[8] == 'V' && UPPER_N_Z[9] == 'W' &&
           UPPER_N_Z[10] == 'X' && UPPER_N_Z[11] == 'Y' && UPPER_N_Z[12] == 'Z';
  }

  lemma LowerIsConsecutive()
    ensures Consecutive(LOWER_A_M + LOWER_N_Z, 'a')
  {
    assert LOWER_A_M[0] == 'a' && LOWER_A_M[1] == 'b' && LOWER_A_M[2] == 'c' && LOWER_A_M[3] == 'd' && LOWER_A_M[4] == 'e' &&
           LOWER_A_M[5] == 'f' && LOWER_A_M[6] == 'g' && LOWER_A_M[7] == 'h' && LOWER_A_M[8] == 'i' && LOWER_A_M[9] == 'j' &&
           LOWER_A_M[10] == 'k' && LOWER_A_M[11] == 'l' && LOWER_A_M[12] == 'm';
    assert LOWER_N_Z[0] == 'n' && LOWER_N_Z[1] == 'o' && LOWER_N_Z[2] == 'p' && LOWER_N_Z[3] == 'q' && LOWER_N_Z[4] == 'r' &&
           LOWER_N_Z[5] == 's' && LOWER_N_Z[6] == 't' && LOWER_N_Z[7] == 'u' && LOWER_N_Z[8] == 'v' && LOWER_N_Z[9] == 'w' &&
           LOWER_N_Z[10] == 'x' && LOWER_N_Z[11] == 'y' && LOWER_N_Z[12] == 'z';
  }

  lemma DigitsAreConsecutive()
    ensures Consecutive(DIGITS, '0')
  {
    assert DIGITS[0] == '0' && DIGITS[1] == '1' && DIGITS[2] == '2' && DIGITS[3] == '3' && DIGITS[4] == '4' &&
           DIGITS[5] == '5' && DIGITS[6] == '6' && DIGITS[7] == '7' && DIGITS[8] == '8' && DIGITS[9] == '9';
  }

  /** The alphabet of RFC 4648, letter by letter. */
  lemma Alphabet(v: Sextet)
    ensures CHARS[v] as int ==
            if v < 26 then 'A' as int + v else if v < 52 then 'a' as int + v - 26
            else if v < 62 then '0' as int + v - 52 else if v == 62 then '+' as int else '/' as int
  {
    UpperIsConsecutive();
    LowerIsConsecutive();
    DigitsAreConsecutive();
  }

  lemma LetterHasItsValue(v: Sextet)
    ensures ValueOf(Letter(v)) == Some(v) && Letter(v) != PAD
  {
    Alphabet(v);
  }

  lemma ValueHasItsLetter(c: char)
    requires ValueOf(c).Some?
    ensures Letter(ValueOf(c).value) == c
  {
    Alphabet(ValueOf(c).value);
  }

  /** Eight-bit bytes cut into six-bit pieces, most significant first; the last is filled up with zeros. */
  function Sextets(chunk: seq<Byte>): (v: seq<Sextet>)
    requires 1 <= |chunk| <= 3
    ensures |v| == |chunk| + 1
  {
    var b0: int := chunk[0];
    var b1: int := if |chunk| > 1 then chunk[1] else 0;
    var b2: int := if |chunk| > 2 then chunk[2] else 0;
    var v0: Sextet := b0 / 4;
    var v1: Sextet := b0 % 4 * 16 + b1 / 16;
    var v2: Sextet := b1 % 16 * 4 + b2 / 64;
    var v3: Sextet := b2 % 64;
    [v0, v1, v2, v3][..|chunk| + 1]
  }

  /** The bytes that sextets were cut from, when the bits they were filled up with are zero. */
  function Joined(v: seq<Sextet>): (r: Option<seq<Byte>>)
    requires 2 <= |v| <= 4
    ensures r.Some? ==> |r.value| == |v| - 1
  {
    var v0: int, v1: int := v[0], v[1];
    var v2: int := if |v| > 2 then v[2] else 0;
    var v3: int := if |v| > 3 then v[3] else 0;
    var b0: Byte := v0 * 4 + v1 / 16;
    var b1: Byte := v1 % 16 * 16 + v2 / 4;
    var b2: Byte := v2 % 4 * 64 + v3;
    if (|v| == 2 && v1 % 16 != 0) || (|v| == 3 && v2 % 4 != 0) then None else Some([b0, b1, b2][..|v| - 1])
  }

  /** Four characters: a letter for each sextet, then padding. */
  function Written(v: seq<Sextet>): (g: string)
    requires 2 <= |v| <= 4
    ensures |g| == 4
    ensures forall i | 0 <= i < |v| :: g[i] == Letter(v[i])
    ensures forall i | |v| <= i < 4 :: g[i] == PAD
  {
    [Letter(v[0]), Letter(v[1]), if |v| > 2 then Letter(v[2]) else PAD, if |v| > 3 then Letter(v[3]) else PAD]
  }

  /** The sextets of a group of letters followed by at most two characters of padding. */
  function Read(g: string): (r: Option<seq<Sextet>>)
    requires |g| == 4
    ensures r.Some? ==> 2 <= |r.value| <= 4
  {
    var n := if g[2] == PAD && g[3] == PAD then 2 else if g[3] == PAD then 3 else 4;
    if exists i | 0 <= i < n :: ValueOf(g[i]).None? then None
    else Some(seq(n, i requires 0 <= i < n => ValueOf(g[i]).value))
  }

  lemma WrittenIsRead(v: seq<Sextet>)
    requires 2 <= |v| <= 4
    ensures Read(Written(v)) == Some(v)
  {
    forall i | 0 <= i < |v| ensures ValueOf(Written(v)[i]) == Some(v[i]) && Written(v)[i] != PAD {
      LetterHasItsValue(v[i]);
    }
    assert Read(Written(v)).value == v;
  }

  lemma ReadIsWritten(g: string)
    requires |g| == 4 && Read(g).Some?
    ensures Written(Read(g).value) == g
  {
    var v := Read(g).value;
    forall i | 0 <= i < |v| ensures Letter(v[i]) == g[i] {
      ValueHasItsLetter(g[i]);
    }
  }

  lemma CutIsJoined(chunk: seq<Byte>)
    requires 1 <= |chunk| <= 3
    ensures Joined(Sextets(chunk)) == Some(chunk)
  {
    var v := Sextets(chunk);
    var b0: int, b1: int := v[0] * 4 + v[1] as int / 16, if |v| > 2 then v[1] as int % 16 * 16 + v[2] as int / 4 else 0;
    assert b0 == chunk[0] && (|chunk| > 1 ==> b1 == chunk[1]);
    assert Joined(v).value == chunk;
  }

  lemma JoinedIsCut(v: seq<Sextet>)
    requires 2 <= |v| <= 4 && Joined(v).Some?
    ensures Sextets(Joined(v).value) == v
  {
    assert Sextets(Joined(v).value) == v;
  }

  function Encoded(data: seq<Byte>): string {
    if data == [] then ""
    else if |data| <= 3 then Written(Sextets(data))
    else Written(Sextets(data[..3])) + Encoded(data[3..])
  }

  /** Decoding group by group; padding may stand in the last group only. */
  function Decode(s: string): Option<seq<Byte>> {
    if s == "" then Some([])
    else if |s| < 4 || Read(s[..4]).None? then None
    else
      match Joined(Read(s[..4]).value)
      case None => None
      case Some(bytes) =>
        if |s| == 4 then Some(bytes)
        else if |bytes| < 3 then None
        else match Decode(s[4..]) case None => None case Some(rest) => Some(bytes + rest)
  }

  /** Three bytes as one number, and the six bits of it above `shift`. */
  function Triple(b0: Byte, b1: Byte, b2: Byte): nat {
    (b0 as int) * 65536 + (b1 as int) * 256 + b2 as int
  }

  lemma Divides(d: nat, q: nat, r: nat)
    requires d in {64, 4096, 262144} && r < d
    ensures (d * q + r) / d == q && (d * q + r) % d == r
  {
    if d == 64 {
    } else if d == 4096 {
    } else {
    }
  }

  lemma FirstSextet(b0: Byte, b1: Byte, b2: Byte)
    ensures Triple(b0, b1, b2) / 262144 == b0 / 4
  {
    var high: nat, low: nat := b0 / 4, b0 % 4;
    assert b0 == 4 * high + low;
    assert Triple(b0, b1, b2) == 262144 * high + (low * 65536 + b1 * 256 + b2);
    Divides(262144, high, low * 65536 + b1 * 256 + b2);
  }

  lemma SecondSextet(b0: Byte, b1: Byte, b2: Byte)
    ensures Triple(b0, b1, b2) / 4096 % 64 == b0 % 4 * 16 + b1 / 16
  {
    var high0: nat, low0: nat, high1: nat, low1: nat := b0 / 4, b0 % 4, b1 / 16, b1 % 16;
    assert b0 == 4 * high0 + low0 && b1 == 16 * high1 + low1;
    assert Triple(b0, b1, b2) == 4096 * (64 * high0 + (low0 * 16 + high1)) + (low1 * 256 + b2);
    Divides(4096, 64 * high0 + (low0 * 16 + high1), low1 * 256 + b2);
    Divides(64, high0, low0 * 16 + high1);
  }

  lemma ThirdSextet(b0: Byte, b1: Byte, b2: Byte)
    ensures Triple(b0, b1, b2) / 64 % 64 == b1 % 16 * 4 + b2 / 64
  {
    var high1: nat, low1: nat, high2: nat, low2: nat := b1 / 16, b1 % 16, b2 / 64, b2 % 64;
    assert b1 == 16 * high1 + low1 && b2 == 64 * high2 + low2;
    assert Triple(b0, b1, b2) == 64 * (64 * (b0 * 16 + high1) + (low1 * 4 + high2)) + low2;
    Divides(64, 64 * (b0 * 16 + high1) + (low1 * 4 + high2), low2);
    Divides(64, b0 * 16 + high1, low1 * 4 + high2);
  }

  lemma FourthSextet(b0: Byte, b1: Byte, b2: Byte)
    ensures Triple(b0, b1, b2) % 64 == b2 % 64
  {
    var high2: nat, low2: nat := b2 / 64, b2 % 64;
    assert b2 == 64 * high2 + low2;
    assert Triple(b0, b1, b2) == 64 * (b0 * 1024 + b1 * 4 + high2) + low2;
    Divides(64, b0 * 1024 + b1 * 4 + high2, low2);
  }

  /** One turn of the loop: the four characters of one chunk. */
  method EncodeChunk(chunk: seq<Byte>) returns (group: string)
    requires 1 <= |chunk| <= 3
    ensures group == Written(Sextets(chunk))
  {
    var b0 := chunk[0];
    var b1: Byte := if |chunk| > 1 then chunk[1] else 0;
    var b2: Byte := if |chunk| > 2 then chunk[2] else 0;
    var triple := Triple(b0, b1, b2);
    FirstSextet(b0, b1, b2);
    SecondSextet(b0, b1, b2);
    ThirdSextet(b0, b1, b2);
    FourthSextet(b0, b1, b2);
    var v0: Sextet, v1: Sextet := triple / 262144, triple / 4096 % 64;
    var v2: Sextet, v3: Sextet := triple / 64 % 64, triple % 64;
    var third, fourth := PAD, PAD;
    if |chunk| > 1 {
      third := Letter(v2);
    }
    if |chunk| > 2 {
      fourth := Letter(v3);
    }
    group := [Letter(v0), Letter(v1), third, fourth];
  }

  lemma EncodedFrom(data: seq<Byte>, i: nat, end: nat)
    requires i < |data| && end == if i + 3 <= |data| then i + 3 else |data|
    ensures Encoded(data[i..]) == Written(Sextets(data[i..end])) + Encoded(data[end..])
  {
    assert data[i..][..end - i] == data[i..end] && data[i..][end - i..] == data[end..];
    if |data[i..]| <= 3 {
      assert data[i..end] == data[i..];
      assert Encoded(data[end..]) == "";
    }
  }

  method Encode(data: seq<Byte>) returns (result: string)
    ensures result == Encoded(data)
  {
    result := "";
    var i := 0;
    while i < |data|
      invariant 0 <= i <= |data|
      invariant result + Encoded(data[i..]) == Encoded(data)
    {
      var end := if i + 3 <= |data| then i + 3 else |data|;
      var group := EncodeChunk(data[i..end]);
      EncodedFrom(data, i, end);
      AppendIsAssociative(result, group, Encoded(data[end..]));
      result := result + group;
      i := end;
    }
    assert result + "" == result;
  }

  lemma EncodedIsNotEmpty(data: seq<Byte>)
    ensures Encoded(data) == "" <==> data == []
  {
  }

  lemma {:induction false} EncodingDecodes(data: seq<Byte>)
    ensures Decode(Encoded(data)) == Some(data)
    decreases |data|
  {
    if data == [] {
    } else {
      var n := if |data| <= 3 then |data| else 3;
      var v, rest := Sextets(data[..n]), Encoded(data[n..]);
      CutIsJoined(data[..n]);
      WrittenIsRead(v);
      EncodingDecodes(data[n..]);
      EncodedIsNotEmpty(data[n..]);
      assert data == data[..n] + data[n..];
      assert |data| <= 3 ==> data[..n] == data;
      assert Encoded(data) == Written(v) + rest;
      assert (Written(v) + rest)[..4] == Written(v) && (Written(v) + rest)[4..] == rest;
    }
  }

  lemma {:induction false} DecodingEncodes(s: string)
    requires Decode(s).Some?
    ensures Encoded(Decode(s).value) == s
    decreases |s|
  {
    if s != "" {
      var v := Read(s[..4]).value;
      var bytes := Joined(v).value;
      ReadIsWritten(s[..4]);
      JoinedIsCut(v);
      assert s == s[..4] + s[4..];
      if |s| > 4 {
        DecodingEncodes(s[4..]);
        var rest := Decode(s[4..]).value;
        EncodedIsNotEmpty(rest);
        assert (bytes + rest)[..3] == bytes && (bytes + rest)[3..] == rest;
      }
    }
  }

  /** Encoding and decoding undo each other: a text decodes to `data` exactly when it is its encoding. */
  lemma DecodesExactlyTheEncoding(data: seq<Byte>, s: string)
    ensures Decode(s) == Some(data) <==> s == Encoded(data)
  {
    EncodingDecodes(data);
    if Decode(s) == Some(data) {
      DecodingEncodes(s);
    }
  }

  /** How many characters of padding the encoding of `n` bytes ends in. */
  function Padding(n: nat): nat {
    if n % 3 == 0 then 0 else 3 - n % 3
  }

  lemma {:induction false} EncodedLength(data: seq<Byte>)
    ensures |Encoded(data)| == 4 * ((|data| + 2) / 3)
    decreases |data|
  {
    if |data| > 3 {
      EncodedLength(data[3..]);
    }
  }

  lemma PaddingRepeats(n: nat)
    requires n > 3
    ensures Padding(n) == Padding(n - 3) <= 2
  {
    assert n % 3 == (n - 3) % 3;
  }

  lemma WrittenPadding(v: seq<Sextet>, i: nat)
    requires 2 <= |v| <= 4 && i < 4
    ensures Written(v)[i] == PAD <==> i >= |v|
  {
    if i < |v| {
      LetterHasItsValue(v[i]);
    }
  }

  /** Padding stands for what is missing of the last three bytes, and nowhere else. */
  lemma {:induction false} PaddingEndsTheText(data: seq<Byte>, i: nat)
    requires i < |Encoded(data)|
    ensures Encoded(data)[i] == PAD <==> i >= |Encoded(data)| - Padding(|data|)
    decreases |data|
  {
    if |data| <= 3 {
      WrittenPadding(Sextets(data), i);
    } else {
      var group, rest := Written(Sextets(data[..3])), Encoded(data[3..]);
      assert Encoded(data) == group + rest;
      PaddingRepeats(|data|);
      if i < 4 {
        WrittenPadding(Sextets(data[..3]), i);
        EncodedLength(data[3..]);
        assert |rest| >= 4;
      } else {
        PaddingEndsTheText(data[3..], i - 4);
      }
    }
  }

  /** Four characters for every three bytes or part of three, and padding only at the end. */
  lemma LengthAndPadding(data: seq<Byte>)
    ensures |Encoded(data)| == 4 * ((|data| + 2) / 3)
    ensures forall i | 0 <= i < |Encoded(data)| ::
              Encoded(data)[i] == PAD <==> i >= |Encoded(data)| - Padding(|data|)
  {
    EncodedLength(data);
    forall i | 0 <= i < |Encoded(data)|
      ensures Encoded(data)[i] == PAD <==> i >= |Encoded(data)| - Padding(|data|)
    {
      PaddingEndsTheText(data, i);
    }
  }
}
