/** `String::from_utf8_lossy`, and the byte strings it leaves alone. */
module Utf8 {
  import opened Bytes

  /** U+FFFD, in UTF-8. */
  const REPLACEMENT: seq<Byte> := [0xEF, 0xBF, 0xBD]

  /** Length of the code point a first byte announces; 0 when none begins so. */
  function Announced(first: Byte): nat {
    if first <= 0x7F then 1
    else if 0xC2 <= first <= 0xDF then 2
    else if 0xE0 <= first <= 0xEF then 3
    else if 0xF0 <= first <= 0xF4 then 4
    else 0
  }

  /** The second bytes that keep a code point shortest, below U+110000 and no surrogate. */
  predicate SecondFits(first: Byte, second: Byte) {
    if first == 0xE0 then 0xA0 <= second <= 0xBF
    else if first == 0xED then 0x80 <= second <= 0x9F
    else if first == 0xF0 then 0x90 <= second <= 0xBF
    else if first == 0xF4 then 0x80 <= second <= 0x8F
    else Continues(second)
  }

  predicate Continues(b: Byte) {
    0x80 <= b <= 0xBF
  }

  /** How many bytes at the front fit one code point, as far as they go. */
  function Fitting(b: seq<Byte>): (n: nat)
    requires b != []
    ensures n <= |b| && n <= Announced(b[0])
    ensures Announced(b[0]) > 0 ==> n > 0
  {
    var want := Announced(b[0]);
    if want <= 1 || |b| == 1 || !SecondFits(b[0], b[1]) then (if want == 0 then 0 else 1)
    else if want == 2 || |b| == 2 || !Continues(b[2]) then 2
    else if want == 3 || |b| == 3 || !Continues(b[3]) then 3
    else 4
  }

  predicate BeginsCodePoint(b: seq<Byte>) {
    b != [] && Announced(b[0]) > 0 && Fitting(b) == Announced(b[0])
  }

  /** Code points are kept; the longest fitting part of a broken one is replaced. */
  function Lossy(b: seq<Byte>): seq<Byte> {
    if b == [] then []
    else
      var n := Fitting(b);
      if BeginsCodePoint(b) then b[..n] + Lossy(b[n..])
      else
        var skip := if n == 0 then 1 else n;
        REPLACEMENT + Lossy(b[skip..])
  }

  /** A sequence of whole code points: what a Rust `str` can hold. */
  predicate Valid(b: seq<Byte>) {
    b == [] || (BeginsCodePoint(b) && Valid(b[Announced(b[0])..]))
  }

  lemma {:induction false} LossyKeepsValid(b: seq<Byte>)
    requires Valid(b)
    ensures Lossy(b) == b
    decreases |b|
  {
    if b != [] {
      LossyKeepsValid(b[Announced(b[0])..]);
    }
  }

  /** `b as char`, pushed onto a string: U+0000 to U+00FF. */
  function Latin1(b: Byte): seq<Byte> {
    if b <= 0x7F then [b] else [0xC0 + b / 64, 0x80 + b % 64]
  }

  /** The six bits a continuation byte carries. */
  function Low(b: Byte): int {
    b as int - 0x80
  }

  /** The number a whole code point stands for. */
  function CodePoint(b: seq<Byte>): int
    requires BeginsCodePoint(b) && |b| == Announced(b[0])
  {
    var first: int := b[0];
    if |b| == 1 then first
    else if |b| == 2 then (first - 0xC0) * 0x40 + Low(b[1])
    else if |b| == 3 then (first - 0xE0) * 0x1000 + Low(b[1]) * 0x40 + Low(b[2])
    else (first - 0xF0) * 0x40000 + Low(b[1]) * 0x1000 + Low(b[2]) * 0x40 + Low(b[3])
  }

  /** Code points are written in their shortest form, and surrogates not at all. */
  lemma CodePointsAreShortest(b: seq<Byte>)
    requires BeginsCodePoint(b) && |b| == Announced(b[0])
    ensures var n := CodePoint(b);
            && n < 0x110000 && !(0xD800 <= n < 0xE000)
            && |b| == if n < 0x80 then 1 else if n < 0x800 then 2 else if n < 0x10000 then 3 else 4
  {
  }

  /** ... and every number that is a code point has its bytes. */
  lemma EveryCodePointIsWritten(n: nat) returns (b: seq<Byte>)
    requires n < 0x110000 && !(0xD800 <= n < 0xE000)
    ensures BeginsCodePoint(b) && |b| == Announced(b[0]) && CodePoint(b) == n
  {
    var n1, r1 := n / 0x40, n % 0x40;
    var n2, r2 := n1 / 0x40, n1 % 0x40;
    var n3, r3 := n2 / 0x40, n2 % 0x40;
    if n < 0x80 {
      b := [n];
    } else if n < 0x800 {
      b := [0xC0 + n1, 0x80 + r1];
    } else if n < 0x10000 {
      b := [0xE0 + n2, 0x80 + r2, 0x80 + r1];
    } else {
      b := [0xF0 + n3, 0x80 + r3, 0x80 + r2, 0x80 + r1];
    }
  }

  /** A byte as a character is the code point of its number. */
  lemma Latin1IsTheCodePoint(b: Byte)
    ensures Valid(Latin1(b)) && |Latin1(b)| == Announced(Latin1(b)[0]) && CodePoint(Latin1(b)) == b
  {
  }

  lemma ValidAppend(a: seq<Byte>, b: seq<Byte>)
    requires Valid(a) && Valid(b)
    ensures Valid(a + b)
    decreases |a|
  {
    if a == [] {
      assert a + b == b;
    } else {
      var n := Announced(a[0]);
      assert (a + b)[n..] == a[n..] + b;
      ValidAppend(a[n..], b);
    }
  }

  /** Whatever it is given, lossy decoding gives whole code points. */
  lemma {:induction false} LossyIsValid(b: seq<Byte>)
    ensures Valid(Lossy(b))
    decreases |b|
  {
    if b != [] {
      var n := Fitting(b);
      if BeginsCodePoint(b) {
        LossyIsValid(b[n..]);
        assert b[..n][n..] == [];
        ValidAppend(b[..n], Lossy(b[n..]));
      } else {
        var skip := if n == 0 then 1 else n;
        LossyIsValid(b[skip..]);
        assert REPLACEMENT[3..] == [];
        ValidAppend(REPLACEMENT, Lossy(b[skip..]));
      }
    }
  }

  /** The beginning of some code point, or all of it. */
  ghost predicate BeginsAny(p: seq<Byte>) {
    exists c :: BeginsCodePoint(c) && |c| == Announced(c[0]) && |p| <= |c| && p == c[..|p|]
  }

  /** A way to go on from what fits so far. */
  function Completed(p: seq<Byte>): seq<Byte>
    requires p != [] && Announced(p[0]) > 0
  {
    var want := Announced(p[0]);
    var second: Byte := if p[0] == 0xE0 then 0xA0 else if p[0] == 0xF0 then 0x90 else 0x80;
    if want <= |p| then p
    else if |p| == 1 then p + ([second] + seq(want - 2, _ => 0x80))
    else p + seq(want - |p|, _ => 0x80)
  }

  /** What is replaced as one is as long as the beginning of a code point can be, and a byte where none begins. */
  lemma FittingIsLongest(b: seq<Byte>)
    requires b != []
    ensures BeginsAny(b[..Fitting(b)])
    ensures forall n | Fitting(b) < n <= |b| :: !BeginsAny(b[..n]) || BeginsCodePoint(b)
  {
    var n := Fitting(b);
    if n == 0 {
      assert BeginsCodePoint([0x41]) && b[..0] == [0x41][..0];
    } else {
      var c := Completed(b[..n]);
      assert BeginsCodePoint(c) && c[..n] == b[..n];
    }
    forall m | n < m <= |b| ensures !BeginsAny(b[..m]) || BeginsCodePoint(b) {
      if c :| BeginsCodePoint(c) && |c| == Announced(c[0]) && m <= |c| && b[..m] == c[..m] {
        assert forall i | 0 <= i < m :: b[i] == c[i] by {
          forall i | 0 <= i < m ensures b[i] == c[i] { assert b[..m][i] == c[..m][i]; }
        }
      }
    }
  }
}
