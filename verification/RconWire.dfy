/**
 * RCON packets on the wire (rcon.rs): `i32 length | i32 id | i32 type | body NUL
 * | NUL`, little-endian, where the length counts everything after itself.
 */
module RconWire {
  import opened Wrappers
  import opened Bytes
  import opened Sequences
  import Utf8

  const MAX_PACKET := 8192
  /** The longest body whose packet a reader accepts. */
  const MAX_BODY: nat := 8182

  const TWO_32 := 0x1_0000_0000

  /** 32-bit two's complement. */
  function Wrap32(v: int): int {
    var u := v % TWO_32;
    if u >= TWO_32 / 2 then u - TWO_32 else u
  }

  predicate IsI32(v: int) {
    -0x8000_0000 <= v < 0x8000_0000
  }

  function ToLe(v: int): (b: seq<Byte>)
    requires IsI32(v)
    ensures |b| == 4
  {
    var u := v % TWO_32;
    [u % 256, u / 256 % 256, u / 65536 % 256, u / 16777216]
  }

  function FromLe(b: seq<Byte>): (v: int)
    requires |b| == 4
    ensures IsI32(v)
  {
    var u := b[0] as int + 256 * (b[1] as int) + 65536 * (b[2] as int) + 16777216 * (b[3] as int);
    if u >= TWO_32 / 2 then u - TWO_32 else u
  }

  lemma LittleEndianReadsBack(v: int)
    requires IsI32(v)
    ensures FromLe(ToLe(v)) == v
  {
    var u := v % TWO_32;
    var q := u / 256;
    var r := q / 256;
    assert u == q * 256 + u % 256;
    assert q == r * 256 + q % 256;
    assert r == (r / 256) * 256 + r % 256;
    assert u / 65536 == r;
    assert u / 16777216 == r / 256;
  }

  datatype Packet = Packet(id: int, kind: int, body: seq<Byte>)

  datatype WireError = ClosedEarly | LengthOutOfRange(length: int)

  /** The length field is computed in 32 bits, body length included. */
  function LengthField(body: seq<Byte>): (n: int)
    ensures IsI32(n)
  {
    Wrap32(4 + 4 + Wrap32(|body|) + 2)
  }

  function Encoded(p: Packet): seq<Byte>
    requires IsI32(p.id) && IsI32(p.kind)
  {
    ToLe(LengthField(p.body)) + (ToLe(p.id) + (ToLe(p.kind) + (p.body + [0, 0])))
  }

  method EncodePacket(id: int, kind: int, body: seq<Byte>) returns (out: seq<Byte>)
    requires IsI32(id) && IsI32(kind)
    ensures out == Encoded(Packet(id, kind, body))
  {
    out := ToLe(LengthField(body));
    out := out + ToLe(id);
    out := out + ToLe(kind);
    out := out + body;
    out := out + [0];
    out := out + [0];
  }

  /** The bytes after the length field; the last one is padding. */
  function DecodePayload(payload: seq<Byte>): Packet
    requires |payload| >= 10
  {
    var text := payload[8..|payload| - 1];
    var end := match Position(text, 0) case None => |text| case Some(i) => i;
    Packet(FromLe(payload[..4]), FromLe(payload[4..8]), Utf8.Lossy(text[..end]))
  }

  /** One packet off the front of the bytes that will ever arrive. */
  function ReadPacket(s: seq<Byte>): (r: Result<(Packet, seq<Byte>), WireError>)
    ensures r.Ok? ==> |r.value.1| < |s|
  {
    if |s| < 4 then Err(ClosedEarly)
    else
      var length := FromLe(s[..4]);
      if !(10 <= length <= MAX_PACKET) then Err(LengthOutOfRange(length))
      else if |s| - 4 < length then Err(ClosedEarly)
      else Ok((DecodePayload(s[4..4 + length]), s[4 + length..]))
  }

  /** What a Rust caller can hand to the encoder. */
  predicate IsPacket(p: Packet) {
    IsI32(p.id) && IsI32(p.kind) && Utf8.Valid(p.body)
  }

  predicate Fits(p: Packet) {
    |p.body| <= MAX_BODY && 0 !in p.body
  }

  lemma EncodedParts(p: Packet, rest: seq<Byte>)
    requires IsI32(p.id) && IsI32(p.kind)
    ensures var s := Encoded(p) + rest;
            && |s| == 14 + |p.body| + |rest|
            && s[..4] == ToLe(LengthField(p.body)) && s[4..8] == ToLe(p.id) && s[8..12] == ToLe(p.kind)
            && s[12..12 + |p.body|] == p.body
            && s[12 + |p.body|..14 + |p.body|] == [0, 0] && s[14 + |p.body|..] == rest
  {
  }

  lemma FittingLength(body: seq<Byte>)
    ensures |body| <= MAX_BODY ==> LengthField(body) == 10 + |body|
    ensures MAX_BODY < |body| < 0x8000_0000 - 10 ==> !(10 <= LengthField(body) <= MAX_PACKET)
  {
  }

  lemma {:induction false} LossyIsShort(b: seq<Byte>)
    ensures |Utf8.Lossy(b)| <= 3 * |b|
    ensures 0 !in b ==> 0 !in Utf8.Lossy(b)
    decreases |b|
  {
    if b != [] {
      var n := Utf8.Fitting(b);
      LossyIsShort(b[if n == 0 then 1 else n..]);
    }
  }

  /** A decoded body has no NUL and is not long. */
  lemma DecodedBody(payload: seq<Byte>)
    requires 10 <= |payload| <= MAX_PACKET
    ensures 0 !in DecodePayload(payload).body && |DecodePayload(payload).body| <= 3 * MAX_PACKET
  {
    var text := payload[8..|payload| - 1];
    var end := match Position(text, 0) case None => |text| case Some(i) => i;
    LossyIsShort(text[..end]);
  }

  lemma BodyEndsAtItsNul(body: seq<Byte>)
    requires 0 !in body
    ensures Position(body + [0], 0) == Some(|body|) && (body + [0])[..|body|] == body
  {
    PositionAfter(body, [0], 0);
  }

  /** The payload of an encoded packet, cut as the decoder cuts it. */
  lemma PayloadParts(p: Packet, rest: seq<Byte>)
    requires IsI32(p.id) && IsI32(p.kind)
    ensures var n := |p.body|;
            var payload := (Encoded(p) + rest)[4..14 + n];
            payload[..4] == ToLe(p.id) && payload[4..8] == ToLe(p.kind) && payload[8..n + 9] == p.body + [0]
  {
    var s, n := Encoded(p) + rest, |p.body|;
    EncodedParts(p, rest);
    var payload := s[4..14 + n];
    assert payload[..4] == s[4..8] && payload[4..8] == s[8..12];
    assert s[12 + n] == s[12 + n..14 + n][0];
    assert payload[8..n + 9] == s[12..13 + n] == s[12..12 + n] + [s[12 + n]];
  }

  lemma FittingReadsBack(p: Packet, rest: seq<Byte>)
    requires IsPacket(p) && Fits(p)
    ensures ReadPacket(Encoded(p) + rest) == Ok((p, rest))
  {
    EncodedParts(p, rest);
    PayloadParts(p, rest);
    FittingLength(p.body);
    LittleEndianReadsBack(LengthField(p.body));
    LittleEndianReadsBack(p.id);
    LittleEndianReadsBack(p.kind);
    BodyEndsAtItsNul(p.body);
    Utf8.LossyKeepsValid(p.body);
  }

  /** Only a packet that fits can come back as itself. */
  lemma ReadBackFits(p: Packet, rest: seq<Byte>)
    requires IsPacket(p)
    requires ReadPacket(Encoded(p) + rest).Ok? && ReadPacket(Encoded(p) + rest).value.0 == p
    ensures Fits(p)
  {
    var s := Encoded(p) + rest;
    EncodedParts(p, rest);
    FittingLength(p.body);
    LittleEndianReadsBack(LengthField(p.body));
    DecodedBody(s[4..4 + LengthField(p.body)]);
  }

  function EncodedAll(ps: seq<Packet>): seq<Byte>
    requires forall i | 0 <= i < |ps| :: IsPacket(ps[i])
  {
    if ps == [] then []
    else
      assert IsPacket(ps[0]);
      Encoded(ps[0]) + EncodedAll(ps[1..])
  }

  function ReadAll(s: seq<Byte>): Result<seq<Packet>, WireError>
    decreases |s|
  {
    if s == [] then Ok([])
    else
      match ReadPacket(s)
      case Err(e) => Err(e)
      case Ok((p, rest)) =>
        match ReadAll(rest) case Err(e) => Err(e) case Ok(ps) => Ok([p] + ps)
  }

  predicate AllFit(ps: seq<Packet>) {
    forall i | 0 <= i < |ps| :: Fits(ps[i])
  }

  lemma AllFitStep(ps: seq<Packet>)
    requires ps != []
    ensures AllFit(ps) <==> Fits(ps[0]) && AllFit(ps[1..])
  {
    assert forall i | 1 <= i < |ps| :: ps[i] == ps[1..][i - 1];
  }

  /**
   * Any packets written one after another are read back as themselves, with
   * nothing left over -- exactly when no body has a NUL or is over 8182 bytes.
   */
  lemma {:induction false} PacketsReadBack(ps: seq<Packet>)
    requires forall i | 0 <= i < |ps| :: IsPacket(ps[i])
    ensures ReadAll(EncodedAll(ps)) == Ok(ps) <==> AllFit(ps)
    decreases |ps|
  {
    if ps != [] {
      var rest := EncodedAll(ps[1..]);
      EncodedParts(ps[0], rest);
      if Fits(ps[0]) {
        FittingReadsBack(ps[0], rest);
        PacketsReadBack(ps[1..]);
        AllFitStep(ps);
        assert ps == [ps[0]] + ps[1..];
      } else if ReadAll(EncodedAll(ps)) == Ok(ps) {
        var read := ReadPacket(EncodedAll(ps)).value;
        assert ps[0] == read.0;
        ReadBackFits(ps[0], rest);
      }
    }
  }

  /** The layout, on the command `list` with id 7, and the sign of an id. */
  lemma DocumentedLayout()
    ensures Encoded(Packet(7, 2, [108, 105, 115, 116]))
            == [14, 0, 0, 0, 7, 0, 0, 0, 2, 0, 0, 0, 108, 105, 115, 116, 0, 0]
    ensures ToLe(-1) == [255, 255, 255, 255] && ToLe(0x0102_0304) == [4, 3, 2, 1]
  {
  }

  /** A frame with whatever stands in its body: the text goes to the first NUL, and the last byte is never text. */
  lemma AnyFrameIsRead(id: int, kind: int, body: seq<Byte>, tail: seq<Byte>, last: Byte, rest: seq<Byte>)
    requires IsI32(id) && IsI32(kind) && 0 !in body && (tail != [] ==> tail[0] == 0)
    requires 1 <= |body| + |tail| <= 8183
    ensures var payload := ToLe(id) + (ToLe(kind) + ((body + tail) + [last]));
            ReadPacket(ToLe(|payload|) + (payload + rest)) == Ok((Packet(id, kind, Utf8.Lossy(body)), rest))
  {
    var payload := ToLe(id) + (ToLe(kind) + ((body + tail) + [last]));
    var s := ToLe(|payload|) + (payload + rest);
    LittleEndianReadsBack(|payload|);
    assert s[..4] == ToLe(|payload|) && s[4..4 + |payload|] == payload && s[4 + |payload|..] == rest;
    AnyPayloadIsRead(id, kind, body, tail, last);
  }

  lemma PayloadSlices(a: seq<Byte>, b: seq<Byte>, text: seq<Byte>, last: Byte)
    requires |a| == 4 && |b| == 4
    ensures var p := a + (b + (text + [last])); p[..4] == a && p[4..8] == b && p[8..|p| - 1] == text
  {
  }

  lemma TextEndsAtItsNul(body: seq<Byte>, tail: seq<Byte>)
    requires 0 !in body && (tail != [] ==> tail[0] == 0)
    ensures var text := body + tail;
            text[..match Position(text, 0) case None => |text| case Some(i) => i] == body
  {
    PositionAfter(body, tail, 0);
    if tail == [] { assert Position(tail, 0) == None; } else { assert Position(tail, 0) == Some(0); }
  }

  lemma RawPayloadIsRead(a: seq<Byte>, b: seq<Byte>, body: seq<Byte>, tail: seq<Byte>, last: Byte)
    requires |a| == 4 && |b| == 4 && 0 !in body && (tail != [] ==> tail[0] == 0) && 1 <= |body| + |tail|
    ensures DecodePayload(a + (b + ((body + tail) + [last]))) == Packet(FromLe(a), FromLe(b), Utf8.Lossy(body))
  {
    PayloadSlices(a, b, body + tail, last);
    TextEndsAtItsNul(body, tail);
  }

  lemma AnyPayloadIsRead(id: int, kind: int, body: seq<Byte>, tail: seq<Byte>, last: Byte)
    requires IsI32(id) && IsI32(kind) && 0 !in body && (tail != [] ==> tail[0] == 0) && 1 <= |body| + |tail|
    ensures DecodePayload(ToLe(id) + (ToLe(kind) + ((body + tail) + [last]))) == Packet(id, kind, Utf8.Lossy(body))
  {
    var a, b := ToLe(id), ToLe(kind);
    LittleEndianReadsBack(id);
    LittleEndianReadsBack(kind);
    RawPayloadIsRead(a, b, body, tail, last);
  }

  /** What is not a whole frame of a length from 10 to 8192 is refused. */
  lemma MalformedFrameIsRefused(n: int, rest: seq<Byte>)
    requires IsI32(n)
    ensures ReadPacket(ToLe(n)[..3]) == Err(ClosedEarly)
    ensures n < 10 || n > 8192 ==> ReadPacket(ToLe(n) + rest) == Err(LengthOutOfRange(n))
    ensures 10 <= n <= 8192 && |rest| < n ==> ReadPacket(ToLe(n) + rest) == Err(ClosedEarly)
  {
    LittleEndianReadsBack(n);
    assert (ToLe(n) + rest)[..4] == ToLe(n);
  }
}
