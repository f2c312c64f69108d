/**
 UTF-8 single-step decoding and encoding (internal::decode_one_utf8 and
 internal::encode_utf8), together with the grammar of section 4 of RFC 3629
 as an independent reference, and the lemmas that tie the two together.

 The source masks and shifts bytes; here `x & 0x3F` is `x % 0x40`, `x << 6`
 is `x * 0x40`, and an `|` of two values whose bits do not overlap is `+`.
 */
module Utf8 {
  import opened Unicode

  /** A continuation byte has the bit pattern 10xxxxxx, i.e. (b & 0xC0) == 0x80. */
  predicate IsContinuation(b: Byte) {
    0x80 <= b <= 0xBF
  }

  /** The six payload bits of a continuation byte, b & 0x3F. */
  function Payload(b: Byte): nat {
    b % 0x40
  }

  /** The value the source assembles from a two-byte sequence. */
  function Value2(c: Byte, b1: Byte): nat {
    (c % 0x20) * 0x40 + Payload(b1)
  }

  /** The value the source assembles from a three-byte sequence. */
  function Value3(c: Byte, b1: Byte, b2: Byte): nat {
    (c % 0x10) * 0x1000 + Payload(b1) * 0x40 + Payload(b2)
  }

  /** The value the source assembles from a four-byte sequence. */
  function Value4(c: Byte, b1: Byte, b2: Byte, b3: Byte): nat {
    (c % 0x08) * 0x40000 + Payload(b1) * 0x1000 + Payload(b2) * 0x40 + Payload(b3)
  }

  /**
   Decodes the character at the front of `s`. Empty input gives
   (0, 0, invalid); any rejection consumes exactly one byte.
   */
  function DecodeOne(s: seq<Byte>): (d: DecodeResult)
    ensures |s| == 0 ==> d == DecodeResult(0, 0, false)
    ensures |s| > 0 ==> 1 <= d.consumed <= 4 && d.consumed <= |s|
    ensures |s| > 0 && !d.isValid ==> d == Rejected
    ensures d.isValid ==> IsScalar(d.codepoint)
  {
    if |s| == 0 then DecodeResult(0, 0, false)
    else
      var c := s[0];
      if c < 0x80 then DecodeResult(c, 1, true)
      else if c < 0xC2 then Rejected
      else if c < 0xE0 then
        if |s| < 2 || !IsContinuation(s[1]) then Rejected
        else
          var cp := Value2(c, s[1]);
          if cp < 0x80 then Rejected  // overlong; never taken, see TwoByteOverlongUnreachable
          else DecodeResult(cp, 2, true)
      else if c < 0xF0 then
        if |s| < 3 || !IsContinuation(s[1]) || !IsContinuation(s[2]) then Rejected
        else
          var cp := Value3(c, s[1], s[2]);
          if cp < 0x800 then Rejected                           // overlong
          else if SurrogateFirst <= cp <= SurrogateLast then Rejected
          else DecodeResult(cp, 3, true)
      else if c < 0xF5 then
        if |s| < 4 || !IsContinuation(s[1]) || !IsContinuation(s[2]) || !IsContinuation(s[3]) then Rejected
        else
          var cp := Value4(c, s[1], s[2], s[3]);
          if cp < 0x10000 then Rejected          // overlong
          else if cp > MaxCodepoint then Rejected  // out of range
          else DecodeResult(cp, 4, true)
      else Rejected
  }

  /** The number of bytes the minimal encoding of `cp` takes. */
  function EncodedLength(cp: int): nat {
    if cp <= 0x7F then 1
    else if cp <= 0x7FF then 2
    else if cp <= 0xFFFF then 3
    else 4
  }

  /** Appends-to-nothing form of encode_utf8: the minimal encoding of `cp`. */
  function Encode(cp: int): (r: seq<Byte>)
    requires 0 <= cp <= MaxCodepoint
    ensures |r| == EncodedLength(cp)
  {
    if cp <= 0x7F then [cp]
    else if cp <= 0x7FF then [0xC0 + cp / 0x40, 0x80 + cp % 0x40]
    else if cp <= 0xFFFF then
      [0xE0 + cp / 0x1000, 0x80 + cp / 0x40 % 0x40, 0x80 + cp % 0x40]
    else
      [0xF0 + cp / 0x40000, 0x80 + cp / 0x1000 % 0x40, 0x80 + cp / 0x40 % 0x40, 0x80 + cp % 0x40]
  }

  // ---------------------------------------------------------------------------
  // The reference grammar of section 4 of RFC 3629.
  // ---------------------------------------------------------------------------

  predicate InRange(b: Byte, lo: int, hi: int) {
    lo <= b <= hi
  }

  /**
   The length of the UTF8-char that `s` starts with according to the
   grammar of section 4 of RFC 3629, or 0 if `s` does not start with one.
   */
  function CharLength(s: seq<Byte>): nat {
    if |s| == 0 then 0
    else
      var c := s[0];
      if c <= 0x7F then 1
      else if 0xC2 <= c <= 0xDF then
        if |s| >= 2 && IsContinuation(s[1]) then 2 else 0
      else if c == 0xE0 then
        if |s| >= 3 && InRange(s[1], 0xA0, 0xBF) && IsContinuation(s[2]) then 3 else 0
      else if 0xE1 <= c <= 0xEC || 0xEE <= c <= 0xEF then
        if |s| >= 3 && IsContinuation(s[1]) && IsContinuation(s[2]) then 3 else 0
      else if c == 0xED then
        if |s| >= 3 && InRange(s[1], 0x80, 0x9F) && IsContinuation(s[2]) then 3 else 0
      else if c == 0xF0 then
        if |s| >= 4 && InRange(s[1], 0x90, 0xBF) && IsContinuation(s[2]) && IsContinuation(s[3]) then 4 else 0
      else if 0xF1 <= c <= 0xF3 then
        if |s| >= 4 && IsContinuation(s[1]) && IsContinuation(s[2]) && IsContinuation(s[3]) then 4 else 0
      else if c == 0xF4 then
        if |s| >= 4 && InRange(s[1], 0x80, 0x8F) && IsContinuation(s[2]) && IsContinuation(s[3]) then 4 else 0
      else 0
  }

  /** A well-formed UTF-8 string: a concatenation of UTF8-chars. */
  predicate WellFormed(s: seq<Byte>)
    decreases |s|
  {
    |s| == 0 || (CharLength(s) > 0 && WellFormed(s[CharLength(s)..]))
  }

  // ---------------------------------------------------------------------------
  // Lemmas
  // ---------------------------------------------------------------------------

  /**
   The decoder accepts exactly the UTF8-chars of RFC 3629 and consumes the
   whole of the one it accepts.
   */
  lemma DecodeOneIsRfc(s: seq<Byte>)
    requires |s| > 0
    ensures DecodeOne(s).isValid <==> CharLength(s) > 0
    ensures DecodeOne(s).isValid ==> DecodeOne(s).consumed == CharLength(s)
  {
  }

  /**
   The overlong check of the two-byte branch never fires: a lead byte of at
   least 0xC2 already puts the value at 0x80 or above.
   */
  lemma TwoByteOverlongUnreachable(c: Byte, b1: Byte)
    requires 0xC2 <= c < 0xE0 && IsContinuation(b1)
    ensures Value2(c, b1) >= 0x80
  {
  }

  /** Decoding the encoding of a scalar value, whatever follows it, gives it back. */
  lemma DecodeEncode(cp: Scalar, rest: seq<Byte>)
    ensures DecodeOne(Encode(cp) + rest) == DecodeResult(cp, |Encode(cp)|, true)
  {
    var e := Encode(cp);
    var s := e + rest;
    assert s[..|e|] == e;
    if cp <= 0x7F {
    } else if cp <= 0x7FF {
      assert s[0] == e[0] && s[1] == e[1];
      SplitTwo(cp);
    } else if cp <= 0xFFFF {
      assert s[0] == e[0] && s[1] == e[1] && s[2] == e[2];
      SplitThree(cp);
    } else {
      assert s[0] == e[0] && s[1] == e[1] && s[2] == e[2] && s[3] == e[3];
      SplitFour(cp);
    }
  }

  lemma SplitTwo(cp: int)
    requires 0x80 <= cp <= 0x7FF
    ensures Value2(0xC0 + cp / 0x40, 0x80 + cp % 0x40) == cp
  {
  }

  lemma SplitThree(cp: int)
    requires 0x800 <= cp <= 0xFFFF
    ensures Value3(0xE0 + cp / 0x1000, 0x80 + cp / 0x40 % 0x40, 0x80 + cp % 0x40) == cp
  {
    assert cp / 0x40 == cp / 0x1000 * 0x40 + cp / 0x40 % 0x40;
  }

  lemma SplitFour(cp: int)
    requires 0x10000 <= cp <= MaxCodepoint
    ensures Value4(0xF0 + cp / 0x40000, 0x80 + cp / 0x1000 % 0x40, 0x80 + cp / 0x40 % 0x40, 0x80 + cp % 0x40) == cp
  {
    Places4(cp);
    var a, b, c, d := cp / 0x40000, cp / 0x1000 % 0x40, cp / 0x40 % 0x40, cp % 0x40;
    assert (0xF0 + a) % 0x08 == a by {
      assert a < 0x08;
    }
    PayloadOf(b);
    PayloadOf(c);
    PayloadOf(d);
  }

  lemma ContinuationPayload(b: Byte)
    requires IsContinuation(b)
    ensures b == 0x80 + Payload(b)
  {
  }

  lemma PayloadOf(p: nat)
    requires p < 0x40
    ensures 0x80 + p < 0x100 && Payload(0x80 + p) == p
  {
  }

  /** The base-64 digits of a codepoint below 2^21. */
  lemma Places4(cp: nat)
    requires cp < 0x200000
    ensures cp == cp / 0x40000 * 0x40000 + cp / 0x1000 % 0x40 * 0x1000 + cp / 0x40 % 0x40 * 0x40 + cp % 0x40
  {
    var q1, d := cp / 0x40, cp % 0x40;
    var q2, c := q1 / 0x40, q1 % 0x40;
    var a, b := q2 / 0x40, q2 % 0x40;
    assert cp == q2 * 0x1000 + (c * 0x40 + d);
    assert cp / 0x1000 == q2;
    assert cp == a * 0x40000 + (b * 0x1000 + c * 0x40 + d);
    assert cp / 0x40000 == a;
  }

  /** What the decoder accepts is exactly the encoding of what it returns. */
  lemma EncodeDecode(s: seq<Byte>)
    requires DecodeOne(s).isValid
    ensures Encode(DecodeOne(s).codepoint) == s[..DecodeOne(s).consumed]
  {
    var d := DecodeOne(s);
    if d.consumed == 2 {
      JoinTwo(s[0], s[1]);
    } else if d.consumed == 3 {
      JoinThree(s[0], s[1], s[2]);
    } else if d.consumed == 4 {
      JoinFour(s[0], s[1], s[2], s[3]);
    }
  }

  lemma JoinTwo(c: Byte, b1: Byte)
    requires 0xC2 <= c <= 0xDF && IsContinuation(b1)
    ensures 0x80 <= Value2(c, b1) <= 0x7FF
    ensures Encode(Value2(c, b1)) == [c, b1]
  {
    var top, p1 := c % 0x20, Payload(b1);
    var cp := Value2(c, b1);
    assert cp == top * 0x40 + p1;
    assert cp / 0x40 == top && cp % 0x40 == p1;
    ContinuationPayload(b1);
    assert c == 0xC0 + top;
  }

  /** The base-64 digits of a value below 0x10000 assembled from three digits. */
  lemma Digits3(top: nat, p1: nat, p2: nat)
    requires top < 0x10 && p1 < 0x40 && p2 < 0x40
    ensures var cp := top * 0x1000 + p1 * 0x40 + p2;
            cp / 0x1000 == top && cp / 0x40 % 0x40 == p1 && cp % 0x40 == p2
  {
  }

  /** The base-64 digits of a value below 0x200000 assembled from four digits. */
  lemma Digits4(top: nat, p1: nat, p2: nat, p3: nat)
    requires top < 0x08 && p1 < 0x40 && p2 < 0x40 && p3 < 0x40
    ensures var cp := top * 0x40000 + p1 * 0x1000 + p2 * 0x40 + p3;
            cp / 0x40000 == top && cp / 0x1000 % 0x40 == p1 && cp / 0x40 % 0x40 == p2 && cp % 0x40 == p3
  {
    var cp := top * 0x40000 + p1 * 0x1000 + p2 * 0x40 + p3;
    var q1 := top * 0x1000 + p1 * 0x40 + p2;
    var q2 := top * 0x40 + p1;
    assert cp == q1 * 0x40 + p3;
    assert cp / 0x40 == q1 && cp % 0x40 == p3;
    assert q1 == q2 * 0x40 + p2;
    assert q1 % 0x40 == p2;
    assert cp == q2 * 0x1000 + (p2 * 0x40 + p3);
    assert cp / 0x1000 == q2;
    assert q2 % 0x40 == p1;
    assert cp == top * 0x40000 + (p1 * 0x1000 + p2 * 0x40 + p3);
  }

  lemma JoinThree(c: Byte, b1: Byte, b2: Byte)
    requires 0xE0 <= c <= 0xEF && IsContinuation(b1) && IsContinuation(b2)
    requires Value3(c, b1, b2) >= 0x800
    ensures Encode(Value3(c, b1, b2)) == [c, b1, b2]
  {
    var top, p1, p2 := c % 0x10, Payload(b1), Payload(b2);
    var cp := Value3(c, b1, b2);
    assert cp == top * 0x1000 + p1 * 0x40 + p2;
    Digits3(top, p1, p2);
    ContinuationPayload(b1);
    ContinuationPayload(b2);
    assert c == 0xE0 + top;
    assert Encode(cp) == [0xE0 + cp / 0x1000, 0x80 + cp / 0x40 % 0x40, 0x80 + cp % 0x40];
  }

  lemma JoinFour(c: Byte, b1: Byte, b2: Byte, b3: Byte)
    requires 0xF0 <= c <= 0xF4 && IsContinuation(b1) && IsContinuation(b2) && IsContinuation(b3)
    requires 0x10000 <= Value4(c, b1, b2, b3) <= MaxCodepoint
    ensures Encode(Value4(c, b1, b2, b3)) == [c, b1, b2, b3]
  {
    var top, p1, p2, p3 := c % 0x08, Payload(b1), Payload(b2), Payload(b3);
    var cp := Value4(c, b1, b2, b3);
    assert cp == top * 0x40000 + p1 * 0x1000 + p2 * 0x40 + p3;
    Digits4(top, p1, p2, p3);
    ContinuationPayload(b1);
    ContinuationPayload(b2);
    ContinuationPayload(b3);
    assert c == 0xF0 + top;
    assert Encode(cp) == [0xF0 + cp / 0x40000, 0x80 + cp / 0x1000 % 0x40, 0x80 + cp / 0x40 % 0x40, 0x80 + cp % 0x40];
  }

  /** The encoding of a scalar value is one UTF8-char of RFC 3629. */
  lemma EncodeIsRfc(cp: Scalar, rest: seq<Byte>)
    ensures CharLength(Encode(cp) + rest) == |Encode(cp)|
  {
  }

  /** A successful decode reads nothing beyond the bytes it consumes. */
  lemma DecodeOneLocal(s: seq<Byte>, m: nat)
    requires DecodeOne(s).isValid && DecodeOne(s).consumed <= m <= |s|
    ensures DecodeOne(s[..m]) == DecodeOne(s)
  {
  }
}
