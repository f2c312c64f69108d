/**
 UTF-16 single-step decoding and encoding (internal::decode_one_utf16 and
 internal::encode_utf16), with the surrogate-pair rules of sections 2.1 and
 2.2 of RFC 2781 as an independent reference.
 */
module Utf16 {
  import opened Unicode

  const HighFirst := 0xD800
  const HighLast := 0xDBFF
  const LowFirst := 0xDC00
  const LowLast := 0xDFFF

  predicate IsHigh(u: U16) {
    HighFirst <= u <= HighLast
  }

  predicate IsLow(u: U16) {
    LowFirst <= u <= LowLast
  }

  /** The codepoint a high and a low surrogate stand for together. */
  function Combine(hi: U16, lo: U16): nat
    requires IsHigh(hi) && IsLow(lo)
  {
    // 0x10000 + (((hi - 0xD800) << 10) | (lo - 0xDC00)); the two parts share no bits
    0x10000 + (hi - HighFirst) * 0x400 + (lo - LowFirst)
  }

  /**
   Decodes the character at the front of `s`. Empty input gives
   (0, 0, invalid); any rejection consumes exactly one unit.
   */
  function DecodeOne(s: seq<U16>): (d: DecodeResult)
    ensures |s| == 0 ==> d == DecodeResult(0, 0, false)
    ensures |s| > 0 ==> 1 <= d.consumed <= 2 && d.consumed <= |s|
    ensures |s| > 0 && !d.isValid ==> d == Rejected
    ensures d.isValid ==> IsScalar(d.codepoint)
  {
    if |s| == 0 then DecodeResult(0, 0, false)
    else
      var c1 := s[0];
      if c1 < SurrogateFirst || c1 > SurrogateLast then DecodeResult(c1, 1, true)
      else if c1 > HighLast || |s| < 2 then Rejected  // lone low surrogate, or truncated pair
      else
        var c2 := s[1];
        if c2 < LowFirst || c2 > LowLast then Rejected  // high surrogate not followed by a low one
        else DecodeResult(Combine(c1, c2), 2, true)
  }

  /** The minimal UTF-16 encoding of `cp`; above U+FFFF a surrogate pair. */
  function Encode(cp: int): (r: seq<U16>)
    requires 0 <= cp <= MaxCodepoint
    ensures |r| == (if cp <= 0xFFFF then 1 else 2)
  {
    if cp <= 0xFFFF then [cp]
    else [HighFirst + (cp - 0x10000) / 0x400, LowFirst + (cp - 0x10000) % 0x400]
  }

  // ---------------------------------------------------------------------------
  // The reference rules of sections 2.1 and 2.2 of RFC 2781.
  // ---------------------------------------------------------------------------

  /**
   The number of units of the character `s` starts with: 1 for a unit that
   is not a surrogate, 2 for a high surrogate followed by a low one, and 0
   when `s` starts with neither.
   */
  function CharLength(s: seq<U16>): nat {
    if |s| == 0 then 0
    else if !(SurrogateFirst <= s[0] <= SurrogateLast) then 1
    else if |s| >= 2 && IsHigh(s[0]) && IsLow(s[1]) then 2
    else 0
  }

  /** A well-formed UTF-16 string: no unpaired surrogate. */
  predicate WellFormed(s: seq<U16>)
    decreases |s|
  {
    |s| == 0 || (CharLength(s) > 0 && WellFormed(s[CharLength(s)..]))
  }

  // ---------------------------------------------------------------------------
  // Lemmas
  // ---------------------------------------------------------------------------

  /**
   The decoder accepts exactly the characters of RFC 2781, consumes all of
   the one it accepts, and combines a pair as section 2.2 prescribes.
   */
  lemma DecodeOneIsRfc(s: seq<U16>)
    requires |s| > 0
    ensures DecodeOne(s).isValid <==> CharLength(s) > 0
    ensures DecodeOne(s).isValid ==> DecodeOne(s).consumed == CharLength(s)
    ensures CharLength(s) == 1 ==> DecodeOne(s).codepoint == s[0]
    ensures CharLength(s) == 2 ==> DecodeOne(s).codepoint == 0x10000 + (s[0] as int - 0xD800) * 0x400 + (s[1] as int - 0xDC00)
  {
  }

  /** Decoding the encoding of a scalar value, whatever follows it, gives it back. */
  lemma DecodeEncode(cp: Scalar, rest: seq<U16>)
    ensures DecodeOne(Encode(cp) + rest) == DecodeResult(cp, |Encode(cp)|, true)
  {
    var e := Encode(cp);
    assert (e + rest)[0] == e[0];
    if cp > 0xFFFF {
      assert (e + rest)[1] == e[1];
    }
  }

  /** What the decoder accepts is exactly the encoding of what it returns. */
  lemma EncodeDecode(s: seq<U16>)
    requires DecodeOne(s).isValid
    ensures Encode(DecodeOne(s).codepoint) == s[..DecodeOne(s).consumed]
  {
  }

  /** The encoding of a scalar value is one character of RFC 2781. */
  lemma EncodeIsRfc(cp: Scalar, rest: seq<U16>)
    ensures CharLength(Encode(cp) + rest) == |Encode(cp)|
  {
    var e := Encode(cp);
    assert (e + rest)[0] == e[0];
    if cp > 0xFFFF {
      assert (e + rest)[1] == e[1];
    }
  }

  /** A successful decode reads nothing beyond the units it consumes. */
  lemma DecodeOneLocal(s: seq<U16>, m: nat)
    requires DecodeOne(s).isValid && DecodeOne(s).consumed <= m <= |s|
    ensures DecodeOne(s[..m]) == DecodeOne(s)
  {
  }
}
