/**
 Code units, scalar values and the small result records shared by the codec,
 the router and the width engine of wutils.

 Every code unit is modelled by its unsigned bit pattern: a `char8_t` or a
 `char` is a `Byte`, a `char16_t` a `U16`, a `char32_t` (and a 32-bit
 `wchar_t`) a `U32`. A cast between two unit types of the same width then
 keeps the number unchanged.
 */
module Unicode {

  type Byte = x: int | 0 <= x < 0x100
  type U16 = x: int | 0 <= x < 0x1_0000
  type U32 = x: int | 0 <= x < 0x1_0000_0000

  const MaxCodepoint := 0x10FFFF
  const SurrogateFirst := 0xD800
  const SurrogateLast := 0xDFFF

  /** A Unicode scalar value: a codepoint that is not a surrogate. */
  predicate IsScalar(cp: int) {
    0 <= cp <= MaxCodepoint && !(SurrogateFirst <= cp <= SurrogateLast)
  }

  /** The values for which IsScalar holds, as a type. */
  type Scalar = cp: int | 0 <= cp <= MaxCodepoint && !(SurrogateFirst <= cp <= SurrogateLast)

  /** U+FFFD REPLACEMENT CHARACTER. */
  const Replacement: Scalar := 0xFFFD

  /** The outcome of decoding one character (internal::DecodeResult). */
  datatype DecodeResult = DecodeResult(codepoint: U32, consumed: nat, isValid: bool)

  /** The rejection every decoder returns: nothing decoded, one unit consumed. */
  const Rejected := DecodeResult(0, 1, false)

  /** wutils::ErrorPolicy: what a converter does at an invalid step. */
  datatype ErrorPolicy =
    | UseReplacementCharacter
    | SkipInvalidValues
    | StopOnFirstError

  /**
   wutils::ConversionResult: a value that is always present, paired with a
   validity flag; the flag is what the result converts to as a bool.
   */
  datatype ConversionResult<T> = ConversionResult(value: T, isValid: bool) {
    predicate AsBool() {
      isValid
    }
  }

  datatype Option<T> = None | Some(value: T) {
    function GetOr(default: T): T {
      match this
      case Some(v) => v
      case None => default
    }
  }
}
