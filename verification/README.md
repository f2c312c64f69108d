# wutils in Dafny

A Dafny model of the core of **wutils**, a C++ library for moving text between
the standard string types: `std::string`, `std::u8string`, `std::u16string`,
`std::u32string` and `std::wstring`. The library does three things:

- **Codec.** It decodes and encodes one UTF-8 or UTF-16 character at a time
  (`decode_one_utf8`, `decode_one_utf16`, `encode_utf8`, `encode_utf16`).
  On top of those sit the six converters `detail::u8`, `detail::u16` and
  `detail::u32`. Each one walks its source, decodes one character per step,
  and applies an `ErrorPolicy` to invalid steps. It returns a
  `ConversionResult`: a value that is always present, plus an `is_valid` flag.
- **Router.** Four `convert` overloads are chosen by `requires` clauses over
  the five character kinds. Two kinds are not Unicode: `char` is a pivot to
  `char8_t`, and `wchar_t` is a pivot to `uchar_t`. The kinds reach the
  Unicode kernel through those pivots, with unit-by-unit casts
  (`convert_implicitly`). The wrappers `u8s`, `u16s`, `u32s`, `us`, `ws` and
  `s` and the casts `ws_to_us`, `us_to_ws`, `s_to_u8s` and `u8s_to_s` are
  built on top.
- **Width.** This is Markus Kuhn's `wcwidth`, adapted:
  - `bisearch` and `mk_wcwidth` use a table of non-spacing intervals, with
    two emoji rows appended;
  - `mk_wcswidth` adds emoji-sequence handling;
  - `uswidth` works on each Unicode string type, and `wswidth` on wide
    strings.

## How it is modelled

- **unicode.dfy** (`Unicode`) holds the shared vocabulary:
  - code units and Unicode scalar values;
  - `ErrorPolicy` and `ConversionResult`;
  - the decoder's `DecodeResult`.
- **utf8.dfy** (`Utf8`) and **utf16.dfy** (`Utf16`) model the one-character
  decoders and encoders. Each is paired with an independent reference
  definition of a well-formed character: the UTF8-char grammar of section 4
  of RFC 3629 and the surrogate-pair rules of sections 2.1 and 2.2 of
  RFC 2781. Both directions of the round trip are proved.
- **transcode.dfy** (`Transcode`) models the six converters:
  - `Directed` covers all source/destination pairs. Its units are `U32`
    values bounded by the form's unit size.
  - `DirectedLoop` is the converters' loop, written as a method.
  - An independent "decode every step, then apply the policy" reading
    (`Steps`, `Apply`, `EncodeAll`) is proved equal to `Directed`.
- **test_vectors.dfy** (`TestVectors`) holds the six error-handling tests
  from the library's suite, as lemmas.
- **router.dfy** (`Router`) models the dispatch:
  - the five kinds and `uchar_t` for a 16- or 32-bit `wchar_t`;
  - the implicit-conversion relation and the pivots;
  - overload selection, `convert`, the wrappers and `wswidth`.
- **combining.dfy** (`Combining`) holds the interval table, entry for entry.
  It proves that the first 142 rows are sorted and disjoint, and that the
  two appended rows put the whole table out of order.
- **width.dfy** (`Width`) models `bisearch`, `mk_wcwidth`, `mk_wcswidth`
  (as a function and as the source's loop) and the three `uswidth`
  overloads.
- **width_vectors.dfy** (`WidthVectors`) holds the sixteen width tests from
  the library's suite, as lemmas.

A string is a `seq` of unit values. Each `char` is treated as its unsigned
byte value. The width functions are modelled exactly as written, including
where they differ from Kuhn's original. That happens because the appended
rows break the table's order:

- `bisearch` stops at the last row's `last` field, U+200D. So every
  non-spacing character above U+200D gets width 1 or 2.
- The skin-tone row is never found.

Lemmas state these facts instead of hiding them.

## Model

| member | source | states |
|---|---|---|
| Utf8.DecodeOne | src/wutils.cpp:439-498 | an empty view gives an invalid result consuming nothing; otherwise 1 to 4 units are consumed, never more than are present; every invalid step is the single-unit rejection, and a valid step yields a Unicode scalar value |
| Utf8.DecodeOneIsRfc | src/wutils.cpp:439-498 | the decoder accepts exactly the UTF8-chars of the grammar of section 4 of RFC 3629 and consumes exactly the length of the UTF8-char at the front |
| Utf8.TwoByteOverlongUnreachable | src/wutils.cpp:459-461 | after the lead-byte range check, a two-byte sequence always decodes to at least U+0080, so the overlong check in that branch can never fire |
| Utf8.DecodeEncode | src/wutils.cpp:521-537 | decoding the encoding of any scalar value, whatever follows it, gives back that value and consumes exactly the encoded length |
| Utf8.EncodeDecode | src/wutils.cpp:439-498 | a valid decoded character re-encodes to exactly the bytes it was decoded from |
| Utf8.EncodeIsRfc | src/wutils.cpp:521-537 | the encoder emits a well-formed UTF-8 character whose length is the reference character length |
| Utf8.DecodeOneLocal | src/wutils.cpp:439-498 | a valid step reads nothing past the units it consumes |
| Utf8.Encode | src/wutils.cpp:521-537 | encode_utf8: its own contract gives only the length, one to four bytes by range of the codepoint; what the bytes are is stated by Utf8.EncodeIsRfc (a well-formed RFC 3629 character) and Utf8.DecodeEncode (decoding gives the codepoint back) |
| Utf16.DecodeOne | src/wutils.cpp:501-518 | an empty view gives an invalid result; otherwise 1 or 2 units are consumed; every invalid step is the single-unit rejection and a valid one yields a scalar value |
| Utf16.DecodeOneIsRfc | src/wutils.cpp:501-518 | the decoder accepts exactly a non-surrogate unit or a high surrogate followed by a low one, and a pair decodes to 0x10000 plus the two 10-bit payloads |
| Utf16.DecodeEncode | src/wutils.cpp:540-551 | decoding the encoding of any scalar value gives it back, consuming one unit below U+10000 and two above |
| Utf16.EncodeDecode | src/wutils.cpp:501-518 | a valid decoded character re-encodes to exactly the units it came from |
| Utf16.EncodeIsRfc | src/wutils.cpp:540-551 | the encoder emits a well-formed UTF-16 character |
| Utf16.Encode | src/wutils.cpp:540-551 | encode_utf16: its own contract gives only the length, one unit up to U+FFFF and a surrogate pair above; the units are stated by Utf16.EncodeIsRfc and Utf16.DecodeEncode |
| Transcode.DirectedLoop | src/wutils.cpp:555-581 | the converters' index loop computes the same value and validity flag as the step-by-step definition, for every source, destination and policy |
| Transcode.Directed | src/wutils.cpp:555-724 | the six detail converters: its own contract says only that the output fits the destination form; its meaning is stated by Transcode.PolicySemantics (decode each step, apply the policy, encode), Transcode.DirectedValidIffWellFormed and Transcode.DirectedLoop (the source loop computes it) |
| Transcode.Convert | src/wutils.cpp:555-724 | the detail::u8/u16/u32 overload sets, with a same-form call copying: its own contract says only that the output fits the destination form; Transcode.ConvertRoundTrip gives the round trip |
| Transcode.PolicySemantics | src/wutils.cpp:612-638 | a conversion equals: decode every step, keep valid values, replace each invalid step with U+FFFD, drop it, or cut the output there as the policy says, then encode; the flag is true exactly when no step was invalid |
| Transcode.DirectedValidIffWellFormed | src/wutils.cpp:669-695 | the validity flag is true exactly when the source is well formed, and so it is the same under all three policies |
| Transcode.DirectedWellFormed | src/wutils.cpp:698-724 | every converter's output is well formed in the destination encoding, whatever the policy and however malformed the input |
| Transcode.StopIsPrefix | src/wutils.cpp:571-572 | under StopOnFirstError the output is the conversion of the input before the first invalid step, which is well formed and is the longest well-formed prefix, and the flag says whether that prefix is the whole input |
| Transcode.ReplacementIsEncoded | include/wutils.hpp:89-91 | the replacement written in each encoding is the encoding of U+FFFD |
| Transcode.EncodingConverts | src/wutils.cpp:612-695 | converting the encoding of any scalar values gives the encoding of the same values in the destination, flagged valid |
| Transcode.ConvertRoundTrip | src/wutils.cpp:555-724 | for well-formed input, converting to any form and back through the detail::u8/u16/u32 overload sets, under any pair of policies, returns the input unchanged and flagged valid |
| TestVectors.Utf8Replace | tests/test_module.cpp:73-91 | the invalid-UTF-8 test under UseReplacementCharacter yields its expected text with three U+FFFD and an invalid flag |
| TestVectors.Utf8Skip | tests/test_module.cpp:92-105 | the same input under SkipInvalidValues yields the text without the bad bytes, flagged invalid |
| TestVectors.Utf8Stop | tests/test_module.cpp:106-118 | the same input under StopOnFirstError yields the text before the first bad byte, flagged invalid |
| TestVectors.Utf16Replace | tests/test_module.cpp:120-139 | the unpaired-surrogate test under UseReplacementCharacter yields its expected text with U+FFFD at each bad unit |
| TestVectors.Utf16Skip | tests/test_module.cpp:140-154 | the same input under SkipInvalidValues drops the unpaired surrogates |
| TestVectors.Utf16Stop | tests/test_module.cpp:155-168 | the same input under StopOnFirstError stops at the first unpaired surrogate |
| Router.UChar | include/wutils.hpp:19-50 | uchar_t is char16_t exactly when wchar_t is 16 bits wide and char32_t exactly when it is 32 bits wide |
| Router.Pivot | include/wutils.hpp:239-281 | each kind pivots to a Unicode kind that it converts to implicitly and that has the same unit size; Unicode kinds are their own pivot |
| Router.Cast | include/wutils.hpp:177-203 | the unit-by-unit cast keeps the length, fits the target kind, and leaves every unit that already fits unchanged |
| Router.OverloadResolution | include/wutils.hpp:210-281 | each of the four overloads is chosen exactly when its requires-clause holds, so exactly one applies to every pair of kinds |
| Router.ImplicitIffSamePivot | include/wutils.hpp:120-135 | a pair of kinds converts implicitly exactly when both kinds have the same pivot |
| Router.ImplicitSameWidth | include/wutils.hpp:120-135 | the implicit-conversion relation is symmetric and only relates kinds of equal unit size |
| Router.ImplicitIsCopy | include/wutils.hpp:210-218 | the implicit overload returns its input unchanged, flagged valid, under every policy |
| Router.UnpairedSurrogateReinterpreted | include/wutils.hpp:126-128 | a lone surrogate in a 16-bit wstring passes to u16string unchecked and flagged valid |
| Router.KernelByDestination | include/wutils.hpp:220-237 | the kernel overload only joins two different Unicode forms, and it runs the converter the destination selects |
| Router.Convert | include/wutils.hpp:210-281 | wutils::convert: its own contract says only that the output fits the destination kind; which overloads run and what they compute is stated by Router.RouteSemantics, Router.OverloadResolution and Router.RouteBound |
| Router.RouteSemantics | include/wutils.hpp:239-281 | any convert call copies its input when both kinds share a pivot, and otherwise equals the kernel conversion between the two pivots, with the flag passed through unchanged |
| Router.RouteBound | include/wutils.hpp:210-281 | overload resolution passes through at most three overloads and calls the kernel once, or never for an implicit pair |
| Router.RoundTripThroughKind | include/wutils.hpp:301-337 | well-formed UTF-8 converted by any wrapper to any kind and back with u8s is returned unchanged and valid |
| Router.Wrapper | include/wutils.hpp:300-337 | u8s, u16s, u32s, ws and s, each convert to a fixed kind: its own contract says only that the output fits the wrapper's kind; Router.RoundTripThroughKind gives the round trip through each of them |
| Router.Us | include/wutils.hpp:321-325 | us is the wrapper for uchar_t: it equals Router.Wrapper at UChar, that is u16s when wchar_t is 16 bits wide and u32s when it is 32, so Router.RoundTripThroughKind covers it |
| Router.WsToUs | include/wutils.hpp:284-286 | ws_to_us joins kinds of the same unit width: the result fits uchar_t, and a wstring whose units fit wchar_t passes unchanged (Router.CastFitting) |
| Router.UsToWs | include/wutils.hpp:288-290 | us_to_ws joins kinds of the same unit width: the result fits wchar_t, and a ustring whose units fit uchar_t passes unchanged |
| Router.SToU8s | include/wutils.hpp:292-294 | s_to_u8s reinterprets char as char8_t: the result fits char8_t, and a string of bytes passes unchanged |
| Router.U8sToS | include/wutils.hpp:296-298 | u8s_to_s reinterprets char8_t as char: the result fits char, and a u8string passes unchanged |
| Router.WideTextWidth | include/wutils.hpp:343-346 | the width of a wstring converted from well-formed UTF-8 equals the width of that UTF-8 text |
| Router.WsWidth | include/wutils.hpp:343-346 | wswidth: its own contract says only that the width is at least -1; Router.WideTextWidth relates it to uswidth of the text |
| Combining.KuhnSorted | src/wutils.cpp:159-300 | Kuhn's 142 intervals are non-empty, disjoint and in ascending order |
| Combining.TableShape | src/wutils.cpp:158-304 | the combining table (the constant `Combining.Table`, which has no contract of its own) has 144 rows, its first 142 are Kuhn's sorted rows, and the two appended rows are the skin tones and U+200D, which already lies in row 114 |
| Combining.TableOutOfOrder | src/wutils.cpp:301-303 | because U+200D is appended after the skin tones, the table as a whole is not sorted, although bisearch assumes it is |
| Width.Search | src/wutils.cpp:110-120 | a true answer from the search loop names an interval between the bounds that contains the codepoint |
| Width.BiSearch | src/wutils.cpp:104-121 | bisearch only answers true for a codepoint inside some interval and inside the first and last rows' range |
| Width.BiSearchSorted | src/wutils.cpp:104-121 | on a table of non-empty, disjoint, ascending intervals, bisearch answers true exactly when some interval contains the codepoint |
| Width.BiSearchOnTable | src/wutils.cpp:313-314 | on the actual table, bisearch answers true exactly when the codepoint is at most U+200D and lies in one of Kuhn's intervals |
| Width.WcWidth | src/wutils.cpp:155-335 | the width is -1, 0, 1 or 2; it is -1 exactly for the C0 and C1 controls; NUL has width 0 |
| Width.WcWidthClasses | src/wutils.cpp:306-334 | the width is 0 for NUL, -1 for controls, 0 for table members that bisearch can reach, 2 for the East Asian wide and emoji ranges, and 1 otherwise |
| Width.MissedNonSpacing | src/wutils.cpp:301-314 | U+FE0F, U+20D0 and U+302A lie in the table but get widths 1, 1 and 2, because the search stops at U+200D |
| Width.AboveJoiner | src/wutils.cpp:313-334 | above U+200D the table is never consulted: the width is 2 on the wide ranges and 1 elsewhere |
| Width.CombiningAcute | src/wutils.cpp:159 | U+0301 is a non-spacing mark of width 0 |
| Width.SkipModifiers | src/wutils.cpp:361-387 | the modifier loop stops at the end, at NUL or at a unit that is not a modifier, and every unit it skips is neither NUL nor a control |
| Width.Scan | src/wutils.cpp:343-396 | the outer loop of mk_wcswidth from a position: its own contract says only that the result is at least -1; Width.ScanResult, Width.NoEmojiIsKuhn, Width.EmojiSequence and Width.WcsWidthLoop give its meaning |
| Width.WcsWidth | src/wutils.cpp:338-397 | mk_wcswidth over a whole string: its own contract says only that the width is at least -1; the lemmas named for Width.Scan give its meaning |
| Width.ScanResult | src/wutils.cpp:338-397 | mk_wcswidth returns -1 exactly when a control occurs before the first NUL; otherwise the result is at most twice the number of characters it counts, and it counts no more characters than precede the first NUL |
| Width.NoEmojiIsKuhn | src/wutils.cpp:388-393 | on text without emoji bases, mk_wcswidth is Kuhn's sum of mk_wcwidth up to the first NUL or control |
| Width.PrintableAscii | src/wutils.cpp:338-397 | printable ASCII text is as wide as it is long |
| Width.EmojiSequence | src/wutils.cpp:354-387 | an emoji base followed by skin tones, variation selectors, tags and ZWJ-joined emoji counts as the base alone, and the scan resumes after the sequence |
| Width.WcsWidthLoop | src/wutils.cpp:338-397 | the source's nested loop computes exactly the recursive definition of the string width |
| Width.UsWidth | src/wutils.cpp:401-415 | the three uswidth overloads: its own contract says only that the width is at least -1; Width.WidthOfEncoding (every encoding of a text measures as the text) and Width.WidthInvariant give its meaning |
| Width.WidthOfEncoding | src/wutils.cpp:401-415 | uswidth of the UTF-8, UTF-16 or UTF-32 encoding of a text equals the width of its scalar values |
| Width.WidthInvariant | src/wutils.cpp:401-415 | converting well-formed text between encodings, under any policy, does not change its uswidth |
| WidthVectors.HelloWorldWidth | tests/test_module.cpp:12-34 | "Hello, World!" has width 13 |
| WidthVectors.ResumeWidth | tests/test_module.cpp:12-34 | "Résumé" has width 6 |
| WidthVectors.EmptyWidth | tests/test_module.cpp:12-34 | the empty string has width 0 |
| WidthVectors.OldItalicWidth | tests/test_module.cpp:12-34 | four Old Italic letters have width 4 |
| WidthVectors.MathematicsWidth | tests/test_module.cpp:12-34 | double-struck "Mathematics" has width 11 |
| WidthVectors.ExtensionB1Width | tests/test_module.cpp:12-34 | five CJK Extension B ideographs have width 10 |
| WidthVectors.ExtensionB2Width | tests/test_module.cpp:12-34 | U+20BB7 has width 2 |
| WidthVectors.ExtensionB3Width | tests/test_module.cpp:12-34 | three Extension B ideographs have width 6 |
| WidthVectors.MixedHanWidth | tests/test_module.cpp:12-34 | an Extension B ideograph followed by a BMP ideograph has width 4 |
| WidthVectors.ExtensionB4Width | tests/test_module.cpp:12-34 | three further Extension B ideographs have width 6 |
| WidthVectors.ExtensionCWidth | tests/test_module.cpp:12-34 | three Extension C ideographs have width 6 |
| WidthVectors.ArabicWidth | tests/test_module.cpp:12-34 | the vowelled Arabic word has width 7, with its harakat counted as 0 |
| WidthVectors.TearsOfJoyWidth | tests/test_module.cpp:12-34 | three face-with-tears-of-joy emoji have width 6 |
| WidthVectors.GlobesWidth | tests/test_module.cpp:12-34 | three globe emoji have width 6 |
| WidthVectors.AstronautWidth | tests/test_module.cpp:12-34 | woman, skin tone, ZWJ, rocket is one emoji of width 2 |
| WidthVectors.FamilyWidth | tests/test_module.cpp:12-34 | the ZWJ family sequence is one emoji of width 2 |

## Left out

- Console output is not modelled. It is I/O (`wcout`, `wcerr`, `wprint`, `wprintln`, and their Windows `WriteConsoleW` versions).
- An 8-bit `wchar_t` is not modelled. The header allows one, but no platform it targets has one: `Router.UChar` covers the 16- and 32-bit cases.
- The C++ template machinery is modelled by what it selects, not by how. That covers the concepts `BasicString` and `BasicStringView`, `instantiation_of`, `if constexpr`, and the three `convert_implicitly` implementations, which compute the same thing.
- The `std::string`/`std::u8string` value types are left out. Strings are sequences of unsigned unit values, and a signed `char` is read as its byte pattern.
- Width.Scan: the `int` accumulator in `mk_wcswidth` cannot overflow in the model, because integers are unbounded. A text wide enough to overflow it would need more than a billion characters.
- Width.Scan: the source reads `*p` before it tests `remaining` (src/wutils.cpp:343). That reads one unit past a view that is not NUL-terminated. The model stops at the end of the sequence, as the `remaining` test intends, and does not model the out-of-bounds read.
- The character tables are not checked against the Unicode Character Database. The model reproduces the library's own table and wide ranges entry for entry, including Kuhn's Unicode 5.0 data.
- The `uswidth` wrappers' conversion to UTF-32 is not modelled separately. It is `Transcode.Directed` under SkipInvalidValues.
- The identity overloads `detail::u8(u8string_view)`, `detail::u16(u16string_view)` and `detail::u32(u32string_view)` are plain copies, and `Transcode.Convert` returns its input for them. No property is stated about them alone. `convert` never reaches them, because a same-kind pair is implicit and takes overload 1 (`Router.ImplicitIsCopy`).
- `ConversionResult`'s `operator*` and `operator->` are plain member access. Its `operator bool` is the `isValid` field (`ConversionResult.AsBool`).
- The top-level `wutils.hpp` is the same header as `include/wutils.hpp` and is modelled with it. The top-level `wutils.cpp` is an older version of `src/wutils.cpp` and is not part of this model. `testwutils.cpp` repeats the test vectors of `tests/test_module.cpp` in another test framework, so those vectors are modelled once.
- `example.cpp` and `test.hpp` are not part of this model. They are a usage demo and the header of the test framework.
