/**
 The error-handling cases of tests/test_module.cpp, as lemmas about the
 converter model: a UTF-8 text with an overlong pair and a stray 0xFF, and
 a UTF-16 text with an unpaired high and an unpaired low surrogate, each
 under the three policies.
 */
module TestVectors {
  import opened Unicode
  import opened Transcode

  const Start: seq<U32> := [0x73, 0x74, 0x61, 0x72, 0x74, 0x5F]              // "start_"
  const Middle: seq<U32> := [0x5F, 0x6D, 0x69, 0x64, 0x64, 0x6C, 0x65, 0x5F] // "_middle_"
  const End: seq<U32> := [0x5F, 0x65, 0x6E, 0x64]                            // "_end"

  /** "start_", the overlong pair C0 AF, "_middle_", FF, "_end". */
  const BadUtf8: seq<U32> := Start + [0xC0, 0xAF] + Middle + [0xFF] + End

  /** "start_", an unpaired D800, "_middle_", an unpaired DFFF, "_end". */
  const BadUtf16: seq<U32> := Start + [0xD800] + Middle + [0xDFFF] + End

  lemma AsciiParts()
    ensures IsAscii(Start) && IsAscii(Middle) && IsAscii(End)
  {
  }

  lemma AsciiOnly(src: Form, dst: Form, a: seq<U32>, policy: ErrorPolicy)
    requires IsAscii(a)
    ensures Fits(src, a) && Directed(src, dst, a, policy) == ConversionResult(a, true)
  {
    AsciiPrefix(src, dst, a, [], policy);
    assert a + [] == a;
  }

  /** Text around two rejected units: ASCII `a`, a rejected unit, `b`, another, `c`. */
  predicate Shape(src: Form, a: seq<U32>, u: U32, b: seq<U32>, v: U32, c: seq<U32>) {
    IsAscii(a) && IsAscii(b) && IsAscii(c)
    && Fits(src, [u] + (b + ([v] + c))) && Step(src, [u] + (b + ([v] + c))) == Rejected
    && Fits(src, [v] + c) && Step(src, [v] + c) == Rejected
  }

  lemma {:induction false} ReplaceTwo(src: Form, dst: Form, a: seq<U32>, u: U32, b: seq<U32>, v: U32, c: seq<U32>)
    requires Shape(src, a, u, b, v, c)
    ensures Fits(src, a + ([u] + (b + ([v] + c))))
    ensures Directed(src, dst, a + ([u] + (b + ([v] + c))), UseReplacementCharacter)
         == ConversionResult(a + (ReplacementUnits(dst) + (b + (ReplacementUnits(dst) + c))), false)
  {
    var p := UseReplacementCharacter;
    AsciiOnly(src, dst, c, p);
    RejectedUnit(src, dst, v, c, p);
    AsciiPrefix(src, dst, b, [v] + c, p);
    RejectedUnit(src, dst, u, b + ([v] + c), p);
    AsciiPrefix(src, dst, a, [u] + (b + ([v] + c)), p);
  }

  lemma {:induction false} SkipTwo(src: Form, dst: Form, a: seq<U32>, u: U32, b: seq<U32>, v: U32, c: seq<U32>)
    requires Shape(src, a, u, b, v, c)
    ensures Fits(src, a + ([u] + (b + ([v] + c))))
    ensures Directed(src, dst, a + ([u] + (b + ([v] + c))), SkipInvalidValues) == ConversionResult(a + (b + c), false)
  {
    var p := SkipInvalidValues;
    AsciiOnly(src, dst, c, p);
    RejectedUnit(src, dst, v, c, p);
    AsciiPrefix(src, dst, b, [v] + c, p);
    RejectedUnit(src, dst, u, b + ([v] + c), p);
    AsciiPrefix(src, dst, a, [u] + (b + ([v] + c)), p);
  }

  lemma {:induction false} StopFirst(src: Form, dst: Form, a: seq<U32>, u: U32, b: seq<U32>, v: U32, c: seq<U32>)
    requires Shape(src, a, u, b, v, c)
    ensures Fits(src, a + ([u] + (b + ([v] + c))))
    ensures Directed(src, dst, a + ([u] + (b + ([v] + c))), StopOnFirstError) == ConversionResult(a, false)
  {
    var p := StopOnFirstError;
    RejectedUnit(src, dst, u, b + ([v] + c), p);
    AsciiPrefix(src, dst, a, [u] + (b + ([v] + c)), p);
    assert a + [] == a;
  }

  /** Text around the invalid UTF-8 of the tests: ASCII `a`, C0 AF, ASCII `b`, FF, ASCII `c`. */
  function Utf8Case(a: seq<U32>, b: seq<U32>, c: seq<U32>): seq<U32> {
    a + ([0xC0] + ([0xAF] + (b + ([0xFF] + c))))
  }

  /** C0 (a lead byte that no sequence may start with), AF (a stray continuation byte) and FF are each rejected alone. */
  lemma Utf8Rejections(b: seq<U32>, c: seq<U32>)
    requires IsAscii(b) && IsAscii(c)
    ensures Fits(UTF8, [0xFF] + c) && Step(UTF8, [0xFF] + c) == Rejected
    ensures Fits(UTF8, b + ([0xFF] + c))
    ensures Fits(UTF8, [0xAF] + (b + ([0xFF] + c))) && Step(UTF8, [0xAF] + (b + ([0xFF] + c))) == Rejected
    ensures Fits(UTF8, [0xC0] + ([0xAF] + (b + ([0xFF] + c)))) && Step(UTF8, [0xC0] + ([0xAF] + (b + ([0xFF] + c)))) == Rejected
  {
    AsciiPrefix(UTF8, UTF32, b, [0xFF] + c, SkipInvalidValues);
    FitsAppend(UTF8, [0xAF], b + ([0xFF] + c));
    FitsAppend(UTF8, [0xC0], [0xAF] + (b + ([0xFF] + c)));
  }

  lemma {:induction false} Utf8ReplaceCase(a: seq<U32>, b: seq<U32>, c: seq<U32>)
    requires IsAscii(a) && IsAscii(b) && IsAscii(c)
    ensures Fits(UTF8, Utf8Case(a, b, c))
    ensures Directed(UTF8, UTF32, Utf8Case(a, b, c), UseReplacementCharacter)
         == ConversionResult(a + ([0xFFFD] + ([0xFFFD] + (b + ([0xFFFD] + c)))), false)
  {
    var p := UseReplacementCharacter;
    Utf8Rejections(b, c);
    AsciiOnly(UTF8, UTF32, c, p);
    RejectedUnit(UTF8, UTF32, 0xFF, c, p);
    AsciiPrefix(UTF8, UTF32, b, [0xFF] + c, p);
    RejectedUnit(UTF8, UTF32, 0xAF, b + ([0xFF] + c), p);
    RejectedUnit(UTF8, UTF32, 0xC0, [0xAF] + (b + ([0xFF] + c)), p);
    AsciiPrefix(UTF8, UTF32, a, [0xC0] + ([0xAF] + (b + ([0xFF] + c))), p);
  }

  lemma {:induction false} Utf8SkipCase(a: seq<U32>, b: seq<U32>, c: seq<U32>)
    requires IsAscii(a) && IsAscii(b) && IsAscii(c)
    ensures Fits(UTF8, Utf8Case(a, b, c))
    ensures Directed(UTF8, UTF32, Utf8Case(a, b, c), SkipInvalidValues) == ConversionResult(a + (b + c), false)
  {
    var p := SkipInvalidValues;
    Utf8Rejections(b, c);
    AsciiOnly(UTF8, UTF32, c, p);
    RejectedUnit(UTF8, UTF32, 0xFF, c, p);
    AsciiPrefix(UTF8, UTF32, b, [0xFF] + c, p);
    RejectedUnit(UTF8, UTF32, 0xAF, b + ([0xFF] + c), p);
    RejectedUnit(UTF8, UTF32, 0xC0, [0xAF] + (b + ([0xFF] + c)), p);
    AsciiPrefix(UTF8, UTF32, a, [0xC0] + ([0xAF] + (b + ([0xFF] + c))), p);
  }

  lemma {:induction false} Utf8StopCase(a: seq<U32>, b: seq<U32>, c: seq<U32>)
    requires IsAscii(a) && IsAscii(b) && IsAscii(c)
    ensures Fits(UTF8, Utf8Case(a, b, c))
    ensures Directed(UTF8, UTF32, Utf8Case(a, b, c), StopOnFirstError) == ConversionResult(a, false)
  {
    var p := StopOnFirstError;
    Utf8Rejections(b, c);
    RejectedUnit(UTF8, UTF32, 0xC0, [0xAF] + (b + ([0xFF] + c)), p);
    AsciiPrefix(UTF8, UTF32, a, [0xC0] + ([0xAF] + (b + ([0xFF] + c))), p);
    assert a + [] == a;
  }

  lemma Reassociate(a: seq<U32>, x: seq<U32>, b: seq<U32>, y: seq<U32>, c: seq<U32>)
    ensures a + (x + (b + (y + c))) == a + x + b + y + c
    ensures a + (b + c) == a + b + c
  {
  }

  lemma Utf8Parts()
    ensures BadUtf8 == Utf8Case(Start, Middle, End)
  {
  }

  lemma Utf16Parts()
    ensures BadUtf16 == Start + ([0xD800] + (Middle + ([0xDFFF] + End)))
    ensures Shape(UTF16, Start, 0xD800, Middle, 0xDFFF, End)
  {
  }

  /** tests/test_module.cpp, InvalidUTF8UseReplacementCharacter: each invalid byte becomes U+FFFD. */
  lemma Utf8Replace()
    ensures Directed(UTF8, UTF32, BadUtf8, UseReplacementCharacter)
         == ConversionResult(Start + [0xFFFD, 0xFFFD] + Middle + [0xFFFD] + End, false)
  {
    AsciiParts();
    Utf8Parts();
    Utf8ReplaceCase(Start, Middle, End);
    assert [0xFFFD] + ([0xFFFD] + (Middle + ([0xFFFD] + End))) == [0xFFFD, 0xFFFD] + (Middle + ([0xFFFD] + End));
    Reassociate(Start, [0xFFFD, 0xFFFD], Middle, [0xFFFD], End);
  }

  /** tests/test_module.cpp, InvalidUTF8SkipInvalidValues: the invalid bytes are dropped. */
  lemma Utf8Skip()
    ensures Directed(UTF8, UTF32, BadUtf8, SkipInvalidValues) == ConversionResult(Start + Middle + End, false)
  {
    AsciiParts();
    Utf8Parts();
    Utf8SkipCase(Start, Middle, End);
    Reassociate(Start, [], Middle, [], End);
  }

  /** tests/test_module.cpp, InvalidUTF8StopOnFirstError: only "start_" is kept. */
  lemma Utf8Stop()
    ensures Directed(UTF8, UTF32, BadUtf8, StopOnFirstError) == ConversionResult(Start, false)
  {
    AsciiParts();
    Utf8Parts();
    Utf8StopCase(Start, Middle, End);
  }

  /** tests/test_module.cpp, InvalidUTF16UseReplacementCharacter: each unpaired surrogate becomes EF BF BD. */
  lemma Utf16Replace()
    ensures Directed(UTF16, UTF8, BadUtf16, UseReplacementCharacter)
         == ConversionResult(Start + [0xEF, 0xBF, 0xBD] + Middle + [0xEF, 0xBF, 0xBD] + End, false)
  {
    AsciiParts();
    Utf16Parts();
    ReplaceTwo(UTF16, UTF8, Start, 0xD800, Middle, 0xDFFF, End);
    Reassociate(Start, ReplacementChar8, Middle, ReplacementChar8, End);
  }

  /** tests/test_module.cpp, InvalidUTF16SkipInvalidValues: the surrogates are dropped. */
  lemma Utf16Skip()
    ensures Directed(UTF16, UTF8, BadUtf16, SkipInvalidValues) == ConversionResult(Start + Middle + End, false)
  {
    AsciiParts();
    Utf16Parts();
    SkipTwo(UTF16, UTF8, Start, 0xD800, Middle, 0xDFFF, End);
    Reassociate(Start, [], Middle, [], End);
  }

  /** tests/test_module.cpp, InvalidUTF16StopOnFirstError: only "start_" is kept. */
  lemma Utf16Stop()
    ensures Directed(UTF16, UTF8, BadUtf16, StopOnFirstError) == ConversionResult(Start, false)
  {
    AsciiParts();
    Utf16Parts();
    StopFirst(UTF16, UTF8, Start, 0xD800, Middle, 0xDFFF, End);
  }
}
