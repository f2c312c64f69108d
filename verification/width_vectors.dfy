/**
 The width cases of tests/test_module.cpp (WidthCalculation): the number of
 columns uswidth gives sixteen UTF-8 texts, as lemmas about the width model.
 Each text is written as its codepoints; WidthOfEncoding carries a width
 over to the UTF-8 that encodes them.
 */
module WidthVectors {
  import opened Unicode
  import opened Combining
  import opened Width
  import Transcode

  // ---------------------------------------------------------------------------
  // Text without emoji
  // ---------------------------------------------------------------------------

  /**
   Codepoints whose width follows from where they lie: printable ASCII,
   Latin-1 letters below the first table interval, the Arabic letters and
   harakat, and anything above U+200D that is not an emoji base.
   */
  predicate Plain(u: U32) {
    !IsEmojiBase(u)
    && ((0x20 <= u < 0x7F) || (0xA0 <= u < 0x300) || (0x0616 <= u <= 0x065E) || u > 0x200D)
  }

  /** The expected columns of a plain codepoint: none for the harakat, two in the wide ranges. */
  function Columns(u: U32): int {
    if 0x064B <= u <= 0x065E then 0 else if IsWide(u) then 2 else 1
  }

  /** The expected columns of a text from index i on. */
  function TotalFrom(s: seq<U32>, i: nat): nat
    requires i <= |s|
    decreases |s| - i
  {
    if i == |s| then 0 else Columns(s[i]) + TotalFrom(s, i + 1)
  }

  /** mk_wcwidth of a plain codepoint is its expected columns. */
  lemma PlainWidth(u: U32)
    requires Plain(u)
    ensures WcWidth(u) == Columns(u)
  {
    BiSearchOnTable(u);
    if u < 0x300 {
      TableShape();
    } else if u <= 0x064A {
      TableShape();
      ArabicIntervals();
      Gap(u, Table, 142, 9);
    } else if u <= 0x065E {
      ArabicIntervals();
      assert Contains(Table[10], u);
    } else {
      AboveJoiner(u);
    }
  }

  /** A text of plain codepoints is as wide as its expected columns. */
  lemma {:induction false} PlainText(s: seq<U32>, i: nat)
    requires i <= |s|
    requires forall m | i <= m < |s| :: Plain(s[m])
    ensures Scan(s, i) == TotalFrom(s, i)
    decreases |s| - i
  {
    if i < |s| {
      PlainWidth(s[i]);
      PlainText(s, i + 1);
    }
  }

  /** A text of plain codepoints of c columns each is c columns per codepoint. */
  lemma {:induction false} UniformText(s: seq<U32>, i: nat, c: int)
    requires i <= |s|
    requires forall m | i <= m < |s| :: Plain(s[m]) && Columns(s[m]) == c
    ensures Scan(s, i) == c * (|s| - i)
    decreases |s| - i
  {
    if i < |s| {
      PlainWidth(s[i]);
      UniformText(s, i + 1, c);
    }
  }

  /** A run of emoji bases from U+1F000 on, without modifiers, is two columns each. */
  lemma {:induction false} EmojiRun(s: seq<U32>, i: nat)
    requires i <= |s|
    requires forall m | i <= m < |s| :: 0x1F000 <= s[m] <= 0x1FAFF && !IsModifier(s[m])
    ensures Scan(s, i) == 2 * (|s| - i)
    decreases |s| - i
  {
    if i < |s| {
      ScanEmoji(s, i, i + 1);
      EmojiRun(s, i + 1);
    }
  }

  /** uswidth of UTF-8 text is the width of the codepoints it encodes. */
  lemma Utf8Width(cps: seq<Scalar>, n: int)
    requires Scan(cps, 0) == n
    ensures UsWidth(Transcode.UTF8, Transcode.EncodeAll(Transcode.UTF8, cps)) == n
  {
    WidthOfEncoding(Transcode.UTF8, cps);
  }

  // ---------------------------------------------------------------------------
  // The texts
  // ---------------------------------------------------------------------------

  const HelloWorld: seq<Scalar> :=  // "Hello, World!"
    [0x48, 0x65, 0x6C, 0x6C, 0x6F, 0x2C, 0x20, 0x57, 0x6F, 0x72, 0x6C, 0x64, 0x21]
  const Resume: seq<Scalar> := [0x52, 0xE9, 0x73, 0x75, 0x6D, 0xE9]  // "Résumé", precomposed
  const TearsOfJoy: seq<Scalar> := [0x1F602, 0x1F602, 0x1F602]
  const Empty: seq<Scalar> := []
  const Astronaut: seq<Scalar> := [0x1F469, 0x1F3FC, 0x200D, 0x1F680]  // woman, skin tone, ZWJ, rocket
  const OldItalic: seq<Scalar> := [0x10300, 0x1030D, 0x10313, 0x10300]
  const Mathematics: seq<Scalar> :=  // double-struck "Mathematics"
    [0x1D544, 0x1D552, 0x1D565, 0x1D559, 0x1D556, 0x1D55E, 0x1D552, 0x1D565, 0x1D55A, 0x1D554, 0x1D564]
  const Globes: seq<Scalar> := [0x1F30D, 0x1F30E, 0x1F30F]
  const Family: seq<Scalar> := [0x1F468, 0x200D, 0x1F469, 0x200D, 0x1F467, 0x200D, 0x1F466]
  const ExtensionB1: seq<Scalar> := [0x2053B, 0x2054B, 0x2058A, 0x2058D, 0x20590]
  const ExtensionB2: seq<Scalar> := [0x20BB7]
  const ExtensionB3: seq<Scalar> := [0x20024, 0x20027, 0x20040]
  const MixedHan: seq<Scalar> := [0x2029B, 0x597D]
  const ExtensionB4: seq<Scalar> := [0x2A6A5, 0x2A1B7, 0x2A0F9]
  const ExtensionC: seq<Scalar> := [0x2A708, 0x2A70B, 0x2A70C]
  const Arabic: seq<Scalar> :=  // "al-'arabiyyatu" with its harakat
    [0x0627, 0x064E, 0x0644, 0x0652, 0x0639, 0x064E, 0x0631, 0x064E,
     0x0628, 0x0650, 0x064A, 0x064E, 0x0651, 0x0629, 0x064F]

  /**
   The Arabic text as a literal expression: unlike the constant, it lets the
   verifier sum the columns outright.
   */
  function ArabicLiteral(): seq<U32> {
    [0x0627, 0x064E, 0x0644, 0x0652, 0x0639, 0x064E, 0x0631, 0x064E,
     0x0628, 0x0650, 0x064A, 0x064E, 0x0651, 0x0629, 0x064F]
  }

  /** The Arabic text has seven letters, each with its harakat, which take no column. */
  lemma ArabicTotal()
    ensures TotalFrom(ArabicLiteral(), 0) == 7
  {
    assert TotalFrom(ArabicLiteral(), 8) == 3;
  }

  /** The Arabic text is as wide as its expected columns. */
  lemma ArabicColumns()
    ensures Scan(Arabic, 0) == 7
  {
    PlainText(Arabic, 0);
    ArabicTotal();
    assert Arabic == ArabicLiteral();
  }

  /** tests/test_module.cpp, WidthCalculation: "Hello, World!" is 13 columns. */
  lemma HelloWorldWidth()
    ensures UsWidth(Transcode.UTF8, Transcode.EncodeAll(Transcode.UTF8, HelloWorld)) == 13
  {
    UniformText(HelloWorld, 0, 1);
    Utf8Width(HelloWorld, 13);
  }

  /** tests/test_module.cpp, WidthCalculation: "Résumé", with precomposed accents, is 6 columns. */
  lemma ResumeWidth()
    ensures UsWidth(Transcode.UTF8, Transcode.EncodeAll(Transcode.UTF8, Resume)) == 6
  {
    UniformText(Resume, 0, 1);
    Utf8Width(Resume, 6);
  }

  /** tests/test_module.cpp, WidthCalculation: the empty text is 0 columns. */
  lemma EmptyWidth()
    ensures UsWidth(Transcode.UTF8, Transcode.EncodeAll(Transcode.UTF8, Empty)) == 0
  {
    UniformText(Empty, 0, 0);
    Utf8Width(Empty, 0);
  }

  /** tests/test_module.cpp, WidthCalculation: four Old Italic letters are 4 columns. */
  lemma OldItalicWidth()
    ensures UsWidth(Transcode.UTF8, Transcode.EncodeAll(Transcode.UTF8, OldItalic)) == 4
  {
    UniformText(OldItalic, 0, 1);
    Utf8Width(OldItalic, 4);
  }

  /** tests/test_module.cpp, WidthCalculation: eleven double-struck letters are 11 columns. */
  lemma MathematicsWidth()
    ensures UsWidth(Transcode.UTF8, Transcode.EncodeAll(Transcode.UTF8, Mathematics)) == 11
  {
    UniformText(Mathematics, 0, 1);
    Utf8Width(Mathematics, 11);
  }

  /** tests/test_module.cpp, WidthCalculation: five CJK Extension B ideographs are 10 columns. */
  lemma ExtensionB1Width()
    ensures UsWidth(Transcode.UTF8, Transcode.EncodeAll(Transcode.UTF8, ExtensionB1)) == 10
  {
    UniformText(ExtensionB1, 0, 2);
    Utf8Width(ExtensionB1, 10);
  }

  /** tests/test_module.cpp, WidthCalculation: one CJK Extension B ideograph is 2 columns. */
  lemma ExtensionB2Width()
    ensures UsWidth(Transcode.UTF8, Transcode.EncodeAll(Transcode.UTF8, ExtensionB2)) == 2
  {
    UniformText(ExtensionB2, 0, 2);
    Utf8Width(ExtensionB2, 2);
  }

  /** tests/test_module.cpp, WidthCalculation: three CJK Extension B ideographs are 6 columns. */
  lemma ExtensionB3Width()
    ensures UsWidth(Transcode.UTF8, Transcode.EncodeAll(Transcode.UTF8, ExtensionB3)) == 6
  {
    UniformText(ExtensionB3, 0, 2);
    Utf8Width(ExtensionB3, 6);
  }

  /** tests/test_module.cpp, WidthCalculation: an Extension B ideograph and a BMP one are 4 columns. */
  lemma MixedHanWidth()
    ensures UsWidth(Transcode.UTF8, Transcode.EncodeAll(Transcode.UTF8, MixedHan)) == 4
  {
    UniformText(MixedHan, 0, 2);
    Utf8Width(MixedHan, 4);
  }

  /** tests/test_module.cpp, WidthCalculation: three further Extension B ideographs are 6 columns. */
  lemma ExtensionB4Width()
    ensures UsWidth(Transcode.UTF8, Transcode.EncodeAll(Transcode.UTF8, ExtensionB4)) == 6
  {
    UniformText(ExtensionB4, 0, 2);
    Utf8Width(ExtensionB4, 6);
  }

  /** tests/test_module.cpp, WidthCalculation: three CJK Extension C ideographs are 6 columns. */
  lemma ExtensionCWidth()
    ensures UsWidth(Transcode.UTF8, Transcode.EncodeAll(Transcode.UTF8, ExtensionC)) == 6
  {
    UniformText(ExtensionC, 0, 2);
    Utf8Width(ExtensionC, 6);
  }

  /** tests/test_module.cpp, WidthCalculation: the Arabic text with its harakat is 7 columns. */
  lemma ArabicWidth()
    ensures UsWidth(Transcode.UTF8, Transcode.EncodeAll(Transcode.UTF8, Arabic)) == 7
  {
    ArabicColumns();
    Utf8Width(Arabic, 7);
  }

  /** tests/test_module.cpp, WidthCalculation: three laughing faces are 6 columns. */
  lemma TearsOfJoyWidth()
    ensures UsWidth(Transcode.UTF8, Transcode.EncodeAll(Transcode.UTF8, TearsOfJoy)) == 6
  {
    EmojiRun(TearsOfJoy, 0);
    Utf8Width(TearsOfJoy, 6);
  }

  /** tests/test_module.cpp, WidthCalculation: three globes are 6 columns. */
  lemma GlobesWidth()
    ensures UsWidth(Transcode.UTF8, Transcode.EncodeAll(Transcode.UTF8, Globes)) == 6
  {
    EmojiRun(Globes, 0);
    Utf8Width(Globes, 6);
  }

  /**
   tests/test_module.cpp, WidthCalculation: the astronaut, a woman with a
   skin tone joined to a rocket, is 2 columns, the width of the woman.
   */
  lemma AstronautWidth()
    ensures UsWidth(Transcode.UTF8, Transcode.EncodeAll(Transcode.UTF8, Astronaut)) == 2
  {
    var pieces := [Single(0x1F3FC), Joined(0x1F680)];
    assert Units(pieces) == Astronaut[1..];
    EmojiSequence(Astronaut, 0, pieces);
    Utf8Width(Astronaut, 2);
  }

  /**
   tests/test_module.cpp, WidthCalculation: the family, a man joined to a
   woman, a girl and a boy, is 2 columns, the width of the man.
   */
  lemma FamilyWidth()
    ensures UsWidth(Transcode.UTF8, Transcode.EncodeAll(Transcode.UTF8, Family)) == 2
  {
    var pieces := [Joined(0x1F469), Joined(0x1F467), Joined(0x1F466)];
    assert Units(pieces) == Family[1..];
    EmojiSequence(Family, 0, pieces);
    Utf8Width(Family, 2);
  }
}
