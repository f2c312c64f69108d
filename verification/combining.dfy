/**
 The interval table of mk_wcwidth (src/wutils.cpp), as literal data: the
 142 intervals of Markus Kuhn's table of non-spacing characters, in
 ascending order, followed by the two intervals the source appends for emoji
 (the skin-tone modifiers U+1F3FB..U+1F3FF and the zero width joiner
 U+200D). The appended pair breaks the ascending order, which bisearch
 relies on; see the Width module.

 The table is split into parts of twelve intervals so that the order of each
 part, and then of the whole, can be proved a step at a time.
 */
module Combining {

  /** An interval of codepoints, both ends included. */
  datatype Interval = Interval(first: int, last: int)

  predicate Contains(iv: Interval, ucs: int) {
    iv.first <= ucs <= iv.last
  }

  /** Some interval of the table contains the codepoint. */
  predicate InTable(ucs: int, t: seq<Interval>) {
    exists k | 0 <= k < |t| :: Contains(t[k], ucs)
  }

  /**
   From index i on, every interval is non-empty and ends below the start of
   the next one.
   */
  predicate AscendingFrom(t: seq<Interval>, i: nat)
    decreases |t| - i
  {
    i >= |t|
    || (t[i].first <= t[i].last
        && (i + 1 < |t| ==> t[i].last < t[i + 1].first)
        && AscendingFrom(t, i + 1))
  }

  /** The first p intervals are non-empty, disjoint and in ascending order. */
  predicate SortedPrefix(t: seq<Interval>, p: nat) {
    p <= |t|
    && (forall a | 0 <= a < p :: t[a].first <= t[a].last)
    && (forall a, b | 0 <= a < b < p :: t[a].last < t[b].first)
  }

  const Part0: seq<Interval> := [
    Interval(0x0300, 0x036F),
    Interval(0x0483, 0x0486),
    Interval(0x0488, 0x0489),
    Interval(0x0591, 0x05BD),
    Interval(0x05BF, 0x05BF),
    Interval(0x05C1, 0x05C2),
    Interval(0x05C4, 0x05C5),
    Interval(0x05C7, 0x05C7),
    Interval(0x0600, 0x0603),
    Interval(0x0610, 0x0615),
    Interval(0x064B, 0x065E),
    Interval(0x0670, 0x0670)
  ]

  const Part1: seq<Interval> := [
    Interval(0x06D6, 0x06E4),
    Interval(0x06E7, 0x06E8),
    Interval(0x06EA, 0x06ED),
    Interval(0x070F, 0x070F),
    Interval(0x0711, 0x0711),
    Interval(0x0730, 0x074A),
    Interval(0x07A6, 0x07B0),
    Interval(0x07EB, 0x07F3),
    Interval(0x0901, 0x0902),
    Interval(0x093C, 0x093C),
    Interval(0x0941, 0x0948),
    Interval(0x094D, 0x094D)
  ]

  const Part2: seq<Interval> := [
    Interval(0x0951, 0x0954),
    Interval(0x0962, 0x0963),
    Interval(0x0981, 0x0981),
    Interval(0x09BC, 0x09BC),
    Interval(0x09C1, 0x09C4),
    Interval(0x09CD, 0x09CD),
    Interval(0x09E2, 0x09E3),
    Interval(0x0A01, 0x0A02),
    Interval(0x0A3C, 0x0A3C),
    Interval(0x0A41, 0x0A42),
    Interval(0x0A47, 0x0A48),
    Interval(0x0A4B, 0x0A4D)
  ]

  const Part3: seq<Interval> := [
    Interval(0x0A70, 0x0A71),
    Interval(0x0A81, 0x0A82),
    Interval(0x0ABC, 0x0ABC),
    Interval(0x0AC1, 0x0AC5),
    Interval(0x0AC7, 0x0AC8),
    Interval(0x0ACD, 0x0ACD),
    Interval(0x0AE2, 0x0AE3),
    Interval(0x0B01, 0x0B01),
    Interval(0x0B3C, 0x0B3C),
    Interval(0x0B3F, 0x0B3F),
    Interval(0x0B41, 0x0B43),
    Interval(0x0B4D, 0x0B4D)
  ]

  const Part4: seq<Interval> := [
    Interval(0x0B56, 0x0B56),
    Interval(0x0B82, 0x0B82),
    Interval(0x0BC0, 0x0BC0),
    Interval(0x0BCD, 0x0BCD),
    Interval(0x0C3E, 0x0C40),
    Interval(0x0C46, 0x0C48),
    Interval(0x0C4A, 0x0C4D),
    Interval(0x0C55, 0x0C56),
    Interval(0x0CBC, 0x0CBC),
    Interval(0x0CBF, 0x0CBF),
    Interval(0x0CC6, 0x0CC6),
    Interval(0x0CCC, 0x0CCD)
  ]

  const Part5: seq<Interval> := [
    Interval(0x0CE2, 0x0CE3),
    Interval(0x0D41, 0x0D43),
    Interval(0x0D4D, 0x0D4D),
    Interval(0x0DCA, 0x0DCA),
    Interval(0x0DD2, 0x0DD4),
    Interval(0x0DD6, 0x0DD6),
    Interval(0x0E31, 0x0E31),
    Interval(0x0E34, 0x0E3A),
    Interval(0x0E47, 0x0E4E),
    Interval(0x0EB1, 0x0EB1),
    Interval(0x0EB4, 0x0EB9),
    Interval(0x0EBB, 0x0EBC)
  ]

  const Part6: seq<Interval> := [
    Interval(0x0EC8, 0x0ECD),
    Interval(0x0F18, 0x0F19),
    Interval(0x0F35, 0x0F35),
    Interval(0x0F37, 0x0F37),
    Interval(0x0F39, 0x0F39),
    Interval(0x0F71, 0x0F7E),
    Interval(0x0F80, 0x0F84),
    Interval(0x0F86, 0x0F87),
    Interval(0x0F90, 0x0F97),
    Interval(0x0F99, 0x0FBC),
    Interval(0x0FC6, 0x0FC6),
    Interval(0x102D, 0x1030)
  ]

  const Part7: seq<Interval> := [
    Interval(0x1032, 0x1032),
    Interval(0x1036, 0x1037),
    Interval(0x1039, 0x1039),
    Interval(0x1058, 0x1059),
    Interval(0x1160, 0x11FF),
    Interval(0x135F, 0x135F),
    Interval(0x1712, 0x1714),
    Interval(0x1732, 0x1734),
    Interval(0x1752, 0x1753),
    Interval(0x1772, 0x1773),
    Interval(0x17B4, 0x17B5),
    Interval(0x17B7, 0x17BD)
  ]

  const Part8: seq<Interval> := [
    Interval(0x17C6, 0x17C6),
    Interval(0x17C9, 0x17D3),
    Interval(0x17DD, 0x17DD),
    Interval(0x180B, 0x180D),
    Interval(0x18A9, 0x18A9),
    Interval(0x1920, 0x1922),
    Interval(0x1927, 0x1928),
    Interval(0x1932, 0x1932),
    Interval(0x1939, 0x193B),
    Interval(0x1A17, 0x1A18),
    Interval(0x1B00, 0x1B03),
    Interval(0x1B34, 0x1B34)
  ]

  const Part9: seq<Interval> := [
    Interval(0x1B36, 0x1B3A),
    Interval(0x1B3C, 0x1B3C),
    Interval(0x1B42, 0x1B42),
    Interval(0x1B6B, 0x1B73),
    Interval(0x1DC0, 0x1DCA),
    Interval(0x1DFE, 0x1DFF),
    Interval(0x200B, 0x200F),
    Interval(0x202A, 0x202E),
    Interval(0x2060, 0x2063),
    Interval(0x206A, 0x206F),
    Interval(0x20D0, 0x20EF),
    Interval(0x302A, 0x302F)
  ]

  const Part10: seq<Interval> := [
    Interval(0x3099, 0x309A),
    Interval(0xA806, 0xA806),
    Interval(0xA80B, 0xA80B),
    Interval(0xA825, 0xA826),
    Interval(0xFB1E, 0xFB1E),
    Interval(0xFE00, 0xFE0F),
    Interval(0xFE20, 0xFE23),
    Interval(0xFEFF, 0xFEFF),
    Interval(0xFFF9, 0xFFFB),
    Interval(0x10A01, 0x10A03),
    Interval(0x10A05, 0x10A06),
    Interval(0x10A0C, 0x10A0F)
  ]

  const Part11: seq<Interval> := [
    Interval(0x10A38, 0x10A3A),
    Interval(0x10A3F, 0x10A3F),
    Interval(0x1D167, 0x1D169),
    Interval(0x1D173, 0x1D182),
    Interval(0x1D185, 0x1D18B),
    Interval(0x1D1AA, 0x1D1AD),
    Interval(0x1D242, 0x1D244),
    Interval(0xE0001, 0xE0001),
    Interval(0xE0020, 0xE007F),
    Interval(0xE0100, 0xE01EF)
  ]

  /** The intervals of Kuhn's table: src/wutils.cpp lines 159-300. */
  const KuhnEntries: seq<Interval> :=
    Part0 + Part1 + Part2 + Part3 + Part4 + Part5 + Part6 + Part7 + Part8 + Part9 + Part10 + Part11

  /** The two intervals appended for emoji: src/wutils.cpp lines 301-303. */
  const EmojiEntries: seq<Interval> := [
    Interval(0x1F3FB, 0x1F3FF),
    Interval(0x200D, 0x200D)
  ]

  /** combining[] as declared, appended pair last. */
  const Table: seq<Interval> := KuhnEntries + EmojiEntries

  // ---------------------------------------------------------------------------
  // The order of the table
  // ---------------------------------------------------------------------------

  lemma Part0Ascending()
    ensures AscendingFrom(Part0, 0)
  {
    assert AscendingFrom(Part0, 11);
    assert AscendingFrom(Part0, 10);
    assert AscendingFrom(Part0, 9);
    assert AscendingFrom(Part0, 8);
    assert AscendingFrom(Part0, 7);
    assert AscendingFrom(Part0, 6);
    assert AscendingFrom(Part0, 5);
    assert AscendingFrom(Part0, 4);
    assert AscendingFrom(Part0, 3);
    assert AscendingFrom(Part0, 2);
    assert AscendingFrom(Part0, 1);
  }

  lemma Part1Ascending()
    ensures AscendingFrom(Part1, 0)
  {
    assert AscendingFrom(Part1, 11);
    assert AscendingFrom(Part1, 10);
    assert AscendingFrom(Part1, 9);
    assert AscendingFrom(Part1, 8);
    assert AscendingFrom(Part1, 7);
    assert AscendingFrom(Part1, 6);
    assert AscendingFrom(Part1, 5);
    assert AscendingFrom(Part1, 4);
    assert AscendingFrom(Part1, 3);
    assert AscendingFrom(Part1, 2);
    assert AscendingFrom(Part1, 1);
  }

  lemma Part2Ascending()
    ensures AscendingFrom(Part2, 0)
  {
    assert AscendingFrom(Part2, 11);
    assert AscendingFrom(Part2, 10);
    assert AscendingFrom(Part2, 9);
    assert AscendingFrom(Part2, 8);
    assert AscendingFrom(Part2, 7);
    assert AscendingFrom(Part2, 6);
    assert AscendingFrom(Part2, 5);
    assert AscendingFrom(Part2, 4);
    assert AscendingFrom(Part2, 3);
    assert AscendingFrom(Part2, 2);
    assert AscendingFrom(Part2, 1);
  }

  lemma Part3Ascending()
    ensures AscendingFrom(Part3, 0)
  {
    assert AscendingFrom(Part3, 11);
    assert AscendingFrom(Part3, 10);
    assert AscendingFrom(Part3, 9);
    assert AscendingFrom(Part3, 8);
    assert AscendingFrom(Part3, 7);
    assert AscendingFrom(Part3, 6);
    assert AscendingFrom(Part3, 5);
    assert AscendingFrom(Part3, 4);
    assert AscendingFrom(Part3, 3);
    assert AscendingFrom(Part3, 2);
    assert AscendingFrom(Part3, 1);
  }

  lemma Part4Ascending()
    ensures AscendingFrom(Part4, 0)
  {
    assert AscendingFrom(Part4, 11);
    assert AscendingFrom(Part4, 10);
    assert AscendingFrom(Part4, 9);
    assert AscendingFrom(Part4, 8);
    assert AscendingFrom(Part4, 7);
    assert AscendingFrom(Part4, 6);
    assert AscendingFrom(Part4, 5);
    assert AscendingFrom(Part4, 4);
    assert AscendingFrom(Part4, 3);
    assert AscendingFrom(Part4, 2);
    assert AscendingFrom(Part4, 1);
  }

  lemma Part5Ascending()
    ensures AscendingFrom(Part5, 0)
  {
    assert AscendingFrom(Part5, 11);
    assert AscendingFrom(Part5, 10);
    assert AscendingFrom(Part5, 9);
    assert AscendingFrom(Part5, 8);
    assert AscendingFrom(Part5, 7);
    assert AscendingFrom(Part5, 6);
    assert AscendingFrom(Part5, 5);
    assert AscendingFrom(Part5, 4);
    assert AscendingFrom(Part5, 3);
    assert AscendingFrom(Part5, 2);
    assert AscendingFrom(Part5, 1);
  }

  lemma Part6Ascending()
    ensures AscendingFrom(Part6, 0)
  {
    assert AscendingFrom(Part6, 11);
    assert AscendingFrom(Part6, 10);
    assert AscendingFrom(Part6, 9);
    assert AscendingFrom(Part6, 8);
    assert AscendingFrom(Part6, 7);
    assert AscendingFrom(Part6, 6);
    assert AscendingFrom(Part6, 5);
    assert AscendingFrom(Part6, 4);
    assert AscendingFrom(Part6, 3);
    assert AscendingFrom(Part6, 2);
    assert AscendingFrom(Part6, 1);
  }

  lemma Part7Ascending()
    ensures AscendingFrom(Part7, 0)
  {
    assert AscendingFrom(Part7, 11);
    assert AscendingFrom(Part7, 10);
    assert AscendingFrom(Part7, 9);
    assert AscendingFrom(Part7, 8);
    assert AscendingFrom(Part7, 7);
    assert AscendingFrom(Part7, 6);
    assert AscendingFrom(Part7, 5);
    assert AscendingFrom(Part7, 4);
    assert AscendingFrom(Part7, 3);
    assert AscendingFrom(Part7, 2);
    assert AscendingFrom(Part7, 1);
  }

  lemma Part8Ascending()
    ensures AscendingFrom(Part8, 0)
  {
    assert AscendingFrom(Part8, 11);
    assert AscendingFrom(Part8, 10);
    assert AscendingFrom(Part8, 9);
    assert AscendingFrom(Part8, 8);
    assert AscendingFrom(Part8, 7);
    assert AscendingFrom(Part8, 6);
    assert AscendingFrom(Part8, 5);
    assert AscendingFrom(Part8, 4);
    assert AscendingFrom(Part8, 3);
    assert AscendingFrom(Part8, 2);
    assert AscendingFrom(Part8, 1);
  }

  lemma Part9Ascending()
    ensures AscendingFrom(Part9, 0)
  {
    assert AscendingFrom(Part9, 11);
    assert AscendingFrom(Part9, 10);
    assert AscendingFrom(Part9, 9);
    assert AscendingFrom(Part9, 8);
    assert AscendingFrom(Part9, 7);
    assert AscendingFrom(Part9, 6);
    assert AscendingFrom(Part9, 5);
    assert AscendingFrom(Part9, 4);
    assert AscendingFrom(Part9, 3);
    assert AscendingFrom(Part9, 2);
    assert AscendingFrom(Part9, 1);
  }

  lemma Part10Ascending()
    ensures AscendingFrom(Part10, 0)
  {
    assert AscendingFrom(Part10, 11);
    assert AscendingFrom(Part10, 10);
    assert AscendingFrom(Part10, 9);
    assert AscendingFrom(Part10, 8);
    assert AscendingFrom(Part10, 7);
    assert AscendingFrom(Part10, 6);
    assert AscendingFrom(Part10, 5);
    assert AscendingFrom(Part10, 4);
    assert AscendingFrom(Part10, 3);
    assert AscendingFrom(Part10, 2);
    assert AscendingFrom(Part10, 1);
  }

  lemma Part11Ascending()
    ensures AscendingFrom(Part11, 0)
  {
    assert AscendingFrom(Part11, 9);
    assert AscendingFrom(Part11, 8);
    assert AscendingFrom(Part11, 7);
    assert AscendingFrom(Part11, 6);
    assert AscendingFrom(Part11, 5);
    assert AscendingFrom(Part11, 4);
    assert AscendingFrom(Part11, 3);
    assert AscendingFrom(Part11, 2);
    assert AscendingFrom(Part11, 1);
  }
  lemma {:induction false} AppendTail(a: seq<Interval>, b: seq<Interval>, i: nat)
    requires |a| <= i && AscendingFrom(b, i - |a|)
    ensures AscendingFrom(a + b, i)
    decreases |a| + |b| - i
  {
    if i < |a + b| {
      AppendTail(a, b, i + 1);
      assert (a + b)[i] == b[i - |a|];
      if i + 1 < |a + b| {
        assert (a + b)[i + 1] == b[i + 1 - |a|];
      }
    }
  }

  /** Two ascending tables, the first ending below the start of the second, append to an ascending one. */
  lemma {:induction false} AppendAscending(a: seq<Interval>, b: seq<Interval>, i: nat)
    requires i <= |a| && AscendingFrom(a, i) && AscendingFrom(b, 0)
    requires |a| > 0 && |b| > 0 && a[|a| - 1].last < b[0].first
    ensures AscendingFrom(a + b, i)
    decreases |a| - i
  {
    if i == |a| {
      AppendTail(a, b, i);
    } else {
      AppendAscending(a, b, i + 1);
      assert (a + b)[i] == a[i];
      assert (a + b)[i + 1] == if i + 1 < |a| then a[i + 1] else b[0];
    }
  }

  lemma {:induction false} AscendingLater(t: seq<Interval>, i: nat, j: nat)
    requires i <= j && AscendingFrom(t, i)
    ensures AscendingFrom(t, j)
    decreases j - i
  {
    if i < j && i < |t| {
      AscendingLater(t, i + 1, j);
    }
  }

  lemma {:induction false} AscendingPair(t: seq<Interval>, a: nat, b: nat)
    requires a < b < |t| && AscendingFrom(t, a)
    ensures t[a].last < t[b].first
    decreases b - a
  {
    if a + 1 < b {
      AscendingPair(t, a + 1, b);
    }
  }

  /** An ascending table is sorted: its intervals are non-empty, disjoint and in order. */
  lemma AscendingSorted(t: seq<Interval>)
    requires AscendingFrom(t, 0)
    ensures SortedPrefix(t, |t|)
  {
    forall a | 0 <= a < |t|
      ensures t[a].first <= t[a].last
    {
      AscendingLater(t, 0, a);
    }
    forall a, b | 0 <= a < b < |t|
      ensures t[a].last < t[b].first
    {
      AscendingLater(t, 0, a);
      AscendingPair(t, a, b);
    }
  }

  /** Appending keeps the order, the first interval and the last interval of the parts. */
  lemma AppendChain(a: seq<Interval>, b: seq<Interval>)
    requires AscendingFrom(a, 0) && AscendingFrom(b, 0)
    requires |a| > 0 && |b| > 0 && a[|a| - 1].last < b[0].first
    ensures AscendingFrom(a + b, 0)
    ensures (a + b)[0] == a[0] && (a + b)[|a + b| - 1] == b[|b| - 1]
  {
    AppendAscending(a, b, 0);
  }

  /** Kuhn's 142 intervals are non-empty, disjoint and in ascending order. */
  lemma KuhnSorted()
    ensures |KuhnEntries| == 142
    ensures SortedPrefix(KuhnEntries, 142)
  {
    Part0Ascending(); Part1Ascending(); Part2Ascending(); Part3Ascending();
    Part4Ascending(); Part5Ascending(); Part6Ascending(); Part7Ascending();
    Part8Ascending(); Part9Ascending(); Part10Ascending(); Part11Ascending();
    var a1 := Part0 + Part1;
    AppendChain(Part0, Part1);
    var a2 := a1 + Part2;
    AppendChain(a1, Part2);
    var a3 := a2 + Part3;
    AppendChain(a2, Part3);
    var a4 := a3 + Part4;
    AppendChain(a3, Part4);
    var a5 := a4 + Part5;
    AppendChain(a4, Part5);
    var a6 := a5 + Part6;
    AppendChain(a5, Part6);
    var a7 := a6 + Part7;
    AppendChain(a6, Part7);
    var a8 := a7 + Part8;
    AppendChain(a7, Part8);
    var a9 := a8 + Part9;
    AppendChain(a8, Part9);
    var a10 := a9 + Part10;
    AppendChain(a9, Part10);
    AppendChain(a10, Part11);
    AscendingSorted(KuhnEntries);
  }

  /**
   The shape of combining[] that bisearch meets: 144 intervals, Kuhn's
   sorted ones first, starting at U+0300, then the skin tones and, last,
   the zero width joiner U+200D.
   */
  lemma TableShape()
    ensures |Table| == 144
    ensures Table[..142] == KuhnEntries && SortedPrefix(Table, 142)
    ensures Table[0] == Interval(0x0300, 0x036F)
    ensures Table[142] == Interval(0x1F3FB, 0x1F3FF)
    ensures Table[143] == Interval(0x200D, 0x200D)
    ensures Table[114] == Interval(0x200B, 0x200F)
  {
    KuhnSorted();
    assert Table[..142] == KuhnEntries;
    assert forall k | 0 <= k < 142 :: Table[k] == KuhnEntries[k];
  }

  /**
   The appended rows break the order bisearch relies on: U+200D comes after
   the skin tones, so the table as a whole is not sorted.
   */
  lemma TableOutOfOrder()
    ensures !SortedPrefix(Table, 144)
  {
    TableShape();
    assert !(Table[142].last < Table[143].first);
  }

  /**
   Three of Kuhn's intervals that lie above U+200D: combining marks for
   symbols, the ideographic tone marks and the variation selectors.
   */
  lemma IntervalsAbove200D()
    ensures |Table| == 144
    ensures Table[118] == Interval(0x20D0, 0x20EF)
    ensures Table[119] == Interval(0x302A, 0x302F)
    ensures Table[125] == Interval(0xFE00, 0xFE0F)
  {
  }

  /** The intervals around the Arabic letters: 0610..0615 and the harakat 064B..065E. */
  lemma ArabicIntervals()
    ensures |Table| == 144
    ensures Table[9] == Interval(0x0610, 0x0615)
    ensures Table[10] == Interval(0x064B, 0x065E)
  {
  }

  /**
   In a sorted prefix, a codepoint strictly between two neighbouring
   intervals lies in none of the prefix's intervals.
   */
  lemma Gap(ucs: int, t: seq<Interval>, p: nat, k: nat)
    requires SortedPrefix(t, p) && k + 1 < p
    requires t[k].last < ucs < t[k + 1].first
    ensures !InTable(ucs, t[..p])
  {
    assert forall j | 0 <= j < p :: t[..p][j] == t[j];
  }
}
