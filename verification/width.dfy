/**
 The column-width engine of src/wutils.cpp: bisearch over the interval
 table, mk_wcwidth for one codepoint, the emoji-aware scan mk_wcswidth, and
 the uswidth entry points, which measure UTF-8 and UTF-16 text after a
 SkipInvalidValues conversion to UTF-32.

 The engine is an adaptation of Markus Kuhn's wcwidth (the POSIX
 wcwidth/wcswidth interface of IEEE Std 1003.1-2001). It is modelled as
 written: combining[] ends with two intervals out of order, and bisearch
 rejects every codepoint above the last interval's end, U+200D, before it
 searches. BiSearchOnTable states exactly what that makes of the lookup.
 */
module Width {
  import opened Unicode
  import opened Combining
  import Transcode

  // ---------------------------------------------------------------------------
  // bisearch
  // ---------------------------------------------------------------------------

  /**
   The search loop of bisearch between indices lo and hi (both included; an
   empty range once hi < lo). The source keeps min and max as char32_t; max
   = mid - 1 would wrap at mid = 0, but that needs ucs below table[0].first,
   which the early exit has already excluded.
   */
  function Search(ucs: int, t: seq<Interval>, lo: nat, hi: int): (found: bool)
    requires hi < |t| && |t| > 0 && t[0].first <= ucs
    ensures found ==> exists k | lo <= k <= hi :: Contains(t[k], ucs)
    decreases hi - lo + 1
  {
    if hi < lo then false
    else
      var mid := (lo + hi) / 2;
      if ucs > t[mid].last then Search(ucs, t, mid + 1, hi)
      else if ucs < t[mid].first then
        assert mid > 0;
        Search(ucs, t, lo, mid - 1)
      else true
  }

  /**
   bisearch(ucs, table, max) with max the index of the last interval: false
   at once below the first interval's start or above the LAST interval's
   end, otherwise the binary search.
   */
  function BiSearch(ucs: int, t: seq<Interval>): (found: bool)
    requires |t| > 0
    ensures found ==> InTable(ucs, t)
    ensures found ==> t[0].first <= ucs <= t[|t| - 1].last
  {
    if ucs < t[0].first || ucs > t[|t| - 1].last then false
    else Search(ucs, t, 0, |t| - 1)
  }

  /**
   The search finds every codepoint that lies in the sorted prefix of the
   table, provided no interval after the prefix ends below it.
   */
  lemma {:induction false} SearchFinds(ucs: int, t: seq<Interval>, p: nat, k: nat, lo: nat, hi: int)
    requires |t| > 0 && t[0].first <= ucs && hi < |t|
    requires SortedPrefix(t, p) && k < p && Contains(t[k], ucs)
    requires forall m | p <= m < |t| :: ucs <= t[m].last
    requires lo <= k <= hi
    ensures Search(ucs, t, lo, hi)
    decreases hi - lo + 1
  {
    var mid := (lo + hi) / 2;
    if ucs > t[mid].last {
      SearchFinds(ucs, t, p, k, mid + 1, hi);
    } else if ucs < t[mid].first {
      SearchFinds(ucs, t, p, k, lo, mid - 1);
    }
  }

  /**
   On a table whose intervals are all non-empty, disjoint and ascending,
   bisearch decides membership: it answers true exactly when some interval
   contains the codepoint.
   */
  lemma BiSearchSorted(ucs: int, t: seq<Interval>)
    requires |t| > 0 && SortedPrefix(t, |t|)
    ensures BiSearch(ucs, t) <==> InTable(ucs, t)
  {
    if InTable(ucs, t) {
      var k :| 0 <= k < |t| && Contains(t[k], ucs);
      assert t[0].first <= ucs by {
        if k > 0 { assert t[0].last < t[k].first; }
      }
      assert ucs <= t[|t| - 1].last by {
        if k < |t| - 1 { assert t[k].last < t[|t| - 1].first; }
      }
      SearchFinds(ucs, t, |t|, k, 0, |t| - 1);
    }
  }

  /**
   bisearch on any table shaped like combining[]: 144 intervals, the first
   142 sorted from U+0300 on, then the skin tones and U+200D, which also
   lies in interval 114. A codepoint is found exactly when it lies in one
   of the sorted intervals and is at most U+200D.
   */
  lemma BiSearchShaped(ucs: int, t: seq<Interval>)
    requires |t| == 144 && SortedPrefix(t, 142)
    requires t[0] == Interval(0x0300, 0x036F)
    requires t[142] == Interval(0x1F3FB, 0x1F3FF)
    requires t[143] == Interval(0x200D, 0x200D)
    requires t[114] == Interval(0x200B, 0x200F)
    ensures BiSearch(ucs, t) <==> ucs <= 0x200D && InTable(ucs, t)
    ensures BiSearch(ucs, t) <==> ucs <= 0x200D && InTable(ucs, t[..142])
  {
    if ucs <= 0x200D && InTable(ucs, t) {
      var k :| 0 <= k < |t| && Contains(t[k], ucs);
      if k >= 142 {
        k := 114;
      }
      assert t[0].first <= ucs by {
        if k > 0 {
          assert t[0].last < t[k].first;
        }
      }
      SearchFinds(ucs, t, 142, k, 0, 143);
      assert t[..142][k] == t[k];
    }
    if ucs <= 0x200D && InTable(ucs, t[..142]) {
      var k :| 0 <= k < 142 && Contains(t[..142][k], ucs);
      assert Contains(t[k], ucs);
    }
  }

  /**
   bisearch on combining[]: a codepoint is found exactly when it lies in an
   interval of the table AND is at most U+200D. Intervals above U+200D, such
   as U+20D0..U+20EF or U+FE00..U+FE0F, are never found.
   */
  lemma BiSearchOnTable(ucs: int)
    ensures BiSearch(ucs, Table) <==> ucs <= 0x200D && InTable(ucs, Table)
    ensures BiSearch(ucs, Table) <==> ucs <= 0x200D && InTable(ucs, KuhnEntries)
  {
    TableShape();
    BiSearchShaped(ucs, Table);
  }

  // ---------------------------------------------------------------------------
  // mk_wcwidth
  // ---------------------------------------------------------------------------

  /** C0 and C1 control characters and DEL, U+0000 excepted. */
  predicate IsControl(ucs: int) {
    (1 <= ucs < 32) || (0x7F <= ucs < 0xA0)
  }

  /** The ranges mk_wcwidth gives two columns: East Asian wide and full-width characters and emoji. */
  predicate IsWide(ucs: int) {
    (0x1100 <= ucs <= 0x115F)
    || ucs == 0x2329 || ucs == 0x232A
    || (0x2E80 <= ucs <= 0xA4CF && ucs != 0x303F)
    || (0xAC00 <= ucs <= 0xD7A3)
    || (0xF900 <= ucs <= 0xFAFF)
    || (0xFE10 <= ucs <= 0xFE19)
    || (0xFE30 <= ucs <= 0xFE6F)
    || (0xFF00 <= ucs <= 0xFF60)
    || (0xFFE0 <= ucs <= 0xFFE6)
    || (0x20000 <= ucs <= 0x2FFFD)
    || (0x30000 <= ucs <= 0x3FFFD)
    || (0x1F000 <= ucs <= 0x1F9FF)
    || (0x1FA00 <= ucs <= 0x1FA6F)
    || (0x1FA70 <= ucs <= 0x1FAFF)
  }

  /** mk_wcwidth: the number of columns of one codepoint, -1 for a control character. */
  function WcWidth(ucs: U32): (r: int)
    ensures -1 <= r <= 2
    ensures r == -1 <==> IsControl(ucs)
    ensures ucs == 0 ==> r == 0
  {
    if ucs == 0 then 0
    else if ucs < 32 || (ucs >= 0x7F && ucs < 0xA0) then -1
    else if BiSearch(ucs, Table) then 0
    else 1 + (if IsWide(ucs) then 1 else 0)
  }

  /**
   mk_wcwidth classifies every codepoint: 0 for U+0000, -1 exactly for the
   controls, 0 for the table's intervals up to U+200D, and otherwise 2 in
   the wide ranges and 1 elsewhere.
   */
  lemma WcWidthClasses(ucs: U32)
    ensures WcWidth(ucs) ==
      if ucs == 0 then 0
      else if IsControl(ucs) then -1
      else if ucs <= 0x200D && InTable(ucs, Table) then 0
      else if IsWide(ucs) then 2
      else 1
  {
    BiSearchOnTable(ucs);
  }

  /**
   The codepoints of the table's intervals above U+200D keep a width: the
   variation selector U+FE0F and the combining mark U+20D0 count one
   column, the ideographic tone mark U+302A two.
   */
  lemma MissedNonSpacing()
    ensures InTable(0xFE0F, Table) && WcWidth(0xFE0F) == 1
    ensures InTable(0x20D0, Table) && WcWidth(0x20D0) == 1
    ensures InTable(0x302A, Table) && WcWidth(0x302A) == 2
  {
    IntervalsAbove200D();
    assert Contains(Table[125], 0xFE0F);
    assert Contains(Table[118], 0x20D0);
    assert Contains(Table[119], 0x302A);
    AboveJoiner(0xFE0F);
    AboveJoiner(0x20D0);
    AboveJoiner(0x302A);
  }

  /** Above U+200D the table plays no part: the width is 2 in the wide ranges and 1 elsewhere. */
  lemma AboveJoiner(ucs: U32)
    requires ucs > 0x200D
    ensures WcWidth(ucs) == if IsWide(ucs) then 2 else 1
  {
    BiSearchOnTable(ucs);
  }

  /** A combining mark below U+200D, such as U+0301, takes no column. */
  lemma CombiningAcute()
    ensures InTable(0x0301, Table) && WcWidth(0x0301) == 0
  {
    TableShape();
    assert Contains(Table[0], 0x0301);
    BiSearchOnTable(0x0301);
  }

  // ---------------------------------------------------------------------------
  // mk_wcswidth
  // ---------------------------------------------------------------------------

  /** A codepoint that opens an emoji sequence. */
  predicate IsEmojiBase(u: int) {
    (0x1F000 <= u <= 0x1FAFF) || (0x2600 <= u <= 0x27BF)
  }

  /** A skin-tone modifier, the zero width joiner, VS16 or a tag character. */
  predicate IsModifier(u: int) {
    (0x1F3FB <= u <= 0x1F3FF) || u == 0x200D || u == 0xFE0F || (0xE0020 <= u <= 0xE007F)
  }

  /**
   The inner loop of mk_wcswidth, from index j after an emoji base: it
   passes over modifiers; a joiner that has a non-null unit after it takes
   that unit along when it is itself an emoji base. The loop stops at the
   end, at U+0000, or at a unit that is not a modifier, and never passes a
   U+0000 or a control character.
   */
  function SkipModifiers(s: seq<U32>, j: nat): (k: nat)
    requires j <= |s|
    ensures j <= k <= |s|
    ensures k == |s| || s[k] == 0 || !IsModifier(s[k])
    ensures forall m | j <= m < k :: s[m] != 0 && !IsControl(s[m])
    decreases |s| - j
  {
    if j == |s| || s[j] == 0 || !IsModifier(s[j]) then j
    else if s[j] == 0x200D && |s| - j > 1 && s[j + 1] != 0 then
      if IsEmojiBase(s[j + 1]) then SkipModifiers(s, j + 2) else SkipModifiers(s, j + 1)
    else SkipModifiers(s, j + 1)
  }

  /**
   The index mk_wcswidth moves to after measuring the codepoint at i: past
   the modifiers of an emoji base, or past the codepoint alone.
   */
  function Next(s: seq<U32>, i: nat): (k: nat)
    requires i < |s|
    ensures i < k <= |s|
  {
    if IsEmojiBase(s[i]) then SkipModifiers(s, i + 1) else i + 1
  }

  /**
   The outer loop of mk_wcswidth from index i: the widths of the measured
   codepoints up to the end or U+0000, or -1 as soon as one is a control
   character.
   */
  function Scan(s: seq<U32>, i: nat): (r: int)
    requires i <= |s|
    ensures r >= -1
    decreases |s| - i
  {
    if i == |s| || s[i] == 0 then 0
    else
      var w := WcWidth(s[i]);
      if w < 0 then -1
      else
        var rest := Scan(s, Next(s, i));
        if rest < 0 then -1 else w + rest
  }

  /** mk_wcswidth(pwcs, n) for the n units of s. */
  function WcsWidth(s: seq<U32>): (r: int)
    ensures r >= -1
  {
    Scan(s, 0)
  }

  /** The index of the first U+0000 from i on, or the end. */
  function FirstZero(s: seq<U32>, i: nat): (z: nat)
    requires i <= |s|
    ensures i <= z <= |s|
    ensures forall m | i <= m < z :: s[m] != 0
    ensures z < |s| ==> s[z] == 0
    decreases |s| - i
  {
    if i == |s| || s[i] == 0 then i else FirstZero(s, i + 1)
  }

  /** How many codepoints the scan measures from i on. */
  function Measured(s: seq<U32>, i: nat): nat
    requires i <= |s|
    decreases |s| - i
  {
    if i == |s| || s[i] == 0 then 0 else 1 + Measured(s, Next(s, i))
  }

  /** Kuhn's original mk_wcswidth: the sum of the widths, without emoji sequences. */
  function KuhnWcsWidth(s: seq<U32>, i: nat): int
    requires i <= |s|
    decreases |s| - i
  {
    if i == |s| || s[i] == 0 then 0
    else
      var w := WcWidth(s[i]);
      if w < 0 then -1
      else
        var rest := KuhnWcsWidth(s, i + 1);
        if rest < 0 then -1 else w + rest
  }

  /**
   The scan returns -1 exactly when a control character occurs before the
   first U+0000 or the end; otherwise it returns between 0 and two columns
   per measured codepoint, and measures at most one codepoint per unit.
   */
  lemma {:induction false} ScanResult(s: seq<U32>, i: nat)
    requires i <= |s|
    ensures Scan(s, i) == -1 <==> exists m | i <= m < FirstZero(s, i) :: IsControl(s[m])
    ensures Scan(s, i) >= 0 ==> Scan(s, i) <= 2 * Measured(s, i)
    ensures Measured(s, i) <= FirstZero(s, i) - i
    decreases |s| - i
  {
    if i < |s| && s[i] != 0 {
      var n := Next(s, i);
      ScanResult(s, n);
      NextBeforeZero(s, i);
      assert FirstZero(s, i) == FirstZero(s, i + 1);
      if exists m | n <= m < FirstZero(s, n) :: IsControl(s[m]) {
        var m :| n <= m < FirstZero(s, n) && IsControl(s[m]);
        assert i <= m < FirstZero(s, i);
      }
      if exists m | i <= m < FirstZero(s, i) :: IsControl(s[m]) {
        var m :| i <= m < FirstZero(s, i) && IsControl(s[m]);
        if m != i {
          assert n <= m;
        }
      }
    }
  }

  /**
   The units the scan moves over after a measured codepoint are neither
   U+0000 nor control characters, and the next index is still within the
   same null-terminated part.
   */
  lemma NextBeforeZero(s: seq<U32>, i: nat)
    requires i < |s| && s[i] != 0
    ensures FirstZero(s, Next(s, i)) == FirstZero(s, i)
    ensures Next(s, i) <= FirstZero(s, i)
    ensures forall m | i < m < Next(s, i) :: s[m] != 0 && !IsControl(s[m])
  {
    var n := Next(s, i);
    assert FirstZero(s, i) == FirstZero(s, i + 1);
    SkipPreservesZero(s, i + 1, n);
  }

  lemma {:induction false} SkipPreservesZero(s: seq<U32>, j: nat, k: nat)
    requires j <= k <= |s|
    requires forall m | j <= m < k :: s[m] != 0
    ensures FirstZero(s, j) == FirstZero(s, k)
    decreases k - j
  {
    if j < k {
      SkipPreservesZero(s, j + 1, k);
    }
  }

  /** Without an emoji base the scan is Kuhn's original wcswidth. */
  lemma {:induction false} NoEmojiIsKuhn(s: seq<U32>, i: nat)
    requires i <= |s|
    requires forall m | i <= m < |s| :: !IsEmojiBase(s[m])
    ensures Scan(s, i) == KuhnWcsWidth(s, i)
    decreases |s| - i
  {
    if i < |s| && s[i] != 0 {
      NoEmojiIsKuhn(s, i + 1);
    }
  }

  /** Printable ASCII takes one column per character. */
  lemma {:induction false} PrintableAscii(s: seq<U32>, i: nat)
    requires i <= |s|
    requires forall m | i <= m < |s| :: 0x20 <= s[m] <= 0x7E
    ensures Scan(s, i) == |s| - i
    decreases |s| - i
  {
    if i < |s| {
      PrintableAscii(s, i + 1);
      BiSearchOnTable(s[i]);
      TableShape();
      assert !BiSearch(s[i], Table);
    }
  }

  /** One element of the tail of an emoji sequence. */
  datatype Piece =
    | Single(u: U32)   // a skin tone, VS16 or tag character
    | Joined(e: U32)   // the zero width joiner followed by another emoji base

  predicate ValidPiece(p: Piece) {
    match p
    case Single(u) => IsModifier(u) && u != 0x200D
    case Joined(e) => IsEmojiBase(e)
  }

  /** The units of one piece. */
  function PieceUnits(p: Piece): (r: seq<U32>)
    ensures 1 <= |r| <= 2
  {
    match p
    case Single(u) => [u]
    case Joined(e) => [0x200D, e]
  }

  /** The units of a tail of pieces. */
  function Units(pieces: seq<Piece>): seq<U32>
  {
    if |pieces| == 0 then [] else PieceUnits(pieces[0]) + Units(pieces[1..])
  }

  /** The units of the pieces, read one piece at a time from index j of s. */
  predicate Spells(s: seq<U32>, j: nat, pieces: seq<Piece>)
    decreases |pieces|
  {
    |pieces| == 0
    || (var u := PieceUnits(pieces[0]);
        && ValidPiece(pieces[0])
        && j + |u| <= |s|
        && s[j] == u[0]
        && (|u| == 2 ==> s[j + 1] == u[1])
        && Spells(s, j + |u|, pieces[1..]))
  }

  /** The inner loop of mk_wcswidth passes over one piece at index j. */
  lemma SkipPiece(s: seq<U32>, j: nat, p: Piece)
    requires ValidPiece(p)
    requires j + |PieceUnits(p)| <= |s|
    requires s[j] == PieceUnits(p)[0]
    requires |PieceUnits(p)| == 2 ==> s[j + 1] == PieceUnits(p)[1]
    ensures SkipModifiers(s, j) == SkipModifiers(s, j + |PieceUnits(p)|)
  {
  }

  /** A slice that spells a + b spells a from its start and b after that. */
  lemma SliceSplit(s: seq<U32>, j: nat, a: seq<U32>, b: seq<U32>)
    requires j + |a| + |b| <= |s| && s[j..j + |a| + |b|] == a + b
    ensures forall m | 0 <= m < |a| :: s[j + m] == a[m]
    ensures s[j + |a|..j + |a| + |b|] == b
  {
    forall m | 0 <= m < |a|
      ensures s[j + m] == a[m]
    {
      assert s[j..j + |a| + |b|][m] == (a + b)[m];
    }
    assert s[j + |a|..j + |a| + |b|] == s[j..j + |a| + |b|][|a|..];
  }

  /** Valid pieces whose units fill a slice of s are spelled there, piece by piece. */
  lemma {:induction false} Spelled(s: seq<U32>, j: nat, pieces: seq<Piece>)
    requires forall k | 0 <= k < |pieces| :: ValidPiece(pieces[k])
    requires j + |Units(pieces)| <= |s| && s[j..j + |Units(pieces)|] == Units(pieces)
    ensures Spells(s, j, pieces)
    decreases |pieces|
  {
    if |pieces| > 0 {
      var head := PieceUnits(pieces[0]);
      var tail := Units(pieces[1..]);
      assert Units(pieces) == head + tail;
      SliceSplit(s, j, head, tail);
      assert forall k | 0 <= k < |pieces[1..]| :: pieces[1..][k] == pieces[k + 1];
      Spelled(s, j + |head|, pieces[1..]);
    }
  }

  /** The inner loop passes over spelled pieces up to a unit that is not a modifier. */
  lemma {:induction false} SkipSpelled(s: seq<U32>, j: nat, pieces: seq<Piece>)
    requires Spells(s, j, pieces)
    requires j + |Units(pieces)| <= |s|
    requires j + |Units(pieces)| == |s| || s[j + |Units(pieces)|] == 0 || !IsModifier(s[j + |Units(pieces)|])
    ensures SkipModifiers(s, j) == j + |Units(pieces)|
    decreases |pieces|
  {
    if |pieces| > 0 {
      var head := PieceUnits(pieces[0]);
      var next := j + |head|;
      assert |Units(pieces)| == |head| + |Units(pieces[1..])|;
      SkipPiece(s, j, pieces[0]);
      SkipSpelled(s, next, pieces[1..]);
    }
  }

  /**
   After an emoji base, the inner loop passes over a whole tail of skin
   tones, VS16s, tags and joined emoji, up to the first unit that is not a
   modifier.
   */
  lemma SkipTail(s: seq<U32>, j: nat, pieces: seq<Piece>)
    requires forall k | 0 <= k < |pieces| :: ValidPiece(pieces[k])
    requires j + |Units(pieces)| <= |s| && s[j..j + |Units(pieces)|] == Units(pieces)
    requires j + |Units(pieces)| == |s| || s[j + |Units(pieces)|] == 0 || !IsModifier(s[j + |Units(pieces)|])
    ensures SkipModifiers(s, j) == j + |Units(pieces)|
  {
    Spelled(s, j, pieces);
    SkipSpelled(s, j, pieces);
  }

  /** An emoji base is never in the table: one column below U+1F000, two from there on. */
  lemma EmojiBaseWidth(u: U32)
    requires IsEmojiBase(u)
    ensures WcWidth(u) == if u >= 0x1F000 then 2 else 1
  {
    AboveJoiner(u);
  }

  /**
   The width the scan gives an emoji base at i when it resumes at n: one
   column below U+1F000 and two from there on, plus the scan from n, or -1
   when that finds a control character.
   */
  function ScanAfter(s: seq<U32>, i: nat, n: nat): int
    requires i < |s| && n <= |s|
  {
    var rest := Scan(s, n);
    if rest < 0 then -1 else (if s[i] >= 0x1F000 then 2 else 1) + rest
  }

  /** One step of the scan at an emoji base: its width, then the scan after its modifiers. */
  lemma ScanEmoji(s: seq<U32>, i: nat, n: nat)
    requires i < |s| && IsEmojiBase(s[i])
    requires n <= |s| && SkipModifiers(s, i + 1) == n
    ensures Scan(s, i) == ScanAfter(s, i, n)
  {
    EmojiBaseWidth(s[i]);
  }

  /**
   An emoji sequence is measured as its base alone: the base, then a tail
   of modifiers and joined emoji, then a unit that is not a modifier, give
   the base's width plus the width of what follows.
   */
  lemma {:induction false} EmojiSequence(s: seq<U32>, i: nat, pieces: seq<Piece>)
    requires i < |s| && IsEmojiBase(s[i])
    requires forall k | 0 <= k < |pieces| :: ValidPiece(pieces[k])
    requires i + 1 + |Units(pieces)| <= |s| && s[i + 1..i + 1 + |Units(pieces)|] == Units(pieces)
    requires i + 1 + |Units(pieces)| == |s| || s[i + 1 + |Units(pieces)|] == 0 || !IsModifier(s[i + 1 + |Units(pieces)|])
    ensures Scan(s, i) == ScanAfter(s, i, i + 1 + |Units(pieces)|)
  {
    SkipTail(s, i + 1, pieces);
    ScanEmoji(s, i, i + 1 + |Units(pieces)|);
  }

  // ---------------------------------------------------------------------------
  // The loop of mk_wcswidth
  // ---------------------------------------------------------------------------

  /**
   mk_wcswidth as the source writes it, with a pointer index i and the
   count of remaining units n - i, bounded by n.
   */
  method WcsWidthLoop(s: seq<U32>) returns (width: int)
    ensures width == WcsWidth(s)
  {
    width := 0;
    var i := 0;
    while i < |s| && s[i] != 0
      invariant i <= |s| && width >= 0
      invariant WcsWidth(s) == (if Scan(s, i) < 0 then -1 else width + Scan(s, i))
      decreases |s| - i
    {
      var base := s[i];
      var charWidth := WcWidth(base);
      if charWidth < 0 {
        return -1;
      }
      width := width + charWidth;
      i := i + 1;
      if IsEmojiBase(base) {
        ghost var stop := SkipModifiers(s, i);
        while i < |s| && s[i] != 0 && IsModifier(s[i])
          invariant i <= |s| && SkipModifiers(s, i) == stop
          decreases |s| - i
        {
          if s[i] == 0x200D && |s| - i > 1 && s[i + 1] != 0 {
            i := i + 1;
            if i < |s| && s[i] != 0 && IsEmojiBase(s[i]) {
              i := i + 1;
            }
          } else {
            i := i + 1;
          }
        }
      }
    }
  }

  // ---------------------------------------------------------------------------
  // uswidth and the text they measure
  // ---------------------------------------------------------------------------

  /**
   uswidth: UTF-32 text is measured as it is; UTF-8 and UTF-16 text is
   first converted to UTF-32 with SkipInvalidValues, so invalid units count
   nothing.
   */
  function UsWidth(f: Transcode.Form, s: seq<U32>): (r: int)
    requires Transcode.Fits(f, s)
    ensures r >= -1
  {
    match f
    case UTF32 => WcsWidth(s)
    case _ => WcsWidth(Transcode.Directed(f, Transcode.UTF32, s, SkipInvalidValues).value)
  }

  /**
   Text that encodes the same codepoints has the same width in UTF-8,
   UTF-16 and UTF-32.
   */
  lemma WidthOfEncoding(f: Transcode.Form, cps: seq<Scalar>)
    ensures Transcode.Fits(f, Transcode.EncodeAll(f, cps))
    ensures UsWidth(f, Transcode.EncodeAll(f, cps)) == WcsWidth(cps)
  {
    Transcode.EncodeAllWellFormed(f, cps);
    Transcode.Utf32Identity(cps);
    if f != Transcode.UTF32 {
      Transcode.EncodingConverts(f, Transcode.UTF32, cps, SkipInvalidValues);
    }
  }

  /**
   Converting well-formed text to another form keeps its width, whatever
   the policy.
   */
  lemma WidthInvariant(f: Transcode.Form, g: Transcode.Form, s: seq<U32>, policy: ErrorPolicy)
    requires Transcode.Fits(f, s) && Transcode.WellFormed(f, s)
    ensures UsWidth(g, Transcode.Directed(f, g, s, policy).value) == UsWidth(f, s)
  {
    var cps := Transcode.Values(Transcode.Steps(f, s));
    Transcode.DecodeWellFormed(f, s, SkipInvalidValues);
    Transcode.DecodeWellFormed(f, s, policy);
    WidthOfEncoding(f, cps);
    Transcode.PolicySemantics(f, g, s, policy);
    Transcode.StepsValidIffWellFormed(f, s);
    Transcode.ValuesOfValid(Transcode.Steps(f, s), policy);
    WidthOfEncoding(g, cps);
  }
}
