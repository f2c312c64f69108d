/**
 The conversion router of wutils.hpp: five code-unit kinds, the relation of
 kinds whose strings may simply be reinterpreted, and the four mutually
 exclusive `convert` overloads (cast fast path, Unicode kernel, pivot in
 from char / wchar_t, pivot out to char / wchar_t).

 The C++ router is resolved at compile time by overload resolution on the
 string types; here the kinds are data and the routing is a function. The
 width of `wchar_t` is a parameter: 16 bits (Windows) or 32 bits (Linux,
 macOS and most UNIX systems). The 8-bit configuration is not modelled.
 */
module Router {
  import opened Unicode
  import Transcode
  import Width

  /** The code-unit types a string may have. */
  datatype Kind = Char | WChar | Char8 | Char16 | Char32

  /** The native width of wchar_t. */
  datatype WideWidth = Wide16 | Wide32

  /** uchar_t: the Unicode unit type as wide as wchar_t. */
  function UChar(w: WideWidth): (k: Kind)
    ensures k == Char16 <==> w == Wide16
    ensures k == Char32 <==> w == Wide32
  {
    match w
    case Wide16 => Char16
    case Wide32 => Char32
  }

  /** One more than the largest unit a kind can hold, as an unsigned bit pattern. */
  function KindLimit(w: WideWidth, k: Kind): (n: nat)
    ensures 0x100 <= n <= 0x1_0000_0000
  {
    match k
    case Char => 0x100
    case Char8 => 0x100
    case Char16 => 0x1_0000
    case Char32 => 0x1_0000_0000
    case WChar => if w == Wide16 then 0x1_0000 else 0x1_0000_0000
  }

  predicate FitsKind(w: WideWidth, k: Kind, s: seq<U32>) {
    forall i | 0 <= i < |s| :: s[i] < KindLimit(w, k)
  }

  /** detail::is_unicode_char */
  predicate IsUnicode(k: Kind) {
    k == Char8 || k == Char16 || k == Char32
  }

  /** The encoding form a Unicode unit kind carries. */
  function FormOf(k: Kind): (f: Transcode.Form)
    requires IsUnicode(k)
    ensures Transcode.UnitLimit(f) == KindLimit(Wide32, k)
  {
    match k
    case Char8 => Transcode.UTF8
    case Char16 => Transcode.UTF16
    case Char32 => Transcode.UTF32
  }

  /**
   detail::implicit_conversion: the same kind, char and char8_t either way,
   and wchar_t and uchar_t either way.
   */
  predicate Implicit(w: WideWidth, from: Kind, to: Kind) {
    from == to
    || (from == Char && to == Char8) || (from == Char8 && to == Char)
    || (from == WChar && to == UChar(w)) || (from == UChar(w) && to == WChar)
  }

  /** The Unicode kind a kind is reinterpreted as: char as char8_t, wchar_t as uchar_t. */
  function Pivot(w: WideWidth, k: Kind): (p: Kind)
    ensures IsUnicode(p)
    ensures IsUnicode(k) ==> p == k
    ensures Implicit(w, k, p) && KindLimit(w, p) == KindLimit(w, k)
  {
    match k
    case Char => Char8
    case WChar => UChar(w)
    case _ => k
  }

  /**
   detail::convert_implicitly: every unit static_cast to the destination
   type. A unit the destination can hold keeps its value; a wider one keeps
   its low bits.
   */
  function Cast(w: WideWidth, to: Kind, s: seq<U32>): (r: seq<U32>)
    ensures |r| == |s| && FitsKind(w, to, r)
    ensures forall i | 0 <= i < |s| && s[i] < KindLimit(w, to) :: r[i] == s[i]
  {
    seq(|s|, i requires 0 <= i < |s| => CastUnit(w, to, s[i]))
  }

  /** static_cast of one unit to an unsigned type: its low bits. */
  function CastUnit(w: WideWidth, to: Kind, u: U32): (r: U32)
    ensures r < KindLimit(w, to)
    ensures u < KindLimit(w, to) ==> r == u
  {
    u % KindLimit(w, to)
  }

  // ---------------------------------------------------------------------------
  // The four overloads of wutils::convert
  // ---------------------------------------------------------------------------

  datatype Overload = ImplicitCast | UnicodeKernel | PivotIn | PivotOut

  /** The requires-clause of overload 1. */
  predicate Requires1(w: WideWidth, from: Kind, to: Kind) {
    Implicit(w, from, to)
  }

  /** The requires-clause of overload 2. */
  predicate Requires2(w: WideWidth, from: Kind, to: Kind) {
    !Implicit(w, from, to) && IsUnicode(from) && IsUnicode(to)
  }

  /** The requires-clause of overload 3. */
  predicate Requires3(w: WideWidth, from: Kind, to: Kind) {
    !IsUnicode(from) && !Implicit(w, from, to)
  }

  /** The requires-clause of overload 4. */
  predicate Requires4(w: WideWidth, from: Kind, to: Kind) {
    !Implicit(w, from, to) && IsUnicode(from) && !IsUnicode(to)
  }

  /** The overload a call resolves to. */
  function Select(w: WideWidth, from: Kind, to: Kind): Overload {
    if Requires1(w, from, to) then ImplicitCast
    else if Requires2(w, from, to) then UnicodeKernel
    else if Requires3(w, from, to) then PivotIn
    else PivotOut
  }

  /** How far a pair is from a call of the Unicode kernel. */
  function Rank(from: Kind, to: Kind): nat {
    (if IsUnicode(from) then 0 else 2) + (if IsUnicode(to) then 0 else 1)
  }

  /**
   wutils::convert<From, To>(from, errorPolicy). The kernel case calls
   detail::u8, detail::u16 or detail::u32 as the destination kind selects;
   the pivot cases reinterpret on the way in or on the way out and pass the
   validity flag through.
   */
  function Convert(w: WideWidth, from: Kind, to: Kind, s: seq<U32>, policy: ErrorPolicy): (r: ConversionResult<seq<U32>>)
    requires FitsKind(w, from, s)
    ensures FitsKind(w, to, r.value)
    decreases Rank(from, to)
  {
    match Select(w, from, to)
    case ImplicitCast => ConversionResult(Cast(w, to, s), true)
    case UnicodeKernel =>
      assert Transcode.Fits(FormOf(from), s);
      Transcode.Convert(FormOf(from), FormOf(to), s, policy)
    case PivotIn =>
      Convert(w, Pivot(w, from), to, Cast(w, Pivot(w, from), s), policy)
    case PivotOut =>
      var mid := Convert(w, from, Pivot(w, to), s, policy);
      ConversionResult(Cast(w, to, mid.value), mid.isValid)
  }

  /** The overloads a call passes through, outermost first. */
  function Route(w: WideWidth, from: Kind, to: Kind): seq<Overload>
    decreases Rank(from, to)
  {
    match Select(w, from, to)
    case ImplicitCast => [ImplicitCast]
    case UnicodeKernel => [UnicodeKernel]
    case PivotIn => [PivotIn] + Route(w, Pivot(w, from), to)
    case PivotOut => [PivotOut] + Route(w, from, Pivot(w, to))
  }

  function KernelCalls(route: seq<Overload>): nat {
    if |route| == 0 then 0
    else (if route[0] == UnicodeKernel then 1 else 0) + KernelCalls(route[1..])
  }

  // ---------------------------------------------------------------------------
  // The public wrappers
  // ---------------------------------------------------------------------------

  function U8s(w: WideWidth, from: Kind, s: seq<U32>, policy: ErrorPolicy): ConversionResult<seq<U32>>
    requires FitsKind(w, from, s)
  {
    Convert(w, from, Char8, s, policy)
  }

  function U16s(w: WideWidth, from: Kind, s: seq<U32>, policy: ErrorPolicy): ConversionResult<seq<U32>>
    requires FitsKind(w, from, s)
  {
    Convert(w, from, Char16, s, policy)
  }

  function U32s(w: WideWidth, from: Kind, s: seq<U32>, policy: ErrorPolicy): ConversionResult<seq<U32>>
    requires FitsKind(w, from, s)
  {
    Convert(w, from, Char32, s, policy)
  }

  /** us: the wrapper for uchar_t, so u16s or u32s as wchar_t is 16 or 32 bits wide. */
  function Us(w: WideWidth, from: Kind, s: seq<U32>, policy: ErrorPolicy): (r: ConversionResult<seq<U32>>)
    requires FitsKind(w, from, s)
    ensures r == Wrapper(w, UChar(w), from, s, policy)
    ensures r == (if w == Wide16 then U16s(w, from, s, policy) else U32s(w, from, s, policy))
  {
    Convert(w, from, UChar(w), s, policy)
  }

  function Ws(w: WideWidth, from: Kind, s: seq<U32>, policy: ErrorPolicy): ConversionResult<seq<U32>>
    requires FitsKind(w, from, s)
  {
    Convert(w, from, WChar, s, policy)
  }

  function S(w: WideWidth, from: Kind, s: seq<U32>, policy: ErrorPolicy): ConversionResult<seq<U32>>
    requires FitsKind(w, from, s)
  {
    Convert(w, from, Char, s, policy)
  }

  /** The wrapper for a destination kind. */
  function Wrapper(w: WideWidth, to: Kind, from: Kind, s: seq<U32>, policy: ErrorPolicy): (r: ConversionResult<seq<U32>>)
    requires FitsKind(w, from, s)
    ensures FitsKind(w, to, r.value)
  {
    match to
    case Char8 => U8s(w, from, s, policy)
    case Char16 => U16s(w, from, s, policy)
    case Char32 => U32s(w, from, s, policy)
    case WChar => Ws(w, from, s, policy)
    case Char => S(w, from, s, policy)
  }

  /** ws_to_us: a reinterpretation between kinds of the same unit width, so the units pass unchanged. */
  function WsToUs(w: WideWidth, s: seq<U32>): (r: seq<U32>)
    ensures FitsKind(w, UChar(w), r)
    ensures FitsKind(w, WChar, s) ==> r == s
  {
    Cast(w, UChar(w), s)
  }

  /** us_to_ws: a reinterpretation between kinds of the same unit width, so the units pass unchanged. */
  function UsToWs(w: WideWidth, s: seq<U32>): (r: seq<U32>)
    ensures FitsKind(w, WChar, r)
    ensures FitsKind(w, UChar(w), s) ==> r == s
  {
    Cast(w, WChar, s)
  }

  /** s_to_u8s: a reinterpretation between kinds of the same unit width, so the units pass unchanged. */
  function SToU8s(s: seq<U32>): (r: seq<U32>)
    ensures FitsKind(Wide32, Char8, r)
    ensures FitsKind(Wide32, Char, s) ==> r == s
  {
    Cast(Wide32, Char8, s)
  }

  /** u8s_to_s: a reinterpretation between kinds of the same unit width, so the units pass unchanged. */
  function U8sToS(s: seq<U32>): (r: seq<U32>)
    ensures FitsKind(Wide32, Char, r)
    ensures FitsKind(Wide32, Char8, s) ==> r == s
  {
    Cast(Wide32, Char, s)
  }

  /**
   wswidth: a wide string measured as the Unicode string of the same width,
   UTF-16 or UTF-32 as wchar_t is 16 or 32 bits wide.
   */
  function WsWidth(w: WideWidth, s: seq<U32>): (r: int)
    requires FitsKind(w, WChar, s)
    ensures r >= -1
  {
    var u := WsToUs(w, s);
    assert Transcode.Fits(FormOf(UChar(w)), u);
    Width.UsWidth(FormOf(UChar(w)), u)
  }

  // ---------------------------------------------------------------------------
  // Lemmas
  // ---------------------------------------------------------------------------

  /**
   The requires-clauses of the four overloads are mutually exclusive and
   cover every pair of kinds: each call resolves to exactly one of them.
   */
  lemma OverloadResolution(w: WideWidth, from: Kind, to: Kind)
    ensures Select(w, from, to) == ImplicitCast <==> Requires1(w, from, to)
    ensures Select(w, from, to) == UnicodeKernel <==> Requires2(w, from, to)
    ensures Select(w, from, to) == PivotIn <==> Requires3(w, from, to)
    ensures Select(w, from, to) == PivotOut <==> Requires4(w, from, to)
  {
  }

  /** Two kinds reinterpret as each other exactly when they pivot to the same Unicode kind. */
  lemma ImplicitIffSamePivot(w: WideWidth, from: Kind, to: Kind)
    ensures Implicit(w, from, to) <==> Pivot(w, from) == Pivot(w, to)
  {
  }

  /** Reinterpretation is symmetric and only ever pairs kinds of one width. */
  lemma ImplicitSameWidth(w: WideWidth, from: Kind, to: Kind)
    requires Implicit(w, from, to)
    ensures Implicit(w, to, from)
    ensures KindLimit(w, from) == KindLimit(w, to)
  {
  }

  /** Casting units that already fit the destination changes nothing. */
  lemma CastFitting(w: WideWidth, to: Kind, s: seq<U32>)
    requires FitsKind(w, to, s)
    ensures Cast(w, to, s) == s
  {
  }

  /**
   Overload 1: a reinterpretable pair gives the input back unit for unit,
   reported valid, whatever it holds (an unpaired surrogate included).
   */
  lemma ImplicitIsCopy(w: WideWidth, from: Kind, to: Kind, s: seq<U32>, policy: ErrorPolicy)
    requires Implicit(w, from, to) && FitsKind(w, from, s)
    ensures Convert(w, from, to, s, policy) == ConversionResult(s, true)
  {
    ImplicitSameWidth(w, from, to);
    CastFitting(w, to, s);
  }

  /** On a 16-bit wchar_t, an unpaired high surrogate passes from wchar_t to char16_t as valid. */
  lemma UnpairedSurrogateReinterpreted(policy: ErrorPolicy)
    ensures Convert(Wide16, WChar, Char16, [0xD800], policy) == ConversionResult([0xD800], true)
  {
    ImplicitIsCopy(Wide16, WChar, Char16, [0xD800], policy);
  }

  /**
   Overload 2: the kernel is the converter from the source form to the form
   the destination kind selects, never an identity copy.
   */
  lemma KernelByDestination(w: WideWidth, from: Kind, to: Kind, s: seq<U32>, policy: ErrorPolicy)
    requires Requires2(w, from, to) && FitsKind(w, from, s)
    ensures FormOf(from) != FormOf(to)
    ensures Transcode.Fits(FormOf(from), s)
    ensures Convert(w, from, to, s, policy) == Transcode.Directed(FormOf(from), FormOf(to), s, policy)
  {
  }

  /**
   Every route: a reinterpretation, valid, when the two kinds pivot to the
   same Unicode kind, and otherwise exactly the converter between the
   pivots' forms applied to the units unchanged, its validity flag passed
   through the pivots.
   */
  lemma {:induction false} RouteSemantics(w: WideWidth, from: Kind, to: Kind, s: seq<U32>, policy: ErrorPolicy)
    requires FitsKind(w, from, s)
    ensures Transcode.Fits(FormOf(Pivot(w, from)), s)
    ensures Pivot(w, from) == Pivot(w, to) ==> Convert(w, from, to, s, policy) == ConversionResult(s, true)
    ensures Pivot(w, from) != Pivot(w, to) ==>
              Convert(w, from, to, s, policy) == Transcode.Directed(FormOf(Pivot(w, from)), FormOf(Pivot(w, to)), s, policy)
    decreases Rank(from, to)
  {
    ImplicitIffSamePivot(w, from, to);
    match Select(w, from, to) {
      case ImplicitCast =>
        ImplicitIsCopy(w, from, to, s, policy);
      case UnicodeKernel =>
        KernelByDestination(w, from, to, s, policy);
      case PivotIn =>
        var p := Pivot(w, from);
        CastFitting(w, p, s);
        RouteSemantics(w, p, to, s, policy);
      case PivotOut =>
        var p := Pivot(w, to);
        RouteSemantics(w, from, p, s, policy);
        var mid := Convert(w, from, p, s, policy);
        CastFitting(w, to, mid.value);
    }
  }

  /**
   Every call passes through at most three overloads, calls the Unicode
   kernel at most once, and calls it exactly when the pair is not
   reinterpretable.
   */
  lemma {:induction false} RouteBound(w: WideWidth, from: Kind, to: Kind)
    ensures 1 <= |Route(w, from, to)| <= 3
    ensures Route(w, from, to)[0] == Select(w, from, to)
    ensures KernelCalls(Route(w, from, to)) == (if Implicit(w, from, to) then 0 else 1)
    decreases Rank(from, to)
  {
    var route := Route(w, from, to);
    match Select(w, from, to) {
      case ImplicitCast =>
      case UnicodeKernel =>
      case PivotIn =>
        var p := Pivot(w, from);
        RouteBound(w, p, to);
        assert route[1..] == Route(w, p, to);
        ImplicitIffSamePivot(w, from, to);
        ImplicitIffSamePivot(w, p, to);
      case PivotOut =>
        var p := Pivot(w, to);
        RouteBound(w, from, p);
        assert route[1..] == Route(w, from, p);
        ImplicitIffSamePivot(w, from, to);
        ImplicitIffSamePivot(w, from, p);
    }
  }

  /**
   The round trips of tests/test_module.cpp: well-formed UTF-8 taken to any
   kind with u16s, u32s, ws or s and brought back with u8s is unchanged, and
   both conversions report valid, under any policies and either wchar_t width.
   */
  lemma RoundTripThroughKind(w: WideWidth, k: Kind, s: seq<U32>, policy: ErrorPolicy, policy': ErrorPolicy)
    requires Transcode.Fits(Transcode.UTF8, s) && Transcode.WellFormed(Transcode.UTF8, s)
    ensures FitsKind(w, Char8, s)
    ensures Wrapper(w, k, Char8, s, policy).isValid
    ensures U8s(w, k, Wrapper(w, k, Char8, s, policy).value, policy') == ConversionResult(s, true)
  {
    var there := Convert(w, Char8, k, s, policy);
    RouteSemantics(w, Char8, k, s, policy);
    RouteSemantics(w, k, Char8, there.value, policy');
    if Pivot(w, k) != Char8 {
      Transcode.RoundTrip(Transcode.UTF8, FormOf(Pivot(w, k)), s, policy, policy');
    }
  }

  /**
   Well-formed UTF-8 text has the same width once converted to a wide
   string with ws, whatever the width of wchar_t and the policy: wswidth of
   the wide string equals uswidth of the UTF-8.
   */
  lemma WideTextWidth(w: WideWidth, s: seq<U32>, policy: ErrorPolicy)
    requires Transcode.Fits(Transcode.UTF8, s) && Transcode.WellFormed(Transcode.UTF8, s)
    ensures FitsKind(w, WChar, Ws(w, Char8, s, policy).value)
    ensures WsWidth(w, Ws(w, Char8, s, policy).value) == Width.UsWidth(Transcode.UTF8, s)
  {
    var v := Ws(w, Char8, s, policy).value;
    RouteSemantics(w, Char8, WChar, s, policy);
    assert v == Transcode.Directed(Transcode.UTF8, FormOf(UChar(w)), s, policy).value;
    assert WsToUs(w, v) == v;
    Width.WidthInvariant(Transcode.UTF8, FormOf(UChar(w)), s, policy);
  }
}
