/**
 The six directed converters of wutils::detail (UTF-8, UTF-16 and UTF-32 to
 each other) and the identity overloads of detail::u8, detail::u16 and
 detail::u32.

 Text of every form is a `seq<U32>` whose units fit the form's width
 (`Fits`). The six converters share one loop: decode one step, append the
 encoding of a valid codepoint, and on an invalid step apply the error
 policy. `Directed(src, dst, ...)` is that loop, written as a recursion over
 the remaining input; `DirectedLoop` is the same loop with an index, as the
 source writes it.
 */
module Transcode {
  import opened Unicode
  import Utf8
  import Utf16

  /** The three Unicode encoding forms, by code unit width. */
  datatype Form = UTF8 | UTF16 | UTF32

  function UnitLimit(f: Form): nat {
    match f
    case UTF8 => 0x100
    case UTF16 => 0x1_0000
    case UTF32 => 0x1_0000_0000
  }

  /** Every unit of `s` is a unit of form `f` (char8_t, char16_t or char32_t). */
  predicate Fits(f: Form, s: seq<U32>) {
    forall i | 0 <= i < |s| :: s[i] < UnitLimit(f)
  }

  predicate AllScalar(s: seq<U32>) {
    forall i | 0 <= i < |s| :: IsScalar(s[i])
  }

  /** Well-formed text of form `f`: RFC 3629 for UTF-8, RFC 2781 for UTF-16, scalar values for UTF-32. */
  predicate WellFormed(f: Form, s: seq<U32>)
    requires Fits(f, s)
  {
    match f
    case UTF8 => Utf8.WellFormed(s)
    case UTF16 => Utf16.WellFormed(s)
    case UTF32 => AllScalar(s)
  }

  /**
   One step of a converter reading form `src`: decode_one_utf8,
   decode_one_utf16, or, for UTF-32 input, the range check on one unit.
   */
  function Step(src: Form, s: seq<U32>): (d: DecodeResult)
    requires Fits(src, s) && |s| > 0
    ensures 1 <= d.consumed <= |s|
    ensures d.isValid ==> IsScalar(d.codepoint)
    ensures !d.isValid ==> d == Rejected
  {
    match src
    case UTF8 => Utf8.DecodeOne(s)
    case UTF16 => Utf16.DecodeOne(s)
    case UTF32 => if IsScalar(s[0]) then DecodeResult(s[0], 1, true) else Rejected
  }

  /** The units a converter writing form `dst` appends for one scalar value. */
  function Emit(dst: Form, cp: Scalar): (r: seq<U32>)
    ensures Fits(dst, r) && 1 <= |r| <= 4
  {
    match dst
    case UTF8 => Utf8.Encode(cp)
    case UTF16 => Utf16.Encode(cp)
    case UTF32 => [cp]
  }

  /** REPLACEMENT_CHAR_8, REPLACEMENT_CHAR_16 and REPLACEMENT_CHAR_32. */
  const ReplacementChar8: seq<Byte> := [0xEF, 0xBF, 0xBD]
  const ReplacementChar16: U16 := 0xFFFD
  const ReplacementChar32: U32 := 0xFFFD

  /** What a converter writing form `dst` appends for an invalid step under UseReplacementCharacter. */
  function ReplacementUnits(dst: Form): seq<U32> {
    match dst
    case UTF8 => ReplacementChar8
    case UTF16 => [ReplacementChar16]
    case UTF32 => [ReplacementChar32]
  }

  /**
   The directed converter from form `src` to form `dst`
   (detail::u8(u16string_view), detail::u16(u8string_view), ...).
   */
  function Directed(src: Form, dst: Form, s: seq<U32>, policy: ErrorPolicy): (r: ConversionResult<seq<U32>>)
    requires Fits(src, s)
    ensures Fits(dst, r.value)
    decreases |s|
  {
    if |s| == 0 then ConversionResult([], true)
    else
      var d := Step(src, s);
      var rest := Directed(src, dst, s[d.consumed..], policy);
      if d.isValid then
        ConversionResult(Emit(dst, d.codepoint) + rest.value, rest.isValid)
      else
        match policy
        case SkipInvalidValues => ConversionResult(rest.value, false)
        case StopOnFirstError => ConversionResult([], false)
        case UseReplacementCharacter => ConversionResult(ReplacementUnits(dst) + rest.value, false)
  }

  /**
   detail::u8, detail::u16 and detail::u32 as overload sets: the overload
   whose input has the destination's own form returns a copy; the others
   are the directed converters.
   */
  function Convert(src: Form, dst: Form, s: seq<U32>, policy: ErrorPolicy): (r: ConversionResult<seq<U32>>)
    requires Fits(src, s)
    ensures Fits(dst, r.value)
  {
    if src == dst then ConversionResult(s, true) else Directed(src, dst, s, policy)
  }

  /**
   The converter loop as the source writes it: an index advanced by the
   units each step consumes, an output appended to, and an early return
   under StopOnFirstError.
   */
  method DirectedLoop(src: Form, dst: Form, s: seq<U32>, policy: ErrorPolicy) returns (r: ConversionResult<seq<U32>>)
    requires Fits(src, s)
    ensures r == Directed(src, dst, s, policy)
  {
    var isValid := true;
    var result: seq<U32> := [];
    var rest := s;  // the view u16s.substr(i) of the source, i units in
    assert result + Directed(src, dst, s, policy).value == Directed(src, dst, s, policy).value;
    while |rest| > 0
      invariant Fits(src, rest)
      invariant Directed(src, dst, s, policy) == Joined(result, isValid, Directed(src, dst, rest, policy))
      decreases |rest|
    {
      var appended, consumed, valid, stop := LoopBody(src, dst, rest, policy);
      if stop {
        assert result + [] == result;
        return ConversionResult(result, false);
      }
      JoinedAppend(result, isValid, appended, valid, Directed(src, dst, rest[consumed..], policy));
      result := result + appended;
      isValid := isValid && valid;
      rest := rest[consumed..];
    }
    assert result + [] == result;
    r := ConversionResult(result, isValid);
  }

  /** The output so far and its validity, followed by the conversion of the rest. */
  function Joined(result: seq<U32>, isValid: bool, tail: ConversionResult<seq<U32>>): ConversionResult<seq<U32>> {
    ConversionResult(result + tail.value, isValid && tail.isValid)
  }

  /** Appending one step's units to the output keeps the whole conversion. */
  lemma JoinedAppend(result: seq<U32>, isValid: bool, appended: seq<U32>, valid: bool, tail: ConversionResult<seq<U32>>)
    ensures Joined(result, isValid, ConversionResult(appended + tail.value, valid && tail.isValid))
         == Joined(result + appended, isValid && valid, tail)
  {
    assert result + (appended + tail.value) == (result + appended) + tail.value;
  }

  /**
   One pass of the converter loop at the front of `t`: the units appended,
   the units consumed, whether the step was valid, and whether the loop
   returns here.
   */
  method LoopBody(src: Form, dst: Form, t: seq<U32>, policy: ErrorPolicy)
    returns (appended: seq<U32>, consumed: nat, valid: bool, stop: bool)
    requires Fits(src, t) && |t| > 0
    ensures 1 <= consumed <= |t| && Fits(src, t[consumed..])
    ensures stop <==> !valid && policy == StopOnFirstError
    ensures stop ==> Directed(src, dst, t, policy) == ConversionResult([], false)
    ensures !stop ==> Directed(src, dst, t, policy).value == appended + Directed(src, dst, t[consumed..], policy).value
    ensures !stop ==> Directed(src, dst, t, policy).isValid == (valid && Directed(src, dst, t[consumed..], policy).isValid)
  {
    var decoded := Step(src, t);
    DirectedCons(src, dst, t, policy);
    consumed := decoded.consumed;
    valid := decoded.isValid;
    stop := false;
    appended := [];
    if decoded.isValid {
      appended := Emit(dst, decoded.codepoint);
    } else {
      match policy {
        case SkipInvalidValues =>
        case StopOnFirstError =>
          stop := true;
        case UseReplacementCharacter =>
          appended := ReplacementUnits(dst);
      }
    }
  }

  /** One step of Directed on non-empty input. */
  lemma DirectedCons(src: Form, dst: Form, s: seq<U32>, policy: ErrorPolicy)
    requires Fits(src, s) && |s| > 0
    ensures var d := Step(src, s);
            var rest := Directed(src, dst, s[d.consumed..], policy);
            && (d.isValid ==> Directed(src, dst, s, policy) == ConversionResult(Emit(dst, d.codepoint) + rest.value, rest.isValid))
            && (!d.isValid && policy == SkipInvalidValues ==> Directed(src, dst, s, policy) == ConversionResult(rest.value, false))
            && (!d.isValid && policy == StopOnFirstError ==> Directed(src, dst, s, policy) == ConversionResult([], false))
            && (!d.isValid && policy == UseReplacementCharacter ==>
                 Directed(src, dst, s, policy) == ConversionResult(ReplacementUnits(dst) + rest.value, false))
  {
  }

  // ---------------------------------------------------------------------------
  // The decoded stream and the three policies, stated independently of the loop
  // ---------------------------------------------------------------------------

  /** The outcome of every step a converter reading `src` takes: a scalar value, or None for an invalid step. */
  function Steps(src: Form, s: seq<U32>): seq<Option<Scalar>>
    requires Fits(src, s)
    decreases |s|
  {
    if |s| == 0 then []
    else
      var d := Step(src, s);
      [if d.isValid then Some(d.codepoint as Scalar) else None] + Steps(src, s[d.consumed..])
  }

  predicate AllValid(steps: seq<Option<Scalar>>) {
    forall i | 0 <= i < |steps| :: steps[i].Some?
  }

  /** The index of the first invalid step, or the number of steps if there is none. */
  function FirstInvalid(steps: seq<Option<Scalar>>): (k: nat)
    ensures k <= |steps|
    ensures forall i | 0 <= i < k :: steps[i].Some?
    ensures k < |steps| ==> steps[k].None?
  {
    if |steps| == 0 || steps[0].None? then 0 else 1 + FirstInvalid(steps[1..])
  }

  /** The scalar values of the valid steps, in order. */
  function Values(steps: seq<Option<Scalar>>): seq<Scalar> {
    if |steps| == 0 then []
    else if steps[0].Some? then [steps[0].value] + Values(steps[1..])
    else Values(steps[1..])
  }

  /**
   The codepoints a policy keeps: every step with U+FFFD for an invalid one,
   the valid steps only, or the valid steps before the first invalid one.
   */
  function Apply(policy: ErrorPolicy, steps: seq<Option<Scalar>>): seq<Scalar> {
    match policy
    case UseReplacementCharacter => seq(|steps|, i requires 0 <= i < |steps| => steps[i].GetOr(Replacement))
    case SkipInvalidValues => Values(steps)
    case StopOnFirstError => Values(steps[..FirstInvalid(steps)])
  }

  /** The encoding of a sequence of scalar values in form `dst`. */
  function EncodeAll(dst: Form, cps: seq<Scalar>): (r: seq<U32>)
    ensures Fits(dst, r)
  {
    if |cps| == 0 then [] else Emit(dst, cps[0]) + EncodeAll(dst, cps[1..])
  }

  /** The decoded stream of an encoding: every step valid, with the given values. */
  function AsSteps(cps: seq<Scalar>): (r: seq<Option<Scalar>>)
    ensures |r| == |cps| && AllValid(r)
  {
    seq(|cps|, i requires 0 <= i < |cps| => Some(cps[i]))
  }

  /** The length of the input before the first invalid step. */
  function ValidPrefix(src: Form, s: seq<U32>): (k: nat)
    requires Fits(src, s)
    ensures k <= |s|
    decreases |s|
  {
    if |s| == 0 then 0
    else
      var d := Step(src, s);
      if d.isValid then d.consumed + ValidPrefix(src, s[d.consumed..]) else 0
  }

  // ---------------------------------------------------------------------------
  // Lemmas
  // ---------------------------------------------------------------------------

  /** The replacement constants are U+FFFD encoded in each destination form. */
  lemma ReplacementIsEncoded(dst: Form)
    ensures ReplacementUnits(dst) == Emit(dst, Replacement)
  {
    if dst == UTF8 {
      assert Utf8.Encode(0xFFFD) == [0xEF, 0xBF, 0xBD];
    }
  }

  lemma EncodeAllCons(dst: Form, cp: Scalar, cps: seq<Scalar>)
    ensures EncodeAll(dst, [cp] + cps) == Emit(dst, cp) + EncodeAll(dst, cps)
  {
    assert ([cp] + cps)[1..] == cps;
  }

  lemma AllValidCons(x: Option<Scalar>, steps: seq<Option<Scalar>>)
    ensures AllValid([x] + steps) <==> x.Some? && AllValid(steps)
  {
    if x.Some? && AllValid(steps) {
      forall i | 0 <= i < |[x] + steps|
        ensures ([x] + steps)[i].Some?
      {
        if i > 0 {
          assert ([x] + steps)[i] == steps[i - 1];
        }
      }
    }
    if AllValid([x] + steps) {
      assert ([x] + steps)[0] == x;
      forall i | 0 <= i < |steps|
        ensures steps[i].Some?
      {
        assert ([x] + steps)[i + 1] == steps[i];
      }
    }
  }

  /** How each policy treats a stream that starts with one more step. */
  lemma ApplyCons(policy: ErrorPolicy, x: Option<Scalar>, steps: seq<Option<Scalar>>)
    ensures x.Some? ==> Apply(policy, [x] + steps) == [x.value] + Apply(policy, steps)
    ensures x.None? && policy == UseReplacementCharacter ==> Apply(policy, [x] + steps) == [Replacement] + Apply(policy, steps)
    ensures x.None? && policy == SkipInvalidValues ==> Apply(policy, [x] + steps) == Apply(policy, steps)
    ensures x.None? && policy == StopOnFirstError ==> Apply(policy, [x] + steps) == []
  {
    var all := [x] + steps;
    assert all[0] == x;
    assert all[1..] == steps;
    match policy {
      case UseReplacementCharacter =>
        assert Apply(policy, all) == [x.GetOr(Replacement)] + Apply(policy, steps);
      case SkipInvalidValues =>
      case StopOnFirstError =>
        if x.Some? {
          StopCons(x.value, steps);
        }
    }
  }

  /** Under StopOnFirstError a valid step is kept and the stream after it decides the rest. */
  lemma StopCons(x: Scalar, steps: seq<Option<Scalar>>)
    ensures Apply(StopOnFirstError, [Some(x)] + steps) == [x] + Apply(StopOnFirstError, steps)
  {
    var all := [Some(x)] + steps;
    var k := FirstInvalid(steps);
    assert all[1..] == steps;
    assert FirstInvalid(all) == 1 + k;
    assert all[..1 + k] == [Some(x)] + steps[..k];
    assert ([Some(x)] + steps[..k])[1..] == steps[..k];
  }

  /**
   The converters decode, let the policy choose the codepoints, and encode
   them: UseReplacementCharacter keeps one value per step with U+FFFD for
   each invalid one, SkipInvalidValues keeps the valid ones, and
   StopOnFirstError the valid ones before the first invalid step. The
   result is valid exactly when every step is.
   */
  lemma {:induction false} PolicySemantics(src: Form, dst: Form, s: seq<U32>, policy: ErrorPolicy)
    requires Fits(src, s)
    ensures Directed(src, dst, s, policy)
         == ConversionResult(EncodeAll(dst, Apply(policy, Steps(src, s))), AllValid(Steps(src, s)))
    decreases |s|
  {
    if |s| > 0 {
      var d := Step(src, s);
      var t := s[d.consumed..];
      PolicySemantics(src, dst, t, policy);
      var x: Option<Scalar> := if d.isValid then Some(d.codepoint as Scalar) else None;
      assert Steps(src, s) == [x] + Steps(src, t);
      AllValidCons(x, Steps(src, t));
      ApplyCons(policy, x, Steps(src, t));
      if d.isValid {
        EncodeAllCons(dst, d.codepoint, Apply(policy, Steps(src, t)));
      } else if policy == UseReplacementCharacter {
        EncodeAllCons(dst, Replacement, Apply(policy, Steps(src, t)));
        ReplacementIsEncoded(dst);
      }
    }
  }

  /** Every step of a converter reading `src` is valid exactly when the input is well-formed. */
  lemma {:induction false} StepsValidIffWellFormed(src: Form, s: seq<U32>)
    requires Fits(src, s)
    ensures AllValid(Steps(src, s)) <==> WellFormed(src, s)
    decreases |s|
  {
    if |s| > 0 {
      var d := Step(src, s);
      var t := s[d.consumed..];
      StepsValidIffWellFormed(src, t);
      var x: Option<Scalar> := if d.isValid then Some(d.codepoint as Scalar) else None;
      assert Steps(src, s) == [x] + Steps(src, t);
      AllValidCons(x, Steps(src, t));
      match src {
        case UTF8 => Utf8.DecodeOneIsRfc(s);
        case UTF16 => Utf16.DecodeOneIsRfc(s);
        case UTF32 =>
          assert AllScalar(s) <==> IsScalar(s[0]) && AllScalar(t) by {
            if IsScalar(s[0]) && AllScalar(t) {
              forall i | 0 <= i < |s| ensures IsScalar(s[i]) {
                if i > 0 { assert s[i] == t[i - 1]; }
              }
            }
          }
      }
    }
  }

  /**
   A converter's validity flag is false exactly when its input is not
   well-formed, and so it is the same under all three policies.
   */
  lemma DirectedValidIffWellFormed(src: Form, dst: Form, s: seq<U32>, policy: ErrorPolicy)
    requires Fits(src, s)
    ensures Directed(src, dst, s, policy).isValid <==> WellFormed(src, s)
  {
    PolicySemantics(src, dst, s, policy);
    StepsValidIffWellFormed(src, s);
  }

  /** The encoding of any scalar values is well-formed. */
  lemma {:induction false} EncodeAllWellFormed(dst: Form, cps: seq<Scalar>)
    ensures WellFormed(dst, EncodeAll(dst, cps))
  {
    if |cps| > 0 {
      EncodeAllWellFormed(dst, cps[1..]);
      var e := Emit(dst, cps[0]);
      var rest := EncodeAll(dst, cps[1..]);
      assert (e + rest)[|e|..] == rest;
      match dst {
        case UTF8 => Utf8.EncodeIsRfc(cps[0], rest);
        case UTF16 => Utf16.EncodeIsRfc(cps[0], rest);
        case UTF32 =>
          forall i | 0 <= i < |e + rest| ensures IsScalar((e + rest)[i]) {
            if i > 0 { assert (e + rest)[i] == rest[i - 1]; }
          }
      }
    }
  }

  /** Whatever the input and the policy, a converter's output is well-formed. */
  lemma DirectedWellFormed(src: Form, dst: Form, s: seq<U32>, policy: ErrorPolicy)
    requires Fits(src, s)
    ensures WellFormed(dst, Directed(src, dst, s, policy).value)
  {
    PolicySemantics(src, dst, s, policy);
    EncodeAllWellFormed(dst, Apply(policy, Steps(src, s)));
  }

  /** Decoding the units of one scalar value, whatever follows them, takes one valid step. */
  lemma StepOfEmit(f: Form, cp: Scalar, rest: seq<U32>)
    requires Fits(f, rest)
    ensures Fits(f, Emit(f, cp) + rest)
    ensures Step(f, Emit(f, cp) + rest) == DecodeResult(cp, |Emit(f, cp)|, true)
    ensures (Emit(f, cp) + rest)[|Emit(f, cp)|..] == rest
  {
    var e := Emit(f, cp);
    FitsAppend(f, e, rest);
    assert (e + rest)[|e|..] == rest;
    match f {
      case UTF8 => Utf8.DecodeEncode(cp, rest);
      case UTF16 => Utf16.DecodeEncode(cp, rest);
      case UTF32 =>
    }
  }

  /** Decoding an encoding takes one valid step per scalar value and gives the values back. */
  lemma {:induction false} StepsOfEncoding(f: Form, cps: seq<Scalar>)
    ensures Steps(f, EncodeAll(f, cps)) == AsSteps(cps)
  {
    if |cps| > 0 {
      StepsOfEncoding(f, cps[1..]);
      StepOfEmit(f, cps[0], EncodeAll(f, cps[1..]));
      assert AsSteps(cps) == [Some(cps[0])] + AsSteps(cps[1..]);
    }
  }

  lemma {:induction false} ValuesOfValid(steps: seq<Option<Scalar>>, policy: ErrorPolicy)
    requires AllValid(steps)
    ensures Apply(policy, steps) == Values(steps)
    ensures |Values(steps)| == |steps|
    ensures forall i | 0 <= i < |steps| :: Values(steps)[i] == steps[i].value
  {
    if |steps| > 0 {
      ValuesOfValid(steps[1..], policy);
      assert FirstInvalid(steps) == |steps|;
      assert steps[..|steps|] == steps;
    }
  }

  lemma ValuesOfAsSteps(cps: seq<Scalar>)
    ensures Values(AsSteps(cps)) == cps
  {
    ValuesOfValid(AsSteps(cps), SkipInvalidValues);
  }

  /** Well-formed input starts with a valid step and stays well-formed after it. */
  lemma WellFormedCons(f: Form, s: seq<U32>)
    requires Fits(f, s) && WellFormed(f, s) && |s| > 0
    ensures Step(f, s).isValid && WellFormed(f, s[Step(f, s).consumed..])
  {
    var d := Step(f, s);
    var t := s[d.consumed..];
    var x: Option<Scalar> := if d.isValid then Some(d.codepoint as Scalar) else None;
    assert Steps(f, s) == [x] + Steps(f, t);
    StepsValidIffWellFormed(f, s);
    AllValidCons(x, Steps(f, t));
    StepsValidIffWellFormed(f, t);
  }

  /** After a valid step, the decoded values are its codepoint followed by those of the rest. */
  lemma ValuesCons(f: Form, s: seq<U32>)
    requires Fits(f, s) && |s| > 0 && Step(f, s).isValid
    ensures Values(Steps(f, s)) == [Step(f, s).codepoint as Scalar] + Values(Steps(f, s[Step(f, s).consumed..]))
  {
    var d := Step(f, s);
    var t := s[d.consumed..];
    assert Steps(f, s) == [Some(d.codepoint as Scalar)] + Steps(f, t);
    assert ([Some(d.codepoint as Scalar)] + Steps(f, t))[1..] == Steps(f, t);
  }

  /** Emitting the codepoint of a valid step reproduces the units it consumed. */
  lemma EmitStep(f: Form, s: seq<U32>)
    requires Fits(f, s) && |s| > 0 && Step(f, s).isValid
    ensures Emit(f, Step(f, s).codepoint) == s[..Step(f, s).consumed]
  {
    match f {
      case UTF8 => Utf8.EncodeDecode(s);
      case UTF16 => Utf16.EncodeDecode(s);
      case UTF32 =>
    }
  }

  /** Re-encoding undoes decoding one valid step more than it undoes on the rest. */
  lemma EncodeOfStepsCons(f: Form, s: seq<U32>)
    requires Fits(f, s) && |s| > 0 && Step(f, s).isValid
    requires EncodeAll(f, Values(Steps(f, s[Step(f, s).consumed..]))) == s[Step(f, s).consumed..]
    ensures EncodeAll(f, Values(Steps(f, s))) == s
  {
    var d := Step(f, s);
    var t := s[d.consumed..];
    ValuesCons(f, s);
    EncodeAllCons(f, d.codepoint, Values(Steps(f, t)));
    EmitStep(f, s);
    SplitAt(s, d.consumed);
  }

  lemma SplitAt(s: seq<U32>, n: nat)
    requires n <= |s|
    ensures s[..n] + s[n..] == s
  {
  }

  /** Re-encoding the values decoded from well-formed input gives the input back. */
  lemma {:induction false} EncodeOfSteps(f: Form, s: seq<U32>)
    requires Fits(f, s) && WellFormed(f, s)
    ensures EncodeAll(f, Values(Steps(f, s))) == s
    decreases |s|
  {
    if |s| > 0 {
      WellFormedCons(f, s);
      EncodeOfSteps(f, s[Step(f, s).consumed..]);
      EncodeOfStepsCons(f, s);
    }
  }

  /** Converting an encoding of scalar values gives their encoding in the destination form, valid. */
  lemma EncodingConverts(src: Form, dst: Form, cps: seq<Scalar>, policy: ErrorPolicy)
    ensures Directed(src, dst, EncodeAll(src, cps), policy) == ConversionResult(EncodeAll(dst, cps), true)
  {
    PolicySemantics(src, dst, EncodeAll(src, cps), policy);
    StepsOfEncoding(src, cps);
    ValuesOfValid(AsSteps(cps), policy);
    ValuesOfAsSteps(cps);
  }

  /**
   Converting well-formed text to UTF-32 gives, valid, the codepoints whose
   encoding it is.
   */
  lemma DecodeWellFormed(f: Form, s: seq<U32>, policy: ErrorPolicy)
    requires Fits(f, s) && WellFormed(f, s)
    ensures Directed(f, UTF32, s, policy) == ConversionResult(Values(Steps(f, s)), true)
    ensures EncodeAll(f, Values(Steps(f, s))) == s
  {
    PolicySemantics(f, UTF32, s, policy);
    StepsValidIffWellFormed(f, s);
    ValuesOfValid(Steps(f, s), policy);
    EncodeOfSteps(f, s);
    Utf32Identity(Values(Steps(f, s)));
  }

  lemma {:induction false} Utf32Identity(cps: seq<Scalar>)
    ensures EncodeAll(UTF32, cps) == cps
  {
    if |cps| > 0 {
      Utf32Identity(cps[1..]);
      assert cps == [cps[0]] + cps[1..];
    }
  }

  /**
   Round trip: converting well-formed text to another form and back gives
   it back, and both conversions report valid.
   */
  lemma RoundTrip(f: Form, g: Form, s: seq<U32>, policy: ErrorPolicy, policy': ErrorPolicy)
    requires Fits(f, s) && WellFormed(f, s)
    ensures Directed(f, g, s, policy).isValid
    ensures Directed(g, f, Directed(f, g, s, policy).value, policy') == ConversionResult(s, true)
  {
    PolicySemantics(f, g, s, policy);
    StepsValidIffWellFormed(f, s);
    var cps := Values(Steps(f, s));
    ValuesOfValid(Steps(f, s), policy);
    EncodingConverts(g, f, cps, policy');
    EncodeOfSteps(f, s);
  }

  /**
   Round trip through the overload sets: converting well-formed text to any
   form and back gives it back, valid, whether the forms differ (two
   directed conversions) or agree (two copies).
   */
  lemma ConvertRoundTrip(f: Form, g: Form, s: seq<U32>, policy: ErrorPolicy, policy': ErrorPolicy)
    requires Fits(f, s) && WellFormed(f, s)
    ensures Convert(f, g, s, policy).isValid
    ensures Convert(g, f, Convert(f, g, s, policy).value, policy') == ConversionResult(s, true)
  {
    if f != g {
      RoundTrip(f, g, s, policy, policy');
    }
  }

  /** A successful step reads nothing beyond the units it consumes. */
  lemma StepLocal(src: Form, s: seq<U32>, m: nat)
    requires Fits(src, s) && |s| > 0
    requires Step(src, s).isValid && Step(src, s).consumed <= m <= |s|
    ensures Fits(src, s[..m]) && Step(src, s[..m]) == Step(src, s)
  {
    match src {
      case UTF8 => Utf8.DecodeOneLocal(s, m);
      case UTF16 => Utf16.DecodeOneLocal(s, m);
      case UTF32 =>
    }
  }

  /** After a valid step, the valid prefix is that step followed by the valid prefix of the rest. */
  lemma ValidPrefixCons(src: Form, s: seq<U32>)
    requires Fits(src, s) && |s| > 0 && Step(src, s).isValid
    ensures var n := Step(src, s).consumed;
            var k := ValidPrefix(src, s);
            k == n + ValidPrefix(src, s[n..])
            && Fits(src, s[..k]) && |s[..k]| > 0
            && Step(src, s[..k]) == Step(src, s)
            && s[..k][n..] == s[n..][..ValidPrefix(src, s[n..])]
  {
    var n := Step(src, s).consumed;
    StepLocal(src, s, ValidPrefix(src, s));
  }

  /** The input before the first invalid step is well-formed. */
  lemma {:induction false} ValidPrefixWellFormed(src: Form, s: seq<U32>)
    requires Fits(src, s)
    ensures Fits(src, s[..ValidPrefix(src, s)])
    ensures WellFormed(src, s[..ValidPrefix(src, s)])
    decreases |s|
  {
    var k := ValidPrefix(src, s);
    if |s| == 0 || !Step(src, s).isValid {
      assert s[..k] == [];
    } else {
      var d := Step(src, s);
      var t := s[d.consumed..];
      ValidPrefixWellFormed(src, t);
      ValidPrefixCons(src, s);
      var u := t[..ValidPrefix(src, t)];
      StepsValidIffWellFormed(src, u);
      assert Steps(src, s[..k]) == [Some(d.codepoint as Scalar)] + Steps(src, u);
      AllValidCons(Some(d.codepoint as Scalar), Steps(src, u));
      StepsValidIffWellFormed(src, s[..k]);
    }
  }

  /** A valid step stays the same step however the input continues. */
  lemma StepExtends(src: Form, t: seq<U32>, rest: seq<U32>)
    requires Fits(src, t) && Fits(src, rest) && |t| > 0 && Step(src, t).isValid
    ensures Fits(src, t + rest) && Step(src, t + rest) == Step(src, t)
  {
    var d := Step(src, t);
    var e, tail := Emit(src, d.codepoint), t[d.consumed..];
    EmitStep(src, t);
    SplitAt(t, d.consumed);
    AppendAssoc(e, tail, rest);
    FitsAppend(src, tail, rest);
    StepOfEmit(src, d.codepoint, tail + rest);
  }

  lemma AppendAssoc(a: seq<U32>, b: seq<U32>, c: seq<U32>)
    ensures (a + b) + c == a + (b + c)
  {
  }

  /** A well-formed prefix of the input ends no later than the first invalid step. */
  lemma {:induction false} WellFormedPrefixBound(src: Form, s: seq<U32>, m: nat)
    requires Fits(src, s) && m <= |s| && Fits(src, s[..m]) && WellFormed(src, s[..m])
    ensures m <= ValidPrefix(src, s)
    decreases |s|
  {
    if m > 0 {
      var t := s[..m];
      WellFormedCons(src, t);
      assert t + s[m..] == s;
      StepExtends(src, t, s[m..]);
      var c := Step(src, t).consumed;
      var u := s[c..];
      assert t[c..] == u[..m - c];
      WellFormedPrefixBound(src, u, m - c);
    }
  }

  /** No prefix of the input that reaches past the first invalid step is well-formed. */
  lemma ValidPrefixLongest(src: Form, s: seq<U32>, m: nat)
    requires Fits(src, s) && ValidPrefix(src, s) < m <= |s|
    ensures Fits(src, s[..m]) && !WellFormed(src, s[..m])
  {
    assert Fits(src, s[..m]);
    if WellFormed(src, s[..m]) {
      WellFormedPrefixBound(src, s, m);
      assert false;
    }
  }

  /** `s[..k]` is well formed and no longer prefix of `s` is. */
  predicate LongestWellFormed(src: Form, s: seq<U32>, k: nat) {
    && k <= |s| && Fits(src, s[..k]) && WellFormed(src, s[..k])
    && forall m | k < m <= |s| :: Fits(src, s[..m]) && !WellFormed(src, s[..m])
  }

  /**
   StopOnFirstError returns exactly the conversion, under any policy, of the
   longest well-formed prefix of the input (the input before the first
   invalid step); the result is valid exactly when that is the whole input.
   */
  lemma {:induction false} StopIsPrefix(src: Form, dst: Form, s: seq<U32>, policy: ErrorPolicy)
    requires Fits(src, s)
    ensures LongestWellFormed(src, s, ValidPrefix(src, s))
    ensures Directed(src, dst, s, StopOnFirstError)
         == ConversionResult(Directed(src, dst, s[..ValidPrefix(src, s)], policy).value, ValidPrefix(src, s) == |s|)
    decreases |s|
  {
    ValidPrefixWellFormed(src, s);
    forall m | ValidPrefix(src, s) < m <= |s|
      ensures Fits(src, s[..m]) && !WellFormed(src, s[..m])
    {
      ValidPrefixLongest(src, s, m);
    }
    var k := ValidPrefix(src, s);
    if |s| == 0 || !Step(src, s).isValid {
      assert s[..k] == [];
    } else {
      var n := Step(src, s).consumed;
      var t := s[n..];
      StopIsPrefix(src, dst, t, policy);
      ValidPrefixCons(src, s);
      DirectedCons(src, dst, s[..k], policy);
      DirectedCons(src, dst, s, StopOnFirstError);
    }
  }

  predicate IsAscii(s: seq<U32>) {
    forall i | 0 <= i < |s| :: s[i] < 0x80
  }

  /** An ASCII unit is one valid step in every form, and every form encodes it as itself. */
  lemma AsciiStep(src: Form, dst: Form, s: seq<U32>)
    requires Fits(src, s) && |s| > 0 && s[0] < 0x80
    ensures Step(src, s) == DecodeResult(s[0], 1, true)
    ensures Emit(dst, s[0]) == [s[0]]
  {
  }

  lemma FitsAppend(src: Form, a: seq<U32>, b: seq<U32>)
    requires Fits(src, a) && Fits(src, b)
    ensures Fits(src, a + b)
  {
    forall i | 0 <= i < |a + b| ensures (a + b)[i] < UnitLimit(src) {
      if i >= |a| { assert (a + b)[i] == b[i - |a|]; }
    }
  }

  /** One ASCII unit in front of `rest` is copied through unchanged. */
  lemma AsciiCons(src: Form, dst: Form, s: seq<U32>, policy: ErrorPolicy)
    requires Fits(src, s) && |s| > 0 && s[0] < 0x80
    ensures Directed(src, dst, s, policy)
         == ConversionResult([s[0]] + Directed(src, dst, s[1..], policy).value, Directed(src, dst, s[1..], policy).isValid)
  {
    AsciiStep(src, dst, s);
    DirectedCons(src, dst, s, policy);
  }

  lemma SplitHead(a: seq<U32>, v: seq<U32>)
    requires |a| > 0
    ensures [a[0]] + (a[1..] + v) == a + v
  {
  }

  /** ASCII units are single valid steps in every form and are copied through unchanged. */
  lemma {:induction false} AsciiPrefix(src: Form, dst: Form, a: seq<U32>, rest: seq<U32>, policy: ErrorPolicy)
    requires IsAscii(a) && Fits(src, rest)
    ensures Fits(src, a + rest)
    ensures Directed(src, dst, a + rest, policy)
         == ConversionResult(a + Directed(src, dst, rest, policy).value, Directed(src, dst, rest, policy).isValid)
    decreases |a|
  {
    assert Fits(src, a);
    FitsAppend(src, a, rest);
    if |a| == 0 {
      assert a + rest == rest;
      assert a + Directed(src, dst, rest, policy).value == Directed(src, dst, rest, policy).value;
    } else {
      var s := a + rest;
      assert s[1..] == a[1..] + rest;
      AsciiPrefix(src, dst, a[1..], rest, policy);
      AsciiCons(src, dst, s, policy);
      SplitHead(a, Directed(src, dst, rest, policy).value);
    }
  }

  /** A unit the decoder rejects on its own is replaced, skipped or ends the conversion. */
  lemma RejectedUnit(src: Form, dst: Form, u: U32, rest: seq<U32>, policy: ErrorPolicy)
    requires Fits(src, [u] + rest) && Step(src, [u] + rest) == Rejected
    ensures Fits(src, rest)
    ensures policy == UseReplacementCharacter ==>
              Directed(src, dst, [u] + rest, policy) == ConversionResult(ReplacementUnits(dst) + Directed(src, dst, rest, policy).value, false)
    ensures policy == SkipInvalidValues ==>
              Directed(src, dst, [u] + rest, policy) == ConversionResult(Directed(src, dst, rest, policy).value, false)
    ensures policy == StopOnFirstError ==> Directed(src, dst, [u] + rest, policy) == ConversionResult([], false)
  {
    assert ([u] + rest)[1..] == rest;
  }
}
