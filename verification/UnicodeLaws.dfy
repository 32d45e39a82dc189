/** Laws of the Unicode converters: round trips, direct and indirect conversion, conversion in pieces,
    and where the code departs from its documentation. */
module UnicodeLaws {
  import opened Unicode

  // ---------------------------------------------------------------- round trips

  /** The characters that fit do fit, and one more would not. */
  lemma {:induction false} FittingGreedy(to: Form, chars: seq<nat>, room: nat)
    requires Scalars(chars)
    ensures var m := Fitting(to, chars, room);
      && |EncAll(to, chars[..m])| <= room
      && (m < |chars| ==> |EncAll(to, chars[..m + 1])| > room)
  {
    hide Enc;
    if chars != [] && room >= |Enc(to, chars[0])| {
      FittingGreedy(to, chars[1..], room - |Enc(to, chars[0])|);
      var m := Fitting(to, chars, room);
      EncAllStep(to, chars, m);
      if m < |chars| {
        EncAllStep(to, chars, m + 1);
      }
    }
  }

  lemma {:induction false} FittingAll(to: Form, chars: seq<nat>, room: nat)
    requires Scalars(chars) && room >= |EncAll(to, chars)|
    ensures Fitting(to, chars, room) == |chars|
  {
    hide Enc;
    if chars != [] {
      FittingAll(to, chars[1..], room - |Enc(to, chars[0])|);
    }
  }

  /** With enough room a converter turns one encoding of a text into the other. */
  lemma Converts(form: Form, to: Form, strict: bool, chars: seq<nat>, room: nat)
    requires Scalars(chars) && room >= |EncAll(to, chars)|
    ensures Run(form, to, strict, EncAll(form, chars), room, ConversionOK)
         == Converted(|EncAll(form, chars)|, EncAll(to, chars), ConversionOK)
  {
    FittingAll(to, chars, room);
    RunEncoded(form, to, strict, chars, room);
    assert chars[..|chars|] == chars;
  }

  /** There and back again: on every sequence of scalar values, in every pair of forms. */
  lemma RoundTrip(form: Form, to: Form, strict: bool, chars: seq<nat>, room: nat, back: nat)
    requires Scalars(chars) && room >= |EncAll(to, chars)| && back >= |EncAll(form, chars)|
    ensures Run(to, form, strict, Run(form, to, strict, EncAll(form, chars), room, ConversionOK).out, back,
                ConversionOK)
         == Converted(|EncAll(to, chars)|, EncAll(form, chars), ConversionOK)
  {
    Converts(form, to, strict, chars, room);
    Converts(to, form, strict, chars, back);
  }

  // ---------------------------------------------------------------- well-formed UTF-8

  /** One character by the grammar of section 4 of RFC 3629. */
  predicate WellFormedChar(s: seq<nat>) {
    match |s|
    case 1 => s[0] <= 0x7F
    case 2 => 0xC2 <= s[0] <= 0xDF && IsTail(s[1])
    case 3 =>
      IsTail(s[2]) &&
      ((s[0] == 0xE0 && 0xA0 <= s[1] <= 0xBF) || (0xE1 <= s[0] <= 0xEC && IsTail(s[1]))
       || (s[0] == 0xED && 0x80 <= s[1] <= 0x9F) || (0xEE <= s[0] <= 0xEF && IsTail(s[1])))
    case 4 =>
      IsTail(s[2]) && IsTail(s[3]) &&
      ((s[0] == 0xF0 && 0x90 <= s[1] <= 0xBF) || (0xF1 <= s[0] <= 0xF3 && IsTail(s[1]))
       || (s[0] == 0xF4 && 0x80 <= s[1] <= 0x8F))
    case _ => false
  }

  /** `isLegalUTF8` accepts the grammar, and more: after ED and F4 also second bytes below 80. */
  lemma LegalExactly(s: seq<nat>)
    requires s != []
    ensures WellFormedChar(s) <==>
      |s| == Trailing(s[0]) + 1 && Legal(s) && !(s[0] in {0xED, 0xF4} && s[1] < 0x80)
  {
  }

  /** It accepts a sequence that is not UTF-8, and decoding it loses the difference. */
  lemma LegalTooMuch()
    ensures var s := [0xED, 0x00, 0x80];
      && |s| == Trailing(s[0]) + 1 && Legal(s) && !WellFormedChar(s)
      && Sum8(s) == 0xB000 && Enc8(0xB000) == [0xEB, 0x80, 0x80]
  {
  }

  /** Encoding undoes decoding exactly on the accepted sequences whose second byte is not too low. */
  lemma EncodeAfterDecode(s: seq<nat>)
    requires s != [] && |s| == Trailing(s[0]) + 1 && Legal(s)
    ensures Sum8(s) >= 0 && IsScalar(Sum8(s))
    ensures Enc8(Sum8(s)) == s <==> !(s[0] in {0xED, 0xF4} && s[1] < 0x80)
  {
    LegalScalar(s);
    if s[0] in {0xED, 0xF4} && s[1] < 0x80 {
      Sum8Inverts(Sum8(s));
      EncodedIsWellFormed(Sum8(s));
    } else {
      DecodeWellFormed(s);
    }
  }

  lemma EncodedIsWellFormed(ch: nat)
    requires IsScalar(ch)
    ensures WellFormedChar(Enc8(ch))
  {
    Sum8Inverts(ch);
    LegalExactly(Enc8(ch));
    TailsOfEncoding(ch);
    hide Enc8, Legal, WellFormedChar;
  }

  lemma TailsOfEncoding(ch: nat)
    requires IsScalar(ch)
    ensures |Enc8(ch)| >= 2 ==> Enc8(ch)[1] >= 0x80
  {
  }

  lemma DecodeWellFormed(s: seq<nat>)
    requires WellFormedChar(s)
    ensures |s| == Trailing(s[0]) + 1 && Legal(s) && Sum8(s) >= 0 && IsScalar(Sum8(s)) && Enc8(Sum8(s)) == s
  {
    LegalExactly(s);
    LegalScalar(s);
    SplitBytes(s);
  }

  /** The digits of the sum are the bytes. */
  lemma SplitBytes(s: seq<nat>)
    requires WellFormedChar(s) && Sum8(s) >= 0 && IsScalar(Sum8(s))
    ensures Enc8(Sum8(s)) == s
  {
    match |s| {
      case 1 =>
      case 2 => Digits2(s[0] - 0xC0, s[1] - 0x80);
      case 3 => Digits3(s[0] - 0xE0, s[1] - 0x80, s[2] - 0x80);
      case _ => Digits4(s[0] - 0xF0, s[1] - 0x80, s[2] - 0x80, s[3] - 0x80);
    }
  }

  lemma Digits2(a: nat, b: nat)
    requires b < 0x40
    ensures var n := a * 0x40 + b; n / 0x40 == a && n % 0x40 == b
  {
  }

  lemma Digits3(a: nat, b: nat, c: nat)
    requires b < 0x40 && c < 0x40
    ensures var n := (a * 0x40 + b) * 0x40 + c; n / 0x1000 == a && n / 0x40 % 0x40 == b && n % 0x40 == c
  {
    Digits2(a * 0x40 + b, c);
    Digits2(a, b);
    Divided((a * 0x40 + b) * 0x40 + c);
  }

  lemma Digits4(a: nat, b: nat, c: nat, d: nat)
    requires b < 0x40 && c < 0x40 && d < 0x40
    ensures var n := ((a * 0x40 + b) * 0x40 + c) * 0x40 + d;
      n / 0x40000 == a && n / 0x1000 % 0x40 == b && n / 0x40 % 0x40 == c && n % 0x40 == d
  {
    var m := (a * 0x40 + b) * 0x40 + c;
    Digits2(m, d);
    Digits3(a, b, c);
    Divided(m * 0x40 + d);
  }

  /** A text by the grammar: `n` is the length of its first character. */
  ghost predicate WellFormed(s: seq<nat>)
    decreases |s|
  {
    s == [] || exists n :: 1 <= n <= |s| && n <= 4 && WellFormedChar(s[..n]) && WellFormed(s[n..])
  }

  /** Well-formed texts are the encodings of sequences of scalar values. */
  lemma {:induction false} WellFormedEncodes(s: seq<nat>) returns (chars: seq<nat>)
    requires WellFormed(s)
    ensures Scalars(chars) && EncAll(F8, chars) == s
    decreases |s|
  {
    hide WellFormedChar, Enc8, Sum8, Legal;
    if s == [] {
      chars := [];
    } else {
      var n :| 1 <= n <= |s| && n <= 4 && WellFormedChar(s[..n]) && WellFormed(s[n..]);
      var rest := WellFormedEncodes(s[n..]);
      DecodeWellFormed(s[..n]);
      chars := [Sum8(s[..n]) as nat] + rest;
      assert chars[1..] == rest && s == s[..n] + s[n..];
    }
  }

  lemma {:induction false} EncodingsWellFormed(chars: seq<nat>)
    requires Scalars(chars)
    ensures WellFormed(EncAll(F8, chars))
  {
    hide Enc8, WellFormedChar;
    if chars != [] {
      EncodingsWellFormed(chars[1..]);
      var c, s := Enc8(chars[0]), EncAll(F8, chars);
      EncodedIsWellFormed(chars[0]);
      assert s[..|c|] == c && s[|c|..] == EncAll(F8, chars[1..]);
    }
  }

  /** Decoding then encoding gives back a well-formed text, whichever form is in between. */
  lemma WellFormedRoundTrip(s: seq<nat>, to: Form, strict: bool, room: nat)
    requires WellFormed(s) && room >= |s| && to != F8
    ensures var there := Run(F8, to, strict, s, room, ConversionOK);
      there.result == ConversionOK && there.taken == |s| &&
      Run(to, F8, strict, there.out, room, ConversionOK) == Converted(|there.out|, s, ConversionOK)
  {
    var chars := WellFormedEncodes(s);
    NoLonger(to, chars);
    Converts(F8, to, strict, chars, room);
    Converts(to, F8, strict, chars, room);
  }

  lemma {:induction false} NoLonger(to: Form, chars: seq<nat>)
    requires Scalars(chars) && to != F8
    ensures |EncAll(to, chars)| <= |EncAll(F8, chars)|
  {
    if chars != [] {
      NoLonger(to, chars[1..]);
    }
  }

  /** And a text that is accepted without being well-formed is not given back. */
  lemma AcceptedRoundTrip(s: seq<nat>, room: nat, strict: bool)
    requires Run(F8, F32, strict, s, room, ConversionOK).result == ConversionOK && room >= 4 * |s|
    ensures Run(F32, F8, strict, Run(F8, F32, strict, s, room, ConversionOK).out, room, ConversionOK).out == s
            <==> WellFormed(s)
  {
    var out := Run(F8, F32, strict, s, room, ConversionOK).out;
    DecodedScalars(strict, s, room);
    SameAs32(out);
    Short(out);
    Converts(F32, F8, strict, out, room);
    if WellFormed(s) {
      WellFormedRoundTrip(s, F32, strict, room);
    }
    EncodingsWellFormed(out);
  }

  lemma {:induction false} SameAs32(chars: seq<nat>)
    requires Scalars(chars)
    ensures EncAll(F32, chars) == chars
  {
    if chars != [] {
      SameAs32(chars[1..]);
    }
  }

  lemma {:induction false} Short(chars: seq<nat>)
    requires Scalars(chars)
    ensures |EncAll(F8, chars)| <= 4 * |chars|
  {
    if chars != [] {
      Short(chars[1..]);
    }
  }

  /** What comes out of UTF-8 are scalar values, no more than there were bytes. */
  lemma {:induction false} DecodedScalars(strict: bool, s: seq<nat>, room: nat)
    ensures var r := Run(F8, F32, strict, s, room, ConversionOK); Scalars(r.out) && |r.out| <= |s|
    decreases |s|
  {
    hide Legal, Sum8;
    if s != [] {
      var step := StepOf(F8, F32, strict, s);
      if step.Put? && room >= step.need {
        LegalScalar(s[..step.len]);
        DecodedScalars(strict, s[step.len..], room - |step.units|);
      }
    }
  }

  // ---------------------------------------------------------------- direct and indirect conversion

  ghost predicate Units(form: Form, src: seq<nat>) {
    forall i :: 0 <= i < |src| ==> src[i] < (if form == F8 then 0x100 else if form == F16 then 0x10000 else 0x8000_0000)
  }

  predicate Direct(form: Form, to: Form) { (form == F8 && to == F16) || (form == F16 && to == F8) }

  /** The same character, straight or by way of UTF-32. */
  lemma SameStep(form: Form, to: Form, strict: bool, src: seq<nat>)
    requires src != [] && Units(form, src) && Direct(form, to)
    ensures var d, a := StepOf(form, to, strict, src), StepOf(form, F32, strict, src);
      && (d.Halt? ==> d == a && d.need == 0)
      && (d.Put? ==> a.Put? && a.need == |a.units| == 1 && a.len == d.len && !a.error
                     && StepOf(F32, to, strict, a.units) == Put(d.need, 1, d.units, d.error)
                     && d.need == |d.units| && !d.error)
  {
    hide Legal, Sum8, Enc8;
    if form == F8 {
      var n := Trailing(src[0]) + 1;
      if |src| >= n && Legal(src[..n]) {
        LegalScalar(src[..n]);
      }
    }
  }

  /** A direct conversion of any input, malformed or not, is the conversion to UTF-32 followed by the
      conversion from it, unless one of them runs out of room. */
  lemma {:induction false} DirectIsIndirect(form: Form, to: Form, strict: bool, src: seq<nat>, direct: nat,
                                            first: nat, second: nat)
    requires Units(form, src) && Direct(form, to)
    requires Run(form, to, strict, src, direct, ConversionOK).result != TargetExhausted
    requires Run(form, F32, strict, src, first, ConversionOK).result != TargetExhausted
    requires Run(F32, to, strict, Run(form, F32, strict, src, first, ConversionOK).out, second, ConversionOK).result
             != TargetExhausted
    ensures var d, a := Run(form, to, strict, src, direct, ConversionOK),
        Run(form, F32, strict, src, first, ConversionOK);
      d.taken == a.taken && d.result == a.result
      && Run(F32, to, strict, a.out, second, ConversionOK) == Converted(|a.out|, d.out, ConversionOK)
    decreases |src|
  {
    hide StepOf, Run;
    if src == [] {
      RunNothing(form, to, strict, direct, ConversionOK);
      RunNothing(form, F32, strict, first, ConversionOK);
      RunNothing(F32, to, strict, second, ConversionOK);
    } else {
      SameStep(form, to, strict, src);
      var d, a := StepOf(form, to, strict, src), StepOf(form, F32, strict, src);
      RunStep(form, to, strict, src, direct, ConversionOK);
      RunStep(form, F32, strict, src, first, ConversionOK);
      if d.Put? {
        var rest := Run(form, F32, strict, src[a.len..], first - 1, ConversionOK);
        StepAlone(form, to, strict, a.units, rest.out);
        RunPut(F32, to, strict, a.units, rest.out, d.units, second, ConversionOK);
        DirectIsIndirect(form, to, strict, src[d.len..], direct - d.need, first - 1, second - d.need);
      } else {
        RunNothing(F32, to, strict, second, ConversionOK);
      }
    }
  }

  lemma StepAlone(form: Form, to: Form, strict: bool, unit: seq<nat>, rest: seq<nat>)
    requires |unit| == 1
    ensures StepOf(F32, to, strict, unit + rest) == StepOf(F32, to, strict, unit)
  {
  }

  // ---------------------------------------------------------------- the room a conversion needs

  /** The room a conversion asks for: at each character what its step asks for, after what came before. */
  function Need(form: Form, to: Form, strict: bool, src: seq<nat>): nat
    decreases |src|
  {
    if src == [] then 0
    else match StepOf(form, to, strict, src) {
      case Halt(need, _) => need
      case Put(need, len, units, _) => Larger(need, |units| + Need(form, to, strict, src[len..]))
    }
  }

  function Larger(a: nat, b: nat): (m: nat)
    ensures m >= a && m >= b && (m == a || m == b)
  {
    if a < b then b else a
  }

  /** The target is reported as exhausted exactly when there is less room than that. */
  lemma {:induction false} RunsOut(form: Form, to: Form, strict: bool, src: seq<nat>, room: nat,
                                   before: ConversionResult)
    requires before != TargetExhausted
    ensures Run(form, to, strict, src, room, before).result == TargetExhausted <==> room < Need(form, to, strict, src)
    decreases |src|
  {
    hide StepOf, Run;
    if src == [] {
      RunNothing(form, to, strict, room, before);
    } else {
      var step := StepOf(form, to, strict, src);
      RunStep(form, to, strict, src, room, before);
      Stopped(form, to, strict, src);
      if step.Put? && room >= step.need {
        RunsOut(form, to, strict, src[step.len..], room - |step.units|, if step.error then SourceIllegal else before);
      }
    }
  }

  /** A well-formed text needs room for its other encoding. */
  lemma {:induction false} NeedEncoded(form: Form, to: Form, strict: bool, chars: seq<nat>)
    requires Scalars(chars)
    ensures Need(form, to, strict, EncAll(form, chars)) == |EncAll(to, chars)|
  {
    hide StepOf, Enc;
    if chars != [] {
      var rest := EncAll(form, chars[1..]);
      StepEncoded(form, to, strict, chars[0], rest);
      DropPrefix(Enc(form, chars[0]), rest);
      NeedEncoded(form, to, strict, chars[1..]);
    }
  }

  /** A step that stops never says that the target is exhausted. */
  lemma Stopped(form: Form, to: Form, strict: bool, src: seq<nat>)
    requires src != []
    ensures StepOf(form, to, strict, src).Halt? ==> StepOf(form, to, strict, src).result != TargetExhausted
  {
  }

  /** A value over 10FFFF at which a conversion from UTF-32 notes an error and goes on. */
  predicate Noted(to: Form, strict: bool, ch: nat) { ch > MAX_LEGAL && (to == F8 || (to == F16 && strict)) }

  /** The values for which a conversion from UTF-32 is to report an error: to UTF-8 those over 10FFFF, and
      surrogates if it is strict; to UTF-16 both if it is strict, and none otherwise. */
  predicate Faulty(to: Form, strict: bool, ch: nat) {
    Noted(to, strict, ch) || (strict && to != F32 && IsSurrogate(ch))
  }

  ghost predicate AnyFaulty(to: Form, strict: bool, src: seq<nat>) {
    exists i :: 0 <= i < |src| && Faulty(to, strict, src[i])
  }

  /** What a conversion from UTF-32 reports, for every text, target form, mode and room: an error in the
      text is reported if and only if there is all the room the text needs. */
  lemma {:induction false} ErrorReported(to: Form, strict: bool, src: seq<nat>, room: nat, before: ConversionResult)
    requires before in {ConversionOK, SourceIllegal}
    ensures Run(F32, to, strict, src, room, before).result ==
      if room < Need(F32, to, strict, src) then TargetExhausted
      else if AnyFaulty(to, strict, src) then SourceIllegal
      else before
    decreases |src|
  {
    hide Run, Enc8, Enc16;
    if src == [] {
      RunNothing(F32, to, strict, room, before);
    } else {
      var step := StepOf(F32, to, strict, src);
      RunStep(F32, to, strict, src, room, before);
      FaultyStep(to, strict, src);
      if step.Put? && room >= step.need {
        ErrorReported(to, strict, src[1..], room - |step.units|, if step.error then SourceIllegal else before);
      }
    }
  }

  /** A value is faulty if the conversion stops at it or notes an error. */
  lemma FaultyStep(to: Form, strict: bool, src: seq<nat>)
    requires src != []
    ensures var step := StepOf(F32, to, strict, src);
      && (Faulty(to, strict, src[0]) <==> step.Halt? || step.error)
      && (step.Halt? ==> step.result == SourceIllegal)
      && (step.Put? ==> step.len == 1)
    ensures AnyFaulty(to, strict, src) <==> Faulty(to, strict, src[0]) || AnyFaulty(to, strict, src[1..])
  {
    assert forall i :: 1 <= i < |src| ==> src[i] == src[1..][i - 1];
    if AnyFaulty(to, strict, src[1..]) {
      var i :| 0 <= i < |src[1..]| && Faulty(to, strict, src[1..][i]);
      assert Faulty(to, strict, src[i + 1]);
    }
  }

  // ---------------------------------------------------------------- conversion in pieces

  /** No error is noted. */
  ghost predicate Clean(form: Form, to: Form, strict: bool, src: seq<nat>) {
    form == F32 ==> forall i :: 0 <= i < |src| ==> !Noted(to, strict, src[i])
  }

  /** What the code makes of an error that an earlier call noted before it ran out of room: nothing. One
      call would have reported it. */
  function Joint(result: ConversionResult, clean: bool): ConversionResult
  {
    if result == ConversionOK && !clean then SourceIllegal else result
  }

  /** The result so far matters only to a conversion that runs to its end. */
  lemma {:induction false} BeforeMatters(form: Form, to: Form, strict: bool, src: seq<nat>, room: nat)
    ensures var x := Run(form, to, strict, src, room, ConversionOK);
      Run(form, to, strict, src, room, SourceIllegal)
      == Converted(x.taken, x.out, if x.result == ConversionOK then SourceIllegal else x.result)
    decreases |src|
  {
    hide *;
    if src == [] {
      RunNothing(form, to, strict, room, ConversionOK);
      RunNothing(form, to, strict, room, SourceIllegal);
    } else {
      var step := StepOf(form, to, strict, src);
      if step.Put? && room >= step.need {
        BeforeMatters(form, to, strict, src[step.len..], room - |step.units|);
        BeforePut(form, to, strict, src, room);
      } else {
        RunStep(form, to, strict, src, room, ConversionOK);
        RunStep(form, to, strict, src, room, SourceIllegal);
        Halts(form, to, strict, src);
      }
    }
  }

  lemma BeforePut(form: Form, to: Form, strict: bool, src: seq<nat>, room: nat)
    requires src != [] && StepOf(form, to, strict, src).Put? && StepOf(form, to, strict, src).need <= room
    requires var step := StepOf(form, to, strict, src);
      var x := Run(form, to, strict, src[step.len..], room - |step.units|, ConversionOK);
      Run(form, to, strict, src[step.len..], room - |step.units|, SourceIllegal)
      == Converted(x.taken, x.out, if x.result == ConversionOK then SourceIllegal else x.result)
    ensures var x := Run(form, to, strict, src, room, ConversionOK);
      Run(form, to, strict, src, room, SourceIllegal)
      == Converted(x.taken, x.out, if x.result == ConversionOK then SourceIllegal else x.result)
  {
    hide *;
    RunStep(form, to, strict, src, room, ConversionOK);
    RunStep(form, to, strict, src, room, SourceIllegal);
  }

  lemma Halts(form: Form, to: Form, strict: bool, src: seq<nat>)
    requires src != []
    ensures StepOf(form, to, strict, src).Halt? ==> StepOf(form, to, strict, src).result != ConversionOK
  {
  }

  /** Only the values passed over in a strict conversion from UTF-32 to UTF-16 need room they do not use. */
  predicate PassedOver(form: Form, to: Form, strict: bool) { form == F32 && to == F16 && strict }

  lemma CleanStep(form: Form, to: Form, strict: bool, src: seq<nat>, n: nat)
    requires src != [] && StepOf(form, to, strict, src).Put? && StepOf(form, to, strict, src).len <= n <= |src|
    ensures var step := StepOf(form, to, strict, src);
      && (Clean(form, to, strict, src[..n]) <==> !step.error && Clean(form, to, strict, src[step.len..n]))
      && (|step.units| == step.need || (step.need == 1 && PassedOver(form, to, strict) && step.error))
  {
    var step := StepOf(form, to, strict, src);
    if form == F32 {
      assert step.error <==> Noted(to, strict, src[0]);
      assert forall i :: 1 <= i < n ==> src[1..n][i - 1] == src[i] == src[..n][i];
      assert src[..n][0] == src[0];
    }
  }

  /** A conversion that stopped because the target was full, resumed with room for `more` units, is the
      conversion that had this room from the start, but for an error noted by then. */
  lemma {:induction false} Resumed(form: Form, to: Form, strict: bool, src: seq<nat>, room: nat, more: nat)
    requires Run(form, to, strict, src, room, ConversionOK).result == TargetExhausted
    requires more > 0 || !PassedOver(form, to, strict)
             || Clean(form, to, strict, src[..Run(form, to, strict, src, room, ConversionOK).taken])
    ensures var r := Run(form, to, strict, src, room, ConversionOK);
      var s := Run(form, to, strict, src[r.taken..], more, ConversionOK);
      Run(form, to, strict, src, |r.out| + more, ConversionOK)
      == Converted(r.taken + s.taken, r.out + s.out, Joint(s.result, Clean(form, to, strict, src[..r.taken])))
    decreases |src|
  {
    hide StepOf, Run, Clean;
    if src == [] {
      RunNothing(form, to, strict, room, ConversionOK);
    } else {
      var step := StepOf(form, to, strict, src);
      RunStep(form, to, strict, src, room, ConversionOK);
      if room < step.need {
        assert src[0..] == src;
        NothingYet(form, to, strict, src, more);
      } else if step.Put? {
        var tail := src[step.len..];
        BeforeMatters(form, to, strict, tail, room - |step.units|);
        CleanTail(form, to, strict, src, room);
        Resumed(form, to, strict, tail, room - |step.units|, more);
        ResumedPut(form, to, strict, src, room, more);
      } else {
        Stopped(form, to, strict, src);
      }
    }
  }

  /** What was taken after the first character is clean if all of it is. */
  lemma CleanTail(form: Form, to: Form, strict: bool, src: seq<nat>, room: nat)
    requires src != [] && StepOf(form, to, strict, src).Put? && StepOf(form, to, strict, src).need <= room
    ensures var step := StepOf(form, to, strict, src);
      Clean(form, to, strict, src[..Run(form, to, strict, src, room, ConversionOK).taken]) ==>
        && !step.error
        && Clean(form, to, strict,
                 src[step.len..][..Run(form, to, strict, src[step.len..], room - |step.units|, ConversionOK).taken])
  {
    hide StepOf, Run, Clean;
    var step := StepOf(form, to, strict, src);
    var tail := src[step.len..];
    var r := Run(form, to, strict, tail, room - |step.units|, ConversionOK);
    BeforeMatters(form, to, strict, tail, room - |step.units|);
    RunStep(form, to, strict, src, room, ConversionOK);
    CleanStep(form, to, strict, src, step.len + r.taken);
    Pieces(src, step.len, r.taken, [], [], []);
  }

  /** A character taken, and then the rest; an error noted is reported if the rest has no other result. */
  lemma PutFirst(form: Form, to: Form, strict: bool, src: seq<nat>, room: nat)
    requires src != [] && StepOf(form, to, strict, src).Put? && StepOf(form, to, strict, src).need <= room
    ensures var step := StepOf(form, to, strict, src);
      var r := Run(form, to, strict, src[step.len..], room - |step.units|, ConversionOK);
      Run(form, to, strict, src, room, ConversionOK)
      == Converted(step.len + r.taken, step.units + r.out, Joint(r.result, !step.error))
  {
    hide StepOf, Run;
    var step := StepOf(form, to, strict, src);
    BeforeMatters(form, to, strict, src[step.len..], room - |step.units|);
    RunStep(form, to, strict, src, room, ConversionOK);
  }

  /** The induction step when a character is converted first. */
  lemma ResumedPut(form: Form, to: Form, strict: bool, src: seq<nat>, room: nat, more: nat)
    requires src != [] && StepOf(form, to, strict, src).Put? && StepOf(form, to, strict, src).need <= room
    requires more > 0 || !PassedOver(form, to, strict) || !StepOf(form, to, strict, src).error
    requires var step := StepOf(form, to, strict, src);
      var tail := src[step.len..];
      var r := Run(form, to, strict, tail, room - |step.units|, ConversionOK);
      var s := Run(form, to, strict, tail[r.taken..], more, ConversionOK);
      Run(form, to, strict, tail, |r.out| + more, ConversionOK)
      == Converted(r.taken + s.taken, r.out + s.out, Joint(s.result, Clean(form, to, strict, tail[..r.taken])))
    ensures var r := Run(form, to, strict, src, room, ConversionOK);
      var s := Run(form, to, strict, src[r.taken..], more, ConversionOK);
      Run(form, to, strict, src, |r.out| + more, ConversionOK)
      == Converted(r.taken + s.taken, r.out + s.out, Joint(s.result, Clean(form, to, strict, src[..r.taken])))
  {
    hide StepOf, Run, Clean;
    var step := StepOf(form, to, strict, src);
    var tail := src[step.len..];
    var r := Run(form, to, strict, tail, room - |step.units|, ConversionOK);
    CleanStep(form, to, strict, src, step.len + r.taken);
    hide PassedOver;
    PutFirst(form, to, strict, src, room);
    PutFirst(form, to, strict, src, |step.units| + |r.out| + more);
    Pieces(src, step.len, r.taken, step.units, r.out, Run(form, to, strict, tail[r.taken..], more, ConversionOK).out);
  }

  lemma Pieces(src: seq<nat>, n: nat, m: nat, a: seq<nat>, b: seq<nat>, c: seq<nat>)
    requires n + m <= |src|
    ensures src[n..][m..] == src[n + m..] && src[n..][..m] == src[n..n + m] && a + (b + c) == (a + b) + c
  {
  }

  lemma NothingYet(form: Form, to: Form, strict: bool, src: seq<nat>, more: nat)
    ensures var s := Run(form, to, strict, src, more, ConversionOK);
      s == Converted(0 + s.taken, [] + s.out, Joint(s.result, Clean(form, to, strict, src[..0])))
  {
  }

  /** Room that was not needed makes no difference. */
  lemma {:induction false} RoomToSpare(form: Form, to: Form, strict: bool, src: seq<nat>, room: nat, more: nat,
                                       before: ConversionResult)
    requires Run(form, to, strict, src, room, before).result != TargetExhausted
    ensures Run(form, to, strict, src, room + more, before) == Run(form, to, strict, src, room, before)
    decreases |src|
  {
    hide StepOf, Run;
    if src == [] {
      RunNothing(form, to, strict, room, before);
      RunNothing(form, to, strict, room + more, before);
    } else {
      var step := StepOf(form, to, strict, src);
      RunStep(form, to, strict, src, room, before);
      RunStep(form, to, strict, src, room + more, before);
      if step.Put? && room >= step.need {
        RoomToSpare(form, to, strict, src[step.len..], room - |step.units|, more,
                    if step.error then SourceIllegal else before);
      }
    }
  }

  /** Calls with a fresh target each, as long as the target runs out. */
  function Calls(form: Form, to: Form, strict: bool, src: seq<nat>, rooms: seq<nat>): Converted
    requires rooms != []
    decreases |rooms|
  {
    var r := Run(form, to, strict, src, rooms[0], ConversionOK);
    if r.result != TargetExhausted || |rooms| == 1 then r
    else
      var s := Calls(form, to, strict, src[r.taken..], rooms[1..]);
      Converted(r.taken + s.taken, r.out + s.out, s.result)
  }

  /** The calls together do what one call does with some room, but for an error noted before the last. */
  lemma {:induction false} SomeRoom(form: Form, to: Form, strict: bool, src: seq<nat>, rooms: seq<nat>)
    returns (room: nat)
    requires rooms != []
    requires Calls(form, to, strict, src, rooms).result != TargetExhausted || Clean(form, to, strict, src)
    ensures var c := Calls(form, to, strict, src, rooms);
      Run(form, to, strict, src, room, ConversionOK)
      == Converted(c.taken, c.out, Joint(c.result, Clean(form, to, strict, src)))
    decreases |rooms|
  {
    hide Run, StepOf, Clean;
    var r := Run(form, to, strict, src, rooms[0], ConversionOK);
    if r.result != TargetExhausted || |rooms| == 1 {
      room := rooms[0];
      OneCall(form, to, strict, src, room);
    } else {
      CleanPieces(form, to, strict, src, r.taken);
      var more := SomeRoom(form, to, strict, src[r.taken..], rooms[1..]);
      if PassedOver(form, to, strict) && more == 0 {
        NoRoom(src, rooms[0]);
      }
      Resumed(form, to, strict, src, rooms[0], more);
      room := |r.out| + more;
    }
  }

  /** A call that runs to its end reports what it noted. */
  lemma OneCall(form: Form, to: Form, strict: bool, src: seq<nat>, room: nat)
    ensures var r := Run(form, to, strict, src, room, ConversionOK).result;
      r == Joint(r, Clean(form, to, strict, src))
  {
    hide Run, Need;
    if form == F32 {
      ErrorReported(to, strict, src, room, ConversionOK);
    }
  }

  /** After a call that stopped for lack of room, one without room stops too. */
  lemma {:induction false} NoRoom(src: seq<nat>, room: nat)
    requires Run(F32, F16, true, src, room, ConversionOK).result == TargetExhausted
    ensures var r := Run(F32, F16, true, src, room, ConversionOK);
      Run(F32, F16, true, src[r.taken..], 0, ConversionOK).result == TargetExhausted
    decreases |src|
  {
    hide Enc16, Run;
    if src == [] {
      RunNothing(F32, F16, true, room, ConversionOK);
    } else {
      var step := StepOf(F32, F16, true, src);
      RunStep(F32, F16, true, src, room, ConversionOK);
      if room < step.need {
        assert src[0..] == src;
        RunStep(F32, F16, true, src, 0, ConversionOK);
      } else if step.Put? {
        BeforeMatters(F32, F16, true, src[1..], room - |step.units|);
        NoRoom(src[1..], room - |step.units|);
      }
    }
  }

  lemma CleanPieces(form: Form, to: Form, strict: bool, src: seq<nat>, n: nat)
    requires n <= |src|
    ensures Clean(form, to, strict, src)
            <==> Clean(form, to, strict, src[..n]) && Clean(form, to, strict, src[n..])
  {
    assert forall i :: 0 <= i < n ==> src[i] == src[..n][i];
    assert forall i :: n <= i < |src| ==> src[i] == src[n..][i - n];
  }

  /** A call that stopped for lack of room does the same with room for what it wrote and no more. */
  lemma {:induction false} JustEnough(form: Form, to: Form, strict: bool, src: seq<nat>, room: nat)
    requires Clean(form, to, strict, src) && Run(form, to, strict, src, room, ConversionOK).result == TargetExhausted
    ensures var r := Run(form, to, strict, src, room, ConversionOK);
      Run(form, to, strict, src, |r.out|, ConversionOK) == r
    decreases |src|
  {
    hide StepOf, Run, Clean;
    if src == [] {
      RunNothing(form, to, strict, room, ConversionOK);
    } else {
      var step := StepOf(form, to, strict, src);
      var r := Run(form, to, strict, src, room, ConversionOK);
      RunStep(form, to, strict, src, room, ConversionOK);
      RunStep(form, to, strict, src, |r.out|, ConversionOK);
      Stopped(form, to, strict, src);
      if room >= step.need {
        assert src[..|src|] == src;
        CleanStep(form, to, strict, src, |src|);
        JustEnough(form, to, strict, src[step.len..], room - step.need);
      }
    }
  }

  /** Conversion in pieces against conversion in one go. If the calls came to an end, the outputs
      concatenated are the output of one call with any room that is enough, and the results differ only
      if the pieces lost an error; if their room ran out, one call with room for as much does the same. */
  lemma InPieces(form: Form, to: Form, strict: bool, src: seq<nat>, rooms: seq<nat>, room: nat)
    requires rooms != []
    requires var c := Calls(form, to, strict, src, rooms);
      if c.result == TargetExhausted then room == |c.out| && Clean(form, to, strict, src)
      else room >= Need(form, to, strict, src)
    ensures var c := Calls(form, to, strict, src, rooms);
      Run(form, to, strict, src, room, ConversionOK)
      == Converted(c.taken, c.out, Joint(c.result, Clean(form, to, strict, src)))
  {
    hide Run, Need, Clean, Calls;
    var some := SomeRoom(form, to, strict, src, rooms);
    if Calls(form, to, strict, src, rooms).result == TargetExhausted {
      JustEnough(form, to, strict, src, some);
    } else {
      RunsOut(form, to, strict, src, some, ConversionOK);
      RunsOut(form, to, strict, src, room, ConversionOK);
      var least := if some < room then some else room;
      RoomToSpare(form, to, strict, src, least, some - least, ConversionOK);
      RoomToSpare(form, to, strict, src, least, room - least, ConversionOK);
    }
  }

  /** How much the calls before the last one made have taken. */
  function BeforeLast(form: Form, to: Form, strict: bool, src: seq<nat>, rooms: seq<nat>): (n: nat)
    requires rooms != []
    ensures n <= |src|
    decreases |rooms|
  {
    var r := Run(form, to, strict, src, rooms[0], ConversionOK);
    if r.result != TargetExhausted || |rooms| == 1 then 0
    else r.taken + BeforeLast(form, to, strict, src[r.taken..], rooms[1..])
  }

  /** What the calls report, they report of the rest of the text. */
  lemma {:induction false} LastReports(to: Form, strict: bool, src: seq<nat>, rooms: seq<nat>)
    requires rooms != [] && Calls(F32, to, strict, src, rooms).result != TargetExhausted
    ensures Calls(F32, to, strict, src, rooms).result ==
      if AnyFaulty(to, strict, src[BeforeLast(F32, to, strict, src, rooms)..]) then SourceIllegal else ConversionOK
    decreases |rooms|
  {
    hide Run, Need, AnyFaulty;
    var r := Run(F32, to, strict, src, rooms[0], ConversionOK);
    if r.result != TargetExhausted || |rooms| == 1 {
      assert src[0..] == src;
      ErrorReported(to, strict, src, rooms[0], ConversionOK);
    } else {
      var n := BeforeLast(F32, to, strict, src[r.taken..], rooms[1..]);
      assert src[r.taken..][n..] == src[r.taken + n..];
      LastReports(to, strict, src[r.taken..], rooms[1..]);
    }
  }

  /** So a text converted from UTF-32 in pieces that come to an end is not reported as one conversion with room
      enough reports it exactly when what was taken before the last call holds a value that must be reported, and
      the rest does not. */
  lemma LostExactly(to: Form, strict: bool, src: seq<nat>, rooms: seq<nat>, room: nat)
    requires rooms != [] && Calls(F32, to, strict, src, rooms).result != TargetExhausted
    requires room >= Need(F32, to, strict, src)
    ensures var n := BeforeLast(F32, to, strict, src, rooms);
      Run(F32, to, strict, src, room, ConversionOK).result != Calls(F32, to, strict, src, rooms).result
      <==> AnyFaulty(to, strict, src[..n]) && !AnyFaulty(to, strict, src[n..])
  {
    hide Run, Need, AnyFaulty, Calls, BeforeLast;
    LastReports(to, strict, src, rooms);
    ErrorReported(to, strict, src, room, ConversionOK);
    FaultyPieces(to, strict, src, BeforeLast(F32, to, strict, src, rooms));
  }

  /** For one conversion resumed: its room is what the two calls had together. */
  lemma LostOnResuming(to: Form, strict: bool, src: seq<nat>, room: nat, more: nat)
    requires Run(F32, to, strict, src, room, ConversionOK).result == TargetExhausted
    requires Run(F32, to, strict, src[Run(F32, to, strict, src, room, ConversionOK).taken..], more, ConversionOK).result
             != TargetExhausted
    ensures var r := Run(F32, to, strict, src, room, ConversionOK);
      var s := Run(F32, to, strict, src[r.taken..], more, ConversionOK);
      Run(F32, to, strict, src, |r.out| + more, ConversionOK).result != s.result
      <==> AnyFaulty(to, strict, src[..r.taken]) && !AnyFaulty(to, strict, src[r.taken..])
  {
    hide Run, Need, AnyFaulty, Clean;
    var r := Run(F32, to, strict, src, room, ConversionOK);
    if PassedOver(F32, to, strict) && more == 0 {
      NoRoom(src, room);
    }
    Resumed(F32, to, strict, src, room, more);
    RunsOut(F32, to, strict, src, |r.out| + more, ConversionOK);
    LostExactly(to, strict, src, [room, more], |r.out| + more);
  }

  lemma FaultyPieces(to: Form, strict: bool, src: seq<nat>, n: nat)
    requires n <= |src|
    ensures AnyFaulty(to, strict, src) <==> AnyFaulty(to, strict, src[..n]) || AnyFaulty(to, strict, src[n..])
  {
    hide Faulty;
    var a, b := src[..n], src[n..];
    assert forall i :: 0 <= i < n ==> src[i] == a[i];
    assert forall i :: n <= i < |src| ==> src[i] == b[i - n];
    if AnyFaulty(to, strict, a) {
      var i :| 0 <= i < |a| && Faulty(to, strict, a[i]);
      assert Faulty(to, strict, src[i]);
    }
    if AnyFaulty(to, strict, b) {
      var i :| 0 <= i < |b| && Faulty(to, strict, b[i]);
      assert Faulty(to, strict, src[n + i]);
    }
  }

  // ---------------------------------------------------------------- where the code departs from its documentation

  /** The first value that is not a scalar value, or the end. */
  function FirstIllegal(src: seq<nat>): (f: nat)
    ensures f <= |src| && (forall i :: 0 <= i < f ==> IsScalar(src[i])) && (f < |src| ==> !IsScalar(src[f]))
  {
    if src == [] || !IsScalar(src[0]) then 0 else 1 + FirstIllegal(src[1..])
  }

  /** A strict conversion from UTF-32 to UTF-16 should leave the source at the first illegal value. Given
      room to get there, it does so exactly when that is a surrogate, or there is no room left: a value
      over 10FFFF is passed over. */
  lemma {:induction false} StopsAtIllegal(src: seq<nat>, room: nat)
    ensures var f := FirstIllegal(src);
      var sofar := |EncAll(F16, src[..f])|;
      Run(F32, F16, true, src, room, ConversionOK).taken == f
      <==> room >= sofar && (f == |src| || src[f] <= MAX_LEGAL || room == sofar)
    decreases |src|
  {
    hide Run, Enc16, EncAll;
    var f := FirstIllegal(src);
    assert EncAll(F16, src[..0]) == [] by { Unfolded(F32, F16, [], room); }
    if src == [] {
      RunNothing(F32, F16, true, room, ConversionOK);
    } else {
      RunStep(F32, F16, true, src, room, ConversionOK);
      if IsScalar(src[0]) {
        OneOrTwo(src[0]);
        Unfolded(F16, F16, src[..f], room);
        assert src[..f][0] == src[0] && src[..f][1..] == src[1..][..f - 1];
        if room >= |Enc16(src[0])| {
          StopsAtIllegal(src[1..], room - |Enc16(src[0])|);
        }
      }
    }
  }

  lemma OneOrTwo(ch: nat)
    requires IsScalar(ch)
    ensures Step32to16(true, ch) == Put(|Enc16(ch)|, 1, Enc16(ch), false)
  {
  }

  /** In particular the value disappears, and text after it is still converted. */
  lemma PassesOver()
    ensures Run(F32, F16, true, [0x110000, 0x41], 10, ConversionOK) == Converted(2, [0x41], SourceIllegal)
  {
    var src := [0x110000, 0x41];
    assert src[1..] == [0x41] && [0x41][1..] == [];
    assert Run(F32, F16, true, [0x41], 10, SourceIllegal) == Converted(1, [0x41] + [], SourceIllegal);
  }

  /** The documentation says that the first problem is the one indicated. From UTF-32 to UTF-8 the result
      for a value over 10FFFF is forgotten when the target fills up later. */
  lemma ForgetsError()
    ensures Run(F32, F8, true, [0x110000, 0x41], 3, ConversionOK) == Converted(1, [0xEF, 0xBF, 0xBD], TargetExhausted)
  {
    var src := [0x110000, 0x41];
    assert src[1..] == [0x41];
    assert Enc8(REPLACEMENT) == [0xEF, 0xBF, 0xBD];
    assert Run(F32, F8, true, [0x41], 0, SourceIllegal) == Converted(0, [], TargetExhausted);
  }

  /** And so it is in a strict conversion from UTF-32 to UTF-16. */
  lemma ForgetsErrorIn16()
    ensures Run(F32, F16, true, [0x110000, 0x41, 0x42], 1, ConversionOK) == Converted(2, [0x41], TargetExhausted)
  {
    var src := [0x110000, 0x41, 0x42];
    assert src[1..] == [0x41, 0x42] && [0x41, 0x42][1..] == [0x42];
    assert Run(F32, F16, true, [0x42], 0, SourceIllegal) == Converted(0, [], TargetExhausted);
    assert Run(F32, F16, true, [0x41, 0x42], 1, SourceIllegal) == Converted(1, [0x41] + [], TargetExhausted);
  }

  /** So a text converted in pieces can pass for one without errors. */
  lemma LostInPieces()
    ensures Calls(F32, F8, true, [0x110000, 0x41], [3, 1]) == Converted(2, [0xEF, 0xBF, 0xBD, 0x41], ConversionOK)
  {
    ForgetsError();
    var src, rooms := [0x110000, 0x41], [3, 1];
    assert src[1..] == [0x41] && rooms[1..] == [1] && [0x41][1..] == [];
    assert Run(F32, F8, true, [0x41], 1, ConversionOK) == Converted(1, [0x41] + [], ConversionOK);
  }
}
