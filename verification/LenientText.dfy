/** What the converters make of text that is not well-formed when they are lenient, and the encodings that the
    standards give as examples. */
module LenientTexts {
  import opened Unicode
  import opened UnicodeLaws

  // ---------------------------------------------------------------- examples of the standards

  /** The examples of section 7 of RFC 3629. */
  lemma Utf8Examples()
    ensures EncAll(F8, [0x41, 0x2262, 0x391, 0x2E]) == [0x41, 0xE2, 0x89, 0xA2, 0xCE, 0x91, 0x2E]
    ensures EncAll(F8, [0xD55C, 0xAD6D, 0xC5B4]) == [0xED, 0x95, 0x9C, 0xEA, 0xB5, 0xAD, 0xEC, 0x96, 0xB4]
    ensures EncAll(F8, [0xFEFF, 0x233B4]) == [0xEF, 0xBB, 0xBF, 0xF0, 0xA3, 0x8E, 0xB4]
  {
    hide EncAll, Enc;
    NotIdentical();
    Hangukeo();
    Stump();
  }

  lemma NotIdentical()
    ensures EncAll(F8, [0x41, 0x2262, 0x391, 0x2E]) == [0x41, 0xE2, 0x89, 0xA2, 0xCE, 0x91, 0x2E]
  {
    hide EncAll;
    Four(F8, 0x41, 0x2262, 0x391, 0x2E);
  }

  lemma Hangukeo()
    ensures EncAll(F8, [0xD55C, 0xAD6D, 0xC5B4]) == [0xED, 0x95, 0x9C, 0xEA, 0xB5, 0xAD, 0xEC, 0x96, 0xB4]
  {
    hide EncAll;
    Three(F8, 0xD55C, 0xAD6D, 0xC5B4);
  }

  lemma Stump()
    ensures EncAll(F8, [0xFEFF, 0x233B4]) == [0xEF, 0xBB, 0xBF, 0xF0, 0xA3, 0x8E, 0xB4]
  {
    hide EncAll;
    Two(F8, 0xFEFF, 0x233B4);
  }

  /** The example of section 5 of RFC 2781, and the ends of the ranges. */
  lemma Utf16Examples()
    ensures EncAll(F16, [0x12345, 0x3D]) == [0xD808, 0xDF45, 0x3D]
    ensures Enc(F16, 0xFFFF) == [0xFFFF] && Enc(F16, 0x10000) == [0xD800, 0xDC00]
    ensures Enc(F16, 0x10FFFF) == [0xDBFF, 0xDFFF]
  {
    Two(F16, 0x12345, 0x3D);
  }

  lemma Two(form: Form, a: nat, b: nat)
    requires a <= MAX_LEGAL && b <= MAX_LEGAL
    ensures EncAll(form, [a, b]) == Enc(form, a) + Enc(form, b)
  {
    hide Enc;
    assert [a, b][1..] == [b] && [b][1..] == [];
    assert Enc(form, b) + [] == Enc(form, b);
    assert EncAll(form, []) == [];
  }

  lemma Three(form: Form, a: nat, b: nat, c: nat)
    requires a <= MAX_LEGAL && b <= MAX_LEGAL && c <= MAX_LEGAL
    ensures EncAll(form, [a, b, c]) == Enc(form, a) + (Enc(form, b) + Enc(form, c))
  {
    hide Enc;
    assert [a, b, c][1..] == [b, c];
    Two(form, b, c);
  }

  lemma Four(form: Form, a: nat, b: nat, c: nat, d: nat)
    requires a <= MAX_LEGAL && b <= MAX_LEGAL && c <= MAX_LEGAL && d <= MAX_LEGAL
    ensures EncAll(form, [a, b, c, d]) == Enc(form, a) + (Enc(form, b) + (Enc(form, c) + Enc(form, d)))
  {
    hide Enc;
    assert [a, b, c, d][1..] == [b, c, d];
    Three(form, b, c, d);
  }

  /** A first byte of a sequence has as many leading ones as the sequence has bytes, and no others are told from
      sequences of six bytes by `trailingBytesForUTF8`. */
  lemma LeadingOnes(b: nat)
    requires b < 0x100
    ensures Trailing(b) == 0 <==> b / 0x40 != 3
    ensures Trailing(b) == 1 <==> b / 0x20 == 6
    ensures Trailing(b) == 2 <==> b / 0x10 == 14
    ensures Trailing(b) == 3 <==> b / 8 == 30
    ensures Trailing(b) == 4 <==> b / 4 == 62
    ensures Trailing(b) == 5 <==> b / 4 == 63
  {
  }

  // ---------------------------------------------------------------- from UTF-32

  /** The text with every value that cannot be written replaced by FFFD: to UTF-16 surrogates and values over
      10FFFF, to UTF-8 only the latter. */
  function Replaced(to: Form, src: seq<nat>): (r: seq<nat>)
    ensures |r| == |src|
    ensures forall i :: 0 <= i < |src| ==>
      r[i] == if src[i] > 0x10FFFF || (to == F16 && 0xD800 <= src[i] <= 0xDFFF) then 0xFFFD else src[i]
    ensures forall i :: 0 <= i < |r| ==> r[i] <= MAX_LEGAL
  {
    seq(|src|, i requires 0 <= i < |src| =>
      if src[i] > 0x10FFFF || (to == F16 && 0xD800 <= src[i] <= 0xDFFF) then 0xFFFD else src[i])
  }

  /** A lenient conversion from UTF-32 takes and writes, in any room, just what it would of the text so replaced. To
      UTF-16 it reports no error. */
  lemma {:induction false} LenientReplaces(to: Form, src: seq<nat>, room: nat, before: ConversionResult)
    requires to != F32 && before in {ConversionOK, SourceIllegal}
    ensures var r, s := Run(F32, to, false, src, room, before), Run(F32, to, false, Replaced(to, src), room, before);
      && r.taken == s.taken && r.out == s.out && (to == F16 ==> r.result == s.result)
      && (r.result == TargetExhausted <==> s.result == TargetExhausted)
    decreases |src|
  {
    hide Run, StepOf;
    var fixed := Replaced(to, src);
    if src == [] {
      assert fixed == [];
    } else {
      RunStep(F32, to, false, src, room, before);
      RunStep(F32, to, false, fixed, room, before);
      assert fixed[1..] == Replaced(to, src[1..]);
      SameStep(to, src, fixed);
      var step := StepOf(F32, to, false, src);
      if room >= step.need {
        LenientReplaces(to, src[1..], room - |step.units|, ConversionOK);
        BeforeMatters(F32, to, false, src[1..], room - |step.units|);
        BeforeMatters(F32, to, false, fixed[1..], room - |step.units|);
      }
    }
  }

  lemma SameStep(to: Form, src: seq<nat>, fixed: seq<nat>)
    requires to != F32 && src != [] && fixed != []
    requires fixed[0] == if src[0] > 0x10FFFF || (to == F16 && 0xD800 <= src[0] <= 0xDFFF) then 0xFFFD else src[0]
    ensures var s, s' := StepOf(F32, to, false, src), StepOf(F32, to, false, fixed);
      && s.Put? && s'.Put? && s.len == s'.len == 1 && s.units == s'.units == Enc(to, fixed[0])
      && s.need == s'.need == |s.units| && !s'.error && (to == F16 ==> !s.error)
  {
  }

  /** With room for it, the output is the encoding of the text so replaced. */
  lemma {:induction false} LenientWrites(to: Form, src: seq<nat>, room: nat)
    requires to != F32 && room >= |EncAll(to, Replaced(to, src))|
    ensures var r := Run(F32, to, false, src, room, ConversionOK);
      && r.taken == |src| && r.out == EncAll(to, Replaced(to, src))
      && r.result == if to == F8 && (exists i :: 0 <= i < |src| && src[i] > 0x10FFFF) then SourceIllegal
                     else ConversionOK
  {
    hide Run, AnyFaulty;
    LenientReplaces(to, src, room, ConversionOK);
    EncodesAll(to, Replaced(to, src), room);
    RunsOut(F32, to, false, src, room, ConversionOK);
    ErrorReported(to, false, src, room, ConversionOK);
    FaultyLenient(to, src);
  }

  lemma FaultyLenient(to: Form, src: seq<nat>)
    requires to != F32
    ensures AnyFaulty(to, false, src) <==> to == F8 && exists i :: 0 <= i < |src| && src[i] > 0x10FFFF
  {
    if AnyFaulty(to, false, src) {
      var i :| 0 <= i < |src| && Faulty(to, false, src[i]);
      assert src[i] > 0x10FFFF;
    }
    if i :| 0 <= i < |src| && src[i] > 0x10FFFF {
      assert to == F8 ==> Faulty(to, false, src[i]);
    }
  }

  lemma {:induction false} EncodesAll(to: Form, chars: seq<nat>, room: nat)
    requires to != F32 && (forall i :: 0 <= i < |chars| ==> chars[i] <= MAX_LEGAL)
    requires to == F16 ==> forall i :: 0 <= i < |chars| ==> !(0xD800 <= chars[i] <= 0xDFFF)
    requires room >= |EncAll(to, chars)|
    ensures Run(F32, to, false, chars, room, ConversionOK) == Converted(|chars|, EncAll(to, chars), ConversionOK)
    decreases |chars|
  {
    hide Run, Enc;
    if chars == [] {
      RunNothing(F32, to, false, room, ConversionOK);
    } else {
      RunStep(F32, to, false, chars, room, ConversionOK);
      SameStep(to, chars, chars);
      EncodesAll(to, chars[1..], room - |Enc(to, chars[0])|);
    }
  }

  // ---------------------------------------------------------------- from UTF-16

  /** A lenient conversion from UTF-16 to UTF-32 loses nothing: what it took is the UTF-16 form of what it wrote,
      unpaired surrogates included. It stops at nothing but the end, a full target, and a high surrogate that
      ends the text. */
  lemma {:induction false} LenientLossless(src: seq<nat>, room: nat)
    requires Units(F16, src)
    ensures var r := Run(F16, F32, false, src, room, ConversionOK);
      && Restores(r.out, src[..r.taken])
      && (r.result == SourceExhausted ==> r.taken + 1 == |src| && 0xD800 <= src[r.taken] <= 0xDBFF)
      && (r.result == TargetExhausted ==> |r.out| == room)
      && (r.result == ConversionOK ==> r.taken == |src|)
      && r.result != SourceIllegal
    decreases |src|
  {
    hide Run, Restores;
    if src == [] {
      RunNothing(F16, F32, false, room, ConversionOK);
      RestoresNothing();
    } else {
      RunStep(F16, F32, false, src, room, ConversionOK);
      Lenient16(src);
      var step := StepOf(F16, F32, false, src);
      RestoresNothing();
      if step.Put? && room >= step.need {
        var rest := src[step.len..];
        LenientLossless(rest, room - 1);
        var r := Run(F16, F32, false, rest, room - 1, ConversionOK);
        RestoresMore(step.units[0], src[..step.len], r.out, rest[..r.taken]);
        FirstTwoPieces(src, step.len, r.taken);
      }
    }
  }

  lemma FirstTwoPieces(src: seq<nat>, n: nat, m: nat)
    requires n + m <= |src|
    ensures src[..n] + src[n..][..m] == src[..n + m]
  {
  }

  /** `units` is the UTF-16 form of `chars`. */
  ghost predicate Restores(chars: seq<nat>, units: seq<nat>) {
    (forall i :: 0 <= i < |chars| ==> chars[i] <= MAX_LEGAL) && EncAll(F16, chars) == units
  }

  lemma RestoresNothing()
    ensures Restores([], [])
  {
  }

  lemma RestoresMore(ch: nat, units: seq<nat>, chars: seq<nat>, more: seq<nat>)
    requires ch <= MAX_LEGAL && Enc16(ch) == units && Restores(chars, more)
    ensures Restores([ch] + chars, units + more)
  {
    assert ([ch] + chars)[1..] == chars;
  }

  lemma Lenient16(src: seq<nat>)
    requires src != [] && Units(F16, src)
    ensures var step := StepOf(F16, F32, false, src);
      && (step.Halt? ==> step.need == 0 && step.result == SourceExhausted && |src| == 1 && 0xD800 <= src[0] <= 0xDBFF)
      && (step.Put? ==> step.need == 1 && |step.units| == 1 && step.units[0] <= MAX_LEGAL && !step.error
                        && Enc16(step.units[0]) == src[..step.len])
  {
    var step := StepOf(F16, F32, false, src);
    if step.Put? && step.len == 2 {
      assert src[..2] == [src[0], src[1]];
    } else if step.Put? {
      assert src[..1] == [src[0]];
    }
  }
}
