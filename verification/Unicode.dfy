/** Unicode encoding forms (section 3 of RFC 3629, sections 2.1 and 2.2 of RFC 2781), and what the
    converters of `convertutf.c` do with one character and with a whole buffer. */
module Unicode {

  const MAX_LEGAL := 0x10FFFF
  const REPLACEMENT := 0xFFFD
  const HIGH_START := 0xD800
  const HIGH_END := 0xDBFF
  const LOW_START := 0xDC00
  const LOW_END := 0xDFFF
  const HALF_BASE := 0x10000

  predicate IsSurrogate(ch: nat) { HIGH_START <= ch <= LOW_END }

  /** A Unicode scalar value. */
  predicate IsScalar(ch: nat) { ch <= MAX_LEGAL && !IsSurrogate(ch) }

  // ---------------------------------------------------------------- encoding forms

  datatype Form = F8 | F16 | F32

  function Tail(ch: nat): nat { 0x80 + ch % 0x40 }

  /** UTF-8; surrogates, which are not scalar values, would take three bytes. */
  function Enc8(ch: nat): (s: seq<nat>)
    requires ch <= MAX_LEGAL
    ensures 1 <= |s| <= 4
  {
    if ch < 0x80 then [ch]
    else if ch < 0x800 then [0xC0 + ch / 0x40, Tail(ch)]
    else if ch < 0x10000 then [0xE0 + ch / 0x1000, Tail(ch / 0x40), Tail(ch)]
    else [0xF0 + ch / 0x40000, Tail(ch / 0x1000), Tail(ch / 0x40), Tail(ch)]
  }

  function Enc16(ch: nat): (s: seq<nat>)
    requires ch <= MAX_LEGAL
    ensures 1 <= |s| <= 2
  {
    if ch < 0x10000 then [ch]
    else [HIGH_START + (ch - HALF_BASE) / 0x400, LOW_START + (ch - HALF_BASE) % 0x400]
  }

  function Enc(form: Form, ch: nat): (s: seq<nat>)
    requires ch <= MAX_LEGAL
    ensures 1 <= |s| <= 4
  {
    match form
    case F8 => Enc8(ch)
    case F16 => Enc16(ch)
    case F32 => [ch]
  }

  ghost predicate Scalars(chars: seq<nat>) { forall i :: 0 <= i < |chars| ==> IsScalar(chars[i]) }

  /** A text in an encoding form. */
  function EncAll(form: Form, chars: seq<nat>): seq<nat>
    requires forall i :: 0 <= i < |chars| ==> chars[i] <= MAX_LEGAL
  {
    if chars == [] then [] else Enc(form, chars[0]) + EncAll(form, chars[1..])
  }

  // ---------------------------------------------------------------- reading one character

  datatype ConversionResult = ConversionOK | SourceExhausted | TargetExhausted | SourceIllegal

  datatype Reading = Char(ch: nat, len: nat) | Fail(result: ConversionResult)

  /** `trailingBytesForUTF8`. */
  function Trailing(b: nat): nat
  {
    if b < 0xC0 then 0
    else if b < 0xE0 then 1
    else if b < 0xF0 then 2
    else if b < 0xF8 then 3
    else if b < 0xFC then 4
    else 5
  }

  predicate IsTail(b: nat) { 0x80 <= b <= 0xBF }

  /** What `isLegalUTF8` accepts. After ED and F4 it sets no lower bound on the second byte. */
  predicate Legal(s: seq<nat>) {
    && 1 <= |s| <= 4
    && (|s| == 4 ==> IsTail(s[3]))
    && (|s| >= 3 ==> IsTail(s[2]))
    && (|s| >= 2 ==> SecondLegal(s[0], s[1]))
    && !(0x80 <= s[0] < 0xC2) && s[0] <= 0xF4
  }

  predicate SecondLegal(lead: nat, a: nat) {
    a <= 0xBF &&
    if lead == 0xE0 then a >= 0xA0
    else if lead == 0xED then a <= 0x9F
    else if lead == 0xF0 then a >= 0x90
    else if lead == 0xF4 then a <= 0x8F
    else a >= 0x80
  }

  /** The bytes summed with shifts, less the magic offset. */
  function Sum8(s: seq<nat>): int
    requires 1 <= |s| <= 4
  {
    match |s|
    case 1 => s[0]
    case 2 => s[0] as int * 0x40 + s[1] - 0x3080
    case 3 => (s[0] as int * 0x40 + s[1]) * 0x40 + s[2] - 0xE2080
    case _ => ((s[0] as int * 0x40 + s[1]) * 0x40 + s[2]) * 0x40 + s[3] - 0x3C82080
  }

  /** A legal sequence whose length is that of its first byte denotes a scalar value. */
  lemma LegalScalar(s: seq<nat>)
    requires s != [] && |s| == Trailing(s[0]) + 1 && Legal(s)
    ensures Sum8(s) >= 0 && IsScalar(Sum8(s))
  {
  }

  function Read8(src: seq<nat>): Reading
    requires src != []
  {
    var n := Trailing(src[0]) + 1;
    if |src| < n then Fail(SourceExhausted)
    else if !Legal(src[..n]) then Fail(SourceIllegal)
    else
      LegalScalar(src[..n]);
      Char(Sum8(src[..n]), n)
  }

  /** Lenient reading lets unpaired surrogates pass, except a high one at the very end. */
  function Read16(strict: bool, src: seq<nat>): Reading
    requires src != []
  {
    if HIGH_START <= src[0] <= HIGH_END then
      if |src| == 1 then Fail(SourceExhausted)
      else if LOW_START <= src[1] <= LOW_END then
        Char((src[0] - HIGH_START) * 0x400 + (src[1] - LOW_START) + HALF_BASE, 2)
      else if strict then Fail(SourceIllegal)
      else Char(src[0], 1)
    else if strict && LOW_START <= src[0] <= LOW_END then Fail(SourceIllegal)
    else Char(src[0], 1)
  }

  function Read(form: Form, strict: bool, src: seq<nat>): (r: Reading)
    requires src != []
    ensures r.Char? ==> 1 <= r.len <= |src|
  {
    match form
    case F8 => Read8(src)
    case F16 => Read16(strict, src)
    case F32 => Char(src[0], 1)
  }

  lemma Divided(ch: nat)
    ensures ch / 0x40 * 0x40 + ch % 0x40 == ch
    ensures ch / 0x40 / 0x40 == ch / 0x1000 && ch / 0x1000 / 0x40 == ch / 0x40000
  {
  }

  lemma Sum8Inverts(ch: nat)
    requires IsScalar(ch)
    ensures var s := Enc8(ch);
      |s| == Trailing(s[0]) + 1 && Legal(s) && Sum8(s) == ch
  {
    Divided(ch);
    Divided(ch / 0x40);
    Divided(ch / 0x1000);
  }

  lemma Read8Encoded(ch: nat, rest: seq<nat>)
    requires IsScalar(ch)
    ensures Read8(Enc8(ch) + rest) == Char(ch, |Enc8(ch)|)
  {
    Sum8Inverts(ch);
    hide Enc8, Sum8, Legal;
    var s := Enc8(ch);
    assert (s + rest)[0] == s[0] && (s + rest)[..|s|] == s;
  }

  /** What one form reads back is what it encoded, whatever follows. */
  lemma ReadEncoded(form: Form, strict: bool, ch: nat, rest: seq<nat>)
    requires IsScalar(ch)
    ensures Read(form, strict, Enc(form, ch) + rest) == Char(ch, |Enc(form, ch)|)
  {
    hide Enc8, Read8;
    if form.F8? {
      Read8Encoded(ch, rest);
    } else if form.F16? {
      var s := Enc16(ch);
      assert (s + rest)[0] == s[0] && (|s| == 2 ==> (s + rest)[1] == s[1]);
    }
  }

  // ---------------------------------------------------------------- one step of a converter

  /** What follows from the next character, given room for `need` units of output (without it the
      target is exhausted): stop, or take `len` units and write `units`, perhaps noting an error. */
  datatype Step = Halt(need: nat, result: ConversionResult) | Put(need: nat, len: nat, units: seq<nat>, error: bool)

  /** UTF-32 to UTF-16. A strict conversion stops at a surrogate, but skips a value over 10FFFF, noting
      the error. */
  function Step32to16(strict: bool, ch: nat): Step
  {
    if ch <= 0xFFFF then
      if !IsSurrogate(ch) then Put(1, 1, [ch], false)
      else if strict then Halt(1, SourceIllegal)
      else Put(1, 1, [REPLACEMENT], false)
    else if ch > MAX_LEGAL then
      if strict then Put(1, 1, [], true) else Put(1, 1, [REPLACEMENT], false)
    else Put(2, 1, Enc16(ch), false)
  }

  /** UTF-32 to UTF-8. A value over 10FFFF is replaced, noting the error, in either mode. */
  function Step32to8(strict: bool, ch: nat): Step
  {
    if strict && IsSurrogate(ch) then Halt(0, SourceIllegal)
    else if ch <= MAX_LEGAL then Put(|Enc8(ch)|, 1, Enc8(ch), false)
    else Put(3, 1, Enc8(REPLACEMENT), true)
  }

  /** The other converters write whatever they read. */
  function Copy(form: Form, to: Form, strict: bool, src: seq<nat>): Step
    requires src != [] && form != F32
  {
    match Read(form, strict, src)
    case Fail(result) => Halt(0, result)
    case Char(ch, len) =>
      if ch <= MAX_LEGAL then Put(|Enc(to, ch)|, len, Enc(to, ch), false) else Put(1, len, [ch], false)
  }

  function StepOf(form: Form, to: Form, strict: bool, src: seq<nat>): (r: Step)
    requires src != []
    ensures r.Put? ==> 1 <= r.len <= |src| && |r.units| <= r.need
  {
    if form == F32 && to == F16 then Step32to16(strict, src[0])
    else if form == F32 && to == F8 then Step32to8(strict, src[0])
    else if form == F32 then Put(1, 1, [src[0]], false)
    else Copy(form, to, strict, src)
  }

  // ---------------------------------------------------------------- a whole buffer

  /** How many units are taken, what is written, and the result. */
  datatype Converted = Converted(taken: nat, out: seq<nat>, result: ConversionResult)

  /** A conversion with room for `room` units, `before` being the result so far. */
  function Run(form: Form, to: Form, strict: bool, src: seq<nat>, room: nat, before: ConversionResult): (r: Converted)
    ensures r.taken <= |src| && |r.out| <= room
    decreases |src|
  {
    if src == [] then Converted(0, [], before)
    else
      var step := StepOf(form, to, strict, src);
      if room < step.need then Converted(0, [], TargetExhausted)
      else match step {
        case Halt(_, result) => Converted(0, [], result)
        case Put(_, len, units, error) =>
          var rest := Run(form, to, strict, src[len..], room - |units|, if error then SourceIllegal else before);
          Converted(len + rest.taken, units + rest.out, rest.result)
      }
  }

  /** How many of the characters fit the room. */
  function Fitting(to: Form, chars: seq<nat>, room: nat): (m: nat)
    requires forall i :: 0 <= i < |chars| ==> chars[i] <= MAX_LEGAL
    ensures m <= |chars|
  {
    if chars == [] || room < |Enc(to, chars[0])| then 0
    else 1 + Fitting(to, chars[1..], room - |Enc(to, chars[0])|)
  }

  lemma StepEncoded(form: Form, to: Form, strict: bool, ch: nat, rest: seq<nat>)
    requires IsScalar(ch)
    ensures StepOf(form, to, strict, Enc(form, ch) + rest) == Put(|Enc(to, ch)|, |Enc(form, ch)|, Enc(to, ch), false)
  {
    hide Enc8, Read;
    ReadEncoded(form, strict, ch, rest);
    if form == F32 {
      assert ([ch] + rest)[0] == ch;
    }
  }

  /** The definition of a run, unfolded once. */
  lemma RunStep(form: Form, to: Form, strict: bool, src: seq<nat>, room: nat, before: ConversionResult)
    requires src != []
    ensures var step, r := StepOf(form, to, strict, src), Run(form, to, strict, src, room, before);
      && (room < step.need ==> r == Converted(0, [], TargetExhausted))
      && (room >= step.need && step.Halt? ==> r == Converted(0, [], step.result))
      && (room >= step.need && step.Put? ==>
            |step.units| <= room &&
            var rest := Run(form, to, strict, src[step.len..], room - |step.units|,
                            if step.error then SourceIllegal else before);
            r == Converted(step.len + rest.taken, step.units + rest.out, rest.result))
  {
    hide StepOf;
  }

  lemma DropPrefix(a: seq<nat>, b: seq<nat>)
    ensures (a + b)[|a|..] == b
  {
  }

  /** One character taken and written. */
  lemma RunPut(form: Form, to: Form, strict: bool, src: seq<nat>, rest: seq<nat>, units: seq<nat>, room: nat,
               before: ConversionResult)
    requires src != [] && StepOf(form, to, strict, src + rest) == Put(|units|, |src|, units, false)
    ensures Run(form, to, strict, src + rest, room, before) ==
      if room < |units| then Converted(0, [], TargetExhausted)
      else
        var r := Run(form, to, strict, rest, room - |units|, before);
        Converted(|src| + r.taken, units + r.out, r.result)
  {
    hide *;
    DropPrefix(src, rest);
    RunStep(form, to, strict, src + rest, room, before);
  }

  lemma RunNothing(form: Form, to: Form, strict: bool, room: nat, before: ConversionResult)
    ensures Run(form, to, strict, [], room, before) == Converted(0, [], before)
  {
  }

  lemma EncAllStep(form: Form, chars: seq<nat>, m: nat)
    requires Scalars(chars) && 0 < m <= |chars|
    ensures EncAll(form, chars[..m]) == Enc(form, chars[0]) + EncAll(form, chars[1..][..m - 1])
  {
    assert chars[..m][1..] == chars[1..][..m - 1];
  }

  /** On well-formed text every converter, strict or lenient, converts exactly the characters that fit
      the target, and stops between characters. */
  lemma {:induction false} RunEncoded(form: Form, to: Form, strict: bool, chars: seq<nat>, room: nat)
    requires Scalars(chars)
    ensures var m := Fitting(to, chars, room);
      Run(form, to, strict, EncAll(form, chars), room, ConversionOK)
      == Converted(|EncAll(form, chars[..m])|, EncAll(to, chars[..m]),
                   if m == |chars| then ConversionOK else TargetExhausted)
  {
    hide Enc, StepOf, Run, EncAll, Fitting;
    Unfolded(form, to, chars, room);
    if chars == [] {
      RunNothing(form, to, strict, room, ConversionOK);
    } else {
      var rest := EncAll(form, chars[1..]);
      var units := Enc(to, chars[0]);
      StepEncoded(form, to, strict, chars[0], rest);
      RunPut(form, to, strict, Enc(form, chars[0]), rest, units, room, ConversionOK);
      if room >= |units| {
        RunEncoded(form, to, strict, chars[1..], room - |units|);
        EncAllStep(form, chars, Fitting(to, chars, room));
        EncAllStep(to, chars, Fitting(to, chars, room));
      }
    }
  }

  /** The definitions, unfolded once. */
  lemma Unfolded(form: Form, to: Form, chars: seq<nat>, room: nat)
    requires Scalars(chars)
    ensures EncAll(form, chars[..0]) == EncAll(to, chars[..0]) == []
    ensures chars == [] ==> EncAll(form, chars) == [] && Fitting(to, chars, room) == 0
    ensures chars != [] ==> EncAll(form, chars) == Enc(form, chars[0]) + EncAll(form, chars[1..])
    ensures chars != [] && room < |Enc(to, chars[0])| ==> Fitting(to, chars, room) == 0
    ensures chars != [] && room >= |Enc(to, chars[0])| ==>
              Fitting(to, chars, room) == 1 + Fitting(to, chars[1..], room - |Enc(to, chars[0])|)
  {
  }
}
