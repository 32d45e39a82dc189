/** The converters of `convertutf.c`, over buffers and positions in them, each proved against the
    conversion of the text it is given. */
module ConvertUtf {
  import opened Unicode
  import opened UnicodeLaws

  // ---------------------------------------------------------------- progress of a conversion

  /** A conversion that has reached position `s` of the source and written `out`, with `room` units left
      and the result `res` so far, will end as the whole conversion `all`. */
  ghost predicate Reached(form: Form, to: Form, strict: bool, source: seq<nat>, start: nat, all: Converted,
                          s: nat, out: seq<nat>, room: int, res: ConversionResult)
  {
    start <= s <= |source| && room >= 0 &&
    var rest := Run(form, to, strict, source[s..], room, res);
    all == Converted(s - start + rest.taken, out + rest.out, rest.result)
  }

  lemma ReachedStart(form: Form, to: Form, strict: bool, source: seq<nat>, start: nat, room: nat)
    requires start <= |source|
    ensures Reached(form, to, strict, source, start, Run(form, to, strict, source[start..], room, ConversionOK),
                    start, [], room, ConversionOK)
  {
  }

  /** At the end of the source, or when the next step stops or lacks room, this is the outcome. */
  lemma ReachedEnd(form: Form, to: Form, strict: bool, source: seq<nat>, start: nat, all: Converted,
                   s: nat, out: seq<nat>, room: int, res: ConversionResult, result: ConversionResult)
    requires Reached(form, to, strict, source, start, all, s, out, room, res)
    requires if s == |source| then result == res
             else
               var step := StepOf(form, to, strict, source[s..]);
               if room < step.need then result == TargetExhausted else step.Halt? && result == step.result
    ensures all == Converted(s - start, out, result)
  {
    hide StepOf;
  }

  /** A character taken, and its units written. */
  lemma ReachedNext(form: Form, to: Form, strict: bool, source: seq<nat>, start: nat, all: Converted,
                    s: nat, out: seq<nat>, room: int, res: ConversionResult)
    requires Reached(form, to, strict, source, start, all, s, out, room, res) && s < |source|
    requires var step := StepOf(form, to, strict, source[s..]); step.Put? && room >= step.need
    ensures var step := StepOf(form, to, strict, source[s..]);
      Reached(form, to, strict, source, start, all, s + step.len, out + step.units, room - |step.units|,
              if step.error then SourceIllegal else res)
  {
    hide StepOf, Run;
    var step := StepOf(form, to, strict, source[s..]);
    RunStep(form, to, strict, source[s..], room, res);
    assert source[s..][step.len..] == source[s + step.len..];
    var rest := Run(form, to, strict, source[s + step.len..], room - |step.units|,
                    if step.error then SourceIllegal else res);
    assert out + (step.units + rest.out) == (out + step.units) + rest.out;
  }

  /** A buffer that held `was` holds `out` from `from` to `at`, and is as before elsewhere. */
  ghost predicate Filled(was: seq<nat>, now: seq<nat>, from: nat, at: nat, out: seq<nat>)
  {
    && from <= at <= |now| == |was| && at - from == |out|
    && (forall i :: from <= i < at ==> now[i] == out[i - from])
    && (forall i :: 0 <= i < |now| && !(from <= i < at) ==> now[i] == was[i])
  }

  /** More of it, at the end. */
  lemma FilledMore(was: seq<nat>, mid: seq<nat>, now: seq<nat>, from: nat, t0: nat, t: nat, out: seq<nat>,
                   more: seq<nat>)
    requires Filled(was, mid, from, t0, out) && Filled(mid, now, t0, t, more)
    ensures Filled(was, now, from, t, out + more) && |more| == t - t0
  {
    forall i | 0 <= i < |now| && !(from <= i < t) ensures now[i] == was[i] {
      assert now[i] == mid[i];
    }
    forall i | from <= i < t ensures now[i] == (out + more)[i - from] {
      if i < t0 {
        assert now[i] == mid[i];
      }
    }
  }

  lemma FilledNothing(was: seq<nat>, from: nat)
    requires from <= |was|
    ensures Filled(was, was, from, from, [])
  {
  }

  lemma Unfilled(was: seq<nat>, now: seq<nat>, at: nat)
    requires Filled(was, now, at, at, [])
    ensures now == was
  {
  }

  /** So has the target since the call. */
  twostate predicate Written(target: array<nat>, from: nat, at: nat, out: seq<nat>)
    reads target
  {
    Filled(old(target[..]), target[..], from, at, out)
  }

  /** A conversion between these buffers has done exactly what the text and the room call for: it stands
      at `s` in the source and at `t` in the target, and has returned `result`. */
  twostate predicate Did(form: Form, to: Form, strict: bool, source: seq<nat>, sourceStart: nat,
                         target: array<nat>, targetStart: nat, targetEnd: nat, result: ConversionResult, s: nat, t: nat)
    reads target
  {
    sourceStart <= s <= |source| && targetStart <= targetEnd &&
    var r := Run(form, to, strict, source[sourceStart..], targetEnd - targetStart, ConversionOK);
    r.taken == s - sourceStart && r.result == result && Written(target, targetStart, t, r.out)
  }

  // ---------------------------------------------------------------- from UTF-32

  method ConvertUTF32toUTF16(source: seq<nat>, sourceStart: nat, target: array<nat>, targetStart: nat, targetEnd: nat,
                             strict: bool) returns (result: ConversionResult, s: nat, t: nat)
    requires sourceStart <= |source| && targetStart <= targetEnd <= target.Length
    modifies target
    ensures Did(F32, F16, strict, source, sourceStart, target, targetStart, targetEnd, result, s, t)
  {
    hide Run, Enc16, Filled;
    ghost var all := Run(F32, F16, strict, source[sourceStart..], targetEnd - targetStart, ConversionOK);
    ghost var out: seq<nat> := [];
    result, s, t := ConversionOK, sourceStart, targetStart;
    FilledNothing(target[..], targetStart);
    ReachedStart(F32, F16, strict, source, sourceStart, targetEnd - targetStart);
    while s < |source|
      invariant Written(target, targetStart, t, out) && t <= targetEnd
      invariant Reached(F32, F16, strict, source, sourceStart, all, s, out, targetEnd - t, result)
      decreases |source| - s
    {
      ghost var mid := target[..];
      ghost var s0, t0, before := s, t, result;
      if t >= targetEnd {
        result := TargetExhausted;
        ReachedEnd(F32, F16, strict, source, sourceStart, all, s0, out, targetEnd - t0, before, result);
        return;
      }
      var ch := source[s];
      s := s + 1;
      if ch <= 0xFFFF {
        if HIGH_START <= ch <= LOW_END {
          if strict {
            s := s - 1;
            result := SourceIllegal;
            ReachedEnd(F32, F16, strict, source, sourceStart, all, s0, out, targetEnd - t0, before, result);
            return;
          } else {
            t := PutOne(target, t, REPLACEMENT);
          }
        } else {
          t := PutOne(target, t, ch);
        }
      } else if ch > MAX_LEGAL {
        if strict {
          result := SourceIllegal;
          FilledNothing(mid, t);
        } else {
          t := PutOne(target, t, REPLACEMENT);
        }
      } else {
        if t + 1 >= targetEnd {
          s := s - 1;
          result := TargetExhausted;
          ReachedEnd(F32, F16, strict, source, sourceStart, all, s0, out, targetEnd - t0, before, result);
          return;
        }
        t := PutPair(target, t, ch);
      }
      ReachedNext(F32, F16, strict, source, sourceStart, all, s0, out, targetEnd - t0, before);
      FilledMore(old(target[..]), mid, target[..], targetStart, t0, t, out,
                 StepOf(F32, F16, strict, source[s0..]).units);
      out := out + StepOf(F32, F16, strict, source[s0..]).units;
    }
    ReachedEnd(F32, F16, strict, source, sourceStart, all, s, out, targetEnd - t, result, result);
  }

  /** A single unit. */
  method PutOne(target: array<nat>, t: nat, unit: nat) returns (t': nat)
    requires t < target.Length
    modifies target
    ensures t' == t + 1 && Written(target, t, t', [unit])
  {
    target[t] := unit;
    t' := t + 1;
  }

  /** A surrogate pair. */
  method PutPair(target: array<nat>, t: nat, ch: nat) returns (t': nat)
    requires t + 2 <= target.Length && 0xFFFF < ch <= MAX_LEGAL
    modifies target
    ensures t' == t + 2 && Written(target, t, t', Enc16(ch))
  {
    var c := ch - HALF_BASE;
    target[t] := c / 0x400 + HIGH_START;
    target[t + 1] := c % 0x400 + LOW_START;
    t' := t + 2;
  }

  /** The bytes of a character, written from the last to the first, below `t`. */
  method PutBytes(target: array<nat>, t: nat, ch: nat, bytesToWrite: nat)
    requires ch <= MAX_LEGAL && bytesToWrite == |Enc8(ch)| <= t <= target.Length
    modifies target
    ensures Written(target, t - bytesToWrite, t, Enc8(ch))
  {
    var c, p := ch, t;
    Divided(ch);
    if bytesToWrite >= 4 {
      p := p - 1;
      target[p] := 0x80 + c % 0x40;
      c := c / 0x40;
    }
    if bytesToWrite >= 3 {
      p := p - 1;
      target[p] := 0x80 + c % 0x40;
      c := c / 0x40;
    }
    if bytesToWrite >= 2 {
      p := p - 1;
      target[p] := 0x80 + c % 0x40;
      c := c / 0x40;
    }
    p := p - 1;
    target[p] := c + FirstByteMark(bytesToWrite);
  }

  /** `firstByteMark`. The bits of the mark and of the character do not overlap. */
  function FirstByteMark(n: nat): nat
  {
    if n == 2 then 0xC0 else if n == 3 then 0xE0 else if n == 4 then 0xF0 else 0
  }

  /** How many bytes a character needs. */
  method BytesToWrite(ch: nat) returns (n: nat)
    requires ch <= MAX_LEGAL
    ensures n == |Enc8(ch)|
  {
    if ch < 0x80 {
      n := 1;
    } else if ch < 0x800 {
      n := 2;
    } else if ch < 0x10000 {
      n := 3;
    } else {
      n := 4;
    }
  }

  method ConvertUTF32toUTF8(source: seq<nat>, sourceStart: nat, target: array<nat>, targetStart: nat, targetEnd: nat,
                            strict: bool) returns (result: ConversionResult, s: nat, t: nat)
    requires sourceStart <= |source| && targetStart <= targetEnd <= target.Length
    modifies target
    ensures Did(F32, F8, strict, source, sourceStart, target, targetStart, targetEnd, result, s, t)
  {
    hide Run, StepOf, Filled;
    ghost var all := Run(F32, F8, strict, source[sourceStart..], targetEnd - targetStart, ConversionOK);
    ghost var out: seq<nat> := [];
    result, s, t := ConversionOK, sourceStart, targetStart;
    FilledNothing(target[..], targetStart);
    ReachedStart(F32, F8, strict, source, sourceStart, targetEnd - targetStart);
    while s < |source|
      invariant Written(target, targetStart, t, out) && t <= targetEnd
      invariant Reached(F32, F8, strict, source, sourceStart, all, s, out, targetEnd - t, result)
      decreases |source| - s
    {
      ghost var s0, t0, before := s, t, result;
      ghost var mid := target[..];
      var go;
      go, result, s, t := TurnTo8(source, s, target, t, targetEnd, strict, result);
      if !go {
        Unfilled(mid, target[..], t0);
        ReachedEnd(F32, F8, strict, source, sourceStart, all, s0, out, targetEnd - t0, before, result);
        return;
      }
      ReachedNext(F32, F8, strict, source, sourceStart, all, s0, out, targetEnd - t0, before);
      FilledMore(old(target[..]), mid, target[..], targetStart, t0, t, out,
                 StepOf(F32, F8, strict, source[s0..]).units);
      out := out + StepOf(F32, F8, strict, source[s0..]).units;
    }
    ReachedEnd(F32, F8, strict, source, sourceStart, all, s, out, targetEnd - t, result, result);
  }

  /** The body of its loop. */
  method TurnTo8(source: seq<nat>, s0: nat, target: array<nat>, t0: nat, targetEnd: nat, strict: bool,
                 before: ConversionResult) returns (go: bool, result: ConversionResult, s: nat, t: nat)
    requires s0 < |source| && t0 <= targetEnd <= target.Length
    modifies target
    ensures var step := StepOf(F32, F8, strict, source[s0..]);
      if !go then s == s0 && t == t0
        && (if targetEnd - t0 < step.need then result == TargetExhausted else step.Halt? && result == step.result)
      else
        step.Put? && step.need <= targetEnd - t0 && s == s0 + step.len && t == t0 + |step.units|
        && result == if step.error then SourceIllegal else before
    ensures Written(target, t0, t, if go then StepOf(F32, F8, strict, source[s0..]).units else [])
  {
    hide Enc8, StepOf;
    StepTo8(strict, source, s0);
    result, s, t := before, s0, t0;
    var ch := source[s];
    s := s + 1;
    if strict && HIGH_START <= ch <= LOW_END {
      return false, SourceIllegal, s - 1, t;
    }
    if ch > MAX_LEGAL {
      ch := REPLACEMENT;
      result := SourceIllegal;
    }
    var bytesToWrite := BytesToWrite(ch);
    t := t + bytesToWrite;
    if t > targetEnd {
      return false, TargetExhausted, s - 1, t - bytesToWrite;
    }
    PutBytes(target, t, ch, bytesToWrite);
    go := true;
  }

  lemma StepTo8(strict: bool, source: seq<nat>, s: nat)
    requires s < |source|
    ensures var ch := source[s];
      var c := if ch > MAX_LEGAL then REPLACEMENT else ch;
      StepOf(F32, F8, strict, source[s..]) ==
        if strict && HIGH_START <= ch <= LOW_END then Halt(0, SourceIllegal)
        else Put(|Enc8(c)|, 1, Enc8(c), ch > MAX_LEGAL)
  {
  }

  // ---------------------------------------------------------------- from UTF-16

  /** The next character of UTF-16 text, a surrogate pair taken together. */
  method ReadUTF16(source: seq<nat>, s: nat, strict: bool) returns (r: Reading)
    requires s < |source|
    ensures r == Read(F16, strict, source[s..])
  {
    var ch := source[s];
    if ch >= HIGH_START && ch <= HIGH_END {
      if s + 1 < |source| {
        var ch2 := source[s + 1];
        if ch2 >= LOW_START && ch2 <= LOW_END {
          return Char((ch - HIGH_START) * 0x400 + (ch2 - LOW_START) + HALF_BASE, 2);
        } else if strict {
          return Fail(SourceIllegal);
        }
      } else {
        return Fail(SourceExhausted);
      }
    } else if strict && ch >= LOW_START && ch <= LOW_END {
      return Fail(SourceIllegal);
    }
    return Char(ch, 1);
  }

  /** 16-bit units give no more than the last code point. */
  lemma Small16(source: seq<nat>, s: nat, strict: bool)
    requires Units(F16, source) && s < |source|
    ensures Read(F16, strict, source[s..]).Char? ==> Read(F16, strict, source[s..]).ch <= MAX_LEGAL
  {
  }

  method ConvertUTF16toUTF32(source: seq<nat>, sourceStart: nat, target: array<nat>, targetStart: nat, targetEnd: nat,
                             strict: bool) returns (result: ConversionResult, s: nat, t: nat)
    requires sourceStart <= |source| && targetStart <= targetEnd <= target.Length && Units(F16, source)
    modifies target
    ensures Did(F16, F32, strict, source, sourceStart, target, targetStart, targetEnd, result, s, t)
  {
    hide Run, Read, Filled;
    ghost var all := Run(F16, F32, strict, source[sourceStart..], targetEnd - targetStart, ConversionOK);
    ghost var out: seq<nat> := [];
    result, s, t := ConversionOK, sourceStart, targetStart;
    FilledNothing(target[..], targetStart);
    ReachedStart(F16, F32, strict, source, sourceStart, targetEnd - targetStart);
    while s < |source|
      invariant Written(target, targetStart, t, out) && t <= targetEnd && result == ConversionOK
      invariant Reached(F16, F32, strict, source, sourceStart, all, s, out, targetEnd - t, result)
      decreases |source| - s
    {
      ghost var mid := target[..];
      ghost var s0, t0 := s, t;
      var r := ReadUTF16(source, s, strict);
      Small16(source, s, strict);
      if r.Fail? {
        result := r.result;
        ReachedEnd(F16, F32, strict, source, sourceStart, all, s0, out, targetEnd - t0, ConversionOK, result);
        return;
      }
      if t >= targetEnd {
        result := TargetExhausted;
        ReachedEnd(F16, F32, strict, source, sourceStart, all, s0, out, targetEnd - t0, ConversionOK, result);
        return;
      }
      s := s + r.len;
      t := PutOne(target, t, r.ch);
      ReachedNext(F16, F32, strict, source, sourceStart, all, s0, out, targetEnd - t0, ConversionOK);
      FilledMore(old(target[..]), mid, target[..], targetStart, t0, t, out, [r.ch]);
      out := out + [r.ch];
    }
    ReachedEnd(F16, F32, strict, source, sourceStart, all, s, out, targetEnd - t, result, result);
  }

  lemma StepFrom16(strict: bool, source: seq<nat>, s: nat)
    requires Units(F16, source) && s < |source|
    ensures var rd := Read(F16, strict, source[s..]);
      && (rd.Fail? ==> StepOf(F16, F8, strict, source[s..]) == Halt(0, rd.result))
      && (rd.Char? ==> rd.ch <= MAX_LEGAL && 1 <= rd.len <= |source| - s
                       && StepOf(F16, F8, strict, source[s..]) == Put(|Enc8(rd.ch)|, rd.len, Enc8(rd.ch), false))
  {
    hide Enc8;
    Small16(source, s, strict);
  }

  method ConvertUTF16toUTF8(source: seq<nat>, sourceStart: nat, target: array<nat>, targetStart: nat, targetEnd: nat,
                            strict: bool) returns (result: ConversionResult, s: nat, t: nat)
    requires sourceStart <= |source| && targetStart <= targetEnd <= target.Length && Units(F16, source)
    modifies target
    ensures Did(F16, F8, strict, source, sourceStart, target, targetStart, targetEnd, result, s, t)
  {
    hide Run, StepOf, Units, Filled;
    ghost var all := Run(F16, F8, strict, source[sourceStart..], targetEnd - targetStart, ConversionOK);
    ghost var out: seq<nat> := [];
    result, s, t := ConversionOK, sourceStart, targetStart;
    FilledNothing(target[..], targetStart);
    ReachedStart(F16, F8, strict, source, sourceStart, targetEnd - targetStart);
    while s < |source|
      invariant Written(target, targetStart, t, out) && t <= targetEnd && result == ConversionOK
      invariant Reached(F16, F8, strict, source, sourceStart, all, s, out, targetEnd - t, result)
      decreases |source| - s
    {
      ghost var s0, t0 := s, t;
      ghost var mid := target[..];
      var go;
      go, result, s, t := Turn16to8(source, s, target, t, targetEnd, strict);
      if !go {
        Unfilled(mid, target[..], t0);
        ReachedEnd(F16, F8, strict, source, sourceStart, all, s0, out, targetEnd - t0, ConversionOK, result);
        return;
      }
      ReachedNext(F16, F8, strict, source, sourceStart, all, s0, out, targetEnd - t0, ConversionOK);
      FilledMore(old(target[..]), mid, target[..], targetStart, t0, t, out,
                 StepOf(F16, F8, strict, source[s0..]).units);
      out := out + StepOf(F16, F8, strict, source[s0..]).units;
    }
    ReachedEnd(F16, F8, strict, source, sourceStart, all, s, out, targetEnd - t, result, result);
  }

  /** The body of its loop. */
  method Turn16to8(source: seq<nat>, s0: nat, target: array<nat>, t0: nat, targetEnd: nat, strict: bool)
    returns (go: bool, result: ConversionResult, s: nat, t: nat)
    requires s0 < |source| && t0 <= targetEnd <= target.Length && Units(F16, source)
    modifies target
    ensures var step := StepOf(F16, F8, strict, source[s0..]);
      if !go then s == s0 && t == t0
        && (if targetEnd - t0 < step.need then result == TargetExhausted else step.Halt? && result == step.result)
      else
        step.Put? && step.need <= targetEnd - t0 && s == s0 + step.len && t == t0 + |step.units|
        && !step.error && result == ConversionOK
    ensures Written(target, t0, t, if go then StepOf(F16, F8, strict, source[s0..]).units else [])
  {
    hide Enc8, StepOf, Read, Units;
    StepFrom16(strict, source, s0);
    result, s, t := ConversionOK, s0, t0;
    var r := ReadUTF16(source, s, strict);
    if r.Fail? {
      return false, r.result, s, t;
    }
    s := s + r.len;
    var bytesToWrite := BytesToWrite(r.ch);
    t := t + bytesToWrite;
    if t > targetEnd {
      return false, TargetExhausted, s0, t - bytesToWrite;
    }
    PutBytes(target, t, r.ch, bytesToWrite);
    go := true;
  }

  // ---------------------------------------------------------------- from UTF-8

  /** `isLegalUTF8`: the bytes are looked at from the last to the first. */
  method IsLegalUTF8(source: seq<nat>, s: nat, length: nat) returns (ok: bool)
    requires s + length <= |source| && length > 0
    ensures ok <==> Legal(source[s..s + length])
  {
    ghost var bytes := source[s..s + length];
    var srcptr := s + length;
    var a: nat := 0;
    if length > 4 {
      return false;
    }
    if length >= 4 {
      srcptr := srcptr - 1;
      a := source[srcptr];
      assert a == bytes[3];
      if a < 0x80 || a > 0xBF {
        return false;
      }
    }
    if length >= 3 {
      srcptr := srcptr - 1;
      a := source[srcptr];
      assert a == bytes[2];
      if a < 0x80 || a > 0xBF {
        return false;
      }
    }
    if length >= 2 {
      srcptr := srcptr - 1;
      a := source[srcptr];
      assert a == bytes[1];
      if a > 0xBF {
        return false;
      }
      if source[s] == 0xE0 {
        if a < 0xA0 {
          return false;
        }
      } else if source[s] == 0xED {
        if a > 0x9F {
          return false;
        }
      } else if source[s] == 0xF0 {
        if a < 0x90 {
          return false;
        }
      } else if source[s] == 0xF4 {
        if a > 0x8F {
          return false;
        }
      } else if a < 0x80 {
        return false;
      }
    }
    if source[s] >= 0x80 && source[s] < 0xC2 {
      return false;
    }
    return source[s] <= 0xF4;
  }

  /** `isLegalUTF8Sequence`: on a sequence of at least one byte. */
  method IsLegalUTF8Sequence(source: seq<nat>, s: nat) returns (ok: bool)
    requires s < |source|
    ensures ok <==> Read8(source[s..]).Char?
  {
    var length := Trailing(source[s]) + 1;
    if s + length > |source| {
      return false;
    }
    ok := IsLegalUTF8(source, s, length);
    assert source[s..][..length] == source[s..s + length];
  }

  /** The next character of UTF-8 text. */
  method ReadUTF8(source: seq<nat>, s: nat) returns (r: Reading)
    requires s < |source|
    ensures r == Read8(source[s..])
    ensures r.Char? ==> IsScalar(r.ch)
  {
    hide Legal, IsScalar;
    var extraBytesToRead := Trailing(source[s]);
    if s + extraBytesToRead >= |source| {
      return Fail(SourceExhausted);
    }
    var legal := IsLegalUTF8(source, s, extraBytesToRead + 1);
    ghost var bytes := source[s..s + extraBytesToRead + 1];
    assert source[s..][..extraBytesToRead + 1] == bytes;
    if !legal {
      return Fail(SourceIllegal);
    }
    LegalScalar(bytes);
    var ch := SumBytes(source, s, extraBytesToRead);
    return Char(ch - OffsetFromUTF8(extraBytesToRead), extraBytesToRead + 1);
  }

  /** `offsetsFromUTF8`, for legal lengths. */
  function OffsetFromUTF8(extra: nat): int
  {
    if extra == 1 then 0x3080 else if extra == 2 then 0xE2080 else if extra == 3 then 0x3C82080 else 0
  }

  /** The bytes of a sequence, summed with shifts. */
  method SumBytes(source: seq<nat>, s: nat, extra: nat) returns (ch: int)
    requires extra <= 3 && s + extra < |source|
    ensures ch - OffsetFromUTF8(extra) == Sum8(source[s..s + extra + 1])
  {
    ch := 0;
    var p := s;
    if extra >= 3 {
      ch := (ch + source[p]) * 0x40;
      p := p + 1;
    }
    if extra >= 2 {
      ch := (ch + source[p]) * 0x40;
      p := p + 1;
    }
    if extra >= 1 {
      ch := (ch + source[p]) * 0x40;
      p := p + 1;
    }
    ch := ch + source[p];
  }

  method ConvertUTF8toUTF16(source: seq<nat>, sourceStart: nat, target: array<nat>, targetStart: nat, targetEnd: nat,
                            strict: bool) returns (result: ConversionResult, s: nat, t: nat)
    requires sourceStart <= |source| && targetStart <= targetEnd <= target.Length
    modifies target
    ensures Did(F8, F16, strict, source, sourceStart, target, targetStart, targetEnd, result, s, t)
  {
    hide Run, Read8, Filled;
    ghost var all := Run(F8, F16, strict, source[sourceStart..], targetEnd - targetStart, ConversionOK);
    ghost var out: seq<nat> := [];
    result, s, t := ConversionOK, sourceStart, targetStart;
    FilledNothing(target[..], targetStart);
    ReachedStart(F8, F16, strict, source, sourceStart, targetEnd - targetStart);
    while s < |source|
      invariant Written(target, targetStart, t, out) && t <= targetEnd && result == ConversionOK
      invariant Reached(F8, F16, strict, source, sourceStart, all, s, out, targetEnd - t, result)
      decreases |source| - s
    {
      ghost var mid := target[..];
      ghost var s0, t0 := s, t;
      var r := ReadUTF8(source, s);
      if r.Fail? {
        result := r.result;
        ReachedEnd(F8, F16, strict, source, sourceStart, all, s0, out, targetEnd - t0, ConversionOK, result);
        return;
      }
      s := s + r.len;
      if t >= targetEnd {
        s := s - r.len;
        result := TargetExhausted;
        ReachedEnd(F8, F16, strict, source, sourceStart, all, s0, out, targetEnd - t0, ConversionOK, result);
        return;
      }
      if r.ch <= 0xFFFF {
        // a legal sequence is never a surrogate, so the code's branches for these are not taken
        t := PutOne(target, t, r.ch);
      } else {
        // nor is it beyond the last code point
        if t + 1 >= targetEnd {
          s := s - r.len;
          result := TargetExhausted;
          ReachedEnd(F8, F16, strict, source, sourceStart, all, s0, out, targetEnd - t0, ConversionOK, result);
          return;
        }
        t := PutPair(target, t, r.ch);
      }
      ReachedNext(F8, F16, strict, source, sourceStart, all, s0, out, targetEnd - t0, ConversionOK);
      FilledMore(old(target[..]), mid, target[..], targetStart, t0, t, out, Enc16(r.ch));
      out := out + Enc16(r.ch);
    }
    ReachedEnd(F8, F16, strict, source, sourceStart, all, s, out, targetEnd - t, result, result);
  }

  method ConvertUTF8toUTF32(source: seq<nat>, sourceStart: nat, target: array<nat>, targetStart: nat, targetEnd: nat,
                            strict: bool) returns (result: ConversionResult, s: nat, t: nat)
    requires sourceStart <= |source| && targetStart <= targetEnd <= target.Length
    modifies target
    ensures Did(F8, F32, strict, source, sourceStart, target, targetStart, targetEnd, result, s, t)
  {
    hide Run, Read8, Filled;
    ghost var all := Run(F8, F32, strict, source[sourceStart..], targetEnd - targetStart, ConversionOK);
    ghost var out: seq<nat> := [];
    result, s, t := ConversionOK, sourceStart, targetStart;
    FilledNothing(target[..], targetStart);
    ReachedStart(F8, F32, strict, source, sourceStart, targetEnd - targetStart);
    while s < |source|
      invariant Written(target, targetStart, t, out) && t <= targetEnd && result == ConversionOK
      invariant Reached(F8, F32, strict, source, sourceStart, all, s, out, targetEnd - t, result)
      decreases |source| - s
    {
      ghost var mid := target[..];
      ghost var s0, t0 := s, t;
      var r := ReadUTF8(source, s);
      if r.Fail? {
        result := r.result;
        ReachedEnd(F8, F32, strict, source, sourceStart, all, s0, out, targetEnd - t0, ConversionOK, result);
        return;
      }
      s := s + r.len;
      if t >= targetEnd {
        s := s - r.len;
        result := TargetExhausted;
        ReachedEnd(F8, F32, strict, source, sourceStart, all, s0, out, targetEnd - t0, ConversionOK, result);
        return;
      }
      // a legal sequence is a scalar value, so the code's branches for others are not taken
      t := PutOne(target, t, r.ch);
      ReachedNext(F8, F32, strict, source, sourceStart, all, s0, out, targetEnd - t0, ConversionOK);
      FilledMore(old(target[..]), mid, target[..], targetStart, t0, t, out, [r.ch]);
      out := out + [r.ch];
    }
    ReachedEnd(F8, F32, strict, source, sourceStart, all, s, out, targetEnd - t, result, result);
  }
}
