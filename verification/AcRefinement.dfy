/** Successive approximation of AC coefficients: the point transform, the refinement coder of
    section G.1.2.3 of ITU-T T.81 (figure G.7), and the matching decoder of section G.2. */
module AcRefinement {
  import opened Wrappers
  import opened BitStrings
  import opened Coding
  import opened RunLength

  // ---------------------------------------------------------------- the point transform

  /** Division by `2^al` rounding toward zero. */
  function Trunc(v: int, al: nat): int
  {
    if v < 0 then -Shr(-v, al) else Shr(v, al)
  }

  /** What a decoder knows of an AC coefficient once its bits down to position `al` were sent. */
  function View(v: int, al: nat): int { Scale(Trunc(v, al), al) }

  /** The magnitude after the point transform. */
  function Mag(z: Block, al: nat, k: nat): nat
    requires k < 64
  {
    Shr(Abs(z[k]), al)
  }

  /** Append a correction bit to a nonzero coefficient, unless it is already there. */
  function Correct(v: int, bit: bool, al: nat): int
  {
    if !bit || Shr(v, al) % 2 == 1 then v
    else if v >= 0 then v + Pow2(al) else v - Pow2(al)
  }

  /** One refinement step of one coefficient, by its magnitude after the point transform. */
  lemma RefineView(z: Block, al: nat, k: nat)
    requires k < 64
    ensures View(z[k], al + 1) == 0 <==> Mag(z, al, k) <= 1
    ensures Mag(z, al, k) == 0 ==> View(z[k], al) == 0
    ensures Mag(z, al, k) == 1 ==> View(z[k], al) == if z[k] < 0 then -1 * Pow2(al) else Pow2(al)
    ensures Mag(z, al, k) >= 2 ==> Correct(View(z[k], al + 1), Mag(z, al, k) % 2 == 1, al) == View(z[k], al)
  {
    hide Shl, Shr, Pow2;
    var m := Mag(z, al, k);
    var h := m / 2;
    ShiftNext(h, Abs(z[k]), al);
    ShlSum(2 * h, m % 2, al);
    ShlSum(h, h, al);
    ShlOne(al);
    ShlZero(al);
    ShlMono(if h > 0 then 1 else 0, h, al + 1);
    ShlOne(al + 1);
    ShlZero(al + 1);
    ShrShl(2 * h, al);
  }

  // ---------------------------------------------------------------- the refinement coder

  /** The last coefficient below `end` that becomes nonzero in this scan, or 0. */
  function LastNew(z: Block, al: nat, ss: nat, end: nat): (e: nat)
    requires 1 <= ss <= end <= 64
    ensures e == 0 || ss <= e < end
    ensures e != 0 ==> Mag(z, al, e) == 1
    ensures forall k :: ss <= k < end && k > e ==> Mag(z, al, k) != 1
  {
    if end == ss then 0 else if Mag(z, al, end - 1) == 1 then end - 1 else LastNew(z, al, ss, end - 1)
  }

  /** The correction bits of the positions `s` to `k - 1`: one for each that was nonzero before. */
  function CorrBits(z: Block, al: nat, s: nat, k: nat): Bits
    requires s <= k <= 64
  {
    if s == k then []
    else CorrBits(z, al, s, k - 1) + (if Mag(z, al, k - 1) >= 2 then [Mag(z, al, k - 1) % 2 == 1] else [])
  }

  function SignBit(v: int): bool { v >= 0 }

  /** The symbol of a newly nonzero coefficient after `r` zeros, its sign, and the correction bits
      passed over. */
  function NewTokens(tbl: nat, r: nat, v: int, br: Bits): seq<Token>
  {
    [Sym(tbl, 16 * r + 1), Raw([SignBit(v)])] + RawEach(br)
  }

  /** The symbols from position `k` up to the last newly nonzero coefficient `eob`, with `r` zeros
      and correction bits `br` since the last symbol. */
  function RefineTokens(tbl: nat, z: Block, al: nat, k: nat, eob: nat, r: nat, br: Bits): seq<Token>
    requires eob < 64
    decreases 64 - k, r
  {
    if k > eob then []
    else if Mag(z, al, k) == 0 then RefineTokens(tbl, z, al, k + 1, eob, r + 1, br)
    else if r > 15 then [Sym(tbl, ZRL)] + RawEach(br) + RefineTokens(tbl, z, al, k, eob, r - 16, [])
    else if Mag(z, al, k) > 1 then
      RefineTokens(tbl, z, al, k + 1, eob, r, br + [Mag(z, al, k) % 2 == 1])
    else NewTokens(tbl, r, z[k], br) + RefineTokens(tbl, z, al, k + 1, eob, 0, [])
  }

  // ---------------------------------------------------------------- the refinement decoder

  /** Pass over `r` still-zero coefficients, correcting the nonzero ones on the way; stops at the
      next still-zero coefficient or past the band. */
  function Advance(b: Block, k: nat, se: nat, al: nat, r: nat, bits: Bits): (o: Option<(Block, nat, Bits)>)
    requires se < 64 && k <= se + 1
    ensures o.Some? ==> k <= o.value.1 <= se + 1
    decreases 64 - k
  {
    if k > se then Some((b, k, bits))
    else if b[k] != 0 then
      if bits == [] then None
      else Advance(b[k := Correct(b[k], bits[0], al)], k + 1, se, al, r, bits[1..])
    else if r == 0 then Some((b, k, bits))
    else Advance(b, k + 1, se, al, r - 1, bits)
  }

  /** Corrections of all nonzero coefficients from `k` to the end of the band. */
  function CorrectRest(b: Block, k: nat, se: nat, al: nat, bits: Bits): Option<(Block, Bits)>
    requires se < 64
    decreases 64 - k
  {
    if k > se then Some((b, bits))
    else if b[k] == 0 then CorrectRest(b, k + 1, se, al, bits)
    else if bits == [] then None
    else CorrectRest(b[k := Correct(b[k], bits[0], al)], k + 1, se, al, bits[1..])
  }

  /** Symbols from position `k` until the band ends or an end-of-band symbol, whose run exponent
      and position are returned. */
  function DecodeRefine(c: Codec, tbl: nat, b: Block, k: nat, se: nat, al: nat, bits: Bits)
    : Option<(Block, nat, Option<nat>, Bits)>
    requires se < 64
    decreases 80 - k
  {
    if k > se then Some((b, k, None, bits))
    else match c.read(tbl, bits) {
      case None => None
      case Some((rs, rest)) =>
        var r, s := rs / 16, rs % 16;
        if s != 0 then
          if rest == [] then None
          else match Advance(b, k, se, al, r, rest[1..]) {
            case None => None
            case Some((b', k', rest')) =>
              if k' > se then None
              else DecodeRefine(c, tbl, b'[k' := if rest[0] then Pow2(al) else -1 * Pow2(al)], k' + 1, se, al, rest')
          }
        else if r == 15 then
          match Advance(b, k, se, al, 15, rest) {
            case None => None
            case Some((b', k', rest')) => DecodeRefine(c, tbl, b', k' + 1, se, al, rest')
          }
        else Some((b, k, Some(r), rest))
    }
  }

  // ---------------------------------------------------------------- the decoder follows the coder

  /** The decoder's block when the positions of the band below `t` are refined and the others are
      as the previous scan left them. */
  function Merge(b: Block, z: Block, al: nat, ss: nat, t: nat): Block
  {
    seq(64, i requires 0 <= i < 64 => if ss <= i < t then View(z[i], al) else b[i])
  }

  ghost predicate Knows(b: Block, z: Block, al: nat, ss: nat, se: nat)
    requires se < 64
  {
    forall i :: ss <= i <= se ==> b[i] == View(z[i], al)
  }

  function Zeros(z: Block, al: nat, s: nat, k: nat): nat
    requires s <= k <= 64
  {
    if s == k then 0 else Zeros(z, al, s, k - 1) + (if Mag(z, al, k - 1) == 0 then 1 else 0)
  }

  ghost predicate NoNew(z: Block, al: nat, s: nat, k: nat)
    requires k <= 64
  {
    forall i :: s <= i < k ==> Mag(z, al, i) != 1
  }

  lemma MergeNext(b: Block, z: Block, al: nat, ss: nat, t: nat)
    requires ss <= t < 64
    ensures Merge(b, z, al, ss, t)[t := View(z[t], al)] == Merge(b, z, al, ss, t + 1)
    ensures Merge(b, z, al, ss, t)[t] == b[t]
  {
  }

  /** Splitting zero counts and correction bits at an intermediate position. */
  lemma {:induction false} SplitRun(z: Block, al: nat, s: nat, m: nat, k: nat)
    requires s <= m <= k <= 64
    ensures Zeros(z, al, s, k) == Zeros(z, al, s, m) + Zeros(z, al, m, k)
    ensures CorrBits(z, al, s, k) == CorrBits(z, al, s, m) + CorrBits(z, al, m, k)
  {
    if m < k {
      SplitRun(z, al, s, m, k - 1);
    }
  }

  /** `Advance` passes exactly the run the coder counted. */
  lemma {:induction false} AdvanceRun(b: Block, z: Block, al: nat, ss: nat, s: nat, q: nat, se: nat, rest: Bits)
    requires ss <= s <= q <= se < 64 && Knows(b, z, al + 1, ss, se)
    requires NoNew(z, al, s, q) && Mag(z, al, q) <= 1
    ensures Advance(Merge(b, z, al, ss, s), s, se, al, Zeros(z, al, s, q), CorrBits(z, al, s, q) + rest)
         == Some((Merge(b, z, al, ss, q), q, rest))
    decreases q - s
  {
    hide Merge, View, Mag, Correct;
    RefineView(z, al, s);
    MergeNext(b, z, al, ss, s);
    if s == q {
      assert CorrBits(z, al, s, q) + rest == rest;
    } else {
      SplitRun(z, al, s, s + 1, q);
      AdvanceRun(b, z, al, ss, s + 1, q, se, rest);
      FirstCorr(z, al, s, q, rest);
      assert Zeros(z, al, s, s) == 0;
      if Mag(z, al, s) == 0 {
        Unchanged(Merge(b, z, al, ss, s), s);
      }
    }
  }

  /** One coefficient further. */
  lemma CorrectFirst(b: Block, k: nat, se: nat, al: nat, bits: Bits)
    requires k <= se < 64
    ensures b[k] == 0 ==> CorrectRest(b, k, se, al, bits) == CorrectRest(b, k + 1, se, al, bits)
    ensures b[k] != 0 && bits != [] ==>
      CorrectRest(b, k, se, al, bits) == CorrectRest(b[k := Correct(b[k], bits[0], al)], k + 1, se, al, bits[1..])
  {
  }

  lemma FirstCorr(z: Block, al: nat, s: nat, k: nat, rest: Bits)
    requires s < k <= 64
    ensures var more := CorrBits(z, al, s + 1, k) + rest;
      CorrBits(z, al, s, k) + rest == if Mag(z, al, s) >= 2 then [Mag(z, al, s) % 2 == 1] + more else more
  {
    hide Mag;
    SplitRun(z, al, s, s + 1, k);
    assert CorrBits(z, al, s, s) == [];
  }

  lemma Unchanged(b: Block, k: nat)
    requires k < 64
    ensures b[k := b[k]] == b
  {
  }

  lemma CorrectStep(b: Block, z: Block, al: nat, ss: nat, s: nat, se: nat, rest: Bits)
    requires ss <= s <= se < 64 && Knows(b, z, al + 1, ss, se) && Mag(z, al, s) != 1
    ensures CorrectRest(Merge(b, z, al, ss, s), s, se, al, CorrBits(z, al, s, se + 1) + rest)
         == CorrectRest(Merge(b, z, al, ss, s + 1), s + 1, se, al, CorrBits(z, al, s + 1, se + 1) + rest)
  {
    hide CorrectRest, CorrBits, Merge, View, Mag, Correct;
    RefineView(z, al, s);
    MergeNext(b, z, al, ss, s);
    FirstCorr(z, al, s, se + 1, rest);
    CorrectFirst(Merge(b, z, al, ss, s), s, se, al, CorrBits(z, al, s, se + 1) + rest);
    if Mag(z, al, s) == 0 {
      Unchanged(Merge(b, z, al, ss, s), s);
    }
  }

  /** The end-of-band corrections complete the band. */
  lemma {:induction false} CorrectTail(b: Block, z: Block, al: nat, ss: nat, s: nat, se: nat, rest: Bits)
    requires ss <= s <= se + 1 <= 64 && Knows(b, z, al + 1, ss, se)
    requires NoNew(z, al, s, se + 1)
    ensures CorrectRest(Merge(b, z, al, ss, s), s, se, al, CorrBits(z, al, s, se + 1) + rest)
         == Some((Merge(b, z, al, ss, se + 1), rest))
    decreases 64 - s
  {
    if s == se + 1 {
      assert CorrBits(z, al, s, se + 1) + rest == rest;
    } else {
      CorrectStep(b, z, al, ss, s, se, rest);
      CorrectTail(b, z, al, ss, s + 1, se, rest);
    }
  }

  /** Correction bits lie before the 16th zero: what `NoLate` says of the run from `s` to `k`. */
  ghost predicate NoLate(z: Block, al: nat, s: nat, k: nat)
    requires s <= k <= 64
  {
    forall i :: s <= i < k && Mag(z, al, i) >= 2 ==> Zeros(z, al, s, i) <= 15
  }

  /** The coder's run state at position `k`, counted from `s` where the decoder stands. */
  ghost predicate RunState(z: Block, al: nat, s: nat, k: nat, r: nat, br: Bits)
  {
    && s <= k <= 64
    && r == Zeros(z, al, s, k) && br == CorrBits(z, al, s, k)
    && NoNew(z, al, s, k) && NoLate(z, al, s, k)
  }

  /** The position of the 16th zero of a run; everything after it in the run is zero. */
  lemma {:induction false} SixteenthZero(z: Block, al: nat, s: nat, k: nat) returns (q: nat)
    requires s <= k <= 64 && Zeros(z, al, s, k) >= 16
    requires NoNew(z, al, s, k) && NoLate(z, al, s, k)
    ensures s <= q < k && Mag(z, al, q) == 0 && Zeros(z, al, s, q) == 15
    ensures CorrBits(z, al, s, q) == CorrBits(z, al, s, k)
    ensures Zeros(z, al, q + 1, k) == Zeros(z, al, s, k) - 16
    ensures forall i :: q < i < k ==> Mag(z, al, i) == 0
    decreases k
  {
    hide Mag;
    assert Mag(z, al, k - 1) == 0;
    if Zeros(z, al, s, k) == 16 {
      q := k - 1;
    } else {
      q := SixteenthZero(z, al, s, k - 1);
    }
  }

  lemma {:induction false} AllZeroRun(z: Block, al: nat, s: nat, k: nat)
    requires s <= k <= 64 && forall i :: s <= i < k ==> Mag(z, al, i) == 0
    ensures CorrBits(z, al, s, k) == []
  {
    if s < k {
      AllZeroRun(z, al, s, k - 1);
    }
  }

  lemma DecodeZrl(c: Codec, tbl: nat, b: Block, k: nat, se: nat, al: nat, bits: Bits, br: Bits, rest: Bits, b': Block,
                  q: nat)
    requires k <= se < 64 && q <= 64 && c.read(tbl, bits) == Some((ZRL, br + rest))
    requires Advance(b, k, se, al, 15, br + rest) == Some((b', q, rest))
    ensures DecodeRefine(c, tbl, b, k, se, al, bits) == DecodeRefine(c, tbl, b', q + 1, se, al, rest)
  {
    assert ZRL / 16 == 15 && ZRL % 16 == 0;
  }

  lemma DecodeNew(c: Codec, tbl: nat, b: Block, k: nat, se: nat, al: nat, r: nat, bits: Bits, sign: bool,
                  br: Bits, rest: Bits, b': Block, q: nat)
    requires k <= se < 64 && q <= se && r <= 15 && c.read(tbl, bits) == Some((16 * r + 1, [sign] + (br + rest)))
    requires Advance(b, k, se, al, r, br + rest) == Some((b', q, rest))
    ensures DecodeRefine(c, tbl, b, k, se, al, bits)
         == DecodeRefine(c, tbl, b'[q := if sign then Pow2(al) else -1 * Pow2(al)], q + 1, se, al, rest)
  {
    assert (16 * r + 1) / 16 == r && (16 * r + 1) % 16 == 1;
    assert ([sign] + (br + rest))[1..] == br + rest;
  }

  /** Coder and decoder take one ZRL together. */
  lemma ZrlAdvance(c: Codec, tbl: nat, b: Block, z: Block, al: nat, ss: nat, s: nat, k: nat, se: nat,
                   r: nat, br: Bits, rest: Bits) returns (s': nat)
    requires Sound(c) && Codable(c, Sym(tbl, ZRL))
    requires ss <= s <= k <= se < 64 && Knows(b, z, al + 1, ss, se)
    requires RunState(z, al, s, k, r, br) && r > 15
    ensures s <= s' <= k && RunState(z, al, s', k, r - 16, [])
    ensures DecodeRefine(c, tbl, Merge(b, z, al, ss, s), s, se, al, TokenBits(c, Sym(tbl, ZRL)) + (br + rest))
         == DecodeRefine(c, tbl, Merge(b, z, al, ss, s'), s', se, al, rest)
  {
    var q := SixteenthZero(z, al, s, k);
    s' := q + 1;
    AllZeroRun(z, al, s', k);
    AdvanceRun(b, z, al, ss, s, q, se, rest);
    RefineView(z, al, q);
    MergeNext(b, z, al, ss, q);
    assert Merge(b, z, al, ss, q) == Merge(b, z, al, ss, s');
    ReadSymbolToken(c, tbl, ZRL, br + rest);
    DecodeZrl(c, tbl, Merge(b, z, al, ss, s), s, se, al, TokenBits(c, Sym(tbl, ZRL)) + (br + rest),
              br, rest, Merge(b, z, al, ss, q), q);
  }

  /** Coder and decoder take one newly nonzero coefficient together. */
  lemma NewAdvance(c: Codec, tbl: nat, b: Block, z: Block, al: nat, ss: nat, s: nat, k: nat, se: nat,
                   r: nat, br: Bits, rest: Bits)
    requires Sound(c) && Codable(c, Sym(tbl, 16 * r + 1))
    requires ss <= s <= k <= se < 64 && Knows(b, z, al + 1, ss, se)
    requires RunState(z, al, s, k, r, br) && r <= 15 && Mag(z, al, k) == 1
    ensures DecodeRefine(c, tbl, Merge(b, z, al, ss, s), s, se, al,
                         TokenBits(c, Sym(tbl, 16 * r + 1)) + ([SignBit(z[k])] + (br + rest)))
         == DecodeRefine(c, tbl, Merge(b, z, al, ss, k + 1), k + 1, se, al, rest)
  {
    AdvanceRun(b, z, al, ss, s, k, se, rest);
    RefineView(z, al, k);
    MergeNext(b, z, al, ss, k);
    ReadSymbolToken(c, tbl, 16 * r + 1, [SignBit(z[k])] + (br + rest));
    DecodeNew(c, tbl, Merge(b, z, al, ss, s), s, se, al, r,
              TokenBits(c, Sym(tbl, 16 * r + 1)) + ([SignBit(z[k])] + (br + rest)),
              SignBit(z[k]), br, rest, Merge(b, z, al, ss, k), k);
  }

  lemma ZrlFollow(c: Codec, tbl: nat, br: Bits, later: seq<Token>, rest: Bits)
    ensures Follow(c, [Sym(tbl, ZRL)] + RawEach(br) + later, rest)
         == TokenBits(c, Sym(tbl, ZRL)) + (br + Follow(c, later, rest))
    ensures AllCodable(c, [Sym(tbl, ZRL)] + RawEach(br) + later) <==>
              Codable(c, Sym(tbl, ZRL)) && AllCodable(c, later)
  {
    var ts := RawEach(br) + later;
    assert [Sym(tbl, ZRL)] + RawEach(br) + later == [Sym(tbl, ZRL)] + ts;
    assert ([Sym(tbl, ZRL)] + ts)[1..] == ts;
    FollowAppend(c, RawEach(br), later, rest);
    RawEachFollow(c, br, Follow(c, later, rest));
    CodableAppend(c, RawEach(br), later);
  }

  lemma NewFollow(c: Codec, tbl: nat, r: nat, v: int, br: Bits, later: seq<Token>, rest: Bits)
    ensures Follow(c, NewTokens(tbl, r, v, br) + later, rest)
         == TokenBits(c, Sym(tbl, 16 * r + 1)) + ([SignBit(v)] + (br + Follow(c, later, rest)))
    ensures AllCodable(c, NewTokens(tbl, r, v, br) + later) <==>
              Codable(c, Sym(tbl, 16 * r + 1)) && AllCodable(c, later)
  {
    var sym, sign := Sym(tbl, 16 * r + 1), Raw([SignBit(v)]);
    var ts := RawEach(br) + later;
    var us := [sign] + ts;
    assert NewTokens(tbl, r, v, br) + later == [sym] + us;
    assert ([sym] + us)[1..] == us && us[1..] == ts;
    FollowAppend(c, RawEach(br), later, rest);
    RawEachFollow(c, br, Follow(c, later, rest));
    CodableAppend(c, RawEach(br), later);
  }

  /** The decoder follows the coder through every symbol of the block, to just past the last newly
      nonzero coefficient, and there its block is refined up to that point. */
  lemma {:induction false} RefineRoundTrip(c: Codec, tbl: nat, b: Block, z: Block, al: nat, ss: nat, s: nat,
                                           k: nat, eob: nat, se: nat, r: nat, br: Bits, rest: Bits)
    requires ss <= s <= k <= eob + 1 <= se + 1 <= 64
    requires Sound(c) && AllCodable(c, RefineTokens(tbl, z, al, k, eob, r, br))
    requires Knows(b, z, al + 1, ss, se) && RunState(z, al, s, k, r, br)
    requires Mag(z, al, eob) == 1 && (k == eob + 1 ==> s == k)
    ensures DecodeRefine(c, tbl, Merge(b, z, al, ss, s), s, se, al,
                         Follow(c, RefineTokens(tbl, z, al, k, eob, r, br), rest))
         == DecodeRefine(c, tbl, Merge(b, z, al, ss, eob + 1), eob + 1, se, al, rest)
    decreases 64 - k, r
  {
    hide DecodeRefine, AllCodable, Merge, Knows;
    if k > eob {
    } else if Mag(z, al, k) == 0 {
      RefineRoundTrip(c, tbl, b, z, al, ss, s, k + 1, eob, se, r + 1, br, rest);
    } else if r > 15 {
      var later := RefineTokens(tbl, z, al, k, eob, r - 16, []);
      ZrlFollow(c, tbl, br, later, rest);
      var s' := ZrlAdvance(c, tbl, b, z, al, ss, s, k, se, r, br, Follow(c, later, rest));
      RefineRoundTrip(c, tbl, b, z, al, ss, s', k, eob, se, r - 16, [], rest);
    } else if Mag(z, al, k) > 1 {
      RefineRoundTrip(c, tbl, b, z, al, ss, s, k + 1, eob, se, r, br + [Mag(z, al, k) % 2 == 1], rest);
    } else {
      var later := RefineTokens(tbl, z, al, k + 1, eob, 0, []);
      NewFollow(c, tbl, r, z[k], br, later, rest);
      NewAdvance(c, tbl, b, z, al, ss, s, k, se, r, br, Follow(c, later, rest));
      RefineRoundTrip(c, tbl, b, z, al, ss, k + 1, k + 1, eob, se, 0, [], rest);
    }
  }
}
