/** Run-length coding of one band of coefficients in zigzag order, as shared by the sequential
    coder (section F.1.2.2 of ITU-T T.81) and the first progressive AC scan (section G.1.2.2),
    and the matching band decoder (sections F.2.2.2 and G.2). */
module RunLength {
  import opened Wrappers
  import opened BitStrings
  import opened Coding

  const ZRL := 0xF0

  /** A block of coefficients, in zigzag order. */
  type Block = b: seq<int> | |b| == 64 witness seq(64, _ => 0)

  /** `n` run-length-16 symbols. */
  function Zrls(tbl: nat, n: nat): seq<Token>
  {
    if n == 0 then [] else [Sym(tbl, ZRL)] + Zrls(tbl, n - 1)
  }

  /** Run and category of one nonzero coefficient, and its appended bits. */
  function CoefTokens(tbl: nat, r: nat, v: int): seq<Token>
  {
    Zrls(tbl, r / 16) + CoefPair(tbl, r % 16, v)
  }

  function CoefPair(tbl: nat, r: nat, v: int): seq<Token>
  {
    [Sym(tbl, 16 * r + NBits(Abs(v))), Raw(MagnitudeBits(v))]
  }

  /** The symbols of positions `k` to `se`, with `r` zeros since the last nonzero coefficient.
      Zeros at the end of the band produce nothing. */
  function BandTokens(tbl: nat, y: Block, k: nat, se: nat, r: nat): seq<Token>
    requires se < 64
    decreases 64 - k
  {
    if k > se then []
    else if y[k] == 0 then BandTokens(tbl, y, k + 1, se, r + 1)
    else CoefTokens(tbl, r, y[k]) + BandTokens(tbl, y, k + 1, se, 0)
  }

  /** Every magnitude in the band fits the coefficient category limit. */
  predicate BandInRange(y: Block, ss: nat, se: nat)
    requires se < 64
  {
    forall k :: ss <= k <= se ==> NBits(Abs(y[k])) <= 10
  }

  /** Just past the last nonzero coefficient of the positions `ss` to `end - 1`. */
  function TailStart(y: Block, ss: nat, end: nat): (t: nat)
    requires ss <= end <= 64
    ensures ss <= t <= end
    ensures forall i :: t <= i < end ==> y[i] == 0
    ensures t > ss ==> y[t - 1] != 0
  {
    if end == ss then ss
    else if y[end - 1] != 0 then end
    else TailStart(y, ss, end - 1)
  }

  // ---------------------------------------------------------------- the band decoder

  /** Reads symbols from position `k` on into `b`, scaling by `2^al`. The second component is the
      run exponent of an end-of-band symbol, when one ended the band. */
  function DecodeBand(c: Codec, tbl: nat, b: Block, k: nat, se: nat, al: nat, bits: Bits)
    : Option<(Block, Option<nat>, Bits)>
    requires se < 64
    decreases 80 - k
  {
    if k > se then Some((b, None, bits))
    else match c.read(tbl, bits) {
      case None => None
      case Some((rs, rest)) =>
        var r, s := rs / 16, rs % 16;
        if s != 0 then
          if k + r > se then None
          else match ReadBits(s, rest) {
            case None => None
            case Some((v, rest')) =>
              DecodeBand(c, tbl, b[k + r := Scale(Extend(Val(v), s), al)], k + r + 1, se, al, rest')
          }
        else if r == 15 then
          if k + 16 > 64 then None else DecodeBand(c, tbl, b, k + 16, se, al, rest)
        else Some((b, Some(r), rest))
    }
  }

  /** `v << al` for a signed value. */
  function Scale(v: int, al: nat): int
  {
    if v < 0 then -1 * Shl(-v, al) else Shl(v, al)
  }

  /** `b` with the positions from `ss` up to `t` replaced by the scaled values of `y`. */
  function Fill(b: Block, y: Block, al: nat, ss: nat, t: nat): Block
  {
    seq(64, i requires 0 <= i < 64 => if ss <= i < t then Scale(y[i], al) else b[i])
  }

  lemma {:induction false} SkipZrls(c: Codec, tbl: nat, n: nat, b: Block, k: nat, se: nat, al: nat, rest: Bits)
    requires Sound(c) && AllCodable(c, Zrls(tbl, n))
    requires se < 64 && k + 16 * n <= se
    ensures DecodeBand(c, tbl, b, k, se, al, Follow(c, Zrls(tbl, n), rest))
         == DecodeBand(c, tbl, b, k + 16 * n, se, al, rest)
  {
    if n != 0 {
      ReadSymbolToken(c, tbl, ZRL, Follow(c, Zrls(tbl, n - 1), rest));
      SkipZrls(c, tbl, n - 1, b, k + 16, se, al, rest);
    }
  }

  /** One step of the band decoder: a symbol with run `r` and category `s`, then `s` bits. */
  lemma BandStep(c: Codec, tbl: nat, b: Block, k: nat, se: nat, al: nat, bits: Bits, r: nat, s: nat, v: Bits,
                 rest: Bits)
    requires se < 64 && k + r <= se && r < 16 && 0 < s < 16 && |v| == s
    requires c.read(tbl, bits) == Some((16 * r + s, v + rest))
    ensures DecodeBand(c, tbl, b, k, se, al, bits)
         == DecodeBand(c, tbl, b[k + r := Scale(Extend(Val(v), s), al)], k + r + 1, se, al, rest)
  {
    ReadBitsToken(v, rest);
    assert (16 * r + s) / 16 == r && (16 * r + s) % 16 == s;
  }

  lemma ReadOneCoef(c: Codec, tbl: nat, r: nat, v: int, b: Block, k: nat, se: nat, al: nat, rest: Bits)
    requires Sound(c) && Codable(c, Sym(tbl, 16 * r + NBits(Abs(v))))
    requires se < 64 && r < 16 && k + r <= se && v != 0 && NBits(Abs(v)) <= 10
    ensures DecodeBand(c, tbl, b, k, se, al,
                       TokenBits(c, Sym(tbl, 16 * r + NBits(Abs(v)))) + (MagnitudeBits(v) + rest))
         == DecodeBand(c, tbl, b[k + r := Scale(v, al)], k + r + 1, se, al, rest)
  {
    ExtendMagnitude(v);
    ReadSymbolToken(c, tbl, 16 * r + NBits(Abs(v)), MagnitudeBits(v) + rest);
    BandStep(c, tbl, b, k, se, al, TokenBits(c, Sym(tbl, 16 * r + NBits(Abs(v)))) + (MagnitudeBits(v) + rest),
             r, NBits(Abs(v)), MagnitudeBits(v), rest);
  }

  lemma ReadCoef(c: Codec, tbl: nat, r: nat, v: int, b: Block, k: nat, se: nat, al: nat, rest: Bits)
    requires Sound(c) && AllCodable(c, CoefTokens(tbl, r, v))
    requires se < 64 && k + r <= se && v != 0 && NBits(Abs(v)) <= 10
    ensures DecodeBand(c, tbl, b, k, se, al, Follow(c, CoefTokens(tbl, r, v), rest))
         == DecodeBand(c, tbl, b[k + r := Scale(v, al)], k + r + 1, se, al, rest)
  {
    var zs, pair := Zrls(tbl, r / 16), CoefPair(tbl, r % 16, v);
    CodableAppend(c, zs, pair);
    FollowAppend(c, zs, pair, rest);
    PairFollow(c, tbl, r % 16, v, rest);
    SkipZrls(c, tbl, r / 16, b, k, se, al, Follow(c, pair, rest));
    ReadOneCoef(c, tbl, r % 16, v, b, k + 16 * (r / 16), se, al, rest);
  }

  lemma PairFollow(c: Codec, tbl: nat, r: nat, v: int, rest: Bits)
    ensures Follow(c, CoefPair(tbl, r, v), rest)
         == TokenBits(c, Sym(tbl, 16 * r + NBits(Abs(v)))) + (MagnitudeBits(v) + rest)
    ensures AllCodable(c, CoefPair(tbl, r, v)) ==> Codable(c, Sym(tbl, 16 * r + NBits(Abs(v))))
  {
    var p := CoefPair(tbl, r, v);
    assert p[1..][0] == p[1] && p[1..][1..] == [];
    assert Follow(c, p[1..], rest) == MagnitudeBits(v) + rest;
  }

  /** Zero positions need no filling. */
  lemma FillZeros(b: Block, y: Block, al: nat, ss: nat, p: nat, q: nat)
    requires ss <= p <= q <= 64
    requires forall i :: p <= i < q ==> y[i] == 0 && b[i] == 0
    ensures Fill(b, y, al, ss, p) == Fill(b, y, al, ss, q)
  {
    ShlZero(al);
  }

  lemma FillNext(b: Block, y: Block, al: nat, ss: nat, k: nat)
    requires ss <= k < 64
    ensures Fill(b, y, al, ss, k)[k := Scale(y[k], al)] == Fill(b, y, al, ss, k + 1)
  {
  }

  /** Coder and decoder take one nonzero coefficient together. */
  lemma BandAdvance(c: Codec, tbl: nat, y: Block, b: Block, ss: nat, k: nat, se: nat, al: nat, r: nat, rest: Bits)
    requires k <= se < 64 && Sound(c) && AllCodable(c, BandTokens(tbl, y, k, se, r))
    requires ss + r <= k && y[k] != 0 && NBits(Abs(y[k])) <= 10
    ensures AllCodable(c, BandTokens(tbl, y, k + 1, se, 0))
    ensures DecodeBand(c, tbl, Fill(b, y, al, ss, k), k - r, se, al, Follow(c, BandTokens(tbl, y, k, se, r), rest))
         == DecodeBand(c, tbl, Fill(b, y, al, ss, k + 1), k + 1, se, al,
                       Follow(c, BandTokens(tbl, y, k + 1, se, 0), rest))
  {
    var now, later := CoefTokens(tbl, r, y[k]), BandTokens(tbl, y, k + 1, se, 0);
    FollowAppend(c, now, later, rest);
    CodableAppend(c, now, later);
    ReadCoef(c, tbl, r, y[k], Fill(b, y, al, ss, k), k - r, se, al, Follow(c, later, rest));
    FillNext(b, y, al, ss, k);
  }

  /** The band decoder follows the band coder to just past the last nonzero coefficient, with the
      whole band restored. `k - r` is where the decoder stands. */
  lemma {:induction false} BandRoundTrip(c: Codec, tbl: nat, y: Block, b: Block,
                                         ss: nat, k: nat, se: nat, al: nat, r: nat, rest: Bits)
    requires se < 64 && Sound(c) && AllCodable(c, BandTokens(tbl, y, k, se, r))
    requires ss + r <= k <= se + 1 && BandInRange(y, ss, se)
    requires forall i :: k - r <= i < k ==> y[i] == 0
    requires k - r == ss || y[k - r - 1] != 0
    requires forall i :: ss <= i <= se ==> b[i] == 0
    ensures DecodeBand(c, tbl, Fill(b, y, al, ss, k - r), k - r, se, al,
                       Follow(c, BandTokens(tbl, y, k, se, r), rest))
         == DecodeBand(c, tbl, Fill(b, y, al, ss, se + 1), TailStart(y, ss, se + 1), se, al, rest)
    decreases 64 - k
  {
    hide DecodeBand, AllCodable, Fill, Scale, Sound, CoefTokens;
    if k > se {
      assert TailStart(y, ss, se + 1) == k - r;
      FillZeros(b, y, al, ss, k - r, se + 1);
    } else if y[k] == 0 {
      BandRoundTrip(c, tbl, y, b, ss, k + 1, se, al, r + 1, rest);
    } else {
      FillZeros(b, y, al, ss, k - r, k);
      BandAdvance(c, tbl, y, b, ss, k, se, al, r, rest);
      BandRoundTrip(c, tbl, y, b, ss, k + 1, se, al, 0, rest);
    }
  }
}
