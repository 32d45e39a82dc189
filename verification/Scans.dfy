/** Whole scans: every kind of scan as a sequence of MCUs cut into restart intervals, coded to
    tokens and bytes and decoded back. */
module Scans {
  import opened Wrappers
  import opened BitStrings
  import opened EntropySegments
  import opened Coding
  import opened RunLength
  import opened AcRefinement
  import opened AcScans

  /** Table numbers of one component of a scan. */
  datatype Comp = Comp(dcTbl: nat, acTbl: nat)

  /** The kinds of scan: sequential, DC first and refinement, AC. `membership` gives the component
      (within the scan) of every block of an MCU. */
  datatype Mode =
    | Sequential(comps: seq<Comp>, membership: seq<nat>)
    | DcFirst(comps: seq<Comp>, membership: seq<nat>, al: nat)
    | DcRefine(comps: seq<Comp>, membership: seq<nat>, al: nat)
    | Ac(params: Params)
  {
    predicate Valid() {
      Ac? || forall j :: 0 <= j < |membership| ==> membership[j] < |comps|
    }

    function BlocksInMcu(): nat { if Ac? then 1 else |membership| }
  }

  type ScanMode = m: Mode | m.Valid() witness Sequential([], [])

  type Mcu = seq<Block>

  ghost predicate Shaped(mode: ScanMode, mcus: seq<Mcu>) {
    forall i :: 0 <= i < |mcus| ==> |mcus[i]| == mode.BlocksInMcu()
  }

  // ---------------------------------------------------------------- DC coding

  /** A DC difference: its category symbol and appended bits (section F.1.2.1). */
  function DiffTokens(tbl: nat, diff: int): seq<Token>
  {
    [Sym(tbl, NBits(Abs(diff)))] + (if diff != 0 then [Raw(MagnitudeBits(diff))] else [])
  }

  function DecodeDiff(c: Codec, tbl: nat, bits: Bits): Option<(int, Bits)>
  {
    match c.read(tbl, bits)
    case None => None
    case Some((s, rest)) =>
      if s == 0 then Some((0, rest))
      else match ReadBits(s, rest) {
        case None => None
        case Some((v, rest')) => Some((Extend(Val(v), s), rest'))
      }
  }

  lemma DiffRoundTrip(c: Codec, tbl: nat, diff: int, rest: Bits)
    requires Sound(c) && AllCodable(c, DiffTokens(tbl, diff))
    ensures DecodeDiff(c, tbl, Follow(c, DiffTokens(tbl, diff), rest)) == Some((diff, rest))
  {
    var ts := DiffTokens(tbl, diff);
    var sym := Sym(tbl, NBits(Abs(diff)));
    assert ts[0] == sym;
    if diff == 0 {
      assert ts[1..] == [];
      ReadSymbolToken(c, tbl, 0, rest);
    } else {
      assert ts[1..] == [Raw(MagnitudeBits(diff))] && ts[1..][1..] == [];
      assert Follow(c, ts[1..], rest) == MagnitudeBits(diff) + rest;
      ReadSymbolToken(c, tbl, sym.sym, MagnitudeBits(diff) + rest);
      ReadBitsToken(MagnitudeBits(diff), rest);
      ExtendMagnitude(diff);
    }
  }

  /** What a decoder knows of a DC coefficient once its bits down to `al` were sent: the point
      transform of DC coefficients is the arithmetic right shift. */
  function DcView(v: int, al: nat): int { Scale(Shr(v, al), al) }

  /** `v |= 1 << al`. */
  function OrBit(v: int, al: nat): int
  {
    if Shr(v, al) % 2 == 1 then v else v + Pow2(al)
  }

  lemma DcRefineView(v: int, al: nat)
    ensures (if Shr(v, al) % 2 == 1 then OrBit(DcView(v, al + 1), al) else DcView(v, al + 1)) == DcView(v, al)
  {
    hide Shl, Shr, Pow2;
    var m := Shr(v, al);
    var h := m / 2;
    ShiftNext(if h >= 0 then h else -h, v, al);
    ShlOne(al);
    ShlZero(al);
    if h >= 0 {
      ShlSum(h, h, al);
      ShlSum(2 * h, m % 2, al);
      ShrShl(2 * h, al);
    } else {
      ShlSum(-h, -h, al);
      ShrShl(-2 * h, al);
      if m % 2 == 1 {
        ShlSum(-m, 1, al);
      }
    }
  }

  // ---------------------------------------------------------------- one block of a DC or sequential scan

  function Sent(mode: ScanMode, z: Block): int
    requires !mode.Ac?
  {
    match mode
    case Sequential(_, _) => z[0]
    case DcFirst(_, _, al) => Shr(z[0], al)
    case DcRefine(_, _, al) => 0
  }

  /** A sequential block: the DC difference, the AC run-lengths, and the end-of-block symbol if
      the last coefficient is zero. */
  function SequentialTokens(dcTbl: nat, acTbl: nat, last: int, z: Block): seq<Token>
  {
    DiffTokens(dcTbl, z[0] - last) + (BandTokens(acTbl, z, 1, 63, 0) + (if z[63] == 0 then [Sym(acTbl, 0)] else []))
  }

  function DecodeSequential(c: Codec, dcTbl: nat, acTbl: nat, last: int, b: Block, bits: Bits)
    : Option<(Block, int, Bits)>
  {
    match DecodeDiff(c, dcTbl, bits)
    case None => None
    case Some((diff, rest)) =>
      match DecodeBand(c, acTbl, b[0 := last + diff], 1, 63, 0, rest) {
        case None => None
        case Some((b', _, rest')) => Some((b', last + diff, rest'))
      }
  }

  /** The tokens of one block of component `ci`, predicted from `last`. */
  function BlockCode(mode: ScanMode, ci: nat, last: int, z: Block): seq<Token>
    requires !mode.Ac? && ci < |mode.comps|
  {
    match mode
    case Sequential(comps, _) => SequentialTokens(comps[ci].dcTbl, comps[ci].acTbl, last, z)
    case DcFirst(comps, _, al) => DiffTokens(comps[ci].dcTbl, Shr(z[0], al) - last)
    case DcRefine(_, _, al) => [Raw([Shr(z[0], al) % 2 == 1])]
  }

  /** The coefficient limits: categories up to 11 for DC differences and 10 for AC coefficients. */
  predicate BlockOk(mode: ScanMode, last: int, z: Block)
    requires !mode.Ac?
  {
    && (!mode.DcRefine? ==> NBits(Abs(Sent(mode, z) - last)) <= 11)
    && (mode.Sequential? ==> BandInRange(z, 1, 63))
  }

  function DecodeOne(c: Codec, mode: ScanMode, ci: nat, last: int, b: Block, bits: Bits): Option<(Block, int, Bits)>
    requires !mode.Ac? && ci < |mode.comps|
  {
    match mode
    case Sequential(comps, _) => DecodeSequential(c, comps[ci].dcTbl, comps[ci].acTbl, last, b, bits)
    case DcFirst(comps, _, al) =>
      (match DecodeDiff(c, comps[ci].dcTbl, bits) {
        case None => None
        case Some((diff, rest)) => Some((b[0 := Scale(last + diff, al)], last + diff, rest))
      })
    case DcRefine(_, _, al) =>
      if bits == [] then None
      else Some((if bits[0] then b[0 := OrBit(b[0], al)] else b, last, bits[1..]))
  }

  /** What the decoder must hold before the block: zeros where a scan codes from scratch. */
  ghost predicate BlockBefore(mode: ScanMode, z: Block, b: Block)
    requires !mode.Ac?
  {
    mode.Sequential? ==> forall i :: 1 <= i < 64 ==> b[i] == 0
  }

  /** What it holds after: the whole block, the DC view, or the prior DC with one bit added. */
  function BlockAfter(mode: ScanMode, z: Block, b: Block): Block
    requires !mode.Ac?
  {
    match mode
    case Sequential(_, _) => z
    case DcFirst(_, _, al) => b[0 := DcView(z[0], al)]
    case DcRefine(_, _, al) => if Shr(z[0], al) % 2 == 1 then b[0 := OrBit(b[0], al)] else b
  }

  function LastAfter(mode: ScanMode, last: int, z: Block): int
    requires !mode.Ac?
  {
    if mode.DcRefine? then last else Sent(mode, z)
  }

  /** A sequential block's AC part, with its end-of-block symbol. */
  lemma SequentialBand(c: Codec, tbl: nat, z: Block, b: Block, rest: Bits)
    requires Sound(c) && BandInRange(z, 1, 63) && b[0] == z[0]
    requires forall i :: 1 <= i < 64 ==> b[i] == 0
    requires AllCodable(c, BandTokens(tbl, z, 1, 63, 0))
    requires z[63] == 0 ==> Codable(c, Sym(tbl, 0))
    ensures var bits := if z[63] == 0 then TokenBits(c, Sym(tbl, 0)) + rest else rest;
      var o := DecodeBand(c, tbl, b, 1, 63, 0, Follow(c, BandTokens(tbl, z, 1, 63, 0), bits));
      o.Some? && o.value.0 == z && o.value.2 == rest
  {
    hide AllCodable, BandTokens, Follow, BandInRange, Scale;
    var bits := if z[63] == 0 then TokenBits(c, Sym(tbl, 0)) + rest else rest;
    FillEnds(z, b);
    hide Fill;
    BandRoundTrip(c, tbl, z, b, 1, 1, 63, 0, 0, bits);
    if z[63] == 0 {
      ReadSymbolToken(c, tbl, 0, rest);
    }
  }

  lemma FillEnds(z: Block, b: Block)
    requires b[0] == z[0] && forall i :: 1 <= i < 64 ==> b[i] == 0
    ensures Fill(b, z, 0, 1, 1) == b && Fill(b, z, 0, 1, 64) == z
  {
  }

  lemma SequentialRoundTrip(c: Codec, dcTbl: nat, acTbl: nat, last: int, z: Block, b: Block, rest: Bits)
    requires Sound(c) && BandInRange(z, 1, 63) && forall i :: 1 <= i < 64 ==> b[i] == 0
    requires AllCodable(c, SequentialTokens(dcTbl, acTbl, last, z))
    ensures DecodeSequential(c, dcTbl, acTbl, last, b, Follow(c, SequentialTokens(dcTbl, acTbl, last, z), rest))
         == Some((z, z[0], rest))
  {
    hide DecodeBand, BandTokens, DiffTokens, DecodeDiff, BandInRange;
    var diff, band := DiffTokens(dcTbl, z[0] - last), BandTokens(acTbl, z, 1, 63, 0);
    var eob := if z[63] == 0 then [Sym(acTbl, 0)] else [];
    CodableAppend(c, diff, band + eob);
    CodableAppend(c, band, eob);
    FollowAppend(c, diff, band + eob, rest);
    FollowAppend(c, band, eob, rest);
    assert z[63] == 0 ==> eob[1..] == [];
    DiffRoundTrip(c, dcTbl, z[0] - last, Follow(c, band, Follow(c, eob, rest)));
    SequentialBand(c, acTbl, z, b[0 := z[0]], rest);
  }

  /** Decoding one block inverts coding it. */
  lemma BlockRoundTrip(c: Codec, mode: ScanMode, ci: nat, last: int, z: Block, b: Block, rest: Bits)
    requires !mode.Ac? && ci < |mode.comps| && Sound(c)
    requires BlockOk(mode, last, z) && BlockBefore(mode, z, b)
    requires AllCodable(c, BlockCode(mode, ci, last, z))
    ensures DecodeOne(c, mode, ci, last, b, Follow(c, BlockCode(mode, ci, last, z), rest))
         == Some((BlockAfter(mode, z, b), LastAfter(mode, last, z), rest))
  {
    match mode {
      case Sequential(comps, _) =>
        SequentialRoundTrip(c, comps[ci].dcTbl, comps[ci].acTbl, last, z, b, rest);
      case DcFirst(comps, _, al) =>
        DiffRoundTrip(c, comps[ci].dcTbl, Shr(z[0], al) - last, rest);
      case DcRefine(_, _, al) =>
        var bit := Shr(z[0], al) % 2 == 1;
        var ts := [Raw([bit])];
        assert ts[1..] == [];
        assert Follow(c, ts, rest) == [bit] + rest;
    }
  }

  // ---------------------------------------------------------------- MCUs and restart intervals

  /** Prediction state of the DC modes and pending run of the AC mode. */
  datatype Coder = Coder(last: seq<int>, pending: Pending)

  function FreshCoder(mode: ScanMode): Coder
  {
    Coder(if mode.Ac? then [] else seq(|mode.comps|, _ => 0), NOTHING)
  }

  predicate Fitting(mode: ScanMode, st: Coder)
  {
    mode.Ac? || |st.last| == |mode.comps|
  }

  /** Blocks `j` on of an MCU, in a DC or sequential scan. */
  function BlocksCode(mode: ScanMode, last: seq<int>, mcu: Mcu, j: nat): seq<Token>
    requires !mode.Ac? && |last| == |mode.comps| && j <= |mcu| == |mode.membership|
    decreases |mcu| - j
  {
    if j == |mcu| then []
    else
      var ci := mode.membership[j];
      BlockCode(mode, ci, last[ci], mcu[j])
        + BlocksCode(mode, last[ci := LastAfter(mode, last[ci], mcu[j])], mcu, j + 1)
  }

  function BlocksLast(mode: ScanMode, last: seq<int>, mcu: Mcu, j: nat): (r: seq<int>)
    requires !mode.Ac? && |last| == |mode.comps| && j <= |mcu| == |mode.membership|
    ensures |r| == |last|
    decreases |mcu| - j
  {
    if j == |mcu| then last
    else
      var ci := mode.membership[j];
      BlocksLast(mode, last[ci := LastAfter(mode, last[ci], mcu[j])], mcu, j + 1)
  }

  predicate BlocksOk(mode: ScanMode, last: seq<int>, mcu: Mcu, j: nat)
    requires !mode.Ac? && |last| == |mode.comps| && j <= |mcu| == |mode.membership|
    decreases |mcu| - j
  {
    j == |mcu| ||
    var ci := mode.membership[j];
    && BlockOk(mode, last[ci], mcu[j])
    && BlocksOk(mode, last[ci := LastAfter(mode, last[ci], mcu[j])], mcu, j + 1)
  }

  /** Past the last block nothing is left to code, and the predictions stay. */
  lemma BlocksDone(mode: ScanMode, last: seq<int>, mcu: Mcu, ts: seq<Token>)
    requires !mode.Ac? && |last| == |mode.comps| && |mcu| == |mode.membership|
    ensures ts + BlocksCode(mode, last, mcu, |mcu|) == ts
    ensures BlocksLast(mode, last, mcu, |mcu|) == last && BlocksOk(mode, last, mcu, |mcu|)
  {
  }

  function McuTokens(mode: ScanMode, st: Coder, mcu: Mcu): seq<Token>
    requires |mcu| == mode.BlocksInMcu() && Fitting(mode, st)
  {
    if mode.Ac? then BlockTokens(mode.params, st.pending, mcu[0]) else BlocksCode(mode, st.last, mcu, 0)
  }

  function McuState(mode: ScanMode, st: Coder, mcu: Mcu): (r: Coder)
    requires |mcu| == mode.BlocksInMcu() && Fitting(mode, st)
    ensures Fitting(mode, r)
  {
    if mode.Ac? then st.(pending := BlockPending(mode.params, st.pending, mcu[0]))
    else st.(last := BlocksLast(mode, st.last, mcu, 0))
  }

  /** Every coefficient of the MCU is within the limits the coder checks. */
  predicate McuOk(mode: ScanMode, st: Coder, mcu: Mcu)
    requires |mcu| == mode.BlocksInMcu() && Fitting(mode, st)
  {
    if mode.Ac? then BlockInRange(mode.params, mcu[0]) else BlocksOk(mode, st.last, mcu, 0)
  }

  /** What is still owed when a restart interval ends: the pending run. */
  function FlushTokens(mode: ScanMode, st: Coder): seq<Token>
  {
    if mode.Ac? then EobTokens(mode.params.tbl, st.pending) else []
  }

  /** A restart interval from state `st` on, with its final flush. */
  function IntervalFrom(mode: ScanMode, st: Coder, mcus: seq<Mcu>): seq<Token>
    requires Shaped(mode, mcus) && Fitting(mode, st)
    decreases |mcus|
  {
    if mcus == [] then FlushTokens(mode, st)
    else McuTokens(mode, st, mcus[0]) + IntervalFrom(mode, McuState(mode, st, mcus[0]), mcus[1..])
  }

  predicate IntervalOk(mode: ScanMode, st: Coder, mcus: seq<Mcu>)
    requires Shaped(mode, mcus) && Fitting(mode, st)
    decreases |mcus|
  {
    mcus == [] || (McuOk(mode, st, mcus[0]) && IntervalOk(mode, McuState(mode, st, mcus[0]), mcus[1..]))
  }

  function IntervalTokens(mode: ScanMode, mcus: seq<Mcu>): seq<Token>
    requires Shaped(mode, mcus)
  {
    IntervalFrom(mode, FreshCoder(mode), mcus)
  }

  // ---------------------------------------------------------------- decoding intervals

  function DecodeMcu(c: Codec, mode: ScanMode, last: seq<int>, prior: Mcu, j: nat, bits: Bits)
    : (o: Option<(Mcu, seq<int>, Bits)>)
    requires !mode.Ac? && |last| == |mode.comps| && j <= |prior| == |mode.membership|
    ensures o.Some? ==> |o.value.1| == |last|
    decreases |prior| - j
  {
    if j == |prior| then Some(([], last, bits))
    else
      var ci := mode.membership[j];
      match DecodeOne(c, mode, ci, last[ci], prior[j], bits) {
        case None => None
        case Some((b, l, rest)) =>
          match DecodeMcu(c, mode, last[ci := l], prior, j + 1, rest) {
            case None => None
            case Some((bs, last', rest')) => Some(([b] + bs, last', rest'))
          }
      }
  }

  function DecodeMcus(c: Codec, mode: ScanMode, last: seq<int>, priors: seq<Mcu>, bits: Bits): Option<(seq<Mcu>, Bits)>
    requires !mode.Ac? && |last| == |mode.comps| && Shaped(mode, priors)
    decreases |priors|
  {
    if priors == [] then Some(([], bits))
    else match DecodeMcu(c, mode, last, priors[0], 0, bits) {
      case None => None
      case Some((m, last', rest)) =>
        match DecodeMcus(c, mode, last', priors[1..], rest) {
          case None => None
          case Some((ms, rest')) => Some(([m] + ms, rest'))
        }
    }
  }

  /** The first blocks of single-block MCUs, and back. */
  function Singles(mcus: seq<Mcu>): seq<Block>
    requires forall i :: 0 <= i < |mcus| ==> |mcus[i]| == 1
  {
    seq(|mcus|, i requires 0 <= i < |mcus| => mcus[i][0])
  }

  function AsMcus(bs: seq<Block>): seq<Mcu>
  {
    seq(|bs|, i requires 0 <= i < |bs| => [bs[i]])
  }

  /** A decoder starts every interval with predictions 0 and no run owed. */
  function DecodeInterval(c: Codec, mode: ScanMode, priors: seq<Mcu>, bits: Bits): Option<(seq<Mcu>, Bits)>
    requires Shaped(mode, priors)
  {
    if mode.Ac? then
      match DecodeBlocks(c, mode.params, 0, Singles(priors), bits) {
        case None => None
        case Some((bs, rest)) => Some((AsMcus(bs), rest))
      }
    else DecodeMcus(c, mode, seq(|mode.comps|, _ => 0), priors, bits)
  }

  ghost predicate McuBefore(mode: ScanMode, mcu: Mcu, prior: Mcu)
  {
    && |mcu| == |prior| == mode.BlocksInMcu()
    && forall j :: 0 <= j < |mcu| ==>
         if mode.Ac? then Before(mode.params, mcu[j], prior[j]) else BlockBefore(mode, mcu[j], prior[j])
  }

  ghost predicate McusBefore(mode: ScanMode, mcus: seq<Mcu>, priors: seq<Mcu>)
  {
    |mcus| == |priors| && forall i :: 0 <= i < |mcus| ==> McuBefore(mode, mcus[i], priors[i])
  }

  function McuAfter(mode: ScanMode, mcu: Mcu, prior: Mcu): Mcu
    requires |mcu| == |prior|
  {
    seq(|mcu|, j requires 0 <= j < |mcu| =>
      if mode.Ac? then After(mode.params, mcu[j], prior[j]) else BlockAfter(mode, mcu[j], prior[j]))
  }

  function McusAfter(mode: ScanMode, mcus: seq<Mcu>, priors: seq<Mcu>): seq<Mcu>
    requires |mcus| == |priors| && forall i :: 0 <= i < |mcus| ==> |mcus[i]| == |priors[i]|
  {
    seq(|mcus|, i requires 0 <= i < |mcus| => McuAfter(mode, mcus[i], priors[i]))
  }

  lemma DecodeMcuStep(c: Codec, mode: ScanMode, last: seq<int>, prior: Mcu, j: nat, bits: Bits,
                      b: Block, l: int, rest: Bits, bs: Mcu, last': seq<int>, rest': Bits)
    requires !mode.Ac? && |last| == |mode.comps| && j < |prior| == |mode.membership|
    requires DecodeOne(c, mode, mode.membership[j], last[mode.membership[j]], prior[j], bits) == Some((b, l, rest))
    requires DecodeMcu(c, mode, last[mode.membership[j] := l], prior, j + 1, rest) == Some((bs, last', rest'))
    ensures DecodeMcu(c, mode, last, prior, j, bits) == Some(([b] + bs, last', rest'))
  {
  }

  lemma BlocksCodeStep(c: Codec, mode: ScanMode, last: seq<int>, mcu: Mcu, j: nat, rest: Bits)
    requires !mode.Ac? && |last| == |mode.comps| && j < |mcu| == |mode.membership|
    ensures var ci := mode.membership[j];
      var last' := last[ci := LastAfter(mode, last[ci], mcu[j])];
      var now, later := BlockCode(mode, ci, last[ci], mcu[j]), BlocksCode(mode, last', mcu, j + 1);
      && Follow(c, BlocksCode(mode, last, mcu, j), rest) == Follow(c, now, Follow(c, later, rest))
      && (AllCodable(c, BlocksCode(mode, last, mcu, j)) <==> AllCodable(c, now) && AllCodable(c, later))
      && BlocksLast(mode, last, mcu, j) == BlocksLast(mode, last', mcu, j + 1)
      && (BlocksOk(mode, last, mcu, j) <==> BlockOk(mode, last[ci], mcu[j]) && BlocksOk(mode, last', mcu, j + 1))
  {
    var ci := mode.membership[j];
    var last' := last[ci := LastAfter(mode, last[ci], mcu[j])];
    var now, later := BlockCode(mode, ci, last[ci], mcu[j]), BlocksCode(mode, last', mcu, j + 1);
    CodableAppend(c, now, later);
    FollowAppend(c, now, later, rest);
  }

  lemma McuAfterStep(mode: ScanMode, mcu: Mcu, prior: Mcu, j: nat)
    requires !mode.Ac? && |mcu| == |prior| && j < |mcu|
    ensures McuAfter(mode, mcu, prior)[j..] == [BlockAfter(mode, mcu[j], prior[j])]
        + McuAfter(mode, mcu, prior)[j + 1..]
  {
  }

  lemma {:induction false} McuRoundTrip(c: Codec, mode: ScanMode, last: seq<int>, mcu: Mcu, prior: Mcu, j: nat,
                                        rest: Bits)
    requires !mode.Ac? && |last| == |mode.comps| && j <= |mcu| && Sound(c)
    requires McuBefore(mode, mcu, prior) && BlocksOk(mode, last, mcu, j)
    requires AllCodable(c, BlocksCode(mode, last, mcu, j))
    ensures DecodeMcu(c, mode, last, prior, j, Follow(c, BlocksCode(mode, last, mcu, j), rest))
         == Some((McuAfter(mode, mcu, prior)[j..], BlocksLast(mode, last, mcu, j), rest))
    decreases |mcu| - j
  {
    hide DecodeOne, BlockCode, BlockAfter, BlockOk, LastAfter, AllCodable;
    if j < |mcu| {
      var ci := mode.membership[j];
      var l := LastAfter(mode, last[ci], mcu[j]);
      var more := Follow(c, BlocksCode(mode, last[ci := l], mcu, j + 1), rest);
      BlocksCodeStep(c, mode, last, mcu, j, rest);
      BlockRoundTrip(c, mode, ci, last[ci], mcu[j], prior[j], more);
      McuRoundTrip(c, mode, last[ci := l], mcu, prior, j + 1, rest);
      DecodeMcuStep(c, mode, last, prior, j, Follow(c, BlocksCode(mode, last, mcu, j), rest),
                    BlockAfter(mode, mcu[j], prior[j]), l, more,
                    McuAfter(mode, mcu, prior)[j + 1..], BlocksLast(mode, last, mcu, j), rest);
      McuAfterStep(mode, mcu, prior, j);
    } else {
      assert McuAfter(mode, mcu, prior)[j..] == [];
    }
  }

  lemma DecodeMcusStep(c: Codec, mode: ScanMode, last: seq<int>, priors: seq<Mcu>, bits: Bits,
                       m: Mcu, last': seq<int>, rest: Bits, ms: seq<Mcu>, rest': Bits)
    requires !mode.Ac? && |last| == |last'| == |mode.comps| && Shaped(mode, priors) && priors != []
    requires DecodeMcu(c, mode, last, priors[0], 0, bits) == Some((m, last', rest))
    requires DecodeMcus(c, mode, last', priors[1..], rest) == Some((ms, rest'))
    ensures DecodeMcus(c, mode, last, priors, bits) == Some(([m] + ms, rest'))
  {
  }

  lemma IntervalStep(c: Codec, mode: ScanMode, st: Coder, mcus: seq<Mcu>, rest: Bits)
    requires Shaped(mode, mcus) && Fitting(mode, st) && mcus != []
    ensures var now, later := McuTokens(mode, st, mcus[0]), IntervalFrom(mode, McuState(mode, st, mcus[0]), mcus[1..]);
      && Follow(c, IntervalFrom(mode, st, mcus), rest) == Follow(c, now, Follow(c, later, rest))
      && (AllCodable(c, IntervalFrom(mode, st, mcus)) <==> AllCodable(c, now) && AllCodable(c, later))
  {
    var now, later := McuTokens(mode, st, mcus[0]), IntervalFrom(mode, McuState(mode, st, mcus[0]), mcus[1..]);
    CodableAppend(c, now, later);
    FollowAppend(c, now, later, rest);
  }

  lemma McusAfterStep(mode: ScanMode, mcus: seq<Mcu>, priors: seq<Mcu>)
    requires McusBefore(mode, mcus, priors) && mcus != []
    ensures |mcus[0]| == |priors[0]|
    ensures McusBefore(mode, mcus[1..], priors[1..])
    ensures McusAfter(mode, mcus, priors)
         == [McuAfter(mode, mcus[0], priors[0])] + McusAfter(mode, mcus[1..], priors[1..])
  {
    assert McuBefore(mode, mcus[0], priors[0]);
  }

  lemma {:induction false} McusRoundTrip(c: Codec, mode: ScanMode, st: Coder, mcus: seq<Mcu>, priors: seq<Mcu>,
                                         rest: Bits)
    requires !mode.Ac? && Fitting(mode, st) && Sound(c) && McusBefore(mode, mcus, priors) && Shaped(mode, priors)
    requires Shaped(mode, mcus) && IntervalOk(mode, st, mcus) && AllCodable(c, IntervalFrom(mode, st, mcus))
    ensures DecodeMcus(c, mode, st.last, priors, Follow(c, IntervalFrom(mode, st, mcus), rest))
         == Some((McusAfter(mode, mcus, priors), rest))
    decreases |mcus|
  {
    if mcus != [] {
      var st' := McuState(mode, st, mcus[0]);
      var more := Follow(c, IntervalFrom(mode, st', mcus[1..]), rest);
      IntervalStep(c, mode, st, mcus, rest);
      McusAfterStep(mode, mcus, priors);
      McuRoundTrip(c, mode, st.last, mcus[0], priors[0], 0, more);
      McusRoundTrip(c, mode, st', mcus[1..], priors[1..], rest);
      assert McuAfter(mode, mcus[0], priors[0])[0..] == McuAfter(mode, mcus[0], priors[0]);
      DecodeMcusStep(c, mode, st.last, priors, Follow(c, IntervalFrom(mode, st, mcus), rest),
                     McuAfter(mode, mcus[0], priors[0]), st'.last, more,
                     McusAfter(mode, mcus[1..], priors[1..]), rest);
    } else {
      assert McusAfter(mode, mcus, priors) == [];
    }
  }

  lemma SinglesStep(mcus: seq<Mcu>)
    requires mcus != [] && forall i :: 0 <= i < |mcus| ==> |mcus[i]| == 1
    ensures Singles(mcus)[0] == mcus[0][0] && Singles(mcus)[1..] == Singles(mcus[1..])
  {
  }

  lemma InRangeStep(m: Params, zs: seq<Block>)
    requires zs != []
    ensures AllInRange(m, zs) <==> BlockInRange(m, zs[0]) && AllInRange(m, zs[1..])
  {
    if BlockInRange(m, zs[0]) && AllInRange(m, zs[1..]) {
      forall i | 0 <= i < |zs| ensures BlockInRange(m, zs[i]) {
        assert i > 0 ==> zs[i] == zs[1..][i - 1];
      }
    }
  }

  /** In an AC scan an interval is a run of blocks. */
  lemma {:induction false} IntervalIsRun(mode: ScanMode, st: Coder, mcus: seq<Mcu>)
    requires mode.Ac? && Shaped(mode, mcus)
    ensures IntervalFrom(mode, st, mcus) == RunTokens(mode.params, st.pending, Singles(mcus))
    ensures IntervalOk(mode, st, mcus) <==> AllInRange(mode.params, Singles(mcus))
    decreases |mcus|
  {
    if mcus != [] {
      SinglesStep(mcus);
      InRangeStep(mode.params, Singles(mcus));
      IntervalIsRun(mode, McuState(mode, st, mcus[0]), mcus[1..]);
    }
  }

  lemma {:induction false} AfterAllAt(m: Params, zs: seq<Block>, bs: seq<Block>, i: nat)
    requires |zs| == |bs| && i < |zs|
    ensures |AfterAll(m, zs, bs)| == |zs| && AfterAll(m, zs, bs)[i] == After(m, zs[i], bs[i])
  {
    if i > 0 {
      AfterAllAt(m, zs[1..], bs[1..], i - 1);
    } else if |zs| > 1 {
      AfterAllAt(m, zs[1..], bs[1..], 0);
    }
  }

  lemma FirstBefore(mode: ScanMode, mcu: Mcu, prior: Mcu)
    requires mode.Ac? && McuBefore(mode, mcu, prior)
    ensures |mcu| == |prior| == 1 && Before(mode.params, mcu[0], prior[0])
    ensures McuAfter(mode, mcu, prior) == [After(mode.params, mcu[0], prior[0])]
  {
    hide Before, After;
  }

  /** Decoding a restart interval inverts coding it, in every kind of scan. */
  lemma IntervalRoundTrip(c: Codec, mode: ScanMode, mcus: seq<Mcu>, priors: seq<Mcu>, rest: Bits)
    requires Sound(c) && Shaped(mode, mcus) && Shaped(mode, priors) && McusBefore(mode, mcus, priors)
    requires IntervalOk(mode, FreshCoder(mode), mcus) && AllCodable(c, IntervalTokens(mode, mcus))
    ensures DecodeInterval(c, mode, priors, Follow(c, IntervalTokens(mode, mcus), rest))
         == Some((McusAfter(mode, mcus, priors), rest))
  {
    hide McuBefore, After, Before;
    if mode.Ac? {
      IntervalIsRun(mode, FreshCoder(mode), mcus);
      var zs, bs := Singles(mcus), Singles(priors);
      forall i | 0 <= i < |zs| ensures Before(mode.params, zs[i], bs[i]) {
        assert McuBefore(mode, mcus[i], priors[i]);
        FirstBefore(mode, mcus[i], priors[i]);
      }
      var _, _ := RunRoundTrip(c, mode.params, NOTHING, zs, bs, rest);
      forall i | 0 <= i < |zs|
        ensures |AfterAll(mode.params, zs, bs)| == |zs|
        ensures AsMcus(AfterAll(mode.params, zs, bs))[i] == McuAfter(mode, mcus[i], priors[i])
      {
        AfterAllAt(mode.params, zs, bs, i);
        assert McuBefore(mode, mcus[i], priors[i]);
        FirstBefore(mode, mcus[i], priors[i]);
      }
      assert AsMcus(AfterAll(mode.params, zs, bs)) == McusAfter(mode, mcus, priors);
    } else {
      assert FreshCoder(mode).last == seq(|mode.comps|, _ => 0);
      McusRoundTrip(c, mode, FreshCoder(mode), mcus, priors, rest);
    }
  }
}
