/** Progressive AC scans: one band of one component, block after block, with end-of-band runs that
    span blocks and correction bits that wait for them (sections G.1.2.2, G.1.2.3 and G.2 of
    ITU-T T.81). */
module AcScans {
  import opened Wrappers
  import opened BitStrings
  import opened JpegLimits
  import opened Coding
  import opened RunLength
  import opened AcRefinement

  /** The parameters of an AC scan. */
  datatype AcParams = AcParams(refine: bool, tbl: nat, ss: nat, se: nat, al: nat) {
    predicate Valid() { 1 <= ss <= se < 64 }
  }

  type Params = m: AcParams | m.Valid() witness AcParams(false, 0, 1, 1, 0)

  /** The band after the point transform. */
  function Transformed(z: Block, al: nat): Block
  {
    seq(64, i requires 0 <= i < 64 => Trunc(z[i], al))
  }

  // ---------------------------------------------------------------- the coder

  /** What one block contributes: its own symbols, and the correction bits left to the end-of-band
      run if the block does not end with a symbol. */
  datatype Coded = Coded(syms: seq<Token>, tail: Option<Bits>)

  function CodeBlock(m: Params, z: Block): Coded
  {
    if m.refine then
      var eob := LastNew(z, m.al, m.ss, m.se + 1);
      Coded(if eob == 0 then [] else RefineTokens(m.tbl, z, m.al, m.ss, eob, 0, []),
            if eob == m.se then None
            else Some(CorrBits(z, m.al, if eob == 0 then m.ss else eob + 1, m.se + 1)))
    else
      var y := Transformed(z, m.al);
      Coded(BandTokens(m.tbl, y, m.ss, m.se, 0), if y[m.se] != 0 then None else Some([]))
  }

  /** Magnitudes the first scan of a band can code; refinement scans have no limit. */
  predicate BlockInRange(m: Params, z: Block)
  {
    m.refine || BandInRange(Transformed(z, m.al), m.ss, m.se)
  }

  /** EOBRUN, and the correction bits buffered with it. */
  datatype Pending = Pending(eobrun: nat, corr: Bits)

  const NOTHING := Pending(0, [])
  const MAX_EOBRUN := 0x7FFF
  const MAX_CORR_BITS := 1000

  /** The run symbol of `n` end-of-bands, with its appended bits. */
  function EobHead(tbl: nat, n: nat): seq<Token>
    requires n > 0
  {
    var nb := NBits(n) - 1;
    [Sym(tbl, 16 * nb)] + (if nb > 0 then [Raw(BitsOf(n, nb))] else [])
  }

  function EobTokens(tbl: nat, p: Pending): seq<Token>
  {
    if p.eobrun == 0 then [] else EobHead(tbl, p.eobrun) + RawEach(p.corr)
  }

  /** The run must be forced out: its counter is full, or the next block might overflow the buffer. */
  predicate Forced(p: Pending)
  {
    p.eobrun == MAX_EOBRUN || |p.corr| > MAX_CORR_BITS - DCTSIZE2 + 1
  }

  /** The state once a block's own symbols are out. */
  function AfterSyms(p: Pending, cd: Coded): Pending
  {
    if cd.syms == [] then p else NOTHING
  }

  /** The state once a block's tail has joined the pending run. */
  function Joined(p: Pending, corr: Bits): Pending
  {
    Pending(p.eobrun + 1, p.corr + corr)
  }

  function BlockTokens(m: Params, p: Pending, z: Block): seq<Token>
  {
    var cd := CodeBlock(m, z);
    var p0 := AfterSyms(p, cd);
    (if cd.syms == [] then [] else EobTokens(m.tbl, p) + cd.syms) +
    (if cd.tail.Some? && Forced(Joined(p0, cd.tail.value)) then EobTokens(m.tbl, Joined(p0, cd.tail.value)) else [])
  }

  function BlockPending(m: Params, p: Pending, z: Block): Pending
  {
    var cd := CodeBlock(m, z);
    var p0 := AfterSyms(p, cd);
    if cd.tail.None? then p0
    else if Forced(Joined(p0, cd.tail.value)) then NOTHING
    else Joined(p0, cd.tail.value)
  }

  /** All blocks up to a restart or the end of the scan, where the pending run is flushed. */
  function RunTokens(m: Params, p: Pending, zs: seq<Block>): seq<Token>
    decreases |zs|
  {
    if zs == [] then EobTokens(m.tbl, p)
    else BlockTokens(m, p, zs[0]) + RunTokens(m, BlockPending(m, p, zs[0]), zs[1..])
  }

  // ---------------------------------------------------------------- the decoder

  /** One block, given the end-of-bands still owed from an earlier run. */
  function DecodeBlock(c: Codec, m: Params, owed: nat, b: Block, bits: Bits): Option<(Block, nat, Bits)>
  {
    if owed > 0 then FinishBlock(m, b, m.ss, owed, bits)
    else if m.refine then
      match DecodeRefine(c, m.tbl, b, m.ss, m.se, m.al, bits) {
        case None => None
        case Some((b', k, eob, rest)) => AfterSymbols(m, b', k, eob, rest)
      }
    else
      match DecodeBand(c, m.tbl, b, m.ss, m.se, m.al, bits) {
        case None => None
        case Some((b', eob, rest)) => AfterSymbols(m, b', m.se + 1, eob, rest)
      }
  }

  /** The symbols of a block are read; `eob` is the exponent of the run symbol that ended it. */
  function AfterSymbols(m: Params, b: Block, k: nat, eob: Option<nat>, bits: Bits): Option<(Block, nat, Bits)>
  {
    if eob.None? then Some((b, 0, bits))
    else match ReadBits(eob.value, bits) {
      case None => None
      case Some((v, rest)) => FinishBlock(m, b, k, Pow2(eob.value) + Val(v), rest)
    }
  }

  /** The rest of a block inside an end-of-band run of `run` blocks: only corrections. */
  function FinishBlock(m: Params, b: Block, k: nat, run: nat, bits: Bits): Option<(Block, nat, Bits)>
    requires run > 0
  {
    if !m.refine then Some((b, run - 1, bits))
    else match CorrectRest(b, k, m.se, m.al, bits) {
      case None => None
      case Some((b', rest)) => Some((b', run - 1, rest))
    }
  }

  function DecodeBlocks(c: Codec, m: Params, owed: nat, bs: seq<Block>, bits: Bits): Option<(seq<Block>, Bits)>
    decreases |bs|
  {
    if bs == [] then Some(([], bits))
    else match DecodeBlock(c, m, owed, bs[0], bits) {
      case None => None
      case Some((b, owed', rest)) =>
        match DecodeBlocks(c, m, owed', bs[1..], rest) {
          case None => None
          case Some((bs', rest')) => Some(([b] + bs', rest'))
        }
    }
  }

  // ---------------------------------------------------------------- before and after

  /** What earlier scans left in the band: nothing, or the coefficients without the bit now sent. */
  ghost predicate Before(m: Params, z: Block, b: Block)
  {
    if m.refine then Knows(b, z, m.al + 1, m.ss, m.se)
    else forall i :: m.ss <= i <= m.se ==> b[i] == 0
  }

  /** The block with its band known down to bit position `al`. */
  function After(m: Params, z: Block, b: Block): Block
  {
    Merge(b, z, m.al, m.ss, m.se + 1)
  }

  lemma FillIsMerge(m: Params, z: Block, b: Block, t: nat)
    ensures Fill(b, Transformed(z, m.al), m.al, m.ss, t) == Merge(b, z, m.al, m.ss, t)
  {
  }

  // ---------------------------------------------------------------- one block, three ways

  /** The run symbol is read back with its exponent, and then with its bits. */
  lemma EobHeadReads(c: Codec, tbl: nat, n: nat, rest: Bits)
    requires Sound(c) && 0 < n <= MAX_EOBRUN && AllCodable(c, EobHead(tbl, n))
    ensures NBits(n) - 1 < 15
    ensures c.read(tbl, Follow(c, EobHead(tbl, n), rest)) == Some((16 * (NBits(n) - 1), BitsOf(n, NBits(n) - 1) + rest))
    ensures Pow2(NBits(n) - 1) + Val(BitsOf(n, NBits(n) - 1)) == n
  {
    NBitsBounds(n);
    var nb := NBits(n) - 1;
    NBitsAtMost(n, 15);
    assert Pow2(15) == 0x8000 by { assert Pow2(5) == 32; assert Pow2(10) == 1024; }
    LowBits(n, nb);
    var ts := EobHead(tbl, n);
    assert ts[0] == Sym(tbl, 16 * nb);
    if nb > 0 {
      assert ts[1..] == [Raw(BitsOf(n, nb))];
      assert ts[1..][1..] == [];
      assert Follow(c, ts[1..], rest) == BitsOf(n, nb) + rest;
    } else {
      assert ts[1..] == [];
      assert Follow(c, ts[1..], rest) == BitsOf(n, nb) + rest;
    }
    ReadSymbolToken(c, tbl, 16 * nb, BitsOf(n, nb) + rest);
  }

  lemma {:induction false} LowBits(n: nat, nb: nat)
    requires Pow2(nb) <= n < 2 * Pow2(nb)
    ensures Pow2(nb) + Val(BitsOf(n, nb)) == n
  {
    if nb != 0 {
      LowBits(n / 2, nb - 1);
      var s := BitsOf(n, nb);
      assert s[..|s| - 1] == BitsOf(n / 2, nb - 1);
    }
  }

  /** Where the symbols of a block leave the decoder. */
  function SymsEnd(m: Params, z: Block): (t: nat)
    ensures m.ss <= t <= m.se + 1
    ensures CodeBlock(m, z).tail.Some? <==> t <= m.se
  {
    if m.refine then
      var eob := LastNew(z, m.al, m.ss, m.se + 1);
      if eob == 0 then m.ss else eob + 1
    else TailStart(Transformed(z, m.al), m.ss, m.se + 1)
  }

  lemma MergeNothing(b: Block, z: Block, al: nat, ss: nat)
    ensures Merge(b, z, al, ss, ss) == b
  {
  }

  lemma NoRun(z: Block, al: nat, s: nat)
    requires s <= 64
    ensures RunState(z, al, s, s, 0, [])
  {
  }

  lemma RefineSymbolsRead(c: Codec, m: Params, z: Block, b: Block, rest: Bits)
    requires Sound(c) && m.refine && Before(m, z, b)
    requires AllCodable(c, CodeBlock(m, z).syms)
    ensures DecodeRefine(c, m.tbl, b, m.ss, m.se, m.al, Follow(c, CodeBlock(m, z).syms, rest))
         == DecodeRefine(c, m.tbl, Merge(b, z, m.al, m.ss, SymsEnd(m, z)), SymsEnd(m, z), m.se, m.al, rest)
  {
    hide DecodeRefine, RefineTokens, Knows, Merge, Mag, AllCodable, Sound, CorrBits;
    MergeNothing(b, z, m.al, m.ss);
    NoRun(z, m.al, m.ss);
    var eob := LastNew(z, m.al, m.ss, m.se + 1);
    if eob != 0 {
      RefineRoundTrip(c, m.tbl, b, z, m.al, m.ss, m.ss, m.ss, eob, m.se, 0, [], rest);
    }
  }

  lemma FirstSymbolsRead(c: Codec, m: Params, z: Block, b: Block, rest: Bits)
    requires Sound(c) && !m.refine && Before(m, z, b) && BlockInRange(m, z)
    requires AllCodable(c, CodeBlock(m, z).syms)
    ensures DecodeBand(c, m.tbl, b, m.ss, m.se, m.al, Follow(c, CodeBlock(m, z).syms, rest))
         == DecodeBand(c, m.tbl, After(m, z, b), SymsEnd(m, z), m.se, m.al, rest)
  {
    var y := Transformed(z, m.al);
    FillIsMerge(m, z, b, m.ss);
    assert Merge(b, z, m.al, m.ss, m.ss) == b;
    BandRoundTrip(c, m.tbl, y, b, m.ss, m.ss, m.se, m.al, 0, rest);
    FillIsMerge(m, z, b, m.se + 1);
  }

  /** A block without tail: its symbols complete it. */
  lemma BlockNoTail(c: Codec, m: Params, z: Block, b: Block, rest: Bits)
    requires Sound(c) && Before(m, z, b) && BlockInRange(m, z)
    requires CodeBlock(m, z).tail.None? && AllCodable(c, CodeBlock(m, z).syms)
    ensures DecodeBlock(c, m, 0, b, Follow(c, CodeBlock(m, z).syms, rest)) == Some((After(m, z, b), 0, rest))
  {
    assert SymsEnd(m, z) == m.se + 1;
    if m.refine {
      RefineSymbolsRead(c, m, z, b, rest);
    } else {
      FirstSymbolsRead(c, m, z, b, rest);
    }
  }

  /** What is left of a block inside a run: its correction bits. */
  lemma TailRead(m: Params, z: Block, b: Block, run: nat, rest: Bits)
    requires Before(m, z, b) && CodeBlock(m, z).tail.Some? && run > 0
    ensures m.refine ==>
      FinishBlock(m, Merge(b, z, m.al, m.ss, SymsEnd(m, z)), SymsEnd(m, z), run, CodeBlock(m, z).tail.value + rest)
      == Some((After(m, z, b), run - 1, rest))
    ensures !m.refine ==>
      FinishBlock(m, After(m, z, b), m.se + 1, run, CodeBlock(m, z).tail.value + rest)
      == Some((After(m, z, b), run - 1, rest))
  {
    if m.refine {
      CorrectTail(b, z, m.al, m.ss, SymsEnd(m, z), m.se, rest);
    } else {
      assert CodeBlock(m, z).tail.value + rest == rest;
    }
  }

  lemma EobEndsRefine(c: Codec, m: Params, b: Block, k: nat, nb: nat, bits: Bits, rest: Bits)
    requires m.refine && k <= m.se && nb < 15 && c.read(m.tbl, bits) == Some((16 * nb, rest))
    ensures DecodeRefine(c, m.tbl, b, k, m.se, m.al, bits) == Some((b, k, Some(nb), rest))
  {
    assert 16 * nb / 16 == nb && 16 * nb % 16 == 0;
  }

  lemma EobEndsBand(c: Codec, m: Params, b: Block, k: nat, nb: nat, bits: Bits, rest: Bits)
    requires !m.refine && k <= m.se && nb < 15 && c.read(m.tbl, bits) == Some((16 * nb, rest))
    ensures DecodeBand(c, m.tbl, b, k, m.se, m.al, bits) == Some((b, Some(nb), rest))
  {
    assert 16 * nb / 16 == nb && 16 * nb % 16 == 0;
  }

  /** A block that ends in a run of `n`: its symbols, the run symbol, and its corrections. */
  lemma BlockStartsRun(c: Codec, m: Params, z: Block, b: Block, n: nat, rest: Bits)
    requires Sound(c) && Before(m, z, b) && BlockInRange(m, z)
    requires CodeBlock(m, z).tail.Some? && AllCodable(c, CodeBlock(m, z).syms)
    requires 0 < n <= MAX_EOBRUN && AllCodable(c, EobHead(m.tbl, n))
    ensures DecodeBlock(c, m, 0, b,
              Follow(c, CodeBlock(m, z).syms, Follow(c, EobHead(m.tbl, n), CodeBlock(m, z).tail.value + rest)))
         == Some((After(m, z, b), n - 1, rest))
  {
    hide DecodeRefine, DecodeBand, CodeBlock, Follow, EobHead, AllCodable, Before, BlockInRange, SymsEnd, FinishBlock,
         After;
    var more := CodeBlock(m, z).tail.value + rest;
    var t, nb := SymsEnd(m, z), NBits(n) - 1;
    var bits := Follow(c, EobHead(m.tbl, n), more);
    EobHeadReads(c, m.tbl, n, more);
    ReadBitsToken(BitsOf(n, nb), more);
    TailRead(m, z, b, n, rest);
    if m.refine {
      RefineSymbolsRead(c, m, z, b, bits);
      EobEndsRefine(c, m, Merge(b, z, m.al, m.ss, t), t, nb, bits, BitsOf(n, nb) + more);
    } else {
      FirstSymbolsRead(c, m, z, b, bits);
      EobEndsBand(c, m, After(m, z, b), t, nb, bits, BitsOf(n, nb) + more);
    }
  }

  lemma {:induction false} RefineTokensNonempty(tbl: nat, z: Block, al: nat, k: nat, eob: nat, r: nat, br: Bits)
    requires k <= eob < 64 && Mag(z, al, eob) == 1
    ensures RefineTokens(tbl, z, al, k, eob, r, br) != []
    decreases 64 - k
  {
    if Mag(z, al, k) == 0 {
      RefineTokensNonempty(tbl, z, al, k + 1, eob, r + 1, br);
    } else if r <= 15 && Mag(z, al, k) > 1 {
      RefineTokensNonempty(tbl, z, al, k + 1, eob, r, br + [Mag(z, al, k) % 2 == 1]);
    }
  }

  lemma {:induction false} BandTokensEmpty(tbl: nat, y: Block, k: nat, se: nat, r: nat)
    requires se < 64 && BandTokens(tbl, y, k, se, r) == []
    ensures forall i :: k <= i <= se ==> y[i] == 0
    decreases 64 - k
  {
    if k <= se {
      BandTokensEmpty(tbl, y, k + 1, se, r + 1);
    }
  }

  /** A block without symbols inside a run still owed. */
  lemma BlockInRun(c: Codec, m: Params, z: Block, b: Block, owed: nat, rest: Bits)
    requires Before(m, z, b) && CodeBlock(m, z).syms == [] && owed > 0
    ensures CodeBlock(m, z).tail.Some?
    ensures DecodeBlock(c, m, owed, b, CodeBlock(m, z).tail.value + rest) == Some((After(m, z, b), owed - 1, rest))
  {
    if m.refine {
      var eob := LastNew(z, m.al, m.ss, m.se + 1);
      if eob != 0 {
        RefineTokensNonempty(m.tbl, z, m.al, m.ss, eob, 0, []);
      }
      assert Merge(b, z, m.al, m.ss, m.ss) == b;
      TailRead(m, z, b, owed, rest);
    } else {
      BandTokensEmpty(m.tbl, Transformed(z, m.al), m.ss, m.se, 0);
      FillIsMerge(m, z, b, m.se + 1);
      ShlZero(m.al);
      assert After(m, z, b) == b;
      TailRead(m, z, b, owed, rest);
    }
  }

  // ---------------------------------------------------------------- runs across blocks

  ghost predicate AllBefore(m: Params, zs: seq<Block>, bs: seq<Block>)
  {
    |zs| == |bs| && forall i :: 0 <= i < |zs| ==> Before(m, zs[i], bs[i])
  }

  function AfterAll(m: Params, zs: seq<Block>, bs: seq<Block>): seq<Block>
    requires |zs| == |bs|
  {
    if zs == [] then [] else [After(m, zs[0], bs[0])] + AfterAll(m, zs[1..], bs[1..])
  }

  predicate AllInRange(m: Params, zs: seq<Block>)
  {
    forall i :: 0 <= i < |zs| ==> BlockInRange(m, zs[i])
  }

  /** Correction bits wait only for a pending run, and the run counter has room. */
  predicate Sane(p: Pending)
  {
    p.eobrun < MAX_EOBRUN && (p.eobrun == 0 ==> p.corr == [])
  }

  /** Between blocks: at most 937 correction bits wait, and the run counter has room. */
  predicate Bounded(p: Pending) { Sane(p) && |p.corr| <= MAX_CORR_BITS - DCTSIZE2 + 1 }

  /** The state after a run of blocks. */
  function PendingAfter(m: Params, p: Pending, zs: seq<Block>): Pending
    decreases |zs|
  {
    if zs == [] then p else PendingAfter(m, BlockPending(m, p, zs[0]), zs[1..])
  }

  lemma {:induction false} CorrBitsShort(z: Block, al: nat, s: nat, k: nat)
    requires s <= k <= 64
    ensures |CorrBits(z, al, s, k)| <= k - s
  {
    if s < k {
      CorrBitsShort(z, al, s, k - 1);
    }
  }

  lemma TailShort(m: Params, z: Block)
    ensures CodeBlock(m, z).tail.Some? ==> |CodeBlock(m, z).tail.value| <= 63
  {
    hide RefineTokens, BandTokens, Transformed, CorrBits, LastNew;
    if m.refine {
      var eob := LastNew(z, m.al, m.ss, m.se + 1);
      CorrBitsShort(z, m.al, if eob == 0 then m.ss else eob + 1, m.se + 1);
    }
  }

  /** One block keeps the bounds; even while its bits join the run, the buffer of 1000 bits suffices and
      the run takes at most 14 bits besides its leading one. */
  lemma StepBounded(m: Params, p: Pending, z: Block)
    requires Bounded(p)
    ensures Bounded(BlockPending(m, p, z))
    ensures CodeBlock(m, z).tail.Some? ==>
      var q := Joined(AfterSyms(p, CodeBlock(m, z)), CodeBlock(m, z).tail.value);
      |q.corr| <= MAX_CORR_BITS && 0 < q.eobrun <= MAX_EOBRUN && NBits(q.eobrun) - 1 <= 14
  {
    hide CodeBlock, NBits;
    var cd := CodeBlock(m, z);
    if cd.tail.Some? {
      TailShort(m, z);
      var q := Joined(AfterSyms(p, cd), cd.tail.value);
      NBitsAtMost(q.eobrun, 15);
      assert Pow2(5) == 32 && Pow2(10) == 1024 && Pow2(15) == 0x8000;
    }
  }

  /** Over whole runs, from a fresh start, the bounds hold between any two blocks. */
  lemma {:induction false} RunBounded(m: Params, p: Pending, zs: seq<Block>)
    requires Bounded(p)
    ensures Bounded(PendingAfter(m, p, zs))
    decreases |zs|
  {
    hide BlockPending;
    if zs != [] {
      StepBounded(m, p, zs[0]);
      RunBounded(m, BlockPending(m, p, zs[0]), zs[1..]);
    }
  }

  /** What follows a block whose tail has just joined the run `p`: the run is forced out or not. */
  function AfterJoin(m: Params, p: Pending, zs: seq<Block>): seq<Token>
  {
    if Forced(p) then EobTokens(m.tbl, p) + RunTokens(m, NOTHING, zs) else RunTokens(m, p, zs)
  }

  lemma RunTokensStep(c: Codec, m: Params, p: Pending, zs: seq<Block>, rest: Bits)
    requires zs != []
    ensures var cd, p0 := CodeBlock(m, zs[0]), AfterSyms(p, CodeBlock(m, zs[0]));
      var more := if cd.tail.None? then RunTokens(m, p0, zs[1..]) else AfterJoin(m, Joined(p0, cd.tail.value), zs[1..]);
      var syms := if cd.syms == [] then [] else EobTokens(m.tbl, p) + cd.syms;
      && RunTokens(m, p, zs) == syms + more
      && Follow(c, RunTokens(m, p, zs), rest) == Follow(c, syms, Follow(c, more, rest))
      && (AllCodable(c, RunTokens(m, p, zs)) <==> AllCodable(c, syms) && AllCodable(c, more))
  {
    hide CodeBlock, EobTokens, AllCodable, Follow, Forced;
    var cd, p0 := CodeBlock(m, zs[0]), AfterSyms(p, CodeBlock(m, zs[0]));
    var more := if cd.tail.None? then RunTokens(m, p0, zs[1..]) else AfterJoin(m, Joined(p0, cd.tail.value), zs[1..]);
    var syms := if cd.syms == [] then [] else EobTokens(m.tbl, p) + cd.syms;
    assert RunTokens(m, p, zs) == syms + more;
    FollowAppend(c, syms, more, rest);
    CodableAppend(c, syms, more);
  }

  lemma EobFollow(c: Codec, tbl: nat, p: Pending, rest: Bits)
    requires p.eobrun > 0
    ensures Follow(c, EobTokens(tbl, p), rest) == Follow(c, EobHead(tbl, p.eobrun), p.corr + rest)
    ensures AllCodable(c, EobTokens(tbl, p)) <==> AllCodable(c, EobHead(tbl, p.eobrun))
  {
    FollowAppend(c, EobHead(tbl, p.eobrun), RawEach(p.corr), rest);
    RawEachFollow(c, p.corr, rest);
    CodableAppend(c, EobHead(tbl, p.eobrun), RawEach(p.corr));
  }

  /** A stream that starts with the symbol of a run of `n`, of which `p.eobrun` blocks are past, and
      whose remainder the decoder turns into the refined blocks. */
  ghost predicate OwedRun(c: Codec, m: Params, p: Pending, bits: Bits, zs: seq<Block>, bs: seq<Block>,
                          n: nat, after: Bits, rest: Bits)
  {
    && |zs| == |bs| && 0 < p.eobrun <= n <= MAX_EOBRUN
    && AllCodable(c, EobHead(m.tbl, n))
    && bits == Follow(c, EobHead(m.tbl, n), p.corr + after)
    && DecodeBlocks(c, m, n - p.eobrun, bs, after) == Some((AfterAll(m, zs, bs), rest))
  }

  /** Decoding inverts coding for a whole run of blocks. With nothing pending the decoder simply
      reads the stream; with a run pending the stream begins with that run's symbol, whose count
      covers the blocks already passed and those still to come. */
  lemma {:induction false} RunRoundTrip(c: Codec, m: Params, p: Pending, zs: seq<Block>, bs: seq<Block>, rest: Bits)
    returns (n: nat, after: Bits)
    requires Sound(c) && Sane(p) && AllBefore(m, zs, bs) && AllInRange(m, zs)
    requires AllCodable(c, RunTokens(m, p, zs))
    ensures p.eobrun == 0 ==>
      DecodeBlocks(c, m, 0, bs, Follow(c, RunTokens(m, p, zs), rest)) == Some((AfterAll(m, zs, bs), rest))
    ensures p.eobrun > 0 ==> OwedRun(c, m, p, Follow(c, RunTokens(m, p, zs), rest), zs, bs, n, after, rest)
    decreases |zs|, 0
  {
    n, after := p.eobrun, rest;
    if zs == [] {
      if p.eobrun > 0 {
        EobFollow(c, m.tbl, p, rest);
      }
    } else {
      RunTokensStep(c, m, p, zs, rest);
      if CodeBlock(m, zs[0]).syms == [] {
        n, after := QuietBlock(c, m, p, zs, bs, rest);
      } else {
        after := LoudBlock(c, m, p, zs, bs, rest);
      }
    }
  }

  /** The stream after a block whose tail has just joined the run. */
  lemma {:induction false} JoinRoundTrip(c: Codec, m: Params, p: Pending, zs: seq<Block>, bs: seq<Block>, rest: Bits)
    returns (n: nat, after: Bits)
    requires Sound(c) && 0 < p.eobrun <= MAX_EOBRUN && AllBefore(m, zs, bs) && AllInRange(m, zs)
    requires AllCodable(c, AfterJoin(m, p, zs))
    ensures OwedRun(c, m, p, Follow(c, AfterJoin(m, p, zs), rest), zs, bs, n, after, rest)
    decreases |zs|, 1
  {
    if Forced(p) {
      n, after := p.eobrun, Follow(c, RunTokens(m, NOTHING, zs), rest);
      FollowAppend(c, EobTokens(m.tbl, p), RunTokens(m, NOTHING, zs), rest);
      CodableAppend(c, EobTokens(m.tbl, p), RunTokens(m, NOTHING, zs));
      EobFollow(c, m.tbl, p, after);
      var _, _ := RunRoundTrip(c, m, NOTHING, zs, bs, rest);
    } else {
      n, after := RunRoundTrip(c, m, p, zs, bs, rest);
    }
  }

  lemma DecodeBlocksStep(c: Codec, m: Params, owed: nat, zs: seq<Block>, bs: seq<Block>, bits: Bits,
                         owed': nat, bits': Bits, rest: Bits)
    requires |zs| == |bs| && zs != []
    requires DecodeBlock(c, m, owed, bs[0], bits) == Some((After(m, zs[0], bs[0]), owed', bits'))
    requires DecodeBlocks(c, m, owed', bs[1..], bits') == Some((AfterAll(m, zs[1..], bs[1..]), rest))
    ensures DecodeBlocks(c, m, owed, bs, bits) == Some((AfterAll(m, zs, bs), rest))
  {
  }

  /** A block without symbols lengthens the pending run, or starts one. */
  lemma {:induction false} QuietBlock(c: Codec, m: Params, p: Pending, zs: seq<Block>, bs: seq<Block>, rest: Bits)
    returns (n: nat, after: Bits)
    requires Sound(c) && Sane(p) && AllBefore(m, zs, bs) && AllInRange(m, zs)
    requires zs != [] && AllCodable(c, RunTokens(m, p, zs)) && CodeBlock(m, zs[0]).syms == []
    ensures p.eobrun == 0 ==>
      DecodeBlocks(c, m, 0, bs, Follow(c, RunTokens(m, p, zs), rest)) == Some((AfterAll(m, zs, bs), rest))
    ensures p.eobrun > 0 ==> OwedRun(c, m, p, Follow(c, RunTokens(m, p, zs), rest), zs, bs, n, after, rest)
    decreases |zs|, -1
  {
    hide DecodeBlock, CodeBlock, AllCodable, EobHead, RunTokens, AfterJoin, BlockInRange, Before, DecodeBlocks, After,
         AfterAll;
    var z, b := zs[0], bs[0];
    BlockInRun(c, m, z, b, 1, rest);
    RunTokensStep(c, m, p, zs, rest);
    var corr := CodeBlock(m, z).tail.value;
    var n', after' := JoinRoundTrip(c, m, Joined(p, corr), zs[1..], bs[1..], rest);
    n, after := n', corr + after';
    assert (p.corr + corr) + after' == p.corr + after;
    if p.eobrun > 0 {
      BlockInRun(c, m, z, b, n' - p.eobrun, after');
      DecodeBlocksStep(c, m, n' - p.eobrun, zs, bs, after, n' - p.eobrun - 1, after', rest);
    } else {
      assert p.corr + after == after;
      BlockStartsRun(c, m, z, b, n', after');
      DecodeBlocksStep(c, m, 0, zs, bs, Follow(c, EobHead(m.tbl, n'), after), n' - 1, after', rest);
    }
  }

  /** A block with symbols ends the pending run, and may start another. */
  lemma {:induction false} LoudBlock(c: Codec, m: Params, p: Pending, zs: seq<Block>, bs: seq<Block>, rest: Bits)
    returns (after: Bits)
    requires Sound(c) && Sane(p) && AllBefore(m, zs, bs) && AllInRange(m, zs)
    requires zs != [] && AllCodable(c, RunTokens(m, p, zs)) && CodeBlock(m, zs[0]).syms != []
    ensures p.eobrun == 0 ==>
      DecodeBlocks(c, m, 0, bs, Follow(c, RunTokens(m, p, zs), rest)) == Some((AfterAll(m, zs, bs), rest))
    ensures p.eobrun > 0 ==> OwedRun(c, m, p, Follow(c, RunTokens(m, p, zs), rest), zs, bs, p.eobrun, after, rest)
    decreases |zs|, -1
  {
    hide DecodeBlock, CodeBlock, AllCodable, EobHead, RunTokens, AfterJoin, BlockInRange, Before, DecodeBlocks, After,
         AfterAll;
    var z, b := zs[0], bs[0];
    var cd := CodeBlock(m, z);
    RunTokensStep(c, m, p, zs, rest);
    CodableAppend(c, EobTokens(m.tbl, p), cd.syms);
    if cd.tail.None? {
      var more := Follow(c, RunTokens(m, NOTHING, zs[1..]), rest);
      after := Follow(c, cd.syms, more);
      FollowAppend(c, EobTokens(m.tbl, p), cd.syms, more);
      var _, _ := RunRoundTrip(c, m, NOTHING, zs[1..], bs[1..], rest);
      BlockNoTail(c, m, z, b, more);
      DecodeBlocksStep(c, m, 0, zs, bs, after, 0, more, rest);
    } else {
      var corr := cd.tail.value;
      var more := Follow(c, AfterJoin(m, Joined(NOTHING, corr), zs[1..]), rest);
      after := Follow(c, cd.syms, more);
      FollowAppend(c, EobTokens(m.tbl, p), cd.syms, more);
      var n', after' := JoinRoundTrip(c, m, Joined(NOTHING, corr), zs[1..], bs[1..], rest);
      assert NOTHING.corr + corr == corr;
      BlockStartsRun(c, m, z, b, n', after');
      DecodeBlocksStep(c, m, 0, zs, bs, after, n' - 1, after', rest);
    }
    if p.eobrun > 0 {
      EobFollow(c, m.tbl, p, after);
    }
  }
}
