/** The statistics pass of `jchuff.c`: it must count exactly the symbols the output pass emits. */
module SequentialStatistics {
  import opened Wrappers
  import opened BitStrings
  import opened BitOutput
  import opened HuffmanTables
  import opened Coding
  import opened RunLength
  import opened AcScans
  import opened Scans
  import opened ScanStreams
  import opened TokenSinks
  import opened CoefficientOutput
  import opened Zigzags
  import opened SequentialEncoding

  /** The counts of DC tables and AC tables are the occurrences in a token sequence. */
  ghost predicate Counts(dc: array2<nat>, ac: array2<nat>, ts: seq<Token>)
    reads dc, ac
  {
    && InAlphabet(ts, 2 * NUM_HUFF_TBLS) && (forall t :: t in ts && t.Sym? && t.tbl < NUM_HUFF_TBLS ==> t.sym <= 15)
    && dc.Length0 == ac.Length0 == NUM_HUFF_TBLS && dc.Length1 == ac.Length1 == 257
    && (forall t, s :: 0 <= t < NUM_HUFF_TBLS && 0 <= s < 257 ==> dc[t, s] == Occurrences(ts, t, s))
    && (forall t, s :: 0 <= t < NUM_HUFF_TBLS && 0 <= s < 257 ==> ac[t, s] == Occurrences(ts, NUM_HUFF_TBLS + t, s))
  }

  /** One more DC symbol. */
  method CountDc(dc: array2<nat>, ac: array2<nat>, t: nat, s: nat, ghost ts: seq<Token>)
    requires Counts(dc, ac, ts) && dc != ac && t < NUM_HUFF_TBLS && s <= 15
    modifies dc
    ensures Counts(dc, ac, ts + [Sym(t, s)])
  {
    SymCounted(ts, t, s);
    dc[t, s] := dc[t, s] + 1;
  }

  /** One more AC symbol. */
  method CountAc(dc: array2<nat>, ac: array2<nat>, t: nat, s: nat, ghost ts: seq<Token>)
    requires Counts(dc, ac, ts) && dc != ac && t < NUM_HUFF_TBLS && s < 256
    modifies ac
    ensures Counts(dc, ac, ts + [Sym(NUM_HUFF_TBLS + t, s)])
  {
    SymCounted(ts, NUM_HUFF_TBLS + t, s);
    ac[t, s] := ac[t, s] + 1;
  }

  /** Appended bits are not counted. */
  lemma RawKeepsCounts(dc: array2<nat>, ac: array2<nat>, ts: seq<Token>, bits: Bits)
    requires Counts(dc, ac, ts)
    ensures Counts(dc, ac, ts + [Raw(bits)])
  {
    RawUncounted(ts, bits);
  }

  /** The counting of one nonzero coefficient after `run` zeros. */
  method CountCoef(dc: array2<nat>, ac: array2<nat>, t: nat, run: nat, v: int, ghost ts: seq<Token>) returns (ok: bool)
    requires Counts(dc, ac, ts) && dc != ac && t < NUM_HUFF_TBLS && v != 0
    modifies ac
    ensures ok <==> NBits(Abs(v)) <= 10
    ensures ok ==> Counts(dc, ac, ts + CoefTokens(NUM_HUFF_TBLS + t, run, v))
  {
    hide Counts, CoefTokens;
    var n := run;
    ghost var c := HuffmanCodec([]);
    ghost var now := ts;
    ghost var goal := ts + CoefTokens(NUM_HUFF_TBLS + t, run, v);
    while n > 15
      invariant Counts(dc, ac, now) && now + CoefTokens(NUM_HUFF_TBLS + t, n, v) == goal
    {
      ZrlStep(c, NUM_HUFF_TBLS + t, n, v, now);
      CountAc(dc, ac, t, ZRL, now);
      now := now + [Sym(NUM_HUFF_TBLS + t, ZRL)];
      n := n - 16;
    }
    var nbits := CountBits(Abs(v));
    if nbits > 10 {
      return false;
    }
    PairStep(c, NUM_HUFF_TBLS + t, n, v, now);
    CountAc(dc, ac, t, 16 * n + nbits, now);
    RawKeepsCounts(dc, ac, now + [Sym(NUM_HUFF_TBLS + t, 16 * n + nbits)], MagnitudeBits(v));
    return true;
  }

  /** The counting of one DC difference. */
  method CountDiff(dc: array2<nat>, ac: array2<nat>, t: nat, diff: int, ghost ts: seq<Token>) returns (ok: bool)
    requires Counts(dc, ac, ts) && dc != ac && t < NUM_HUFF_TBLS
    modifies dc
    ensures ok <==> NBits(Abs(diff)) <= 11
    ensures ok ==> Counts(dc, ac, ts + DiffTokens(t, diff))
  {
    hide Counts, DiffTokens;
    var nbits := CountBits(Abs(diff));
    if nbits > 11 {
      return false;
    }
    DiffParts(HuffmanCodec([]), t, diff, ts);
    CountDc(dc, ac, t, nbits, ts);
    if nbits != 0 {
      RawKeepsCounts(dc, ac, ts + [Sym(t, nbits)], MagnitudeBits(diff));
    }
    ok := true;
  }

  /** `htest_one_block`: counts exactly what `encode_one_block` emits. */
  method HtestOneBlock(order: seq<nat>, block: Block, last: int, dc: array2<nat>, ac: array2<nat>,
                       dctbl: nat, actbl: nat, ghost ts: seq<Token>) returns (ok: bool)
    requires Counts(dc, ac, ts) && dc != ac && IsOrder(order) && dctbl < NUM_HUFF_TBLS && actbl < NUM_HUFF_TBLS
    modifies dc, ac
    ensures ok <==> BlockLimits(last, Zigzag(order, block))
    ensures ok ==> Counts(dc, ac, ts + SequentialTokens(dctbl, NUM_HUFF_TBLS + actbl, last, Zigzag(order, block)))
  {
    hide Counts, CoefTokens, SequentialTokens, BlockRest, Zigzag, BandInRange, AllCodable, NBits, IsOrder, DiffTokens,
         HuffmanCodec;
    ghost var c, z := HuffmanCodec([]), Zigzag(order, block);
    ghost var actx := NUM_HUFF_TBLS + actbl;
    ghost var goal := ts + SequentialTokens(dctbl, actx, last, z);
    BlockStart(c, dctbl, actx, last, z, ts);
    var dcval := ReadZigzag(order, block, 0);
    ok := CountDiff(dc, ac, dctbl, dcval - last, ts);
    if !ok {
      return;
    }
    ghost var now := ts + DiffTokens(dctbl, dcval - last);
    var run, k := 0, 1;
    while k < 64
      invariant 1 <= k <= 64
      invariant Counts(dc, ac, now) && now + BlockRest(actx, z, k, run) == goal
      invariant BandInRange(z, 1, 63) <==> BandInRange(z, k, 63)
      invariant k > 1 ==> (run > 0 <==> z[k - 1] == 0)
    {
      var temp := ReadZigzag(order, block, k);
      if temp == 0 {
        BlockZero(actx, z, k, run);
        run := run + 1;
      } else {
        BlockCoef(c, actx, z, k, run, now);
        ok := CountCoef(dc, ac, actbl, run, temp, now);
        if !ok {
          return;
        }
        now := now + CoefTokens(actx, run, temp);
        run := 0;
      }
      k := k + 1;
    }
    BlockEnd(actx, z, run, now);
    if run > 0 {
      LastIsEob(actx, z);
      CountAc(dc, ac, actbl, 0, now);
    }
    return true;
  }

  lemma LastIsEob(tbl: nat, z: Block)
    requires z[63] == 0
    ensures EndOfBlock(tbl, z) == [Sym(tbl, 0)]
  {
  }

  class HuffStatistics {
    const mode: ScanMode
    const interval: nat
    const order: seq<nat>
    const dcCounts: array2<nat>
    const acCounts: array2<nat>
    var lastDcVal: seq<int>
    var restartsToGo: nat
    ghost var done: seq<seq<Token>>
    ghost var cur: seq<Token>

    ghost function State(): Enc
      reads this
    {
      Enc(done, cur, Coder(lastDcVal, NOTHING), restartsToGo)
    }

    ghost predicate Valid()
      reads this, dcCounts, acCounts
    {
      && TablesInRange(mode) && IsOrder(order) && dcCounts != acCounts
      && |lastDcVal| == |mode.comps| && restartsToGo <= interval
      && Counts(dcCounts, acCounts, Flatten(done) + cur)
    }

    /** `start_pass_huff` for statistics. */
    constructor (mode: ScanMode, interval: nat, order: seq<nat>)
      requires TablesInRange(mode) && IsOrder(order)
      ensures Valid() && State() == Start(mode, interval) && fresh(dcCounts) && fresh(acCounts)
      ensures this.mode == mode && this.interval == interval && this.order == order
    {
      this.mode, this.interval, this.order := mode, interval, order;
      dcCounts := new nat[NUM_HUFF_TBLS, 257]((i, j) => 0);
      acCounts := new nat[NUM_HUFF_TBLS, 257]((i, j) => 0);
      lastDcVal, restartsToGo := seq(|mode.comps|, _ => 0), interval;
      done, cur := [], [];
      new;
      assert Flatten(done) + cur == [];
    }

    /** `encode_mcu_gather`: the same state change as the output pass, and the same symbols. */
    method EncodeMcu(data: seq<Block>) returns (ok: bool)
      requires Valid() && |data| == mode.BlocksInMcu()
      modifies this, dcCounts, acCounts
      ensures ok <==> McuOk(mode, Restarted(mode, interval, old(State())).coder, ZigzagAll(order, data))
      ensures ok ==> Valid() && State() == Fed(mode, interval, old(State()), ZigzagAll(order, data))
    {
      hide Counts, BlocksCode, BlocksLast, BlocksOk, SequentialTokens, BlockLimits, Zigzag, Flatten;
      if interval != 0 {
        if restartsToGo == 0 {
          lastDcVal := seq(|mode.comps|, _ => 0);
          restartsToGo := interval;
          FlattenSnoc(done, cur);
          NoTokens(cur);
          NoTokens(Flatten(done + [cur]));
          done, cur := done + [cur], [];
        }
        restartsToGo := restartsToGo - 1;
      }
      ghost var mcu := ZigzagAll(order, data);
      ghost var from, last0 := cur, lastDcVal;
      for blkn := 0 to |data|
        invariant |lastDcVal| == |mode.comps| && Counts(dcCounts, acCounts, Flatten(done) + cur)
        invariant cur + BlocksCode(mode, lastDcVal, mcu, blkn) == from + BlocksCode(mode, last0, mcu, 0)
        invariant BlocksLast(mode, lastDcVal, mcu, blkn) == BlocksLast(mode, last0, mcu, 0)
        invariant BlocksOk(mode, last0, mcu, 0) <==> BlocksOk(mode, lastDcVal, mcu, blkn)
        modifies this`lastDcVal, this`cur, dcCounts, acCounts
      {
        var ci := mode.membership[blkn];
        ghost var ts := SequentialTokens(mode.comps[ci].dcTbl, mode.comps[ci].acTbl, lastDcVal[ci], mcu[blkn]);
        McuStep(HuffmanCodec([]), mode, lastDcVal, mcu, blkn, cur);
        ok := HtestOneBlock(order, data[blkn], lastDcVal[ci], dcCounts, acCounts,
                            mode.comps[ci].dcTbl, mode.comps[ci].acTbl - NUM_HUFF_TBLS, Flatten(done) + cur);
        if !ok {
          return;
        }
        Moved(Flatten(done), cur, ts);
        cur := cur + ts;
        var dc := ReadZigzag(order, data[blkn], 0);
        lastDcVal := lastDcVal[ci := dc];
      }
      BlocksDone(mode, lastDcVal, mcu, cur);
      return true;
    }
  }
}
