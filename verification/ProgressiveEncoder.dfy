/** The progressive Huffman entropy encoder of `jcphuff.c`: its state between MCUs, one method for
    each kind of scan, restarts, and the end of the pass. */
module ProgressiveEncoding {
  import opened Wrappers
  import opened BitStrings
  import opened EntropySegments
  import opened BitOutput
  import opened HuffmanTables
  import opened JpegLimits
  import opened Coding
  import opened RunLength
  import opened AcRefinement
  import opened AcScans
  import opened Scans
  import opened ScanStreams
  import opened TokenSinks
  import opened CoefficientOutput
  import opened Zigzags

  /** How many bits a run length needs besides its leading one. */
  method RunExponent(n: nat) returns (nb: nat)
    requires n > 0
    ensures nb == NBits(n) - 1
  {
    nb := 0;
    var temp: nat := n / 2;
    while temp != 0
      invariant nb + NBits(temp) == NBits(n) - 1
    {
      nb := nb + 1;
      temp := temp / 2;
    }
  }

  class PhuffEncoder {
    const mode: ScanMode
    const interval: nat
    const order: seq<nat>
    const sink: TokenSink
    const lastDcVal: array<int>
    const bitBuffer: array<bool>
    var EOBRUN: nat
    var BE: nat
    var restartsToGo: nat
    var nextRestartNum: nat

    ghost function Repr(): set<object> { {this, lastDcVal, bitBuffer} + sink.Repr() }

    ghost function Pend(): Pending
      requires BE <= bitBuffer.Length
      reads this, bitBuffer
    {
      Pending(EOBRUN, bitBuffer[..BE])
    }

    ghost function TheCoder(): Coder
      requires BE <= bitBuffer.Length && (mode.Ac? || |mode.comps| <= lastDcVal.Length)
      reads this, bitBuffer, lastDcVal
    {
      Coder(if mode.Ac? then [] else lastDcVal[..|mode.comps|], Pend())
    }

    /** The state the encoder stands for. */
    ghost function State(): Enc
      requires BE <= bitBuffer.Length && (mode.Ac? || |mode.comps| <= lastDcVal.Length)
      reads this, bitBuffer, lastDcVal, sink
    {
      Enc(sink.done, sink.cur, TheCoder(), restartsToGo)
    }

    /** Everything but the restart counters: in particular, between MCUs at most 937 correction
        bits wait, the run counter has room, and bits wait only for a pending run. */
    ghost predicate Core()
      reads Repr()
    {
      && !mode.Sequential? && IsOrder(order) && sink.fatal && sink.before == []
      && lastDcVal.Length == MAX_COMPS_IN_SCAN && bitBuffer.Length == MAX_CORR_BITS
      && (if mode.Ac? then mode.params.tbl < NUM_HUFF_TBLS
          else |mode.comps| <= MAX_COMPS_IN_SCAN
               && forall i :: 0 <= i < |mode.comps| ==> mode.comps[i].dcTbl < NUM_HUFF_TBLS)
      && BE <= MAX_CORR_BITS - DCTSIZE2 + 1
      && Sane(Pend())
      && (!mode.Ac? ==> Pend() == NOTHING)
      && sink.Valid()
    }

    ghost predicate Valid()
      reads Repr()
    {
      && Core()
      && nextRestartNum == |sink.done| % 8
      && restartsToGo <= interval
    }

    /** `start_pass_phuff`, for parameters the script validation has accepted. */
    constructor (mode: ScanMode, interval: nat, order: seq<nat>, sink: TokenSink)
      requires !mode.Sequential? && IsOrder(order) && sink.Valid() && sink.done == [] && sink.cur == []
      requires sink.fatal && sink.before == []
      requires if mode.Ac? then mode.params.tbl < NUM_HUFF_TBLS
               else |mode.comps| <= MAX_COMPS_IN_SCAN
                    && forall i :: 0 <= i < |mode.comps| ==> mode.comps[i].dcTbl < NUM_HUFF_TBLS
      ensures Valid() && State() == Start(mode, interval) && fresh(Repr() - sink.Repr())
      ensures this.mode == mode && this.interval == interval && this.order == order && this.sink == sink
    {
      this.mode, this.interval, this.order, this.sink := mode, interval, order, sink;
      lastDcVal := new int[MAX_COMPS_IN_SCAN](_ => 0);
      bitBuffer := new bool[MAX_CORR_BITS](_ => false);
      EOBRUN, BE := 0, 0;
      restartsToGo, nextRestartNum := interval, 0;
      new;
      assert !mode.Ac? ==> lastDcVal[..|mode.comps|] == seq(|mode.comps|, _ => 0);
    }

    /** `emit_buffered_bits`: the correction bits from `start` on, one at a time. */
    method EmitBufferedBits(start: nat, nbits: nat) returns (r: Outcome)
      requires sink.Valid() && sink.fatal && start + nbits <= bitBuffer.Length
      modifies sink.Repr()
      ensures r != Suspended && (old(sink.Accepts(RawEach(bitBuffer[start..start + nbits]))) ==> r.Ok?)
      ensures r.Ok? ==> sink.Valid() && sink.done == old(sink.done)
      ensures r.Ok? ==> sink.cur == old(sink.cur) + RawEach(bitBuffer[start..start + nbits])
    {
      hide TokenSink.Valid, RawEach;
      ghost var bits := bitBuffer[start..start + nbits];
      ghost var total := RawEach(bits);
      NoRaw(bits, sink.cur);
      assert bits[0..] == bits;
      for i := 0 to nbits
        invariant sink.Valid() && sink.done == old(sink.done)
        invariant sink.cur + RawEach(bits[i..]) == old(sink.cur) + total
        invariant old(sink.Accepts(total)) ==> sink.Accepts(RawEach(bits[i..]))
      {
        var code := if bitBuffer[start + i] then 1 else 0;
        EachBit(sink.Code(), bits, i, code);
        ghost var before, now := sink.cur, [Raw(BitsOf(code, 1))];
        Moved(before, now, RawEach(bits[i + 1..]));
        sink.AcceptsFirst(RawEach(bits[i..]), now, RawEach(bits[i + 1..]));
        r := sink.EmitBits(code, 1);
        if r != Ok {
          return;
        }
      }
      NoRaw(bits, sink.cur);
      return Ok;
    }

    /** `emit_eobrun`: the pending run and its correction bits, if any. The safety check on the run
        length can never fail. */
    method EmitEobrun(tbl: nat) returns (r: Outcome)
      requires sink.Valid() && sink.fatal && BE <= bitBuffer.Length && tbl < NUM_HUFF_TBLS
      requires EOBRUN <= MAX_EOBRUN && (EOBRUN == 0 ==> BE == 0)
      modifies this`EOBRUN, this`BE, sink.Repr()
      ensures r != Suspended && (old(sink.Accepts(EobTokens(tbl, Pend()))) ==> r.Ok?)
      ensures r.Ok? ==> sink.Valid() && sink.done == old(sink.done) && EOBRUN == 0 && BE == 0
      ensures r.Ok? ==> sink.cur == old(sink.cur) + EobTokens(tbl, old(Pend()))
    {
      hide TokenSink.Valid, TokenSink.Fits, EobTokens, RawEach, AllCodable;
      if EOBRUN == 0 {
        NoEob(tbl, Pend(), sink.cur);
        return Ok;
      }
      var nbits := RunExponent(EOBRUN);
      RunBits(EOBRUN);
      if nbits > 14 {
        return Error;
      }
      ghost var before := sink.cur;
      ghost var corr := bitBuffer[..BE];
      EobParts(sink.Code(), tbl, EOBRUN, corr);
      ghost var run: seq<Token> := if nbits > 0 then [Raw(BitsOf(EOBRUN, nbits))] else [];
      Appended3(before, [Sym(tbl, 16 * nbits)], run, RawEach(corr));
      FitParts3(sink, sink.done, before, [Sym(tbl, 16 * nbits)], run, RawEach(corr));
      r := sink.EmitSymbol(tbl, 16 * nbits);
      if r != Ok {
        return;
      }
      if nbits != 0 {
        r := sink.EmitBits(EOBRUN, nbits);
        if r != Ok {
          return;
        }
      }
      EOBRUN := 0;
      assert bitBuffer[0..0 + BE] == corr;
      r := EmitBufferedBits(0, BE);
      if r != Ok {
        return;
      }
      BE := 0;
      return Ok;
    }

    /** A restart that is due can go out. */
    ghost predicate CanStart()
      requires BE <= bitBuffer.Length && (mode.Ac? || |mode.comps| <= lastDcVal.Length)
      reads this, bitBuffer, lastDcVal, sink
    {
      var flush := FlushTokens(mode, TheCoder());
      sink.gather || (interval > 0 && restartsToGo == 0 ==>
        AllCodable(sink.Code(), flush) && sink.Fits(sink.done + [sink.cur + flush], []))
    }

    /** All that the MCU emits can go out, a restart that is due included. */
    ghost predicate CanTake(mcu: Mcu)
      requires BE <= bitBuffer.Length && (mode.Ac? || |mode.comps| <= lastDcVal.Length) && |mcu| == mode.BlocksInMcu()
      reads this, bitBuffer, lastDcVal, sink
    {
      sink.gather || (AllCodable(sink.Code(), NewlyEmitted(mode, interval, State(), mcu))
                      && FitsFed(sink, Fed(mode, interval, State(), mcu)))
    }

    /** New predictions. */
    method ClearLast()
      requires !mode.Ac? && |mode.comps| <= lastDcVal.Length
      modifies lastDcVal
      ensures lastDcVal[..|mode.comps|] == seq(|mode.comps|, _ => 0)
    {
      for ci := 0 to |mode.comps|
        invariant forall i :: 0 <= i < ci ==> lastDcVal[i] == 0
      {
        lastDcVal[ci] := 0;
      }
    }

    /** `emit_restart`, at the start of an MCU when the interval is used up. */
    method StartMcu() returns (r: Outcome)
      requires Valid()
      modifies Repr()
      ensures r != Suspended
      ensures old(CanStart()) ==> r.Ok?
      ensures r.Ok? ==> Core() && State() == Restarted(mode, interval, old(State())).(togo := old(restartsToGo))
      ensures r.Ok? ==> restartsToGo == old(restartsToGo) && nextRestartNum == old(nextRestartNum)
    {
      hide TokenSink.Valid;
      if interval == 0 || restartsToGo != 0 {
        return Ok;
      }
      sink.FitsClosed(sink.done, sink.cur + FlushTokens(mode, TheCoder()));
      if mode.Ac? {
        r := EmitEobrun(mode.params.tbl);
        if r != Ok {
          return;
        }
      } else {
        NoTokens(sink.cur);
      }
      r := sink.CloseSegment(nextRestartNum);
      if r != Ok {
        return;
      }
      if mode.Ac? {
        EOBRUN, BE := 0, 0;
      } else {
        ClearLast();
      }
      return Ok;
    }

    /** The restart bookkeeping at the end of an MCU. */
    method EndMcu()
      requires Core() && restartsToGo <= interval
      requires nextRestartNum == (|sink.done| - (if interval > 0 && restartsToGo == 0 then 1 else 0)) % 8
      modifies this`restartsToGo, this`nextRestartNum
      ensures Valid()
      ensures restartsToGo == if interval == 0 then old(restartsToGo)
                              else (if old(restartsToGo) == 0 then interval else old(restartsToGo)) - 1
    {
      if interval != 0 {
        if restartsToGo == 0 {
          restartsToGo := interval;
          nextRestartNum := (nextRestartNum + 1) % 8;
        }
        restartsToGo := restartsToGo - 1;
      }
    }

    // ---------------------------------------------------------------- DC scans

    /** The block loop of `encode_mcu_DC_first`. */
    method EncodeDcFirstBlocks(data: seq<Block>) returns (r: Outcome)
      requires Core() && mode.DcFirst? && |data| == mode.BlocksInMcu()
      modifies sink.Repr(), lastDcVal
      ensures r != Suspended
      ensures (BlocksOk(mode, old(TheCoder()).last, ZigzagAll(order, data), 0)
               && old(sink.Accepts(BlocksCode(mode, TheCoder().last, ZigzagAll(order, data), 0)))) ==> r.Ok?
      ensures r.Ok? ==>
          Core() && sink.done == old(sink.done) && BlocksOk(mode, old(TheCoder()).last, ZigzagAll(order, data), 0)
      ensures r.Ok? ==> sink.cur == old(sink.cur) + BlocksCode(mode, old(TheCoder()).last, ZigzagAll(order, data), 0)
      ensures r.Ok? ==> TheCoder().last == BlocksLast(mode, old(TheCoder()).last, ZigzagAll(order, data), 0)
    {
      hide TokenSink.Valid, BlocksCode, BlocksLast, BlocksOk, DiffTokens;
      ghost var mcu := ZigzagAll(order, data);
      ghost var last0 := lastDcVal[..|mode.comps|];
      ghost var goal := sink.cur + BlocksCode(mode, last0, mcu, 0);
      for blkn := 0 to |data|
        invariant Core() && sink.done == old(sink.done)
        invariant sink.cur + BlocksCode(mode, lastDcVal[..|mode.comps|], mcu, blkn) == goal
        invariant BlocksLast(mode, lastDcVal[..|mode.comps|], mcu, blkn) == BlocksLast(mode, last0, mcu, 0)
        invariant BlocksOk(mode, lastDcVal[..|mode.comps|], mcu, blkn) <==> BlocksOk(mode, last0, mcu, 0)
        invariant old(sink.Accepts(BlocksCode(mode, last0, mcu, 0))) ==>
                    sink.Accepts(BlocksCode(mode, lastDcVal[..|mode.comps|], mcu, blkn))
      {
        var ci := mode.membership[blkn];
        ghost var last := lastDcVal[..|mode.comps|];
        var temp2 := Shr(data[blkn][0], mode.al);
        assert mcu[blkn][0] == data[blkn][0];
        var diff := temp2 - lastDcVal[ci];
        DcFirstStep(sink.Code(), mode, last, mcu, blkn, sink.cur);
        sink.AcceptsFirst(BlocksCode(mode, last, mcu, blkn), DiffTokens(mode.comps[ci].dcTbl, diff),
                          BlocksCode(mode, last[ci := temp2], mcu, blkn + 1));
        lastDcVal[ci] := temp2;
        assert lastDcVal[..|mode.comps|] == last[ci := temp2];
        r := EmitDiff(sink, mode.comps[ci].dcTbl, diff);
        if r != Ok {
          return;
        }
      }
      BlocksDone(mode, lastDcVal[..|mode.comps|], mcu, sink.cur);
      return Ok;
    }

    /** The block loop of `encode_mcu_DC_refine`: one bit for each block. */
    method EncodeDcRefineBlocks(data: seq<Block>) returns (r: Outcome)
      requires Core() && mode.DcRefine? && |data| == mode.BlocksInMcu()
      modifies sink.Repr()
      ensures r != Suspended
      ensures old(sink.Accepts(BlocksCode(mode, TheCoder().last, ZigzagAll(order, data), 0))) ==> r.Ok?
      ensures r.Ok? ==>
          Core() && sink.done == old(sink.done) && BlocksOk(mode, old(TheCoder()).last, ZigzagAll(order, data), 0)
      ensures r.Ok? ==> sink.cur == old(sink.cur) + BlocksCode(mode, old(TheCoder()).last, ZigzagAll(order, data), 0)
      ensures r.Ok? ==> TheCoder().last == BlocksLast(mode, old(TheCoder()).last, ZigzagAll(order, data), 0)
    {
      hide TokenSink.Valid, BlocksCode, BlocksLast, BlocksOk;
      ghost var mcu := ZigzagAll(order, data);
      ghost var last := lastDcVal[..|mode.comps|];
      ghost var goal := sink.cur + BlocksCode(mode, last, mcu, 0);
      for blkn := 0 to |data|
        invariant Core() && sink.done == old(sink.done)
        invariant sink.cur + BlocksCode(mode, last, mcu, blkn) == goal
        invariant BlocksLast(mode, last, mcu, blkn) == BlocksLast(mode, last, mcu, 0)
        invariant BlocksOk(mode, last, mcu, blkn) <==> BlocksOk(mode, last, mcu, 0)
        invariant old(sink.Accepts(BlocksCode(mode, last, mcu, 0))) ==> sink.Accepts(BlocksCode(mode, last, mcu, blkn))
      {
        var temp := data[blkn][0];
        assert mcu[blkn][0] == temp;
        DcRefineStep(sink.Code(), mode, last, mcu, blkn, sink.cur);
        sink.AcceptsFirst(BlocksCode(mode, last, mcu, blkn), [Raw(BitsOf(Shr(temp, mode.al), 1))],
                          BlocksCode(mode, last, mcu, blkn + 1));
        r := sink.EmitBits(Shr(temp, mode.al), 1);
        if r != Ok {
          return;
        }
      }
      BlocksDone(mode, last, mcu, sink.cur);
      return Ok;
    }

    /** `encode_mcu_DC_first`. */
    method EncodeMcuDcFirst(data: seq<Block>) returns (r: Outcome)
      requires Valid() && mode.DcFirst? && |data| == mode.BlocksInMcu()
      modifies Repr()
      ensures r != Suspended
      ensures (McuOk(mode, Restarted(mode, interval, old(State())).coder, ZigzagAll(order, data))
               && old(CanTake(ZigzagAll(order, data)))) ==> r.Ok?
      ensures r.Ok? ==> McuOk(mode, Restarted(mode, interval, old(State())).coder, ZigzagAll(order, data))
      ensures r.Ok? ==> Valid() && State() == Fed(mode, interval, old(State()), ZigzagAll(order, data))
    {
      hide TokenSink.Valid, BlocksCode, BlocksLast, BlocksOk, ZigzagAll, AllCodable, IsOrder, BlockTokens, BlockPending,
           EobTokens, FitsFed, NewlyEmitted;
      ZigzagShape(order, data);
      EmittedParts(sink, mode, interval, State(), ZigzagAll(order, data));
      r := StartMcu();
      if r != Ok {
        return;
      }
      r := EncodeDcFirstBlocks(data);
      if r != Ok {
        return;
      }
      EndMcu();
    }

    /** `encode_mcu_DC_refine`. */
    method EncodeMcuDcRefine(data: seq<Block>) returns (r: Outcome)
      requires Valid() && mode.DcRefine? && |data| == mode.BlocksInMcu()
      modifies Repr()
      ensures r != Suspended
      ensures (McuOk(mode, Restarted(mode, interval, old(State())).coder, ZigzagAll(order, data))
               && old(CanTake(ZigzagAll(order, data)))) ==> r.Ok?
      ensures r.Ok? ==> McuOk(mode, Restarted(mode, interval, old(State())).coder, ZigzagAll(order, data))
      ensures r.Ok? ==> Valid() && State() == Fed(mode, interval, old(State()), ZigzagAll(order, data))
    {
      hide TokenSink.Valid, BlocksCode, BlocksLast, BlocksOk, ZigzagAll, AllCodable, IsOrder, BlockTokens, BlockPending,
           EobTokens, FitsFed, NewlyEmitted;
      ZigzagShape(order, data);
      EmittedParts(sink, mode, interval, State(), ZigzagAll(order, data));
      r := StartMcu();
      if r != Ok {
        return;
      }
      r := EncodeDcRefineBlocks(data);
      if r != Ok {
        return;
      }
      EndMcu();
    }

    // ---------------------------------------------------------------- the first AC scan

    /** A coefficient after the point transform: its magnitude is shifted, its sign kept. */
    method PointTransformed(block: Block, k: nat, al: nat) returns (temp: int)
      requires IsOrder(order) && k < 64
      ensures temp == Transformed(Zigzag(order, block), al)[k]
    {
      temp := ReadZigzag(order, block, k);
      temp := if temp < 0 then -Shr(-temp, al) else Shr(temp, al);
    }

    /** The coefficient loop of `encode_mcu_AC_first`. */
    method EncodeAcFirstBand(block: Block) returns (r: Outcome, run: nat)
      requires Core() && mode.Ac? && !mode.params.refine
      modifies this`EOBRUN, this`BE, sink.Repr()
      ensures r != Suspended
      ensures (BlockInRange(mode.params, Zigzag(order, block))
               && old(sink.Accepts(OwnTokens(mode.params, Pend(), Zigzag(order, block))))) ==> r.Ok?
      ensures r.Ok? ==> Core() && sink.done == old(sink.done) && BlockInRange(mode.params, Zigzag(order, block))
      ensures r.Ok? ==> sink.cur == old(sink.cur) + OwnTokens(mode.params, old(Pend()), Zigzag(order, block))
      ensures r.Ok? ==> Pend() == AfterSyms(old(Pend()), CodeBlock(mode.params, Zigzag(order, block)))
      ensures r.Ok? ==> (run > 0 <==> CodeBlock(mode.params, Zigzag(order, block)).tail.Some?)
    {
      hide TokenSink.Valid, TokenSink.Fits, CoefTokens, BandTokens, EobTokens, AllCodable, CodeBlock, FirstRest,
           OwnTokens, Transformed, Zigzag, BandInRange;
      var m := mode.params;
      ghost var y := Transformed(Zigzag(order, block), m.al);
      FirstStart(m, Pend(), Zigzag(order, block));
      ghost var p0, all := Pend(), BandTokens(m.tbl, y, m.ss, m.se, 0);
      ghost var own := OwnTokens(m, p0, Zigzag(order, block));
      ghost var quiet := true;
      run := 0;
      var k := m.ss;
      while k <= m.se
        invariant m.ss <= k <= m.se + 1
        invariant Core() && sink.done == old(sink.done)
        invariant sink.cur + FirstRest(m, y, k, run, Pend()) == old(sink.cur) + own
        invariant old(sink.Accepts(own)) ==> sink.Accepts(FirstRest(m, y, k, run, Pend()))
        invariant if quiet then Pend() == p0 && BandTokens(m.tbl, y, k, m.se, run) == all
                  else Pend() == NOTHING && all != []
        invariant k > m.ss ==> (run > 0 <==> y[k - 1] == 0)
        invariant BandInRange(y, m.ss, m.se) <==> BandInRange(y, k, m.se)
      {
        var temp := PointTransformed(block, k, m.al);
        if temp == 0 {
          FirstSkip(m, y, k, run, Pend());
          run := run + 1;
        } else {
          FirstStep(sink.Code(), m, y, k, run, Pend(), sink.cur);
          ghost var eob, coef, rest := EobTokens(m.tbl, Pend()), CoefTokens(m.tbl, run, y[k]),
            FirstRest(m, y, k + 1, 0, NOTHING);
          sink.FitsPart(sink.done, (sink.cur + eob) + coef, rest);
          sink.FitsPart(sink.done, sink.cur + eob, coef);
          if EOBRUN > 0 {
            r := EmitEobrun(m.tbl);
            if r != Ok {
              return;
            }
          } else {
            NoEob(m.tbl, Pend(), sink.cur);
          }
          r := EmitCoef(sink, m.tbl, run, temp);
          if r != Ok {
            return;
          }
          run, quiet := 0, false;
        }
        k := k + 1;
      }
      FirstDone(m, y, run, Pend(), sink.cur);
      return Ok, run;
    }

    /** The block has trailing coefficients without symbol: they join the pending run, together with
        the `nbits` correction bits stored behind it, and the run is forced out if it must be. */
    method JoinRun(tbl: nat, nbits: nat) returns (r: Outcome)
      requires Core() && mode.Ac? && tbl == mode.params.tbl && BE + nbits <= bitBuffer.Length
      modifies this`EOBRUN, this`BE, sink.Repr()
      ensures r != Suspended
      ensures old(sink.Accepts(JoinTokens(tbl, Joined(Pend(), bitBuffer[BE..BE + nbits])))) ==> r.Ok?
      ensures r.Ok? ==> Core() && sink.done == old(sink.done)
      ensures r.Ok? ==> sink.cur == old(sink.cur) + JoinTokens(tbl, Joined(old(Pend()), old(bitBuffer[BE..BE + nbits])))
      ensures r.Ok? ==> Pend() == JoinPending(Joined(old(Pend()), old(bitBuffer[BE..BE + nbits])))
    {
      hide TokenSink.Valid, EobTokens;
      ghost var p := Joined(Pend(), bitBuffer[BE..BE + nbits]);
      assert bitBuffer[..BE + nbits] == bitBuffer[..BE] + bitBuffer[BE..BE + nbits];
      EOBRUN := EOBRUN + 1;
      BE := BE + nbits;
      assert Pend() == p;
      if EOBRUN == MAX_EOBRUN || BE > MAX_CORR_BITS - DCTSIZE2 + 1 {
        r := EmitEobrun(tbl);
        return;
      }
      NoTokens(sink.cur);
      return Ok;
    }

    /** One block of a first AC scan: its own symbols, and what its tail does to the pending run. */
    method CodeFirstBlock(block: Block) returns (r: Outcome)
      requires Core() && mode.Ac? && !mode.params.refine
      modifies this`EOBRUN, this`BE, sink.Repr()
      ensures r != Suspended
      ensures (BlockInRange(mode.params, Zigzag(order, block))
               && old(sink.Accepts(BlockTokens(mode.params, Pend(), Zigzag(order, block))))) ==> r.Ok?
      ensures r.Ok? ==> Core() && sink.done == old(sink.done) && BlockInRange(mode.params, Zigzag(order, block))
      ensures r.Ok? ==> sink.cur == old(sink.cur) + BlockTokens(mode.params, old(Pend()), Zigzag(order, block))
      ensures r.Ok? ==> Pend() == BlockPending(mode.params, old(Pend()), Zigzag(order, block))
    {
      hide TokenSink.Valid, EobTokens, OwnTokens, CodeBlock, JoinTokens, BlockInRange, AllCodable, Zigzag, AfterSyms,
           NBits, IsOrder, RawEach, BlockTokens, BlockPending, Forced;
      BlockTokenParts(sink.Code(), mode.params, Pend(), Zigzag(order, block), sink.cur);
      OwnFits(sink, mode.params, Pend(), Zigzag(order, block), sink.done, sink.cur);
      var run;
      r, run := EncodeAcFirstBand(block);
      if r != Ok {
        return;
      }
      if run > 0 {
        FirstTailEmpty(mode.params, Zigzag(order, block));
        assert bitBuffer[BE..BE + 0] == [];
        r := JoinRun(mode.params.tbl, 0);
      } else {
        NoTokens(sink.cur);
      }
    }

    /** `encode_mcu_AC_first`. */
    method EncodeMcuAcFirst(data: seq<Block>) returns (r: Outcome)
      requires Valid() && mode.Ac? && !mode.params.refine && |data| == 1
      modifies Repr()
      ensures r != Suspended
      ensures (McuOk(mode, Restarted(mode, interval, old(State())).coder, ZigzagAll(order, data))
               && old(CanTake(ZigzagAll(order, data)))) ==> r.Ok?
      ensures r.Ok? ==> McuOk(mode, Restarted(mode, interval, old(State())).coder, ZigzagAll(order, data))
      ensures r.Ok? ==> Valid() && State() == Fed(mode, interval, old(State()), ZigzagAll(order, data))
    {
      hide TokenSink.Valid, EobTokens, BlockTokens, BlockPending, BlockInRange, AllCodable, Zigzag, IsOrder, RawEach;
      EmittedParts(sink, mode, interval, State(), ZigzagAll(order, data));
      r := StartMcu();
      if r != Ok {
        return;
      }
      r := CodeFirstBlock(data[0]);
      if r != Ok {
        return;
      }
      EndMcu();
    }

    // ---------------------------------------------------------------- AC refinement

    /** These can go out. */
    ghost predicate RefinedFits(tbl: nat, sym: nat, sign: Option<bool>, corr: Bits)
      requires BE <= bitBuffer.Length
      reads this, bitBuffer, sink
    {
      sink.gather || (
        && AllCodable(sink.Code(), EobTokens(tbl, Pend())) && AllCodable(sink.Code(), [Sym(tbl, sym)])
        && AllCodable(sink.Code(), RawEach(corr))
        && sink.Fits(sink.done, sink.cur + EobTokens(tbl, Pend()) + [Sym(tbl, sym)] + SignToken(sign) + RawEach(corr)))
    }

    /** The pending run, then a symbol, then its sign bit if it has one, then the correction bits
        that must follow it. */
    method EmitRefined(tbl: nat, sym: nat, sign: Option<bool>, start: nat, nbits: nat) returns (r: Outcome)
      requires sink.Valid() && sink.fatal && BE <= bitBuffer.Length && tbl < NUM_HUFF_TBLS && sym < 256
      requires EOBRUN <= MAX_EOBRUN && (EOBRUN == 0 ==> BE == 0) && start + nbits <= bitBuffer.Length
      modifies this`EOBRUN, this`BE, sink.Repr()
      ensures r != Suspended
      ensures old(RefinedFits(tbl, sym, sign, bitBuffer[start..start + nbits])) ==> r.Ok?
      ensures r.Ok? ==> sink.Valid() && sink.done == old(sink.done) && EOBRUN == 0 && BE == 0
      ensures r.Ok? ==> sink.cur == old(sink.cur) + EobTokens(tbl, old(Pend())) + [Sym(tbl, sym)] + SignToken(sign)
                                    + RawEach(bitBuffer[start..start + nbits])
    {
      hide TokenSink.Valid, TokenSink.Fits, EobTokens, RawEach;
      ghost var eob, corr := EobTokens(tbl, Pend()), RawEach(bitBuffer[start..start + nbits]);
      sink.FitsPart(sink.done, sink.cur + eob + [Sym(tbl, sym)] + SignToken(sign), corr);
      sink.FitsPart(sink.done, sink.cur + eob + [Sym(tbl, sym)], SignToken(sign));
      sink.FitsPart(sink.done, sink.cur + eob, [Sym(tbl, sym)]);
      r := EmitEobrun(tbl);
      if r != Ok {
        return;
      }
      r := sink.EmitSymbol(tbl, sym);
      if r != Ok {
        return;
      }
      if sign.Some? {
        var code := if sign.value then 1 else 0;
        SignBits(sink.Code(), sign.value, code);
        r := sink.EmitBits(code, 1);
        if r != Ok {
          return;
        }
      } else {
        NoTokens(sink.cur);
      }
      r := EmitBufferedBits(start, nbits);
    }

    /** The pre-pass of `encode_mcu_AC_refine`: magnitudes after the point transform, and the last
        coefficient that becomes nonzero. */
    method Magnitudes(block: Block) returns (absvalues: array<nat>, eob: nat)
      requires Core() && mode.Ac?
      ensures fresh(absvalues) && absvalues.Length == 64
      ensures forall k :: mode.params.ss <= k <= mode.params.se ==>
                absvalues[k] == Mag(Zigzag(order, block), mode.params.al, k)
      ensures eob == LastNew(Zigzag(order, block), mode.params.al, mode.params.ss, mode.params.se + 1)
    {
      hide TokenSink.Valid;
      absvalues := new nat[64];
      var m := mode.params;
      ghost var z := Zigzag(order, block);
      eob := 0;
      for k := m.ss to m.se + 1
        invariant forall j :: m.ss <= j < k ==> absvalues[j] == Mag(z, m.al, j)
        invariant eob == LastNew(z, m.al, m.ss, k)
      {
        var temp := Shr(Abs(block[order[k]]), m.al);
        assert z[k] == block[order[k]];
        absvalues[k] := temp;
        if temp == 1 {
          eob := k;
        }
      }
    }

    /** The main loop of `encode_mcu_AC_refine`. On success `run` zeros and the `nbits` correction
        bits behind the pending ones are left over for the end-of-band run. */
    method EncodeAcRefineBand(block: Block) returns (r: Outcome, run: nat, nbits: nat)
      requires Core() && mode.Ac? && mode.params.refine
      modifies this`EOBRUN, this`BE, sink.Repr(), bitBuffer
      ensures r != Suspended
      ensures old(sink.Accepts(OwnTokens(mode.params, Pend(), Zigzag(order, block)))) ==> r.Ok?
      ensures r.Ok? ==> Core() && sink.done == old(sink.done) && BE + nbits <= bitBuffer.Length
      ensures r.Ok? ==> sink.cur == old(sink.cur) + OwnTokens(mode.params, old(Pend()), Zigzag(order, block))
      ensures r.Ok? ==> Pend() == AfterSyms(old(Pend()), CodeBlock(mode.params, Zigzag(order, block)))
      ensures r.Ok? ==> (run > 0 || nbits > 0 <==> CodeBlock(mode.params, Zigzag(order, block)).tail.Some?)
      ensures r.Ok? && (run > 0 || nbits > 0) ==>
                bitBuffer[BE..BE + nbits] == CodeBlock(mode.params, Zigzag(order, block)).tail.value
    {
      hide TokenSink.Valid, EobTokens, AllCodable, RefineTokens, CodeBlock, OwnTokens, RefineRest, Zigzag, CorrBits,
           TailSoFar, LastNew, AfterSyms;
      var absvalues, eob := Magnitudes(block);
      RefineStart(mode.params, Pend(), Zigzag(order, block), eob);
      ghost var p0 := Pend();
      r, run, nbits := RefineLoop(block, absvalues, eob);
      if r.Ok? {
        RefineDone(mode.params, p0, Zigzag(order, block), eob, run, bitBuffer[BE..BE + nbits], Pend(), sink.cur);
      }
    }

    method RefineLoop(block: Block, absvalues: array<nat>, eob: nat) returns (r: Outcome, run: nat, nbits: nat)
      requires Core() && mode.Ac? && mode.params.refine && absvalues.Length == 64
      requires eob == LastNew(Zigzag(order, block), mode.params.al, mode.params.ss, mode.params.se + 1)
      requires eob == 0 ==> TailSoFar(mode.params, Zigzag(order, block), eob, mode.params.ss, 0, [])
      requires forall k :: mode.params.ss <= k <= mode.params.se ==>
                absvalues[k] == Mag(Zigzag(order, block), mode.params.al, k)
      modifies this`EOBRUN, this`BE, sink.Repr(), bitBuffer
      ensures r != Suspended
      ensures old(sink.Accepts(RefineRest(mode.params, Zigzag(order, block), eob, mode.params.ss, 0, [], Pend()))) ==>
          r.Ok?
      ensures r.Ok? ==> Core() && sink.done == old(sink.done) && BE + nbits <= bitBuffer.Length
      ensures r.Ok? ==>
                sink.cur == old(sink.cur)
                  + RefineRest(mode.params, Zigzag(order, block), eob, mode.params.ss, 0, [], old(Pend()))
      ensures r.Ok? ==> Pend() == (if eob == 0 then old(Pend()) else NOTHING)
      ensures r.Ok? ==>
          TailSoFar(mode.params, Zigzag(order, block), eob, mode.params.se + 1, run, bitBuffer[BE..BE + nbits])
    {
      hide TokenSink.Valid, EobTokens, AllCodable, RefineTokens, RefineRest, Zigzag, CorrBits, RawEach, IsOrder,
           TailSoFar, LastNew, SignToken, SignBit, TokenSink.Accepts, Mag, NBits, Zeros;
      var m := mode.params;
      ghost var z, p0 := Zigzag(order, block), Pend();
      ghost var all := RefineRest(m, z, eob, m.ss, 0, [], p0);
      run, nbits := 0, 0;
      var start := BE;
      ghost var br: Bits := [];
      var k := m.ss;
      while k <= m.se
        invariant m.ss <= k <= m.se + 1
        invariant sink.Valid() && sink.done == old(sink.done) && BE <= MAX_CORR_BITS - DCTSIZE2 + 1 && Sane(Pend())
        invariant start == BE && nbits <= k - m.ss && br == bitBuffer[start..start + nbits]
        invariant sink.cur + RefineRest(m, z, eob, k, run, br, Pend()) == old(sink.cur) + all
        invariant old(sink.Accepts(all)) ==> sink.Accepts(RefineRest(m, z, eob, k, run, br, Pend()))
        invariant k > eob ==> Pend() == (if eob == 0 then p0 else NOTHING)
        invariant k > eob ==> TailSoFar(m, z, eob, k, run, br)
        decreases m.se + 1 - k, run
        modifies this`EOBRUN, this`BE, sink.Repr(), bitBuffer
      {
        r, k, run, start, nbits, br := RefineTurn(block, absvalues[k], eob, k, run, start, nbits, br);
        if r != Ok {
          return;
        }
      }
      RestDone(m, z, eob, run, br, Pend(), sink.cur);
      return Ok, run, nbits;
    }

    /** The body of its loop: coefficient `k`, or a ZRL before it. */
    method RefineTurn(block: Block, temp: nat, eob: nat, k0: nat, run0: nat, start0: nat, nbits0: nat, ghost br0: Bits)
      returns (r: Outcome, k: nat, run: nat, start: nat, nbits: nat, ghost br: Bits)
      requires mode.Ac? && mode.params.refine && mode.params.ss <= k0 <= mode.params.se
      requires mode.params.tbl < NUM_HUFF_TBLS
      requires IsOrder(order) && bitBuffer.Length == MAX_CORR_BITS
      requires eob == LastNew(Zigzag(order, block), mode.params.al, mode.params.ss, mode.params.se + 1)
      requires temp == Mag(Zigzag(order, block), mode.params.al, k0)
      requires sink.Valid() && sink.fatal && BE <= MAX_CORR_BITS - DCTSIZE2 + 1 && Sane(Pend())
      requires start0 == BE && nbits0 <= k0 - mode.params.ss && br0 == bitBuffer[start0..start0 + nbits0]
      requires k0 > eob ==> TailSoFar(mode.params, Zigzag(order, block), eob, k0, run0, br0)
      modifies this`EOBRUN, this`BE, sink.Repr(), bitBuffer
      ensures r != Suspended
      ensures old(sink.Accepts(RefineRest(mode.params, Zigzag(order, block), eob, k0, run0, br0, Pend()))) ==> r.Ok?
      ensures r.Ok? ==> BE <= MAX_CORR_BITS - DCTSIZE2 + 1 && Sane(Pend())
      ensures r.Ok? && old(sink.Accepts(RefineRest(mode.params, Zigzag(order, block), eob, k0, run0, br0, Pend()))) ==>
                sink.Accepts(RefineRest(mode.params, Zigzag(order, block), eob, k, run, br, Pend()))
      ensures r.Ok? ==>
          mode.params.ss <= k <= mode.params.se + 1 && (k == k0 + 1 || (k == k0 && run < run0 && k <= eob))
      ensures r.Ok? ==> sink.Valid() && sink.done == old(sink.done)
      ensures r.Ok? ==> start == BE && nbits <= k - mode.params.ss && br == bitBuffer[start..start + nbits]
      ensures r.Ok? ==>
                sink.cur + RefineRest(mode.params, Zigzag(order, block), eob, k, run, br, Pend())
                == old(sink.cur) + RefineRest(mode.params, Zigzag(order, block), eob, k0, run0, br0, old(Pend()))
      ensures r.Ok? ==> Pend() == old(Pend()) || (Pend() == NOTHING && k0 <= eob)
      ensures r.Ok? && k > eob > 0 ==> Pend() == NOTHING || k0 > eob
      ensures r.Ok? && k > eob ==> TailSoFar(mode.params, Zigzag(order, block), eob, k, run, br)
    {
      hide TokenSink.Valid, EobTokens, AllCodable, RefineTokens, RefineRest, Zigzag, CorrBits, RawEach, IsOrder,
           TailSoFar, LastNew, SignToken, SignBit, TokenSink.Accepts, Mag, NBits, Zeros;
      var m := mode.params;
      ghost var z := Zigzag(order, block);
      r, k, run, start, nbits, br := Ok, k0, run0, start0, nbits0, br0;
      if temp == 0 {
        RefineSkip(m, z, eob, k, run, br, Pend());
        run, k := run + 1, k + 1;
      } else if run > 15 && k <= eob {
        r := EmitZrl(z, eob, k, run, start, nbits);
        if r != Ok {
          return;
        }
        run, start, nbits, br := run - 16, 0, 0, [];
      } else if temp > 1 {
        RefineCorrection(m, z, eob, k, run, br, Pend());
        br := StoreCorrection(start, nbits, temp % 2 == 1, br);
        nbits, k := nbits + 1, k + 1;
      } else {
        r := EmitNew(block, eob, k, run, start, nbits);
        if r != Ok {
          return;
        }
        run, start, nbits, br := 0, 0, 0, [];
        k := k + 1;
      }
    }

    /** A ZRL, with the pending run before it and the correction bits after it. */
    method EmitZrl(ghost z: Block, ghost eob: nat, ghost k: nat, ghost run: nat, start: nat, nbits: nat)
      returns (r: Outcome)
      requires sink.Valid() && sink.fatal && BE <= bitBuffer.Length && mode.Ac? && mode.params.refine
      requires mode.params.tbl < NUM_HUFF_TBLS
      requires EOBRUN <= MAX_EOBRUN && (EOBRUN == 0 ==> BE == 0) && start + nbits <= bitBuffer.Length
      requires mode.params.ss <= k <= eob <= mode.params.se && Mag(z, mode.params.al, k) > 0 && run > 15
      modifies this`EOBRUN, this`BE, sink.Repr()
      ensures r != Suspended
      ensures var all := RefineRest(mode.params, z, eob, k, run, bitBuffer[start..start + nbits], old(Pend()));
        var rest := RefineRest(mode.params, z, eob, k, run - 16, [], NOTHING);
        && (old(sink.Accepts(all)) ==> r.Ok? && sink.Accepts(rest))
        && (r.Ok? ==> sink.cur + rest == old(sink.cur) + all)
      ensures r.Ok? ==> sink.Valid() && sink.done == old(sink.done) && EOBRUN == 0 && BE == 0
    {
      hide TokenSink.Valid, EobTokens, AllCodable, RefineRest, RawEach;
      RefineZrl(sink.Code(), mode.params, z, eob, k, run, bitBuffer[start..start + nbits], Pend(), sink.cur);
      sink.FitsPart(sink.done, (((sink.cur + EobTokens(mode.params.tbl, Pend())) + [Sym(mode.params.tbl, ZRL)])
                                + SignToken(None)) + RawEach(bitBuffer[start..start + nbits]),
                    RefineRest(mode.params, z, eob, k, run - 16, [], NOTHING));
      r := EmitRefined(mode.params.tbl, ZRL, None, start, nbits);
    }

    /** A newly nonzero coefficient, with the pending run before it and the correction bits after it. */
    method EmitNew(block: Block, ghost eob: nat, k: nat, run: nat, start: nat, nbits: nat) returns (r: Outcome)
      requires sink.Valid() && sink.fatal && BE <= bitBuffer.Length && mode.Ac? && mode.params.refine
      requires mode.params.tbl < NUM_HUFF_TBLS
      requires EOBRUN <= MAX_EOBRUN && (EOBRUN == 0 ==> BE == 0) && start + nbits <= bitBuffer.Length
      requires IsOrder(order) && mode.params.ss <= k <= mode.params.se
      requires var z := Zigzag(order, block);
        eob == LastNew(z, mode.params.al, mode.params.ss, mode.params.se + 1) && Mag(z, mode.params.al, k) == 1
      requires run <= 15 || k > eob
      modifies this`EOBRUN, this`BE, sink.Repr()
      ensures r != Suspended
      ensures var z := Zigzag(order, block);
        var all := RefineRest(mode.params, z, eob, k, run, bitBuffer[start..start + nbits], old(Pend()));
        var rest := RefineRest(mode.params, z, eob, k + 1, 0, [], NOTHING);
        && (old(sink.Accepts(all)) ==> r.Ok? && sink.Accepts(rest))
        && (r.Ok? ==> sink.cur + rest == old(sink.cur) + all)
        && (k == eob ==> TailSoFar(mode.params, z, eob, k + 1, 0, []))
        && k <= eob
      ensures r.Ok? ==> sink.Valid() && sink.done == old(sink.done) && EOBRUN == 0 && BE == 0
    {
      hide TokenSink.Valid, EobTokens, AllCodable, RefineRest, RawEach, Zigzag, IsOrder, TailSoFar, SignToken,
           SignBit;
      RefineNew(sink.Code(), mode.params, Zigzag(order, block), eob, k, run, bitBuffer[start..start + nbits], Pend(),
                sink.cur);
      var sign := Negative(block, k);
      sink.FitsPart(sink.done, (((sink.cur + EobTokens(mode.params.tbl, Pend())) + [Sym(mode.params.tbl, 16 * run + 1)])
                                + SignToken(Some(!sign))) + RawEach(bitBuffer[start..start + nbits]),
                    RefineRest(mode.params, Zigzag(order, block), eob, k + 1, 0, [], NOTHING));
      r := EmitRefined(mode.params.tbl, 16 * run + 1, Some(!sign), start, nbits);
    }

    /** One more correction bit behind the pending ones. */
    method StoreCorrection(start: nat, nbits: nat, bit: bool, ghost br: Bits) returns (ghost br': Bits)
      requires BE <= start && start + nbits < bitBuffer.Length && br == bitBuffer[start..start + nbits]
      modifies bitBuffer
      ensures br' == br + [bit] == bitBuffer[start..start + nbits + 1]
      ensures bitBuffer[..BE] == old(bitBuffer[..BE])
    {
      bitBuffer[start + nbits] := bit;
      br' := br + [bit];
    }

    /** One block of a refinement AC scan: its own symbols, and what its tail does to the pending run. */
    method CodeRefinedBlock(block: Block) returns (r: Outcome)
      requires Core() && mode.Ac? && mode.params.refine
      modifies this`EOBRUN, this`BE, sink.Repr(), bitBuffer
      ensures r != Suspended
      ensures old(sink.Accepts(BlockTokens(mode.params, Pend(), Zigzag(order, block)))) ==>
        r.Ok?
      ensures r.Ok? ==> Core() && sink.done == old(sink.done) && BlockInRange(mode.params, Zigzag(order, block))
      ensures r.Ok? ==> sink.cur == old(sink.cur) + BlockTokens(mode.params, old(Pend()), Zigzag(order, block))
      ensures r.Ok? ==> Pend() == BlockPending(mode.params, old(Pend()), Zigzag(order, block))
    {
      hide TokenSink.Valid, EobTokens, OwnTokens, CodeBlock, JoinTokens, AllCodable, Zigzag, AfterSyms, NBits,
           IsOrder, RawEach, BlockTokens, BlockPending, Forced;
      BlockTokenParts(sink.Code(), mode.params, Pend(), Zigzag(order, block), sink.cur);
      OwnFits(sink, mode.params, Pend(), Zigzag(order, block), sink.done, sink.cur);
      var run, nbits;
      r, run, nbits := EncodeAcRefineBand(block);
      if r != Ok {
        return;
      }
      if run > 0 || nbits > 0 {
        r := JoinRun(mode.params.tbl, nbits);
      } else {
        NoTokens(sink.cur);
      }
    }

    /** `encode_mcu_AC_refine`. */
    method EncodeMcuAcRefine(data: seq<Block>) returns (r: Outcome)
      requires Valid() && mode.Ac? && mode.params.refine && |data| == 1
      modifies Repr()
      ensures r != Suspended
      ensures (McuOk(mode, Restarted(mode, interval, old(State())).coder, ZigzagAll(order, data))
               && old(CanTake(ZigzagAll(order, data)))) ==> r.Ok?
      ensures r.Ok? ==> McuOk(mode, Restarted(mode, interval, old(State())).coder, ZigzagAll(order, data))
      ensures r.Ok? ==> Valid() && State() == Fed(mode, interval, old(State()), ZigzagAll(order, data))
    {
      hide TokenSink.Valid, EobTokens, BlockTokens, BlockPending, BlockInRange, AllCodable, Zigzag, IsOrder, RawEach;
      EmittedParts(sink, mode, interval, State(), ZigzagAll(order, data));
      r := StartMcu();
      if r != Ok {
        return;
      }
      r := CodeRefinedBlock(data[0]);
      if r != Ok {
        return;
      }
      EndMcu();
    }

    /** The pending run has codes, and the destination has room for the finished scan. */
    ghost predicate CanFinish()
      requires BE <= bitBuffer.Length && (mode.Ac? || |mode.comps| <= lastDcVal.Length)
      reads this, bitBuffer, lastDcVal, sink
    {
      sink.gather || (AllCodable(sink.Code(), FlushTokens(mode, TheCoder()))
                      && FitsFinished(sink, Finished(mode, State())))
    }

    /** The end of the pass (`finish_pass_phuff`, and the counting part of
        `finish_pass_gather_phuff`): the last pending run goes out. In an output pass the bytes are
        then the whole scan; in a statistics pass the counts are those of the same tokens. */
    method FinishPass() returns (r: Outcome)
      requires Valid()
      modifies Repr()
      ensures r != Suspended
      ensures old(CanFinish()) ==> r.Ok?
      ensures r.Ok? && sink.gather ==> sink.counts.Length0 == NUM_HUFF_TBLS && sink.counts.Length1 == 257
      ensures r.Ok? && sink.gather ==> sink.Counted(Flatten(Finished(mode, old(State()))))
      ensures r.Ok? && !sink.gather ==>
                sink.w.out == ScanOutput(sink.Code(), Finished(mode, old(State())))
                && SegmentsCodable(sink.Code(), Finished(mode, old(State())))
                && sink.w.free > 0 && (sink.w.suspending ==> sink.w.free + |sink.w.out| == sink.room)
    {
      hide ScanOutput, EobTokens;
      ghost var segs := Finished(mode, State());
      FinishFits(sink, sink.done, sink.cur + FlushTokens(mode, TheCoder()));
      if mode.Ac? {
        r := EmitEobrun(mode.params.tbl);
        if r != Ok {
          return;
        }
      } else {
        NoTokens(sink.cur);
      }
      assert sink.done + [sink.cur] == segs;
      r := sink.Finish();
    }

    method Negative(block: Block, k: nat) returns (b: bool)
      requires IsOrder(order) && k < 64
      ensures b == !SignBit(Zigzag(order, block)[k])
    {
      b := block[order[k]] < 0;
    }
  }

  ghost predicate FitsFinished(sink: TokenSink, segs: seq<seq<Token>>)
    requires segs != []
  {
    sink.w.suspending ==> |ScanOutput(sink.Code(), segs)| < |sink.before| + sink.room
  }

  /** Room for the finished scan is room for what is complete before the padding. */
  lemma FinishFits(sink: TokenSink, done: seq<seq<Token>>, cur: seq<Token>)
    ensures FitsFinished(sink, done + [cur]) ==> sink.Fits(done, cur)
  {
    CompleteFinish(sink.Code(), done, cur);
  }

  function SignToken(sign: Option<bool>): seq<Token>
  {
    if sign.Some? then [Raw([sign.value])] else []
  }

  lemma SignBits(c: Codec, sign: bool, code: nat)
    requires code == if sign then 1 else 0
    ensures [Raw(BitsOf(code, 1))] == SignToken(Some(sign)) && AllCodable(c, [Raw(BitsOf(code, 1))])
  {
    assert BitsOf(code, 1) == BitsOf(code / 2, 0) + [code % 2 == 1];
    assert BitsOf(code, 1) == [sign];
    StreamOne(c, Raw(BitsOf(code, 1)));
  }

  /** What a refinement scan still has to emit of a block, from position `k` on. */
  function RefineRest(m: Params, z: Block, eob: nat, k: nat, run: nat, br: Bits, p: Pending): seq<Token>
    requires eob < 64
  {
    if k <= eob then EobTokens(m.tbl, p) + RefineTokens(m.tbl, z, m.al, k, eob, run, br) else []
  }

  /** Past the last newly nonzero coefficient: the zeros and corrections left for the run. */
  ghost predicate TailSoFar(m: Params, z: Block, eob: nat, k: nat, run: nat, br: Bits)
    requires k <= 64
  {
    var s := if eob == 0 then m.ss else eob + 1;
    s <= k && br == CorrBits(z, m.al, s, k) && run + |br| == k - s
  }

  lemma RefineStart(m: Params, p: Pending, z: Block, eob: nat)
    requires m.refine && eob == LastNew(z, m.al, m.ss, m.se + 1)
    ensures eob <= m.se && (eob == 0 || m.ss <= eob)
    ensures OwnTokens(m, p, z) == RefineRest(m, z, eob, m.ss, 0, [], p)
    ensures eob == 0 ==> TailSoFar(m, z, eob, m.ss, 0, [])
  {
    if eob != 0 {
      RefineTokensNonempty(m.tbl, z, m.al, m.ss, eob, 0, []);
    }
  }

  lemma RefineSkip(m: Params, z: Block, eob: nat, k: nat, run: nat, br: Bits, p: Pending)
    requires m.refine && m.ss <= k <= m.se && eob == LastNew(z, m.al, m.ss, m.se + 1) && Mag(z, m.al, k) == 0
    ensures RefineRest(m, z, eob, k, run, br, p) == RefineRest(m, z, eob, k + 1, run + 1, br, p)
    ensures k != eob
    ensures k > eob && TailSoFar(m, z, eob, k, run, br) ==> TailSoFar(m, z, eob, k + 1, run + 1, br)
  {
  }

  lemma RefineCorrection(m: Params, z: Block, eob: nat, k: nat, run: nat, br: Bits, p: Pending)
    requires m.refine && m.ss <= k <= m.se && eob == LastNew(z, m.al, m.ss, m.se + 1) && Mag(z, m.al, k) > 1
    requires run <= 15 || k > eob
    ensures RefineRest(m, z, eob, k, run, br, p)
         == RefineRest(m, z, eob, k + 1, run, br + [Mag(z, m.al, k) % 2 == 1], p)
    ensures k != eob
    ensures k > eob && TailSoFar(m, z, eob, k, run, br) ==>
              TailSoFar(m, z, eob, k + 1, run, br + [Mag(z, m.al, k) % 2 == 1])
  {
  }

  lemma RefineZrl(c: Codec, m: Params, z: Block, eob: nat, k: nat, run: nat, br: Bits, p: Pending, ts: seq<Token>)
    requires m.refine && m.ss <= k <= eob <= m.se && Mag(z, m.al, k) > 0 && run > 15
    ensures var sym, rest := [Sym(m.tbl, ZRL)], RefineRest(m, z, eob, k, run - 16, [], NOTHING);
      && ts + RefineRest(m, z, eob, k, run, br, p)
         == ((((ts + EobTokens(m.tbl, p)) + sym) + SignToken(None)) + RawEach(br)) + rest
      && (AllCodable(c, RefineRest(m, z, eob, k, run, br, p)) <==>
            AllCodable(c, EobTokens(m.tbl, p)) && AllCodable(c, sym) && AllCodable(c, RawEach(br))
              && AllCodable(c, rest))
  {
    var later := RefineTokens(m.tbl, z, m.al, k, eob, run - 16, []);
    NoTokens(later);
    assert RefineRest(m, z, eob, k, run - 16, [], NOTHING) == later;
    Spread(c, ts, EobTokens(m.tbl, p), [Sym(m.tbl, ZRL)], [], RawEach(br), later);
  }

  lemma RefineNew(c: Codec, m: Params, z: Block, eob: nat, k: nat, run: nat, br: Bits, p: Pending, ts: seq<Token>)
    requires m.refine && m.ss <= k <= m.se && eob == LastNew(z, m.al, m.ss, m.se + 1) && Mag(z, m.al, k) == 1
    requires run <= 15 || k > eob
    ensures k <= eob && run <= 15
    ensures var sym, rest := [Sym(m.tbl, 16 * run + 1)], RefineRest(m, z, eob, k + 1, 0, [], NOTHING);
      && ts + RefineRest(m, z, eob, k, run, br, p)
         == ((((ts + EobTokens(m.tbl, p)) + sym) + SignToken(Some(SignBit(z[k])))) + RawEach(br)) + rest
      && (AllCodable(c, RefineRest(m, z, eob, k, run, br, p)) <==>
            AllCodable(c, EobTokens(m.tbl, p)) && AllCodable(c, sym) && AllCodable(c, RawEach(br))
              && AllCodable(c, rest))
    ensures k == eob ==> TailSoFar(m, z, eob, k + 1, 0, [])
  {
    var later := RefineTokens(m.tbl, z, m.al, k + 1, eob, 0, []);
    NoTokens(later);
    assert RefineRest(m, z, eob, k + 1, 0, [], NOTHING) == later;
    StreamOne(c, Raw([SignBit(z[k])]));
    assert NewTokens(m.tbl, run, z[k], br) == [Sym(m.tbl, 16 * run + 1)] + SignToken(Some(SignBit(z[k]))) + RawEach(br);
    Spread(c, ts, EobTokens(m.tbl, p), [Sym(m.tbl, 16 * run + 1)], SignToken(Some(SignBit(z[k]))), RawEach(br), later);
  }

  lemma Spread(c: Codec, ts: seq<Token>, a: seq<Token>, b: seq<Token>, d: seq<Token>, e: seq<Token>, f: seq<Token>)
    ensures ts + (a + ((b + d + e) + f)) == ((((ts + a) + b) + d) + e) + f
    ensures d == [] ==> ts + (a + ((b + e) + f)) == ((((ts + a) + b) + d) + e) + f
    ensures AllCodable(c, a + ((b + d + e) + f)) <==>
              AllCodable(c, a) && AllCodable(c, b) && AllCodable(c, d) && AllCodable(c, e) && AllCodable(c, f)
    ensures d == [] ==> a + ((b + d + e) + f) == a + ((b + e) + f)
  {
    CodableAppend(c, a, (b + d + e) + f);
    CodableAppend(c, b + d + e, f);
    CodableAppend(c, b + d, e);
    CodableAppend(c, b, d);
  }

  lemma RestDone(m: Params, z: Block, eob: nat, run: nat, br: Bits, p: Pending, ts: seq<Token>)
    requires m.refine && eob == LastNew(z, m.al, m.ss, m.se + 1)
    ensures eob <= m.se
    ensures ts + RefineRest(m, z, eob, m.se + 1, run, br, p) == ts
  {
  }

  lemma RefineDone(m: Params, p0: Pending, z: Block, eob: nat, run: nat, br: Bits, p: Pending, ts: seq<Token>)
    requires m.refine && eob == LastNew(z, m.al, m.ss, m.se + 1)
    requires TailSoFar(m, z, eob, m.se + 1, run, br) && p == (if eob == 0 then p0 else NOTHING)
    ensures ts + RefineRest(m, z, eob, m.se + 1, run, br, p) == ts
    ensures p == AfterSyms(p0, CodeBlock(m, z))
    ensures run > 0 || |br| > 0 <==> CodeBlock(m, z).tail.Some?
    ensures CodeBlock(m, z).tail.Some? ==> br == CodeBlock(m, z).tail.value
  {
    if eob != 0 {
      RefineTokensNonempty(m.tbl, z, m.al, m.ss, eob, 0, []);
    }
  }

  /** What a block emits when its tail has joined the run `p`. */
  function JoinTokens(tbl: nat, p: Pending): seq<Token>
  {
    if Forced(p) then EobTokens(tbl, p) else []
  }

  function JoinPending(p: Pending): Pending
  {
    if Forced(p) then NOTHING else p
  }

  lemma FirstTailEmpty(m: Params, z: Block)
    requires !m.refine && CodeBlock(m, z).tail.Some?
    ensures CodeBlock(m, z).tail.value == []
  {
  }

  lemma BlockTokenParts(c: Codec, m: Params, p: Pending, z: Block, ts: seq<Token>)
    ensures var cd, own := CodeBlock(m, z), OwnTokens(m, p, z);
      var p0 := AfterSyms(p, cd);
      var join := if cd.tail.Some? then JoinTokens(m.tbl, Joined(p0, cd.tail.value)) else [];
      && ts + BlockTokens(m, p, z) == (ts + own) + join
      && (AllCodable(c, BlockTokens(m, p, z)) <==> AllCodable(c, own) && AllCodable(c, join))
      && BlockPending(m, p, z) == (if cd.tail.Some? then JoinPending(Joined(p0, cd.tail.value)) else p0)
  {
    var cd, own := CodeBlock(m, z), OwnTokens(m, p, z);
    var p0 := AfterSyms(p, cd);
    var join := if cd.tail.Some? then JoinTokens(m.tbl, Joined(p0, cd.tail.value)) else [];
    assert BlockTokens(m, p, z) == own + join;
    CodableAppend(c, own, join);
    Moved(ts, own, join);
  }

  lemma OwnFits(sink: TokenSink, m: Params, p: Pending, z: Block, done: seq<seq<Token>>, ts: seq<Token>)
    ensures sink.Fits(done, ts + BlockTokens(m, p, z)) ==> sink.Fits(done, ts + OwnTokens(m, p, z))
  {
    hide OwnTokens, BlockTokens, JoinTokens;
    BlockTokenParts(sink.Code(), m, p, z, ts);
    var cd := CodeBlock(m, z);
    sink.FitsPart(done, ts + OwnTokens(m, p, z),
                  if cd.tail.Some? then JoinTokens(m.tbl, Joined(AfterSyms(p, cd), cd.tail.value)) else []);
  }

  /** The tokens of a block itself, with the pending run they end, before its tail joins a run. */
  function OwnTokens(m: Params, p: Pending, z: Block): seq<Token>
  {
    var cd := CodeBlock(m, z);
    if cd.syms == [] then [] else EobTokens(m.tbl, p) + cd.syms
  }

  /** What a first AC scan still has to emit of a block, from position `k` on. */
  function FirstRest(m: Params, y: Block, k: nat, run: nat, p: Pending): seq<Token>
  {
    if BandTokens(m.tbl, y, k, m.se, run) == [] then [] else EobTokens(m.tbl, p) + BandTokens(m.tbl, y, k, m.se, run)
  }

  lemma FirstStart(m: Params, p: Pending, z: Block)
    requires !m.refine
    ensures var y := Transformed(z, m.al);
      && OwnTokens(m, p, z) == FirstRest(m, y, m.ss, 0, p)
      && CodeBlock(m, z) == Coded(BandTokens(m.tbl, y, m.ss, m.se, 0), if y[m.se] != 0 then None else Some([]))
  {
  }

  lemma FirstSkip(m: Params, y: Block, k: nat, run: nat, p: Pending)
    requires k <= m.se && y[k] == 0
    ensures BandTokens(m.tbl, y, k, m.se, run) == BandTokens(m.tbl, y, k + 1, m.se, run + 1)
    ensures FirstRest(m, y, k, run, p) == FirstRest(m, y, k + 1, run + 1, p)
    ensures BandInRange(y, k, m.se) <==> BandInRange(y, k + 1, m.se)
  {
  }

  lemma FirstStep(c: Codec, m: Params, y: Block, k: nat, run: nat, p: Pending, ts: seq<Token>)
    requires k <= m.se && y[k] != 0
    ensures BandTokens(m.tbl, y, k, m.se, run) != []
    ensures var eob, coef, rest := EobTokens(m.tbl, p), CoefTokens(m.tbl, run, y[k]),
        FirstRest(m, y, k + 1, 0, NOTHING);
      && ts + FirstRest(m, y, k, run, p) == ((ts + eob) + coef) + rest
      && (AllCodable(c, FirstRest(m, y, k, run, p)) <==>
            AllCodable(c, eob) && AllCodable(c, coef) && AllCodable(c, rest))
    ensures BandInRange(y, k, m.se) <==> NBits(Abs(y[k])) <= 10 && BandInRange(y, k + 1, m.se)
  {
    var eob, coef, rest := EobTokens(m.tbl, p), CoefTokens(m.tbl, run, y[k]), FirstRest(m, y, k + 1, 0, NOTHING);
    NoTokens(BandTokens(m.tbl, y, k + 1, m.se, 0));
    assert rest == BandTokens(m.tbl, y, k + 1, m.se, 0);
    assert FirstRest(m, y, k, run, p) == eob + (coef + rest);
    CodableAppend(c, eob, coef + rest);
    CodableAppend(c, coef, rest);
    Moved(ts, eob, coef + rest);
    Moved(ts + eob, coef, rest);
  }

  lemma FirstDone(m: Params, y: Block, run: nat, p: Pending, ts: seq<Token>)
    ensures BandTokens(m.tbl, y, m.se + 1, m.se, run) == []
    ensures ts + FirstRest(m, y, m.se + 1, run, p) == ts
    ensures BandInRange(y, m.se + 1, m.se)
  {
  }

  /** The destination has room for all the encoder has completed in state `e`. */
  ghost predicate FitsFed(sink: TokenSink, e: Enc) { sink.Fits(e.done, e.cur) }

  /** What an MCU emits: the flush of a restart that is due, and its own tokens. */
  lemma EmittedParts(sink: TokenSink, mode: ScanMode, interval: nat, e: Enc, mcu: Mcu)
    requires Fitting(mode, e.coder) && |mcu| == mode.BlocksInMcu()
    ensures var flush := if interval > 0 && e.togo == 0 then FlushTokens(mode, e.coder) else [];
      AllCodable(sink.Code(), NewlyEmitted(mode, interval, e, mcu)) <==>
        AllCodable(sink.Code(), flush)
        && AllCodable(sink.Code(), McuTokens(mode, Restarted(mode, interval, e).coder, mcu))
    ensures FitsFed(sink, Fed(mode, interval, e, mcu)) && interval > 0 && e.togo == 0 ==>
      sink.Fits(e.done + [e.cur + FlushTokens(mode, e.coder)], [])
    ensures FitsFed(sink, Fed(mode, interval, e, mcu)) ==>
      var e1 := Restarted(mode, interval, e);
      sink.Fits(e1.done, e1.cur + McuTokens(mode, e1.coder, mcu))
  {
    CodableAppend(sink.Code(), if interval > 0 && e.togo == 0 then FlushTokens(mode, e.coder) else [],
                  McuTokens(mode, Restarted(mode, interval, e).coder, mcu));
    var e1 := Restarted(mode, interval, e);
    sink.FitsPart(e1.done, e1.cur, McuTokens(mode, e1.coder, mcu));
  }

  lemma DcRefineStep(c: Codec, mode: ScanMode, last: seq<int>, mcu: Mcu, j: nat, ts: seq<Token>)
    requires mode.DcRefine? && |last| == |mode.comps| && j < |mcu| == |mode.membership|
    ensures var now := [Raw(BitsOf(Shr(mcu[j][0], mode.al), 1))];
      && ts + BlocksCode(mode, last, mcu, j) == (ts + now) + BlocksCode(mode, last, mcu, j + 1)
      && BlocksLast(mode, last, mcu, j) == BlocksLast(mode, last, mcu, j + 1)
      && (BlocksOk(mode, last, mcu, j) <==> BlocksOk(mode, last, mcu, j + 1))
      && (AllCodable(c, BlocksCode(mode, last, mcu, j)) <==>
            AllCodable(c, now) && AllCodable(c, BlocksCode(mode, last, mcu, j + 1)))
  {
    BlocksCodeStep(c, mode, last, mcu, j, []);
    var v := Shr(mcu[j][0], mode.al);
    assert BitsOf(v, 1) == BitsOf(v / 2, 0) + [v % 2 == 1];
    assert BitsOf(v, 1) == [v % 2 == 1];
    assert last[mode.membership[j] := last[mode.membership[j]]] == last;
    Moved(ts, [Raw(BitsOf(v, 1))], BlocksCode(mode, last, mcu, j + 1));
  }

  lemma DcFirstStep(c: Codec, mode: ScanMode, last: seq<int>, mcu: Mcu, j: nat, ts: seq<Token>)
    requires mode.DcFirst? && |last| == |mode.comps| && j < |mcu| == |mode.membership|
    ensures var ci := mode.membership[j];
      var v := Shr(mcu[j][0], mode.al);
      var now := DiffTokens(mode.comps[ci].dcTbl, v - last[ci]);
      var last' := last[ci := v];
      && ts + BlocksCode(mode, last, mcu, j) == (ts + now) + BlocksCode(mode, last', mcu, j + 1)
      && BlocksLast(mode, last, mcu, j) == BlocksLast(mode, last', mcu, j + 1)
      && (BlocksOk(mode, last, mcu, j) <==> NBits(Abs(v - last[ci])) <= 11 && BlocksOk(mode, last', mcu, j + 1))
      && (AllCodable(c, BlocksCode(mode, last, mcu, j)) <==>
            AllCodable(c, now) && AllCodable(c, BlocksCode(mode, last', mcu, j + 1)))
  {
    hide AllCodable, DiffTokens, NBits, BlocksCode, BlocksLast, BlocksOk;
    BlocksUnfold(mode, last, mcu, j);
    var ci := mode.membership[j];
    var v := Shr(mcu[j][0], mode.al);
    CodableAppend(c, DiffTokens(mode.comps[ci].dcTbl, v - last[ci]), BlocksCode(mode, last[ci := v], mcu, j + 1));
    Moved(ts, DiffTokens(mode.comps[ci].dcTbl, v - last[ci]), BlocksCode(mode, last[ci := v], mcu, j + 1));
  }

  lemma BlocksUnfold(mode: ScanMode, last: seq<int>, mcu: Mcu, j: nat)
    requires mode.DcFirst? && |last| == |mode.comps| && j < |mcu| == |mode.membership|
    ensures var ci := mode.membership[j];
      var v := Shr(mcu[j][0], mode.al);
      var last' := last[ci := v];
      && BlocksCode(mode, last, mcu, j) == DiffTokens(mode.comps[ci].dcTbl, v - last[ci])
          + BlocksCode(mode, last', mcu, j + 1)
      && BlocksLast(mode, last, mcu, j) == BlocksLast(mode, last', mcu, j + 1)
      && (BlocksOk(mode, last, mcu, j) <==> NBits(Abs(v - last[ci])) <= 11 && BlocksOk(mode, last', mcu, j + 1))
  {
    hide DiffTokens, NBits;
  }

  lemma NoRaw(bits: Bits, ts: seq<Token>)
    ensures bits[0..] == bits && ts + RawEach(bits[|bits|..]) == ts
  {
  }

  lemma NoEob(tbl: nat, p: Pending, ts: seq<Token>)
    requires p.eobrun == 0
    ensures ts + EobTokens(tbl, p) == ts
  {
  }

  lemma Appended3(ts: seq<Token>, a: seq<Token>, b: seq<Token>, c: seq<Token>)
    ensures ts + a + b + c == ts + (a + b + c)
    ensures b == [] ==> ts + a + c == ts + (a + b + c)
  {
  }

  lemma FitParts3(sink: TokenSink, done: seq<seq<Token>>, ts: seq<Token>, a: seq<Token>, b: seq<Token>, c: seq<Token>)
    ensures sink.Fits(done, ts + (a + b + c)) ==> sink.Fits(done, ts + a) && sink.Fits(done, ts + a + b)
  {
    hide TokenSink.Fits;
    Appended3(ts, a, b, c);
    sink.FitsPart(done, ts + a + b, c);
    sink.FitsPart(done, ts + a, b);
  }

  lemma RunBits(n: nat)
    requires 0 < n <= MAX_EOBRUN
    ensures 1 <= NBits(n) <= 15
  {
    NBitsAtMost(n, 15);
    assert Pow2(15) == 0x8000 by { assert Pow2(5) == 32; assert Pow2(10) == 1024; }
  }

  lemma EobParts(c: Codec, tbl: nat, n: nat, corr: Bits)
    requires n > 0
    ensures var nb := NBits(n) - 1;
      var run: seq<Token> := if nb > 0 then [Raw(BitsOf(n, nb))] else [];
      && EobTokens(tbl, Pending(n, corr)) == [Sym(tbl, 16 * nb)] + run + RawEach(corr)
      && (AllCodable(c, EobTokens(tbl, Pending(n, corr))) <==>
            AllCodable(c, [Sym(tbl, 16 * nb)]) && AllCodable(c, run) && AllCodable(c, RawEach(corr)))
  {
    var nb := NBits(n) - 1;
    var run: seq<Token> := if nb > 0 then [Raw(BitsOf(n, nb))] else [];
    CodableAppend(c, [Sym(tbl, 16 * nb)] + run, RawEach(corr));
    CodableAppend(c, [Sym(tbl, 16 * nb)], run);
  }

  lemma EachBit(c: Codec, bits: Bits, i: nat, code: nat)
    requires i < |bits| && code == if bits[i] then 1 else 0
    ensures RawEach(bits[i..]) == [Raw(BitsOf(code, 1))] + RawEach(bits[i + 1..])
    ensures AllCodable(c, RawEach(bits[i..])) <==>
              AllCodable(c, [Raw(BitsOf(code, 1))]) && AllCodable(c, RawEach(bits[i + 1..]))
  {
    assert BitsOf(code, 1) == BitsOf(code / 2, 0) + [code % 2 == 1];
    assert BitsOf(code, 1) == [bits[i]];
    assert bits[i..][0] == bits[i] && bits[i..][1..] == bits[i + 1..];
    CodableAppend(c, [Raw(BitsOf(code, 1))], RawEach(bits[i + 1..]));
  }
}
