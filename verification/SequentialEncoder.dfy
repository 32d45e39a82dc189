/** The sequential Huffman entropy encoder of `jchuff.c`: a saved state that only a completed MCU
    updates, so that a destination may suspend at any byte. */
module SequentialEncoding {
  import opened Wrappers
  import opened BitStrings
  import opened EntropySegments
  import opened BitOutput
  import opened HuffmanTables
  import opened JpegLimits
  import opened Coding
  import opened RunLength
  import opened AcScans
  import opened Scans
  import opened ScanStreams
  import opened TokenSinks
  import opened CoefficientOutput
  import opened Zigzags

  /** What is still to emit of a sequential block from AC position `k` on. */
  function BlockRest(tbl: nat, z: Block, k: nat, run: nat): seq<Token>
  {
    BandTokens(tbl, z, k, 63, run) + EndOfBlock(tbl, z)
  }

  function EndOfBlock(tbl: nat, z: Block): seq<Token>
  {
    if z[63] == 0 then [Sym(tbl, 0)] else []
  }

  lemma BlockStart(c: Codec, dcTbl: nat, acTbl: nat, last: int, z: Block, ts: seq<Token>)
    ensures var diff, rest := DiffTokens(dcTbl, z[0] - last), BlockRest(acTbl, z, 1, 0);
      && ts + SequentialTokens(dcTbl, acTbl, last, z) == (ts + diff) + rest
      && (AllCodable(c, SequentialTokens(dcTbl, acTbl, last, z)) <==> AllCodable(c, diff) && AllCodable(c, rest))
  {
    var diff, rest := DiffTokens(dcTbl, z[0] - last), BlockRest(acTbl, z, 1, 0);
    CodableAppend(c, diff, rest);
    Moved(ts, diff, rest);
  }

  lemma BlockZero(tbl: nat, z: Block, k: nat, run: nat)
    requires k <= 63 && z[k] == 0
    ensures BlockRest(tbl, z, k, run) == BlockRest(tbl, z, k + 1, run + 1)
    ensures BandInRange(z, k, 63) <==> BandInRange(z, k + 1, 63)
  {
  }

  lemma BlockCoef(c: Codec, tbl: nat, z: Block, k: nat, run: nat, ts: seq<Token>)
    requires k <= 63 && z[k] != 0
    ensures var now, later := CoefTokens(tbl, run, z[k]), BlockRest(tbl, z, k + 1, 0);
      && ts + BlockRest(tbl, z, k, run) == (ts + now) + later
      && (AllCodable(c, BlockRest(tbl, z, k, run)) <==> AllCodable(c, now) && AllCodable(c, later))
    ensures BandInRange(z, k, 63) <==> NBits(Abs(z[k])) <= 10 && BandInRange(z, k + 1, 63)
  {
    var now, later := CoefTokens(tbl, run, z[k]), BlockRest(tbl, z, k + 1, 0);
    assert BlockRest(tbl, z, k, run) == now + later;
    CodableAppend(c, now, later);
    Moved(ts, now, later);
  }

  lemma BlockEnd(tbl: nat, z: Block, run: nat, ts: seq<Token>)
    ensures ts + BlockRest(tbl, z, 64, run) == ts + EndOfBlock(tbl, z)
    ensures (ts + EndOfBlock(tbl, z)) + [] == ts + BlockRest(tbl, z, 64, run)
    ensures z[63] != 0 ==> ts + BlockRest(tbl, z, 64, run) == ts
    ensures BandInRange(z, 64, 63)
  {
    assert BlockRest(tbl, z, 64, run) == EndOfBlock(tbl, z);
  }

  method EncodeAcBand(sink: TokenSink, order: seq<nat>, block: Block, actbl: nat) returns (r: Outcome)
    requires sink.Valid() && IsOrder(order) && !sink.gather && actbl < 2 * NUM_HUFF_TBLS
    modifies sink.Repr()
    ensures sink.Explains(r, BandInRange(Zigzag(order, block), 1, 63), old(sink.done), old(sink.cur),
                          BlockRest(actbl, Zigzag(order, block), 1, 0))
    ensures r.Ok? ==> sink.Valid() && sink.done == old(sink.done) && BandInRange(Zigzag(order, block), 1, 63)
    ensures r.Ok? ==> sink.cur == old(sink.cur) + BlockRest(actbl, Zigzag(order, block), 1, 0)
  {
    hide TokenSink.Valid, AllCodable, BlockRest, CoefTokens, Zigzag, BandInRange;
    ghost var z := Zigzag(order, block);
    ghost var from, ts, ok := sink.cur, BlockRest(actbl, z, 1, 0), BandInRange(z, 1, 63);
    var run, k := 0, 1;
    while k < 64
      invariant 1 <= k <= 64
      invariant sink.Valid() && sink.done == old(sink.done)
      invariant sink.cur + BlockRest(actbl, z, k, run) == from + ts
      invariant AllCodable(sink.Code(), ts) ==> AllCodable(sink.Code(), BlockRest(actbl, z, k, run))
      invariant ok <==> BandInRange(z, k, 63)
      invariant k > 1 ==> (run > 0 <==> z[k - 1] == 0)
    {
      var temp := ReadZigzag(order, block, k);
      if temp == 0 {
        BlockZero(actbl, z, k, run);
        run := run + 1;
      } else {
        ghost var cur := sink.cur;
        BlockCoef(sink.Code(), actbl, z, k, run, cur);
        r := EmitCoef(sink, actbl, run, temp);
        if r != Ok {
          sink.ExplainsPart(r, NBits(Abs(temp)) <= 10, ok, old(sink.done), from, ts, cur,
                            CoefTokens(actbl, run, temp), BlockRest(actbl, z, k + 1, 0));
          return;
        }
        run := 0;
      }
      k := k + 1;
    }
    ghost var cur := sink.cur;
    BlockEnd(actbl, z, run, cur);
    if run > 0 {
      r := sink.EmitSymbol(actbl, 0);
      LastPart(sink.Code(), actbl, z, run, ts);
      sink.ExplainsPart(r, true, ok, old(sink.done), from, ts, cur, [Sym(actbl, 0)], []);
    } else {
      r := Ok;
    }
  }

  lemma LastPart(c: Codec, tbl: nat, z: Block, run: nat, ts: seq<Token>)
    requires z[63] == 0 && (AllCodable(c, ts) ==> AllCodable(c, BlockRest(tbl, z, 64, run)))
    ensures AllCodable(c, ts) ==> AllCodable(c, [Sym(tbl, 0)])
  {
    assert BlockRest(tbl, z, 64, run) == [Sym(tbl, 0)];
  }

  /** `encode_one_block`. */
  method EncodeOneBlock(sink: TokenSink, order: seq<nat>, block: Block, last: int, dctbl: nat, actbl: nat)
    returns (r: Outcome)
    requires sink.Valid() && IsOrder(order) && !sink.gather && dctbl < NUM_HUFF_TBLS && actbl < 2 * NUM_HUFF_TBLS
    modifies sink.Repr()
    ensures sink.Explains(r, BlockLimits(last, Zigzag(order, block)), old(sink.done), old(sink.cur),
                          SequentialTokens(dctbl, actbl, last, Zigzag(order, block)))
    ensures r.Ok? ==> sink.Valid() && sink.done == old(sink.done) && BlockLimits(last, Zigzag(order, block))
    ensures r.Ok? ==> sink.cur == old(sink.cur) + SequentialTokens(dctbl, actbl, last, Zigzag(order, block))
  {
    hide TokenSink.Valid, AllCodable, SequentialTokens, BlockRest, DiffTokens, BandInRange;
    ghost var z := Zigzag(order, block);
    ghost var from, ts := sink.cur, SequentialTokens(dctbl, actbl, last, z);
    BlockStart(sink.Code(), dctbl, actbl, last, z, from);
    r := EmitDiff(sink, dctbl, block[0] - last);
    if r != Ok {
      sink.ExplainsPart(r, NBits(Abs(block[0] - last)) <= 11, BlockLimits(last, z), old(sink.done), from, ts, from,
                        DiffTokens(dctbl, block[0] - last), BlockRest(actbl, z, 1, 0));
      return;
    }
    ghost var mid := sink.cur;
    NoTokens(mid + BlockRest(actbl, z, 1, 0));
    r := EncodeAcBand(sink, order, block, actbl);
    sink.ExplainsPart(r, BandInRange(z, 1, 63), BlockLimits(last, z), old(sink.done), from, ts, mid,
                      BlockRest(actbl, z, 1, 0), []);
  }

  /** The coefficient limits of a sequential block. */
  predicate BlockLimits(last: int, z: Block)
  {
    NBits(Abs(z[0] - last)) <= 11 && BandInRange(z, 1, 63)
  }

  // ---------------------------------------------------------------- MCUs

  lemma McuStep(c: Codec, mode: ScanMode, last: seq<int>, mcu: Mcu, j: nat, ts: seq<Token>)
    requires mode.Sequential? && |last| == |mode.comps| && j < |mcu| == |mode.membership|
    ensures var ci := mode.membership[j];
      var now := SequentialTokens(mode.comps[ci].dcTbl, mode.comps[ci].acTbl, last[ci], mcu[j]);
      var last' := last[ci := mcu[j][0]];
      && ts + BlocksCode(mode, last, mcu, j) == (ts + now) + BlocksCode(mode, last', mcu, j + 1)
      && BlocksLast(mode, last, mcu, j) == BlocksLast(mode, last', mcu, j + 1)
      && (BlocksOk(mode, last, mcu, j) <==> BlockLimits(last[ci], mcu[j]) && BlocksOk(mode, last', mcu, j + 1))
      && (AllCodable(c, BlocksCode(mode, last, mcu, j)) <==>
            AllCodable(c, now) && AllCodable(c, BlocksCode(mode, last', mcu, j + 1)))
  {
    hide SequentialTokens, BandInRange;
    BlocksCodeStep(c, mode, last, mcu, j, []);
    var ci := mode.membership[j];
    Moved(ts, SequentialTokens(mode.comps[ci].dcTbl, mode.comps[ci].acTbl, last[ci], mcu[j]),
          BlocksCode(mode, last[ci := mcu[j][0]], mcu, j + 1));
  }

  ghost predicate TablesInRange(mode: ScanMode)
  {
    && mode.Sequential? && |mode.comps| <= MAX_COMPS_IN_SCAN
    && forall i :: 0 <= i < |mode.comps| ==>
         mode.comps[i].dcTbl < NUM_HUFF_TBLS && NUM_HUFF_TBLS <= mode.comps[i].acTbl < 2 * NUM_HUFF_TBLS
  }

  /** The block loop of `encode_mcu_huff`. */
  method EncodeBlocks(sink: TokenSink, mode: ScanMode, order: seq<nat>, data: seq<Block>, last0: seq<int>)
    returns (r: Outcome, last: seq<int>)
    requires sink.Valid() && IsOrder(order) && !sink.gather && TablesInRange(mode)
    requires |data| == |mode.membership| && |last0| == |mode.comps|
    modifies sink.Repr()
    ensures sink.Explains(r, BlocksOk(mode, last0, ZigzagAll(order, data), 0), old(sink.done), old(sink.cur),
                          BlocksCode(mode, last0, ZigzagAll(order, data), 0))
    ensures r.Ok? ==> sink.Valid() && sink.done == old(sink.done) && BlocksOk(mode, last0, ZigzagAll(order, data), 0)
    ensures r.Ok? ==> sink.cur == old(sink.cur) + BlocksCode(mode, last0, ZigzagAll(order, data), 0)
    ensures r.Ok? ==> last == BlocksLast(mode, last0, ZigzagAll(order, data), 0)
  {
    hide TokenSink.Valid, AllCodable, BlocksCode, BlocksLast, BlocksOk, SequentialTokens, BlockLimits, Zigzag;
    ghost var mcu := ZigzagAll(order, data);
    ghost var from, ts, ok := sink.cur, BlocksCode(mode, last0, mcu, 0), BlocksOk(mode, last0, mcu, 0);
    last := last0;
    for blkn := 0 to |data|
      invariant |last| == |mode.comps|
      invariant sink.Valid() && sink.done == old(sink.done)
      invariant sink.cur + BlocksCode(mode, last, mcu, blkn) == from + ts
      invariant AllCodable(sink.Code(), ts) ==> AllCodable(sink.Code(), BlocksCode(mode, last, mcu, blkn))
      invariant BlocksLast(mode, last, mcu, blkn) == BlocksLast(mode, last0, mcu, 0)
      invariant ok <==> BlocksOk(mode, last, mcu, blkn)
    {
      var ci := mode.membership[blkn];
      var dc := ReadZigzag(order, data[blkn], 0);
      ghost var cur := sink.cur;
      McuStep(sink.Code(), mode, last, mcu, blkn, cur);
      r := EncodeOneBlock(sink, order, data[blkn], last[ci], mode.comps[ci].dcTbl, mode.comps[ci].acTbl);
      if r != Ok {
        sink.ExplainsPart(r, BlockLimits(last[ci], mcu[blkn]), ok, old(sink.done), from, ts, cur,
                          SequentialTokens(mode.comps[ci].dcTbl, mode.comps[ci].acTbl, last[ci], mcu[blkn]),
                          BlocksCode(mode, last[ci := mcu[blkn][0]], mcu, blkn + 1));
        return;
      }
      last := last[ci := dc];
    }
    BlocksDone(mode, last, mcu, sink.cur);
    r := Ok;
  }

  /** The encoder object with its destination: `stream` is everything the destination has taken,
      `free` the room it has left. */
  class HuffEncoder {
    const mode: ScanMode
    const interval: nat
    const order: seq<nat>
    const books: Books
    const bufSize: nat
    const suspending: bool
    // entropy->saved
    var putBuffer: nat
    var putBits: nat
    var lastDcVal: seq<int>
    // not loaded into the working state
    var restartsToGo: nat
    var nextRestartNum: nat
    // cinfo->dest
    var stream: seq<Byte>
    var free: nat
    ghost var done: seq<seq<Token>>
    ghost var cur: seq<Token>

    ghost function Code(): Codec { HuffmanCodec(books) }

    ghost function State(): Enc
      reads this
    {
      Enc(done, cur, Coder(lastDcVal, NOTHING), restartsToGo)
    }

    ghost predicate Valid()
      reads this
    {
      && TablesInRange(mode) && IsOrder(order) && bufSize > 0 && free > 0
      && |lastDcVal| == |mode.comps|
      && SegmentsCodable(Code(), done) && AllCodable(Code(), cur)
      && stream == Complete(Code(), done, cur)
      && putBits == |Rem(StreamBits(Code(), cur))| && Holds(putBuffer, Rem(StreamBits(Code(), cur)))
      && nextRestartNum == |done| % 8
      && restartsToGo <= interval
    }

    /** The destination would take everything the encoder has completed once in state `e`. */
    ghost predicate Takes(e: Enc)
      reads this
    {
      suspending ==> |Complete(Code(), e.done, e.cur)| < |stream| + free
    }

    /** `start_pass_huff` for output. */
    constructor (mode: ScanMode, interval: nat, order: seq<nat>, books: Books, free: nat, bufSize: nat,
                 suspending: bool)
      requires TablesInRange(mode) && IsOrder(order) && bufSize > 0 && free > 0
      ensures Valid() && State() == Start(mode, interval) && stream == []
      ensures this.mode == mode && this.interval == interval && this.order == order && this.books == books
      ensures this.bufSize == bufSize && this.suspending == suspending && this.free == free
    {
      this.mode, this.interval, this.order, this.books := mode, interval, order, books;
      this.bufSize, this.suspending := bufSize, suspending;
      putBuffer, putBits, lastDcVal := 0, 0, seq(|mode.comps|, _ => 0);
      restartsToGo, nextRestartNum := interval, 0;
      stream, this.free := [], free;
      done, cur := [], [];
      new;
      ShlConstants(0);
      assert Rem([]) == [] && Bytes([]) == [] && Stuff([]) == [];
    }

    /** `encode_mcu_huff`. A completed MCU updates the saved state exactly as the abstract encoder
        does; a suspension changes nothing at all, and happens exactly when the destination has no
        room for the bytes the MCU would complete. */
    method EncodeMcu(data: seq<Block>) returns (r: Outcome)
      requires Valid() && |data| == mode.BlocksInMcu()
      modifies this
      ensures r.Ok? ==> Valid() && State() == Fed(mode, interval, old(State()), ZigzagAll(order, data))
      ensures r.Ok? ==> old(Takes(Fed(mode, interval, State(), ZigzagAll(order, data))))
      ensures r.Ok? ==> McuOk(mode, Restarted(mode, interval, old(State())).coder, ZigzagAll(order, data))
      ensures r.Ok? && suspending ==> free + |stream| == old(free + |stream|)
      ensures !r.Ok? ==> unchanged(this)
      ensures r.Suspended? ==> !Takes(Fed(mode, interval, State(), ZigzagAll(order, data)))
      ensures r.Error? ==> !(McuOk(mode, Restarted(mode, interval, State()).coder, ZigzagAll(order, data))
                             && AllCodable(Code(),
                                           McuTokens(mode, Restarted(mode, interval, State()).coder,
                                                     ZigzagAll(order, data))))
    {
      hide TokenSink.Valid, AllCodable, McuTokens, McuState, McuOk, ZigzagAll, Complete, Holds, Rem, SegmentsCodable,
           FlushTokens, FreshCoder;
      ZigzagShape(order, data);
      var sink, last;
      r, sink, last := WriteMcu(data);
      if r != Ok {
        return;
      }
      Commit(sink, last);
    }

    /** The completed MCU updates the saved state, the destination, and the restart counters. */
    method Commit(sink: TokenSink, last: seq<int>)
      requires Valid() && sink.Valid() && !sink.gather && |last| == |mode.comps|
      requires sink.books == books && sink.before == stream && sink.room == free && sink.w.suspending == suspending
      requires |sink.done| == |done| + (if interval > 0 && restartsToGo == 0 then 1 else 0)
      modifies this
      ensures Valid() && done == sink.done && cur == sink.cur && lastDcVal == last
      ensures restartsToGo == if interval == 0 then old(restartsToGo)
                              else (if old(restartsToGo) == 0 then interval else old(restartsToGo)) - 1
      ensures suspending ==> free + |stream| == old(free + |stream|)
    {
      hide TokenSink.Valid, AllCodable, Complete, Holds, Rem, SegmentsCodable;
      Committed(sink);
      NextNumber(nextRestartNum, |done|);
      stream, free := stream + sink.w.out, sink.w.free;
      putBuffer, putBits, lastDcVal := sink.w.putBuffer, sink.w.putBits, last;
      done, cur := sink.done, sink.cur;
      if interval != 0 {
        if restartsToGo == 0 {
          restartsToGo := interval;
          nextRestartNum := (nextRestartNum + 1) % 8;
        }
        restartsToGo := restartsToGo - 1;
      }
    }

    /** Everything `encode_mcu_huff` does on its working copy, up to the commit. */
    method WriteMcu(data: seq<Block>) returns (r: Outcome, sink: TokenSink, last: seq<int>)
      requires Valid() && |data| == mode.BlocksInMcu()
      ensures fresh(sink.Repr()) && sink.books == books && sink.before == stream && sink.room == free
      ensures sink.w.suspending == suspending && !sink.gather
      ensures r.Ok? ==> sink.Valid() && |last| == |mode.comps|
      ensures r.Ok? ==> sink.done == Fed(mode, interval, State(), ZigzagAll(order, data)).done
      ensures r.Ok? ==> sink.cur == Fed(mode, interval, State(), ZigzagAll(order, data)).cur
      ensures r.Ok? ==> Coder(last, NOTHING) == Fed(mode, interval, State(), ZigzagAll(order, data)).coder
      ensures r.Ok? ==> McuOk(mode, Restarted(mode, interval, State()).coder, ZigzagAll(order, data))
      ensures r.Suspended? ==> !Takes(Fed(mode, interval, State(), ZigzagAll(order, data)))
      ensures r.Error? ==> !(McuOk(mode, Restarted(mode, interval, State()).coder, ZigzagAll(order, data))
                             && AllCodable(Code(),
                                           McuTokens(mode, Restarted(mode, interval, State()).coder,
                                                     ZigzagAll(order, data))))
    {
      hide TokenSink.Valid, AllCodable, BlocksCode, BlocksLast, BlocksOk, ZigzagAll, Complete, Holds, Rem,
           SegmentsCodable;
      ZigzagShape(order, data);
      sink := new TokenSink.Resume(books, putBuffer, putBits, free, bufSize, suspending, stream, done, cur);
      last := lastDcVal;
      NoTokens(cur);
      if interval != 0 {
        if restartsToGo == 0 {
          r := sink.CloseSegment(nextRestartNum);
          if r != Ok {
            ClosedGrows(Code(), done, cur,
                        McuTokens(mode, Restarted(mode, interval, State()).coder, ZigzagAll(order, data)));
            return;
          }
          last := seq(|mode.comps|, _ => 0);
        }
      }
      r, last := EncodeBlocks(sink, mode, order, data, last);
    }

    /** What a valid working state means for the state it is saved to. */
    lemma NextNumber(num: nat, n: nat)
      ensures num == n % 8 ==> (num + 1) % 8 == (n + 1) % 8
    {
    }

    lemma Committed(sink: TokenSink)
      requires sink.Valid() && !sink.gather
      ensures sink.w.Valid() && sink.before + sink.w.out == Complete(sink.Code(), sink.done, sink.cur)
      ensures SegmentsCodable(sink.Code(), sink.done) && AllCodable(sink.Code(), sink.cur)
      ensures sink.w.putBits == |Rem(StreamBits(sink.Code(), sink.cur))|
      ensures Holds(sink.w.putBuffer, Rem(StreamBits(sink.Code(), sink.cur)))
      ensures sink.w.suspending ==> sink.w.free + |sink.w.out| == sink.room
      ensures sink.w.free > 0
    {
    }

    /** The application empties a suspended destination's buffer. */
    method Drain()
      requires Valid()
      modifies this`free
      ensures Valid() && free == bufSize
    {
      free := bufSize;
    }

    /** The application gives the destination `n` bytes of room. */
    method Refill(n: nat)
      requires Valid() && n > 0
      modifies this`free
      ensures Valid() && free == n
    {
      free := n;
    }

    /** `finish_pass_huff`; a refusal here is a fatal error. */
    method FinishPass() returns (r: Outcome)
      requires Valid()
      modifies this
      ensures r != Suspended
      ensures r.Ok? <==> (suspending ==> |ScanOutput(Code(), Finished(mode, old(State())))| < old(|stream| + free))
      ensures r.Ok? ==> free > 0 && (suspending ==> free + |stream| == old(free + |stream|))
      ensures r.Ok? ==> stream == ScanOutput(Code(), Finished(mode, old(State())))
      ensures r.Ok? ==> SegmentsCodable(Code(), Finished(mode, old(State())))
    {
      hide TokenSink.Valid, Complete, ScanOutput, StreamBits, Rem, Holds, SegmentsCodable, AllCodable;
      var sink := new TokenSink.Resume(books, putBuffer, putBits, free, bufSize, suspending, stream, done, cur);
      NoTokens(cur);
      r := sink.Finish();
      if r != Ok {
        return Error;
      }
      stream, free := stream + sink.w.out, sink.w.free;
    }
  }

  lemma ClosedGrows(c: Codec, done: seq<seq<Token>>, cur: seq<Token>, ts: seq<Token>)
    ensures Complete(c, done + [cur], []) <= Complete(c, done + [cur + []], [] + ts)
  {
    NoTokens(cur);
    CompleteGrows(c, done + [cur], [], ts);
  }
}
