/** A whole progressive scan through the encoder: the output is decodable, the statistics match. */
module ProgressiveScans {
  import opened Wrappers
  import opened BitStrings
  import opened EntropySegments
  import opened BitOutput
  import opened HuffmanTables
  import opened JpegLimits
  import opened Coding
  import opened RunLength
  import opened AcScans
  import opened Scans
  import opened ScanStreams
  import opened TokenSinks
  import opened ProgressiveEncoding
  import opened StreamGrowth
  import opened Zigzags

  ghost predicate ModeInRange(mode: ScanMode)
  {
    !mode.Sequential? &&
    if mode.Ac? then mode.params.tbl < NUM_HUFF_TBLS
    else |mode.comps| <= MAX_COMPS_IN_SCAN && forall i :: 0 <= i < |mode.comps| ==> mode.comps[i].dcTbl < NUM_HUFF_TBLS
  }

  /** `encode_mcu`, as `start_pass_phuff` selects it. */
  method EncodeMcu(enc: PhuffEncoder, mcu: seq<Block>) returns (r: Outcome)
    requires enc.Valid() && |mcu| == enc.mode.BlocksInMcu()
    modifies enc.Repr()
    ensures r != Suspended
    ensures (McuOk(enc.mode, Restarted(enc.mode, enc.interval, old(enc.State())).coder, ZigzagAll(enc.order, mcu))
             && old(enc.CanTake(ZigzagAll(enc.order, mcu)))) ==> r.Ok?
    ensures r.Ok? ==>
        McuOk(enc.mode, Restarted(enc.mode, enc.interval, old(enc.State())).coder, ZigzagAll(enc.order, mcu))
    ensures r.Ok? ==>
        enc.Valid() && enc.State() == Fed(enc.mode, enc.interval, old(enc.State()), ZigzagAll(enc.order, mcu))
  {
    hide TokenSink.Valid, McuOk, McuTokens, McuState, NewlyEmitted, ZigzagAll;
    if enc.mode.DcFirst? {
      r := enc.EncodeMcuDcFirst(mcu);
    } else if enc.mode.DcRefine? {
      r := enc.EncodeMcuDcRefine(mcu);
    } else if enc.mode.params.refine {
      r := enc.EncodeMcuAcRefine(mcu);
    } else {
      r := enc.EncodeMcuAcFirst(mcu);
    }
  }

  /** One pass over a scan: start, every MCU, finish. It succeeds exactly when all coefficients are
      within limits and, in an output pass, every symbol has a code and a destination that cannot be
      emptied has room for the whole scan. An output pass writes the segments of the scan; a statistics
      pass counts the symbols of the very same segments. */
  method EncodeScan(gather: bool, books: Books, mode: ScanMode, interval: nat, order: seq<nat>,
                    data: seq<seq<Block>>, free: nat, bufSize: nat, suspending: bool)
    returns (r: Outcome, bytes: seq<Byte>, counts: array2<nat>, left: nat)
    requires ModeInRange(mode) && IsOrder(order) && DataShaped(mode, data) && free > 0 && bufSize > 0
    ensures r != Suspended
    ensures Shaped(mode, ZigzagScan(order, data))
    ensures r.Ok? <==>
      && ScanOk(mode, interval, ZigzagScan(order, data))
      && (gather || WholeFits(HuffmanCodec(books), ScanSegments(mode, interval, ZigzagScan(order, data)), free,
                              suspending))
    ensures r.Ok? && !gather ==>
      && bytes == ScanOutput(HuffmanCodec(books), ScanSegments(mode, interval, ZigzagScan(order, data)))
      && left > 0 && (suspending ==> left + |bytes| == free)
    ensures r.Ok? && gather ==> counts.Length0 == NUM_HUFF_TBLS && counts.Length1 == 257
    ensures r.Ok? && gather ==>
        InAlphabet(Flatten(ScanSegments(mode, interval, ZigzagScan(order, data))), NUM_HUFF_TBLS)
    ensures r.Ok? && gather ==>
      forall tbl, s :: 0 <= tbl < NUM_HUFF_TBLS && 0 <= s < 257 ==>
        counts[tbl, s] == Occurrences(Flatten(ScanSegments(mode, interval, ZigzagScan(order, data))), tbl, s)
  {
    hide TokenSink.Valid, McuOk, NewlyEmitted, Fed, Restarted, ZigzagAll, IsOrder, Finished, FlushTokens, ScanOk,
         ScanSegments, InAlphabet, SegmentsCodable, HuffmanCodec, Flatten, ScanOutput, PhuffEncoder.CanTake,
         PhuffEncoder.CanFinish, WholeFits;
    ghost var mcus := ZigzagScan(order, data);
    ScanShape(mode, order, data);
    RunIsScan(mode, interval, mcus);
    RestartIntervals(mode, interval, mcus);
    var sink := new TokenSink(gather, true, books, free, bufSize, suspending);
    var enc := new PhuffEncoder(mode, interval, order, sink);
    bytes, counts, left := [], sink.counts, free;
    ghost var start := enc.State();
    assert mcus[0..] == mcus;
    for i := 0 to |data|
      invariant enc.Valid() && fresh(enc.Repr())
      invariant FedAll(mode, interval, enc.State(), mcus[i..]) == FedAll(mode, interval, start, mcus)
      invariant RunOk(mode, interval, enc.State(), mcus[i..]) <==> RunOk(mode, interval, start, mcus)
    {
      assert mcus[i] == ZigzagAll(order, data[i]) && mcus[i..][0] == mcus[i] && mcus[i..][1..] == mcus[i + 1..];
      Refused(enc, mcus[i..]);
      r := EncodeMcu(enc, data[i]);
      if r != Ok {
        return;
      }
    }
    assert mcus[|data|..] == [];
    FlushRefused(enc);
    r := enc.FinishPass();
    if r != Ok {
      return;
    }
    bytes, left := sink.w.out, sink.w.free;
    Wholly(HuffmanCodec(books), ScanSegments(mode, interval, mcus), bytes, free, left, gather, suspending);
  }

  /** What was written did fit. */
  lemma Wholly(c: Codec, segs: seq<seq<Token>>, bytes: seq<Byte>, free: nat, left: nat, gather: bool, suspending: bool)
    requires segs != []
    requires !gather ==> SegmentsCodable(c, segs) && bytes == ScanOutput(c, segs) && left > 0
    requires !gather && suspending ==> left + |bytes| == free
    ensures gather || WholeFits(c, segs, free, suspending)
  {
  }

  /** An MCU can be taken if the whole scan can be coded and fits. */
  lemma Refused(enc: PhuffEncoder, mcus: seq<Mcu>)
    requires enc.Valid() && Shaped(enc.mode, mcus) && mcus != []
    ensures var segs := Finished(enc.mode, FedAll(enc.mode, enc.interval, enc.State(), mcus));
      enc.sink.gather || WholeFits(enc.sink.Code(), segs, enc.sink.room, enc.sink.w.suspending) ==>
        enc.CanTake(mcus[0])
  {
    hide TokenSink.Valid, Fed, Restarted, SegmentsCodable, HuffmanCodec, ScanOutput, NewlyEmitted, Complete;
    var segs := Finished(enc.mode, FedAll(enc.mode, enc.interval, enc.State(), mcus));
    if !enc.sink.gather && WholeFits(enc.sink.Code(), segs, enc.sink.room, enc.sink.w.suspending) {
      var e' := Fed(enc.mode, enc.interval, enc.State(), mcus[0]);
      EmittedCodable(enc.sink.Code(), enc.mode, enc.interval, enc.State(), mcus);
      FinishedGrows(enc.sink.Code(), enc.mode, enc.interval, e', mcus[1..]);
    }
  }

  lemma FlushRefused(enc: PhuffEncoder)
    requires enc.Valid()
    ensures var segs := Finished(enc.mode, enc.State());
      enc.sink.gather || WholeFits(enc.sink.Code(), segs, enc.sink.room, enc.sink.w.suspending) ==> enc.CanFinish()
  {
    hide TokenSink.Valid, HuffmanCodec, ScanOutput, FlushTokens;
    var e, c := enc.State(), enc.sink.Code();
    var f := Finished(enc.mode, e);
    if !enc.sink.gather && WholeFits(c, f, enc.sink.room, enc.sink.w.suspending) {
      assert AllCodable(c, f[|e.done|]);
      CodableAppend(c, e.cur, FlushTokens(enc.mode, e.coder));
    }
  }

  /** An output pass that succeeds is decodable: from whatever the earlier scans left, the decoder
      rebuilds exactly the coefficients this scan refines. */
  lemma ScanDecodes(books: Books, mode: ScanMode, interval: nat, mcus: seq<Mcu>, priors: seq<Mcu>)
    requires Shaped(mode, mcus) && Shaped(mode, priors) && McusBefore(mode, mcus, priors)
    requires ScanOk(mode, interval, mcus) && SegmentsCodable(HuffmanCodec(books), ScanSegments(mode, interval, mcus))
    ensures |mcus| == |priors| && forall i :: 0 <= i < |mcus| ==> |mcus[i]| == |priors[i]|
    ensures DecodeScan(HuffmanCodec(books), mode, interval, priors,
                       ScanOutput(HuffmanCodec(books), ScanSegments(mode, interval, mcus)))
         == Some(McusAfter(mode, mcus, priors))
  {
    HuffmanSound(books);
    ScanRoundTrip(HuffmanCodec(books), mode, interval, mcus, priors);
  }
}
