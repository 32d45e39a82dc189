/** A whole sequential scan through the encoder, with or without a suspending destination, and
    through the statistics pass. */
module SequentialScans {
  import opened Wrappers
  import opened BitStrings
  import opened EntropySegments
  import opened BitOutput
  import opened HuffmanTables
  import opened Coding
  import opened RunLength
  import opened AcScans
  import opened Scans
  import opened ScanStreams
  import opened StreamGrowth
  import opened TokenSinks
  import opened Zigzags
  import opened SequentialEncoding
  import opened SequentialStatistics

  /** Every MCU completes fewer bytes than an emptied buffer holds, so that a suspended MCU goes
      through once the application has drained the buffer. */
  ghost predicate EachFits(c: Codec, mode: ScanMode, interval: nat, e: Enc, mcus: seq<Mcu>, bufSize: nat)
    requires Fitting(mode, e.coder) && Shaped(mode, mcus)
    decreases |mcus|
  {
    mcus == [] ||
    var e' := Fed(mode, interval, e, mcus[0]);
    && |Complete(c, e'.done, e'.cur)| < |Complete(c, e.done, e.cur)| + bufSize
    && EachFits(c, mode, interval, e', mcus[1..], bufSize)
  }

  /** One output pass. However often the destination suspends, and is emptied then and before the final
      flush, the stream is the one an unbounded destination would have received: the bytes depend on the
      MCUs alone. */
  method EncodeScan(books: Books, mode: ScanMode, interval: nat, order: seq<nat>, data: seq<seq<Block>>,
                    bufSize: nat, suspending: bool) returns (r: Outcome, bytes: seq<Byte>)
    requires TablesInRange(mode) && IsOrder(order) && DataShaped(mode, data)
    requires Shaped(mode, ZigzagScan(order, data)) && bufSize > 0
    requires suspending ==>
      EachFits(HuffmanCodec(books), mode, interval, Start(mode, interval), ZigzagScan(order, data), bufSize)
    ensures r != Suspended
    ensures r.Ok? <==>
      && ScanOk(mode, interval, ZigzagScan(order, data))
      && SegmentsCodable(HuffmanCodec(books), ScanSegments(mode, interval, ZigzagScan(order, data)))
      && (suspending ==>
          FlushSize(HuffmanCodec(books), ScanSegments(mode, interval, ZigzagScan(order, data))) < bufSize)
    ensures r.Ok? ==>
      bytes == ScanOutput(HuffmanCodec(books), ScanSegments(mode, interval, ZigzagScan(order, data)))
  {
    hide McuOk, Fed, Restarted, ZigzagAll, IsOrder, Finished, FlushTokens, ScanOk, ScanSegments, McuTokens,
         AllCodable, Complete, Holds, SegmentsCodable, FlushSize, ScanOutput;
    ghost var mcus := ZigzagScan(order, data);
    RunIsScan(mode, interval, mcus);
    RestartIntervals(mode, interval, mcus);
    var enc := new HuffEncoder(mode, interval, order, books, bufSize, bufSize, suspending);
    bytes := [];
    ghost var start := enc.State();
    assert mcus[0..] == mcus;
    var i := 0;
    while i < |data|
      invariant 0 <= i <= |data| && enc.Valid() && fresh(enc)
      invariant FedAll(mode, interval, enc.State(), mcus[i..]) == FedAll(mode, interval, start, mcus)
      invariant RunOk(mode, interval, enc.State(), mcus[i..]) <==> RunOk(mode, interval, start, mcus)
      invariant suspending ==> EachFits(enc.Code(), mode, interval, enc.State(), mcus[i..], bufSize)
      decreases |data| - i, if enc.free == bufSize then 0 else 1
    {
      assert mcus[i] == ZigzagAll(order, data[i]) && mcus[i..][0] == mcus[i] && mcus[i..][1..] == mcus[i + 1..];
      ghost var before := enc.State();
      r := enc.EncodeMcu(data[i]);
      if r == Error {
        EncodingRefused(enc.Code(), mode, interval, before, mcus[i..]);
        return;
      }
      if r == Suspended {
        enc.Drain();
      } else {
        i := i + 1;
      }
    }
    assert mcus[|data|..] == [];
    enc.Drain();
    FlushRemains(enc);
    r := enc.FinishPass();
    bytes := enc.stream;
  }

  /** Before the flush, the stream lacks just that. */
  lemma FlushRemains(enc: HuffEncoder)
    requires enc.Valid()
    ensures var segs := Finished(enc.mode, enc.State());
      |ScanOutput(enc.Code(), segs)| == |enc.stream| + FlushSize(enc.Code(), segs)
  {
    hide ScanOutput, Complete, Holds, SegmentsCodable, Stuff, Bytes, Rem, StreamBits;
    assert enc.cur + [] == enc.cur;
    CompleteFinish(enc.Code(), enc.done, enc.cur);
  }

  lemma EncodingRefused(c: Codec, mode: ScanMode, interval: nat, e: Enc, mcus: seq<Mcu>)
    requires mode.Sequential? && Fitting(mode, e.coder) && Shaped(mode, mcus) && mcus != []
    requires !(McuOk(mode, Restarted(mode, interval, e).coder, mcus[0])
               && AllCodable(c, McuTokens(mode, Restarted(mode, interval, e).coder, mcus[0])))
    ensures !RunOk(mode, interval, e, mcus) || !SegmentsCodable(c, Finished(mode, FedAll(mode, interval, e, mcus)))
  {
    if SegmentsCodable(c, Finished(mode, FedAll(mode, interval, e, mcus))) {
      EmittedCodable(c, mode, interval, e, mcus);
      CodableAppend(c, if interval > 0 && e.togo == 0 then FlushTokens(mode, e.coder) else [],
                    McuTokens(mode, Restarted(mode, interval, e).coder, mcus[0]));
    }
  }

  /** One statistics pass: its counts are those of the symbols an output pass would emit. */
  method GatherScan(mode: ScanMode, interval: nat, order: seq<nat>, data: seq<seq<Block>>)
    returns (ok: bool, dc: array2<nat>, ac: array2<nat>)
    requires TablesInRange(mode) && IsOrder(order) && DataShaped(mode, data)
    requires Shaped(mode, ZigzagScan(order, data))
    ensures ok <==> ScanOk(mode, interval, ZigzagScan(order, data))
    ensures ok ==> Counts(dc, ac, Flatten(ScanSegments(mode, interval, ZigzagScan(order, data))))
  {
    hide McuOk, Fed, Restarted, ZigzagAll, IsOrder, ScanOk, ScanSegments, McuTokens, Counts, Flatten;
    ghost var mcus := ZigzagScan(order, data);
    RunIsScan(mode, interval, mcus);
    RestartIntervals(mode, interval, mcus);
    var stats := new HuffStatistics(mode, interval, order);
    dc, ac := stats.dcCounts, stats.acCounts;
    ghost var start := stats.State();
    assert mcus[0..] == mcus;
    for i := 0 to |data|
      invariant stats.Valid() && fresh(stats) && fresh(stats.dcCounts) && fresh(stats.acCounts)
      invariant FedAll(mode, interval, stats.State(), mcus[i..]) == FedAll(mode, interval, start, mcus)
      invariant RunOk(mode, interval, stats.State(), mcus[i..]) <==> RunOk(mode, interval, start, mcus)
    {
      assert mcus[i] == ZigzagAll(order, data[i]) && mcus[i..][0] == mcus[i] && mcus[i..][1..] == mcus[i + 1..];
      ok := stats.EncodeMcu(data[i]);
      if !ok {
        return;
      }
    }
    assert mcus[|data|..] == [];
    FinishedFlat(mode, stats.State());
    return true, dc, ac;
  }

  lemma FinishedFlat(mode: ScanMode, e: Enc)
    requires mode.Sequential?
    ensures Flatten(Finished(mode, e)) == Flatten(e.done) + e.cur
  {
    FlattenSnoc(e.done, e.cur + []);
    assert e.cur + [] == e.cur;
  }

  /** The whole-scan round trip of the sequential coder: from zeroed blocks the decoder rebuilds
      every block of every MCU. */
  lemma ScanDecodes(books: Books, mode: ScanMode, interval: nat, mcus: seq<Mcu>, priors: seq<Mcu>)
    requires mode.Sequential? && Shaped(mode, mcus) && Shaped(mode, priors) && |mcus| == |priors|
    requires forall i :: 0 <= i < |priors| ==> AllZero(priors[i])
    requires ScanOk(mode, interval, mcus) && SegmentsCodable(HuffmanCodec(books), ScanSegments(mode, interval, mcus))
    ensures DecodeScan(HuffmanCodec(books), mode, interval, priors,
                       ScanOutput(HuffmanCodec(books), ScanSegments(mode, interval, mcus))) == Some(mcus)
  {
    forall i | 0 <= i < |mcus| ensures McuBefore(mode, mcus[i], priors[i]) {
      assert AllZero(priors[i]);
    }
    HuffmanSound(books);
    ScanRoundTrip(HuffmanCodec(books), mode, interval, mcus, priors);
    forall i | 0 <= i < |mcus| ensures McusAfter(mode, mcus, priors)[i] == mcus[i] {
      assert McuAfter(mode, mcus[i], priors[i]) == mcus[i];
    }
    assert McusAfter(mode, mcus, priors) == mcus;
  }

  ghost predicate AllZero(mcu: Mcu) {
    forall j, k :: 0 <= j < |mcu| && 0 <= k < 64 ==> mcu[j][k] == 0
  }
}
