/** From the picture to the bytes of its scans: the coefficient controller drives the entropy coder, pass by
    pass, and what comes out is the stream that the decoder of the picture relies on. */
module ScanCompression {
  import opened Wrappers
  import opened BitStrings
  import opened BitOutput
  import opened BufferRoom
  import opened Coding
  import opened CodingPasses
  import opened CoefControl
  import opened CoefficientRanges
  import opened EntropySegments
  import opened Geometry
  import opened HuffmanTables
  import opened McuSinks
  import opened OptimizedScans
  import opened Pictures
  import opened RunLength
  import opened ScanLayouts
  import opened Scans
  import opened ScanSetups
  import opened ScanStreams
  import opened ScriptDecoding
  import opened ScanSizes
  import opened SequentialEncoding
  import opened StreamGrowth
  import opened SymbolTotals
  import opened TokenSinks
  import opened Zigzags
  import Progressive = ProgressiveScans
  import Script = ScanScripts
  import Sequential = SequentialScans

  /** Every MCU of the scan has the number of blocks its kind calls for. */
  lemma McusShaped(p: Picture, scan: Script.ScanInfo, job: ScanJob)
    requires JobFor(p, scan, job) && Suits(p, job.setup)
    ensures DataShaped(job.mode, ScanMcus(p, job.setup))
  {
    hide Parts, Membership, ScanPlaces;
    var s, mcus := job.setup, ScanMcus(p, job.setup);
    if job.mode.Ac? {
      OneBlock(p.frame, job.comps, s);
    }
    var places := ScanPlaces(p.frame, s, p.frame.TotalIMcuRows());
    forall i | 0 <= i < |mcus| ensures |mcus[i]| == job.mode.BlocksInMcu() {
      PartsSize(p, s, places[i].t, places[i].yoffset, places[i].col, |s.parts|);
    }
  }

  /** The virtual arrays a pass needs: none in the pass-through mode, all filled if it only reads them. */
  ghost predicate ArraysReady(p: Picture, whole: seq<array2<Block>>, buf: BufferMode)
    reads whole
  {
    if buf == PassThru then whole == []
    else ArraysFor(p.frame, whole) && (buf == CrankDest ==> Stored(p, whole))
  }

  /** The arrays once the pass is over. */
  ghost predicate ArraysLeft(p: Picture, whole: seq<array2<Block>>, buf: BufferMode)
    reads whole
  {
    buf != PassThru ==> ArraysFor(p.frame, whole) && Stored(p, whole)
  }

  /** A controller at the start of a pass. */
  method StartPass(p: Picture, comps: seq<nat>, s: Setup, sink: McuSink, whole: seq<array2<Block>>, buf: BufferMode)
    returns (coef: CoefController)
    requires SetupFor(p.frame, comps, s) && sink.Valid() && sink.log == [] && ArraysReady(p, whole, buf)
    requires sink.Expects(|Membership(s.parts, |s.parts|)|)
    ensures fresh(coef) && fresh(coef.mcuBuffer) && coef.Valid()
    ensures coef.iMcuRowNum == coef.mcuVertOffset == coef.mcuCtr == 0 && Prepared(coef, buf, 0)
    ensures coef.p == p && coef.s == s && coef.sink == sink && coef.wholeImage == whole
  {
    hide SetupFor, Membership, McuSink.Valid, Stored, CoefController.Allocated, CoefController.StripSaved;
    coef := new CoefController(p, comps, s, sink, whole);
    if buf != PassThru {
      coef.SavedIsStored();
    }
  }

  lemma PassOver(coef: CoefController, buf: BufferMode)
    requires coef.p.frame.Valid() && Prepared(coef, buf, coef.p.frame.TotalIMcuRows())
    ensures ArraysLeft(coef.p, coef.wholeImage, buf)
  {
    hide Stored, CoefController.Allocated, CoefController.StripSaved;
    if buf != PassThru {
      coef.SavedIsStored();
    }
  }

  /** The MCUs of a scan, as a controller in any mode hands them over. */
  method CollectMcus(p: Picture, comps: seq<nat>, s: Setup, whole: seq<array2<Block>>, buf: BufferMode)
    returns (mcus: seq<seq<Block>>)
    requires SetupFor(p.frame, comps, s) && ArraysReady(p, whole, buf)
    modifies if buf == SaveAndPass then whole else []
    ensures Suits(p, s) && s.parts != [] && mcus == ScanMcus(p, s) && ArraysLeft(p, whole, buf)
  {
    hide ScanMcus, SetupFor, Membership, Prepared, ArraysReady, ArraysLeft, CoefController.Valid;
    SuitsSetup(p, comps, s);
    var sink := new McuSink(Recording(n => false));
    var coef := StartPass(p, comps, s, sink, whole, buf);
    var r := RunPass(coef, buf);
    RecorderNeverFails(coef, r);
    PassOver(coef, buf);
    mcus := sink.log;
  }

  lemma RecorderNeverFails(coef: CoefController, r: Outcome)
    requires coef.sink.entropy.Recording? && (r.Error? ==> Broken(coef))
    ensures !r.Error?
  {
  }

  // ---------------------------------------------------------------- the sequential coder behind the controller

  /** An MCU at which the coder failed makes the scan one that cannot be coded. */
  lemma BrokenScan(coef: CoefController, enc: HuffEncoder)
    requires Broken(coef) && coef.sink.entropy == Huff(enc)
    requires Shaped(enc.mode, ZigzagScan(enc.order, ScanMcus(coef.p, coef.s)))
    ensures var z := ZigzagScan(enc.order, ScanMcus(coef.p, coef.s));
      !(ScanOk(enc.mode, enc.interval, z) && SegmentsCodable(enc.Code(), ScanSegments(enc.mode, enc.interval, z)))
  {
    hide ScanMcus, SetupFor, Membership, ZigzagAll, IsOrder, Fed, FedAll, RunOk, ScanOk, ScanSegments,
         SegmentsCodable, AllCodable, McuOk, McuTokens, Restarted, Finished, BitOutput.Holds, Complete;
    var z, i := ZigzagScan(enc.order, ScanMcus(coef.p, coef.s)), |coef.sink.log|;
    var start, e := Start(enc.mode, enc.interval), enc.State();
    assert z[..i] == ZigzagScan(enc.order, coef.sink.log);
    assert z[..i] + z[i..] == z && z[i..][0] == z[i];
    FedAllAppend(enc.mode, enc.interval, start, z[..i], z[i..]);
    Sequential.EncodingRefused(enc.Code(), enc.mode, enc.interval, e, z[i..]);
    RunIsScan(enc.mode, enc.interval, z);
    RestartIntervals(enc.mode, enc.interval, z);
  }

  /** A coder that has all MCUs of the scan is in the state of an uninterrupted run. */
  lemma WholeScan(sink: McuSink, enc: HuffEncoder, mcus: seq<seq<Block>>)
    requires sink.Valid() && sink.entropy == Huff(enc) && sink.log == mcus
    ensures enc.Valid() && Shaped(enc.mode, ZigzagScan(enc.order, mcus))
    ensures var z := ZigzagScan(enc.order, mcus);
      && ScanOk(enc.mode, enc.interval, z)
      && Finished(enc.mode, enc.State()) == ScanSegments(enc.mode, enc.interval, z)
  {
    hide ZigzagAll, IsOrder, FedAll, RunOk, ScanOk, ScanSegments, Finished, SegmentsCodable, AllCodable,
         BitOutput.Holds, Complete;
    RunIsScan(enc.mode, enc.interval, ZigzagScan(enc.order, mcus));
    RestartIntervals(enc.mode, enc.interval, ZigzagScan(enc.order, mcus));
  }

  /** The first pass, if it is an output pass, driven by the controller: whenever the destination suspends, the
      application empties it. The flush comes in `jpeg_finish_compress`, for which the application leaves
      `room` bytes. The bytes are those of an uninterrupted run. */
  method CodeThrough(p: Picture, comps: seq<nat>, s: Setup, mode: ScanMode, interval: nat, order: seq<nat>,
                     books: Books, whole: seq<array2<Block>>, buf: BufferMode, free: nat, bufSize: nat, room: nat,
                     suspending: bool)
    returns (r: Outcome, bytes: seq<Byte>, left: nat)
    requires SetupFor(p.frame, comps, s) && ArraysReady(p, whole, buf) && TablesInRange(mode) && IsOrder(order)
    requires free > 0 && bufSize > 0 && room > 0 && mode.BlocksInMcu() == |Membership(s.parts, |s.parts|)|
    requires Suits(p, s) && s.parts != [] && Shaped(mode, ZigzagScan(order, ScanMcus(p, s)))
    requires suspending ==>
      Sequential.EachFits(HuffmanCodec(books), mode, interval, Start(mode, interval), ZigzagScan(order, ScanMcus(p, s)),
                          bufSize)
    modifies if buf == SaveAndPass then whole else []
    ensures r != Suspended
    ensures var segs := ScanSegments(mode, interval, ZigzagScan(order, ScanMcus(p, s)));
      && (r.Ok? <==> ScanOk(mode, interval, ZigzagScan(order, ScanMcus(p, s)))
                     && SegmentsCodable(HuffmanCodec(books), segs)
                     && (suspending ==> FlushSize(HuffmanCodec(books), segs) < room))
      && (r.Ok? ==> bytes == ScanOutput(HuffmanCodec(books), segs) && ArraysLeft(p, whole, buf) && left > 0)
      && (r.Ok? && suspending ==> left + FlushSize(HuffmanCodec(books), segs) == room)
  {
    hide ScanMcus, SetupFor, Membership, Prepared, ArraysReady, ArraysLeft, CoefController.Valid, Broken, IsOrder,
         Sequential.EachFits, ScanOk, ScanSegments, SegmentsCodable, ScanOutput, Finished, McuSink.Valid,
         HuffEncoder.Valid, FlushSize;
    var enc := new HuffEncoder(mode, interval, order, books, free, bufSize, suspending);
    var sink := new McuSink(Huff(enc));
    var coef := StartPass(p, comps, s, sink, whole, buf);
    bytes, left := [], 0;
    r := RunPass(coef, buf);
    if r == Error {
      BrokenScan(coef, enc);
      return;
    }
    PassOver(coef, buf);
    WholeScan(sink, enc, sink.log);
    enc.Refill(room);
    Sequential.FlushRemains(enc);
    r := enc.FinishPass();
    bytes, left := enc.stream, enc.free;
  }

  // ---------------------------------------------------------------- passes that may not suspend

  /** An MCU refused in a pass that may not suspend makes the scan one that does not fit. */
  lemma RefusedScan(coef: CoefController, enc: HuffEncoder)
    requires Refusing(coef) && coef.sink.entropy == Huff(enc)
    requires Shaped(enc.mode, ZigzagScan(enc.order, ScanMcus(coef.p, coef.s)))
    ensures var z := ZigzagScan(enc.order, ScanMcus(coef.p, coef.s));
      !WholeFits(enc.Code(), ScanSegments(enc.mode, enc.interval, z), coef.sink.Budget(), enc.suspending)
  {
    hide ScanMcus, SetupFor, Membership, ZigzagAll, IsOrder, Fed, FedAll, RunOk, ScanOk, ScanSegments,
         SegmentsCodable, AllCodable, McuOk, McuTokens, Restarted, Finished, BitOutput.Holds, Complete, ScanOutput;
    var z, i := ZigzagScan(enc.order, ScanMcus(coef.p, coef.s)), |coef.sink.log|;
    var start, e := Start(enc.mode, enc.interval), enc.State();
    assert z[..i] == ZigzagScan(enc.order, coef.sink.log);
    assert z[..i] + z[i..] == z && z[i..][0] == z[i] && z[i..][1..] == z[i + 1..];
    FedAllAppend(enc.mode, enc.interval, start, z[..i], z[i..]);
    FedFirst(enc.mode, enc.interval, e, z[i..]);
    FinishedGrows(enc.Code(), enc.mode, enc.interval, Fed(enc.mode, enc.interval, e, z[i]), z[i + 1..]);
    RestartIntervals(enc.mode, enc.interval, z);
  }

  lemma FedFirst(mode: ScanMode, interval: nat, e: Enc, mcus: seq<Mcu>)
    requires Fitting(mode, e.coder) && Shaped(mode, mcus) && mcus != []
    ensures FedAll(mode, interval, e, mcus) == FedAll(mode, interval, Fed(mode, interval, e, mcus[0]), mcus[1..])
  {
    hide Fed;
  }

  /** An output pass of the sequential coder in `jpeg_finish_compress`: a destination that refuses is a fatal
      error. It succeeds exactly if the scan can be coded and the destination has room for all of it. */
  method CodeOnce(p: Picture, comps: seq<nat>, s: Setup, mode: ScanMode, interval: nat, order: seq<nat>,
                  books: Books, whole: seq<array2<Block>>, buf: BufferMode, free: nat, bufSize: nat, suspending: bool)
    returns (r: Outcome, bytes: seq<Byte>, left: nat)
    requires SetupFor(p.frame, comps, s) && ArraysReady(p, whole, buf) && TablesInRange(mode) && IsOrder(order)
    requires free > 0 && bufSize > 0 && mode.BlocksInMcu() == |Membership(s.parts, |s.parts|)|
    requires Suits(p, s) && s.parts != [] && Shaped(mode, ZigzagScan(order, ScanMcus(p, s)))
    modifies if buf == SaveAndPass then whole else []
    ensures r != Suspended
    ensures var segs := ScanSegments(mode, interval, ZigzagScan(order, ScanMcus(p, s)));
      && (r.Ok? <==> ScanOk(mode, interval, ZigzagScan(order, ScanMcus(p, s)))
                     && WholeFits(HuffmanCodec(books), segs, free, suspending))
      && (r.Ok? ==> bytes == ScanOutput(HuffmanCodec(books), segs) && ArraysLeft(p, whole, buf) && left > 0)
      && (r.Ok? && suspending ==> left + |bytes| == free)
  {
    hide ScanMcus, SetupFor, Membership, Prepared, ArraysReady, ArraysLeft, CoefController.Valid, Broken, Refusing,
         IsOrder, ScanOk, ScanSegments, SegmentsCodable, ScanOutput, Finished, McuSink.Valid, HuffEncoder.Valid;
    var enc := new HuffEncoder(mode, interval, order, books, free, bufSize, suspending);
    var sink := new McuSink(Huff(enc));
    var coef := StartPass(p, comps, s, sink, whole, buf);
    bytes, left := [], 0;
    r := RunOnce(coef, buf);
    if r == Error {
      BrokenScan(coef, enc);
      return;
    }
    if r == Suspended {
      RefusedScan(coef, enc);
      return Error, bytes, left;
    }
    PassOver(coef, buf);
    WholeScan(sink, enc, sink.log);
    r := enc.FinishPass();
    bytes, left := enc.stream, enc.free;
  }

  /** The bytes of a marker segment, one by one; a destination that refuses is a fatal error. */
  method WriteMarkers(n: nat, free: nat, bufSize: nat, suspending: bool) returns (ok: bool, left: nat)
    requires free > 0 && bufSize > 0
    ensures ok <==> (suspending ==> n < free)
    ensures ok ==> left > 0 && (suspending ==> left + n == free)
  {
    left := free;
    for i := 0 to n
      invariant left > 0 && (suspending ==> left + i == free)
    {
      left := left - 1;
      if left == 0 {
        if suspending {
          return false, left;
        }
        left := bufSize;
      }
    }
    ok := true;
  }

  // ---------------------------------------------------------------- scans

  /** The tables that a scan's mode names exist. */
  ghost predicate ModeOk(mode: ScanMode) {
    if mode.Sequential? then TablesInRange(mode) else Progressive.ModeInRange(mode)
  }

  function TablesOf(mode: ScanMode): nat { if mode.Sequential? then 2 * NUM_HUFF_TBLS else NUM_HUFF_TBLS }

  /** The MCUs of a scan as its coder reads them, and the tokens they are coded to. */
  ghost function ScanOf(p: Picture, scan: Script.ScanInfo, order: seq<nat>, job: ScanJob): (r: seq<Mcu>)
    requires JobFor(p, scan, job) && IsOrder(order)
    ensures Suits(p, job.setup) && job.setup.parts != [] && r == ZigzagScan(order, ScanMcus(p, job.setup))
    ensures Shaped(job.mode, r)
  {
    SuitsSetup(p, job.comps, job.setup);
    McusShaped(p, scan, job);
    ScanShape(job.mode, order, ScanMcus(p, job.setup));
    ZigzagScan(order, ScanMcus(p, job.setup))
  }

  ghost function SegmentsOf(p: Picture, scan: Script.ScanInfo, order: seq<nat>, job: ScanJob): (r: seq<seq<Token>>)
    requires JobFor(p, scan, job) && IsOrder(order)
    ensures r != []
  {
    ScanSegments(job.mode, job.setup.restartInterval, ScanOf(p, scan, order, job))
  }

  /** Exactly these scans can be coded: all coefficients are within the limits, and, if the tables are made
      for the scan, Huffman's procedure stays within 32 bits; or else the given tables have all symbols. */
  ghost predicate CanCode(p: Picture, scan: Script.ScanInfo, order: seq<nat>, job: ScanJob, optimize: bool)
    requires JobFor(p, scan, job) && IsOrder(order)
  {
    && ScanOk(job.mode, job.setup.restartInterval, ScanOf(p, scan, order, job))
    && if optimize then AllShallow(Flatten(SegmentsOf(p, scan, order, job)), TablesOf(job.mode))
       else SegmentsCodable(HuffmanCodec(job.books), SegmentsOf(p, scan, order, job))
  }

  /** The code of a scan: made from its counts, or given. */
  ghost function CodecOf(p: Picture, scan: Script.ScanInfo, order: seq<nat>, job: ScanJob, optimize: bool): Codec
    requires JobFor(p, scan, job) && IsOrder(order)
  {
    if optimize then MadeCodec(Flatten(SegmentsOf(p, scan, order, job)), TablesOf(job.mode))
      else HuffmanCodec(job.books)
  }

  /** The number of bytes of its stream, and of those the last flush writes. */
  ghost function SizeOf(p: Picture, scan: Script.ScanInfo, order: seq<nat>, job: ScanJob, optimize: bool): nat
    requires JobFor(p, scan, job) && IsOrder(order)
  {
    |ScanOutput(CodecOf(p, scan, order, job, optimize), SegmentsOf(p, scan, order, job))|
  }

  ghost function FlushOf(p: Picture, scan: Script.ScanInfo, order: seq<nat>, job: ScanJob): nat
    requires JobFor(p, scan, job) && IsOrder(order)
  {
    FlushSize(HuffmanCodec(job.books), SegmentsOf(p, scan, order, job))
  }

  /** The totals are such that tables can be made. */
  ghost predicate CanCount(p: Picture, scan: Script.ScanInfo, order: seq<nat>, job: ScanJob)
    requires JobFor(p, scan, job) && IsOrder(order)
  {
    Manageable(Flatten(SegmentsOf(p, scan, order, job)), TablesOf(job.mode))
  }

  /** An emptied buffer has room for each MCU. */
  ghost predicate Roomy(p: Picture, scan: Script.ScanInfo, order: seq<nat>, job: ScanJob, bufSize: nat)
    requires JobFor(p, scan, job) && IsOrder(order)
  {
    var interval := job.setup.restartInterval;
    Sequential.EachFits(HuffmanCodec(job.books), job.mode, interval, Start(job.mode, interval),
                        ScanOf(p, scan, order, job), bufSize)
  }

  lemma JobBlocks(p: Picture, scan: Script.ScanInfo, job: ScanJob)
    requires JobFor(p, scan, job) && job.mode.Sequential?
    ensures job.mode.BlocksInMcu() == |Membership(job.setup.parts, |job.setup.parts|)|
  {
    hide Membership, ModeFits, Script.ScanInfo.Comps;
  }

  /** The first pass over a scan that is coded with the tables given. */
  method FirstPass(p: Picture, ghost scan: Script.ScanInfo, job: ScanJob, order: seq<nat>,
                   whole: seq<array2<Block>>, buf: BufferMode, free: nat, bufSize: nat, room: nat, suspending: bool)
    returns (ok: bool, bytes: seq<Byte>, left: nat)
    requires JobFor(p, scan, job) && IsOrder(order) && ModeOk(job.mode) && job.mode.Sequential?
    requires free > 0 && bufSize > 0 && room > 0 && ArraysReady(p, whole, buf)
    requires suspending ==> Roomy(p, scan, order, job, bufSize)
    modifies if buf == SaveAndPass then whole else []
    ensures ok <==> CanCode(p, scan, order, job, false) && (suspending ==> FlushOf(p, scan, order, job) < room)
    ensures ok ==> StreamFor(p, order, job, bytes) && ArraysLeft(p, whole, buf)
    ensures ok ==> left > 0 && (suspending ==> left + FlushOf(p, scan, order, job) == room)
  {
    hide ScanMcus, ScanSegments, SegmentsCodable, ScanOutput, HuffmanCodec, IsOrder, ZigzagScan, ScanOk, ArraysReady,
         ArraysLeft, Sequential.EachFits, SetupFor, Matches, Membership, FlushSize;
    ghost var mcus := ScanOf(p, scan, order, job);
    JobBlocks(p, scan, job);
    var r;
    r, bytes, left := CodeThrough(p, job.comps, job.setup, job.mode, job.setup.restartInterval, order, job.books, whole,
                                  buf, free, bufSize, room, suspending);
    ok := r == Ok;
  }

  /** An output pass in `jpeg_finish_compress`, of a scan of any kind. */
  method OutputPass(p: Picture, ghost scan: Script.ScanInfo, job: ScanJob, order: seq<nat>, books: Books,
                    whole: seq<array2<Block>>, buf: BufferMode, free: nat, bufSize: nat, suspending: bool)
    returns (ok: bool, bytes: seq<Byte>, left: nat)
    requires JobFor(p, scan, job) && IsOrder(order) && ModeOk(job.mode) && free > 0 && bufSize > 0
    requires ArraysReady(p, whole, buf)
    modifies if buf == SaveAndPass then whole else []
    ensures ok <==>
      && ScanOk(job.mode, job.setup.restartInterval, ScanOf(p, scan, order, job))
      && WholeFits(HuffmanCodec(books), SegmentsOf(p, scan, order, job), free, suspending)
    ensures ok ==>
        bytes == ScanOutput(HuffmanCodec(books), SegmentsOf(p, scan, order, job)) && ArraysLeft(p, whole, buf)
    ensures ok ==> left > 0 && (suspending ==> left + |bytes| == free)
  {
    hide ScanMcus, ScanSegments, SegmentsCodable, ScanOutput, HuffmanCodec, IsOrder, ZigzagScan, ScanOk, ArraysReady,
         ArraysLeft, SetupFor, Matches, Membership, WholeFits;
    ghost var mcus := ScanOf(p, scan, order, job);
    McusShaped(p, scan, job);
    var r;
    if job.mode.Sequential? {
      JobBlocks(p, scan, job);
      r, bytes, left := CodeOnce(p, job.comps, job.setup, job.mode, job.setup.restartInterval, order, books, whole, buf,
                                 free, bufSize, suspending);
    } else {
      var data := CollectMcus(p, job.comps, job.setup, whole, buf);
      var counts;
      r, bytes, counts, left :=
        Progressive.EncodeScan(false, books, job.mode, job.setup.restartInterval, order, data, free, bufSize,
                               suspending);
    }
    ok := r == Ok;
  }

  /** The statistics pass over a scan, and the tables made from its counts. */
  method MakeTables(p: Picture, ghost scan: Script.ScanInfo, job: ScanJob, order: seq<nat>, whole: seq<array2<Block>>,
                    buf: BufferMode, bufSize: nat) returns (ok: bool, books: Books)
    requires JobFor(p, scan, job) && IsOrder(order) && ModeOk(job.mode) && bufSize > 0
    requires ArraysReady(p, whole, buf) && CanCount(p, scan, order, job)
    modifies if buf == SaveAndPass then whole else []
    ensures ok <==> CanCode(p, scan, order, job, true)
    ensures ok ==> Tailored(books, Flatten(SegmentsOf(p, scan, order, job)))
    ensures ok ==> SegmentsCodable(HuffmanCodec(books), SegmentsOf(p, scan, order, job))
    ensures ok ==> SameWrites(HuffmanCodec(books), CodecOf(p, scan, order, job, true)) && ArraysLeft(p, whole, buf)
  {
    hide ScanMcus, ScanSegments, SegmentsCodable, HuffmanCodec, IsOrder, ZigzagScan, ScanOk, Flatten, SameWrites,
         MadeCodec, ArraysReady, ArraysLeft, Tailored, AllShallow, Manageable, SetupFor, Matches, Membership;
    ghost var mcus := ScanOf(p, scan, order, job);
    McusShaped(p, scan, job);
    var data := CollectMcus(p, job.comps, job.setup, whole, buf);
    if job.mode.Sequential? {
      ok, books := SequentialTables(job.mode, job.setup.restartInterval, order, data);
    } else {
      ok, books := ProgressiveTables(job.mode, job.setup.restartInterval, order, data, bufSize);
    }
  }

  /** One scan in `jpeg_finish_compress`: with tables made from its counts, or given; then its headers of
      `header` bytes, and its output pass. It succeeds exactly if the scan can be coded and headers and stream
      together fit the room that is left. */
  method CodeScan(p: Picture, ghost scan: Script.ScanInfo, job: ScanJob, order: seq<nat>, whole: seq<array2<Block>>,
                  buf: BufferMode, optimize: bool, header: nat, free: nat, bufSize: nat, suspending: bool)
    returns (ok: bool, books: Books, bytes: seq<Byte>, left: nat)
    requires JobFor(p, scan, job) && IsOrder(order) && ModeOk(job.mode) && free > 0 && bufSize > 0
    requires ArraysReady(p, whole, buf) && buf != PassThru && (!optimize ==> buf == CrankDest)
    requires if optimize then CanCount(p, scan, order, job) else job.mode.Sequential?
    modifies if buf == SaveAndPass then whole else []
    ensures ok <==>
      CanCode(p, scan, order, job, optimize) && (suspending ==> header + SizeOf(p, scan, order, job, optimize) < free)
    ensures ok ==> StreamFor(p, order, job.(books := books), bytes)
    ensures ok ==> if optimize then Tailored(books, Flatten(SegmentsOf(p, scan, order, job))) else books == job.books
    ensures ok ==> left > 0 && (suspending ==> left + header + SizeOf(p, scan, order, job, optimize) == free)
    ensures ok ==> ArraysLeft(p, whole, buf)
  {
    hide ScanMcus, ScanSegments, SegmentsCodable, ScanOutput, HuffmanCodec, IsOrder, ZigzagScan, ScanOk, Flatten,
         MadeCodec, ArraysReady, ArraysLeft, Tailored, AllShallow, Manageable, SetupFor, Matches, Membership,
         SameWrites;
    books, bytes, left := job.books, [], free;
    if optimize {
      ok, books := MakeTables(p, scan, job, order, whole, buf, bufSize);
      if !ok {
        return;
      }
      LeftReady(p, whole, buf);
      SameOutput(HuffmanCodec(books), CodecOf(p, scan, order, job, true), SegmentsOf(p, scan, order, job));
    }
    ok, left := WriteMarkers(header, free, bufSize, suspending);
    if ok {
      ok, bytes, left := OutputPass(p, scan, job, order, books, whole, CrankDest, left, bufSize, suspending);
    }
  }

  lemma LeftReady(p: Picture, whole: seq<array2<Block>>, buf: BufferMode)
    requires ArraysLeft(p, whole, buf) && buf != PassThru
    ensures ArraysReady(p, whole, CrankDest)
  {
  }

  // ---------------------------------------------------------------- scripts

  const EOI_SIZE := 2

  /** What every scan of a script needs. */
  ghost predicate ScanReady(p: Picture, scan: Script.ScanInfo, order: seq<nat>, job: ScanJob, optimize: bool)
    requires IsOrder(order)
  {
    && JobFor(p, scan, job) && ModeOk(job.mode)
    && (if optimize then CanCount(p, scan, order, job) else job.mode.Sequential?)
  }

  ghost predicate AllReady(p: Picture, script: seq<Script.ScanInfo>, order: seq<nat>, jobs: seq<ScanJob>,
                           optimize: bool)
    requires IsOrder(order)
  {
    && JobsFor(p, script, jobs) && jobs != []
    && forall i :: 0 <= i < |jobs| ==> ScanReady(p, script[i], order, jobs[i], optimize)
  }

  ghost predicate AllCanCode(p: Picture, script: seq<Script.ScanInfo>, order: seq<nat>, jobs: seq<ScanJob>,
                             optimize: bool)
    requires IsOrder(order) && JobsFor(p, script, jobs)
  {
    forall i :: 0 <= i < |jobs| ==> JobFor(p, script[i], jobs[i]) && CanCode(p, script[i], order, jobs[i], optimize)
  }

  /** The bytes that `jpeg_finish_compress` writes up to scan `n`: of a first scan that was coded in the first
      pass only the flush, of the others headers and stream. */
  ghost function Spent(p: Picture, script: seq<Script.ScanInfo>, order: seq<nat>, jobs: seq<ScanJob>, optimize: bool,
                       headers: seq<nat>, n: nat): nat
    requires IsOrder(order) && JobsFor(p, script, jobs) && |headers| == |jobs| && n <= |jobs|
  {
    if n == 0 then 0
    else
      JobAt(p, script, jobs, n - 1);
      Spent(p, script, order, jobs, optimize, headers, n - 1) +
      if n == 1 && !optimize then FlushOf(p, script[0], order, jobs[0])
      else headers[n - 1] + SizeOf(p, script[n - 1], order, jobs[n - 1], optimize)
  }

  /** There is room for all that may not suspend: the headers of a first pass that writes, in the buffer; and
      in the `room` left at the end everything else, with the end-of-image marker. */
  ghost predicate FitsRoom(p: Picture, script: seq<Script.ScanInfo>, order: seq<nat>, jobs: seq<ScanJob>,
                           optimize: bool, headers: seq<nat>, bufSize: nat, room: nat)
    requires IsOrder(order) && JobsFor(p, script, jobs) && |headers| == |jobs| && jobs != []
  {
    && (!optimize ==> headers[0] < bufSize)
    && Spent(p, script, order, jobs, optimize, headers, |jobs|) + EOI_SIZE < room
  }

  lemma {:induction false} SpentGrows(p: Picture, script: seq<Script.ScanInfo>, order: seq<nat>, jobs: seq<ScanJob>,
                                      optimize: bool, headers: seq<nat>, n: nat, m: nat)
    requires IsOrder(order) && JobsFor(p, script, jobs) && |headers| == |jobs| && n <= m <= |jobs|
    ensures Spent(p, script, order, jobs, optimize, headers, n) <= Spent(p, script, order, jobs, optimize, headers, m)
  {
    hide JobFor, IsOrder, FlushOf, SizeOf;
    if n < m {
      SpentGrows(p, script, order, jobs, optimize, headers, n, m - 1);
    }
  }

  /** One more scan. */
  lemma SpentNext(p: Picture, script: seq<Script.ScanInfo>, order: seq<nat>, jobs: seq<ScanJob>, optimize: bool,
                  headers: seq<nat>, i: nat)
    requires IsOrder(order) && JobsFor(p, script, jobs) && |headers| == |jobs| && i < |jobs|
    ensures JobFor(p, script[i], jobs[i]) && Spent(p, script, order, jobs, optimize, headers, 0) == 0
    ensures Spent(p, script, order, jobs, optimize, headers, i + 1)
         == Spent(p, script, order, jobs, optimize, headers, i)
            + if i == 0 && !optimize then FlushOf(p, script[0], order, jobs[0])
              else headers[i] + SizeOf(p, script[i], order, jobs[i], optimize)
    ensures Spent(p, script, order, jobs, optimize, headers, i + 1)
         <= Spent(p, script, order, jobs, optimize, headers, |jobs|)
  {
    hide JobFor, IsOrder, FlushOf, SizeOf;
    JobAt(p, script, jobs, i);
    SpentGrows(p, script, order, jobs, optimize, headers, i + 1, |jobs|);
  }

  /** The jobs with the tables that were used: made for exactly the symbols of the scan, or given. */
  ghost predicate UsedFor(p: Picture, scan: Script.ScanInfo, order: seq<nat>, job: ScanJob, used: ScanJob,
                          optimize: bool)
    requires IsOrder(order)
  {
    && JobFor(p, scan, job) && used == job.(books := used.books)
    && if optimize then Tailored(used.books, Flatten(SegmentsOf(p, scan, order, job))) else used == job
  }

  ghost predicate AllCoded(p: Picture, script: seq<Script.ScanInfo>, order: seq<nat>, jobs: seq<ScanJob>,
                           optimize: bool,
                           coded: seq<ScanJob>, streams: seq<seq<Byte>>, n: nat)
    requires IsOrder(order) && p.frame.Valid() && n <= |jobs| == |script|
  {
    && |coded| == |streams| == n
    && forall k :: 0 <= k < n ==>
         UsedFor(p, script[k], order, jobs[k], coded[k], optimize) && StreamFor(p, order, coded[k], streams[k])
  }

  lemma CodedNext(p: Picture, script: seq<Script.ScanInfo>, order: seq<nat>, jobs: seq<ScanJob>, optimize: bool,
                  coded: seq<ScanJob>, streams: seq<seq<Byte>>, n: nat, books: Books, bytes: seq<Byte>)
    requires IsOrder(order) && p.frame.Valid() && n < |jobs| == |script|
    requires AllCoded(p, script, order, jobs, optimize, coded, streams, n)
    requires UsedFor(p, script[n], order, jobs[n], jobs[n].(books := books), optimize)
    requires StreamFor(p, order, jobs[n].(books := books), bytes)
    ensures AllCoded(p, script, order, jobs, optimize, coded + [jobs[n].(books := books)], streams + [bytes], n + 1)
  {
    hide UsedFor, StreamFor, IsOrder;
  }

  /** The scans of a script, coded in order. With several scans, or with tables made for each, the first pass
      saves the whole image and the others read it. Only the first pass may suspend, and `bufSize` bytes are
      free whenever the application has emptied the buffer; what `jpeg_finish_compress` writes goes into `room`
      bytes. Coding succeeds exactly if each scan can be coded and all that may not suspend fits. */
  method CodeScans(p: Picture, ghost script: seq<Script.ScanInfo>, jobs: seq<ScanJob>, order: seq<nat>,
                   optimize: bool, headers: seq<nat>, bufSize: nat, room: nat, suspending: bool)
    returns (ok: bool, coded: seq<ScanJob>, streams: seq<seq<Byte>>)
    requires IsOrder(order) && AllReady(p, script, order, jobs, optimize)
    requires |headers| == |jobs| && bufSize > 0 && room > 0
    requires suspending && !optimize ==> JobFor(p, script[0], jobs[0]) && Roomy(p, script[0], order, jobs[0], bufSize)
    ensures ok <==>
      && AllCanCode(p, script, order, jobs, optimize)
      && (suspending ==> FitsRoom(p, script, order, jobs, optimize, headers, bufSize, room))
    ensures ok ==> AllCoded(p, script, order, jobs, optimize, coded, streams, |jobs|)
  {
    hide JobFor, StreamFor, CanCode, ModeOk, IsOrder, CanCount, Roomy, Stored, ArraysFor, Tailored, Flatten,
         SegmentsOf, Spent, SizeOf, FlushOf, AllCoded, UsedFor;
    coded, streams := [], [];
    var whole := [];
    var several := |jobs| > 1 || optimize;
    if several {
      whole := AllocateImage(p.frame);
    }
    var i, left := 0, room;
    SpentNext(p, script, order, jobs, optimize, headers, 0);
    NothingCodedYet(p, script, order, jobs, optimize);
    if !optimize {
      assert ScanReady(p, script[0], order, jobs[0], optimize);
      var bytes;
      ok, left := WriteMarkers(headers[0], bufSize, bufSize, suspending);
      if !ok {
        return;
      }
      ok, bytes, left := FirstPass(p, script[0], jobs[0], order, whole, if several then SaveAndPass else PassThru,
                                   left, bufSize, room, suspending);
      if !ok {
        return;
      }
      GivenUsed(p, script[0], order, jobs[0]);
      CodedNext(p, script, order, jobs, optimize, coded, streams, 0, jobs[0].books, bytes);
      coded, streams, i := coded + [jobs[0].(books := jobs[0].books)], streams + [bytes], 1;
    }
    while i < |jobs|
      invariant i <= |jobs| && (i == 0 ==> optimize)
      invariant forall c :: 0 <= c < |whole| ==> fresh(whole[c])
      invariant several ==> ArraysFor(p.frame, whole) && (i > 0 ==> Stored(p, whole))
      invariant left > 0 && (suspending ==> left + Spent(p, script, order, jobs, optimize, headers, i) == room)
      invariant !optimize ==> (suspending ==> headers[0] < bufSize)
      invariant forall k :: 0 <= k < i ==>
          JobFor(p, script[k], jobs[k]) && CanCode(p, script[k], order, jobs[k], optimize)
      invariant AllCoded(p, script, order, jobs, optimize, coded, streams, i)
      modifies whole
    {
      assert ScanReady(p, script[i], order, jobs[i], optimize);
      SpentNext(p, script, order, jobs, optimize, headers, i);
      var books, bytes;
      ok, books, bytes, left := CodeScan(p, script[i], jobs[i], order, whole, if i == 0 then SaveAndPass else CrankDest,
                                         optimize, headers[i], left, bufSize, suspending);
      if !ok {
        return;
      }
      BooksUsed(p, script[i], order, jobs[i], books, optimize);
      CodedNext(p, script, order, jobs, optimize, coded, streams, i, books, bytes);
      coded, streams := coded + [jobs[i].(books := books)], streams + [bytes];
      i := i + 1;
    }
    ok, left := WriteMarkers(EOI_SIZE, left, bufSize, suspending);
  }

  lemma NothingCodedYet(p: Picture, script: seq<Script.ScanInfo>, order: seq<nat>, jobs: seq<ScanJob>, optimize: bool)
    requires IsOrder(order) && p.frame.Valid() && |jobs| == |script|
    ensures AllCoded(p, script, order, jobs, optimize, [], [], 0)
  {
  }

  lemma GivenUsed(p: Picture, scan: Script.ScanInfo, order: seq<nat>, job: ScanJob)
    requires IsOrder(order) && JobFor(p, scan, job)
    ensures UsedFor(p, scan, order, job, job.(books := job.books), false) && job.(books := job.books) == job
  {
  }

  lemma BooksUsed(p: Picture, scan: Script.ScanInfo, order: seq<nat>, job: ScanJob, books: Books, optimize: bool)
    requires IsOrder(order) && JobFor(p, scan, job)
    requires if optimize then Tailored(books, Flatten(SegmentsOf(p, scan, order, job))) else books == job.books
    ensures UsedFor(p, scan, order, job, job.(books := books), optimize)
  {
  }

  /** What was coded goes with the script as the jobs did. */
  lemma CodedFor(p: Picture, script: seq<Script.ScanInfo>, order: seq<nat>, jobs: seq<ScanJob>, optimize: bool,
                 coded: seq<ScanJob>, streams: seq<seq<Byte>>)
    requires IsOrder(order) && JobsFor(p, script, jobs)
    requires AllCoded(p, script, order, jobs, optimize, coded, streams, |jobs|)
    ensures JobsFor(p, script, coded) && |streams| == |script|
    ensures forall i :: 0 <= i < |script| ==> StreamFor(p, order, coded[i], streams[i])
  {
    hide StreamFor, SetupFor, Matches, Indexed, Tailored, Flatten, SegmentsOf, IsOrder;
    forall i | 0 <= i < |coded| ensures JobFor(p, script[i], coded[i]) {
      assert UsedFor(p, script[i], order, jobs[i], coded[i], optimize);
    }
    forall i | 0 <= i < |script| ensures StreamFor(p, order, coded[i], streams[i]) {
      assert UsedFor(p, script[i], order, jobs[i], coded[i], optimize);
    }
  }

  /** All scans of a valid script, from the picture to the streams and back: decoding the streams gives, of
      every real block, what the script sent; and the block itself if the script leaves nothing unsent. */
  method CodeScript(p: Picture, ghost script: seq<Script.ScanInfo>, jobs: seq<ScanJob>, order: seq<nat>,
                    optimize: bool, headers: seq<nat>, bufSize: nat, room: nat, suspending: bool,
                    ghost image: Image, ghost blank: Image, ghost visible: set<BlockId>)
    returns (ok: bool, coded: seq<ScanJob>, streams: seq<seq<Byte>>)
    requires IsOrder(order) && AllReady(p, script, order, jobs, optimize) && Script.ValidScript(|p.frame.comps|, script)
    requires |headers| == |jobs| && bufSize > 0 && room > 0
    requires suspending && !optimize ==> JobFor(p, script[0], jobs[0]) && Roomy(p, script[0], order, jobs[0], bufSize)
    requires ImageOf(p, order, image) && Blank(image, blank) && forall id :: id in visible <==> IsReal(p.frame, id)
    ensures ok <==>
      && AllCanCode(p, script, order, jobs, optimize)
      && (suspending ==> FitsRoom(p, script, order, jobs, optimize, headers, bufSize, room))
    ensures ok ==> AllCoded(p, script, order, jobs, optimize, coded, streams, |jobs|)
    ensures ok ==> |streams| == |script| && JobsFor(p, script, coded)
    ensures ok ==> var o := DecodeScans(blank, SettingsOf(p, script, coded), streams, |script|);
      o.Some? && ScriptDecoding.Holds(image, visible, script, o.value)
    ensures ok && (forall c, k :: 0 <= c < |p.frame.comps| && 0 <= k < 64 ==> Script.LastAl(script, c, k) == 0) ==>
      forall id :: id in visible ==> Restored(p, order, script, coded, streams, blank, id)
  {
    hide IsBlock, JobFor, StreamFor, CanCode, ModeOk, IsOrder, DecodeScans, ImageOf, Blank, IsReal,
         ScriptDecoding.Holds, Script.LastAl, CanCount, Roomy, AllCanCode, FitsRoom, AllCoded, ScanReady;
    ok, coded, streams := CodeScans(p, script, jobs, order, optimize, headers, bufSize, room, suspending);
    if ok {
      CodedFor(p, script, order, jobs, optimize, coded, streams);
      PictureRoundTrip(p, order, Script.Progressive(script), script, coded, streams, image, blank, visible);
      if forall c, k :: 0 <= c < |p.frame.comps| && 0 <= k < 64 ==> Script.LastAl(script, c, k) == 0 {
        forall id | id in visible ensures Restored(p, order, script, coded, streams, blank, id) {
          PictureReturned(p, order, script, coded, streams, image, blank, visible, id);
        }
      }
    }
  }

  /** The decoder of all streams has the block exactly, coefficient `k` of the zigzag at its natural position. */
  ghost predicate Restored(p: Picture, order: seq<nat>, script: seq<Script.ScanInfo>, jobs: seq<ScanJob>,
                           streams: seq<seq<Byte>>, blank: Image, id: BlockId)
    requires JobsFor(p, script, jobs) && |streams| == |script| && IsOrder(order)
  {
    var o := DecodeScans(blank, SettingsOf(p, script, jobs), streams, |script|);
    o.Some? && id in o.value && IsBlock(p, order, id, o.value[id])
  }
}
