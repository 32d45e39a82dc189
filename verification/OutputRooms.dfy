/** How much room the destination needs: what a caller can work out from the size of the image before
    compressing, and images for which a given room is not enough. */
module OutputRooms {
  import opened Wrappers
  import opened BitStrings
  import opened BufferRoom
  import opened Coding
  import opened CoefControl
  import opened CoefficientRanges
  import opened EntropySegments
  import opened Geometry
  import opened HuffmanTables
  import opened OptimizedScans
  import opened Pictures
  import opened RunLength
  import opened ScanCompression
  import opened ScanLayouts
  import opened Scans
  import opened ScanSetups
  import opened ScanSizes
  import opened ScanStreams
  import opened StreamGrowth
  import opened SymbolTotals
  import opened TokenSinks
  import opened Zigzags
  import Script = ScanScripts
  import Sequential = SequentialScans

  // ---------------------------------------------------------------- scans that can be coded

  /** A scan of a picture in range can be coded, with tables made for it, if its totals are below
      Fibonacci(35). */
  lemma InRangeCodes(p: Picture, scan: Script.ScanInfo, order: seq<nat>, job: ScanJob)
    requires JobFor(p, scan, job) && IsOrder(order) && PictureInRange(p)
    requires LowTotals(Flatten(SegmentsOf(p, scan, order, job)), TablesOf(job.mode))
    ensures CanCode(p, scan, order, job, true)
  {
    hide PictureInRange, IsOrder, ScanMcus, ScanSegments, ScanOk, Flatten, LowTotals, AllShallow, JobFor;
    ghost var mcus := ScanOf(p, scan, order, job);
    PictureFits(p, job.setup, job.mode, job.setup.restartInterval, order);
    LowShallow(Flatten(SegmentsOf(p, scan, order, job)), TablesOf(job.mode));
  }

  /** The number of MCUs of a scan. */
  function McusOf(job: ScanJob): nat { job.setup.mcuRowsInScan * job.setup.mcusPerRow }

  lemma McusCounted(p: Picture, scan: Script.ScanInfo, order: seq<nat>, job: ScanJob)
    requires JobFor(p, scan, job) && IsOrder(order)
    ensures |ScanOf(p, scan, order, job)| == McusOf(job)
  {
    hide IsOrder, SetupFor, Matches, Indexed, ScanMcus;
    McuCount(p, job.comps, job.setup);
  }

  /** The image is small enough for the counts of its scans to be moderate. */
  predicate Countable(job: ScanJob) { Bound(job.mode, McusOf(job)) + 2 < 9227465 }

  /** Whatever the picture, as long as its coefficients are in range and the scan has no more blocks than the
      table generator can count, it can be coded with tables made for it. */
  lemma InRangeReady(p: Picture, scan: Script.ScanInfo, order: seq<nat>, job: ScanJob)
    requires JobFor(p, scan, job) && ModeOk(job.mode) && IsOrder(order) && PictureInRange(p) && Countable(job)
    ensures ScanReady(p, scan, order, job, true) && CanCode(p, scan, order, job, true)
  {
    hide PictureInRange, IsOrder, JobFor, ModeOk, CanCode, Bound, LowTotals, Manageable, ScanSegments, Flatten;
    McusCounted(p, scan, order, job);
    SmallScan(job.mode, job.setup.restartInterval, ScanOf(p, scan, order, job), TablesOf(job.mode));
    InRangeCodes(p, scan, order, job);
  }

  // ---------------------------------------------------------------- the buffer of the first pass

  /** To suspend in a first pass that writes, such a picture needs a buffer of 528 bytes for each block of an
      MCU, and five more; 5286 bytes are always enough. */
  lemma InRangeRoomy(p: Picture, scan: Script.ScanInfo, order: seq<nat>, job: ScanJob, bufSize: nat)
    requires JobFor(p, scan, job) && IsOrder(order) && PictureInRange(p) && job.mode.Sequential?
    requires bufSize > BLOCK_ROOM * |job.mode.membership| + RESTART_ROOM
          || bufSize > BLOCK_ROOM * C_MAX_BLOCKS_IN_MCU + RESTART_ROOM
    ensures Roomy(p, scan, order, job, bufSize)
  {
    hide PictureInRange, IsOrder, ScanMcus, ScanOk, JobFor, Sequential.EachFits, RunOk, HuffmanCodec;
    var mcus, interval := ScanOf(p, scan, order, job), job.setup.restartInterval;
    PictureFits(p, job.setup, job.mode, interval, order);
    RunIsScan(job.mode, interval, mcus);
    FewBlocks(p, scan, job);
    HuffmanShort(job.books);
    RoomForEach(HuffmanCodec(job.books), job.mode, interval, Start(job.mode, interval), mcus, bufSize);
  }

  lemma FewBlocks(p: Picture, scan: Script.ScanInfo, job: ScanJob)
    requires JobFor(p, scan, job) && job.mode.Sequential?
    ensures |job.mode.membership| <= C_MAX_BLOCKS_IN_MCU
  {
    hide Membership, Matches, SetupFor;
    JobBlocks(p, scan, job);
    FullMembership(p.frame, job.comps, job.setup);
  }

  // ---------------------------------------------------------------- enough room for what may not suspend

  lemma MadeShort(ts: seq<Token>, tables: nat)
    ensures ShortCodes(MadeCodec(ts, tables))
  {
    hide CountRow;
    forall tbl: nat, s: nat | MadeCodec(ts, tables).write(tbl, s).Some?
      ensures |MadeCodec(ts, tables).write(tbl, s).value| <= 16
    {
      MadeLength(CountRow(ts, tbl), s);
    }
  }

  lemma CodecShort(p: Picture, scan: Script.ScanInfo, order: seq<nat>, job: ScanJob, optimize: bool)
    requires JobFor(p, scan, job) && IsOrder(order)
    ensures ShortCodes(CodecOf(p, scan, order, job, optimize))
  {
    hide ShortCodes, JobFor, IsOrder, SegmentsOf, Flatten, MadeCodec, HuffmanCodec;
    if optimize {
      MadeShort(Flatten(SegmentsOf(p, scan, order, job)), TablesOf(job.mode));
    } else {
      HuffmanShort(job.books);
    }
  }

  /** A scan takes at most 528 bytes for each block, and two for each MCU; the flush at most two. */
  lemma SizeWithin(p: Picture, scan: Script.ScanInfo, order: seq<nat>, job: ScanJob, optimize: bool)
    requires JobFor(p, scan, job) && IsOrder(order) && CanCode(p, scan, order, job, optimize)
    ensures SizeOf(p, scan, order, job, optimize) <= ScanRoom(job.mode, McusOf(job))
    ensures FlushOf(p, scan, order, job) <= 2
  {
    hide ShortCodes, JobFor, IsOrder, CodecOf, ScanOutput, ScanRoom, ScanOk, ScanSegments, ScanMcus, SegmentsCodable,
         AllShallow, McusOf, Stuff, Bytes, Rem, StreamBits, HuffmanCodec;
    McusCounted(p, scan, order, job);
    CodecShort(p, scan, order, job, optimize);
    ScanSize(CodecOf(p, scan, order, job, optimize), job.mode, job.setup.restartInterval, ScanOf(p, scan, order, job));
    var segs := SegmentsOf(p, scan, order, job);
    FlushIsShort(Rem(StreamBits(HuffmanCodec(job.books), segs[|segs| - 1])));
  }

  /** What the headers and the numbers of blocks say of the room that the first `n` scans need. */
  function RoomFor(jobs: seq<ScanJob>, optimize: bool, headers: seq<nat>, n: nat): nat
    requires n <= |jobs| == |headers|
  {
    if n == 0 then 0
    else
      RoomFor(jobs, optimize, headers, n - 1) +
      if n == 1 && !optimize then 2 else headers[n - 1] + ScanRoom(jobs[n - 1].mode, McusOf(jobs[n - 1]))
  }

  lemma {:induction false} SpentWithin(p: Picture, script: seq<Script.ScanInfo>, order: seq<nat>, jobs: seq<ScanJob>,
                                       optimize: bool, headers: seq<nat>, n: nat)
    requires IsOrder(order) && JobsFor(p, script, jobs) && |headers| == |jobs| && n <= |jobs|
    requires AllCanCode(p, script, order, jobs, optimize)
    ensures Spent(p, script, order, jobs, optimize, headers, n) <= RoomFor(jobs, optimize, headers, n)
  {
    hide JobFor, IsOrder, FlushOf, SizeOf, ScanRoom, McusOf, CanCode;
    if n > 0 {
      JobAt(p, script, jobs, n - 1);
      assert CanCode(p, script[n - 1], order, jobs[n - 1], optimize);
      SpentWithin(p, script, order, jobs, optimize, headers, n - 1);
      SizeWithin(p, script[n - 1], order, jobs[n - 1], optimize);
    }
  }

  /** A picture in range, with tables made for each scan, is compressed whenever the room at the end is enough
      for the headers, 528 bytes for each block, two for each MCU, and the end-of-image marker. */
  lemma InRangeScript(p: Picture, script: seq<Script.ScanInfo>, order: seq<nat>, jobs: seq<ScanJob>,
                      headers: seq<nat>, bufSize: nat, room: nat)
    requires JobsFor(p, script, jobs) && jobs != [] && IsOrder(order) && PictureInRange(p) && |headers| == |jobs|
    requires forall i :: 0 <= i < |jobs| ==> ModeOk(jobs[i].mode) && Countable(jobs[i])
    requires RoomFor(jobs, true, headers, |jobs|) + 2 < room
    ensures ScanCompression.AllReady(p, script, order, jobs, true) && AllCanCode(p, script, order, jobs, true)
    ensures FitsRoom(p, script, order, jobs, true, headers, bufSize, room)
  {
    hide JobFor, IsOrder, PictureInRange, ModeOk, Countable, ScanReady, CanCode, Spent, RoomFor;
    forall i | 0 <= i < |jobs|
      ensures JobFor(p, script[i], jobs[i])
      ensures ScanReady(p, script[i], order, jobs[i], true) && CanCode(p, script[i], order, jobs[i], true)
    {
      JobAt(p, script, jobs, i);
      InRangeReady(p, script[i], order, jobs[i]);
    }
    SpentWithin(p, script, order, jobs, true, headers, |jobs|);
  }

  /** With tables given, the headers of the first scan must also fit the buffer. */
  lemma EnoughRoom(p: Picture, script: seq<Script.ScanInfo>, order: seq<nat>, jobs: seq<ScanJob>,
                   headers: seq<nat>, bufSize: nat, room: nat)
    requires JobsFor(p, script, jobs) && jobs != [] && IsOrder(order) && |headers| == |jobs|
    requires AllCanCode(p, script, order, jobs, false) && headers[0] < bufSize
    requires RoomFor(jobs, false, headers, |jobs|) + 2 < room
    ensures FitsRoom(p, script, order, jobs, false, headers, bufSize, room)
  {
    hide JobFor, IsOrder, CanCode, Spent, RoomFor, AllCanCode;
    SpentWithin(p, script, order, jobs, false, headers, |jobs|);
  }

  /** A single scan with given tables leaves to the end its last flush and the end-of-image marker, two bytes. */
  lemma SingleScanRoom(p: Picture, script: seq<Script.ScanInfo>, order: seq<nat>, jobs: seq<ScanJob>,
                       headers: seq<nat>, bufSize: nat, room: nat)
    requires JobsFor(p, script, jobs) && |jobs| == 1 && IsOrder(order) && |headers| == 1
    ensures JobFor(p, script[0], jobs[0])
    ensures FitsRoom(p, script, order, jobs, false, headers, bufSize, room) <==>
      headers[0] < bufSize && FlushOf(p, script[0], order, jobs[0]) + 2 < room
  {
    hide JobFor, IsOrder, FlushOf, SizeOf;
    SpentNext(p, script, order, jobs, false, headers, 0);
  }

  /** Every byte of the headers of a scan in `jpeg_finish_compress` counts. */
  lemma {:induction false} HeadersCount(p: Picture, script: seq<Script.ScanInfo>, order: seq<nat>, jobs: seq<ScanJob>,
                                        optimize: bool, headers: seq<nat>, i: nat, x: nat, n: nat)
    requires JobsFor(p, script, jobs) && IsOrder(order) && |headers| == |jobs| && i < n <= |jobs| && (optimize || i > 0)
    ensures Spent(p, script, order, jobs, optimize, headers[i := headers[i] + x], n)
         == Spent(p, script, order, jobs, optimize, headers, n) + x
  {
    hide JobFor, IsOrder, FlushOf, SizeOf;
    if i < n - 1 {
      HeadersCount(p, script, order, jobs, optimize, headers, i, x, n - 1);
    } else {
      HeadersBefore(p, script, order, jobs, optimize, headers, i, x, n - 1);
    }
  }

  lemma {:induction false} HeadersBefore(p: Picture, script: seq<Script.ScanInfo>, order: seq<nat>, jobs: seq<ScanJob>,
                                         optimize: bool, headers: seq<nat>, i: nat, x: nat, n: nat)
    requires JobsFor(p, script, jobs) && IsOrder(order) && |headers| == |jobs| && n <= i < |jobs|
    ensures Spent(p, script, order, jobs, optimize, headers[i := headers[i] + x], n)
         == Spent(p, script, order, jobs, optimize, headers, n)
  {
    hide JobFor, IsOrder, FlushOf, SizeOf;
    if n > 0 {
      HeadersBefore(p, script, order, jobs, optimize, headers, i, x, n - 1);
    }
  }

  // ---------------------------------------------------------------- not enough room

  /** A scan in `jpeg_finish_compress` whose stream is as long as the room is too long. */
  lemma TooLong(p: Picture, script: seq<Script.ScanInfo>, order: seq<nat>, jobs: seq<ScanJob>, optimize: bool,
                headers: seq<nat>, bufSize: nat, room: nat, i: nat)
    requires IsOrder(order) && JobsFor(p, script, jobs) && |headers| == |jobs| && i < |jobs| && (optimize || i > 0)
    requires JobFor(p, script[i], jobs[i]) && room <= SizeOf(p, script[i], order, jobs[i], optimize)
    ensures !FitsRoom(p, script, order, jobs, optimize, headers, bufSize, room)
  {
    hide JobFor, IsOrder, SizeOf, FlushOf, Spent;
    SpentNext(p, script, order, jobs, optimize, headers, i);
  }

  /** With tables given, a later scan with eight blocks or more for each byte of the room fails: it takes at least
      a bit for each. In such a scan the buffer of the first pass is of no help. */
  lemma LongScanFails(p: Picture, script: seq<Script.ScanInfo>, order: seq<nat>, jobs: seq<ScanJob>,
                      headers: seq<nat>, bufSize: nat, room: nat, i: nat)
    requires IsOrder(order) && JobsFor(p, script, jobs) && |headers| == |jobs| && 0 < i < |jobs|
    requires jobs[i].mode.Sequential? && BlockCount(jobs[i].mode, McusOf(jobs[i])) >= 8 * room
    ensures AllCanCode(p, script, order, jobs, false) ==>
      !FitsRoom(p, script, order, jobs, false, headers, bufSize, room)
  {
    hide JobFor, IsOrder, FitsRoom, ScanOutput, ScanOk, ScanSegments, ScanOf, SegmentsCodable, McusOf, HuffmanCodec,
         RealCodes, BlockCount;
    if AllCanCode(p, script, order, jobs, false) {
      var scan, job := script[i], jobs[i];
      assert JobFor(p, scan, job) && CanCode(p, scan, order, job, false);
      McusCounted(p, scan, order, job);
      HuffmanReal(job.books);
      ScanAtLeast(HuffmanCodec(job.books), job.mode, job.setup.restartInterval, ScanOf(p, scan, order, job));
      TooLong(p, script, order, jobs, false, headers, bufSize, room, i);
    }
  }

  /** So does, in any mode and whatever the tables, a scan with so many restart intervals that their markers
      alone fill the room. */
  lemma ManyRestartsFail(p: Picture, script: seq<Script.ScanInfo>, order: seq<nat>, jobs: seq<ScanJob>, optimize: bool,
                         headers: seq<nat>, bufSize: nat, room: nat, i: nat)
    requires IsOrder(order) && JobsFor(p, script, jobs) && |headers| == |jobs| && i < |jobs| && (optimize || i > 0)
    requires var r := jobs[i].setup.restartInterval; r > 0 && 2 * McusOf(jobs[i]) >= r * (room + 2)
    ensures !FitsRoom(p, script, order, jobs, optimize, headers, bufSize, room)
  {
    hide JobFor, IsOrder, FitsRoom, ScanOutput, ScanSegments, ScanOf, McusOf, CodecOf;
    JobAt(p, script, jobs, i);
    var scan, job := script[i], jobs[i];
    var r, segs := job.setup.restartInterval, SegmentsOf(p, scan, order, job);
    McusCounted(p, scan, order, job);
    ScanIntervals(job.mode, r, ScanOf(p, scan, order, job));
    OutputAtLeast(CodecOf(p, scan, order, job, optimize), segs);
    Divided(2 * |segs|, room + 2, r);
    TooLong(p, script, order, jobs, optimize, headers, bufSize, room, i);
  }

  lemma Divided(a: nat, b: nat, r: nat)
    requires r > 0 && a * r >= r * b
    ensures a >= b
  {
    assert a < b ==> (a + 1) * r <= b * r;
  }

  /** Two one-component scans of an image of 1648 by 1648 samples, with given tables and 5287 bytes for the buffer
      and at the end: although the buffer suffices to suspend at any MCU of the first pass, the second scan
      always fails. */
  lemma SecondScanFails(p: Picture, script: seq<Script.ScanInfo>, order: seq<nat>, jobs: seq<ScanJob>,
                        headers: seq<nat>)
    requires p.frame == Frame(1648, 1648, [Component(1, 1), Component(1, 1)], 1, 1)
    requires IsOrder(order) && JobsFor(p, script, jobs) && |headers| == |jobs| == 2
    requires jobs[0].comps == [0] && jobs[1].comps == [1] && jobs[0].mode.Sequential? && jobs[1].mode.Sequential?
    requires PictureInRange(p)
    ensures JobFor(p, script[0], jobs[0]) && Roomy(p, script[0], order, jobs[0], 5287)
    ensures AllCanCode(p, script, order, jobs, false) ==>
      !FitsRoom(p, script, order, jobs, false, headers, 5287, 5287)
  {
    hide JobFor, IsOrder, FitsRoom, AllCanCode, Roomy, PictureInRange;
    JobAt(p, script, jobs, 0);
    JobAt(p, script, jobs, 1);
    InRangeRoomy(p, script[0], order, jobs[0], 5287);
    SquareScan(p, script[1], jobs[1]);
    LongScanFails(p, script, order, jobs, headers, 5287, 5287, 1);
  }

  lemma SquareScan(p: Picture, scan: Script.ScanInfo, job: ScanJob)
    requires p.frame == Frame(1648, 1648, [Component(1, 1), Component(1, 1)], 1, 1)
    requires JobFor(p, scan, job) && job.comps == [1] && job.mode.Sequential?
    ensures BlockCount(job.mode, McusOf(job)) >= 8 * 5287
  {
    hide Membership;
    assert p.frame.WidthInBlocks(1) == 206 && p.frame.HeightInBlocks(1) == 206;
    JobBlocks(p, scan, job);
    assert PartFor(p.frame, true, 1, job.setup.parts[0]);
    assert Membership(job.setup.parts, 1) == [0] by { OneMember(job.setup.parts); }
  }

  lemma OneMember(parts: seq<CompScan>)
    requires |parts| == 1 && parts[0].mcuWidth == 1 && parts[0].mcuHeight == 1
    ensures Membership(parts, 1) == [0]
  {
    assert Membership(parts, 1) == Membership(parts, 0) + seq(1, _ => 0);
  }
}
