/** Scans as byte streams: the encoder's run over the MCUs of a scan with restarts, what it writes,
    and the decoder that inverts it. */
module ScanStreams {
  import opened Wrappers
  import opened BitStrings
  import opened EntropySegments
  import opened Coding
  import opened RunLength
  import opened AcScans
  import opened Scans

  // ---------------------------------------------------------------- the encoder's run

  /** The abstract encoder: tokens of the finished restart intervals, tokens of the current one,
      the coder state, and the MCUs left in the interval. */
  datatype Enc = Enc(done: seq<seq<Token>>, cur: seq<Token>, coder: Coder, togo: nat)

  ghost predicate EncValid(mode: ScanMode, interval: nat, e: Enc) {
    Fitting(mode, e.coder) && (interval > 0 ==> e.togo <= interval)
  }

  function Start(mode: ScanMode, interval: nat): Enc
  {
    Enc([], [], FreshCoder(mode), interval)
  }

  /** What a restart at the start of an MCU does: flush, close the segment, reset. */
  function Restarted(mode: ScanMode, interval: nat, e: Enc): Enc
  {
    if interval > 0 && e.togo == 0
    then Enc(e.done + [e.cur + FlushTokens(mode, e.coder)], [], FreshCoder(mode), interval)
    else e
  }

  function Fed(mode: ScanMode, interval: nat, e: Enc, mcu: Mcu): (r: Enc)
    requires Fitting(mode, e.coder) && |mcu| == mode.BlocksInMcu()
    ensures Fitting(mode, r.coder)
  {
    var e1 := Restarted(mode, interval, e);
    Enc(e1.done, e1.cur + McuTokens(mode, e1.coder, mcu), McuState(mode, e1.coder, mcu),
        if interval > 0 then e1.togo - 1 else e1.togo)
  }

  function FedAll(mode: ScanMode, interval: nat, e: Enc, mcus: seq<Mcu>): (r: Enc)
    requires Fitting(mode, e.coder) && Shaped(mode, mcus)
    ensures Fitting(mode, r.coder)
    decreases |mcus|
  {
    if mcus == [] then e else FedAll(mode, interval, Fed(mode, interval, e, mcus[0]), mcus[1..])
  }

  /** The segments once the scan is finished: the last one is flushed too. */
  function Finished(mode: ScanMode, e: Enc): seq<seq<Token>>
  {
    e.done + [e.cur + FlushTokens(mode, e.coder)]
  }

  // ---------------------------------------------------------------- restart intervals

  /** The MCUs cut into restart intervals; 0 means a single one. */
  function Chunks(mcus: seq<Mcu>, interval: nat): (r: seq<seq<Mcu>>)
    ensures r != []
    decreases |mcus|
  {
    if interval == 0 || |mcus| <= interval then [mcus]
    else [mcus[..interval]] + Chunks(mcus[interval..], interval)
  }

  lemma DivStep(i: nat, n: nat)
    requires 0 < n <= i
    ensures i / n == (i - n) / n + 1 && i % n == (i - n) % n
  {
    var q, r := (i - n) / n, (i - n) % n;
    assert i == (q + 1) * n + r;
    var d := i / n - (q + 1);
    assert d * n == (i / n) * n - (q + 1) * n;
    assert d > 0 ==> d * n >= n;
    assert d < 0 ==> d * n <= 0 - n;
  }

  lemma SmallDiv(i: nat, n: nat)
    requires i < n
    ensures i / n == 0 && i % n == i
  {
  }

  /** A restart comes before every MCU whose number is a multiple of the interval, the first excepted: MCU `i` is
      number `i % interval` of interval number `i / interval`, and only the last interval may be short. */
  lemma {:induction false} ChunkAt(mcus: seq<Mcu>, interval: nat, i: nat)
    requires interval > 0 && i < |mcus|
    ensures |Chunks(mcus, interval)| == (|mcus| - 1) / interval + 1
    ensures i / interval < |Chunks(mcus, interval)|
    ensures var chunk := Chunks(mcus, interval)[i / interval];
      && |chunk| <= interval && (i / interval < (|mcus| - 1) / interval ==> |chunk| == interval)
      && i % interval < |chunk| && chunk[i % interval] == mcus[i]
  {
    Cut(mcus, interval, i, i / interval, i % interval, (|mcus| - 1) / interval);
  }

  lemma {:induction false} Cut(mcus: seq<Mcu>, interval: nat, i: nat, q: nat, r: nat, last: nat)
    requires interval > 0 && i < |mcus| && q == i / interval && r == i % interval && last == (|mcus| - 1) / interval
    ensures |Chunks(mcus, interval)| == last + 1 && q <= last
    ensures var chunk := Chunks(mcus, interval)[q];
      |chunk| <= interval && (q < last ==> |chunk| == interval) && r < |chunk| && chunk[r] == mcus[i]
    decreases |mcus|
  {
    if |mcus| <= interval {
      SmallDiv(i, interval);
      SmallDiv(|mcus| - 1, interval);
    } else {
      var rest := mcus[interval..];
      DivStep(|mcus| - 1, interval);
      if i < interval {
        SmallDiv(i, interval);
        SmallDiv(0, interval);
        Cut(rest, interval, 0, 0, 0, last - 1);
      } else {
        DivStep(i, interval);
        Cut(rest, interval, i - interval, q - 1, r, last - 1);
      }
    }
  }

  /** Without an interval there is one segment. */
  lemma OneChunk(mcus: seq<Mcu>)
    ensures Chunks(mcus, 0) == [mcus]
  {
  }

  function ChunkTokens(mode: ScanMode, chunks: seq<seq<Mcu>>): (r: seq<seq<Token>>)
    requires forall i :: 0 <= i < |chunks| ==> Shaped(mode, chunks[i])
    ensures |r| == |chunks|
  {
    if chunks == [] then [] else [IntervalTokens(mode, chunks[0])] + ChunkTokens(mode, chunks[1..])
  }

  lemma {:induction false} ChunksShaped(mode: ScanMode, mcus: seq<Mcu>, interval: nat)
    requires Shaped(mode, mcus)
    ensures forall i :: 0 <= i < |Chunks(mcus, interval)| ==> Shaped(mode, Chunks(mcus, interval)[i])
    decreases |mcus|
  {
    if !(interval == 0 || |mcus| <= interval) {
      ChunksShaped(mode, mcus[interval..], interval);
    }
  }

  /** The segments of a scan: each restart interval coded on its own. */
  function ScanSegments(mode: ScanMode, interval: nat, mcus: seq<Mcu>): (r: seq<seq<Token>>)
    requires Shaped(mode, mcus)
    ensures r != []
  {
    ChunksShaped(mode, mcus, interval);
    ChunkTokens(mode, Chunks(mcus, interval))
  }

  /** The rest of a run that starts in the middle of an interval. */
  function RestSegments(mode: ScanMode, interval: nat, e: Enc, mcus: seq<Mcu>): seq<seq<Token>>
    requires EncValid(mode, interval, e) && Shaped(mode, mcus)
  {
    if interval == 0 || |mcus| <= e.togo then e.done + [e.cur + IntervalFrom(mode, e.coder, mcus)]
    else e.done + [e.cur + IntervalFrom(mode, e.coder, mcus[..e.togo])]
         + ScanSegments(mode, interval, mcus[e.togo..])
  }

  lemma {:induction false} RunSegments(mode: ScanMode, interval: nat, e: Enc, mcus: seq<Mcu>)
    requires EncValid(mode, interval, e) && Shaped(mode, mcus)
    ensures Finished(mode, FedAll(mode, interval, e, mcus)) == RestSegments(mode, interval, e, mcus)
    decreases |mcus|, if interval > 0 && e.togo == 0 then 1 else 0
  {
    if mcus == [] {
    } else if interval > 0 && e.togo == 0 {
      FedAllRestarted(mode, interval, e, mcus);
      RunSegments(mode, interval, Restarted(mode, interval, e), mcus);
      RestAtRestart(mode, interval, e, mcus);
    } else {
      FedAllStep(mode, interval, e, mcus);
      RunSegments(mode, interval, Fed(mode, interval, e, mcus[0]), mcus[1..]);
      RestAfterMcu(mode, interval, e, mcus);
    }
  }

  lemma FedAllStep(mode: ScanMode, interval: nat, e: Enc, mcus: seq<Mcu>)
    requires EncValid(mode, interval, e) && Shaped(mode, mcus) && mcus != [] && (interval > 0 ==> e.togo > 0)
    ensures EncValid(mode, interval, Fed(mode, interval, e, mcus[0]))
    ensures FedAll(mode, interval, e, mcus) == FedAll(mode, interval, Fed(mode, interval, e, mcus[0]), mcus[1..])
  {
  }

  lemma FedAllRestarted(mode: ScanMode, interval: nat, e: Enc, mcus: seq<Mcu>)
    requires EncValid(mode, interval, e) && Shaped(mode, mcus) && mcus != [] && interval > 0 && e.togo == 0
    ensures EncValid(mode, interval, Restarted(mode, interval, e)) && Restarted(mode, interval, e).togo == interval
    ensures FedAll(mode, interval, e, mcus) == FedAll(mode, interval, Restarted(mode, interval, e), mcus)
  {
    var e1 := Restarted(mode, interval, e);
    assert Restarted(mode, interval, e1) == e1;
    assert Fed(mode, interval, e, mcus[0]) == Fed(mode, interval, e1, mcus[0]);
  }

  lemma RestAtRestart(mode: ScanMode, interval: nat, e: Enc, mcus: seq<Mcu>)
    requires EncValid(mode, interval, e) && Shaped(mode, mcus) && mcus != [] && interval > 0 && e.togo == 0
    ensures RestSegments(mode, interval, e, mcus) == RestSegments(mode, interval, Restarted(mode, interval, e), mcus)
  {
    var e1 := Restarted(mode, interval, e);
    assert mcus[..0] == [] && mcus[0..] == mcus;
    RestFromFresh(mode, interval, e1.done, mcus);
  }

  lemma RestAfterMcu(mode: ScanMode, interval: nat, e: Enc, mcus: seq<Mcu>)
    requires EncValid(mode, interval, e) && Shaped(mode, mcus) && mcus != [] && (interval > 0 ==> e.togo > 0)
    ensures RestSegments(mode, interval, e, mcus)
         == RestSegments(mode, interval, Fed(mode, interval, e, mcus[0]), mcus[1..])
  {
    var e' := Fed(mode, interval, e, mcus[0]);
    if interval > 0 && |mcus| > e.togo {
      IntervalHead(mode, e, mcus[..e.togo], mcus);
      assert mcus[..e.togo][1..] == mcus[1..][..e'.togo];
      assert mcus[e.togo..] == mcus[1..][e'.togo..];
    } else {
      IntervalHead(mode, e, mcus, mcus);
    }
  }

  lemma IntervalHead(mode: ScanMode, e: Enc, part: seq<Mcu>, mcus: seq<Mcu>)
    requires Fitting(mode, e.coder) && Shaped(mode, part) && part != [] && mcus != [] && part[0] == mcus[0]
    ensures e.cur + IntervalFrom(mode, e.coder, part)
         == (e.cur + McuTokens(mode, e.coder, mcus[0]))
           + IntervalFrom(mode, McuState(mode, e.coder, mcus[0]), part[1..])
  {
    hide McuTokens, McuState, FlushTokens;
    Regroup(e.cur, McuTokens(mode, e.coder, mcus[0]), IntervalFrom(mode, McuState(mode, e.coder, mcus[0]), part[1..]));
  }

  lemma Regroup(a: seq<Token>, b: seq<Token>, c: seq<Token>)
    ensures a + (b + c) == (a + b) + c
  {
  }

  lemma FreshSegments(mode: ScanMode, interval: nat, mcus: seq<Mcu>)
    requires Shaped(mode, mcus)
    ensures ScanSegments(mode, interval, mcus) ==
      if interval == 0 || |mcus| <= interval then [IntervalTokens(mode, mcus)]
      else [IntervalTokens(mode, mcus[..interval])] + ScanSegments(mode, interval, mcus[interval..])
  {
    ChunksShaped(mode, mcus, interval);
    var cs := Chunks(mcus, interval);
    if interval == 0 || |mcus| <= interval {
      assert cs[1..] == [];
    } else {
      assert cs[1..] == Chunks(mcus[interval..], interval);
    }
  }

  lemma RestFromFresh(mode: ScanMode, interval: nat, done: seq<seq<Token>>, mcus: seq<Mcu>)
    requires Shaped(mode, mcus)
    ensures RestSegments(mode, interval, Enc(done, [], FreshCoder(mode), interval), mcus)
         == done + ScanSegments(mode, interval, mcus)
  {
    hide ScanSegments, IntervalFrom;
    FreshSegments(mode, interval, mcus);
    if interval == 0 || |mcus| <= interval {
      NothingBefore(IntervalTokens(mode, mcus));
    } else {
      NothingBefore(IntervalTokens(mode, mcus[..interval]));
      JoinLists(done, [IntervalTokens(mode, mcus[..interval])], ScanSegments(mode, interval, mcus[interval..]));
    }
  }

  lemma NothingBefore(ts: seq<Token>)
    ensures [] + ts == ts
  {
  }

  lemma JoinLists(a: seq<seq<Token>>, b: seq<seq<Token>>, c: seq<seq<Token>>)
    ensures a + b + c == a + (b + c)
  {
  }

  /** However long the scan, the encoder's restart bookkeeping codes exactly the restart intervals,
      each from a fresh state. */
  lemma RestartIntervals(mode: ScanMode, interval: nat, mcus: seq<Mcu>)
    requires Shaped(mode, mcus)
    ensures Finished(mode, FedAll(mode, interval, Start(mode, interval), mcus)) == ScanSegments(mode, interval, mcus)
  {
    RunSegments(mode, interval, Start(mode, interval), mcus);
    RestFromFresh(mode, interval, [], mcus);
    assert [] + ScanSegments(mode, interval, mcus) == ScanSegments(mode, interval, mcus);
  }

  // ---------------------------------------------------------------- bytes

  function SegmentBits(c: Codec, segs: seq<seq<Token>>): (r: seq<Bits>)
    ensures |r| == |segs|
  {
    seq(|segs|, i requires 0 <= i < |segs| => StreamBits(c, segs[i]))
  }

  /** The bytes of a scan, from its first data byte to its last. */
  function ScanOutput(c: Codec, segs: seq<seq<Token>>): seq<Byte>
    requires segs != []
  {
    ScanBytes(SegmentBits(c, segs[..|segs| - 1]), StreamBits(c, segs[|segs| - 1]))
  }

  ghost predicate SegmentsCodable(c: Codec, segs: seq<seq<Token>>) {
    forall i :: 0 <= i < |segs| ==> AllCodable(c, segs[i])
  }

  ghost predicate ChunksOk(mode: ScanMode, chunks: seq<seq<Mcu>>) {
    forall i :: 0 <= i < |chunks| ==> Shaped(mode, chunks[i]) && IntervalOk(mode, FreshCoder(mode), chunks[i])
  }

  /** Every coefficient of the scan is within the limits the coder checks. */
  ghost predicate ScanOk(mode: ScanMode, interval: nat, mcus: seq<Mcu>) {
    ChunksOk(mode, Chunks(mcus, interval))
  }

  function DecodeSegments(c: Codec, mode: ScanMode, ds: seq<seq<Byte>>, chunks: seq<seq<Mcu>>): Option<seq<Mcu>>
    requires |ds| == |chunks| && forall i :: 0 <= i < |chunks| ==> Shaped(mode, chunks[i])
  {
    if ds == [] then Some([])
    else match DecodeInterval(c, mode, chunks[0], Unpack(ds[0])) {
      case None => None
      case Some((ms, _)) =>
        match DecodeSegments(c, mode, ds[1..], chunks[1..]) {
          case None => None
          case Some(ms') => Some(ms + ms')
        }
    }
  }

  /** The decoder of a whole scan: split at the restart markers, undo the stuffing, and decode each
      restart interval from a fresh state. */
  function DecodeScan(c: Codec, mode: ScanMode, interval: nat, priors: seq<Mcu>, bytes: seq<Byte>): Option<seq<Mcu>>
    requires Shaped(mode, priors)
  {
    ChunksShaped(mode, priors, interval);
    match Split(bytes, 0)
    case None => None
    case Some(ds) =>
      if |ds| == |Chunks(priors, interval)| then DecodeSegments(c, mode, ds, Chunks(priors, interval)) else None
  }

  lemma {:induction false} ChunksAligned(mode: ScanMode, mcus: seq<Mcu>, priors: seq<Mcu>, interval: nat)
    requires McusBefore(mode, mcus, priors)
    ensures |Chunks(mcus, interval)| == |Chunks(priors, interval)|
    ensures forall i :: 0 <= i < |Chunks(mcus, interval)| ==>
              McusBefore(mode, Chunks(mcus, interval)[i], Chunks(priors, interval)[i])
    decreases |mcus|
  {
    if !(interval == 0 || |mcus| <= interval) {
      ChunksAligned(mode, mcus[interval..], priors[interval..], interval);
    }
  }

  /** Decoding each padded segment of a chunked scan. */
  lemma {:induction false} SegmentsRoundTrip(c: Codec, mode: ScanMode, chunks: seq<seq<Mcu>>, priors: seq<seq<Mcu>>)
    requires Sound(c) && |chunks| == |priors| && ChunksOk(mode, chunks)
    requires forall i :: 0 <= i < |chunks| ==> Shaped(mode, priors[i]) && McusBefore(mode, chunks[i], priors[i])
    requires SegmentsCodable(c, ChunkTokens(mode, chunks))
    ensures DecodeSegments(c, mode, DataSegments(SegmentBits(c, ChunkTokens(mode, chunks))), priors)
         == Some(AllAfter(mode, chunks, priors))
  {
    hide DecodeInterval, IntervalTokens, IntervalOk, AllCodable, McusAfter, StreamBits, Unpack, Padded;
    if chunks != [] {
      var ts := ChunkTokens(mode, chunks);
      var ds := DataSegments(SegmentBits(c, ts));
      assert AllCodable(c, ts[0]);
      PaddedInterval(c, mode, chunks[0], priors[0]);
      assert ts[1..] == ChunkTokens(mode, chunks[1..]);
      forall i | 0 <= i < |ts| - 1 ensures AllCodable(c, ts[1..][i]) {
        assert AllCodable(c, ts[i + 1]);
      }
      assert ds[1..] == DataSegments(SegmentBits(c, ts[1..]));
      SegmentsRoundTrip(c, mode, chunks[1..], priors[1..]);
    }
  }

  function AllAfter(mode: ScanMode, chunks: seq<seq<Mcu>>, priors: seq<seq<Mcu>>): seq<Mcu>
    requires |chunks| == |priors|
    requires forall i :: 0 <= i < |chunks| ==> McusBefore(mode, chunks[i], priors[i])
  {
    if chunks == [] then []
    else
      assert McusBefore(mode, chunks[0], priors[0]);
      BeforeShape(mode, chunks[0], priors[0]);
      McusAfter(mode, chunks[0], priors[0]) + AllAfter(mode, chunks[1..], priors[1..])
  }

  lemma BeforeShape(mode: ScanMode, mcus: seq<Mcu>, priors: seq<Mcu>)
    requires McusBefore(mode, mcus, priors)
    ensures Shaped(mode, mcus) && Shaped(mode, priors)
    ensures |mcus| == |priors| && forall i :: 0 <= i < |mcus| ==> |mcus[i]| == |priors[i]|
  {
    forall i | 0 <= i < |mcus| ensures |mcus[i]| == |priors[i]| == mode.BlocksInMcu() {
      assert McuBefore(mode, mcus[i], priors[i]);
    }
  }

  lemma PaddedInterval(c: Codec, mode: ScanMode, mcus: seq<Mcu>, priors: seq<Mcu>)
    requires Sound(c) && Shaped(mode, mcus) && Shaped(mode, priors) && McusBefore(mode, mcus, priors)
    requires IntervalOk(mode, FreshCoder(mode), mcus) && AllCodable(c, IntervalTokens(mode, mcus))
    ensures |mcus| == |priors| && forall i :: 0 <= i < |mcus| ==> |mcus[i]| == |priors[i]|
    ensures var o := DecodeInterval(c, mode, priors, Unpack(Padded(StreamBits(c, IntervalTokens(mode, mcus)))));
      o.Some? && o.value.0 == McusAfter(mode, mcus, priors)
  {
    hide McusBefore, McusAfter, DecodeInterval, IntervalTokens, IntervalOk, AllCodable, Sound, StreamBits, Unpack,
         Padded;
    BeforeShape(mode, mcus, priors);
    var s := StreamBits(c, IntervalTokens(mode, mcus));
    var u := Unpack(Padded(s));
    UnpackPadded(s);
    assert u == s + u[|s|..];
    FollowRest(c, IntervalTokens(mode, mcus), u[|s|..]);
    IntervalRoundTrip(c, mode, mcus, priors, u[|s|..]);
  }

  lemma {:induction false} AfterChunks(mode: ScanMode, mcus: seq<Mcu>, priors: seq<Mcu>, interval: nat)
    requires McusBefore(mode, mcus, priors)
    requires |Chunks(mcus, interval)| == |Chunks(priors, interval)|
    requires forall i :: 0 <= i < |Chunks(mcus, interval)| ==>
              McusBefore(mode, Chunks(mcus, interval)[i], Chunks(priors, interval)[i])
    ensures |mcus| == |priors| && forall i :: 0 <= i < |mcus| ==> |mcus[i]| == |priors[i]|
    ensures AllAfter(mode, Chunks(mcus, interval), Chunks(priors, interval)) == McusAfter(mode, mcus, priors)
    decreases |mcus|
  {
    BeforeShape(mode, mcus, priors);
    var cs, ps := Chunks(mcus, interval), Chunks(priors, interval);
    if interval == 0 || |mcus| <= interval {
      assert cs[1..] == [] && ps[1..] == [];
      assert McusAfter(mode, mcus, priors) + [] == McusAfter(mode, mcus, priors);
    } else {
      assert cs[1..] == Chunks(mcus[interval..], interval) && ps[1..] == Chunks(priors[interval..], interval);
      AfterChunks(mode, mcus[interval..], priors[interval..], interval);
      assert McusAfter(mode, mcus, priors)
          == McusAfter(mode, mcus[..interval], priors[..interval])
            + McusAfter(mode, mcus[interval..], priors[interval..]);
    }
  }

  /** Decoding a scan inverts coding it, for every kind of scan, restart interval and sound code. */
  lemma ScanRoundTrip(c: Codec, mode: ScanMode, interval: nat, mcus: seq<Mcu>, priors: seq<Mcu>)
    requires Sound(c) && Shaped(mode, mcus) && Shaped(mode, priors) && McusBefore(mode, mcus, priors)
    requires ScanOk(mode, interval, mcus) && SegmentsCodable(c, ScanSegments(mode, interval, mcus))
    ensures |mcus| == |priors| && forall i :: 0 <= i < |mcus| ==> |mcus[i]| == |priors[i]|
    ensures DecodeScan(c, mode, interval, priors, ScanOutput(c, ScanSegments(mode, interval, mcus)))
         == Some(McusAfter(mode, mcus, priors))
  {
    hide DecodeSegments, AllAfter, IntervalOk, IntervalTokens, AllCodable, McuBefore, McuAfter, Sound, StreamBits,
         Split, Unpack, Padded, Sealed;
    var segs := ScanSegments(mode, interval, mcus);
    var n := |segs| - 1;
    SplitScan(SegmentBits(c, segs[..n]), StreamBits(c, segs[n]));
    assert SegmentBits(c, segs[..n]) + [StreamBits(c, segs[n])] == SegmentBits(c, segs);
    ChunksShaped(mode, mcus, interval);
    ChunksShaped(mode, priors, interval);
    ChunksAligned(mode, mcus, priors, interval);
    SegmentsRoundTrip(c, mode, Chunks(mcus, interval), Chunks(priors, interval));
    AfterChunks(mode, mcus, priors, interval);
  }

  // ---------------------------------------------------------------- when a run succeeds

  /** Every MCU of a run is within the coefficient limits when its turn comes. */
  predicate RunOk(mode: ScanMode, interval: nat, e: Enc, mcus: seq<Mcu>)
    requires Fitting(mode, e.coder) && Shaped(mode, mcus)
    decreases |mcus|
  {
    mcus == [] ||
    (McuOk(mode, Restarted(mode, interval, e).coder, mcus[0])
     && RunOk(mode, interval, Fed(mode, interval, e, mcus[0]), mcus[1..]))
  }

  ghost predicate RestOk(mode: ScanMode, interval: nat, e: Enc, mcus: seq<Mcu>)
    requires EncValid(mode, interval, e) && Shaped(mode, mcus)
  {
    if interval == 0 || |mcus| <= e.togo then IntervalOk(mode, e.coder, mcus)
    else IntervalOk(mode, e.coder, mcus[..e.togo]) && ScanOk(mode, interval, mcus[e.togo..])
  }

  lemma FreshOk(mode: ScanMode, interval: nat, mcus: seq<Mcu>)
    requires Shaped(mode, mcus)
    ensures ScanOk(mode, interval, mcus) <==>
      if interval == 0 || |mcus| <= interval then IntervalOk(mode, FreshCoder(mode), mcus)
      else IntervalOk(mode, FreshCoder(mode), mcus[..interval]) && ScanOk(mode, interval, mcus[interval..])
  {
    var cs := Chunks(mcus, interval);
    if interval == 0 || |mcus| <= interval {
      assert cs[0] == mcus;
    } else {
      var rest := Chunks(mcus[interval..], interval);
      assert cs == [mcus[..interval]] + rest;
      if ScanOk(mode, interval, mcus) {
        assert cs[0] == mcus[..interval];
        forall i | 0 <= i < |rest| ensures Shaped(mode, rest[i]) && IntervalOk(mode, FreshCoder(mode), rest[i]) {
          assert rest[i] == cs[i + 1];
        }
      }
    }
  }

  /** Checking MCU by MCU is checking interval by interval. */
  lemma {:induction false} RunIsRest(mode: ScanMode, interval: nat, e: Enc, mcus: seq<Mcu>)
    requires EncValid(mode, interval, e) && Shaped(mode, mcus)
    ensures RunOk(mode, interval, e, mcus) <==> RestOk(mode, interval, e, mcus)
    decreases |mcus|, if interval > 0 && e.togo == 0 then 1 else 0
  {
    hide McuOk, Fed, ScanOk, McuState, McuTokens, BlockTokens;
    if mcus == [] {
    } else if interval > 0 && e.togo == 0 {
      var e1 := Restarted(mode, interval, e);
      FedAllRestarted(mode, interval, e, mcus);
      RunOkRestarted(mode, interval, e, mcus);
      RunIsRest(mode, interval, e1, mcus);
      FreshOk(mode, interval, mcus);
      assert mcus[..0] == [] && mcus[0..] == mcus;
    } else {
      var e' := Fed(mode, interval, e, mcus[0]);
      FedAllStep(mode, interval, e, mcus);
      RunIsRest(mode, interval, e', mcus[1..]);
      RestOkStep(mode, interval, e, mcus);
    }
  }

  lemma RunOkRestarted(mode: ScanMode, interval: nat, e: Enc, mcus: seq<Mcu>)
    requires EncValid(mode, interval, e) && Shaped(mode, mcus) && mcus != [] && interval > 0 && e.togo == 0
    ensures RunOk(mode, interval, e, mcus) <==> RunOk(mode, interval, Restarted(mode, interval, e), mcus)
  {
    var e1 := Restarted(mode, interval, e);
    assert Restarted(mode, interval, e1) == e1;
    assert Fed(mode, interval, e, mcus[0]) == Fed(mode, interval, e1, mcus[0]);
  }

  lemma RestOkStep(mode: ScanMode, interval: nat, e: Enc, mcus: seq<Mcu>)
    requires EncValid(mode, interval, e) && Shaped(mode, mcus) && mcus != [] && (interval > 0 ==> e.togo > 0)
    ensures EncValid(mode, interval, Fed(mode, interval, e, mcus[0]))
    ensures RestOk(mode, interval, e, mcus) <==>
      McuOk(mode, e.coder, mcus[0]) && RestOk(mode, interval, Fed(mode, interval, e, mcus[0]), mcus[1..])
  {
    hide McuOk, ScanOk, McuTokens, BlockTokens;
    var e' := Fed(mode, interval, e, mcus[0]);
    if interval > 0 && |mcus| > e.togo {
      assert mcus[..e.togo][1..] == mcus[1..][..e'.togo];
      assert mcus[e.togo..] == mcus[1..][e'.togo..];
    }
  }

  /** A run succeeds on exactly the scans whose restart intervals are all within limits. */
  lemma RunIsScan(mode: ScanMode, interval: nat, mcus: seq<Mcu>)
    requires Shaped(mode, mcus)
    ensures RunOk(mode, interval, Start(mode, interval), mcus) <==> ScanOk(mode, interval, mcus)
  {
    RunIsRest(mode, interval, Start(mode, interval), mcus);
    FreshOk(mode, interval, mcus);
  }

  /** What is emitted stays: the finished scan extends every intermediate state. */
  lemma {:induction false} FinishedExtends(mode: ScanMode, interval: nat, e: Enc, mcus: seq<Mcu>)
    requires Fitting(mode, e.coder) && Shaped(mode, mcus)
    ensures var f := Finished(mode, FedAll(mode, interval, e, mcus));
      |f| > |e.done| && f[..|e.done|] == e.done && e.cur <= f[|e.done|]
    decreases |mcus|
  {
    hide McuTokens, McuState, FlushTokens, FreshCoder;
    if mcus != [] {
      var e' := Fed(mode, interval, e, mcus[0]);
      FinishedExtends(mode, interval, e', mcus[1..]);
      var f := Finished(mode, FedAll(mode, interval, e, mcus));
      if interval > 0 && e.togo == 0 {
        assert f[..|e'.done|][..|e.done|] == e.done;
        assert f[|e.done|] == f[..|e'.done|][|e.done|];
      }
    }
  }

  /** What one MCU adds to the token stream, restart included. */
  function NewlyEmitted(mode: ScanMode, interval: nat, e: Enc, mcu: Mcu): seq<Token>
    requires Fitting(mode, e.coder) && |mcu| == mode.BlocksInMcu()
  {
    (if interval > 0 && e.togo == 0 then FlushTokens(mode, e.coder) else [])
    + McuTokens(mode, Restarted(mode, interval, e).coder, mcu)
  }

  /** If the finished scan can be coded then so can what each MCU emits. */
  lemma EmittedCodable(c: Codec, mode: ScanMode, interval: nat, e: Enc, mcus: seq<Mcu>)
    requires Fitting(mode, e.coder) && Shaped(mode, mcus) && mcus != []
    requires SegmentsCodable(c, Finished(mode, FedAll(mode, interval, e, mcus)))
    ensures AllCodable(c, NewlyEmitted(mode, interval, e, mcus[0]))
  {
    hide McuTokens, McuState, FlushTokens, AllCodable;
    var e' := Fed(mode, interval, e, mcus[0]);
    var f := Finished(mode, FedAll(mode, interval, e', mcus[1..]));
    FinishedExtends(mode, interval, e', mcus[1..]);
    var now := McuTokens(mode, Restarted(mode, interval, e).coder, mcus[0]);
    var flush := if interval > 0 && e.togo == 0 then FlushTokens(mode, e.coder) else [];
    CodablePrefix(c, e'.cur, f[|e'.done|]);
    CodableAppend(c, Restarted(mode, interval, e).cur, now);
    CodableAppend(c, flush, now);
    if interval > 0 && e.togo == 0 {
      assert f[|e.done|] == f[..|e'.done|][|e.done|] == e.cur + flush;
      CodableAppend(c, e.cur, flush);
    } else {
      CodableNone(c);
    }
  }

  lemma CodableNone(c: Codec)
    ensures AllCodable(c, [])
  {
  }

  lemma CodablePrefix(c: Codec, a: seq<Token>, b: seq<Token>)
    requires a <= b && AllCodable(c, b)
    ensures AllCodable(c, a)
  {
    assert b == a + b[|a|..];
    CodableAppend(c, a, b[|a|..]);
  }

  /** A run over two stretches of MCUs is a run over the second from where the first one ends. */
  lemma {:induction false} FedAllAppend(mode: ScanMode, interval: nat, e: Enc, a: seq<Mcu>, b: seq<Mcu>)
    requires Fitting(mode, e.coder) && Shaped(mode, a) && Shaped(mode, b) && Shaped(mode, a + b)
    ensures FedAll(mode, interval, e, a + b) == FedAll(mode, interval, FedAll(mode, interval, e, a), b)
    ensures RunOk(mode, interval, e, a + b)
            <==> RunOk(mode, interval, e, a) && RunOk(mode, interval, FedAll(mode, interval, e, a), b)
    decreases |a|
  {
    hide McuOk, Fed, Restarted;
    if a == [] {
      assert a + b == b;
    } else {
      assert (a + b)[0] == a[0] && (a + b)[1..] == a[1..] + b;
      FedAllAppend(mode, interval, Fed(mode, interval, e, a[0]), a[1..], b);
    }
  }
}
