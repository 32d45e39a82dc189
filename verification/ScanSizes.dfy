/** How long the stream of a scan can be, by its number of blocks: what a destination that cannot be emptied
    must have room for. */
module ScanSizes {
  import opened BitStrings
  import opened EntropySegments
  import opened HuffmanTables
  import opened Coding
  import opened RunLength
  import opened AcRefinement
  import opened AcScans
  import opened Scans
  import opened ScanStreams
  import opened TokenSinks
  import opened ScanSymbols
  import opened SymbolTotals
  import opened BufferRoom

  // ---------------------------------------------------------------- tokens of a block

  lemma {:induction false} RawSize(bits: Bits)
    ensures |RawEach(bits)| == |bits|
  {
    if bits != [] {
      RawSize(bits[1..]);
    }
  }

  /** A new coefficient takes a symbol and its sign, a known one its correction, sixteen zeros a ZRL. */
  lemma {:induction false} RefineSize(tbl: nat, z: Block, al: nat, k: nat, eob: nat, r: nat, br: Bits)
    requires k <= eob + 1 <= 64
    ensures 16 * |RefineTokens(tbl, z, al, k, eob, r, br)| <= 33 * (eob + 1 - k) + r + 16 * |br|
    decreases 64 - k, r
  {
    hide Mag;
    if k > eob {
    } else if Mag(z, al, k) == 0 {
      RefineSize(tbl, z, al, k + 1, eob, r + 1, br);
    } else if r > 15 {
      RawSize(br);
      RefineSize(tbl, z, al, k, eob, r - 16, []);
    } else if Mag(z, al, k) > 1 {
      RefineSize(tbl, z, al, k + 1, eob, r, br + [Mag(z, al, k) % 2 == 1]);
    } else {
      RawSize(br);
      RefineSize(tbl, z, al, k + 1, eob, 0, []);
    }
  }

  /** A block's own symbols, and the correction bits its tail leaves. */
  lemma CodedSize(m: Params, z: Block)
    ensures var cd := CodeBlock(m, z);
      |cd.syms| + (if cd.tail.Some? then |cd.tail.value| else 0) <= 129
  {
    hide BandTokens, RefineTokens, CorrBits, Transformed, LastNew;
    if m.refine {
      var eob := LastNew(z, m.al, m.ss, m.se + 1);
      if eob > 0 {
        RefineSize(m.tbl, z, m.al, m.ss, eob, 0, []);
      }
      CorrBitsShort(z, m.al, if eob == 0 then m.ss else eob + 1, m.se + 1);
    } else {
      BandSize(m.tbl, Transformed(z, m.al), m.ss, m.se, 0);
    }
  }

  lemma EobSize(tbl: nat, p: Pending)
    ensures |EobTokens(tbl, p)| <= 2 + |p.corr|
    ensures p.eobrun > 0 ==> |EobTokens(tbl, p)| >= 1 + |p.corr|
    ensures p.eobrun == 0 ==> EobTokens(tbl, p) == []
  {
    RawSize(p.corr);
  }

  /** A block adds at most 131 tokens to those emitted and those still owed. */
  lemma AcBlockSize(m: Params, p: Pending, z: Block)
    requires Sane(p)
    ensures |BlockTokens(m, p, z)| + |EobTokens(m.tbl, BlockPending(m, p, z))| <= |EobTokens(m.tbl, p)| + 131
  {
    hide CodeBlock, EobTokens, Forced;
    var cd := CodeBlock(m, z);
    CodedSize(m, z);
    EobSize(m.tbl, p);
    EobSize(m.tbl, NOTHING);
    if cd.tail.Some? {
      EobSize(m.tbl, Joined(AfterSyms(p, cd), cd.tail.value));
    }
  }

  lemma OneBlockSize(mode: ScanMode, ci: nat, last: int, z: Block)
    requires !mode.Ac? && ci < |mode.comps|
    ensures |BlockCode(mode, ci, last, z)| <= 132
  {
    hide BandTokens;
    if mode.Sequential? {
      BlockSize(mode, ci, last, z);
    }
  }

  lemma {:induction false} AllBlocksSize(mode: ScanMode, last: seq<int>, mcu: Mcu, j: nat)
    requires !mode.Ac? && |last| == |mode.comps| && j <= |mcu| == |mode.membership|
    ensures |BlocksCode(mode, last, mcu, j)| <= 132 * (|mcu| - j)
    decreases |mcu| - j
  {
    hide BlockCode, LastAfter;
    if j < |mcu| {
      var ci := mode.membership[j];
      OneBlockSize(mode, ci, last[ci], mcu[j]);
      AllBlocksSize(mode, last[ci := LastAfter(mode, last[ci], mcu[j])], mcu, j + 1);
    }
  }

  // ---------------------------------------------------------------- tokens of a scan

  /** Tokens for `n` MCUs. */
  function TokenBound(mode: ScanMode, n: nat): nat { 132 * mode.BlocksInMcu() * n }

  lemma TokenBoundSum(mode: ScanMode, n: nat, m: nat)
    ensures TokenBound(mode, n + m) == TokenBound(mode, n) + TokenBound(mode, m)
    ensures TokenBound(mode, 1) == 132 * mode.BlocksInMcu() && TokenBound(mode, 0) == 0
  {
  }

  /** What the coder still owes. */
  function Owed(mode: ScanMode, st: Coder): nat { if mode.Ac? then |EobTokens(mode.params.tbl, st.pending)| else 0 }

  lemma McuSize(mode: ScanMode, st: Coder, mcu: Mcu)
    requires |mcu| == mode.BlocksInMcu() && Fitting(mode, st) && (mode.Ac? ==> Bounded(st.pending))
    ensures |McuTokens(mode, st, mcu)| + Owed(mode, McuState(mode, st, mcu)) <= Owed(mode, st)
        + 132 * mode.BlocksInMcu()
    ensures mode.Ac? ==> Bounded(McuState(mode, st, mcu).pending)
  {
    hide BlockTokens, BlocksCode, BlockPending, EobTokens;
    if mode.Ac? {
      StepBounded(mode.params, st.pending, mcu[0]);
      AcBlockSize(mode.params, st.pending, mcu[0]);
    } else {
      AllBlocksSize(mode, st.last, mcu, 0);
    }
  }

  lemma {:induction false} IntervalSize(mode: ScanMode, st: Coder, mcus: seq<Mcu>)
    requires Shaped(mode, mcus) && Fitting(mode, st) && (mode.Ac? ==> Bounded(st.pending))
    ensures |IntervalFrom(mode, st, mcus)| <= Owed(mode, st) + TokenBound(mode, |mcus|)
    decreases |mcus|
  {
    hide McuTokens, McuState, EobTokens, TokenBound, Bounded;
    TokenBoundSum(mode, 0, 0);
    if mcus != [] {
      McuSize(mode, st, mcus[0]);
      IntervalSize(mode, McuState(mode, st, mcus[0]), mcus[1..]);
      TokenBoundSum(mode, 1, |mcus| - 1);
    }
  }

  lemma FreshSize(mode: ScanMode, mcus: seq<Mcu>)
    requires Shaped(mode, mcus)
    ensures |IntervalTokens(mode, mcus)| <= TokenBound(mode, |mcus|)
  {
    hide IntervalFrom, TokenBound;
    IntervalSize(mode, FreshCoder(mode), mcus);
  }

  /** All segments of a scan together, and how many there are. */
  lemma {:induction false} SegmentsSize(mode: ScanMode, interval: nat, mcus: seq<Mcu>)
    requires Shaped(mode, mcus)
    ensures |Flatten(ScanSegments(mode, interval, mcus))| <= TokenBound(mode, |mcus|)
    ensures |ScanSegments(mode, interval, mcus)| <= |mcus| + 1
    decreases |mcus|
  {
    hide IntervalTokens, Flatten, TokenBound;
    assert Flatten([]) == [] by { NothingFlat(); }
    if interval == 0 || |mcus| <= interval {
      FreshSize(mode, mcus);
      FlattenCons(IntervalTokens(mode, mcus), []);
      assert ScanSegments(mode, interval, mcus) == [IntervalTokens(mode, mcus)] + [];
    } else {
      var head, rest := mcus[..interval], mcus[interval..];
      FreshSize(mode, head);
      SegmentsSize(mode, interval, rest);
      FlattenCons(IntervalTokens(mode, head), ScanSegments(mode, interval, rest));
      SegmentsSplit(mode, interval, mcus);
      TokenBoundSum(mode, |head|, |rest|);
    }
  }

  // ---------------------------------------------------------------- bytes of a scan

  lemma PaddedSize(c: Codec, mode: ScanMode, ts: seq<Token>)
    requires ShortCodes(c) && AllExpected(mode, ts)
    ensures |Stuff(Padded(StreamBits(c, ts)))| <= 4 * |ts|
  {
    hide Stuff, Bytes, StreamBits, ShortCodes, AllExpected;
    StreamSize(c, mode, ts);
    BytesSize(StreamBits(c, ts) + ONES);
    StuffSize(Padded(StreamBits(c, ts)));
  }

  lemma {:induction false} SealedSize(c: Codec, mode: ScanMode, segs: seq<seq<Token>>)
    requires ShortCodes(c) && forall i :: 0 <= i < |segs| ==> AllExpected(mode, segs[i])
    ensures |Sealed(SegmentBits(c, segs))| <= 4 * |Flatten(segs)| + 2 * |segs|
  {
    hide Stuff, Padded, StreamBits, ShortCodes, AllExpected;
    if segs != [] {
      var n := |segs| - 1;
      SealedSize(c, mode, segs[..n]);
      PaddedSize(c, mode, segs[n]);
      assert SegmentBits(c, segs)[..n] == SegmentBits(c, segs[..n]);
    }
  }

  /** Room for the stream of `n` MCUs. */
  function ScanRoom(mode: ScanMode, n: nat): nat { (BLOCK_ROOM * mode.BlocksInMcu() + 2) * n }

  lemma ScanRoomIs(mode: ScanMode, n: nat)
    ensures 4 * TokenBound(mode, n) + 2 * n == ScanRoom(mode, n)
  {
  }

  /** The stream of a scan within the limits takes at most 528 bytes for each block, and two for each MCU. */
  lemma ScanSize(c: Codec, mode: ScanMode, interval: nat, mcus: seq<Mcu>)
    requires ShortCodes(c) && Shaped(mode, mcus) && ScanOk(mode, interval, mcus)
    ensures |ScanOutput(c, ScanSegments(mode, interval, mcus))| <= ScanRoom(mode, |mcus|)
  {
    hide Stuff, Padded, StreamBits, ShortCodes, AllExpected, Sealed, IntervalOk, IntervalFrom, TokenBound, ScanRoom;
    var segs := ScanSegments(mode, interval, mcus);
    var n := |segs| - 1;
    ChunksExpected(mode, Chunks(mcus, interval));
    SegmentsSize(mode, interval, mcus);
    SealedSize(c, mode, segs[..n]);
    PaddedSize(c, mode, segs[n]);
    ScanRoomIs(mode, |mcus|);
  }

  // ---------------------------------------------------------------- streams that cannot be short

  /** Every code has at least a bit. */
  ghost predicate RealCodes(c: Codec) {
    forall tbl: nat, s: nat :: c.write(tbl, s).Some? ==> |c.write(tbl, s).value| > 0
  }

  lemma HuffmanReal(books: Books)
    ensures RealCodes(HuffmanCodec(books))
  {
    var c := HuffmanCodec(books);
    forall tbl: nat, s: nat | c.write(tbl, s).Some? ensures |c.write(tbl, s).value| > 0 {
      assert BookValid(books, tbl);
      var bk := books[tbl];
      CodeShape(bk.huff, bk.isDC, bk.derived, s);
    }
  }

  lemma FirstBit(c: Codec, ts: seq<Token>)
    requires RealCodes(c) && ts != [] && AllCodable(c, ts) && (ts[0].Raw? ==> ts[0].bits != [])
    ensures |StreamBits(c, ts)| > 0
  {
    hide RealCodes;
    assert |TokenBits(c, ts[0])| > 0 by { TokenBit(c, ts[0]); }
  }

  lemma TokenBit(c: Codec, t: Token)
    requires RealCodes(c) && Codable(c, t) && (t.Raw? ==> t.bits != [])
    ensures |TokenBits(c, t)| > 0
  {
  }

  /** A block of any scan but an AC scan takes a bit. */
  lemma {:induction false} BlocksAtLeast(c: Codec, mode: ScanMode, last: seq<int>, mcu: Mcu, j: nat)
    requires RealCodes(c) && !mode.Ac? && |last| == |mode.comps| && j <= |mcu| == |mode.membership|
    requires AllCodable(c, BlocksCode(mode, last, mcu, j))
    ensures |StreamBits(c, BlocksCode(mode, last, mcu, j))| >= |mcu| - j
    decreases |mcu| - j
  {
    hide BlockCode, LastAfter, StreamBits, RealCodes;
    if j < |mcu| {
      var ci := mode.membership[j];
      var last' := last[ci := LastAfter(mode, last[ci], mcu[j])];
      var head, rest := BlockCode(mode, ci, last[ci], mcu[j]), BlocksCode(mode, last', mcu, j + 1);
      CodableAppend(c, head, rest);
      StreamAppend(c, head, rest);
      FirstToken(mode, ci, last[ci], mcu[j]);
      FirstBit(c, head);
      BlocksAtLeast(c, mode, last', mcu, j + 1);
    }
  }

  lemma FirstToken(mode: ScanMode, ci: nat, last: int, z: Block)
    requires !mode.Ac? && ci < |mode.comps|
    ensures var ts := BlockCode(mode, ci, last, z);
      ts != [] && (ts[0].Raw? ==> ts[0].bits != [])
  {
  }

  /** The blocks of `n` MCUs. */
  function BlockCount(mode: ScanMode, n: nat): nat { mode.BlocksInMcu() * n }

  lemma BlockCountSum(mode: ScanMode, n: nat, m: nat)
    ensures BlockCount(mode, n + m) == BlockCount(mode, n) + BlockCount(mode, m)
    ensures BlockCount(mode, 1) == mode.BlocksInMcu() && BlockCount(mode, 0) == 0
  {
  }

  lemma {:induction false} IntervalAtLeast(c: Codec, mode: ScanMode, st: Coder, mcus: seq<Mcu>)
    requires RealCodes(c) && !mode.Ac? && Shaped(mode, mcus) && Fitting(mode, st)
    requires AllCodable(c, IntervalFrom(mode, st, mcus))
    ensures |StreamBits(c, IntervalFrom(mode, st, mcus))| >= BlockCount(mode, |mcus|)
    decreases |mcus|
  {
    hide BlocksCode, McuState, StreamBits, RealCodes, BlockCount;
    BlockCountSum(mode, 0, 0);
    if mcus != [] {
      var head := McuTokens(mode, st, mcus[0]);
      var rest := IntervalFrom(mode, McuState(mode, st, mcus[0]), mcus[1..]);
      CodableAppend(c, head, rest);
      StreamAppend(c, head, rest);
      BlocksAtLeast(c, mode, st.last, mcus[0], 0);
      IntervalAtLeast(c, mode, McuState(mode, st, mcus[0]), mcus[1..]);
      BlockCountSum(mode, 1, |mcus| - 1);
    }
  }

  lemma {:induction false} SegmentsAtLeast(c: Codec, mode: ScanMode, interval: nat, mcus: seq<Mcu>)
    requires RealCodes(c) && !mode.Ac? && Shaped(mode, mcus)
    requires SegmentsCodable(c, ScanSegments(mode, interval, mcus))
    ensures |StreamBits(c, Flatten(ScanSegments(mode, interval, mcus)))| >= BlockCount(mode, |mcus|)
    decreases |mcus|
  {
    hide IntervalFrom, Flatten, BlockCount, StreamBits, RealCodes, AllCodable;
    var segs := ScanSegments(mode, interval, mcus);
    if interval == 0 || |mcus| <= interval {
      assert segs == [IntervalTokens(mode, mcus)] + [] && AllCodable(c, segs[0]);
      assert Flatten([]) == [] by { NothingFlat(); }
      FlattenCons(IntervalTokens(mode, mcus), []);
      assert IntervalTokens(mode, mcus) + [] == IntervalTokens(mode, mcus);
      IntervalAtLeast(c, mode, FreshCoder(mode), mcus);
    } else {
      var head, rest := mcus[..interval], mcus[interval..];
      SegmentsSplit(mode, interval, mcus);
      var tail := ScanSegments(mode, interval, rest);
      assert segs[0] == IntervalTokens(mode, head) && AllCodable(c, segs[0]);
      assert forall i :: 0 <= i < |tail| ==> tail[i] == segs[i + 1];
      IntervalAtLeast(c, mode, FreshCoder(mode), head);
      SegmentsAtLeast(c, mode, interval, rest);
      FlattenCons(IntervalTokens(mode, head), tail);
      StreamAppend(c, IntervalTokens(mode, head), Flatten(tail));
      BlockCountSum(mode, |head|, |rest|);
    }
  }

  lemma {:induction false} BytesAtLeast(s: Bits)
    ensures |s| < 8 * |Bytes(s)| + 8
  {
    if |s| >= 8 {
      BytesAtLeast(s[8..]);
    }
  }

  lemma {:induction false} StuffAtLeast(bs: seq<Byte>)
    ensures |Stuff(bs)| >= |bs|
  {
    if bs != [] {
      StuffAtLeast(bs[1..]);
    }
  }

  lemma PaddedAtLeast(s: Bits)
    ensures 8 * |Stuff(Padded(s))| >= |s|
  {
    hide Stuff, Bytes;
    BytesAtLeast(s + ONES);
    StuffAtLeast(Padded(s));
  }

  lemma {:induction false} SealedAtLeast(c: Codec, segs: seq<seq<Token>>)
    ensures 8 * |Sealed(SegmentBits(c, segs))| >= |StreamBits(c, Flatten(segs))|
    ensures |Sealed(SegmentBits(c, segs))| >= 2 * |segs|
  {
    hide Stuff, Padded, StreamBits;
    if segs == [] {
      assert StreamBits(c, []) == [] by { NoBits(c); }
    } else {
      var n := |segs| - 1;
      SealedAtLeast(c, segs[..n]);
      PaddedAtLeast(StreamBits(c, segs[n]));
      StreamAppend(c, Flatten(segs[..n]), segs[n]);
      assert SegmentBits(c, segs)[..n] == SegmentBits(c, segs[..n]);
    }
  }

  lemma NoBits(c: Codec)
    ensures StreamBits(c, []) == []
  {
  }

  /** A stream has at least the bits of its tokens, and two bytes for each restart. */
  lemma OutputAtLeast(c: Codec, segs: seq<seq<Token>>)
    requires segs != []
    ensures 8 * |ScanOutput(c, segs)| >= |StreamBits(c, Flatten(segs))|
    ensures |ScanOutput(c, segs)| >= 2 * (|segs| - 1)
  {
    hide Stuff, Padded, StreamBits, Sealed;
    var n := |segs| - 1;
    SealedAtLeast(c, segs[..n]);
    PaddedAtLeast(StreamBits(c, segs[n]));
    StreamAppend(c, Flatten(segs[..n]), segs[n]);
  }

  /** So a scan of `n` MCUs, if it is not an AC scan, takes at least a bit for each block. */
  lemma ScanAtLeast(c: Codec, mode: ScanMode, interval: nat, mcus: seq<Mcu>)
    requires RealCodes(c) && !mode.Ac? && Shaped(mode, mcus)
    requires SegmentsCodable(c, ScanSegments(mode, interval, mcus))
    ensures 8 * |ScanOutput(c, ScanSegments(mode, interval, mcus))| >= BlockCount(mode, |mcus|)
  {
    hide ScanOutput, RealCodes, BlockCount, ScanSegments, SegmentsCodable, StreamBits, Flatten;
    SegmentsAtLeast(c, mode, interval, mcus);
    OutputAtLeast(c, ScanSegments(mode, interval, mcus));
  }

  /** And whatever the code, the restart markers take two bytes for each interval but the last. */
  lemma {:induction false} ScanIntervals(mode: ScanMode, interval: nat, mcus: seq<Mcu>)
    requires Shaped(mode, mcus) && interval > 0
    ensures |ScanSegments(mode, interval, mcus)| * interval >= |mcus|
    decreases |mcus|
  {
    hide IntervalTokens;
    if |mcus| <= interval {
      assert |ScanSegments(mode, interval, mcus)| >= 1;
      assert |ScanSegments(mode, interval, mcus)| * interval >= interval;
    } else {
      ScanIntervals(mode, interval, mcus[interval..]);
      SegmentsSplit(mode, interval, mcus);
      var n := |ScanSegments(mode, interval, mcus[interval..])|;
      assert (n + 1) * interval == n * interval + interval;
    }
  }
}
