/** Which symbols a scan within the coefficient limits can emit: categories of DC differences, and of AC
    coefficients after a run of zeros; never more than a length count of one byte can hold. */
module ScanSymbols {
  import opened BitStrings
  import opened Coding
  import opened RunLength
  import opened AcRefinement
  import opened AcScans
  import opened Scans
  import opened ScanStreams
  import opened TokenSinks

  /** A DC difference has a category of at most 11, an AC coefficient one of at most 10, and no run of
      end-of-bands takes more than 14 bits. */
  predicate Expected(mode: ScanMode, t: Token)
  {
    match t
    case Sym(_, sym) => (!mode.Ac? && sym <= 11) || ((mode.Ac? || mode.Sequential?) && sym % 16 <= 10)
    case Raw(bits) => |bits| <= 14
  }

  ghost predicate AllExpected(mode: ScanMode, ts: seq<Token>) { forall t :: t in ts ==> Expected(mode, t) }

  lemma ExpectedAppend(mode: ScanMode, a: seq<Token>, b: seq<Token>)
    ensures AllExpected(mode, a + b) <==> AllExpected(mode, a) && AllExpected(mode, b)
  {
    if AllExpected(mode, a + b) {
      assert (forall t :: t in a ==> t in a + b) && (forall t :: t in b ==> t in a + b);
    }
  }

  lemma DiffExpected(mode: ScanMode, tbl: nat, diff: int)
    requires !mode.Ac? && NBits(Abs(diff)) <= 11
    ensures AllExpected(mode, DiffTokens(tbl, diff))
  {
  }

  // ---------------------------------------------------------------- AC coefficients

  lemma {:induction false} ZrlsExpected(mode: ScanMode, tbl: nat, n: nat)
    requires mode.Ac? || mode.Sequential?
    ensures AllExpected(mode, Zrls(tbl, n))
  {
    if n > 0 {
      ZrlsExpected(mode, tbl, n - 1);
    }
  }

  lemma {:induction false} BandExpected(mode: ScanMode, tbl: nat, y: Block, k: nat, se: nat, r: nat)
    requires se < 64 && (mode.Ac? || mode.Sequential?) && BandInRange(y, k, se)
    ensures AllExpected(mode, BandTokens(tbl, y, k, se, r))
    decreases 64 - k
  {
    hide AllExpected, MagnitudeBits;
    if k > se {
      NoneExpected(mode);
    } else if y[k] == 0 {
      BandExpected(mode, tbl, y, k + 1, se, r + 1);
    } else {
      var zrls, pair := Zrls(tbl, r / 16), CoefPair(tbl, r % 16, y[k]);
      ZrlsExpected(mode, tbl, r / 16);
      PairExpected(mode, tbl, r % 16, y[k]);
      ExpectedAppend(mode, zrls, pair);
      BandExpected(mode, tbl, y, k + 1, se, 0);
      ExpectedAppend(mode, zrls + pair, BandTokens(tbl, y, k + 1, se, 0));
    }
  }

  lemma NoneExpected(mode: ScanMode)
    ensures AllExpected(mode, [])
  {
  }

  lemma Low4(r: nat, n: nat)
    requires n < 16
    ensures (16 * r + n) % 16 == n
  {
  }

  lemma PairExpected(mode: ScanMode, tbl: nat, r: nat, v: int)
    requires (mode.Ac? || mode.Sequential?) && NBits(Abs(v)) <= 10
    ensures AllExpected(mode, CoefPair(tbl, r, v))
  {
    hide NBits, Abs;
    Low4(r, NBits(Abs(v)));
  }

  lemma RawExpected(mode: ScanMode, bits: Bits)
    requires mode.Ac?
    ensures AllExpected(mode, RawEach(bits))
  {
  }

  lemma {:induction false} RefineExpected(mode: ScanMode, tbl: nat, z: Block, al: nat, k: nat, eob: nat, r: nat,
                                          br: Bits)
    requires eob < 64 && mode.Ac?
    ensures AllExpected(mode, RefineTokens(tbl, z, al, k, eob, r, br))
    decreases 64 - k, r
  {
    hide AllExpected, Mag;
    if k > eob {
      NoneExpected(mode);
    } else if Mag(z, al, k) == 0 {
      RefineExpected(mode, tbl, z, al, k + 1, eob, r + 1, br);
    } else if r > 15 {
      SymbolThenRaw(mode, [Sym(tbl, ZRL)], br);
      RefineExpected(mode, tbl, z, al, k, eob, r - 16, []);
      ExpectedAppend(mode, [Sym(tbl, ZRL)] + RawEach(br), RefineTokens(tbl, z, al, k, eob, r - 16, []));
    } else if Mag(z, al, k) > 1 {
      RefineExpected(mode, tbl, z, al, k + 1, eob, r, br + [Mag(z, al, k) % 2 == 1]);
    } else {
      assert (16 * r + 1) % 16 == 1;
      SymbolThenRaw(mode, [Sym(tbl, 16 * r + 1), Raw([SignBit(z[k])])], br);
      RefineExpected(mode, tbl, z, al, k + 1, eob, 0, []);
      ExpectedAppend(mode, NewTokens(tbl, r, z[k], br), RefineTokens(tbl, z, al, k + 1, eob, 0, []));
    }
  }

  lemma SymbolThenRaw(mode: ScanMode, ts: seq<Token>, bits: Bits)
    requires mode.Ac? && forall t :: t in ts ==> if t.Sym? then t.sym % 16 <= 10 else |t.bits| <= 14
    ensures AllExpected(mode, ts + RawEach(bits))
  {
    RawExpected(mode, bits);
    ExpectedAppend(mode, ts, RawEach(bits));
  }

  lemma ShortRun(n: nat)
    requires 0 < n <= MAX_EOBRUN
    ensures NBits(n) - 1 <= 14
  {
    NBitsAtMost(n, 15);
    assert Pow2(5) == 32 && Pow2(10) == 1024 && Pow2(15) == 0x8000;
  }

  lemma NothingExpected(mode: ScanMode)
    ensures AllExpected(mode, [])
  {
  }

  lemma EobExpected(mode: ScanMode, tbl: nat, p: Pending)
    requires mode.Ac? && p.eobrun <= MAX_EOBRUN
    ensures AllExpected(mode, EobTokens(tbl, p))
  {
    hide RawEach, AllExpected, NBits, BitsOf;
    assert AllExpected(mode, []) by { NothingExpected(mode); }
    if p.eobrun > 0 {
      ShortRun(p.eobrun);
      SymbolThenRaw(mode, EobHead(tbl, p.eobrun), p.corr);
    }
  }

  lemma AcBlockExpected(mode: ScanMode, p: Pending, z: Block)
    requires mode.Ac? && BlockInRange(mode.params, z) && Bounded(p)
    ensures AllExpected(mode, BlockTokens(mode.params, p, z)) && Bounded(BlockPending(mode.params, p, z))
  {
    StepBounded(mode.params, p, z);
    hide NBits, AllExpected, EobTokens, BandTokens, RefineTokens, Transformed, LastNew, CorrBits, BandInRange;
    var m, cd := mode.params, CodeBlock(mode.params, z);
    NoneExpected(mode);
    if m.refine {
      RefineExpected(mode, m.tbl, z, m.al, m.ss, LastNew(z, m.al, m.ss, m.se + 1), 0, []);
    } else {
      BandExpected(mode, m.tbl, Transformed(z, m.al), m.ss, m.se, 0);
    }
    EobExpected(mode, m.tbl, p);
    ExpectedAppend(mode, EobTokens(m.tbl, p), cd.syms);
    if cd.tail.Some? {
      EobExpected(mode, m.tbl, Joined(AfterSyms(p, cd), cd.tail.value));
    }
    ExpectedAppend(mode, if cd.syms == [] then [] else EobTokens(m.tbl, p) + cd.syms,
                   if cd.tail.Some? && Forced(Joined(AfterSyms(p, cd), cd.tail.value))
                   then EobTokens(m.tbl, Joined(AfterSyms(p, cd), cd.tail.value)) else []);
  }

  // ---------------------------------------------------------------- MCUs, intervals, scans

  lemma OneExpected(mode: ScanMode, ci: nat, last: int, z: Block)
    requires !mode.Ac? && ci < |mode.comps| && BlockOk(mode, last, z)
    ensures AllExpected(mode, BlockCode(mode, ci, last, z))
  {
    hide AllExpected, DiffTokens, BandTokens, BandInRange;
    match mode {
      case Sequential(comps, _) =>
        var band, eob := BandTokens(comps[ci].acTbl, z, 1, 63, 0), if z[63] == 0 then [Sym(comps[ci].acTbl, 0)] else [];
        DiffExpected(mode, comps[ci].dcTbl, z[0] - last);
        BandExpected(mode, comps[ci].acTbl, z, 1, 63, 0);
        EndExpected(mode, comps[ci].acTbl, eob);
        ExpectedAppend(mode, band, eob);
        ExpectedAppend(mode, DiffTokens(comps[ci].dcTbl, z[0] - last), band + eob);
      case DcFirst(comps, _, al) =>
        DiffExpected(mode, comps[ci].dcTbl, Shr(z[0], al) - last);
      case DcRefine(_, _, al) =>
        BitExpected(mode, [Shr(z[0], al) % 2 == 1]);
    }
  }

  lemma EndExpected(mode: ScanMode, tbl: nat, ts: seq<Token>)
    requires mode.Sequential? && ts <= [Sym(tbl, 0)]
    ensures AllExpected(mode, ts)
  {
  }

  lemma BitExpected(mode: ScanMode, bits: Bits)
    requires |bits| <= 14
    ensures AllExpected(mode, [Raw(bits)])
  {
  }

  lemma {:induction false} BlocksExpected(mode: ScanMode, last: seq<int>, mcu: Mcu, j: nat)
    requires !mode.Ac? && |last| == |mode.comps| && j <= |mcu| == |mode.membership|
    requires BlocksOk(mode, last, mcu, j)
    ensures AllExpected(mode, BlocksCode(mode, last, mcu, j))
    decreases |mcu| - j
  {
    hide AllExpected, BlockCode, BlockOk;
    if j == |mcu| {
      NoneExpected(mode);
    } else {
      var ci := mode.membership[j];
      var last' := last[ci := LastAfter(mode, last[ci], mcu[j])];
      OneExpected(mode, ci, last[ci], mcu[j]);
      BlocksExpected(mode, last', mcu, j + 1);
      ExpectedAppend(mode, BlockCode(mode, ci, last[ci], mcu[j]), BlocksCode(mode, last', mcu, j + 1));
    }
  }

  lemma McuExpected(mode: ScanMode, st: Coder, mcu: Mcu)
    requires |mcu| == mode.BlocksInMcu() && Fitting(mode, st) && McuOk(mode, st, mcu)
    requires mode.Ac? ==> Bounded(st.pending)
    ensures AllExpected(mode, McuTokens(mode, st, mcu))
    ensures mode.Ac? ==> Bounded(McuState(mode, st, mcu).pending)
  {
    hide AllExpected, BlockTokens, BlocksCode, BlocksOk, BlockInRange, BlockPending, Bounded;
    if mode.Ac? {
      AcBlockExpected(mode, st.pending, mcu[0]);
    } else {
      BlocksExpected(mode, st.last, mcu, 0);
    }
  }

  lemma {:induction false} IntervalExpected(mode: ScanMode, st: Coder, mcus: seq<Mcu>)
    requires Shaped(mode, mcus) && Fitting(mode, st) && IntervalOk(mode, st, mcus) && (mode.Ac? ==> Bounded(st.pending))
    ensures AllExpected(mode, IntervalFrom(mode, st, mcus))
    decreases |mcus|
  {
    hide AllExpected, McuTokens, McuOk, McuState, EobTokens;
    if mcus == [] {
      NoneExpected(mode);
      if mode.Ac? {
        EobExpected(mode, mode.params.tbl, st.pending);
      }
    } else {
      McuExpected(mode, st, mcus[0]);
      IntervalExpected(mode, McuState(mode, st, mcus[0]), mcus[1..]);
      ExpectedAppend(mode, McuTokens(mode, st, mcus[0]), IntervalFrom(mode, McuState(mode, st, mcus[0]), mcus[1..]));
    }
  }

  lemma {:induction false} ChunksExpected(mode: ScanMode, chunks: seq<seq<Mcu>>)
    requires ChunksOk(mode, chunks)
    ensures forall i :: 0 <= i < |chunks| ==> AllExpected(mode, ChunkTokens(mode, chunks)[i])
  {
    hide AllExpected, IntervalFrom, IntervalOk;
    if chunks != [] {
      IntervalExpected(mode, FreshCoder(mode), chunks[0]);
      ChunksExpected(mode, chunks[1..]);
    }
  }

  lemma {:induction false} FlattenExpected(mode: ScanMode, segs: seq<seq<Token>>)
    requires forall i :: 0 <= i < |segs| ==> AllExpected(mode, segs[i])
    ensures AllExpected(mode, Flatten(segs))
  {
    hide AllExpected;
    if segs == [] {
      NoneExpected(mode);
    } else {
      FlattenExpected(mode, segs[..|segs| - 1]);
      ExpectedAppend(mode, Flatten(segs[..|segs| - 1]), segs[|segs| - 1]);
    }
  }

  /** A scan within the limits emits expected symbols only, in every mode and with every restart interval. */
  lemma ScanExpected(mode: ScanMode, interval: nat, mcus: seq<Mcu>)
    requires Shaped(mode, mcus) && ScanOk(mode, interval, mcus)
    ensures AllExpected(mode, Flatten(ScanSegments(mode, interval, mcus)))
  {
    hide AllExpected, IntervalOk, IntervalFrom;
    ChunksExpected(mode, Chunks(mcus, interval));
    FlattenExpected(mode, ScanSegments(mode, interval, mcus));
  }

  /** So the symbols of a DC scan, and those of a DC table, are at most 11; and 1B and 1C occur in no scan. */
  lemma NeverCounted(mode: ScanMode, ts: seq<Token>, tbl: nat)
    requires AllExpected(mode, ts)
    ensures forall s :: 11 < s && (s % 16 > 10 || mode.DcFirst? || mode.DcRefine?) ==> Occurrences(ts, tbl, s) == 0
  {
    forall s | 11 < s && (s % 16 > 10 || mode.DcFirst? || mode.DcRefine?) ensures Occurrences(ts, tbl, s) == 0 {
      assert Sym(tbl, s) !in ts;
    }
  }
}
