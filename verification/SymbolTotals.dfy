/** How many symbols a scan can count: a bound by its number of blocks, for the table generator. */
module SymbolTotals {
  import opened BitStrings
  import opened HuffmanOptimality
  import Forests = HuffmanForests
  import opened OptimalTables
  import opened Coding
  import opened RunLength
  import opened AcRefinement
  import opened AcScans
  import opened Scans
  import opened ScanStreams
  import opened TokenSinks
  import opened OptimizedScans

  /** Symbols of one block: 66 for the AC coefficients, and two more. */
  const BLOCK_SYMBOLS := 68

  /** The symbols among the tokens. */
  function Syms(ts: seq<Token>): nat
  {
    if ts == [] then 0 else (if ts[0].Sym? then 1 else 0) + Syms(ts[1..])
  }

  lemma {:induction false} SymsAppend(a: seq<Token>, b: seq<Token>)
    ensures Syms(a + b) == Syms(a) + Syms(b)
  {
    if a == [] {
      assert a + b == b;
    } else {
      assert (a + b)[1..] == a[1..] + b;
      SymsAppend(a[1..], b);
    }
  }

  lemma SymsPair(t: Token, u: Token)
    ensures Syms([t]) == if t.Sym? then 1 else 0
    ensures Syms([t, u]) == Syms([t]) + Syms([u])
  {
    assert [t][1..] == [] && [t, u][1..] == [u];
  }

  // ---------------------------------------------------------------- symbols of a block

  lemma {:induction false} ZrlsSyms(tbl: nat, n: nat)
    ensures Syms(Zrls(tbl, n)) == n
  {
    if n > 0 {
      SymsPair(Sym(tbl, ZRL), Sym(tbl, ZRL));
      SymsAppend([Sym(tbl, ZRL)], Zrls(tbl, n - 1));
      ZrlsSyms(tbl, n - 1);
    }
  }

  lemma {:induction false} RawSyms(bits: Bits)
    ensures Syms(RawEach(bits)) == 0
  {
    if bits != [] {
      assert RawEach(bits)[1..] == RawEach(bits[1..]);
      RawSyms(bits[1..]);
    }
  }

  /** One for each nonzero coefficient, one for sixteen zeros. */
  lemma {:induction false} BandSyms(tbl: nat, y: Block, k: nat, se: nat, r: nat)
    requires k <= se + 1 <= 64
    ensures 16 * Syms(BandTokens(tbl, y, k, se, r)) <= 17 * (se + 1 - k) + r
    decreases 64 - k
  {
    hide Syms, MagnitudeBits;
    NoSyms();
    if k > se {
    } else if y[k] == 0 {
      BandSyms(tbl, y, k + 1, se, r + 1);
    } else {
      var zrls, pair := Zrls(tbl, r / 16), CoefPair(tbl, r % 16, y[k]);
      ZrlsSyms(tbl, r / 16);
      SymsPair(pair[0], pair[1]);
      SymsPair(pair[1], pair[1]);
      SymsAppend(zrls, pair);
      SymsAppend(zrls + pair, BandTokens(tbl, y, k + 1, se, 0));
      BandSyms(tbl, y, k + 1, se, 0);
    }
  }

  lemma NoSyms()
    ensures Syms([]) == 0
  {
  }

  lemma OneThenRaw(ts: seq<Token>, bits: Bits)
    requires |ts| == 1 || (|ts| == 2 && ts[1].Raw?)
    ensures Syms(ts + RawEach(bits)) <= 1
  {
    if |ts| == 2 {
      SymsPair(ts[0], ts[1]);
      SymsPair(ts[1], ts[1]);
      assert ts == [ts[0], ts[1]];
    } else {
      assert ts == [ts[0]];
    }
    SymsPair(ts[0], ts[0]);
    SymsAppend(ts, RawEach(bits));
    RawSyms(bits);
  }

  lemma {:induction false} RefineSyms(tbl: nat, z: Block, al: nat, k: nat, eob: nat, r: nat, br: Bits)
    requires k <= eob + 1 <= 64
    ensures 16 * Syms(RefineTokens(tbl, z, al, k, eob, r, br)) <= 17 * (eob + 1 - k) + r
    decreases 64 - k, r
  {
    hide Syms, Mag;
    NoSyms();
    if k > eob {
    } else if Mag(z, al, k) == 0 {
      RefineSyms(tbl, z, al, k + 1, eob, r + 1, br);
    } else if r > 15 {
      OneThenRaw([Sym(tbl, ZRL)], br);
      SymsAppend([Sym(tbl, ZRL)] + RawEach(br), RefineTokens(tbl, z, al, k, eob, r - 16, []));
      RefineSyms(tbl, z, al, k, eob, r - 16, []);
    } else if Mag(z, al, k) > 1 {
      RefineSyms(tbl, z, al, k + 1, eob, r, br + [Mag(z, al, k) % 2 == 1]);
    } else {
      OneThenRaw([Sym(tbl, 16 * r + 1), Raw([SignBit(z[k])])], br);
      SymsAppend(NewTokens(tbl, r, z[k], br), RefineTokens(tbl, z, al, k + 1, eob, 0, []));
      RefineSyms(tbl, z, al, k + 1, eob, 0, []);
    }
  }

  lemma EobSyms(tbl: nat, p: Pending)
    ensures Syms(EobTokens(tbl, p)) <= 1
  {
    if p.eobrun > 0 {
      OneThenRaw(EobHead(tbl, p.eobrun), p.corr);
    }
  }

  lemma AcBlockSyms(m: Params, p: Pending, z: Block)
    ensures Syms(BlockTokens(m, p, z)) <= BLOCK_SYMBOLS
  {
    hide Syms, EobTokens, BandTokens, RefineTokens, Transformed, CorrBits, Forced;
    var cd := CodeBlock(m, z);
    NoSyms();
    if m.refine {
      var eob := LastNew(z, m.al, m.ss, m.se + 1);
      if eob > 0 {
        RefineSyms(m.tbl, z, m.al, m.ss, eob, 0, []);
      }
    } else {
      BandSyms(m.tbl, Transformed(z, m.al), m.ss, m.se, 0);
    }
    EobSyms(m.tbl, p);
    SymsAppend(EobTokens(m.tbl, p), cd.syms);
    if cd.tail.Some? {
      EobSyms(m.tbl, Joined(AfterSyms(p, cd), cd.tail.value));
    }
    SymsAppend(if cd.syms == [] then [] else EobTokens(m.tbl, p) + cd.syms,
               if cd.tail.Some? && Forced(Joined(AfterSyms(p, cd), cd.tail.value))
               then EobTokens(m.tbl, Joined(AfterSyms(p, cd), cd.tail.value)) else []);
  }

  lemma DiffSyms(tbl: nat, diff: int)
    ensures Syms(DiffTokens(tbl, diff)) == 1
  {
    var sym, raw := Sym(tbl, NBits(Abs(diff))), Raw(MagnitudeBits(diff));
    SymsPair(sym, raw);
    SymsPair(raw, raw);
    assert [sym] + [raw] == [sym, raw] && [sym] + [] == [sym];
  }

  lemma OneBlockSyms(mode: ScanMode, ci: nat, last: int, z: Block)
    requires !mode.Ac? && ci < |mode.comps|
    ensures Syms(BlockCode(mode, ci, last, z)) <= BLOCK_SYMBOLS
  {
    hide Syms, DiffTokens, BandTokens;
    match mode {
      case Sequential(comps, _) =>
        var band, eob := BandTokens(comps[ci].acTbl, z, 1, 63, 0), if z[63] == 0 then [Sym(comps[ci].acTbl, 0)] else [];
        NoSyms();
        SymsPair(Sym(comps[ci].acTbl, 0), Sym(comps[ci].acTbl, 0));
        DiffSyms(comps[ci].dcTbl, z[0] - last);
        BandSyms(comps[ci].acTbl, z, 1, 63, 0);
        SymsAppend(band, eob);
        SymsAppend(DiffTokens(comps[ci].dcTbl, z[0] - last), band + eob);
      case DcFirst(comps, _, al) =>
        DiffSyms(comps[ci].dcTbl, Shr(z[0], al) - last);
      case DcRefine(_, _, al) =>
        var raw := Raw([Shr(z[0], al) % 2 == 1]);
        SymsPair(raw, raw);
    }
  }

  // ---------------------------------------------------------------- symbols of a scan

  lemma {:induction false} BlocksSyms(mode: ScanMode, last: seq<int>, mcu: Mcu, j: nat)
    requires !mode.Ac? && |last| == |mode.comps| && j <= |mcu| == |mode.membership|
    ensures Syms(BlocksCode(mode, last, mcu, j)) <= BLOCK_SYMBOLS * (|mcu| - j)
    decreases |mcu| - j
  {
    hide Syms, BlockCode, LastAfter;
    NoSyms();
    if j < |mcu| {
      var ci := mode.membership[j];
      var last' := last[ci := LastAfter(mode, last[ci], mcu[j])];
      OneBlockSyms(mode, ci, last[ci], mcu[j]);
      SymsAppend(BlockCode(mode, ci, last[ci], mcu[j]), BlocksCode(mode, last', mcu, j + 1));
      BlocksSyms(mode, last', mcu, j + 1);
    }
  }

  lemma McuSyms(mode: ScanMode, st: Coder, mcu: Mcu)
    requires |mcu| == mode.BlocksInMcu() && Fitting(mode, st)
    ensures Syms(McuTokens(mode, st, mcu)) <= BLOCK_SYMBOLS * mode.BlocksInMcu()
  {
    hide Syms, BlockTokens, BlocksCode;
    if mode.Ac? {
      AcBlockSyms(mode.params, st.pending, mcu[0]);
    } else {
      BlocksSyms(mode, st.last, mcu, 0);
    }
  }

  /** A bound for `n` MCUs of a scan. */
  function Bound(mode: ScanMode, n: nat): nat { (BLOCK_SYMBOLS * mode.BlocksInMcu() + 1) * n }

  lemma BoundSum(mode: ScanMode, n: nat, m: nat)
    ensures Bound(mode, n + m) == Bound(mode, n) + Bound(mode, m)
    ensures Bound(mode, 1) == BLOCK_SYMBOLS * mode.BlocksInMcu() + 1 && Bound(mode, 0) == 0
  {
  }

  lemma {:induction false} IntervalSyms(mode: ScanMode, st: Coder, mcus: seq<Mcu>)
    requires Shaped(mode, mcus) && Fitting(mode, st)
    ensures Syms(IntervalFrom(mode, st, mcus)) + |mcus| <= Bound(mode, |mcus|) + 1
    decreases |mcus|
  {
    hide Syms, McuTokens, McuState, EobTokens, Bound;
    NoSyms();
    BoundSum(mode, 0, 0);
    if mcus == [] {
      if mode.Ac? {
        EobSyms(mode.params.tbl, st.pending);
      }
    } else {
      var st' := McuState(mode, st, mcus[0]);
      McuSyms(mode, st, mcus[0]);
      IntervalSyms(mode, st', mcus[1..]);
      SymsAppend(McuTokens(mode, st, mcus[0]), IntervalFrom(mode, st', mcus[1..]));
      BoundSum(mode, 1, |mcus| - 1);
    }
  }

  /** In whatever mode, and however often a restart flushes the coder. */
  lemma {:induction false} ScanSyms(mode: ScanMode, interval: nat, mcus: seq<Mcu>)
    requires Shaped(mode, mcus)
    ensures Syms(Flatten(ScanSegments(mode, interval, mcus))) <= Bound(mode, |mcus|) + 1
    decreases |mcus|
  {
    hide Syms, IntervalFrom, Flatten, Bound;
    NoSyms();
    assert Flatten([]) == [] by { NothingFlat(); }
    if interval == 0 || |mcus| <= interval {
      IntervalSyms(mode, FreshCoder(mode), mcus);
      FlattenCons(IntervalTokens(mode, mcus), []);
      SymsAppend(IntervalTokens(mode, mcus), []);
      assert ScanSegments(mode, interval, mcus) == [IntervalTokens(mode, mcus)] + [];
    } else {
      var head, rest := mcus[..interval], mcus[interval..];
      IntervalSyms(mode, FreshCoder(mode), head);
      ScanSyms(mode, interval, rest);
      FlattenCons(IntervalTokens(mode, head), ScanSegments(mode, interval, rest));
      SymsAppend(IntervalTokens(mode, head), Flatten(ScanSegments(mode, interval, rest)));
      SegmentsSplit(mode, interval, mcus);
      BoundSum(mode, |head|, |rest|);
    }
  }

  lemma NothingFlat()
    ensures Flatten([]) == []
  {
  }

  lemma SegmentsSplit(mode: ScanMode, interval: nat, mcus: seq<Mcu>)
    requires Shaped(mode, mcus) && 0 < interval < |mcus|
    ensures ScanSegments(mode, interval, mcus)
         == [IntervalTokens(mode, mcus[..interval])] + ScanSegments(mode, interval, mcus[interval..])
  {
    hide IntervalTokens;
    var cs := Chunks(mcus, interval);
    assert cs[0] == mcus[..interval] && cs[1..] == Chunks(mcus[interval..], interval);
    ChunksShaped(mode, mcus, interval);
    ChunksShaped(mode, mcus[interval..], interval);
  }

  // ---------------------------------------------------------------- totals

  /** The counts of a table total at most the number of symbols, and the pseudo-symbol. */
  lemma {:induction false} CountTotal(ts: seq<Token>, tbl: nat)
    ensures Total(CountRow(ts, tbl)) <= Syms(ts) + 1
  {
    hide Total, Syms;
    NoSyms();
    if ts == [] {
      Forests.TotalSingle(CountRow([], tbl), SYMBOLS - 1);
    } else {
      var n := |ts| - 1;
      CountTotal(ts[..n], tbl);
      assert ts == ts[..n] + [ts[n]];
      SymsPair(ts[n], ts[n]);
      SymsAppend(ts[..n], [ts[n]]);
      CountNext(ts[..n], ts[n], tbl);
    }
  }

  lemma CountNext(ts: seq<Token>, t: Token, tbl: nat)
    ensures Total(CountRow(ts + [t], tbl)) <= Total(CountRow(ts, tbl)) + (if t.Sym? then 1 else 0)
  {
    hide Total;
    var a, b := CountRow(ts, tbl), CountRow(ts + [t], tbl);
    if t.Sym? && t.tbl == tbl && t.sym < 256 {
      assert b == a[t.sym := a[t.sym] + 1];
      TotalUpdate(a, t.sym, a[t.sym] + 1);
    } else {
      assert b == a;
    }
  }

  /** A scan of moderate size stays below Fibonacci(35). */
  lemma SmallScan(mode: ScanMode, interval: nat, mcus: seq<Mcu>, tables: nat)
    requires Shaped(mode, mcus) && Bound(mode, |mcus|) + 2 < 9227465
    ensures LowTotals(Flatten(ScanSegments(mode, interval, mcus)), tables)
    ensures Manageable(Flatten(ScanSegments(mode, interval, mcus)), tables)
  {
    hide Total, Syms, Bound, CountRow, Flatten, ScanSegments;
    var ts := Flatten(ScanSegments(mode, interval, mcus));
    ScanSyms(mode, interval, mcus);
    forall tbl | 0 <= tbl < tables ensures Total(CountRow(ts, tbl)) < 9227465 {
      CountTotal(ts, tbl);
    }
  }
}
