/** The MCUs of a scan, block by block: which block of the image stands at which place, and what stands where
    the image has none. */
module ScanBlocks {
  import opened RunLength
  import opened Geometry
  import opened ScanSetups

  // ---------------------------------------------------------------- real blocks and dummies

  /** A block with a DC value and no other coefficient. */
  ghost predicate OnlyDc(b: Block, dc: int) { b[0] == dc && forall k :: 1 <= k < 64 ==> b[k] == 0 }

  lemma DummyOnlyDc(dc: int)
    ensures OnlyDc(Dummy(dc), dc)
  {
  }

  /** Row `y` of iMCU row `t` is real if the component has that many rows. */
  lemma RowIsReal(f: Frame, c: nat, t: nat, y: nat)
    requires f.Valid() && c < |f.comps| && t < f.TotalIMcuRows() && y < f.comps[c].v
    ensures y < RealRows(f, c, t) <==> Times(t, f.comps[c].v) + y < f.HeightInBlocks(c)
    ensures 0 < RealRows(f, c, t) <= f.comps[c].v
    ensures t + 1 == f.TotalIMcuRows() ==> Times(t, f.comps[c].v) + RealRows(f, c, t) == f.HeightInBlocks(c)
  {
    hide DivRoundUp, LastPart, Times;
    ComponentGrid(f, c);
    var v := f.comps[c].v;
    if t + 1 < f.TotalIMcuRows() {
      TimesMono(t + 1, f.TotalIMcuRows() - 1, v);
      TimesNext(t, v);
    }
  }

  /** The last column of the cell, or of the component if that is further left. */
  function LastInCell(col: nat, h: nat, w: nat): nat
    requires h > 0 && w > 0
  {
    if Times(col, h) + h <= w then Times(col, h) + h - 1 else w - 1
  }

  /** What stands at row `y` of iMCU row `t`, in column `x` of cell `col`: the block, where the component has one;
      right of the component a block with nothing but the DC value of the last block of the row; below it one with
      nothing but the DC value of the last block of the lowest real row that belongs to the cell. */
  ghost predicate StandsAt(p: Picture, c: nat, t: nat, y: nat, col: nat, x: nat, b: Block)
    requires p.frame.Valid() && c < |p.frame.comps|
  {
    var f := p.frame;
    var w, h := f.WidthInBlocks(c), f.comps[c].h;
    var row, column := Times(t, f.comps[c].v) + y, Times(col, h) + x;
    && w > 0
    && (row < f.HeightInBlocks(c) && column < w ==> b == p.dct(c, t, y, column))
    && (row < f.HeightInBlocks(c) && column >= w ==> OnlyDc(b, p.dct(c, t, y, w - 1)[0]))
    && (row >= f.HeightInBlocks(c) ==>
          var lowest := f.HeightInBlocks(c) - 1 - Times(t, f.comps[c].v);
          lowest >= 0 && OnlyDc(b, p.dct(c, t, lowest, LastInCell(col, h, w))[0]))
  }

  lemma InCell(col: nat, x: nat, h: nat)
    requires x < h
    ensures CellEnd(Times(col, h) + x, h) == Times(col, h) + h - 1
  {
    TimesProduct(col, h);
    CellOf(col, x, h);
  }

  /** The padded component holds just that. */
  lemma {:induction false} PaddedStands(p: Picture, c: nat, t: nat, y: nat, col: nat, x: nat)
    requires p.frame.Valid() && c < |p.frame.comps| && t < p.frame.TotalIMcuRows()
    requires y < p.frame.comps[c].v && x < p.frame.comps[c].h
    ensures StandsAt(p, c, t, y, col, x, Padded(p, c, t, y, Times(col, p.frame.comps[c].h) + x))
    decreases y
  {
    hide DivRoundUp, LastPart, Times, RealRows, CellEnd, Dummy;
    var f := p.frame;
    var h := f.comps[c].h;
    ComponentGrid(f, c);
    RowIsReal(f, c, t, y);
    LastRowsShort(f, c, t, y);
    if y < RealRows(f, c, t) {
      DummyOnlyDc(p.dct(c, t, y, f.WidthInBlocks(c) - 1)[0]);
    } else {
      InCell(col, x, h);
      PaddedStands(p, c, t, y - 1, col, h - 1);
      DummyOnlyDc(Padded(p, c, t, y - 1, Times(col, h) + h - 1)[0]);
    }
  }

  /** Only the last iMCU row is short. */
  lemma LastRowsShort(f: Frame, c: nat, t: nat, y: nat)
    requires f.Valid() && c < |f.comps| && t < f.TotalIMcuRows() && y < f.comps[c].v
    ensures y >= RealRows(f, c, t) ==> t + 1 == f.TotalIMcuRows()
  {
  }

  // ---------------------------------------------------------------- places within an MCU

  /** The number of blocks of an MCU before part `n`. */
  function BlocksBefore(parts: seq<CompScan>, n: nat): nat
    requires n <= |parts|
  {
    if n == 0 then 0 else BlocksBefore(parts, n - 1) + Times(parts[n - 1].mcuHeight, parts[n - 1].mcuWidth)
  }

  lemma {:induction false} PartAt(p: Picture, s: Setup, i: nat, t: nat, yoffset: nat, col: nat, n: nat, y: nat, x: nat)
    requires Suits(p, s) && i < |s.parts| && y < n && x < s.parts[i].mcuWidth
    ensures var part := Part(p, s, i, t, yoffset, col, n);
      && |part| == Times(n, s.parts[i].mcuWidth) && Times(y, s.parts[i].mcuWidth) + x < |part|
      && part[Times(y, s.parts[i].mcuWidth) + x] == PartRow(p, s, i, t, yoffset + y, col)[x]
  {
    hide PartRow;
    var w := s.parts[i].mcuWidth;
    PartLength(p, s, i, t, yoffset, col, n);
    PartLength(p, s, i, t, yoffset, col, n - 1);
    if y < n - 1 {
      PartAt(p, s, i, t, yoffset, col, n - 1, y, x);
    }
  }

  lemma {:induction false} PartLength(p: Picture, s: Setup, i: nat, t: nat, yoffset: nat, col: nat, n: nat)
    requires Suits(p, s) && i < |s.parts|
    ensures |Part(p, s, i, t, yoffset, col, n)| == Times(n, s.parts[i].mcuWidth)
  {
    hide PartRow;
    if n > 0 {
      PartLength(p, s, i, t, yoffset, col, n - 1);
    }
  }

  lemma {:induction false} PartsAt(p: Picture, s: Setup, t: nat, yoffset: nat, col: nat, n: nat, i: nat, j: nat)
    requires Suits(p, s) && i < n <= |s.parts| && j < Times(s.parts[i].mcuHeight, s.parts[i].mcuWidth)
    ensures var parts := Parts(p, s, t, yoffset, col, n);
      && |parts| == BlocksBefore(s.parts, n) && BlocksBefore(s.parts, i) + j < |parts|
      && |Part(p, s, i, t, yoffset, col, s.parts[i].mcuHeight)| > j
      && parts[BlocksBefore(s.parts, i) + j] == Part(p, s, i, t, yoffset, col, s.parts[i].mcuHeight)[j]
  {
    hide Part, Times;
    PartsLength(p, s, t, yoffset, col, n);
    PartsLength(p, s, t, yoffset, col, n - 1);
    PartLength(p, s, i, t, yoffset, col, s.parts[i].mcuHeight);
    if i < n - 1 {
      PartsAt(p, s, t, yoffset, col, n - 1, i, j);
    }
  }

  lemma {:induction false} PartsLength(p: Picture, s: Setup, t: nat, yoffset: nat, col: nat, n: nat)
    requires Suits(p, s) && n <= |s.parts|
    ensures |Parts(p, s, t, yoffset, col, n)| == BlocksBefore(s.parts, n)
  {
    hide Part, Times;
    if n > 0 {
      PartsLength(p, s, t, yoffset, col, n - 1);
      PartLength(p, s, n - 1, t, yoffset, col, s.parts[n - 1].mcuHeight);
    }
  }

  /** Within an MCU the blocks stand component by component, and of each component row by row. */
  lemma McuAt(p: Picture, s: Setup, t: nat, yoffset: nat, col: nat, i: nat, y: nat, x: nat)
    requires Suits(p, s) && i < |s.parts| && y < s.parts[i].mcuHeight && x < s.parts[i].mcuWidth
    ensures var mcu, w := McuOf(p, s, t, yoffset, col), s.parts[i].mcuWidth;
      && |mcu| == BlocksBefore(s.parts, |s.parts|) && BlocksBefore(s.parts, i) + (Times(y, w) + x) < |mcu|
      && mcu[BlocksBefore(s.parts, i) + (Times(y, w) + x)]
         == Padded(p, s.parts[i].index, t, yoffset + y, Times(col, w) + x)
  {
    hide Part, Parts, Times, Padded, BlocksBefore;
    var h, w := s.parts[i].mcuHeight, s.parts[i].mcuWidth;
    PartAt(p, s, i, t, yoffset, col, h, y, x);
    PartLength(p, s, i, t, yoffset, col, h);
    PartsLength(p, s, t, yoffset, col, |s.parts|);
    PartsAt(p, s, t, yoffset, col, |s.parts|, i, Times(y, w) + x);
  }

  // ---------------------------------------------------------------- MCUs of a scan

  /** The number of MCUs before a place. */
  lemma Number(p: Picture, s: Setup, t: nat, yoffset: nat, col: nat)
    requires Suits(p, s) && s.parts != [] && t < p.frame.TotalIMcuRows()
    requires yoffset < RowsPerIMcuRow(p.frame, s, t) && col < s.mcusPerRow
    ensures var n := Times(RowsUpto(p.frame, s, t) + yoffset, s.mcusPerRow) + col;
      n < |ScanMcus(p, s)| && ScanMcus(p, s)[n] == McuOf(p, s, t, yoffset, col)
  {
    hide McuOf, RowsPerIMcuRow, ScanPlaces, LinesPlaces, RowsUpto, Times, ScanMcus;
    NextOfScan(p, s, t, yoffset, col);
    PlacesCount(p.frame, s, t);
    LinesCount(s, t, yoffset);
    TimesSum(RowsUpto(p.frame, s, t), yoffset, s.mcusPerRow);
  }

  /** An interleaved scan: MCU number `col` of iMCU row `t` has a cell of each component, as large as its sampling
      factors. */
  lemma InterleavedBlock(p: Picture, comps: seq<nat>, s: Setup, t: nat, col: nat, i: nat, y: nat, x: nat)
    requires SetupFor(p.frame, comps, s) && |comps| > 1 && t < p.frame.TotalIMcuRows() && col < p.frame.MCUsAcross()
    requires i < |comps| && y < p.frame.comps[comps[i]].v && x < p.frame.comps[comps[i]].h
    ensures Suits(p, s) && s.parts != []
    ensures var n, h := Times(t, p.frame.MCUsAcross()) + col, p.frame.comps[comps[i]].h;
      && n < |ScanMcus(p, s)| && BlocksBefore(s.parts, i) + (Times(y, h) + x) < |ScanMcus(p, s)[n]|
      && StandsAt(p, comps[i], t, y, col, x, ScanMcus(p, s)[n][BlocksBefore(s.parts, i) + (Times(y, h) + x)])
  {
    hide McuOf, ScanPlaces, Times, ScanMcus, BlocksBefore, Membership, DivRoundUp, LastPart, Padded, StandsAt;
    assert PartFor(p.frame, false, comps[i], s.parts[i]);
    assert forall j :: 0 <= j < |comps| ==> PartFor(p.frame, false, comps[j], s.parts[j]);
    RowsBefore(p.frame, s, t);
    Number(p, s, t, 0, col);
    McuAt(p, s, t, 0, col, i, y, x);
    PaddedStands(p, comps[i], t, y, col, x);
  }

  /** A scan of one component: its MCUs are the real blocks, row by row, and no others. */
  lemma SingleBlock(p: Picture, comps: seq<nat>, s: Setup, t: nat, y: nat, x: nat)
    requires SetupFor(p.frame, comps, s) && |comps| == 1 && t < p.frame.TotalIMcuRows()
    requires y < p.frame.comps[comps[0]].v && x < p.frame.WidthInBlocks(comps[0])
    requires Times(t, p.frame.comps[comps[0]].v) + y < p.frame.HeightInBlocks(comps[0])
    ensures Suits(p, s) && s.parts != []
    ensures |ScanMcus(p, s)| == p.frame.HeightInBlocks(comps[0]) * p.frame.WidthInBlocks(comps[0])
    ensures var n := Times(Times(t, p.frame.comps[comps[0]].v) + y, p.frame.WidthInBlocks(comps[0])) + x;
      n < |ScanMcus(p, s)| && ScanMcus(p, s)[n] == [p.dct(comps[0], t, y, x)]
  {
    hide McuOf, ScanPlaces, Times, ScanMcus, BlocksBefore, Membership, DivRoundUp, LastPart, RealRows;
    var f := p.frame;
    assert PartFor(f, true, comps[0], s.parts[0]);
    RowIsReal(f, comps[0], t, y);
    SameRows(f, comps, s, t);
    RowsBefore(f, s, t);
    Number(p, s, t, y, x);
    McuCount(p, comps, s);
    McuAt(p, s, t, y, x, 0, 0, 0);
    OneBlockMcu(s.parts);
    TimesOne(x);
  }

  lemma SameRows(f: Frame, comps: seq<nat>, s: Setup, t: nat)
    requires SetupFor(f, comps, s) && |comps| == 1 && t < f.TotalIMcuRows()
    ensures RowsPerIMcuRow(f, s, t) == RealRows(f, comps[0], t)
  {
    hide Membership, DivRoundUp, LastPart;
    assert PartFor(f, true, comps[0], s.parts[0]);
  }

  lemma OneBlockMcu(parts: seq<CompScan>)
    requires |parts| == 1 && parts[0].mcuWidth == 1 && parts[0].mcuHeight == 1
    ensures BlocksBefore(parts, 0) == 0 && BlocksBefore(parts, 1) == 1 && Times(0, 1) == 0
  {
  }

  lemma {:induction false} TimesOne(x: nat)
    ensures Times(x, 1) == x
  {
    if x > 0 {
      TimesOne(x - 1);
    }
  }
}
