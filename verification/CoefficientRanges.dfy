/** Coefficients of 8-bit samples are always within the limits that the coders check, in every kind of scan
    and with every restart interval (section F.1.1.4 of ITU-T T.81). */
module CoefficientRanges {
  import opened BitStrings
  import opened RunLength
  import opened AcRefinement
  import opened AcScans
  import opened Scans
  import opened ScanStreams
  import opened Geometry
  import opened ScanSetups
  import opened Zigzags

  /** A DC coefficient of 11 bits with its sign, AC coefficients of 10 bits and a sign. */
  ghost predicate InRange(z: Block) {
    -1024 <= z[0] <= 1023 && forall k :: 1 <= k < 64 ==> -1023 <= z[k] <= 1023
  }

  ghost predicate AllInRange(mcus: seq<Mcu>) {
    forall i, j :: 0 <= i < |mcus| && 0 <= j < |mcus[i]| ==> InRange(mcus[i][j])
  }

  lemma Categories(v: int)
    ensures -1023 <= v <= 1023 ==> NBits(Abs(v)) <= 10
    ensures -2047 <= v <= 2047 ==> NBits(Abs(v)) <= 11
  {
    assert Pow2(5) == 32 && Pow2(10) == 1024;
    NBitsAtMost(Abs(v), 10);
    NBitsAtMost(Abs(v), 11);
  }

  lemma {:induction false} ShrInRange(v: int, al: nat)
    ensures -1024 <= v <= 1023 ==> -1024 <= Shr(v, al) <= 1023
    ensures 0 <= v <= 1023 ==> 0 <= Shr(v, al) <= 1023
  {
    if al > 0 {
      ShrInRange(v, al - 1);
    }
  }

  lemma BandFits(z: Block, ss: nat, se: nat)
    requires 1 <= ss && se < 64 && InRange(z)
    ensures BandInRange(z, ss, se)
  {
    forall k | ss <= k <= se ensures NBits(Abs(z[k])) <= 10 {
      Categories(z[k]);
    }
  }

  lemma TransformedInRange(z: Block, al: nat)
    requires InRange(z)
    ensures forall k :: 1 <= k < 64 ==> -1023 <= Transformed(z, al)[k] <= 1023
  {
    forall k | 1 <= k < 64 ensures -1023 <= Transformed(z, al)[k] <= 1023 {
      ShrInRange(Abs(z[k]), al);
    }
  }

  lemma AcBlockFits(m: Params, z: Block)
    requires InRange(z)
    ensures BlockInRange(m, z)
  {
    hide NBits;
    TransformedInRange(z, m.al);
    forall k | m.ss <= k <= m.se ensures NBits(Abs(Transformed(z, m.al)[k])) <= 10 {
      Categories(Transformed(z, m.al)[k]);
    }
  }

  /** A prediction is an earlier value sent, or 0. */
  ghost predicate Predictions(last: seq<int>) { forall i :: 0 <= i < |last| ==> -1024 <= last[i] <= 1023 }

  lemma BlockFits(mode: ScanMode, last: int, z: Block)
    requires !mode.Ac? && InRange(z) && -1024 <= last <= 1023
    ensures BlockOk(mode, last, z) && -1024 <= LastAfter(mode, last, z) <= 1023
  {
    hide NBits, BandInRange;
    if mode.DcFirst? {
      ShrInRange(z[0], mode.al);
    }
    Categories(Sent(mode, z) - last);
    BandFits(z, 1, 63);
  }

  lemma {:induction false} BlocksFit(mode: ScanMode, last: seq<int>, mcu: Mcu, j: nat)
    requires !mode.Ac? && |last| == |mode.comps| && j <= |mcu| == |mode.membership|
    requires Predictions(last) && forall i :: 0 <= i < |mcu| ==> InRange(mcu[i])
    ensures BlocksOk(mode, last, mcu, j) && Predictions(BlocksLast(mode, last, mcu, j))
    decreases |mcu| - j
  {
    hide BlockOk, LastAfter, InRange;
    if j < |mcu| {
      var ci := mode.membership[j];
      BlockFits(mode, last[ci], mcu[j]);
      BlocksFit(mode, last[ci := LastAfter(mode, last[ci], mcu[j])], mcu, j + 1);
    }
  }

  lemma {:induction false} IntervalFits(mode: ScanMode, st: Coder, mcus: seq<Mcu>)
    requires Shaped(mode, mcus) && Fitting(mode, st) && AllInRange(mcus) && (mode.Ac? || Predictions(st.last))
    ensures IntervalOk(mode, st, mcus)
    decreases |mcus|
  {
    hide InRange, BlockInRange, BlocksOk, BlocksLast, BlockPending;
    if mcus != [] {
      assert forall j :: 0 <= j < |mcus[0]| ==> InRange(mcus[0][j]);
      if mode.Ac? {
        AcBlockFits(mode.params, mcus[0][0]);
      } else {
        BlocksFit(mode, st.last, mcus[0], 0);
      }
      IntervalFits(mode, McuState(mode, st, mcus[0]), mcus[1..]);
    }
  }

  /** Blocks in range are within the limits, whatever the mode and the restart interval. */
  lemma {:induction false} ScanFits(mode: ScanMode, interval: nat, mcus: seq<Mcu>)
    requires Shaped(mode, mcus) && AllInRange(mcus)
    ensures ScanOk(mode, interval, mcus)
    decreases |mcus|
  {
    hide InRange, IntervalOk, ScanOk;
    FreshOk(mode, interval, mcus);
    if interval == 0 || |mcus| <= interval {
      IntervalFits(mode, FreshCoder(mode), mcus);
    } else {
      IntervalFits(mode, FreshCoder(mode), mcus[..interval]);
      ScanFits(mode, interval, mcus[interval..]);
    }
  }

  // ---------------------------------------------------------------- pictures

  /** Every block the DCT delivers is in range. */
  ghost predicate PictureInRange(p: Picture) {
    forall c: nat, t: nat, y: nat, x: nat :: InRange(p.dct(c, t, y, x))
  }

  /** So are the dummy blocks around them. */
  lemma {:induction false} PaddedInRange(p: Picture, c: nat, t: nat, y: nat, x: nat)
    requires PictureInRange(p) && p.frame.Valid() && c < |p.frame.comps|
    ensures InRange(Padded(p, c, t, y, x))
    decreases y
  {
    hide RealRows, CellEnd;
    if y >= RealRows(p.frame, c, t) && y > 0 {
      PaddedInRange(p, c, t, y - 1, CellEnd(x, p.frame.comps[c].h));
    } else if y < RealRows(p.frame, c, t) && x >= p.frame.WidthInBlocks(c) {
      ComponentGridInRange(p, c, t, y);
    }
  }

  lemma ComponentGridInRange(p: Picture, c: nat, t: nat, y: nat)
    requires PictureInRange(p) && p.frame.Valid() && c < |p.frame.comps|
    ensures p.frame.WidthInBlocks(c) > 0 && InRange(p.dct(c, t, y, p.frame.WidthInBlocks(c) - 1))
  {
    ComponentGrid(p.frame, c);
  }

  lemma {:induction false} PartInRange(p: Picture, s: Setup, i: nat, t: nat, yoffset: nat, col: nat, n: nat)
    requires PictureInRange(p) && Suits(p, s) && i < |s.parts|
    ensures BlocksInRange(Part(p, s, i, t, yoffset, col, n))
  {
    hide InRange, Padded, PictureInRange;
    if n > 0 {
      PartInRange(p, s, i, t, yoffset, col, n - 1);
      var w := s.parts[i].mcuWidth;
      var row := PartRow(p, s, i, t, yoffset + n - 1, col);
      forall x | 0 <= x < w ensures InRange(row[x]) {
        PaddedInRange(p, s.parts[i].index, t, yoffset + n - 1, Times(col, w) + x);
      }
    }
  }

  ghost predicate BlocksInRange(blocks: seq<Block>) { forall j :: 0 <= j < |blocks| ==> InRange(blocks[j]) }

  lemma {:induction false} PartsInRange(p: Picture, s: Setup, t: nat, yoffset: nat, col: nat, n: nat)
    requires PictureInRange(p) && Suits(p, s) && n <= |s.parts|
    ensures BlocksInRange(Parts(p, s, t, yoffset, col, n))
  {
    hide InRange, Part, PictureInRange;
    if n > 0 {
      PartsInRange(p, s, t, yoffset, col, n - 1);
      PartInRange(p, s, n - 1, t, yoffset, col, s.parts[n - 1].mcuHeight);
    }
  }

  lemma ZigzagInRange(order: seq<nat>, z: Block)
    requires IsOrder(order) && InRange(z)
    ensures InRange(Zigzag(order, z))
  {
    forall k | 1 <= k < 64 ensures -1023 <= Zigzag(order, z)[k] <= 1023 {
      assert order[0] != order[k];
    }
  }

  /** Of a picture in range every scan is within the limits. */
  lemma PictureFits(p: Picture, s: Setup, mode: ScanMode, interval: nat, order: seq<nat>)
    requires PictureInRange(p) && Suits(p, s) && s.parts != [] && IsOrder(order)
    requires Shaped(mode, ZigzagScan(order, ScanMcus(p, s)))
    ensures ScanOk(mode, interval, ZigzagScan(order, ScanMcus(p, s)))
  {
    hide PictureInRange, IsOrder, InRange, ScanOk, Zigzag, Parts, ScanPlaces;
    var mcus := ScanMcus(p, s);
    var places := ScanPlaces(p.frame, s, p.frame.TotalIMcuRows());
    forall i, j | 0 <= i < |mcus| && 0 <= j < |mcus[i]| ensures InRange(ZigzagScan(order, mcus)[i][j]) {
      PartsInRange(p, s, places[i].t, places[i].yoffset, places[i].col, |s.parts|);
      assert InRange(mcus[i][j]);
      ZigzagInRange(order, mcus[i][j]);
    }
    ScanFits(mode, interval, ZigzagScan(order, mcus));
  }
}
