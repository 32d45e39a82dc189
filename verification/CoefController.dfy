/** The coefficient controller (`jccoefct.c`): with a strip buffer or a full image buffer, it hands the
    entropy coder the same MCUs, dummy blocks included, however often the coder suspends. */
module CoefControl {
  import opened BitOutput
  import opened RunLength
  import opened Geometry
  import opened McuSinks
  import opened ScanSetups

  /** The dimensions of a component's virtual array: whole MCUs. */
  ghost predicate SizedFor(f: Frame, c: nat, a: array2<Block>)
    requires f.Valid() && c < |f.comps|
  {
    && a.Length0 == RoundUp(f.HeightInBlocks(c), f.comps[c].v)
    && a.Length1 == RoundUp(f.WidthInBlocks(c), f.comps[c].h)
  }

  /** Block row `y` of iMCU row `t` of component `c` is in the virtual array, dummy blocks included. */
  ghost predicate StoredRow(p: Picture, a: array2<Block>, c: nat, t: nat, y: nat)
    requires p.frame.Valid() && c < |p.frame.comps|
    reads a
  {
    var f := p.frame;
    && Times(t, f.comps[c].v) + y < a.Length0 && Times(f.MCUsAcross(), f.comps[c].h) == a.Length1
    && forall x :: 0 <= x < a.Length1 ==> a[Times(t, f.comps[c].v) + y, x] == Padded(p, c, t, y, x)
  }

  /** The arrays of an image: one for each component, in whole MCUs. */
  ghost predicate ArraysFor(f: Frame, whole: seq<array2<Block>>) {
    && f.Valid() && |whole| == |f.comps|
    && (forall c :: 0 <= c < |whole| ==> SizedFor(f, c, whole[c]))
    && (forall c, d :: 0 <= c < d < |whole| ==> whole[c] != whole[d])
  }

  /** The whole picture is in them. */
  ghost predicate Stored(p: Picture, whole: seq<array2<Block>>)
    requires ArraysFor(p.frame, whole)
    reads whole
  {
    forall c, t, y :: 0 <= c < |whole| && 0 <= t < p.frame.TotalIMcuRows() && 0 <= y < p.frame.comps[c].v ==>
      StoredRow(p, whole[c], c, t, y)
  }

  class CoefController {
    const p: Picture
    const comps: seq<nat>
    const s: Setup
    const sink: McuSink
    /** `MCU_buffer`, and the virtual arrays of the full-image mode (none in the other mode). */
    const mcuBuffer: array<Block>
    const wholeImage: seq<array2<Block>>
    var iMcuRowNum: nat
    var mcuCtr: nat
    var mcuVertOffset: nat
    var mcuRowsPerIMcuRow: nat

    /** `start_pass_coef`, for a scan that has been set up. */
    constructor (p: Picture, comps: seq<nat>, s: Setup, sink: McuSink, wholeImage: seq<array2<Block>>)
      requires SetupFor(p.frame, comps, s) && sink.Valid() && sink.log == []
      requires sink.Expects(|Membership(s.parts, |s.parts|)|)
      ensures Valid() && iMcuRowNum == 0 && mcuVertOffset == 0 && mcuCtr == 0
      ensures this.p == p && this.comps == comps && this.s == s && this.sink == sink && this.wholeImage == wholeImage
      ensures fresh(mcuBuffer)
    {
      this.p, this.comps, this.s, this.sink, this.wholeImage := p, comps, s, sink, wholeImage;
      mcuBuffer := new Block[C_MAX_BLOCKS_IN_MCU];
      iMcuRowNum := 0;
      new;
      SuitsSetup(p, comps, s);
      StartIMcuRow();
      UptoSteps(p, s, 0, 0, 0);
    }

    ghost predicate Setting()
    {
      && SetupFor(p.frame, comps, s) && Suits(p, s) && s.parts != []
      && mcuBuffer.Length == C_MAX_BLOCKS_IN_MCU && sink.Expects(|Membership(s.parts, |s.parts|)|)
    }

    /** The coder has accepted exactly the MCUs before the position of the counters. */
    ghost predicate Valid()
      reads this, sink.Repr()
    {
      && Setting() && sink.Valid()
      && iMcuRowNum <= p.frame.TotalIMcuRows()
      && mcuRowsPerIMcuRow == RowsPerIMcuRow(p.frame, s, iMcuRowNum)
      && mcuVertOffset < mcuRowsPerIMcuRow && mcuCtr <= s.mcusPerRow
      && sink.log == Upto(p, s, iMcuRowNum, mcuVertOffset, mcuCtr)
    }

    /** The virtual arrays have the dimensions of whole MCUs. */
    ghost predicate Allocated()
    {
      && p.frame.Valid() && |wholeImage| == |p.frame.comps|
      && (forall c :: 0 <= c < |wholeImage| ==> ArrayFor(c))
      && (forall c, d :: 0 <= c < d < |wholeImage| ==> wholeImage[c] != wholeImage[d])
    }

    ghost predicate ArrayFor(c: nat)
      requires c < |wholeImage| && p.frame.Valid() && |wholeImage| == |p.frame.comps|
    {
      SizedFor(p.frame, c, wholeImage[c])
    }

    /** `start_iMCU_row`. */
    method StartIMcuRow()
      requires Setting()
      modifies this`mcuRowsPerIMcuRow, this`mcuCtr, this`mcuVertOffset
      ensures mcuRowsPerIMcuRow == RowsPerIMcuRow(p.frame, s, iMcuRowNum) > 0 && mcuCtr == 0 && mcuVertOffset == 0
    {
      ComponentGrid(p.frame, comps[0]);
      assert PartFor(p.frame, |comps| == 1, comps[0], s.parts[0]);
      if |s.parts| > 1 {
        mcuRowsPerIMcuRow := 1;
      } else if iMcuRowNum < p.frame.TotalIMcuRows() - 1 {
        mcuRowsPerIMcuRow := p.frame.comps[s.parts[0].index].v;
      } else {
        mcuRowsPerIMcuRow := s.parts[0].lastRowHeight;
      }
      mcuCtr, mcuVertOffset := 0, 0;
    }

    /** What a completed MCU row or iMCU row leaves. */
    method FinishIMcuRow()
      requires Setting() && iMcuRowNum < p.frame.TotalIMcuRows()
      requires sink.Valid() && sink.log == Upto(p, s, iMcuRowNum, RowsPerIMcuRow(p.frame, s, iMcuRowNum), 0)
      modifies this`iMcuRowNum, this`mcuRowsPerIMcuRow, this`mcuCtr, this`mcuVertOffset
      ensures Valid() && iMcuRowNum == old(iMcuRowNum) + 1 && mcuCtr == 0 && mcuVertOffset == 0
    {
      hide Upto, SetupFor, RowsPerIMcuRow, Membership;
      UptoSteps(p, s, iMcuRowNum, 0, 0);
      iMcuRowNum := iMcuRowNum + 1;
      StartIMcuRow();
    }

    /** The coder has accepted the MCUs before MCU `col` of MCU row `yoffset` of the current iMCU row. */
    ghost predicate At(yoffset: nat, col: nat)
      reads this, sink.Repr()
    {
      && Setting() && sink.Valid() && iMcuRowNum < p.frame.TotalIMcuRows()
      && yoffset < RowsPerIMcuRow(p.frame, s, iMcuRowNum) && col < s.mcusPerRow
      && sink.log == Upto(p, s, iMcuRowNum, yoffset, col)
    }

    /** It has just refused that MCU. */
    ghost predicate RefusedAt(yoffset: nat, col: nat)
      reads this, sink.Repr()
    {
      && At(yoffset, col)
      && (PartsSize(p, s, iMcuRowNum, yoffset, col, |s.parts|); sink.Refused(McuOf(p, s, iMcuRowNum, yoffset, col)))
    }

    /** That MCU cannot be coded. */
    ghost predicate FailedAt(yoffset: nat, col: nat)
      reads this, sink.Repr()
    {
      && At(yoffset, col)
      && (PartsSize(p, s, iMcuRowNum, yoffset, col, |s.parts|); sink.Impossible(McuOf(p, s, iMcuRowNum, yoffset, col)))
    }

    /** The MCU in the buffer goes to the coder. If the coder suspends, the counters stay there. */
    method HandOver(blkn: nat, yoffset: nat, col: nat) returns (r: Outcome)
      requires At(yoffset, col)
      requires blkn <= mcuBuffer.Length && mcuBuffer[..blkn] == McuOf(p, s, iMcuRowNum, yoffset, col)
      modifies this`mcuVertOffset, this`mcuCtr, sink.Repr()
      ensures r.Ok? ==> sink.Valid() && sink.log == Upto(p, s, iMcuRowNum, yoffset, col + 1)
      ensures r.Suspended? ==> mcuVertOffset == yoffset && mcuCtr == col && RefusedAt(yoffset, col)
      ensures r.Error? ==> FailedAt(yoffset, col)
      ensures sink.Budget() == old(sink.Budget()) && old(sink.log) <= sink.log
    {
      hide McuOf, Upto, SetupFor, RowsPerIMcuRow, McuSink.Valid, McuSink.Refused, McuSink.Impossible, Membership;
      PartsSize(p, s, iMcuRowNum, yoffset, col, |s.parts|);
      assert McuOf(p, s, iMcuRowNum, yoffset, col) == Parts(p, s, iMcuRowNum, yoffset, col, |s.parts|) by {
        McuIsParts(p, s, iMcuRowNum, yoffset, col);
      }
      UptoSteps(p, s, iMcuRowNum, yoffset, col);
      r := sink.EncodeMcu(mcuBuffer[..blkn]);
      if r == Suspended {
        mcuVertOffset, mcuCtr := yoffset, col;
      }
    }

    // ---------------------------------------------------------------- the pass-through mode

    /** The buffer holds `blocks` from `at` on, and what it held before below. */
    twostate predicate Placed(at: nat, blocks: seq<Block>)
      reads this, mcuBuffer
    {
      && at + |blocks| <= mcuBuffer.Length
      && (forall k :: 0 <= k < at ==> mcuBuffer[k] == old(mcuBuffer[k]))
      && (forall k :: at <= k < at + |blocks| ==> mcuBuffer[k] == blocks[k - at])
    }

    /** `forward_DCT`: `n` blocks of a block row from column `xpos` on. */
    method ForwardDct(c: nat, t: nat, y: nat, xpos: nat, at: nat, n: nat, ghost row: seq<Block>)
      requires at + n <= mcuBuffer.Length && n <= |row|
      requires forall x :: 0 <= x < n ==> row[x] == p.dct(c, t, y, xpos + x)
      modifies mcuBuffer
      ensures Placed(at, row[..n])
    {
      for k := 0 to n
        invariant Placed(at, row[..k])
      {
        mcuBuffer[at + k] := p.dct(c, t, y, xpos + k);
      }
    }

    /** One row of blocks of one component in an MCU: DCT, and dummy blocks at the right edge. */
    method TransformRow(i: nat, t: nat, y: nat, col: nat, blkn: nat)
      requires Setting() && i < |s.parts| && col < s.mcusPerRow && blkn + s.parts[i].mcuWidth <= C_MAX_BLOCKS_IN_MCU
      requires y < RealRows(p.frame, s.parts[i].index, t)
      modifies mcuBuffer
      ensures Placed(blkn, PartRow(p, s, i, t, y, col))
    {
      hide PartRow, Dummy, Padded, RealRows;
      var part := s.parts[i];
      var blockcnt := if col < s.mcusPerRow - 1 then part.mcuWidth else part.lastColWidth;
      RealPart(p, comps, s, i, t, y, col);
      ghost var row := PartRow(p, s, i, t, y, col);
      ForwardDct(part.index, t, y, col * part.mcuWidth, blkn, blockcnt, row);
      assert forall k :: blkn <= k < blkn + blockcnt ==> mcuBuffer[k] == row[..blockcnt][k - blkn];
      DummyEnd(blkn, blockcnt, part.mcuWidth, row);
    }

    /** Dummy blocks up to the end of a row: each with the DC value of the block before it. */
    method DummyEnd(blkn: nat, from: nat, to: nat, ghost row: seq<Block>)
      requires 0 < from <= to == |row| && blkn + to <= mcuBuffer.Length
      requires forall k :: blkn <= k < blkn + from ==> mcuBuffer[k] == row[k - blkn]
      requires forall x :: from <= x < to ==> row[x] == Dummy(row[x - 1][0])
      modifies mcuBuffer
      ensures Placed(blkn, row)
    {
      hide Dummy;
      for bi := from to to
        invariant Placed(blkn, row[..bi])
      {
        assert mcuBuffer[blkn + bi - 1] == row[..bi][bi - 1];
        mcuBuffer[blkn + bi] := Dummy(mcuBuffer[blkn + bi - 1][0]);
      }
      assert row[..to] == row;
    }

    /** One row of dummy blocks at the bottom edge, below row `above` of the same MCU. */
    method DummyRow(i: nat, t: nat, y: nat, col: nat, blkn: nat)
      requires Setting() && i < |s.parts| && |s.parts| > 1 && col < s.mcusPerRow
      requires blkn + s.parts[i].mcuWidth <= C_MAX_BLOCKS_IN_MCU
      requires y >= RealRows(p.frame, s.parts[i].index, t) && y > 0
      requires blkn > 0 && s.parts[i].mcuWidth > 0
      requires mcuBuffer[blkn - 1] == PartRow(p, s, i, t, y - 1, col)[s.parts[i].mcuWidth - 1]
      modifies mcuBuffer
      ensures Placed(blkn, PartRow(p, s, i, t, y, col))
    {
      var w := s.parts[i].mcuWidth;
      DummyPart(p, comps, s, i, t, y, col);
      ghost var row := PartRow(p, s, i, t, y, col);
      hide Setting, PartRow, Dummy;
      for bi := 0 to w
        invariant Placed(blkn, row[..bi])
      {
        mcuBuffer[blkn + bi] := Dummy(mcuBuffer[blkn - 1][0]);
      }
      assert row[..w] == row;
    }

    /** Block row `yindex` of one component in an MCU: real, or at the bottom edge dummy. */
    method TransformOrPad(i: nat, yoffset: nat, yindex: nat, col: nat, blkn: nat)
      requires Setting() && i < |s.parts| && col < s.mcusPerRow && iMcuRowNum < p.frame.TotalIMcuRows()
      requires yoffset < RowsPerIMcuRow(p.frame, s, iMcuRowNum) && yindex < s.parts[i].mcuHeight
      requires blkn + s.parts[i].mcuWidth <= C_MAX_BLOCKS_IN_MCU
      requires yindex > 0 ==> Follows(i, yoffset + yindex - 1, col, blkn)
      modifies mcuBuffer
      ensures Placed(blkn, PartRow(p, s, i, iMcuRowNum, yoffset + yindex, col))
      ensures Follows(i, yoffset + yindex, col, blkn + s.parts[i].mcuWidth)
    {
      hide PartRow, Padded, RealRows, RowsPerIMcuRow;
      ghost var row := PartRow(p, s, i, iMcuRowNum, yoffset + yindex, col);
      WhichRows(p, comps, s, i, iMcuRowNum, yoffset, yindex);
      if iMcuRowNum < p.frame.TotalIMcuRows() - 1 || yoffset + yindex < s.parts[i].lastRowHeight {
        TransformRow(i, iMcuRowNum, yoffset + yindex, col, blkn);
      } else {
        DummyRow(i, iMcuRowNum, yoffset + yindex, col, blkn);
      }
      assert mcuBuffer[blkn + s.parts[i].mcuWidth - 1] == row[s.parts[i].mcuWidth - 1];
    }

    /** The block before `blkn` is the last of row `y`. */
    ghost predicate Follows(i: nat, y: nat, col: nat, blkn: nat)
      requires Suits(p, s) && i < |s.parts|
      reads this, mcuBuffer
    {
      && s.parts[i].mcuWidth > 0 && 0 < blkn <= mcuBuffer.Length
      && mcuBuffer[blkn - 1] == PartRow(p, s, i, iMcuRowNum, y, col)[s.parts[i].mcuWidth - 1]
    }

    /** The blocks of one component in an MCU. */
    method TransformPart(i: nat, yoffset: nat, col: nat, blkn0: nat) returns (blkn: nat)
      requires Setting() && i < |s.parts| && col < s.mcusPerRow && iMcuRowNum < p.frame.TotalIMcuRows()
      requires yoffset < RowsPerIMcuRow(p.frame, s, iMcuRowNum)
      requires blkn0 + s.parts[i].mcuHeight * s.parts[i].mcuWidth <= C_MAX_BLOCKS_IN_MCU
      modifies mcuBuffer
      ensures Placed(blkn0, Part(p, s, i, iMcuRowNum, yoffset, col, s.parts[i].mcuHeight))
      ensures blkn == blkn0 + |Part(p, s, i, iMcuRowNum, yoffset, col, s.parts[i].mcuHeight)|
    {
      hide PartRow, Part, Padded, RowsPerIMcuRow, Follows;
      var part := s.parts[i];
      blkn := blkn0;
      PartNext(p, s, i, iMcuRowNum, yoffset, col, 0, part.mcuHeight);
      for yindex := 0 to part.mcuHeight
        invariant blkn == blkn0 + yindex * part.mcuWidth
        invariant yindex > 0 ==> Follows(i, yoffset + yindex - 1, col, blkn)
        invariant Placed(blkn0, Part(p, s, i, iMcuRowNum, yoffset, col, yindex))
      {
        PartNext(p, s, i, iMcuRowNum, yoffset, col, yindex, part.mcuHeight);
        TransformOrPad(i, yoffset, yindex, col, blkn);
        blkn := blkn + part.mcuWidth;
      }
      PartSize(p, s, i, iMcuRowNum, yoffset, col, part.mcuHeight, part.mcuHeight);
    }

    /** One MCU: the blocks of every component. */
    method TransformMcu(yoffset: nat, col: nat) returns (blkn: nat)
      requires Setting() && col < s.mcusPerRow && iMcuRowNum < p.frame.TotalIMcuRows()
      requires yoffset < RowsPerIMcuRow(p.frame, s, iMcuRowNum)
      modifies mcuBuffer
      ensures blkn <= mcuBuffer.Length && mcuBuffer[..blkn] == McuOf(p, s, iMcuRowNum, yoffset, col)
    {
      hide Part, RowsPerIMcuRow, Parts, SetupFor, Suits;
      blkn := 0;
      PartsNext(p, comps, s, iMcuRowNum, yoffset, col, 0);
      for ci := 0 to |s.parts|
        invariant Placed(0, Parts(p, s, iMcuRowNum, yoffset, col, ci))
        invariant blkn == |Parts(p, s, iMcuRowNum, yoffset, col, ci)|
      {
        PartsNext(p, comps, s, iMcuRowNum, yoffset, col, ci);
        blkn := TransformPart(ci, yoffset, col, blkn);
      }
    }

    /** `compress_data`: one iMCU row straight from the DCT. When the coder suspends, the counters stay at
        the refused MCU. */
    method CompressData() returns (r: Outcome)
      requires Valid() && iMcuRowNum < p.frame.TotalIMcuRows()
      modifies this, sink.Repr(), mcuBuffer
      ensures !r.Error? ==> Valid() && iMcuRowNum == old(iMcuRowNum) + (if r.Ok? then 1 else 0)
      ensures r.Ok? ==> mcuVertOffset == 0 && mcuCtr == 0
      ensures r.Suspended? ==> RefusedAt(mcuVertOffset, mcuCtr)
      ensures r.Error? ==> exists y: nat, col: nat :: FailedAt(y, col)
      ensures sink.Budget() == old(sink.Budget()) && old(sink.log) <= sink.log
    {
      hide McuOf, Upto, SetupFor, RowsPerIMcuRow, McuSink.Valid, McuSink.Refused, McuSink.Impossible, McuSink.Budget;
      ghost var t := iMcuRowNum;
      var yoffset := mcuVertOffset;
      while yoffset < mcuRowsPerIMcuRow
        invariant Setting() && iMcuRowNum == t && mcuRowsPerIMcuRow == RowsPerIMcuRow(p.frame, s, t)
        invariant yoffset <= mcuRowsPerIMcuRow && mcuCtr <= s.mcusPerRow
        invariant yoffset == mcuRowsPerIMcuRow ==> mcuCtr == 0
        invariant sink.log == Upto(p, s, t, yoffset, mcuCtr)
        invariant sink.Valid() && sink.Budget() == old(sink.Budget()) && old(sink.log) <= sink.log
      {
        var col := mcuCtr;
        while col < s.mcusPerRow
          invariant Setting() && iMcuRowNum == t && mcuRowsPerIMcuRow == RowsPerIMcuRow(p.frame, s, t)
          invariant col <= s.mcusPerRow && sink.log == Upto(p, s, t, yoffset, col)
          invariant sink.Valid() && sink.Budget() == old(sink.Budget()) && old(sink.log) <= sink.log
        {
          var blkn := TransformMcu(yoffset, col);
          r := HandOver(blkn, yoffset, col);
          if r != Ok {
            return;
          }
          col := col + 1;
        }
        UptoSteps(p, s, t, yoffset, 0);
        mcuCtr := 0;
        yoffset := yoffset + 1;
      }
      FinishIMcuRow();
      r := Ok;
    }

    // ---------------------------------------------------------------- the full-image mode

    /** Row by row, what is in the virtual arrays of this controller. */
    ghost predicate RowSaved(c: nat, t: nat, y: nat)
      requires Allocated() && c < |wholeImage|
      reads wholeImage[c]
    {
      StoredRow(p, wholeImage[c], c, t, y)
    }

    ghost predicate StripSaved(c: nat, t: nat)
      requires Allocated() && c < |wholeImage|
      reads wholeImage[c]
    {
      forall y :: 0 <= y < p.frame.comps[c].v ==> RowSaved(c, t, y)
    }

    /** One block row with real blocks: DCT of all of them, dummy blocks up to a whole MCU. */
    method SaveRealRow(c: nat, t: nat, y: nat, row: nat)
      requires Allocated() && c < |wholeImage| && row == Times(t, p.frame.comps[c].v) + y < wholeImage[c].Length0
      requires y < RealRows(p.frame, c, t)
      modifies wholeImage[c]
      ensures RowSaved(c, t, y)
      ensures forall u: nat, k: nat :: Times(u, p.frame.comps[c].v) + k != row && old(RowSaved(c, u, k)) ==>
          RowSaved(c, u, k)
    {
      hide RealRows, Times, DivRoundUp, RoundUp;
      var a := wholeImage[c];
      var blocksAcross, h := p.frame.WidthInBlocks(c), p.frame.comps[c].h;
      var ndummy := blocksAcross % h;
      if ndummy > 0 {
        ndummy := h - ndummy;
      }
      RowLength(p.frame, c);
      assert ArrayFor(c);
      for x := 0 to blocksAcross
        invariant forall k :: 0 <= k < x ==> a[row, k] == Padded(p, c, t, y, k)
        invariant forall r, k :: 0 <= r < a.Length0 && 0 <= k < a.Length1 && r != row ==> a[r, k] == old(a[r, k])
      {
        a[row, x] := p.dct(c, t, y, x);
      }
      var lastDC := a[row, blocksAcross - 1][0];
      for bi := 0 to ndummy
        invariant forall k :: 0 <= k < blocksAcross + bi ==> a[row, k] == Padded(p, c, t, y, k)
        invariant forall r, k :: 0 <= r < a.Length0 && 0 <= k < a.Length1 && r != row ==> a[r, k] == old(a[r, k])
      {
        a[row, blocksAcross + bi] := Dummy(lastDC);
      }
    }

    /** One dummy block row at the bottom: within each MCU the DC value of the last block above. */
    method SaveDummyRow(c: nat, t: nat, y: nat, row: nat)
      requires Allocated() && c < |wholeImage| && row == Times(t, p.frame.comps[c].v) + y < wholeImage[c].Length0
      requires y >= RealRows(p.frame, c, t) && y > 0 && RowSaved(c, t, y - 1)
      modifies wholeImage[c]
      ensures RowSaved(c, t, y)
      ensures forall u: nat, k: nat :: Times(u, p.frame.comps[c].v) + k != row && old(RowSaved(c, u, k)) ==>
          RowSaved(c, u, k)
    {
      hide RealRows, DivRoundUp, RoundUp;
      var a := wholeImage[c];
      var h := p.frame.comps[c].h;
      var mcusAcross := p.frame.MCUsAcross();
      for idx := 0 to mcusAcross
        invariant Times(idx, h) <= a.Length1
        invariant forall k :: 0 <= k < Times(idx, h) ==> a[row, k] == Padded(p, c, t, y, k)
        invariant forall r, k :: 0 <= r < a.Length0 && 0 <= k < a.Length1 && r != row ==> a[r, k] == old(a[r, k])
      {
        TimesMono(idx + 1, mcusAcross, h);
        SaveDummyCell(c, t, y, row, idx);
      }
    }

    /** The part of one MCU in it. */
    method SaveDummyCell(c: nat, t: nat, y: nat, row: nat, idx: nat)
      requires Allocated() && c < |wholeImage| && row == Times(t, p.frame.comps[c].v) + y < wholeImage[c].Length0
      requires y >= RealRows(p.frame, c, t) && y > 0 && RowSaved(c, t, y - 1)
      requires Times(idx + 1, p.frame.comps[c].h) <= wholeImage[c].Length1
      modifies wholeImage[c]
      ensures RowSaved(c, t, y - 1)
      ensures forall k :: Times(idx, p.frame.comps[c].h) <= k < Times(idx + 1, p.frame.comps[c].h) ==>
        wholeImage[c][row, k] == Padded(p, c, t, y, k)
      ensures forall r, k :: 0 <= r < wholeImage[c].Length0 && 0 <= k < wholeImage[c].Length1 ==>
        r != row || k < Times(idx, p.frame.comps[c].h) ==> wholeImage[c][r, k] == old(wholeImage[c][r, k])
    {
      hide RealRows, DivRoundUp, RoundUp;
      var a, h := wholeImage[c], p.frame.comps[c].h;
      ghost var start := Times(idx, h);
      TimesProduct(idx, h);
      var lastDC := a[row - 1, idx * h + h - 1][0];
      for bi := 0 to h
        invariant forall k :: start <= k < start + bi ==> a[row, k] == Padded(p, c, t, y, k)
        invariant forall r, k :: 0 <= r < a.Length0 && 0 <= k < a.Length1 && (r != row || k < start) ==>
          a[r, k] == old(a[r, k])
      {
        CellOf(idx, bi, h);
        a[row, idx * h + bi] := Dummy(lastDC);
      }
    }

    /** The rows of the current strip that have real blocks. */
    method SaveRealRows(c: nat, top: nat, blockRows: nat)
      requires Allocated() && c < |wholeImage| && top == Times(iMcuRowNum, p.frame.comps[c].v)
      requires blockRows == RealRows(p.frame, c, iMcuRowNum) && top + blockRows <= wholeImage[c].Length0
      modifies wholeImage[c]
      ensures forall k :: 0 <= k < blockRows ==> RowSaved(c, iMcuRowNum, k)
      ensures forall u: nat, k: nat :: Times(u, p.frame.comps[c].v) + k < top && old(RowSaved(c, u, k)) ==>
          RowSaved(c, u, k)
    {
      hide RowSaved, Times, RealRows;
      for y := 0 to blockRows
        invariant forall k :: 0 <= k < y ==> RowSaved(c, iMcuRowNum, k)
        invariant forall u: nat, k: nat :: Times(u, p.frame.comps[c].v) + k < top && old(RowSaved(c, u, k)) ==>
            RowSaved(c, u, k)
      {
        SaveRealRow(c, iMcuRowNum, y, top + y);
      }
    }

    /** The dummy rows below them. */
    method SaveDummyRows(c: nat, top: nat, blockRows: nat)
      requires Allocated() && c < |wholeImage| && top == Times(iMcuRowNum, p.frame.comps[c].v)
      requires blockRows == RealRows(p.frame, c, iMcuRowNum) > 0 && top + p.frame.comps[c].v <= wholeImage[c].Length0
      requires forall k :: 0 <= k < blockRows ==> RowSaved(c, iMcuRowNum, k)
      modifies wholeImage[c]
      ensures StripSaved(c, iMcuRowNum)
      ensures forall u: nat, k: nat :: Times(u, p.frame.comps[c].v) + k < top && old(RowSaved(c, u, k)) ==>
          RowSaved(c, u, k)
    {
      hide RowSaved, Times, RealRows;
      var v := p.frame.comps[c].v;
      if blockRows < v {
        for y := blockRows to v
          invariant forall k :: 0 <= k < y ==> RowSaved(c, iMcuRowNum, k)
          invariant forall u: nat, k: nat :: Times(u, p.frame.comps[c].v) + k < top && old(RowSaved(c, u, k)) ==>
              RowSaved(c, u, k)
        {
          SaveDummyRow(c, iMcuRowNum, y, top + y);
        }
      }
    }

    /** The current strip of one component. */
    method SaveStrip(c: nat)
      requires Allocated() && c < |wholeImage| && iMcuRowNum < p.frame.TotalIMcuRows()
      modifies wholeImage[c]
      ensures StripSaved(c, iMcuRowNum)
      ensures forall t :: 0 <= t < iMcuRowNum && old(StripSaved(c, t)) ==> StripSaved(c, t)
    {
      hide DivRoundUp, RoundUp, Times, LastPart, Padded, RowSaved;
      var v := p.frame.comps[c].v;
      var blockRows := v;
      if iMcuRowNum >= p.frame.TotalIMcuRows() - 1 {
        blockRows := p.frame.HeightInBlocks(c) % v;
        if blockRows == 0 {
          blockRows := v;
        }
      }
      StripRows(p.frame, c, iMcuRowNum);
      assert ArrayFor(c);
      TimesProduct(iMcuRowNum, v);
      SaveRealRows(c, iMcuRowNum * v, blockRows);
      if iMcuRowNum == p.frame.TotalIMcuRows() - 1 {
        SaveDummyRows(c, iMcuRowNum * v, blockRows);
      }
      forall t | 0 <= t < iMcuRowNum && old(StripSaved(c, t)) ensures StripSaved(c, t) {
        TimesMono(t + 1, iMcuRowNum, v);
        TimesNext(t, v);
        forall y | 0 <= y < v ensures RowSaved(c, t, y) {
          assert old(RowSaved(c, t, y));
        }
      }
    }

    /** All strips before iMCU row `n`, of all components, are in the virtual arrays. */
    ghost predicate Saved(n: nat)
      requires Allocated()
      reads wholeImage
    {
      forall c, t :: 0 <= c < |wholeImage| && 0 <= t < n ==> StripSaved(c, t)
    }

    /** So, for all of them, the whole picture is there for any later pass. */
    lemma SavedIsStored()
      requires ArraysFor(p.frame, wholeImage)
      ensures Allocated() && (Saved(p.frame.TotalIMcuRows()) <==> Stored(p, wholeImage))
    {
      hide StoredRow;
      forall c | 0 <= c < |wholeImage| ensures ArrayFor(c) {
      }
      if Saved(p.frame.TotalIMcuRows()) {
        forall c, t, y | 0 <= c < |wholeImage| && 0 <= t < p.frame.TotalIMcuRows() && 0 <= y < p.frame.comps[c].v
          ensures StoredRow(p, wholeImage[c], c, t, y)
        {
          assert StripSaved(c, t);
          assert RowSaved(c, t, y);
        }
      }
      if Stored(p, wholeImage) {
        forall c, t | 0 <= c < |wholeImage| && 0 <= t < p.frame.TotalIMcuRows() ensures StripSaved(c, t) {
          forall y | 0 <= y < p.frame.comps[c].v ensures RowSaved(c, t, y) {
            assert StoredRow(p, wholeImage[c], c, t, y);
          }
        }
      }
    }

    /** The first part of `compress_first_pass`: the strip of every component of the image, whether or not
        the scan includes it. */
    method SaveStrips()
      requires Allocated() && iMcuRowNum < p.frame.TotalIMcuRows() && Saved(iMcuRowNum)
      modifies wholeImage
      ensures Saved(iMcuRowNum + 1)
    {
      hide StripSaved;
      for ci := 0 to |wholeImage|
        invariant forall c :: 0 <= c < ci ==> StripSaved(c, iMcuRowNum)
        invariant Saved(iMcuRowNum)
      {
        SaveStrip(ci);
      }
    }

    /** One row of blocks of one component in an MCU, from the virtual array. */
    method CollectRow(i: nat, yoffset: nat, yindex: nat, col: nat, blkn: nat)
      requires Setting() && Allocated() && i < |s.parts| && col < s.mcusPerRow && iMcuRowNum < p.frame.TotalIMcuRows()
      requires yoffset < RowsPerIMcuRow(p.frame, s, iMcuRowNum) && yindex < s.parts[i].mcuHeight
      requires blkn + s.parts[i].mcuWidth <= C_MAX_BLOCKS_IN_MCU && StripSaved(s.parts[i].index, iMcuRowNum)
      modifies mcuBuffer
      ensures Placed(blkn, PartRow(p, s, i, iMcuRowNum, yoffset + yindex, col))
    {
      hide DivRoundUp, RoundUp, Padded, Times, RowsPerIMcuRow, RealRows, Membership;
      var part := s.parts[i];
      var c := part.index;
      CellInside(p, comps, s, i, iMcuRowNum, yoffset, yindex, col);
      assert RowSaved(c, iMcuRowNum, yoffset + yindex);
      TimesProduct(iMcuRowNum, p.frame.comps[c].v);
      TimesProduct(col, part.mcuWidth);
      var row, startCol := iMcuRowNum * p.frame.comps[c].v + (yindex + yoffset), col * part.mcuWidth;
      ghost var blocks := PartRow(p, s, i, iMcuRowNum, yoffset + yindex, col);
      for xindex := 0 to part.mcuWidth
        invariant Placed(blkn, blocks[..xindex])
      {
        mcuBuffer[blkn + xindex] := wholeImage[c][row, startCol + xindex];
      }
      assert blocks[..part.mcuWidth] == blocks;
    }

    /** All blocks of one component in an MCU. */
    method CollectPart(i: nat, yoffset: nat, col: nat, blkn0: nat) returns (blkn: nat)
      requires Setting() && Allocated() && i < |s.parts| && col < s.mcusPerRow && iMcuRowNum < p.frame.TotalIMcuRows()
      requires yoffset < RowsPerIMcuRow(p.frame, s, iMcuRowNum) && StripSaved(s.parts[i].index, iMcuRowNum)
      requires blkn0 + s.parts[i].mcuHeight * s.parts[i].mcuWidth <= C_MAX_BLOCKS_IN_MCU
      modifies mcuBuffer
      ensures Placed(blkn0, Part(p, s, i, iMcuRowNum, yoffset, col, s.parts[i].mcuHeight))
      ensures blkn == blkn0 + |Part(p, s, i, iMcuRowNum, yoffset, col, s.parts[i].mcuHeight)|
    {
      hide PartRow, Part, Padded, RowsPerIMcuRow, StripSaved, SetupFor;
      var part := s.parts[i];
      blkn := blkn0;
      PartNext(p, s, i, iMcuRowNum, yoffset, col, 0, part.mcuHeight);
      for yindex := 0 to part.mcuHeight
        invariant blkn == blkn0 + yindex * part.mcuWidth && StripSaved(part.index, iMcuRowNum)
        invariant Placed(blkn0, Part(p, s, i, iMcuRowNum, yoffset, col, yindex))
      {
        PartNext(p, s, i, iMcuRowNum, yoffset, col, yindex, part.mcuHeight);
        CollectRow(i, yoffset, yindex, col, blkn);
        blkn := blkn + part.mcuWidth;
      }
      PartSize(p, s, i, iMcuRowNum, yoffset, col, part.mcuHeight, part.mcuHeight);
    }

    /** One MCU from the virtual arrays. */
    method CollectMcu(yoffset: nat, col: nat) returns (blkn: nat)
      requires Setting() && Allocated() && col < s.mcusPerRow && iMcuRowNum < p.frame.TotalIMcuRows()
      requires yoffset < RowsPerIMcuRow(p.frame, s, iMcuRowNum)
      requires forall c :: 0 <= c < |wholeImage| ==> StripSaved(c, iMcuRowNum)
      modifies mcuBuffer
      ensures blkn <= mcuBuffer.Length && mcuBuffer[..blkn] == McuOf(p, s, iMcuRowNum, yoffset, col)
    {
      hide Part, RowsPerIMcuRow, Parts, StripSaved, SetupFor;
      blkn := 0;
      PartsNext(p, comps, s, iMcuRowNum, yoffset, col, 0);
      for ci := 0 to |s.parts|
        invariant Placed(0, Parts(p, s, iMcuRowNum, yoffset, col, ci))
        invariant blkn == |Parts(p, s, iMcuRowNum, yoffset, col, ci)|
      {
        PartsNext(p, comps, s, iMcuRowNum, yoffset, col, ci);
        blkn := CollectPart(ci, yoffset, col, blkn);
      }
    }

    /** One MCU from the arrays to the coder. */
    method HandSaved(yoffset: nat, col: nat) returns (r: Outcome)
      requires At(yoffset, col) && Allocated() && Saved(iMcuRowNum + 1)
      modifies this`mcuVertOffset, this`mcuCtr, sink.Repr(), mcuBuffer
      ensures r.Ok? ==> sink.Valid() && sink.log == Upto(p, s, iMcuRowNum, yoffset, col + 1)
      ensures r.Suspended? ==> mcuVertOffset == yoffset && mcuCtr == col && RefusedAt(yoffset, col)
      ensures r.Error? ==> FailedAt(yoffset, col)
      ensures sink.Budget() == old(sink.Budget()) && old(sink.log) <= sink.log
    {
      hide McuOf, Upto, SetupFor, RowsPerIMcuRow, StripSaved, McuSink.Valid, McuSink.Refused, McuSink.Impossible,
           McuSink.Budget, RefusedAt, FailedAt;
      var blkn := CollectMcu(yoffset, col);
      r := HandOver(blkn, yoffset, col);
    }

    /** `compress_output`: one iMCU row from the virtual arrays. */
    method CompressOutput() returns (r: Outcome)
      requires Valid() && Allocated() && iMcuRowNum < p.frame.TotalIMcuRows() && Saved(iMcuRowNum + 1)
      modifies this, sink.Repr(), mcuBuffer
      ensures !r.Error? ==> Valid() && iMcuRowNum == old(iMcuRowNum) + (if r.Ok? then 1 else 0)
      ensures r.Ok? ==> mcuVertOffset == 0 && mcuCtr == 0
      ensures r.Suspended? ==> RefusedAt(mcuVertOffset, mcuCtr)
      ensures r.Error? ==> exists y: nat, col: nat :: FailedAt(y, col)
      ensures sink.Budget() == old(sink.Budget()) && old(sink.log) <= sink.log
    {
      hide McuOf, Upto, SetupFor, RowsPerIMcuRow, StripSaved, McuSink.Valid, McuSink.Refused, McuSink.Impossible,
           McuSink.Budget;
      ghost var t := iMcuRowNum;
      var yoffset := mcuVertOffset;
      while yoffset < mcuRowsPerIMcuRow
        invariant Setting() && iMcuRowNum == t && mcuRowsPerIMcuRow == RowsPerIMcuRow(p.frame, s, t) && Saved(t + 1)
        invariant yoffset <= mcuRowsPerIMcuRow && mcuCtr <= s.mcusPerRow
        invariant yoffset == mcuRowsPerIMcuRow ==> mcuCtr == 0
        invariant sink.log == Upto(p, s, t, yoffset, mcuCtr)
        invariant sink.Valid() && sink.Budget() == old(sink.Budget()) && old(sink.log) <= sink.log
        modifies this, sink.Repr(), mcuBuffer
      {
        var col := mcuCtr;
        while col < s.mcusPerRow
          invariant Setting() && iMcuRowNum == t && mcuRowsPerIMcuRow == RowsPerIMcuRow(p.frame, s, t) && Saved(t + 1)
          invariant col <= s.mcusPerRow && sink.log == Upto(p, s, t, yoffset, col)
          invariant sink.Valid() && sink.Budget() == old(sink.Budget()) && old(sink.log) <= sink.log
          modifies this, sink.Repr(), mcuBuffer
        {
          r := HandSaved(yoffset, col);
          if r != Ok {
            return;
          }
          col := col + 1;
        }
        UptoSteps(p, s, t, yoffset, 0);
        mcuCtr := 0;
        yoffset := yoffset + 1;
      }
      FinishIMcuRow();
      r := Ok;
    }

    /** `compress_first_pass`: the strip is saved, and coded from there. After a suspension all of this
        is done again. */
    method CompressFirstPass() returns (r: Outcome)
      requires Valid() && Allocated() && iMcuRowNum < p.frame.TotalIMcuRows() && Saved(iMcuRowNum)
      modifies this, sink.Repr(), mcuBuffer, wholeImage
      ensures !r.Error? ==> Valid() && Saved(iMcuRowNum) && iMcuRowNum == old(iMcuRowNum) + (if r.Ok? then 1 else 0)
      ensures r.Ok? ==> mcuVertOffset == 0 && mcuCtr == 0
      ensures r.Suspended? ==> RefusedAt(mcuVertOffset, mcuCtr)
      ensures r.Error? ==> exists y: nat, col: nat :: FailedAt(y, col)
      ensures sink.Budget() == old(sink.Budget()) && old(sink.log) <= sink.log
    {
      hide StripSaved, Valid, RefusedAt, FailedAt, McuSink.Budget;
      SaveStrips();
      r := CompressOutput();
    }
  }

  lemma McuIsParts(p: Picture, s: Setup, t: nat, yoffset: nat, col: nat)
    requires Suits(p, s)
    ensures McuOf(p, s, t, yoffset, col) == Parts(p, s, t, yoffset, col, |s.parts|)
  {
  }

  /** However often the coder suspended: when all iMCU rows are through, any two controllers for the same
      scan of the same picture have handed over the same MCUs, whichever mode they worked in. */
  lemma ControllersAgree(a: CoefController, b: CoefController)
    requires a.Valid() && b.Valid() && a.p == b.p && a.s == b.s
    requires a.iMcuRowNum == b.iMcuRowNum == a.p.frame.TotalIMcuRows()
    requires a.mcuVertOffset == b.mcuVertOffset == 0 && a.mcuCtr == b.mcuCtr == 0
    ensures a.sink.log == b.sink.log == ScanMcus(a.p, a.s)
  {
    UptoSteps(a.p, a.s, a.iMcuRowNum, 0, 0);
  }

  /** The virtual arrays of `jinit_c_coef_controller`. */
  method AllocateImage(f: Frame) returns (whole: seq<array2<Block>>)
    requires f.Valid()
    ensures ArraysFor(f, whole) && forall c :: 0 <= c < |whole| ==> fresh(whole[c])
  {
    hide RoundUp, DivRoundUp;
    whole := [];
    for ci := 0 to |f.comps|
      invariant |whole| == ci
      invariant forall c :: 0 <= c < ci ==> fresh(whole[c]) && SizedFor(f, c, whole[c])
      invariant forall c, d :: 0 <= c < d < ci ==> whole[c] != whole[d]
    {
      var a := new Block[RoundUp(f.HeightInBlocks(ci), f.comps[ci].v), RoundUp(f.WidthInBlocks(ci), f.comps[ci].h)];
      whole := whole + [a];
    }
  }

  /** Every block of an MCU is within the padded component. */
  lemma CellInside(p: Picture, comps: seq<nat>, s: Setup, i: nat, t: nat, yoffset: nat, yindex: nat, col: nat)
    requires SetupFor(p.frame, comps, s) && Suits(p, s) && i < |s.parts| && t < p.frame.TotalIMcuRows()
    requires yoffset < RowsPerIMcuRow(p.frame, s, t) && yindex < s.parts[i].mcuHeight && col < s.mcusPerRow
    ensures var c := s.parts[i].index;
      && yoffset + yindex < p.frame.comps[c].v
      && Times(col, s.parts[i].mcuWidth) + s.parts[i].mcuWidth <= Times(p.frame.MCUsAcross(), p.frame.comps[c].h)
  {
    hide DivRoundUp, RoundUp, LastPart, Membership;
    var part := s.parts[i];
    assert PartFor(p.frame, |comps| == 1, comps[i], part);
    ComponentGrid(p.frame, part.index);
    if |comps| == 1 {
      TimesProduct(col, 1);
      TimesNext(p.frame.MCUsAcross() - 1, p.frame.comps[part.index].h);
    } else {
      TimesMono(col + 1, p.frame.MCUsAcross(), part.mcuWidth);
      TimesNext(col, part.mcuWidth);
    }
  }

  /** The block rows of a strip, and its place in the array. */
  lemma StripRows(f: Frame, c: nat, t: nat)
    requires f.Valid() && c < |f.comps| && t < f.TotalIMcuRows()
    ensures var hb, v := f.HeightInBlocks(c), f.comps[c].v;
      RealRows(f, c, t) == if t < f.TotalIMcuRows() - 1 then v else if hb % v == 0 then v else hb % v
    ensures 0 < RealRows(f, c, t) <= f.comps[c].v
    ensures Times(t, f.comps[c].v) + f.comps[c].v <= RoundUp(f.HeightInBlocks(c), f.comps[c].v)
    ensures Times(f.MCUsAcross(), f.comps[c].h) == RoundUp(f.WidthInBlocks(c), f.comps[c].h)
  {
    hide DivRoundUp, RoundUp;
    ComponentGrid(f, c);
    TimesMono(t + 1, f.TotalIMcuRows(), f.comps[c].v);
  }

  /** A row of blocks filled up to whole MCUs. */
  lemma RowLength(f: Frame, c: nat)
    requires f.Valid() && c < |f.comps|
    ensures var w, h := f.WidthInBlocks(c), f.comps[c].h;
      w > 0 && w + (if w % h > 0 then h - w % h else 0) == Times(f.MCUsAcross(), h) == RoundUp(w, h)
  {
    hide DivRoundUp, RoundUp;
    ComponentGrid(f, c);
  }

  /** One more component of an MCU; all of them fit. */
  lemma PartsNext(p: Picture, comps: seq<nat>, s: Setup, t: nat, yoffset: nat, col: nat, n: nat)
    requires SetupFor(p.frame, comps, s) && Suits(p, s) && n <= |s.parts|
    ensures Parts(p, s, t, yoffset, col, 0) == []
    ensures n < |s.parts| ==>
      && Parts(p, s, t, yoffset, col, n + 1)
           == Parts(p, s, t, yoffset, col, n) + Part(p, s, n, t, yoffset, col, s.parts[n].mcuHeight)
      && |Parts(p, s, t, yoffset, col, n)| + s.parts[n].mcuHeight * s.parts[n].mcuWidth <= C_MAX_BLOCKS_IN_MCU
  {
    hide SetupFor, Membership, Part;
    assert |Membership(s.parts, |s.parts|)| <= C_MAX_BLOCKS_IN_MCU by { FullMembership(p.frame, comps, s); }
    if n < |s.parts| {
      PartsSize(p, s, t, yoffset, col, n + 1);
      PartsSize(p, s, t, yoffset, col, n);
      MembershipGrows(s.parts, n + 1, |s.parts|);
    }
  }

  lemma FullMembership(f: Frame, comps: seq<nat>, s: Setup)
    requires SetupFor(f, comps, s)
    ensures |Membership(s.parts, |s.parts|)| <= C_MAX_BLOCKS_IN_MCU
  {
  }

  lemma {:induction false} PartsSize(p: Picture, s: Setup, t: nat, yoffset: nat, col: nat, n: nat)
    requires Suits(p, s) && n <= |s.parts|
    ensures |Parts(p, s, t, yoffset, col, n)| == |Membership(s.parts, n)|
    ensures n > 0 ==>
        |Membership(s.parts, n)| == |Membership(s.parts, n - 1)| + s.parts[n - 1].mcuHeight * s.parts[n - 1].mcuWidth
  {
    if n > 0 {
      PartsSize(p, s, t, yoffset, col, n - 1);
      PartSize(p, s, n - 1, t, yoffset, col, s.parts[n - 1].mcuHeight, s.parts[n - 1].mcuHeight);
    }
  }

  lemma {:induction false} MembershipGrows(parts: seq<CompScan>, n: nat, m: nat)
    requires n <= m <= |parts|
    ensures |Membership(parts, n)| <= |Membership(parts, m)|
  {
    if n < m {
      MembershipGrows(parts, n, m - 1);
    }
  }

  /** One more row of a part. */
  lemma PartNext(p: Picture, s: Setup, i: nat, t: nat, yoffset: nat, col: nat, n: nat, m: nat)
    requires Suits(p, s) && i < |s.parts| && n <= m
    ensures Part(p, s, i, t, yoffset, col, 0) == []
    ensures Part(p, s, i, t, yoffset, col, n + 1) == Part(p, s, i, t, yoffset, col, n)
        + PartRow(p, s, i, t, yoffset + n, col)
    ensures |Part(p, s, i, t, yoffset, col, n)| == n * s.parts[i].mcuWidth
    ensures n < m ==>
        n * s.parts[i].mcuWidth + s.parts[i].mcuWidth == (n + 1) * s.parts[i].mcuWidth <= m * s.parts[i].mcuWidth
  {
    PartSize(p, s, i, t, yoffset, col, n, m);
    if n < m {
      PartSize(p, s, i, t, yoffset, col, n + 1, m);
    }
  }

  /** The number of blocks in the first rows of a part. */
  lemma {:induction false} PartSize(p: Picture, s: Setup, i: nat, t: nat, yoffset: nat, col: nat, n: nat, m: nat)
    requires Suits(p, s) && i < |s.parts| && n <= m
    ensures |Part(p, s, i, t, yoffset, col, n)| == n * s.parts[i].mcuWidth
    ensures n * s.parts[i].mcuWidth <= m * s.parts[i].mcuWidth
  {
    if n > 0 {
      PartSize(p, s, i, t, yoffset, col, n - 1, m);
    }
  }

  /** Which block rows of an MCU are real: none is a dummy unless the scan is interleaved, and never the
      first. */
  lemma WhichRows(p: Picture, comps: seq<nat>, s: Setup, i: nat, t: nat, yoffset: nat, yindex: nat)
    requires SetupFor(p.frame, comps, s) && Suits(p, s) && i < |s.parts| && t < p.frame.TotalIMcuRows()
    requires yoffset < RowsPerIMcuRow(p.frame, s, t) && yindex < s.parts[i].mcuHeight
    ensures yoffset + yindex < RealRows(p.frame, s.parts[i].index, t) <==>
            t < p.frame.TotalIMcuRows() - 1 || yoffset + yindex < s.parts[i].lastRowHeight
    ensures yoffset + yindex >= RealRows(p.frame, s.parts[i].index, t) ==> |s.parts| > 1 && yindex > 0 && yoffset == 0
  {
    hide DivRoundUp, LastPart, RoundUp, Times, Membership;
    assert PartFor(p.frame, |comps| == 1, comps[i], s.parts[i]);
    ComponentGrid(p.frame, comps[i]);
  }

  /** Where the blocks of a cell stand: up to `cnt` of them are inside the component. */
  lemma CellColumns(p: Picture, comps: seq<nat>, s: Setup, i: nat, col: nat)
    requires SetupFor(p.frame, comps, s) && Suits(p, s) && i < |s.parts| && col < s.mcusPerRow
    ensures var part := s.parts[i];
      var cnt := if col < s.mcusPerRow - 1 then part.mcuWidth else part.lastColWidth;
      && 0 < cnt <= part.mcuWidth && Times(col, part.mcuWidth) == col * part.mcuWidth
      && Times(col, part.mcuWidth) + cnt <= p.frame.WidthInBlocks(part.index)
      && (cnt < part.mcuWidth ==> Times(col, part.mcuWidth) + cnt == p.frame.WidthInBlocks(part.index))
  {
    hide DivRoundUp, RoundUp, LastPart, Membership;
    var part := s.parts[i];
    assert PartFor(p.frame, |comps| == 1, comps[i], part);
    ComponentGrid(p.frame, part.index);
    TimesProduct(col, part.mcuWidth);
    if col < s.mcusPerRow - 1 {
      TimesMono(col + 1, s.mcusPerRow - 1, part.mcuWidth);
    }
  }

  /** The blocks of a real row of an MCU: transforms up to the last real column, then dummies. */
  lemma RealPart(p: Picture, comps: seq<nat>, s: Setup, i: nat, t: nat, y: nat, col: nat)
    requires SetupFor(p.frame, comps, s) && Suits(p, s) && i < |s.parts| && col < s.mcusPerRow
    requires y < RealRows(p.frame, s.parts[i].index, t)
    ensures var part, row := s.parts[i], PartRow(p, s, i, t, y, col);
      var cnt := if col < s.mcusPerRow - 1 then part.mcuWidth else part.lastColWidth;
      && 0 < cnt <= part.mcuWidth
      && (forall x :: 0 <= x < cnt ==> row[x] == p.dct(part.index, t, y, col * part.mcuWidth + x))
      && (forall x :: cnt <= x < part.mcuWidth ==> row[x] == Dummy(row[x - 1][0]))
  {
    CellColumns(p, comps, s, i, col);
    hide SetupFor, Times, RealRows, Frame.WidthInBlocks;
    var part, row := s.parts[i], PartRow(p, s, i, t, y, col);
    var cnt := if col < s.mcusPerRow - 1 then part.mcuWidth else part.lastColWidth;
    forall x | 0 <= x < cnt ensures row[x] == p.dct(part.index, t, y, col * part.mcuWidth + x) {
      assert Times(col, part.mcuWidth) + x == col * part.mcuWidth + x;
      assert row[x] == Padded(p, part.index, t, y, Times(col, part.mcuWidth) + x);
    }
    forall x | cnt <= x < part.mcuWidth ensures row[x] == Dummy(row[x - 1][0]) {
      assert row[x] == Padded(p, part.index, t, y, Times(col, part.mcuWidth) + x);
      assert row[x - 1] == Padded(p, part.index, t, y, Times(col, part.mcuWidth) + (x - 1));
    }
  }

  /** The blocks of a dummy row of an MCU: the DC value of the last block of the row above. */
  lemma DummyPart(p: Picture, comps: seq<nat>, s: Setup, i: nat, t: nat, y: nat, col: nat)
    requires SetupFor(p.frame, comps, s) && Suits(p, s) && i < |s.parts| && |s.parts| > 1
    requires y >= RealRows(p.frame, s.parts[i].index, t) && y > 0
    ensures var w := s.parts[i].mcuWidth;
      w > 0 && forall x :: 0 <= x < w ==>
        PartRow(p, s, i, t, y, col)[x] == Dummy(PartRow(p, s, i, t, y - 1, col)[w - 1][0])
  {
    hide DivRoundUp, LastPart, Membership, RealRows, Frame.WidthInBlocks, Padded, Dummy, Times, CellEnd;
    var part := s.parts[i];
    assert PartFor(p.frame, |comps| == 1, comps[i], part);
    var w := part.mcuWidth;
    var row, above := PartRow(p, s, i, t, y, col), PartRow(p, s, i, t, y - 1, col);
    assert above[w - 1] == Padded(p, part.index, t, y - 1, Times(col, w) + (w - 1));
    forall x | 0 <= x < w ensures row[x] == Dummy(above[w - 1][0]) {
      CellEndOf(col, x, w);
      DummyBelow(p, part.index, t, y, Times(col, w) + x);
    }
  }

  lemma CellEndOf(col: nat, x: nat, w: nat)
    requires x < w
    ensures CellEnd(Times(col, w) + x, w) == Times(col, w) + (w - 1)
  {
    TimesProduct(col, w);
    CellOf(col, x, w);
  }

  lemma DummyBelow(p: Picture, c: nat, t: nat, y: nat, x: nat)
    requires p.frame.Valid() && c < |p.frame.comps| && y > 0 && y >= RealRows(p.frame, c, t)
    ensures Padded(p, c, t, y, x) == Dummy(Padded(p, c, t, y - 1, CellEnd(x, p.frame.comps[c].h))[0])
  {
  }

  lemma SuitsSetup(p: Picture, comps: seq<nat>, s: Setup)
    requires SetupFor(p.frame, comps, s)
    ensures Suits(p, s) && s.parts != []
  {
    forall i | 0 <= i < |s.parts| ensures s.parts[i].index < |p.frame.comps| {
      assert PartFor(p.frame, |comps| == 1, comps[i], s.parts[i]);
    }
  }
}
