/** What a scan's MCUs are made of: `per_scan_setup` (`jcmaster.c`), and the sequence of MCUs that the
    coefficient controllers must hand to the entropy coder, dummy blocks included. */
module ScanSetups {
  import opened Wrappers
  import opened RunLength
  import opened Geometry

  /** The scan-dependent fields of a component. */
  datatype CompScan = CompScan(index: nat, mcuWidth: nat, mcuHeight: nat, lastColWidth: nat, lastRowHeight: nat)

  datatype Setup = Setup(parts: seq<CompScan>, mcusPerRow: nat, mcuRowsInScan: nat, membership: seq<nat>,
                         restartInterval: nat)

  /** A component's part in an MCU: one block in a scan of its own, a cell of its sampling factors in an
      interleaved scan. */
  ghost predicate PartFor(f: Frame, single: bool, c: nat, part: CompScan)
    requires f.Valid() && c < |f.comps|
  {
    && part.index == c && part.lastRowHeight == f.LastRow(c)
    && if single then part.mcuWidth == 1 && part.mcuHeight == 1 && part.lastColWidth == 1
       else part.mcuWidth == f.comps[c].h && part.mcuHeight == f.comps[c].v && part.lastColWidth == f.LastCol(c)
  }

  ghost predicate SetupFor(f: Frame, comps: seq<nat>, s: Setup) {
    && f.Valid() && comps != [] && |s.parts| == |comps| && (forall i :: 0 <= i < |comps| ==> comps[i] < |f.comps|)
    && (forall i :: 0 <= i < |comps| ==> PartFor(f, |comps| == 1, comps[i], s.parts[i]))
    && s.mcusPerRow == (if |comps| == 1 then f.WidthInBlocks(comps[0]) else f.MCUsAcross())
    && s.mcuRowsInScan == (if |comps| == 1 then f.HeightInBlocks(comps[0]) else f.TotalIMcuRows())
    && s.membership == Membership(s.parts, |comps|) && |s.membership| <= C_MAX_BLOCKS_IN_MCU
  }

  /** The component of each block of an MCU: as many times each as it has blocks there. */
  function Membership(parts: seq<CompScan>, n: nat): seq<nat>
    requires n <= |parts|
  {
    if n == 0 then [] else Membership(parts, n - 1) + seq(parts[n - 1].mcuWidth * parts[n - 1].mcuHeight, _ => n - 1)
  }

  /** The parts of an interleaved scan; fails when an MCU would have too many blocks. */
  method InterleavedParts(f: Frame, comps: seq<nat>) returns (ok: bool, parts: seq<CompScan>, membership: seq<nat>)
    requires f.Valid() && |comps| > 1 && forall i :: 0 <= i < |comps| ==> comps[i] < |f.comps|
    ensures ok ==> |parts| == |comps| && forall i :: 0 <= i < |comps| ==> PartFor(f, false, comps[i], parts[i])
    ensures ok ==> membership == Membership(parts, |comps|) && |membership| <= C_MAX_BLOCKS_IN_MCU
    ensures ok <==> !TooManyBlocks(f, comps, |comps|)
  {
    hide LastPart, DivRoundUp, Membership, PartFor;
    parts, membership := [], [];
    assert Membership([], 0) == [] by { NoMembers(); }
    for ci := 0 to |comps|
      invariant |parts| == ci && membership == Membership(parts, ci)
      invariant |membership| == CellBlocks(f, comps, ci) <= C_MAX_BLOCKS_IN_MCU
      invariant forall i :: 0 <= i < ci ==> PartFor(f, false, comps[i], parts[i])
    {
      var c := comps[ci];
      var w, h := f.comps[c].h, f.comps[c].v;
      if |membership| + w * h > C_MAX_BLOCKS_IN_MCU {
        CellBlocksGrow(f, comps, ci + 1, |comps|);
        return false, parts, membership;
      }
      ghost var before := parts;
      var lastCol := LastOf(f.WidthInBlocks(c), w);
      var lastRow := LastOf(f.HeightInBlocks(c), h);
      parts := parts + [CompScan(c, w, h, lastCol, lastRow)];
      NextMember(f, c, before, parts[ci]);
      membership := membership + seq(w * h, _ => ci);
    }
    ok := true;
  }

  lemma NoMembers()
    ensures Membership([], 0) == []
  {
  }

  lemma NextMember(f: Frame, c: nat, before: seq<CompScan>, part: CompScan)
    requires f.Valid() && c < |f.comps|
    requires part == CompScan(c, f.comps[c].h, f.comps[c].v, f.LastCol(c), f.LastRow(c))
    ensures PartFor(f, false, c, part)
    ensures Membership(before + [part], |before| + 1)
         == Membership(before, |before|) + seq(part.mcuWidth * part.mcuHeight, _ => |before|)
  {
    hide LastPart, DivRoundUp;
    MembershipPrefix(before, before + [part], |before|);
  }

  /** `per_scan_setup`: fails when the components do not fit a scan, or their blocks an MCU. */
  method PerScanSetup(f: Frame, comps: seq<nat>, restartInRows: nat, restartInterval: nat) returns (r: Option<Setup>)
    requires f.Valid() && forall i :: 0 <= i < |comps| ==> comps[i] < |f.comps|
    ensures r.None? <==> |comps| == 0 || |comps| > 4 || (|comps| > 1 && CellBlocks(f, comps, |comps|) > 10)
    ensures r.Some? ==> SetupFor(f, comps, r.value)
    ensures r.Some? ==>
      var nominal := restartInRows * r.value.mcusPerRow;
      r.value.restartInterval
      == if restartInRows == 0 then restartInterval else if nominal < 65535 then nominal else 65535
  {
    hide LastPart, DivRoundUp;
    var parts: seq<CompScan>, mcusPerRow, mcuRows, membership: seq<nat> := [], 0, 0, [];
    if |comps| == 1 {
      var c := comps[0];
      mcusPerRow, mcuRows := f.WidthInBlocks(c), f.HeightInBlocks(c);
      var lastRow := LastOf(f.HeightInBlocks(c), f.comps[c].v);
      parts, membership := [CompScan(c, 1, 1, 1, lastRow)], [0];
      assert Membership(parts, 1) == Membership(parts, 0) + seq(1 * 1, _ => 0) == [0];
    } else {
      if |comps| <= 0 || |comps| > 4 {
        return None;
      }
      mcusPerRow, mcuRows := f.MCUsAcross(), f.TotalIMcuRows();
      var ok;
      ok, parts, membership := InterleavedParts(f, comps);
      if !ok {
        return None;
      }
    }
    var interval := restartInterval;
    if restartInRows > 0 {
      var nominal := restartInRows * mcusPerRow;
      interval := if nominal < 65535 then nominal else 65535;
    }
    return Some(Setup(parts, mcusPerRow, mcuRows, membership, interval));
  }

  /** The remainder, or the whole cell when nothing remains. */
  method LastOf(w: nat, h: nat) returns (tmp: nat)
    requires h > 0
    ensures tmp == LastPart(w, h)
  {
    tmp := w % h;
    if tmp == 0 {
      tmp := h;
    }
  }

  function CellBlocks(f: Frame, comps: seq<nat>, n: nat): nat
    requires n <= |comps| && forall i :: 0 <= i < |comps| ==> comps[i] < |f.comps|
  {
    if n == 0 then 0 else CellBlocks(f, comps, n - 1) + f.comps[comps[n - 1]].h * f.comps[comps[n - 1]].v
  }

  ghost predicate TooManyBlocks(f: Frame, comps: seq<nat>, n: nat)
    requires n <= |comps| && forall i :: 0 <= i < |comps| ==> comps[i] < |f.comps|
  {
    |comps| > 1 && CellBlocks(f, comps, n) > C_MAX_BLOCKS_IN_MCU
  }

  lemma {:induction false} CellBlocksGrow(f: Frame, comps: seq<nat>, n: nat, m: nat)
    requires n <= m <= |comps| && forall i :: 0 <= i < |comps| ==> comps[i] < |f.comps|
    ensures CellBlocks(f, comps, n) <= CellBlocks(f, comps, m)
  {
    if n < m {
      CellBlocksGrow(f, comps, n, m - 1);
    }
  }

  lemma {:induction false} MembershipPrefix(a: seq<CompScan>, b: seq<CompScan>, n: nat)
    requires n <= |a| && a <= b
    ensures Membership(a, n) == Membership(b, n)
  {
    if n > 0 {
      MembershipPrefix(a, b, n - 1);
    }
  }

  // ---------------------------------------------------------------- blocks, real and dummy

  /** The image: its frame, and the DCT of block (row `y` of iMCU row `t`, column `x`) of component `c`. */
  datatype Picture = Picture(frame: Frame, dct: (nat, nat, nat, nat) -> Block)

  /** A dummy block: nothing but a DC value. */
  function Dummy(dc: int): Block
  {
    seq(64, k requires 0 <= k < 64 => if k == 0 then dc else 0)
  }

  /** Block rows of component `c` that iMCU row `t` really has. */
  function RealRows(f: Frame, c: nat, t: nat): nat
    requires f.Valid() && c < |f.comps|
  {
    if t + 1 < f.TotalIMcuRows() then f.comps[c].v else f.LastRow(c)
  }

  /** The last column of the cell of width `h` around column `x`. */
  function CellEnd(x: nat, h: nat): nat
    requires h > 0
  {
    (x / h) * h + h - 1
  }

  /** The component, filled up to whole MCUs: right of the image by the last DC value of the row, below
      by the last DC value of the cell above. */
  function Padded(p: Picture, c: nat, t: nat, y: nat, x: nat): Block
    requires p.frame.Valid() && c < |p.frame.comps|
  {
    if y < RealRows(p.frame, c, t) then
      if x < p.frame.WidthInBlocks(c) then p.dct(c, t, y, x)
      else
        ComponentGrid(p.frame, c);
        Dummy(p.dct(c, t, y, p.frame.WidthInBlocks(c) - 1)[0])
    else if y == 0 then Dummy(0)
    else Dummy(Padded(p, c, t, y - 1, CellEnd(x, p.frame.comps[c].h))[0])
  }

  // ---------------------------------------------------------------- the MCUs of a scan

  ghost predicate Suits(p: Picture, s: Setup) {
    p.frame.Valid() && forall i :: 0 <= i < |s.parts| ==> s.parts[i].index < |p.frame.comps|
  }

  function PartRow(p: Picture, s: Setup, i: nat, t: nat, y: nat, col: nat): (r: seq<Block>)
    requires Suits(p, s) && i < |s.parts|
    ensures |r| == s.parts[i].mcuWidth
  {
    var w := s.parts[i].mcuWidth;
    seq<Block>(w, x requires 0 <= x < w => Padded(p, s.parts[i].index, t, y, Times(col, w) + x))
  }

  /** The first `n` block rows of part `i` of an MCU. */
  function Part(p: Picture, s: Setup, i: nat, t: nat, yoffset: nat, col: nat, n: nat): seq<Block>
    requires Suits(p, s) && i < |s.parts|
  {
    if n == 0 then [] else Part(p, s, i, t, yoffset, col, n - 1) + PartRow(p, s, i, t, yoffset + n - 1, col)
  }

  /** The first `n` parts of an MCU. */
  function Parts(p: Picture, s: Setup, t: nat, yoffset: nat, col: nat, n: nat): seq<Block>
    requires Suits(p, s) && n <= |s.parts|
  {
    if n == 0 then []
    else Parts(p, s, t, yoffset, col, n - 1) + Part(p, s, n - 1, t, yoffset, col, s.parts[n - 1].mcuHeight)
  }

  /** MCU `col` of MCU row `yoffset` of iMCU row `t`. */
  function McuOf(p: Picture, s: Setup, t: nat, yoffset: nat, col: nat): seq<Block>
    requires Suits(p, s)
  {
    Parts(p, s, t, yoffset, col, |s.parts|)
  }

  /** A place in a scan: MCU `col` of MCU row `yoffset` of iMCU row `t`. */
  datatype Place = Place(t: nat, yoffset: nat, col: nat)

  function LinePlaces(t: nat, yoffset: nat, n: nat): (r: seq<Place>)
    ensures |r| == n
  {
    seq(n, col requires 0 <= col < n => Place(t, yoffset, col))
  }

  function LinesPlaces(s: Setup, t: nat, n: nat): seq<Place>
  {
    if n == 0 then [] else LinesPlaces(s, t, n - 1) + LinePlaces(t, n - 1, s.mcusPerRow)
  }

  /** MCU rows in iMCU row `t`. */
  function RowsPerIMcuRow(f: Frame, s: Setup, t: nat): nat
    requires f.Valid() && s.parts != [] && s.parts[0].index < |f.comps|
  {
    if |s.parts| > 1 then 1
    else if t + 1 < f.TotalIMcuRows() then f.comps[s.parts[0].index].v
    else s.parts[0].lastRowHeight
  }

  /** All places of the first `n` iMCU rows, in order. */
  function ScanPlaces(f: Frame, s: Setup, n: nat): seq<Place>
    requires f.Valid() && s.parts != [] && s.parts[0].index < |f.comps|
  {
    if n == 0 then [] else ScanPlaces(f, s, n - 1) + LinesPlaces(s, n - 1, RowsPerIMcuRow(f, s, n - 1))
  }

  /** The places before a given one. */
  function PlacesUpto(f: Frame, s: Setup, t: nat, yoffset: nat, col: nat): seq<Place>
    requires f.Valid() && s.parts != [] && s.parts[0].index < |f.comps|
  {
    ScanPlaces(f, s, t) + (LinesPlaces(s, t, yoffset) + LinePlaces(t, yoffset, col))
  }

  /** The MCUs at given places. */
  function McusAt(p: Picture, s: Setup, places: seq<Place>): (r: seq<seq<Block>>)
    requires Suits(p, s)
    ensures |r| == |places|
  {
    seq(|places|, k requires 0 <= k < |places| => McuOf(p, s, places[k].t, places[k].yoffset, places[k].col))
  }

  /** The MCUs before a position. */
  function Upto(p: Picture, s: Setup, t: nat, yoffset: nat, col: nat): seq<seq<Block>>
    requires Suits(p, s) && s.parts != []
  {
    McusAt(p, s, PlacesUpto(p.frame, s, t, yoffset, col))
  }

  /** All MCUs of a scan. */
  function ScanMcus(p: Picture, s: Setup): seq<seq<Block>>
    requires Suits(p, s) && s.parts != []
  {
    McusAt(p, s, ScanPlaces(p.frame, s, p.frame.TotalIMcuRows()))
  }

  lemma UptoSteps(p: Picture, s: Setup, t: nat, yoffset: nat, col: nat)
    requires Suits(p, s) && s.parts != []
    ensures Upto(p, s, t, yoffset, col + 1) == Upto(p, s, t, yoffset, col) + [McuOf(p, s, t, yoffset, col)]
    ensures Upto(p, s, t, yoffset + 1, 0) == Upto(p, s, t, yoffset, s.mcusPerRow)
    ensures Upto(p, s, t + 1, 0, 0) == Upto(p, s, t, RowsPerIMcuRow(p.frame, s, t), 0)
    ensures Upto(p, s, t, 0, 0) == McusAt(p, s, ScanPlaces(p.frame, s, t))
  {
    hide McuOf;
    var f := p.frame;
    assert LinePlaces(t, yoffset, col + 1) == LinePlaces(t, yoffset, col) + [Place(t, yoffset, col)];
    assert PlacesUpto(f, s, t, yoffset, col + 1) == PlacesUpto(f, s, t, yoffset, col) + [Place(t, yoffset, col)];
    assert PlacesUpto(f, s, t, yoffset + 1, 0) == PlacesUpto(f, s, t, yoffset, s.mcusPerRow);
    assert PlacesUpto(f, s, t + 1, 0, 0) == PlacesUpto(f, s, t, RowsPerIMcuRow(f, s, t), 0);
    assert PlacesUpto(f, s, t, 0, 0) == ScanPlaces(f, s, t);
  }

  lemma {:induction false} LinesPrefix(s: Setup, t: nat, n: nat, m: nat)
    requires n <= m
    ensures LinesPlaces(s, t, n) <= LinesPlaces(s, t, m)
  {
    hide LinePlaces;
    if n < m {
      LinesPrefix(s, t, n, m - 1);
    }
  }

  lemma {:induction false} ScanPrefix(f: Frame, s: Setup, n: nat, m: nat)
    requires f.Valid() && s.parts != [] && s.parts[0].index < |f.comps| && n <= m
    ensures ScanPlaces(f, s, n) <= ScanPlaces(f, s, m)
  {
    hide LinesPlaces, RowsPerIMcuRow;
    if n < m {
      ScanPrefix(f, s, n, m - 1);
    }
  }

  lemma PrefixAfter(a: seq<Place>, b: seq<Place>, c: seq<Place>)
    requires b <= c
    ensures a + b <= a + c
  {
  }

  /** A position cuts the places of the scan in two: those before it, and those from it on. */
  lemma PlaceInScan(f: Frame, s: Setup, t: nat, yoffset: nat, col: nat)
    requires f.Valid() && s.parts != [] && s.parts[0].index < |f.comps| && t < f.TotalIMcuRows()
    requires yoffset < RowsPerIMcuRow(f, s, t) && col < s.mcusPerRow
    ensures PlacesUpto(f, s, t, yoffset, col) + [Place(t, yoffset, col)] <= ScanPlaces(f, s, f.TotalIMcuRows())
  {
    hide RowsPerIMcuRow, LinePlaces, LinesPlaces, ScanPlaces;
    var rows := RowsPerIMcuRow(f, s, t);
    var line, lines := LinePlaces(t, yoffset, col), LinesPlaces(s, t, yoffset);
    LineAt(t, yoffset, col, s.mcusPerRow);
    PrefixAfter(lines, line + [Place(t, yoffset, col)], LinePlaces(t, yoffset, s.mcusPerRow));
    LinesNext(s, t, yoffset);
    LinesPrefix(s, t, yoffset + 1, rows);
    PrefixAfter(ScanPlaces(f, s, t), lines + (line + [Place(t, yoffset, col)]), LinesPlaces(s, t, rows));
    ScanNext(f, s, t);
    ScanPrefix(f, s, t + 1, f.TotalIMcuRows());
    assert PlacesUpto(f, s, t, yoffset, col) + [Place(t, yoffset, col)]
        == ScanPlaces(f, s, t) + (lines + (line + [Place(t, yoffset, col)]));
  }

  lemma LineAt(t: nat, yoffset: nat, col: nat, n: nat)
    requires col < n
    ensures LinePlaces(t, yoffset, col) + [Place(t, yoffset, col)] <= LinePlaces(t, yoffset, n)
  {
  }

  lemma LinesNext(s: Setup, t: nat, n: nat)
    ensures LinesPlaces(s, t, n + 1) == LinesPlaces(s, t, n) + LinePlaces(t, n, s.mcusPerRow)
  {
  }

  lemma ScanNext(f: Frame, s: Setup, n: nat)
    requires f.Valid() && s.parts != [] && s.parts[0].index < |f.comps|
    ensures ScanPlaces(f, s, n + 1) == ScanPlaces(f, s, n) + LinesPlaces(s, n, RowsPerIMcuRow(f, s, n))
  {
  }

  /** The MCUs before a position are the first ones of the scan, and the MCU at the position is the next. */
  lemma NextOfScan(p: Picture, s: Setup, t: nat, yoffset: nat, col: nat)
    requires Suits(p, s) && s.parts != [] && t < p.frame.TotalIMcuRows()
    requires yoffset < RowsPerIMcuRow(p.frame, s, t) && col < s.mcusPerRow
    ensures var mcus, log := ScanMcus(p, s), Upto(p, s, t, yoffset, col);
      |log| < |mcus| && mcus[..|log|] == log && mcus[|log|] == McuOf(p, s, t, yoffset, col)
  {
    hide RowsPerIMcuRow, McuOf, PlacesUpto, ScanPlaces;
    PlaceInScan(p.frame, s, t, yoffset, col);
    var places, before := ScanPlaces(p.frame, s, p.frame.TotalIMcuRows()), PlacesUpto(p.frame, s, t, yoffset, col);
    assert places[|before|] == Place(t, yoffset, col);
    assert forall k :: 0 <= k < |before| ==> places[k] == before[k];
  }

  // ---------------------------------------------------------------- counting MCUs

  lemma {:induction false} LinesCount(s: Setup, t: nat, n: nat)
    ensures |LinesPlaces(s, t, n)| == Times(n, s.mcusPerRow)
  {
    if n > 0 {
      LinesCount(s, t, n - 1);
    }
  }

  lemma {:induction false} TimesSum(a: nat, b: nat, w: nat)
    ensures Times(a + b, w) == Times(a, w) + Times(b, w)
  {
    if b > 0 {
      TimesSum(a, b - 1, w);
    }
  }

  /** MCU rows in the first `n` iMCU rows. */
  function RowsUpto(f: Frame, s: Setup, n: nat): nat
    requires f.Valid() && s.parts != [] && s.parts[0].index < |f.comps|
  {
    if n == 0 then 0 else RowsUpto(f, s, n - 1) + RowsPerIMcuRow(f, s, n - 1)
  }

  lemma {:induction false} PlacesCount(f: Frame, s: Setup, n: nat)
    requires f.Valid() && s.parts != [] && s.parts[0].index < |f.comps|
    ensures |ScanPlaces(f, s, n)| == Times(RowsUpto(f, s, n), s.mcusPerRow)
  {
    hide RowsPerIMcuRow, LinesPlaces;
    if n > 0 {
      PlacesCount(f, s, n - 1);
      LinesCount(s, n - 1, RowsPerIMcuRow(f, s, n - 1));
      TimesSum(RowsUpto(f, s, n - 1), RowsPerIMcuRow(f, s, n - 1), s.mcusPerRow);
    }
  }

  lemma {:induction false} RowsBefore(f: Frame, s: Setup, n: nat)
    requires f.Valid() && s.parts != [] && s.parts[0].index < |f.comps| && n < f.TotalIMcuRows()
    ensures RowsUpto(f, s, n) == if |s.parts| > 1 then n else Times(n, f.comps[s.parts[0].index].v)
  {
    if n > 0 {
      RowsBefore(f, s, n - 1);
    }
  }

  /** A scan has as many MCUs as its rows and columns make. */
  lemma McuCount(p: Picture, comps: seq<nat>, s: Setup)
    requires SetupFor(p.frame, comps, s)
    ensures Suits(p, s) && s.parts != [] && |ScanMcus(p, s)| == s.mcuRowsInScan * s.mcusPerRow
  {
    hide Membership, DivRoundUp, LastPart, ScanPlaces, RowsUpto;
    var f := p.frame;
    var n := f.TotalIMcuRows();
    assert s.parts != [] && forall i :: 0 <= i < |comps| ==> PartFor(f, |comps| == 1, comps[i], s.parts[i]);
    ComponentGrid(f, comps[0]);
    AllRows(f, comps, s);
    PlacesCount(f, s, n);
    TimesProduct(s.mcuRowsInScan, s.mcusPerRow);
  }

  lemma AllRows(f: Frame, comps: seq<nat>, s: Setup)
    requires SetupFor(f, comps, s) && s.parts != [] && f.TotalIMcuRows() > 0
    requires s.parts[0].index < |f.comps|
    ensures RowsUpto(f, s, f.TotalIMcuRows()) == s.mcuRowsInScan
  {
    hide Membership, DivRoundUp, LastPart;
    assert PartFor(f, |comps| == 1, comps[0], s.parts[0]);
    ComponentGrid(f, comps[0]);
    RowsBefore(f, s, f.TotalIMcuRows() - 1);
  }
}
