/** Which blocks the MCUs of a scan hold: in place, none twice, every real block, and in a scan of one
    component no dummy block. So the layout that the controllers produce is one that the decoding of a
    whole script relies on. */
module ScanLayouts {
  import opened Wrappers
  import opened RunLength
  import opened Geometry
  import opened ScanSetups
  import opened Scans
  import opened ScriptDecoding
  import Script = ScanScripts

  // ---------------------------------------------------------------- the blocks of one MCU

  function IdRow(f: Frame, s: Setup, i: nat, t: nat, y: nat, col: nat): (r: seq<BlockId>)
    requires i < |s.parts| && s.parts[i].index < |f.comps|
    ensures |r| == s.parts[i].mcuWidth
  {
    var part := s.parts[i];
    seq(part.mcuWidth, x requires 0 <= x < part.mcuWidth =>
      BlockId(part.index, Times(t, f.comps[part.index].v) + y, Times(col, part.mcuWidth) + x))
  }

  function IdPart(f: Frame, s: Setup, i: nat, t: nat, yoffset: nat, col: nat, n: nat): (r: seq<BlockId>)
    requires i < |s.parts| && s.parts[i].index < |f.comps|
  {
    if n == 0 then [] else IdPart(f, s, i, t, yoffset, col, n - 1) + IdRow(f, s, i, t, yoffset + n - 1, col)
  }

  ghost predicate Indexed(f: Frame, s: Setup) {
    f.Valid() && forall i :: 0 <= i < |s.parts| ==> s.parts[i].index < |f.comps|
  }

  function IdParts(f: Frame, s: Setup, at: Place, n: nat): seq<BlockId>
    requires Indexed(f, s) && n <= |s.parts|
  {
    if n == 0 then []
    else IdParts(f, s, at, n - 1) + IdPart(f, s, n - 1, at.t, at.yoffset, at.col, s.parts[n - 1].mcuHeight)
  }

  /** The blocks of the MCU at a place. */
  function IdMcu(f: Frame, s: Setup, at: Place): seq<BlockId>
    requires Indexed(f, s)
  {
    IdParts(f, s, at, |s.parts|)
  }

  /** The blocks of all MCUs of a scan. */
  function Layout(f: Frame, s: Setup): (r: seq<seq<BlockId>>)
    requires Indexed(f, s) && s.parts != []
  {
    var places := ScanPlaces(f, s, f.TotalIMcuRows());
    seq(|places|, k requires 0 <= k < |places| => IdMcu(f, s, places[k]))
  }

  // ---------------------------------------------------------------- all blocks, and the real ones

  /** Every block of the padded components. */
  ghost predicate InArray(f: Frame, id: BlockId) {
    f.Valid() && id.comp < |f.comps| && id.row < Times(f.TotalIMcuRows(), f.comps[id.comp].v)
    && id.col < Times(f.MCUsAcross(), f.comps[id.comp].h)
  }

  /** The blocks that belong to the image proper. */
  ghost predicate IsReal(f: Frame, id: BlockId) {
    f.Valid() && id.comp < |f.comps| && id.row < f.HeightInBlocks(id.comp) && id.col < f.WidthInBlocks(id.comp)
  }

  // ---------------------------------------------------------------- the order of places

  ghost predicate Earlier(a: Place, b: Place) {
    a.t < b.t || (a.t == b.t && (a.yoffset < b.yoffset || (a.yoffset == b.yoffset && a.col < b.col)))
  }

  ghost predicate Ordered(places: seq<Place>) {
    forall i, j :: 0 <= i < j < |places| ==> Earlier(places[i], places[j])
  }

  lemma {:induction false} LinesOrdered(s: Setup, t: nat, n: nat)
    ensures Ordered(LinesPlaces(s, t, n))
    ensures forall at :: at in LinesPlaces(s, t, n) <==> at.t == t && at.yoffset < n && at.col < s.mcusPerRow
  {
    if n > 0 {
      LinesOrdered(s, t, n - 1);
      var line := LinePlaces(t, n - 1, s.mcusPerRow);
      forall at: Place ensures at in line <==> at.t == t && at.yoffset == n - 1 && at.col < s.mcusPerRow {
        if at.t == t && at.yoffset == n - 1 && at.col < s.mcusPerRow {
          assert line[at.col] == at;
        }
      }
      Concatenated(LinesPlaces(s, t, n - 1), line);
    }
  }

  lemma Concatenated(a: seq<Place>, b: seq<Place>)
    requires Ordered(a) && Ordered(b) && forall p, q :: p in a && q in b ==> Earlier(p, q)
    ensures Ordered(a + b)
  {
    forall i, j | 0 <= i < j < |a + b| ensures Earlier((a + b)[i], (a + b)[j]) {
      if i < |a| <= j {
        assert a[i] in a && b[j - |a|] in b;
      }
    }
  }

  lemma {:induction false} ScanOrdered(f: Frame, s: Setup, n: nat)
    requires Indexed(f, s) && s.parts != []
    ensures Ordered(ScanPlaces(f, s, n))
    ensures forall at :: at in ScanPlaces(f, s, n) <==>
      at.t < n && at.yoffset < RowsPerIMcuRow(f, s, at.t) && at.col < s.mcusPerRow
  {
    hide RowsPerIMcuRow;
    if n > 0 {
      ScanOrdered(f, s, n - 1);
      LinesOrdered(s, n - 1, RowsPerIMcuRow(f, s, n - 1));
      Concatenated(ScanPlaces(f, s, n - 1), LinesPlaces(s, n - 1, RowsPerIMcuRow(f, s, n - 1)));
    }
  }

  // ---------------------------------------------------------------- which blocks an MCU has

  lemma {:induction false} TimesUnique(a: nat, r: nat, b: nat, q: nat, w: nat)
    requires r < w && q < w && Times(a, w) + r == Times(b, w) + q
    ensures a == b && r == q
  {
    if a > 0 && b > 0 {
      TimesUnique(a - 1, r, b - 1, q, w);
    }
  }

  /** Block `id` is in part `i` of the MCU at a place, in its row `yindex` and column `x`. */
  ghost predicate At(f: Frame, s: Setup, at: Place, id: BlockId, i: nat, yindex: nat, x: nat)
    requires Indexed(f, s)
  {
    && i < |s.parts| && yindex < s.parts[i].mcuHeight && x < s.parts[i].mcuWidth
    && id == BlockId(s.parts[i].index, Times(at.t, f.comps[s.parts[i].index].v) + (at.yoffset + yindex),
                     Times(at.col, s.parts[i].mcuWidth) + x)
  }

  lemma {:induction false} PartHas(f: Frame, s: Setup, at: Place, i: nat, n: nat, yindex: nat, x: nat, id: BlockId)
    requires Indexed(f, s) && At(f, s, at, id, i, yindex, x) && yindex < n
    ensures id in IdPart(f, s, i, at.t, at.yoffset, at.col, n)
  {
    hide Times;
    if yindex < n - 1 {
      PartHas(f, s, at, i, n - 1, yindex, x, id);
    } else {
      assert IdRow(f, s, i, at.t, at.yoffset + n - 1, at.col)[x] == id;
    }
  }

  lemma {:induction false} PartOnly(f: Frame, s: Setup, at: Place, i: nat, n: nat, id: BlockId)
    returns (yindex: nat, x: nat)
    requires Indexed(f, s) && i < |s.parts| && n <= s.parts[i].mcuHeight
    requires id in IdPart(f, s, i, at.t, at.yoffset, at.col, n)
    ensures At(f, s, at, id, i, yindex, x) && yindex < n
  {
    hide Times;
    var row := IdRow(f, s, i, at.t, at.yoffset + n - 1, at.col);
    if id in row {
      yindex := n - 1;
      x :| 0 <= x < |row| && row[x] == id;
    } else {
      yindex, x := PartOnly(f, s, at, i, n - 1, id);
    }
  }

  lemma {:induction false} PartsHave(f: Frame, s: Setup, at: Place, n: nat, i: nat, yindex: nat, x: nat, id: BlockId)
    requires Indexed(f, s) && n <= |s.parts| && i < n && At(f, s, at, id, i, yindex, x)
    ensures id in IdParts(f, s, at, n)
  {
    hide IdPart, Times;
    if i < n - 1 {
      PartsHave(f, s, at, n - 1, i, yindex, x, id);
    } else {
      PartHas(f, s, at, i, s.parts[i].mcuHeight, yindex, x, id);
    }
  }

  lemma {:induction false} PartsOnly(f: Frame, s: Setup, at: Place, n: nat, id: BlockId)
    returns (i: nat, yindex: nat, x: nat)
    requires Indexed(f, s) && n <= |s.parts| && id in IdParts(f, s, at, n)
    ensures i < n && At(f, s, at, id, i, yindex, x)
  {
    if id in IdPart(f, s, n - 1, at.t, at.yoffset, at.col, s.parts[n - 1].mcuHeight) {
      i := n - 1;
      yindex, x := PartOnly(f, s, at, i, s.parts[i].mcuHeight, id);
    } else {
      i, yindex, x := PartsOnly(f, s, at, n - 1, id);
    }
  }

  // ---------------------------------------------------------------- no block twice

  ghost predicate NoRepeats(ids: seq<BlockId>) {
    forall i, j :: 0 <= i < j < |ids| ==> ids[i] != ids[j]
  }

  lemma NoRepeatsJoin(a: seq<BlockId>, b: seq<BlockId>)
    requires NoRepeats(a) && NoRepeats(b) && forall id :: id in a ==> id !in b
    ensures NoRepeats(a + b)
  {
    forall i, j | 0 <= i < j < |a + b| ensures (a + b)[i] != (a + b)[j] {
      if i < |a| <= j {
        assert a[i] in a && b[j - |a|] in b;
      }
    }
  }

  lemma {:induction false} PartNoRepeats(f: Frame, s: Setup, at: Place, i: nat, n: nat)
    requires Indexed(f, s) && i < |s.parts| && n <= s.parts[i].mcuHeight
    ensures NoRepeats(IdPart(f, s, i, at.t, at.yoffset, at.col, n))
  {
    hide Times;
    if n > 0 {
      PartNoRepeats(f, s, at, i, n - 1);
      var before, row := IdPart(f, s, i, at.t, at.yoffset, at.col, n - 1),
          IdRow(f, s, i, at.t, at.yoffset + n - 1, at.col);
      forall id | id in before ensures id !in row {
        var yindex, x := PartOnly(f, s, at, i, n - 1, id);
      }
      NoRepeatsJoin(before, row);
    }
  }

  /** The components of a scan are different ones. */
  ghost predicate Separate(s: Setup) {
    forall i, j :: 0 <= i < j < |s.parts| ==> s.parts[i].index != s.parts[j].index
  }

  lemma {:induction false} McuNoRepeats(f: Frame, s: Setup, at: Place, n: nat)
    requires Indexed(f, s) && n <= |s.parts| && Separate(s)
    ensures NoRepeats(IdParts(f, s, at, n))
  {
    if n > 0 {
      McuNoRepeats(f, s, at, n - 1);
      var before, part := IdParts(f, s, at, n - 1),
          IdPart(f, s, n - 1, at.t, at.yoffset, at.col, s.parts[n - 1].mcuHeight);
      PartNoRepeats(f, s, at, n - 1, s.parts[n - 1].mcuHeight);
      forall id | id in before ensures id !in part {
        var i, yindex, x := PartsOnly(f, s, at, n - 1, id);
        if id in part {
          var y2, x2 := PartOnly(f, s, at, n - 1, s.parts[n - 1].mcuHeight, id);
        }
      }
      NoRepeatsJoin(before, part);
    }
  }

  /** A place of the scan. */
  ghost predicate PlaceOk(f: Frame, s: Setup, at: Place)
    requires Indexed(f, s) && s.parts != []
  {
    at.t < f.TotalIMcuRows() && at.yoffset < RowsPerIMcuRow(f, s, at.t) && at.col < s.mcusPerRow
  }

  /** A block is in the MCU of one place only. */
  lemma OnePlace(f: Frame, comps: seq<nat>, s: Setup, a: Place, b: Place, id: BlockId)
    requires SetupFor(f, comps, s) && Indexed(f, s) && Separate(s) && PlaceOk(f, s, a) && PlaceOk(f, s, b)
    requires id in IdMcu(f, s, a) && id in IdMcu(f, s, b)
    ensures a == b
  {
    hide Times, DivRoundUp, LastPart, Membership;
    var i, y, x := PartsOnly(f, s, a, |s.parts|, id);
    var j, z, u := PartsOnly(f, s, b, |s.parts|, id);
    var part := s.parts[i];
    assert PartFor(f, |comps| == 1, comps[i], part) && i == j;
    RowsInside(f, comps, s, i, a, y);
    RowsInside(f, comps, s, i, b, z);
    TimesUnique(a.t, a.yoffset + y, b.t, b.yoffset + z, f.comps[part.index].v);
    TimesUnique(a.col, x, b.col, u, part.mcuWidth);
  }

  lemma RowsInside(f: Frame, comps: seq<nat>, s: Setup, i: nat, at: Place, yindex: nat)
    requires SetupFor(f, comps, s) && Indexed(f, s) && PlaceOk(f, s, at) && i < |s.parts|
    requires yindex < s.parts[i].mcuHeight
    ensures at.yoffset + yindex < f.comps[s.parts[i].index].v
    ensures |s.parts| > 1 ==> at.yoffset == 0
    ensures |s.parts| == 1 ==> yindex == 0 && at.yoffset < RealRows(f, s.parts[i].index, at.t)
  {
    hide Times, DivRoundUp, LastPart, Membership, RoundUp;
    assert PartFor(f, |comps| == 1, comps[i], s.parts[i]);
    ComponentGrid(f, comps[i]);
  }

  lemma LayoutDistinct(f: Frame, comps: seq<nat>, s: Setup)
    requires SetupFor(f, comps, s) && Indexed(f, s) && Separate(s) && s.parts != []
    ensures Distinct(Layout(f, s))
  {
    hide SetupFor, IdMcu, PlaceOk;
    var places, layout := ScanPlaces(f, s, f.TotalIMcuRows()), Layout(f, s);
    ScanOrdered(f, s, f.TotalIMcuRows());
    forall i, j, k, l | 0 <= i < |layout| && 0 <= j < |layout[i]| && 0 <= k < |layout| && 0 <= l < |layout[k]|
      && layout[i][j] == layout[k][l]
      ensures i == k && j == l
    {
      PlaceAt(f, s, i);
      PlaceAt(f, s, k);
      assert layout[i][j] in layout[i] && layout[k][l] in layout[k];
      OnePlace(f, comps, s, places[i], places[k], layout[i][j]);
      SameMcu(f, s, places[i], j, l);
    }
  }

  lemma SameMcu(f: Frame, s: Setup, at: Place, j: nat, l: nat)
    requires Indexed(f, s) && Separate(s) && j < |IdMcu(f, s, at)| && l < |IdMcu(f, s, at)|
    requires IdMcu(f, s, at)[j] == IdMcu(f, s, at)[l]
    ensures j == l
  {
    McuNoRepeats(f, s, at, |s.parts|);
  }

  lemma PlaceAt(f: Frame, s: Setup, k: nat)
    requires Indexed(f, s) && s.parts != [] && k < |ScanPlaces(f, s, f.TotalIMcuRows())|
    ensures PlaceOk(f, s, ScanPlaces(f, s, f.TotalIMcuRows())[k])
  {
    ScanOrdered(f, s, f.TotalIMcuRows());
    assert ScanPlaces(f, s, f.TotalIMcuRows())[k] in ScanPlaces(f, s, f.TotalIMcuRows());
  }

  // ---------------------------------------------------------------- the layout suits the scan

  /** Every block of an MCU is inside its array, and a real block if the scan has one component. */
  lemma IdInside(f: Frame, comps: seq<nat>, s: Setup, at: Place, id: BlockId)
    requires SetupFor(f, comps, s) && Indexed(f, s) && PlaceOk(f, s, at) && id in IdMcu(f, s, at)
    ensures InArray(f, id) && (|s.parts| == 1 ==> IsReal(f, id))
  {
    hide DivRoundUp, LastPart, Membership, RoundUp, Times;
    var i, y, x := PartsOnly(f, s, at, |s.parts|, id);
    var part := s.parts[i];
    var comp := f.comps[part.index];
    assert PartFor(f, |comps| == 1, comps[i], part);
    ComponentGrid(f, part.index);
    RowsInside(f, comps, s, i, at, y);
    TimesNext(at.t, comp.v);
    TimesMono(at.t + 1, f.TotalIMcuRows(), comp.v);
    TimesNext(f.TotalIMcuRows() - 1, comp.v);
    TimesNext(f.MCUsAcross() - 1, comp.h);
    if |comps| == 1 {
      TimesProduct(at.col, 1);
      if at.t + 1 < f.TotalIMcuRows() {
        TimesMono(at.t + 1, f.TotalIMcuRows() - 1, comp.v);
      }
    } else {
      TimesNext(at.col, part.mcuWidth);
      TimesMono(at.col + 1, f.MCUsAcross(), part.mcuWidth);
    }
  }

  /** Every number has its place in a grid of cells. */
  lemma {:induction false} TimesSplit(n: nat, w: nat) returns (a: nat, r: nat)
    requires w > 0
    ensures r < w && n == Times(a, w) + r
  {
    if n < w {
      a, r := 0, n;
    } else {
      a, r := TimesSplit(n - w, w);
      a := a + 1;
    }
  }

  /** Cells that begin before `n` cells end are among the `n`. */
  lemma CellBefore(a: nat, r: nat, n: nat, w: nat)
    requires Times(a, w) + r < Times(n, w)
    ensures a < n
  {
    if a >= n {
      TimesMono(n, a, w);
    }
  }

  /** Every real block of a component of the scan is in some MCU. */
  lemma RealHasPlace(f: Frame, comps: seq<nat>, s: Setup, i: nat, id: BlockId) returns (at: Place)
    requires SetupFor(f, comps, s) && Indexed(f, s) && i < |s.parts| && IsReal(f, id) && id.comp == s.parts[i].index
    ensures PlaceOk(f, s, at) && id in IdMcu(f, s, at)
  {
    hide DivRoundUp, LastPart, Membership, RoundUp, Times;
    var part := s.parts[i];
    var comp := f.comps[part.index];
    assert PartFor(f, |comps| == 1, comps[i], part);
    ComponentGrid(f, part.index);
    var t, y := TimesSplit(id.row, comp.v);
    TimesNext(f.TotalIMcuRows() - 1, comp.v);
    CellBefore(t, y, f.TotalIMcuRows(), comp.v);
    if |comps| == 1 {
      TimesProduct(id.col, 1);
      at := Place(t, y, id.col);
      assert At(f, s, at, id, i, 0, 0);
      PartsHave(f, s, at, |s.parts|, i, 0, 0, id);
    } else {
      var col, x := TimesSplit(id.col, comp.h);
      TimesNext(f.MCUsAcross() - 1, comp.h);
      CellBefore(col, x, f.MCUsAcross(), comp.h);
      at := Place(t, 0, col);
      assert At(f, s, at, id, i, y, x);
      PartsHave(f, s, at, |s.parts|, i, y, x, id);
    }
  }

  lemma {:induction false} PartShape(f: Frame, s: Setup, i: nat, t: nat, yoffset: nat, col: nat, n: nat)
    requires i < |s.parts| && s.parts[i].index < |f.comps|
    ensures |IdPart(f, s, i, t, yoffset, col, n)| == n * s.parts[i].mcuWidth
    ensures forall id :: id in IdPart(f, s, i, t, yoffset, col, n) ==> id.comp == s.parts[i].index
  {
    if n > 0 {
      PartShape(f, s, i, t, yoffset, col, n - 1);
    }
  }

  /** The blocks of an MCU are those of the components that `MCU_membership` tells. */
  lemma {:induction false} McuMembers(f: Frame, s: Setup, at: Place, n: nat)
    requires Indexed(f, s) && n <= |s.parts|
    ensures |IdParts(f, s, at, n)| == |Membership(s.parts, n)|
    ensures forall j :: 0 <= j < |IdParts(f, s, at, n)| ==>
      Membership(s.parts, n)[j] < n && IdParts(f, s, at, n)[j].comp == s.parts[Membership(s.parts, n)[j]].index
  {
    hide IdPart;
    if n > 0 {
      McuMembers(f, s, at, n - 1);
      PartShape(f, s, n - 1, at.t, at.yoffset, at.col, s.parts[n - 1].mcuHeight);
      var part := IdPart(f, s, n - 1, at.t, at.yoffset, at.col, s.parts[n - 1].mcuHeight);
      assert |part| == s.parts[n - 1].mcuWidth * s.parts[n - 1].mcuHeight;
      forall j | 0 <= j < |part| ensures part[j].comp == s.parts[n - 1].index {
        assert part[j] in part;
      }
    }
  }

  /** The scan's kind, components and membership are those of its script entry and setup. */
  ghost predicate Matches(scan: Script.ScanInfo, mode: ScanMode, comps: seq<nat>, s: Setup) {
    && ModeFits(scan, mode) && |scan.Comps()| == |comps| > 0
    && (forall i :: 0 <= i < |comps| ==> comps[i] == scan.Comps()[i])
    && (if mode.Ac? then |comps| == 1 else mode.membership == s.membership)
    && (forall i, j :: 0 <= i < j < |comps| ==> comps[i] != comps[j])
  }

  /** The layout of a scan that has been set up is in place, without repetitions, within the arrays, and
      complete; in an AC scan it holds real blocks only. */
  lemma LayoutSuits(f: Frame, scan: Script.ScanInfo, mode: ScanMode, comps: seq<nat>, s: Setup,
                    keys: set<BlockId>, visible: set<BlockId>)
    requires SetupFor(f, comps, s) && Indexed(f, s) && Matches(scan, mode, comps, s)
    requires forall id :: id in keys <==> InArray(f, id)
    requires forall id :: id in visible <==> IsReal(f, id)
    ensures LayoutFits(scan, mode, Layout(f, s), keys, visible)
  {
    hide Membership, IdParts, ScanPlaces, InArray, IsReal, ModeFits, IdMcu;
    var layout := Layout(f, s);
    PartsNamed(f, comps, s);
    LayoutDistinct(f, comps, s);
    forall i | 0 <= i < |layout|
      ensures |layout[i]| == mode.BlocksInMcu()
      ensures forall j :: 0 <= j < |layout[i]| ==>
        InArray(f, layout[i][j]) && (mode.Ac? ==> IsReal(f, layout[i][j])) && layout[i][j].comp == CompAt(scan, mode, j)
    {
      McuSuits(f, scan, mode, comps, s, i);
    }
    forall id | id in visible && id.comp in scan.Comps() ensures Appears(layout, id) {
      var k :| 0 <= k < |scan.Comps()| && scan.Comps()[k] == id.comp;
      Found(f, comps, s, k, id);
    }
  }

  lemma PartsNamed(f: Frame, comps: seq<nat>, s: Setup)
    requires SetupFor(f, comps, s) && forall i, j :: 0 <= i < j < |comps| ==> comps[i] != comps[j]
    ensures Separate(s) && forall i :: 0 <= i < |comps| ==> s.parts[i].index == comps[i]
  {
    forall i | 0 <= i < |comps| ensures s.parts[i].index == comps[i] {
      assert PartFor(f, |comps| == 1, comps[i], s.parts[i]);
    }
  }

  lemma McuSuits(f: Frame, scan: Script.ScanInfo, mode: ScanMode, comps: seq<nat>, s: Setup, i: nat)
    requires SetupFor(f, comps, s) && Indexed(f, s) && Matches(scan, mode, comps, s) && i < |Layout(f, s)|
    ensures var mcu := Layout(f, s)[i];
      && |mcu| == mode.BlocksInMcu()
      && forall j :: 0 <= j < |mcu| ==>
           InArray(f, mcu[j]) && (mode.Ac? ==> IsReal(f, mcu[j])) && mcu[j].comp == CompAt(scan, mode, j)
  {
    hide Membership, IdParts, InArray, IsReal, ModeFits;
    var at := ScanPlaces(f, s, f.TotalIMcuRows())[i];
    var mcu := Layout(f, s)[i];
    PlaceAt(f, s, i);
    PartsNamed(f, comps, s);
    McuMembers(f, s, at, |s.parts|);
    if mode.Ac? {
      OneBlock(f, comps, s);
    }
    forall j | 0 <= j < |mcu|
      ensures InArray(f, mcu[j]) && (mode.Ac? ==> IsReal(f, mcu[j])) && mcu[j].comp == CompAt(scan, mode, j)
    {
      assert mcu[j] in mcu;
      IdInside(f, comps, s, at, mcu[j]);
    }
  }

  /** A scan of one component has one block in each MCU. */
  lemma OneBlock(f: Frame, comps: seq<nat>, s: Setup)
    requires SetupFor(f, comps, s) && |comps| == 1
    ensures Membership(s.parts, |s.parts|) == [0]
  {
    assert PartFor(f, true, comps[0], s.parts[0]);
    assert Membership(s.parts, 0) == [];
    assert Membership(s.parts, 1) == [] + seq(1, _ => 0);
  }

  lemma Found(f: Frame, comps: seq<nat>, s: Setup, k: nat, id: BlockId)
    requires SetupFor(f, comps, s) && Indexed(f, s) && k < |s.parts| && IsReal(f, id) && id.comp == s.parts[k].index
    ensures Appears(Layout(f, s), id)
  {
    hide Membership, IdParts, IsReal;
    var at := RealHasPlace(f, comps, s, k, id);
    var places, layout := ScanPlaces(f, s, f.TotalIMcuRows()), Layout(f, s);
    ScanOrdered(f, s, f.TotalIMcuRows());
    assert at in places;
    var i :| 0 <= i < |places| && places[i] == at;
    var j :| 0 <= j < |layout[i]| && layout[i][j] == id;
  }
}
