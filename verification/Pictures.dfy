/** From the picture to the decoder and back: what the controllers collect, the entropy coders write,
    and the decoder of a script of scans rebuilds. */
module Pictures {
  import opened Wrappers
  import opened BitStrings
  import opened Coding
  import opened RunLength
  import opened Geometry
  import opened ScanSetups
  import opened CoefControl
  import opened Scans
  import opened ScanStreams
  import opened Zigzags
  import opened ScriptDecoding
  import opened ScanBlocks
  import opened ScanLayouts
  import Script = ScanScripts

  /** The image of a picture holds every block of its padded components, read in zigzag order. */
  ghost predicate ImageOf(p: Picture, order: seq<nat>, image: Image) {
    && p.frame.Valid() && IsOrder(order)
    && (forall id :: id in image <==> InArray(p.frame, id))
    && (forall c: nat, t: nat, y: nat, x: nat :: BlockOf(p, order, image, c, t, y, x))
  }

  ghost predicate BlockOf(p: Picture, order: seq<nat>, image: Image, c: nat, t: nat, y: nat, x: nat)
    requires p.frame.Valid() && IsOrder(order)
  {
    c < |p.frame.comps| && y < p.frame.comps[c].v ==>
      var id := BlockId(c, Times(t, p.frame.comps[c].v) + y, x);
      id in image ==> image[id] == Zigzag(order, Padded(p, c, t, y, x))
  }

  /** There is such an image. */
  lemma MakeImage(p: Picture, order: seq<nat>) returns (image: Image)
    requires p.frame.Valid() && IsOrder(order)
    ensures ImageOf(p, order, image)
  {
    hide IsOrder, InArray, StoredAt, BlockOf;
    var f := p.frame;
    var ids := AllIds(f, |f.comps|);
    image := map id | id in ids :: StoredAt(p, order, id);
    forall id ensures id in image <==> InArray(f, id) {
      InArrayComp(f, id);
    }
    forall c: nat, t: nat, y: nat, x: nat ensures BlockOf(p, order, image, c, t, y, x) {
      StoredBlock(p, order, image, c, t, y, x);
    }
  }

  /** The block of the picture, in zigzag order: coefficient `k` is that at the natural position of `k`. */
  ghost predicate IsBlock(p: Picture, order: seq<nat>, id: BlockId, b: Block)
    requires IsOrder(order)
  {
    && p.frame.Valid() && id.comp < |p.frame.comps|
    && var v := p.frame.comps[id.comp].v;
       forall k :: 0 <= k < 64 ==> b[k] == p.dct(id.comp, id.row / v, id.row % v, id.col)[order[k]]
  }

  /** The image holds the real blocks of the picture. */
  lemma RealCoefficients(p: Picture, order: seq<nat>, image: Image, id: BlockId)
    requires ImageOf(p, order, image) && IsReal(p.frame, id)
    ensures id in image && IsBlock(p, order, id, image[id])
  {
    hide DivRoundUp, Times, RoundUp, LastPart, RealRows, BlockOf, Zigzag, IsBlock, IsOrder;
    var f, c := p.frame, id.comp;
    RealInArray(f, id);
    var v := f.comps[c].v;
    var t, y := id.row / v, id.row % v;
    RealPlace(f, c, id.row, v, t, y);
    RowIsReal(f, c, t, y);
    assert BlockOf(p, order, image, c, t, y, id.col);
    RealBlock(p, order, image, id, t, y);
  }

  lemma RealInArray(f: Frame, id: BlockId)
    requires IsReal(f, id)
    ensures f.comps[id.comp].v > 0 && InArray(f, id)
  {
    hide DivRoundUp, Times, RoundUp, LastPart;
    ComponentGrid(f, id.comp);
    TimesNext(f.TotalIMcuRows() - 1, f.comps[id.comp].v);
    TimesNext(f.MCUsAcross() - 1, f.comps[id.comp].h);
  }

  /** Row `y` of iMCU row `t`. */
  lemma RealPlace(f: Frame, c: nat, row: nat, v: nat, t: nat, y: nat)
    requires f.Valid() && c < |f.comps| && row < f.HeightInBlocks(c) && v == f.comps[c].v && v > 0
    requires t == row / v && y == row % v
    ensures t < f.TotalIMcuRows() && y < v && Times(t, v) + y == row
  {
    hide DivRoundUp, Times, RoundUp, LastPart;
    ComponentGrid(f, c);
    TimesNext(f.TotalIMcuRows() - 1, v);
    TimesProduct(t, v);
    if t >= f.TotalIMcuRows() {
      TimesMono(f.TotalIMcuRows(), t, v);
    }
  }

  lemma RealBlock(p: Picture, order: seq<nat>, image: Image, id: BlockId, t: nat, y: nat)
    requires IsReal(p.frame, id) && IsOrder(order) && id in image && p.frame.comps[id.comp].v > 0
    requires var v := p.frame.comps[id.comp].v;
      t == id.row / v && y == id.row % v && Times(t, v) + y == id.row && y < RealRows(p.frame, id.comp, t)
    requires BlockOf(p, order, image, id.comp, t, y, id.col)
    ensures IsBlock(p, order, id, image[id])
  {
    hide DivRoundUp, Times, LastPart, RealRows, Dummy;
    assert id == BlockId(id.comp, Times(t, p.frame.comps[id.comp].v) + y, id.col);
  }

  lemma InArrayComp(f: Frame, id: BlockId)
    ensures InArray(f, id) ==> id.comp < |f.comps|
  {
  }

  lemma StoredBlock(p: Picture, order: seq<nat>, image: Image, c: nat, t: nat, y: nat, x: nat)
    requires p.frame.Valid() && IsOrder(order) && forall id :: id in image ==> image[id] == StoredAt(p, order, id)
    ensures BlockOf(p, order, image, c, t, y, x)
  {
    hide IsOrder, Zigzag, Padded;
    if c < |p.frame.comps| && y < p.frame.comps[c].v {
      var v := p.frame.comps[c].v;
      TimesProduct(t, v);
      CellOf(t, y, v);
      ModOf(t, y, v);
    }
  }

  function StoredAt(p: Picture, order: seq<nat>, id: BlockId): Block
    requires p.frame.Valid() && IsOrder(order)
  {
    if id.comp < |p.frame.comps| then
      var v := p.frame.comps[id.comp].v;
      Zigzag(order, Padded(p, id.comp, id.row / v, id.row % v, id.col))
    else Dummy(0)
  }

  /** The blocks of the first `n` components. */
  ghost function AllIds(f: Frame, n: nat): (r: set<BlockId>)
    requires f.Valid() && n <= |f.comps|
    ensures forall id :: id in r <==> InArray(f, id) && id.comp < n
  {
    if n == 0 then {} else AllIds(f, n - 1) + RowIds(f, n - 1, Times(f.TotalIMcuRows(), f.comps[n - 1].v))
  }

  ghost function RowIds(f: Frame, c: nat, n: nat): (r: set<BlockId>)
    requires f.Valid() && c < |f.comps|
    ensures forall id :: id in r <==> id.comp == c && id.row < n && id.col < Times(f.MCUsAcross(), f.comps[c].h)
  {
    if n == 0 then {} else RowIds(f, c, n - 1) + ColIds(c, n - 1, Times(f.MCUsAcross(), f.comps[c].h))
  }

  ghost function ColIds(c: nat, row: nat, n: nat): (r: set<BlockId>)
    ensures forall id :: id in r <==> id.comp == c && id.row == row && id.col < n
  {
    if n == 0 then {} else ColIds(c, row, n - 1) + {BlockId(c, row, n - 1)}
  }

  // ---------------------------------------------------------------- what the coders are given

  /** Block row by block row, the blocks of an MCU are those at the ids of its layout. */
  lemma {:induction false} PartGathered(p: Picture, comps: seq<nat>, s: Setup, order: seq<nat>, image: Image,
                                        at: Place, i: nat, n: nat)
    requires SetupFor(p.frame, comps, s) && Suits(p, s) && Indexed(p.frame, s) && ImageOf(p, order, image)
    requires i < |s.parts| && PlaceOk(p.frame, s, at) && n <= s.parts[i].mcuHeight
    requires forall id :: id in IdPart(p.frame, s, i, at.t, at.yoffset, at.col, n) ==> id in image
    ensures SameBlocks(order, image, IdPart(p.frame, s, i, at.t, at.yoffset, at.col, n),
                       Part(p, s, i, at.t, at.yoffset, at.col, n))
  {
    hide Padded, Times, Zigzag, IsOrder, InArray, RowsPerIMcuRow, Membership;
    var f := p.frame;
    if n > 0 {
      PartGathered(p, comps, s, order, image, at, i, n - 1);
      var y := at.yoffset + n - 1;
      RowsInside(f, comps, s, i, at, n - 1);
      var ids, blocks := IdRow(f, s, i, at.t, y, at.col), PartRow(p, s, i, at.t, y, at.col);
      forall x | 0 <= x < |ids| ensures image[ids[x]] == Zigzag(order, blocks[x]) {
        assert ids[x] in ids;
        assert BlockOf(p, order, image, s.parts[i].index, at.t, y, Times(at.col, s.parts[i].mcuWidth) + x);
      }
    }
  }

  ghost predicate SameBlocks(order: seq<nat>, image: Image, ids: seq<BlockId>, blocks: seq<Block>)
    requires IsOrder(order)
  {
    |ids| == |blocks| && forall j :: 0 <= j < |ids| ==> ids[j] in image && image[ids[j]] == Zigzag(order, blocks[j])
  }

  lemma {:induction false} PartsGathered(p: Picture, comps: seq<nat>, s: Setup, order: seq<nat>, image: Image,
                                         at: Place, n: nat)
    requires SetupFor(p.frame, comps, s) && Suits(p, s) && Indexed(p.frame, s) && ImageOf(p, order, image)
    requires PlaceOk(p.frame, s, at) && n <= |s.parts|
    requires forall id :: id in IdParts(p.frame, s, at, n) ==> id in image
    ensures SameBlocks(order, image, IdParts(p.frame, s, at, n), Parts(p, s, at.t, at.yoffset, at.col, n))
  {
    hide ImageOf, PlaceOk, SetupFor, Zigzag, IdPart, Part;
    if n > 0 {
      PartsGathered(p, comps, s, order, image, at, n - 1);
      PartGathered(p, comps, s, order, image, at, n - 1, s.parts[n - 1].mcuHeight);
    }
  }

  /** The scan as the decoder's image has it is the scan as the controllers hand it over. */
  lemma GatheredIsScan(p: Picture, comps: seq<nat>, s: Setup, order: seq<nat>, image: Image)
    requires SetupFor(p.frame, comps, s) && Suits(p, s) && Indexed(p.frame, s) && s.parts != []
    requires ImageOf(p, order, image)
    ensures Within(Layout(p.frame, s), image.Keys)
    ensures Gather(image, Layout(p.frame, s)) == ZigzagScan(order, ScanMcus(p, s))
  {
    hide SetupFor, Zigzag, IdParts, Parts, ScanPlaces, InArray, PlaceOk;
    var f := p.frame;
    var layout, places := Layout(f, s), ScanPlaces(f, s, f.TotalIMcuRows());
    forall k | 0 <= k < |layout|
      ensures SameBlocks(order, image, layout[k], ScanMcus(p, s)[k])
    {
      PlaceAt(f, s, k);
      forall id | id in layout[k] ensures id in image {
        IdInside(f, comps, s, places[k], id);
      }
      PartsGathered(p, comps, s, order, image, places[k], |s.parts|);
    }
    SameScan(order, image, layout, ScanMcus(p, s));
  }

  lemma SameScan(order: seq<nat>, image: Image, layout: seq<seq<BlockId>>, mcus: seq<seq<Block>>)
    requires IsOrder(order) && |layout| == |mcus|
    requires forall k :: 0 <= k < |layout| ==> SameBlocks(order, image, layout[k], mcus[k])
    ensures Within(layout, image.Keys) && Gather(image, layout) == ZigzagScan(order, mcus)
  {
    hide Zigzag, IsOrder;
    forall i, j | 0 <= i < |layout| && 0 <= j < |layout[i]| ensures layout[i][j] in image.Keys {
      assert SameBlocks(order, image, layout[i], mcus[i]);
    }
    forall i | 0 <= i < |layout| ensures Gather(image, layout)[i] == ZigzagScan(order, mcus)[i] {
      assert SameBlocks(order, image, layout[i], mcus[i]);
      assert Gather(image, layout)[i] == ZigzagAll(order, mcus[i]);
    }
  }

  // ---------------------------------------------------------------- the whole picture

  /** How one scan of the script is set up and coded. */
  datatype ScanJob = ScanJob(mode: ScanMode, comps: seq<nat>, setup: Setup, books: Books)

  /** The jobs are those of the script: kind, components, and setup of each scan. */
  ghost predicate JobsFor(p: Picture, script: seq<Script.ScanInfo>, jobs: seq<ScanJob>) {
    && |jobs| == |script| && p.frame.Valid()
    && forall i :: 0 <= i < |jobs| ==> JobFor(p, script[i], jobs[i])
  }

  ghost predicate JobFor(p: Picture, scan: Script.ScanInfo, job: ScanJob) {
    && SetupFor(p.frame, job.comps, job.setup) && Indexed(p.frame, job.setup)
    && Matches(scan, job.mode, job.comps, job.setup) && job.setup.parts != []
  }

  /** What the entropy coder writes for a scan, given the MCUs of the coefficient controller. */
  ghost predicate StreamFor(p: Picture, order: seq<nat>, job: ScanJob, bytes: seq<Byte>)
    requires p.frame.Valid() && IsOrder(order)
  {
    Suits(p, job.setup) && job.setup.parts != [] &&
    var mcus := ZigzagScan(order, ScanMcus(p, job.setup));
    && Shaped(job.mode, mcus) && ScanOk(job.mode, job.setup.restartInterval, mcus)
    && SegmentsCodable(HuffmanCodec(job.books), ScanSegments(job.mode, job.setup.restartInterval, mcus))
    && bytes == ScanOutput(HuffmanCodec(job.books), ScanSegments(job.mode, job.setup.restartInterval, mcus))
  }

  function SettingOf(p: Picture, job: ScanJob): Setting
    requires Indexed(p.frame, job.setup) && job.setup.parts != []
  {
    Setting(job.mode, job.setup.restartInterval, job.books, Layout(p.frame, job.setup))
  }

  /** The decoder's settings for all scans. */
  function SettingsOf(p: Picture, script: seq<Script.ScanInfo>, jobs: seq<ScanJob>): (r: seq<Setting>)
    requires JobsFor(p, script, jobs)
    ensures |r| == |jobs|
  {
    seq(|jobs|, i requires 0 <= i < |jobs| => assert JobFor(p, script[i], jobs[i]); SettingOf(p, jobs[i]))
  }

  /** For every picture, and every script in order: if the coders wrote a stream for each scan, then
      decoding the streams in order yields, of every real block, exactly what the script sent. */
  lemma PictureRoundTrip(p: Picture, order: seq<nat>, progressive: bool, script: seq<Script.ScanInfo>,
                         jobs: seq<ScanJob>, streams: seq<seq<Byte>>, image: Image, blank: Image, visible: set<BlockId>)
    requires JobsFor(p, script, jobs) && Script.OrderOk(progressive, |p.frame.comps|, script)
    requires ImageOf(p, order, image) && Blank(image, blank) && forall id :: id in visible <==> IsReal(p.frame, id)
    requires |streams| == |script| && forall i :: 0 <= i < |script| ==> StreamFor(p, order, jobs[i], streams[i])
    ensures var o := DecodeScans(blank, SettingsOf(p, script, jobs), streams, |script|);
      o.Some? && Holds(image, visible, script, o.value)
  {
    hide Script.OrderOk, StreamFor, JobFor, Holds, IsReal, DecodeScans, Blank, ImageOf, ScanStream,
         ScriptDecoding.Codable, SettingReady, Script.LastAl;
    var settings := SettingsOf(p, script, jobs);
    forall i | 0 <= i < |script| ensures SettingReady(script[i], settings[i], image, visible, streams[i]) {
      JobAt(p, script, jobs, i);
      JobSuits(p, order, script[i], jobs[i], streams[i], image, visible);
    }
    RealInside(p, order, image, visible);
    AllReady(script, settings, image, visible, streams);
    assert script[..|script|] == script;
    ScriptRoundTrip(progressive, |p.frame.comps|, script, settings, image, visible, blank, streams, |script|);
  }

  lemma JobAt(p: Picture, script: seq<Script.ScanInfo>, jobs: seq<ScanJob>, i: nat)
    requires JobsFor(p, script, jobs) && i < |script|
    ensures JobFor(p, script[i], jobs[i]) && SettingsOf(p, script, jobs)[i] == SettingOf(p, jobs[i])
  {
    hide JobFor;
    assert JobFor(p, script[i], jobs[i]);
  }

  ghost predicate SettingReady(scan: Script.ScanInfo, st: Setting, image: Image, visible: set<BlockId>,
                               bytes: seq<Byte>) {
    && LayoutFits(scan, st.mode, st.layout, image.Keys, visible)
    && ScanCodable(image, st) && bytes == ScanStream(image, st)
  }

  lemma AllReady(script: seq<Script.ScanInfo>, settings: seq<Setting>, image: Image, visible: set<BlockId>,
                 streams: seq<seq<Byte>>)
    requires |settings| == |script| == |streams| && visible <= image.Keys
    requires forall i :: 0 <= i < |script| ==> SettingReady(script[i], settings[i], image, visible, streams[i])
    ensures ScriptDecoding.Codable(script, settings, image, visible)
    ensures forall i :: 0 <= i < |script| ==> streams[i] == ScanStream(image, settings[i])
  {
    hide ScanStream;
    forall i | 0 <= i < |script|
      ensures LayoutFits(script[i], settings[i].mode, settings[i].layout, image.Keys, visible)
      ensures ScanCodable(image, settings[i]) && streams[i] == ScanStream(image, settings[i])
    {
      assert SettingReady(script[i], settings[i], image, visible, streams[i]);
    }
  }

  lemma JobSuits(p: Picture, order: seq<nat>, scan: Script.ScanInfo, job: ScanJob, bytes: seq<Byte>,
                 image: Image, visible: set<BlockId>)
    requires JobFor(p, scan, job) && ImageOf(p, order, image) && forall id :: id in visible <==> IsReal(p.frame, id)
    requires StreamFor(p, order, job, bytes)
    ensures SettingReady(scan, SettingOf(p, job), image, visible, bytes)
  {
    hide LayoutFits, SetupFor, Matches, IsReal, InArray, ScanSegments, ScanOutput, SegmentsCodable, Layout;
    GatheredIsScan(p, job.comps, job.setup, order, image);
    LayoutSuits(p.frame, scan, job.mode, job.comps, job.setup, image.Keys, visible);
  }

  lemma RealInside(p: Picture, order: seq<nat>, image: Image, visible: set<BlockId>)
    requires ImageOf(p, order, image) && forall id :: id in visible <==> IsReal(p.frame, id)
    ensures visible <= image.Keys
  {
    hide DivRoundUp, Times, RoundUp, LastPart;
    forall id | id in visible ensures id in image {
      assert IsReal(p.frame, id);
      var comp := p.frame.comps[id.comp];
      ComponentGrid(p.frame, id.comp);
      TimesNext(p.frame.TotalIMcuRows() - 1, comp.v);
      TimesNext(p.frame.MCUsAcross() - 1, comp.h);
    }
  }

  /** With a valid script that leaves nothing unsent, as `jpeg_simple_progression` writes it, the decoder
      gets every real block of the picture back exactly. */
  lemma PictureLossless(p: Picture, order: seq<nat>, script: seq<Script.ScanInfo>, jobs: seq<ScanJob>,
                        streams: seq<seq<Byte>>, image: Image, blank: Image, visible: set<BlockId>, id: BlockId)
    requires JobsFor(p, script, jobs) && Script.ValidScript(|p.frame.comps|, script)
    requires ImageOf(p, order, image) && Blank(image, blank) && forall id :: id in visible <==> IsReal(p.frame, id)
    requires |streams| == |script| && forall i :: 0 <= i < |script| ==> StreamFor(p, order, jobs[i], streams[i])
    requires forall c, k :: 0 <= c < |p.frame.comps| && 0 <= k < 64 ==> Script.LastAl(script, c, k) == 0
    requires IsReal(p.frame, id)
    ensures var o := DecodeScans(blank, SettingsOf(p, script, jobs), streams, |script|);
      o.Some? && id in o.value && id in image && o.value[id] == image[id]
  {
    hide Script.OrderOk, StreamFor, JobFor, DecodeScans, Blank, ImageOf, Script.LastAl, KnownBlock, IsZero;
    PictureRoundTrip(p, order, Script.Progressive(script), script, jobs, streams, image, blank, visible);
    var store := DecodeScans(blank, SettingsOf(p, script, jobs), streams, |script|).value;
    assert id in visible;
    FullyKnown(script, id.comp, image[id], store[id]);
  }

  /** Coefficient by coefficient, in terms of the picture itself. */
  lemma PictureReturned(p: Picture, order: seq<nat>, script: seq<Script.ScanInfo>, jobs: seq<ScanJob>,
                        streams: seq<seq<Byte>>, image: Image, blank: Image, visible: set<BlockId>, id: BlockId)
    requires JobsFor(p, script, jobs) && Script.ValidScript(|p.frame.comps|, script)
    requires ImageOf(p, order, image) && Blank(image, blank) && forall id :: id in visible <==> IsReal(p.frame, id)
    requires |streams| == |script| && forall i :: 0 <= i < |script| ==> StreamFor(p, order, jobs[i], streams[i])
    requires forall c, k :: 0 <= c < |p.frame.comps| && 0 <= k < 64 ==> Script.LastAl(script, c, k) == 0
    requires IsReal(p.frame, id)
    ensures var o := DecodeScans(blank, SettingsOf(p, script, jobs), streams, |script|);
      o.Some? && id in o.value && IsBlock(p, order, id, o.value[id])
  {
    hide *;
    PictureLossless(p, order, script, jobs, streams, image, blank, visible, id);
    RealCoefficients(p, order, image, id);
  }
}
