/** A whole image sent by a script of scans: decoding the scans in order rebuilds every coefficient
    down to the last bit position sent. */
module ScriptDecoding {
  import opened Wrappers
  import opened BitStrings
  import opened EntropySegments
  import opened HuffmanTables
  import opened Coding
  import opened RunLength
  import opened AcRefinement
  import opened AcScans
  import opened Scans
  import opened ScanStreams
  import Script = ScanScripts

  /** One block of a component's block array. */
  datatype BlockId = BlockId(comp: nat, row: nat, col: nat)

  type Image = map<BlockId, Block>

  /** How one scan of the script is coded: its kind, restart interval, Huffman tables, and the blocks
      of its MCUs in order. */
  datatype Setting = Setting(mode: ScanMode, interval: nat, books: Books, layout: seq<seq<BlockId>>)

  ghost predicate IsZero(b: Block) { forall k :: 0 <= k < 64 ==> b[k] == 0 }

  // ---------------------------------------------------------------- blocks in and out of a scan

  ghost predicate Within(layout: seq<seq<BlockId>>, keys: set<BlockId>) {
    forall i, j :: 0 <= i < |layout| && 0 <= j < |layout[i]| ==> layout[i][j] in keys
  }

  function Gather(image: Image, layout: seq<seq<BlockId>>): (r: seq<Mcu>)
    requires Within(layout, image.Keys)
    ensures |r| == |layout| && forall i :: 0 <= i < |r| ==> |r[i]| == |layout[i]|
  {
    seq(|layout|, i requires 0 <= i < |layout| =>
      seq(|layout[i]|, j requires 0 <= j < |layout[i]| => image[layout[i][j]]))
  }

  function PutMcu(image: Image, ids: seq<BlockId>, mcu: Mcu): Image
    requires |ids| == |mcu|
  {
    if ids == [] then image
    else PutMcu(image, ids[..|ids| - 1], mcu[..|mcu| - 1])[ids[|ids| - 1] := mcu[|mcu| - 1]]
  }

  function PutAll(image: Image, layout: seq<seq<BlockId>>, mcus: seq<Mcu>): Image
    requires |layout| == |mcus| && forall i :: 0 <= i < |mcus| ==> |mcus[i]| == |layout[i]|
  {
    if layout == [] then image
    else PutMcu(PutAll(image, layout[..|layout| - 1], mcus[..|mcus| - 1]), layout[|layout| - 1], mcus[|mcus| - 1])
  }

  /** No block is coded twice in a scan. */
  ghost predicate Distinct(layout: seq<seq<BlockId>>) {
    forall i, j, k, l :: 0 <= i < |layout| && 0 <= j < |layout[i]| && 0 <= k < |layout| && 0 <= l < |layout[k]| ==>
      layout[i][j] == layout[k][l] ==> i == k && j == l
  }

  lemma {:induction false} PutMcuMisses(image: Image, ids: seq<BlockId>, mcu: Mcu, id: BlockId)
    requires |ids| == |mcu| && id in image
    ensures id in PutMcu(image, ids, mcu)
    ensures id !in ids ==> PutMcu(image, ids, mcu)[id] == image[id]
  {
    if ids != [] {
      PutMcuMisses(image, ids[..|ids| - 1], mcu[..|mcu| - 1], id);
    }
  }

  lemma {:induction false} PutMcuHits(image: Image, ids: seq<BlockId>, mcu: Mcu, j: nat)
    requires |ids| == |mcu| && j < |ids| && forall k, l :: 0 <= k < l < |ids| ==> ids[k] != ids[l]
    ensures ids[j] in PutMcu(image, ids, mcu) && PutMcu(image, ids, mcu)[ids[j]] == mcu[j]
  {
    if j < |ids| - 1 {
      PutMcuHits(image, ids[..|ids| - 1], mcu[..|mcu| - 1], j);
    }
  }

  lemma {:induction false} PutMcuKeys(image: Image, ids: seq<BlockId>, mcu: Mcu)
    requires |ids| == |mcu| && forall j :: 0 <= j < |ids| ==> ids[j] in image
    ensures PutMcu(image, ids, mcu).Keys == image.Keys
  {
    if ids != [] {
      PutMcuKeys(image, ids[..|ids| - 1], mcu[..|mcu| - 1]);
    }
  }

  lemma {:induction false} PutAllKeys(image: Image, layout: seq<seq<BlockId>>, mcus: seq<Mcu>)
    requires |layout| == |mcus| && (forall i :: 0 <= i < |mcus| ==> |mcus[i]| == |layout[i]|)
    requires Within(layout, image.Keys)
    ensures PutAll(image, layout, mcus).Keys == image.Keys
  {
    if layout != [] {
      var n := |layout| - 1;
      PutAllKeys(image, layout[..n], mcus[..n]);
      PutMcuKeys(PutAll(image, layout[..n], mcus[..n]), layout[n], mcus[n]);
    }
  }

  lemma {:induction false} PutAllMisses(image: Image, layout: seq<seq<BlockId>>, mcus: seq<Mcu>, id: BlockId)
    requires |layout| == |mcus| && (forall i :: 0 <= i < |mcus| ==> |mcus[i]| == |layout[i]|) && id in image
    requires forall i :: 0 <= i < |layout| ==> id !in layout[i]
    ensures id in PutAll(image, layout, mcus) && PutAll(image, layout, mcus)[id] == image[id]
  {
    if layout != [] {
      var n := |layout| - 1;
      PutAllMisses(image, layout[..n], mcus[..n], id);
      PutMcuMisses(PutAll(image, layout[..n], mcus[..n]), layout[n], mcus[n], id);
    }
  }

  lemma {:induction false} PutAllHits(image: Image, layout: seq<seq<BlockId>>, mcus: seq<Mcu>, i: nat, j: nat)
    requires |layout| == |mcus| && (forall k :: 0 <= k < |mcus| ==> |mcus[k]| == |layout[k]|) && Distinct(layout)
    requires i < |layout| && j < |layout[i]|
    ensures layout[i][j] in PutAll(image, layout, mcus) && PutAll(image, layout, mcus)[layout[i][j]] == mcus[i][j]
  {
    var n := |layout| - 1;
    var rest := PutAll(image, layout[..n], mcus[..n]);
    if i < n {
      PutAllHits(image, layout[..n], mcus[..n], i, j);
      PutMcuMisses(rest, layout[n], mcus[n], layout[i][j]);
    } else {
      PutMcuHits(rest, layout[n], mcus[n], j);
    }
  }

  // ---------------------------------------------------------------- what has been sent

  /** What a decoder knows of a coefficient sent down to bit `last`. */
  function Known(v: int, k: nat, last: int): int
  {
    if last < 0 then 0 else if k == 0 then DcView(v, last) else View(v, last)
  }

  lemma {:induction false} ShlProduct(x: nat, k: nat)
    ensures Shl(x, k) == x * Pow2(k)
  {
    if k > 0 {
      ShlProduct(x, k - 1);
      assert x * Pow2(k) == 2 * (x * Pow2(k - 1));
    }
  }

  lemma Distribute(q: int, p: int)
    ensures (2 * q) * p == 2 * (q * p) && (2 * q + 1) * p == 2 * (q * p) + p && (2 * q + 2) * p == 2 * (q * p) + 2 * p
    ensures q * (2 * p) == 2 * (q * p) && (q + 1) * (2 * p) == 2 * (q * p) + 2 * p
  {
  }

  lemma Halved(y: int, p: int, v: int)
    requires y * p <= v < (y + 1) * p
    ensures (y / 2) * (2 * p) <= v < (y / 2 + 1) * (2 * p)
  {
    var q := y / 2;
    Distribute(q, p);
    if y == 2 * q {
      assert y + 1 == 2 * q + 1;
    } else {
      assert y == 2 * q + 1 && y + 1 == 2 * q + 2;
    }
  }

  lemma {:induction false} ShrFloor(v: int, k: nat)
    ensures Shr(v, k) * Pow2(k) <= v < (Shr(v, k) + 1) * Pow2(k)
    decreases k
  {
    if k > 0 {
      ShrFloor(v, k - 1);
      Halved(Shr(v, k - 1), Pow2(k - 1), v);
    }
  }

  lemma ScaleProduct(v: int, k: nat)
    ensures Scale(v, k) == v * Pow2(k)
  {
    ShlProduct(if v < 0 then -v else v, k);
  }

  /** In numbers: of a DC coefficient the largest multiple of `2^last` that is not above it, of an AC coefficient the
      nearest multiple toward zero. */
  lemma KnownNumber(v: int, k: nat, last: nat) returns (q: int)
    ensures Known(v, k, last) == q * Pow2(last)
    ensures k == 0 || v >= 0 ==> q * Pow2(last) <= v < (q + 1) * Pow2(last)
    ensures k > 0 && v < 0 ==> (q - 1) * Pow2(last) < v <= q * Pow2(last)
  {
    hide Shr, Shl, Pow2, Scale;
    if k == 0 || v >= 0 {
      q := Shr(v, last);
      ShrFloor(v, last);
    } else {
      q := -Shr(-v, last);
      ShrFloor(-v, last);
      var p := Pow2(last);
      assert (-q) * p == -(q * p) && (-q + 1) * p == -((q - 1) * p);
    }
    ScaleProduct(q, last);
  }

  /** Block `b` is what is known of `z` after the scans `before`. */
  ghost predicate KnownBlock(before: seq<Script.ScanInfo>, c: nat, z: Block, b: Block) {
    forall k :: 0 <= k < 64 ==> b[k] == Known(z[k], k, Script.LastAl(before, c, k))
  }

  /** The store holds what is known of every real block; nothing of a component not yet sent, not even
      in the dummy blocks at its edges. */
  ghost predicate Holds(image: Image, visible: set<BlockId>, before: seq<Script.ScanInfo>, store: Image) {
    && store.Keys == image.Keys && visible <= image.Keys
    && (forall id :: id in visible ==> KnownBlock(before, id.comp, image[id], store[id]))
    && (forall id :: id in store && Script.LastAl(before, id.comp, 0) < 0 ==> IsZero(store[id]))
  }

  /** The kind of scan the parameters call for. */
  ghost predicate ModeFits(s: Script.ScanInfo, mode: ScanMode) {
    if s.ss == 0 then
      !mode.Ac? && |mode.comps| == |s.Comps()| &&
      if s.se != 0 then mode.Sequential?
      else if s.ah == 0 then mode.DcFirst? && mode.al == s.al
      else mode.DcRefine? && mode.al == s.al
    else
      mode.Ac? && mode.params.ss == s.ss && mode.params.se == s.se && mode.params.al == s.al
      && (mode.params.refine <==> s.ah != 0)
  }

  /** The component of block `j` of an MCU. */
  function CompAt(s: Script.ScanInfo, mode: ScanMode, j: nat): int
    requires ModeFits(s, mode) && |s.Comps()| > 0 && j < mode.BlocksInMcu()
  {
    if mode.Ac? then s.Comps()[0] else s.Comps()[mode.membership[j]]
  }

  /** The MCUs hold blocks of the scan's components in place, none twice, and every real block; an AC
      scan has no dummy blocks. */
  ghost predicate LayoutFits(s: Script.ScanInfo, mode: ScanMode, layout: seq<seq<BlockId>>,
                             keys: set<BlockId>, visible: set<BlockId>)
  {
    && ModeFits(s, mode) && |s.Comps()| > 0 && Distinct(layout) && Within(layout, keys)
    && (forall i :: 0 <= i < |layout| ==> |layout[i]| == mode.BlocksInMcu())
    && InPlace(s, mode, layout)
    && (mode.Ac? ==> Within(layout, visible))
    && Covers(s.Comps(), layout, visible)
  }

  ghost predicate InPlace(s: Script.ScanInfo, mode: ScanMode, layout: seq<seq<BlockId>>)
    requires ModeFits(s, mode) && |s.Comps()| > 0
    requires forall i :: 0 <= i < |layout| ==> |layout[i]| == mode.BlocksInMcu()
  {
    forall i, j :: 0 <= i < |layout| && 0 <= j < mode.BlocksInMcu() ==> layout[i][j].comp == CompAt(s, mode, j)
  }

  ghost predicate Covers(comps: seq<int>, layout: seq<seq<BlockId>>, visible: set<BlockId>) {
    forall id :: id in visible && id.comp in comps ==> Appears(layout, id)
  }

  ghost predicate Appears(layout: seq<seq<BlockId>>, id: BlockId) {
    exists i, j :: 0 <= i < |layout| && 0 <= j < |layout[i]| && layout[i][j] == id
  }

  // ---------------------------------------------------------------- one scan

  ghost predicate ReadyBlock(mode: ScanMode, z: Block, b: Block) {
    if mode.Ac? then Before(mode.params, z, b) else BlockBefore(mode, z, b)
  }

  function DoneBlock(mode: ScanMode, z: Block, b: Block): Block
  {
    if mode.Ac? then After(mode.params, z, b) else BlockAfter(mode, z, b)
  }

  lemma ViewZero(v: int)
    ensures View(v, 0) == v && DcView(v, 0) == v
  {
  }

  /** One block through one scan of a valid script: what the decoder knows of it is what the scan
      presumes, and afterwards what the script says. */
  lemma BlockMoves(progressive: bool, n: int, before: seq<Script.ScanInfo>, s: Script.ScanInfo, mode: ScanMode,
                   c: nat, z: Block, b: Block)
    requires Script.ScanOk(progressive, n, before, s) && ModeFits(s, mode) && c in s.Comps()
    requires KnownBlock(before, c, z, b)
    requires mode.Sequential? ==> IsZero(b)
    ensures ReadyBlock(mode, z, b)
    ensures KnownBlock(before + [s], c, z, DoneBlock(mode, z, b))
  {
    if progressive {
      assert Script.BandOk(before, s, c);
    }
    forall k | s.ss <= k <= s.se
      ensures s.ah == 0 ==> b[k] == 0
      ensures s.ah > 0 ==> s.al + 1 == s.ah && b[k] == Known(z[k], k, s.al + 1)
    {
      if progressive {
        assert Script.Continues(s, Script.LastAl(before, c, k));
      }
    }
    var r := DoneBlock(mode, z, b);
    forall k | 0 <= k < 64 ensures r[k] == Known(z[k], k, Script.LastAl(before + [s], c, k)) {
      Script.LastAlSnoc(before, s, c, k);
      ViewZero(z[k]);
      if mode.DcRefine? && k == 0 {
        DcRefineView(z[0], s.al);
      }
    }
  }

  lemma GatherReady(progressive: bool, n: int, before: seq<Script.ScanInfo>, s: Script.ScanInfo, mode: ScanMode,
                    layout: seq<seq<BlockId>>, image: Image, visible: set<BlockId>, store: Image)
    requires Holds(image, visible, before, store) && Script.ScanOk(progressive, n, before, s)
    requires LayoutFits(s, mode, layout, image.Keys, visible)
    ensures Shaped(mode, Gather(image, layout)) && Shaped(mode, Gather(store, layout))
    ensures McusBefore(mode, Gather(image, layout), Gather(store, layout))
  {
    hide Script.LastAl, Script.ComponentsOk, KnownBlock, Before, Knows, IsZero, Distinct, Covers;
    var mcus, priors := Gather(image, layout), Gather(store, layout);
    forall i | 0 <= i < |mcus| ensures McuBefore(mode, mcus[i], priors[i]) {
      forall j | 0 <= j < |mcus[i]|
        ensures if mode.Ac? then Before(mode.params, mcus[i][j], priors[i][j])
            else BlockBefore(mode, mcus[i][j], priors[i][j])
      {
        var id := layout[i][j];
        assert id in image.Keys && id.comp == CompAt(s, mode, j) && id.comp in s.Comps();
        ReadyAt(progressive, n, before, s, mode, image, visible, store, id);
      }
    }
  }

  lemma ReadyAt(progressive: bool, n: int, before: seq<Script.ScanInfo>, s: Script.ScanInfo, mode: ScanMode,
                image: Image, visible: set<BlockId>, store: Image, id: BlockId)
    requires Holds(image, visible, before, store) && Script.ScanOk(progressive, n, before, s) && ModeFits(s, mode)
    requires id in image && id.comp in s.Comps() && (mode.Ac? ==> id in visible)
    ensures ReadyBlock(mode, image[id], store[id])
  {
    hide Before;
    assert mode.Sequential? ==> IsZero(store[id]);
    if mode.Ac? {
      BlockMoves(progressive, n, before, s, mode, id.comp, image[id], store[id]);
    }
  }

  /** A block in the scan is put in place as its kind of scan leaves it. */
  lemma PutDone(s: Script.ScanInfo, mode: ScanMode, layout: seq<seq<BlockId>>, image: Image, visible: set<BlockId>,
                store: Image, id: BlockId)
    requires LayoutFits(s, mode, layout, image.Keys, visible) && store.Keys == image.Keys && Appears(layout, id)
    ensures id in store && id in image && id.comp in s.Comps()
    ensures var after := McusAfter(mode, Gather(image, layout), Gather(store, layout));
      var store' := PutAll(store, layout, after);
      id in store' && store'[id] == DoneBlock(mode, image[id], store[id])
  {
    hide PutAll, BlockAfter, After;
    var mcus, priors := Gather(image, layout), Gather(store, layout);
    var after := McusAfter(mode, mcus, priors);
    PutAllKeys(store, layout, after);
    var i, j :| 0 <= i < |layout| && 0 <= j < |layout[i]| && layout[i][j] == id;
    PutAllHits(store, layout, after, i, j);
    assert id.comp == CompAt(s, mode, j);
    assert after[i] == McuAfter(mode, mcus[i], priors[i]);
    assert after[i][j] == DoneBlock(mode, mcus[i][j], priors[i][j]);
  }

  /** One scan decoded: the store holds what is known after it. */
  lemma ScanMoves(progressive: bool, n: int, before: seq<Script.ScanInfo>, s: Script.ScanInfo, mode: ScanMode,
                  layout: seq<seq<BlockId>>, image: Image, visible: set<BlockId>, store: Image)
    requires Holds(image, visible, before, store) && Script.ScanOk(progressive, n, before, s)
    requires LayoutFits(s, mode, layout, image.Keys, visible)
    ensures Holds(image, visible, before + [s],
                  PutAll(store, layout, McusAfter(mode, Gather(image, layout), Gather(store, layout))))
  {
    hide Script.LastAl, Script.ComponentsOk, KnownBlock, Before, Knows, IsZero, Script.ScanOk, PutAll, BlockAfter,
         After;
    var mcus, priors := Gather(image, layout), Gather(store, layout);
    var after := McusAfter(mode, mcus, priors);
    var store' := PutAll(store, layout, after);
    PutAllKeys(store, layout, after);
    forall id | id in image ensures
      if Appears(layout, id) then id.comp in s.Comps() && store'[id] == DoneBlock(mode, image[id], store[id])
      else store'[id] == store[id]
    {
      if Appears(layout, id) {
        PutDone(s, mode, layout, image, visible, store, id);
      } else {
        PutAllMisses(store, layout, after, id);
      }
    }
    forall id | id in image
      ensures id in visible ==> KnownBlock(before + [s], id.comp, image[id], store'[id])
      ensures Script.LastAl(before + [s], id.comp, 0) < 0 ==> IsZero(store'[id])
    {
      IdMoves(progressive, n, before, s, mode, layout, image, visible, store, id, store'[id]);
    }
  }

  lemma IdMoves(progressive: bool, n: int, before: seq<Script.ScanInfo>, s: Script.ScanInfo, mode: ScanMode,
                layout: seq<seq<BlockId>>, image: Image, visible: set<BlockId>, store: Image, id: BlockId, b: Block)
    requires Holds(image, visible, before, store) && Script.ScanOk(progressive, n, before, s) && id in image
    requires LayoutFits(s, mode, layout, image.Keys, visible)
    requires if Appears(layout, id) then id.comp in s.Comps() && b == DoneBlock(mode, image[id], store[id])
        else b == store[id]
    ensures id in visible ==> KnownBlock(before + [s], id.comp, image[id], b)
    ensures Script.LastAl(before + [s], id.comp, 0) < 0 ==> IsZero(b)
  {
    hide DoneBlock, Known, Script.LastAl, Appears, Distinct, Script.Continues;
    forall k ensures Script.LastAl(before + [s], id.comp, k) ==
      if s.Sends(id.comp, k) then s.al else Script.LastAl(before, id.comp, k)
    {
      Script.LastAlSnoc(before, s, id.comp, k);
    }
    if id.comp in s.Comps() {
      assert progressive ==> Script.BandOk(before, s, id.comp);
      assert id in visible ==> Appears(layout, id);
      if id in visible {
        BlockMoves(progressive, n, before, s, mode, id.comp, image[id], store[id]);
      }
    }
  }

  // ---------------------------------------------------------------- the whole script

  /** What the encoder writes for one scan. */
  ghost function ScanStream(image: Image, st: Setting): seq<Byte>
    requires Within(st.layout, image.Keys) && Shaped(st.mode, Gather(image, st.layout))
  {
    ScanOutput(HuffmanCodec(st.books), ScanSegments(st.mode, st.interval, Gather(image, st.layout)))
  }

  /** The scan can be coded: coefficients within limits, a code for every symbol. */
  ghost predicate ScanCodable(image: Image, st: Setting)
    requires Within(st.layout, image.Keys)
  {
    && Shaped(st.mode, Gather(image, st.layout))
    && ScanOk(st.mode, st.interval, Gather(image, st.layout))
    && SegmentsCodable(HuffmanCodec(st.books), ScanSegments(st.mode, st.interval, Gather(image, st.layout)))
  }

  /** The settings suit the script, and every scan can be coded. */
  ghost predicate Codable(script: seq<Script.ScanInfo>, settings: seq<Setting>, image: Image, visible: set<BlockId>) {
    && |settings| == |script| && visible <= image.Keys
    && forall i :: 0 <= i < |script| ==>
         LayoutFits(script[i], settings[i].mode, settings[i].layout, image.Keys, visible)
           && ScanCodable(image, settings[i])
  }

  /** The decoder of one scan: from what the store holds of the blocks of the scan. */
  ghost function DecodeOneScan(store: Image, st: Setting, bytes: seq<Byte>): Option<Image>
  {
    if !Within(st.layout, store.Keys) || !Shaped(st.mode, Gather(store, st.layout)) then None
    else match DecodeScan(HuffmanCodec(st.books), st.mode, st.interval, Gather(store, st.layout), bytes) {
      case None => None
      case Some(mcus) =>
        if |mcus| == |st.layout| && forall i :: 0 <= i < |mcus| ==> |mcus[i]| == |st.layout[i]|
        then Some(PutAll(store, st.layout, mcus)) else None
    }
  }

  /** The decoder of the first `i` scans. */
  ghost function DecodeScans(blank: Image, settings: seq<Setting>, streams: seq<seq<Byte>>, i: nat): Option<Image>
    requires i <= |settings| && i <= |streams|
  {
    if i == 0 then Some(blank)
    else match DecodeScans(blank, settings, streams, i - 1) {
      case None => None
      case Some(store) => DecodeOneScan(store, settings[i - 1], streams[i - 1])
    }
  }

  /** One scan decoded from its stream. */
  lemma OneScanDecodes(progressive: bool, n: int, before: seq<Script.ScanInfo>, s: Script.ScanInfo, st: Setting,
                       image: Image, visible: set<BlockId>, store: Image)
    requires Holds(image, visible, before, store) && Script.ScanOk(progressive, n, before, s)
    requires LayoutFits(s, st.mode, st.layout, image.Keys, visible) && ScanCodable(image, st)
    ensures var o := DecodeOneScan(store, st, ScanStream(image, st));
      o.Some? && Holds(image, visible, before + [s], o.value)
  {
    hide ScanOk, ScanSegments, SegmentsCodable, DecodeScan, ScanOutput, PutAll, HuffmanCodec, Script.ScanOk, Distinct,
         InPlace, Covers, ModeFits, McuBefore, Script.LastAl, KnownBlock, IsZero;
    GatherReady(progressive, n, before, s, st.mode, st.layout, image, visible, store);
    ScanMoves(progressive, n, before, s, st.mode, st.layout, image, visible, store);
    var mcus, priors := Gather(image, st.layout), Gather(store, st.layout);
    HuffmanSound(st.books);
    ScanRoundTrip(HuffmanCodec(st.books), st.mode, st.interval, mcus, priors);
  }

  /** All blocks blank, as the decoder starts. */
  ghost predicate Blank(image: Image, blank: Image) {
    blank.Keys == image.Keys && forall id :: id in blank ==> IsZero(blank[id])
  }

  /** For every script that is in order and every image within the coder's limits: decoding the first
      `i` scans one after another succeeds, and of every real block the decoder then holds exactly what
      was sent, each DC coefficient shifted right, each AC coefficient shortened toward zero, at the
      last bit position the script has reached. */
  lemma {:induction false} ScriptRoundTrip(progressive: bool, n: int, script: seq<Script.ScanInfo>,
                                           settings: seq<Setting>, image: Image, visible: set<BlockId>, blank: Image,
                                           streams: seq<seq<Byte>>, i: nat)
    requires Script.OrderOk(progressive, n, script) && Codable(script, settings, image, visible) && Blank(image, blank)
    requires |streams| == |script| && i <= |script|
    requires forall k :: 0 <= k < |script| ==> streams[k] == ScanStream(image, settings[k])
    ensures var o := DecodeScans(blank, settings, streams, i);
      o.Some? && Holds(image, visible, script[..i], o.value)
  {
    hide Script.ScanOk, Script.LastAl, LayoutFits, ScanCodable, ScanStream, DecodeOneScan;
    if i == 0 {
      assert script[..0] == [];
      BlankHolds(image, visible, blank);
    } else {
      ScriptRoundTrip(progressive, n, script, settings, image, visible, blank, streams, i - 1);
      var store := DecodeScans(blank, settings, streams, i - 1).value;
      assert Script.ScanOk(progressive, n, script[..i - 1], script[i - 1]);
      assert script[..i] == script[..i - 1] + [script[i - 1]];
      OneScanDecodes(progressive, n, script[..i - 1], script[i - 1], settings[i - 1], image, visible, store);
    }
  }

  lemma BlankHolds(image: Image, visible: set<BlockId>, blank: Image)
    requires Blank(image, blank) && visible <= image.Keys
    ensures Holds(image, visible, [], blank)
  {
  }

  /** A script that leaves nothing unsent transmits the image without loss. */
  lemma CompleteScriptLossless(n: int, script: seq<Script.ScanInfo>, settings: seq<Setting>, image: Image,
                               visible: set<BlockId>, blank: Image, streams: seq<seq<Byte>>)
    requires Script.ValidScript(n, script) && Codable(script, settings, image, visible) && Blank(image, blank)
    requires forall id :: id in visible ==> id.comp < n
    requires |streams| == |script| && forall k :: 0 <= k < |script| ==> streams[k] == ScanStream(image, settings[k])
    requires forall c, k :: 0 <= c < n && 0 <= k < 64 ==> Script.LastAl(script, c, k) == 0
    ensures var o := DecodeScans(blank, settings, streams, |script|);
      o.Some? && forall id :: id in visible ==> id in o.value && o.value[id] == image[id]
  {
    hide Script.LastAl, LayoutFits, ScanCodable, ScanStream, Script.OrderOk, DecodeScans, KnownBlock, IsZero;
    ScriptRoundTrip(Script.Progressive(script), n, script, settings, image, visible, blank, streams, |script|);
    assert script[..|script|] == script;
    forall id | id in visible ensures DecodeScans(blank, settings, streams, |script|).value[id] == image[id] {
      FullyKnown(script, id.comp, image[id], DecodeScans(blank, settings, streams, |script|).value[id]);
    }
  }

  lemma FullyKnown(script: seq<Script.ScanInfo>, c: nat, z: Block, b: Block)
    requires KnownBlock(script, c, z, b) && forall k :: 0 <= k < 64 ==> Script.LastAl(script, c, k) == 0
    ensures b == z
  {
    hide Script.LastAl;
    forall k | 0 <= k < 64 ensures b[k] == z[k] {
      ViewZero(z[k]);
    }
  }
}
