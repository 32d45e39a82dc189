/** The passes of one compression: `jinit_c_master_control`, `prepare_for_pass`, `pass_startup` and
    `finish_pass_master` (`jcmaster.c`), driven by `jpeg_start_compress`, `jpeg_write_scanlines` and
    `jpeg_finish_compress`. */
module CompressionPasses {
  import opened Wrappers
  import opened JpegLimits
  import opened ScanScripts

  datatype PassType = MainPass | HuffOptPass | OutputPass

  /** What reaches the file: headers, and the entropy-coded data of one iMCU row, with the scan whose
      statistics the Huffman tables in force were made from (-1: none made, or none needed). */
  datatype Written = FrameHeader | ScanHeader(scan: ScanInfo) | RowData(scan: ScanInfo, row: nat, tables: int)

  /** What the compression is to do. */
  datatype Job = Job(components: nat, scans: seq<ScanInfo>, optimize: bool, rows: nat) {
    ghost predicate Sound() {
      && scans != []
      && !IsDcRefinement(scans[0])
    }
  }

  predicate IsDcRefinement(s: ScanInfo) { s.ss == 0 && s.ah != 0 }

  /** The one scan of an image without script: all components, whole blocks. */
  function DefaultScan(n: nat): ScanInfo
  {
    Scan(n, [0, 1, 2, 3], 0, DCTSIZE2 - 1, 0, 0)
  }

  /** What the file must hold of scan `i`: its header, and every iMCU row, in order, coded with tables
      made for this very scan if tables are optimized and the scan needs any. */
  function ScanOutput(job: Job, i: nat): seq<Written>
    requires i < |job.scans|
  {
    [ScanHeader(job.scans[i])] + ScanRows(job, i, job.rows)
  }

  function ScanRows(job: Job, i: nat, n: nat): seq<Written>
    requires i < |job.scans|
  {
    var tables := if job.optimize && !IsDcRefinement(job.scans[i]) then i else -1;
    seq(n, r requires 0 <= r < n => RowData(job.scans[i], r, tables))
  }

  /** The file after the first `k` scans: one frame header, then scan after scan. */
  function FileUpTo(job: Job, k: nat): seq<Written>
    requires k <= |job.scans|
  {
    if k == 0 then [] else (if k == 1 then [FrameHeader] else FileUpTo(job, k - 1)) + ScanOutput(job, k - 1)
  }

  /** What is in the file when the data of scan `k` begins: the headers up to its own. */
  function Headed(job: Job, k: nat): seq<Written>
    requires k < |job.scans|
  {
    (if k == 0 then [FrameHeader] else FileUpTo(job, k)) + [ScanHeader(job.scans[k])]
  }

  lemma FileGrows(job: Job, k: nat)
    requires k < |job.scans|
    ensures FileUpTo(job, k + 1) == Headed(job, k) + ScanRows(job, k, job.rows)
  {
  }

  lemma RowsSnoc(before: seq<Written>, job: Job, k: nat, row: nat)
    requires k < |job.scans|
    ensures ScanRows(job, k, 0) == []
    ensures before + ScanRows(job, k, row + 1)
         == before + ScanRows(job, k, row)
            + [RowData(job.scans[k], row, if job.optimize && !IsDcRefinement(job.scans[k]) then k else -1)]
  {
  }

  /** Where the output of scan `i` begins in the file. */
  function StartOf(job: Job, i: nat): nat
  {
    if i == 0 then 1 else StartOf(job, i - 1) + 1 + job.rows
  }

  lemma {:induction false} FileLength(job: Job, k: nat)
    requires 0 < k <= |job.scans|
    ensures |FileUpTo(job, k)| == StartOf(job, k) && FileUpTo(job, k)[0] == FrameHeader
    ensures StartOf(job, k) == StartOf(job, k - 1) + 1 + job.rows
    ensures FileUpTo(job, k) == Before(job, k) + ScanOutput(job, k - 1)
    ensures |Before(job, k)| == StartOf(job, k - 1) && |ScanOutput(job, k - 1)| == 1 + job.rows
  {
    if k > 1 {
      FileLength(job, k - 1);
    }
  }

  lemma SliceRight<T>(a: seq<T>, b: seq<T>)
    ensures (a + b)[|a|..|a| + |b|] == b
  {
  }

  lemma SliceLeft<T>(a: seq<T>, b: seq<T>, i: nat, j: nat)
    requires i <= j <= |a|
    ensures (a + b)[i..j] == a[i..j]
  {
  }

  /** The file is a frame header followed by the output of each scan, once and in its place. */
  lemma {:induction false} EachScanInPlace(job: Job, k: nat, i: nat)
    requires i < k <= |job.scans|
    ensures |FileUpTo(job, k)| == StartOf(job, k) && FileUpTo(job, k)[0] == FrameHeader
    ensures StartOf(job, i) + 1 + job.rows <= StartOf(job, k)
    ensures FileUpTo(job, k)[StartOf(job, i)..StartOf(job, i) + 1 + job.rows] == ScanOutput(job, i)
  {
    hide ScanRows, FileUpTo, ScanOutput, StartOf;
    FileLength(job, k);
    var before := Before(job, k);
    if i < k - 1 {
      FileLength(job, k - 1);
      EachScanInPlace(job, k - 1, i);
      SliceLeft(before, ScanOutput(job, k - 1), StartOf(job, i), StartOf(job, i) + 1 + job.rows);
    } else {
      SliceRight(before, ScanOutput(job, k - 1));
    }
  }

  /** Entry by entry: the frame header, and for each scan its header and its rows, coded with the tables made for it
      unless none are made or it refines DC coefficients. */
  lemma FileEntries(job: Job, k: nat, i: nat, row: nat)
    requires i < k <= |job.scans| && row < job.rows
    ensures var file, s, at := FileUpTo(job, k), job.scans[i], 1 + i * (1 + job.rows);
      && |file| == 1 + k * (1 + job.rows) && at + 1 + row < |file|
      && file[0] == FrameHeader && file[at] == ScanHeader(s)
      && file[at + 1 + row] == RowData(s, row, if job.optimize && !(s.ss == 0 && s.ah != 0) then i else -1)
  {
    hide FileUpTo, StartOf, ScanOutput;
    EachScanInPlace(job, k, i);
    StartIs(job, i);
    StartIs(job, k);
    OutputEntries(job, i, row);
    InSlice(FileUpTo(job, k), StartOf(job, i), StartOf(job, i) + 1 + job.rows, 0);
    InSlice(FileUpTo(job, k), StartOf(job, i), StartOf(job, i) + 1 + job.rows, 1 + row);
  }

  lemma OutputEntries(job: Job, i: nat, row: nat)
    requires i < |job.scans| && row < job.rows
    ensures |ScanOutput(job, i)| == 1 + job.rows && ScanOutput(job, i)[0] == ScanHeader(job.scans[i])
    ensures ScanOutput(job, i)[1 + row]
         == RowData(job.scans[i], row, if job.optimize && !IsDcRefinement(job.scans[i]) then i else -1)
  {
    assert ScanOutput(job, i)[1 + row] == ScanRows(job, i, job.rows)[row];
  }

  lemma InSlice<T>(s: seq<T>, i: nat, j: nat, n: nat)
    requires i + n < j <= |s|
    ensures s[i..j][n] == s[i + n]
  {
  }

  lemma {:induction false} StartIs(job: Job, i: nat)
    ensures StartOf(job, i) == 1 + i * (1 + job.rows)
  {
    if i > 0 {
      StartIs(job, i - 1);
      assert i * (1 + job.rows) == (i - 1) * (1 + job.rows) + (1 + job.rows);
    }
  }

  /** The file before scan `k - 1`. */
  function Before(job: Job, k: nat): seq<Written>
    requires 0 < k <= |job.scans|
  {
    if k == 1 then [FrameHeader] else FileUpTo(job, k - 1)
  }

  /** `jinit_c_master_control`: validates the script, and makes a progressive image optimize its tables. */
  method MakeJob(components: nat, script: Option<seq<ScanInfo>>, optimize: bool, rows: nat) returns (r: Option<Job>)
    ensures r.Some? <==> if script.Some? then ValidScript(components, script.value) else components <= MAX_COMPS_IN_SCAN
    ensures r.Some? ==> r.value.Sound() && r.value.components == components && r.value.rows == rows
    ensures r.Some? && script.Some? ==>
      && r.value.scans == script.value
      && (r.value.optimize <==> optimize || script.value[0].ss != 0 || script.value[0].se != 63)
    ensures r.Some? && script.None? ==> r.value.scans == [DefaultScan(components)] && r.value.optimize == optimize
    ensures r.Some? && script.None? ==>
      var s := r.value.scans[0];
      && s.compsInScan == components <= 4 && (forall j :: 0 <= j < components ==> s.componentIndex[j] == j)
      && s.ss == 0 && s.se == 63 && s.ah == 0 && s.al == 0
  {
    match script
    case None =>
      r := if components <= MAX_COMPS_IN_SCAN then Some(Job(components, [DefaultScan(components)], optimize, rows))
        else None;
    case Some(s) =>
      var ok, progressive := ValidateScript(components, s);
      if !ok {
        return None;
      }
      FirstScanFresh(components, s);
      r := Some(Job(components, s, optimize || progressive, rows));
  }

  /** A valid script does not begin with a refinement. */
  lemma FirstScanFresh(n: int, s: seq<ScanInfo>)
    requires ValidScript(n, s)
    ensures !IsDcRefinement(s[0])
  {
    var c := s[0].componentIndex[0];
    assert s[..0] == [] && LastAl([], c, s[0].ss) == -1;
    assert ScanOk(Progressive(s), n, s[..0], s[0]);
    assert c in s[0].Comps();
    if Progressive(s) {
      assert BandOk([], s[0], c);
      assert Continues(s[0], LastAl([], c, s[0].ss));
    }
  }

  /** The first scan that is written after the first pass: with tables made for each scan, all of them are. */
  function FirstRemaining(job: Job): nat { if job.optimize then 0 else 1 }

  /** The first `n` iMCU rows of a scan are not refused. */
  ghost predicate RowsTaken(refuses: (nat, nat) -> bool, k: nat, n: nat) {
    forall row :: 0 <= row < n ==> !refuses(k, row)
  }

  /** None of the scans from `first` up to `k` has a row that is refused. */
  ghost predicate ScansTaken(refuses: (nat, nat) -> bool, rows: nat, first: nat, k: nat) {
    forall i :: first <= i < k ==> RowsTaken(refuses, i, rows)
  }

  class Master {
    const job: Job
    const scripted: bool
    var passType: PassType
    var scanNumber: nat
    var passNumber: nat
    const totalPasses: nat
    var isLastPass: bool
    var callPassStartup: bool
    // what the calls into other modules leave behind
    var current: ScanInfo
    var gathering: bool
    var tables: int
    var file: seq<Written>

    /** `jinit_c_master_control` for a normal compression, parameters already checked. */
    constructor (job: Job, scripted: bool)
      requires job.Sound()
      requires !scripted ==> job.scans == [DefaultScan(job.components)] && job.components <= MAX_COMPS_IN_SCAN
      ensures this.job == job && this.scripted == scripted
      ensures Between(0) && passType.MainPass? && file == []
    {
      this.job, this.scripted := job, scripted;
      passType, scanNumber, passNumber := MainPass, 0, 0;
      totalPasses := if job.optimize then 2 * |job.scans| else |job.scans|;
      isLastPass, callPassStartup, current, gathering, tables, file := false, false, job.scans[0], false, -1, [];
    }

    /** Between passes: the passes before this one have written scans up to `scanNumber`. */
    ghost predicate Between(k: nat)
      reads this
    {
      && job.Sound()
      && (!scripted ==> job.scans == [DefaultScan(job.components)] && job.components <= MAX_COMPS_IN_SCAN)
      && scanNumber == k <= |job.scans|
      && totalPasses == (if job.optimize then 2 * |job.scans| else |job.scans|)
      && (passType.MainPass? <==> passNumber == 0)
      && passNumber == (if !job.optimize then k else if passType.OutputPass? then 2 * k + 1 else 2 * k)
      && (passType.HuffOptPass? ==> job.optimize)
      && (job.optimize && passType.OutputPass? ==> Prepared(k))
      && (!job.optimize ==> tables == -1)
      && file == FileUpTo(job, k)
    }

    /** The optimization pass of scan `k` has been made, or skipped. */
    ghost predicate Prepared(k: nat)
      reads this
    {
      k < |job.scans| && current == job.scans[k] && (IsDcRefinement(current) || tables == k)
    }

    /** Prepared for a pass for scan `k`; headers are postponed exactly in a main pass that writes. */
    ghost predicate Ready(k: nat)
      reads this
    {
      InPass(k) && callPassStartup == (!gathering && passType.MainPass?)
    }

    /** In a pass for scan `k`. */
    ghost predicate InPass(k: nat)
      reads this
    {
      && job.Sound()
      && (!scripted ==> job.scans == [DefaultScan(job.components)] && job.components <= MAX_COMPS_IN_SCAN)
      && scanNumber == k < |job.scans| && current == job.scans[k]
      && totalPasses == (if job.optimize then 2 * |job.scans| else |job.scans|)
      && (passType.MainPass? <==> passNumber == 0)
      && passNumber == (if !job.optimize then k else if passType.OutputPass? then 2 * k + 1 else 2 * k)
      && (passType.HuffOptPass? ==> job.optimize)
      && isLastPass == (passNumber == totalPasses - 1)
      && gathering == (job.optimize && !passType.OutputPass?)
      && (!gathering && job.optimize ==> Prepared(k))
      && (!job.optimize ==> tables == -1)
    }

    /** `select_scan_parameters`. */
    method SelectScanParameters()
      requires scanNumber < |job.scans|
      requires !scripted ==> job.scans == [DefaultScan(job.components)]
      modifies this`current
      ensures current == job.scans[scanNumber]
    {
      if scripted {
        current := job.scans[scanNumber];
      } else {
        current := DefaultScan(job.components);
      }
    }

    method WriteFrameHeader()
      modifies this`file
      ensures file == old(file) + [FrameHeader]
    {
      file := file + [FrameHeader];
    }

    method WriteScanHeader()
      modifies this`file
      ensures file == old(file) + [ScanHeader(current)]
    {
      file := file + [ScanHeader(current)];
    }

    /** `prepare_for_pass`. The optimization pass of a DC refinement scan is skipped: such a scan has
        no Huffman symbols. */
    method PrepareForPass()
      requires Between(scanNumber) && scanNumber < |job.scans|
      modifies this
      ensures Ready(old(scanNumber)) && passNumber >= old(passNumber)
      ensures passType.MainPass? <==> old(passType.MainPass?)
      ensures gathering <==> job.optimize && !old(passType.OutputPass?)
                             && (old(passType.MainPass?) || !(current.ss == 0 && current.ah != 0))
      ensures file == if gathering || callPassStartup then old(file)
                      else (if scanNumber == 0 then [FrameHeader] else old(file)) + [ScanHeader(current)]
    {
      var output := passType.OutputPass?;
      match passType {
        case MainPass =>
          SelectScanParameters();
          gathering := job.optimize;
          callPassStartup := !job.optimize;
        case HuffOptPass =>
          SelectScanParameters();
          if current.ss != 0 || current.ah == 0 {
            gathering := true;
            callPassStartup := false;
          } else {
            passType := OutputPass;
            passNumber := passNumber + 1;
            output := true;
          }
        case OutputPass =>
      }
      if output {
        if !job.optimize {
          SelectScanParameters();
        }
        gathering := false;
        if scanNumber == 0 {
          WriteFrameHeader();
        }
        WriteScanHeader();
        callPassStartup := false;
      }
      isLastPass := passNumber == totalPasses - 1;
    }

    /** `pass_startup`: the headers that a main pass postpones to the first scanlines. */
    method PassStartup()
      modifies this`file, this`callPassStartup
      ensures !callPassStartup && file == old(file) + [FrameHeader, ScanHeader(current)]
    {
      callPassStartup := false;
      WriteFrameHeader();
      WriteScanHeader();
    }

    /** One call of the coefficient controller for iMCU row `row`, as far as the file is concerned. */
    method CompressRow(row: nat)
      modifies this`file
      ensures file == if gathering then old(file)
                      else old(file) + [RowData(current, row, if IsDcRefinement(current) then -1 else tables)]
    {
      if !gathering {
        file := file + [RowData(current, row, if IsDcRefinement(current) then -1 else tables)];
      }
    }

    /** `finish_pass_master`, with the tables that a statistics pass makes when it ends. */
    method FinishPass()
      requires InPass(scanNumber)
      requires file == FileUpTo(job, if gathering then scanNumber else scanNumber + 1)
      modifies this
      ensures Between(if old(gathering) then old(scanNumber) else old(scanNumber) + 1)
      ensures passNumber == old(passNumber) + 1 && isLastPass == old(isLastPass)
      ensures !passType.MainPass?
    {
      if gathering {
        tables := scanNumber;
      }
      match passType {
        case MainPass =>
          passType := OutputPass;
          if !job.optimize {
            scanNumber := scanNumber + 1;
          }
        case HuffOptPass =>
          passType := OutputPass;
        case OutputPass =>
          if job.optimize {
            passType := HuffOptPass;
          }
          scanNumber := scanNumber + 1;
      }
      passNumber := passNumber + 1;
    }

    /** All iMCU rows of a first pass, the application trying again as long as one is refused. */
    method HandRows()
      requires InPass(scanNumber)
      requires !gathering ==> file == Headed(job, scanNumber)
      modifies this`file
      ensures file == if gathering then old(file) else FileUpTo(job, scanNumber + 1)
    {
      hide ScanRows, FileUpTo, Headed;
      ghost var k := scanNumber;
      RowsSnoc(file, job, k, 0);
      for row := 0 to job.rows
        invariant file == if gathering then old(file) else old(file) + ScanRows(job, k, row)
      {
        RowsSnoc(old(file), job, k, row);
        CompressRow(row);
      }
      FileGrows(job, k);
    }

    /** `jpeg_start_compress`: the first pass is prepared. */
    method StartCompress()
      requires Between(0) && passType.MainPass?
      modifies this
      ensures Ready(0) && passType.MainPass? && file == []
    {
      PrepareForPass();
    }

    /** What the calls of `jpeg_write_scanlines` amount to: the postponed headers at the first of them,
        then every iMCU row. */
    method WriteScanlines()
      requires Ready(0) && passType.MainPass? && file == []
      modifies this
      ensures InPass(0) && passType.MainPass? && isLastPass == old(isLastPass)
      ensures file == FileUpTo(job, if gathering then 0 else 1)
    {
      if callPassStartup {
        PassStartup();
      }
      HandRows();
    }

    /** The iMCU rows of a remaining pass, up to the first that the coder does not take. A statistics pass
        writes nothing, so it is not refused. */
    method HandOnce(refuses: (nat, nat) -> bool) returns (ok: bool, row: nat)
      requires InPass(scanNumber)
      requires !gathering ==> file == Headed(job, scanNumber)
      modifies this`file
      ensures ok <==> gathering || RowsTaken(refuses, scanNumber, job.rows)
      ensures ok ==> file == if gathering then old(file) else FileUpTo(job, scanNumber + 1)
      ensures !ok ==> RefusedAt(refuses, scanNumber, row)
    {
      hide ScanRows, FileUpTo, Headed;
      ghost var k := scanNumber;
      RowsSnoc(file, job, k, 0);
      row := 0;
      while row < job.rows
        invariant row <= job.rows && (gathering || RowsTaken(refuses, k, row))
        invariant file == if gathering then old(file) else old(file) + ScanRows(job, k, row)
      {
        if !gathering && refuses(scanNumber, row) {
          return false, row;
        }
        RowsSnoc(old(file), job, k, row);
        CompressRow(row);
        row := row + 1;
      }
      FileGrows(job, k);
      ok := true;
    }

    /** Stopped at a row that was refused: the file holds the scans before it and the rows before it. */
    ghost predicate RefusedAt(refuses: (nat, nat) -> bool, k: nat, row: nat)
      reads this
    {
      && scanNumber == k < |job.scans| && row < job.rows && RowsTaken(refuses, k, row) && refuses(k, row)
      && file == Headed(job, k) + ScanRows(job, k, row)
    }

    /** `jpeg_finish_compress`: the first pass is finished and the remaining ones are run. A row refused in one
        of them is a fatal error; otherwise the file then holds every scan exactly once, in order, each under
        its own parameters. */
    method FinishCompress(refuses: (nat, nat) -> bool) returns (ok: bool, row: nat)
      requires InPass(0) && passType.MainPass? && file == FileUpTo(job, if gathering then 0 else 1)
      modifies this
      ensures ok <==> ScansTaken(refuses, job.rows, FirstRemaining(job), |job.scans|)
      ensures ok ==> file == FileUpTo(job, |job.scans|)
      ensures ok ==> passNumber == if job.optimize then 2 * |job.scans| else |job.scans|
      ensures !ok ==>
          ScansTaken(refuses, job.rows, FirstRemaining(job), scanNumber) && RefusedAt(refuses, scanNumber, row)
    {
      hide FileUpTo, Headed, ScanOutput, DefaultScan, RowsTaken;
      ghost var first := FirstRemaining(job);
      row := 0;
      FinishPass();
      while !isLastPass
        invariant Between(scanNumber) && 0 < passNumber <= totalPasses
        invariant isLastPass == (passNumber == totalPasses)
        invariant first <= scanNumber && ScansTaken(refuses, job.rows, first, scanNumber)
        decreases totalPasses - passNumber
      {
        ok, row := RunPass(refuses);
        if !ok {
          return;
        }
      }
      ok := true;
    }

    /** One of the remaining passes. */
    method RunPass(refuses: (nat, nat) -> bool) returns (ok: bool, row: nat)
      requires Between(scanNumber) && 0 < passNumber < totalPasses
      modifies this
      ensures ok ==> Between(scanNumber) && old(passNumber) < passNumber <= totalPasses
      ensures ok ==> isLastPass == (passNumber == totalPasses)
      ensures ok ==> old(scanNumber) <= scanNumber <= old(scanNumber) + 1
      ensures ok && scanNumber > old(scanNumber) ==> RowsTaken(refuses, old(scanNumber), job.rows)
      ensures !ok ==> RefusedAt(refuses, old(scanNumber), row)
      ensures !ok ==> !RowsTaken(refuses, old(scanNumber), job.rows)
    {
      hide FileUpTo, DefaultScan;
      PrepareForPass();
      ok, row := HandOnce(refuses);
      if ok {
        FinishPass();
      }
    }

    /** A whole compression; the rows are refused, or not, as `refuses` says of each row of each scan. */
    method Compress(refuses: (nat, nat) -> bool) returns (ok: bool, row: nat)
      requires Between(0) && passType.MainPass?
      modifies this
      ensures ok <==> ScansTaken(refuses, job.rows, FirstRemaining(job), |job.scans|)
      ensures ok ==> file == FileUpTo(job, |job.scans|)
      ensures !ok ==>
          ScansTaken(refuses, job.rows, FirstRemaining(job), scanNumber) && RefusedAt(refuses, scanNumber, row)
    {
      StartCompress();
      WriteScanlines();
      ok, row := FinishCompress(refuses);
    }
  }
}
