/** Scan scripts: what makes one valid, how `validate_script` decides it with its table of bit
    positions, and the script `jpeg_simple_progression` writes. */
module ScanScripts {
  import opened JpegLimits

  const MAX_AH_AL := 10

  /** jpeg_scan_info: the components of a scan and its progression parameters. */
  datatype Scan = Scan(compsInScan: int, componentIndex: seq<int>, ss: int, se: int, ah: int, al: int) {

    predicate Typed() { |componentIndex| == MAX_COMPS_IN_SCAN }

    function Comps(): seq<int>
      requires Typed()
    {
      if 0 <= compsInScan <= MAX_COMPS_IN_SCAN then componentIndex[..compsInScan] else []
    }

    /** The scan carries coefficient `k` of component `c`. */
    predicate Sends(c: int, k: int)
      requires Typed()
    {
      c in Comps() && ss <= k <= se
    }

    predicate FullBand() { ss == 0 && se == DCTSIZE2 - 1 }
  }

  type ScanInfo = s: Scan | s.Typed() witness Scan(1, [0, 0, 0, 0], 0, 63, 0, 0)

  // ---------------------------------------------------------------- what a script must satisfy

  /** The bit position down to which coefficient `k` of component `c` has been sent, -1 if it has not
      been sent at all. */
  function LastAl(script: seq<ScanInfo>, c: int, k: int): int
  {
    if script == [] then -1
    else if script[|script| - 1].Sends(c, k) then script[|script| - 1].al
    else LastAl(script[..|script| - 1], c, k)
  }

  /** One to four components of the image, in ascending order. */
  ghost predicate ComponentsOk(n: int, s: ScanInfo) {
    && 1 <= s.compsInScan <= MAX_COMPS_IN_SCAN
    && (forall j :: 0 <= j < s.compsInScan ==> 0 <= s.componentIndex[j] < n)
    && (forall j :: 0 < j < s.compsInScan ==> s.componentIndex[j - 1] < s.componentIndex[j])
  }

  /** Bands within the block, positions within the limit, DC alone or one component's AC. */
  predicate ParametersOk(s: ScanInfo) {
    && 0 <= s.ss <= s.se < DCTSIZE2 && 0 <= s.ah <= MAX_AH_AL && 0 <= s.al <= MAX_AH_AL
    && (if s.ss == 0 then s.se == 0 else s.compsInScan == 1)
  }

  /** A coefficient sent down to bit `last` may be sent next by this scan: a first scan has `ah` 0,
      a later one sends exactly the next bit. */
  predicate Continues(s: ScanInfo, last: int) {
    if last < 0 then s.ah == 0 else s.ah == last && s.al == s.ah - 1
  }

  /** Scan `s` may follow the scans `before` in a progressive script. */
  ghost predicate ProgressiveOk(n: int, before: seq<ScanInfo>, s: ScanInfo) {
    && ComponentsOk(n, s) && ParametersOk(s)
    && forall c :: c in s.Comps() ==> BandOk(before, s, c)
  }

  ghost predicate BandOk(before: seq<ScanInfo>, s: ScanInfo, c: int) {
    && (s.ss != 0 ==> LastAl(before, c, 0) >= 0)
    && forall k :: s.ss <= k <= s.se ==> Continues(s, LastAl(before, c, k))
  }

  /** Scan `s` may follow the scans `before` in a sequential script. */
  ghost predicate SequentialOk(n: int, before: seq<ScanInfo>, s: ScanInfo) {
    && ComponentsOk(n, s) && s.FullBand() && s.ah == 0 && s.al == 0
    && forall c :: c in s.Comps() ==> LastAl(before, c, 0) < 0
  }

  ghost predicate ScanOk(progressive: bool, n: int, before: seq<ScanInfo>, s: ScanInfo) {
    if progressive then ProgressiveOk(n, before, s) else SequentialOk(n, before, s)
  }

  /** Each scan may follow the ones before it. */
  ghost predicate OrderOk(progressive: bool, n: int, script: seq<ScanInfo>) {
    forall i :: 0 <= i < |script| ==> ScanOk(progressive, n, script[..i], script[i])
  }

  /** A script starts a progressive image unless its first scan sends whole blocks. */
  predicate Progressive(script: seq<ScanInfo>)
    requires script != []
  {
    !script[0].FullBand()
  }

  /** The scripts for `n` components that make sense: every scan may follow, and some DC data of every
      component is sent. */
  ghost predicate ValidScript(n: int, script: seq<ScanInfo>) {
    script != [] && OrderOk(Progressive(script), n, script) && forall c :: 0 <= c < n ==> LastAl(script, c, 0) >= 0
  }

  lemma OrderSnoc(progressive: bool, n: int, script: seq<ScanInfo>, s: ScanInfo)
    ensures OrderOk(progressive, n, script + [s]) <==>
            OrderOk(progressive, n, script) && ScanOk(progressive, n, script, s)
  {
    var t := script + [s];
    assert t[..|script|] == script;
    forall i | 0 <= i < |script| ensures t[..i] == script[..i] && t[i] == script[i] {
    }
    if OrderOk(progressive, n, t) {
      assert ScanOk(progressive, n, t[..|script|], t[|script|]);
      forall i | 0 <= i < |script| ensures ScanOk(progressive, n, script[..i], script[i]) {
        assert ScanOk(progressive, n, t[..i], t[i]);
      }
    }
  }

  lemma LastAlSnoc(script: seq<ScanInfo>, s: ScanInfo, c: int, k: int)
    ensures LastAl(script + [s], c, k) == if s.Sends(c, k) then s.al else LastAl(script, c, k)
  {
    assert (script + [s])[..|script|] == script;
  }

  /** An order that broke early is broken. */
  lemma OrderPrefix(progressive: bool, n: int, script: seq<ScanInfo>, i: nat)
    requires i < |script| && OrderOk(progressive, n, script)
    ensures OrderOk(progressive, n, script[..i]) && ScanOk(progressive, n, script[..i], script[i])
  {
    forall k | 0 <= k < i ensures ScanOk(progressive, n, script[..i][..k], script[..i][k]) {
      assert ScanOk(progressive, n, script[..k], script[k]);
      assert script[..i][..k] == script[..k];
    }
  }

  // ---------------------------------------------------------------- validate_script

  method CheckComponents(n: int, s: ScanInfo) returns (ok: bool)
    ensures ok <==> ComponentsOk(n, s)
  {
    var ncomps := s.compsInScan;
    if ncomps <= 0 || ncomps > MAX_COMPS_IN_SCAN {
      return false;
    }
    for ci := 0 to ncomps
      invariant forall j :: 0 <= j < ci ==> 0 <= s.componentIndex[j] < n
      invariant forall j :: 0 < j < ci ==> s.componentIndex[j - 1] < s.componentIndex[j]
    {
      var thisi := s.componentIndex[ci];
      if thisi < 0 || thisi >= n {
        return false;
      }
      if ci > 0 && thisi <= s.componentIndex[ci - 1] {
        return false;
      }
    }
    return true;
  }

  lemma {:induction false} Ascends(n: int, s: ScanInfo, i: nat, j: nat)
    requires ComponentsOk(n, s) && i < j < s.compsInScan
    ensures s.componentIndex[i] < s.componentIndex[j]
  {
    if i < j - 1 {
      Ascends(n, s, i, j - 1);
    }
  }

  /** `last_bitpos` holds the bit positions reached by the scans `before`. */
  ghost predicate Records(table: array2<int>, n: int, before: seq<ScanInfo>)
    reads table
  {
    && table.Length0 == n && table.Length1 == DCTSIZE2
    && forall c, k :: 0 <= c < n && 0 <= k < DCTSIZE2 ==> table[c, k] == LastAl(before, c, k)
  }

  /** The loop over the coefficients of one component: checks them and moves their bit positions. */
  method CheckBand(s: ScanInfo, table: array2<int>, c: int, ghost before: seq<ScanInfo>) returns (ok: bool)
    requires table.Length1 == DCTSIZE2 && 0 <= c < table.Length0 && 0 <= s.ss <= s.se < DCTSIZE2
    requires forall k :: 0 <= k < DCTSIZE2 ==> table[c, k] == LastAl(before, c, k)
    modifies table
    ensures ok <==> BandOk(before, s, c)
    ensures ok ==> forall d, k :: 0 <= d < table.Length0 && 0 <= k < DCTSIZE2 ==>
      table[d, k] == if d == c && s.ss <= k <= s.se then s.al else old(table[d, k])
  {
    if s.ss != 0 && table[c, 0] < 0 {
      return false;
    }
    for k := s.ss to s.se + 1
      invariant forall l :: s.ss <= l < k ==> Continues(s, LastAl(before, c, l))
      invariant forall d, l :: 0 <= d < table.Length0 && 0 <= l < DCTSIZE2 ==>
        table[d, l] == if d == c && s.ss <= l < k then s.al else old(table[d, l])
    {
      if table[c, k] < 0 {
        if s.ah != 0 {
          return false;
        }
      } else if s.ah != table[c, k] || s.al != s.ah - 1 {
        return false;
      }
      table[c, k] := s.al;
    }
    return true;
  }

  /** The progressive branch for one scan. */
  method CheckProgression(n: int, s: ScanInfo, table: array2<int>, ghost before: seq<ScanInfo>) returns (ok: bool)
    requires Records(table, n, before) && ComponentsOk(n, s)
    modifies table
    ensures ok <==> ProgressiveOk(n, before, s)
    ensures ok ==> Records(table, n, before + [s])
  {
    if s.ss < 0 || s.ss >= DCTSIZE2 || s.se < s.ss || s.se >= DCTSIZE2
       || s.ah < 0 || s.ah > MAX_AH_AL || s.al < 0 || s.al > MAX_AH_AL {
      return false;
    }
    if s.ss == 0 {
      if s.se != 0 {
        return false;
      }
    } else if s.compsInScan != 1 {
      return false;
    }
    var comps := s.Comps();
    for ci := 0 to s.compsInScan
      invariant forall j :: 0 <= j < ci ==> BandOk(before, s, comps[j])
      invariant table.Length0 == n && table.Length1 == DCTSIZE2
      invariant forall c, k :: 0 <= c < n && 0 <= k < DCTSIZE2 ==>
        table[c, k] == if c in comps[..ci] && s.ss <= k <= s.se then s.al else LastAl(before, c, k)
    {
      forall j | 0 <= j < ci ensures comps[j] != comps[ci] {
        Ascends(n, s, j, ci);
      }
      ok := CheckBand(s, table, comps[ci], before);
      if !ok {
        assert comps[ci] in s.Comps();
        return;
      }
      assert comps[..ci + 1] == comps[..ci] + [comps[ci]];
    }
    assert comps[..s.compsInScan] == comps;
    forall c, k | 0 <= c < n && 0 <= k < DCTSIZE2 ensures table[c, k] == LastAl(before + [s], c, k) {
      LastAlSnoc(before, s, c, k);
    }
    return true;
  }

  /** `component_sent` tells which components the scans `before` have sent. */
  ghost predicate RecordsSent(sent: array<bool>, n: int, before: seq<ScanInfo>)
    reads sent
  {
    sent.Length == n && forall c :: 0 <= c < n ==> (sent[c] <==> LastAl(before, c, 0) >= 0)
  }

  /** The sequential branch for one scan. */
  method CheckSequential(n: int, s: ScanInfo, sent: array<bool>, ghost before: seq<ScanInfo>) returns (ok: bool)
    requires RecordsSent(sent, n, before) && ComponentsOk(n, s)
    modifies sent
    ensures ok <==> SequentialOk(n, before, s)
    ensures ok ==> RecordsSent(sent, n, before + [s])
  {
    if s.ss != 0 || s.se != DCTSIZE2 - 1 || s.ah != 0 || s.al != 0 {
      return false;
    }
    var comps := s.Comps();
    for ci := 0 to s.compsInScan
      invariant forall j :: 0 <= j < ci ==> LastAl(before, comps[j], 0) < 0
      invariant forall c :: 0 <= c < n ==> (sent[c] <==> c in comps[..ci] || LastAl(before, c, 0) >= 0)
    {
      forall j | 0 <= j < ci ensures comps[j] != comps[ci] {
        Ascends(n, s, j, ci);
      }
      if sent[comps[ci]] {
        assert comps[ci] in s.Comps();
        return false;
      }
      sent[comps[ci]] := true;
      assert comps[..ci + 1] == comps[..ci] + [comps[ci]];
    }
    assert comps[..s.compsInScan] == comps;
    forall c | 0 <= c < n ensures sent[c] <==> LastAl(before + [s], c, 0) >= 0 {
      LastAlSnoc(before, s, c, 0);
    }
    return true;
  }

  /** `validate_script`: accepts exactly the valid scripts, and tells the kind of image. */
  method ValidateScript(n: nat, script: seq<ScanInfo>) returns (ok: bool, progressive: bool)
    ensures ok <==> ValidScript(n, script)
    ensures ok ==> progressive == Progressive(script)
  {
    hide ScanOk, OrderOk, LastAl, ComponentsOk;
    progressive := false;
    if |script| <= 0 {
      return false, false;
    }
    progressive := script[0].ss != 0 || script[0].se != DCTSIZE2 - 1;
    var table := new int[n, DCTSIZE2]((c, k) => -1);
    var sent := new bool[n](c => false);
    NothingSent(progressive, n);
    assert script[..0] == [];
    for i := 0 to |script|
      invariant OrderOk(progressive, n, script[..i])
      invariant progressive ==> Records(table, n, script[..i])
      invariant !progressive ==> RecordsSent(sent, n, script[..i])
      modifies table, sent
    {
      var s := script[i];
      assert script[..i + 1] == script[..i] + [s];
      OrderSnoc(progressive, n, script[..i], s);
      ok := CheckScan(progressive, n, s, table, sent, script[..i]);
      if !ok {
        Broken(progressive, n, script, i);
        return;
      }
    }
    assert script[..|script|] == script;
    for c := 0 to n
      invariant forall d :: 0 <= d < c ==> LastAl(script, d, 0) >= 0
    {
      if (if progressive then table[c, 0] < 0 else !sent[c]) {
        return false, progressive;
      }
    }
    return true, progressive;
  }

  lemma Broken(progressive: bool, n: int, script: seq<ScanInfo>, i: nat)
    requires i < |script| && !ScanOk(progressive, n, script[..i], script[i])
    ensures !OrderOk(progressive, n, script)
  {
    if OrderOk(progressive, n, script) {
      OrderPrefix(progressive, n, script, i);
    }
  }

  lemma NothingSent(progressive: bool, n: int)
    ensures OrderOk(progressive, n, []) && forall c, k :: LastAl([], c, k) == -1
  {
  }

  method CheckScan(progressive: bool, n: int, s: ScanInfo, table: array2<int>, sent: array<bool>,
                   ghost before: seq<ScanInfo>) returns (ok: bool)
    requires if progressive then Records(table, n, before) else RecordsSent(sent, n, before)
    modifies table, sent
    ensures ok <==> ScanOk(progressive, n, before, s)
    ensures ok && progressive ==> Records(table, n, before + [s])
    ensures ok && !progressive ==> RecordsSent(sent, n, before + [s])
  {
    hide LastAl;
    ok := CheckComponents(n, s);
    if ok {
      if progressive {
        ok := CheckProgression(n, s, table, before);
      } else {
        ok := CheckSequential(n, s, sent, before);
      }
    }
  }
}
