/** `jpeg_simple_progression` (`jcparam.c`): the script it writes is the size it computed, is accepted
    by `validate_script`, and leaves no bit of any coefficient unsent. */
module SimpleProgressions {
  import opened JpegLimits
  import opened ScanScripts

  // ---------------------------------------------------------------- the scripts

  /** Entries of `component_index` past `comps_in_scan` are leftovers and do not matter. */
  ghost predicate Is(s: ScanInfo, comps: seq<int>, ss: int, se: int, ah: int, al: int) {
    s.compsInScan == |comps| && s.Comps() == comps && s.ss == ss && s.se == se && s.ah == ah && s.al == al
  }

  /** The components 0 to `n - 1`. */
  function AllComps(n: nat): (r: seq<int>)
    ensures |r| == n && forall i :: 0 <= i < n ==> r[i] == i
  {
    seq(n, i => i)
  }

  /** From position `p` on, one scan for each component. */
  ghost predicate SingleRun(s: seq<ScanInfo>, p: nat, n: nat, ss: int, se: int, ah: int, al: int) {
    p + n <= |s| && forall i :: p <= i < p + n ==> Is(s[i], [i - p], ss, se, ah, al)
  }

  /** One interleaved DC scan if the components fit, else one scan for each. */
  ghost predicate DcRun(s: seq<ScanInfo>, p: nat, n: nat, ah: int, al: int) {
    if n <= MAX_COMPS_IN_SCAN then p < |s| && Is(s[p], AllComps(n), 0, 0, ah, al)
    else SingleRun(s, p, n, 0, 0, ah, al)
  }

  function DcScans(n: nat): nat { if n <= MAX_COMPS_IN_SCAN then 1 else n }

  /** The script for color images with luma and two chroma components. */
  ghost predicate ColorScript(s: seq<ScanInfo>) {
    && |s| == 10
    && Is(s[0], AllComps(3), 0, 0, 0, 1)
    && Is(s[1], [0], 1, 5, 0, 2)
    && Is(s[2], [2], 1, 63, 0, 1)
    && Is(s[3], [1], 1, 63, 0, 1)
    && Is(s[4], [0], 6, 63, 0, 2)
    && Is(s[5], [0], 1, 63, 2, 1)
    && Is(s[6], AllComps(3), 0, 0, 1, 0)
    && Is(s[7], [2], 1, 63, 1, 0)
    && Is(s[8], [1], 1, 63, 1, 0)
    && Is(s[9], [0], 1, 63, 1, 0)
  }

  /** The all-purpose script. */
  ghost predicate PlainScript(n: nat, s: seq<ScanInfo>) {
    var m := DcScans(n);
    && |s| == 2 * m + 4 * n
    && DcRun(s, 0, n, 0, 1)
    && SingleRun(s, m, n, 1, 5, 0, 2)
    && SingleRun(s, m + n, n, 6, 63, 0, 2)
    && SingleRun(s, m + 2 * n, n, 1, 63, 2, 1)
    && DcRun(s, m + 3 * n, n, 1, 0)
    && SingleRun(s, 2 * m + 3 * n, n, 1, 63, 1, 0)
  }

  ghost predicate SimpleScript(n: nat, ycc: bool, s: seq<ScanInfo>) {
    if n == 3 && ycc then ColorScript(s) else PlainScript(n, s)
  }

  // ---------------------------------------------------------------- filling the script space

  /** The compression parameters concerned: `script_space`, `scan_info` and `num_scans`. */
  class ScriptParams {
    const numComponents: nat
    const ycc: bool
    var started: bool
    var space: array<ScanInfo>
    var numScans: nat

    constructor (n: nat, ycc: bool)
      ensures numComponents == n && this.ycc == ycc && !started && fresh(space) && space.Length == 0
    {
      numComponents, this.ycc, started, numScans := n, ycc, false, 0;
      space := new ScanInfo[0];
    }

    ghost function Script(): seq<ScanInfo>
      requires numScans <= space.Length
      reads this, space
    {
      space[..numScans]
    }

    /** Fails once compression has started; otherwise the script is in place, in the old space if
        that is large enough. */
    method SimpleProgression() returns (ok: bool)
      modifies this, space
      ensures ok <==> !old(started)
      ensures started == old(started)
      ensures ok ==> numScans <= space.Length && SimpleScript(numComponents, ycc, Script())
      ensures ok ==> numScans == if numComponents == 3 && ycc then 10
                                 else if numComponents > 4 then 6 * numComponents else 2 + 4 * numComponents
      ensures !ok || old(space.Length) >= numScans ==> space == old(space)
      ensures ok && old(space.Length) < numScans ==>
        fresh(space) && space.Length == if numScans > 10 then numScans else 10
    {
      hide SingleRun, DcRun, ColorScript, PlainScript;
      var n := numComponents;
      if started {
        return false;
      }
      var nscans := 10;
      if !(n == 3 && ycc) {
        if n > MAX_COMPS_IN_SCAN {
          nscans := 6 * n;
        } else {
          nscans := 2 + 4 * n;
        }
      }
      if space.Length < nscans {
        space := new ScanInfo[if nscans > 10 then nscans else 10];
      }
      numScans := nscans;
      if n == 3 && ycc {
        FillColor(space);
      } else {
        FillPlain(space, n);
      }
      return true;
    }
  }

  method FillAScan(space: array<ScanInfo>, p: nat, ci: int, ss: int, se: int, ah: int, al: int) returns (q: nat)
    requires p < space.Length
    modifies space
    ensures q == p + 1 && Is(space[p], [ci], ss, se, ah, al)
    ensures forall i :: 0 <= i < space.Length && i != p ==> space[i] == old(space[i])
  {
    space[p] := space[p].(compsInScan := 1);
    space[p] := space[p].(componentIndex := space[p].componentIndex[0 := ci]);
    space[p] := space[p].(ss := ss, se := se, ah := ah, al := al);
    q := p + 1;
  }

  method FillScans(space: array<ScanInfo>, p: nat, ncomps: nat, ss: int, se: int, ah: int, al: int) returns (q: nat)
    requires p + ncomps <= space.Length
    modifies space
    ensures q == p + ncomps && SingleRun(space[..], p, ncomps, ss, se, ah, al)
    ensures Kept(old(space[..]), space[..], p, q)
  {
    q := p;
    for ci := 0 to ncomps
      invariant q == p + ci
      invariant forall i :: p <= i < q ==> Is(space[i], [i - p], ss, se, ah, al)
      invariant forall i :: 0 <= i < space.Length && !(p <= i < q) ==> space[i] == old(space[i])
    {
      q := FillAScan(space, q, ci, ss, se, ah, al);
    }
  }

  method FillDcScans(space: array<ScanInfo>, p: nat, ncomps: nat, ah: int, al: int) returns (q: nat)
    requires p + DcScans(ncomps) <= space.Length
    modifies space
    ensures q == p + DcScans(ncomps) && DcRun(space[..], p, ncomps, ah, al)
    ensures Kept(old(space[..]), space[..], p, q)
  {
    if ncomps <= MAX_COMPS_IN_SCAN {
      space[p] := space[p].(compsInScan := ncomps);
      for ci := 0 to ncomps
        invariant space[p].compsInScan == ncomps
        invariant space[p].componentIndex[..ci] == AllComps(ci)
        invariant forall i :: 0 <= i < space.Length && i != p ==> space[i] == old(space[i])
      {
        space[p] := space[p].(componentIndex := space[p].componentIndex[ci := ci]);
      }
      space[p] := space[p].(ss := 0, se := 0, ah := ah, al := al);
      q := p + 1;
    } else {
      q := FillScans(space, p, ncomps, 0, 0, ah, al);
    }
  }

  /** Only the entries from `p` to `q` differ. */
  ghost predicate Kept(s: seq<ScanInfo>, t: seq<ScanInfo>, p: nat, q: nat) {
    |s| == |t| && forall i :: 0 <= i < |s| && !(p <= i < q) ==> t[i] == s[i]
  }

  /** A run stays where later runs are written behind it. */
  lemma RunKept(s: seq<ScanInfo>, t: seq<ScanInfo>, p: nat, q: nat)
    requires Kept(s, t, p, q)
    ensures forall b: nat, n: nat, ss, se, ah, al :: SingleRun(s, b, n, ss, se, ah, al) && b + n <= p ==>
      SingleRun(t, b, n, ss, se, ah, al)
    ensures forall b: nat, n: nat, ah, al :: DcRun(s, b, n, ah, al) && b + DcScans(n) <= p ==> DcRun(t, b, n, ah, al)
  {
    hide Is;
  }

  method FillColor(space: array<ScanInfo>)
    requires space.Length >= 10
    modifies space
    ensures ColorScript(space[..10])
  {
    hide ScanInfo.Comps;
    var p := FillDcScans(space, 0, 3, 0, 1);
    p := FillAScan(space, p, 0, 1, 5, 0, 2);
    p := FillAScan(space, p, 2, 1, 63, 0, 1);
    p := FillAScan(space, p, 1, 1, 63, 0, 1);
    p := FillAScan(space, p, 0, 6, 63, 0, 2);
    p := FillAScan(space, p, 0, 1, 63, 2, 1);
    p := FillDcScans(space, p, 3, 1, 0);
    p := FillAScan(space, p, 2, 1, 63, 1, 0);
    p := FillAScan(space, p, 1, 1, 63, 1, 0);
    p := FillAScan(space, p, 0, 1, 63, 1, 0);
  }

  method FillPlain(space: array<ScanInfo>, n: nat)
    requires space.Length >= 2 * DcScans(n) + 4 * n
    modifies space
    ensures PlainScript(n, space[..2 * DcScans(n) + 4 * n])
  {
    hide SingleRun, DcRun, Kept;
    ghost var m := DcScans(n);
    var p := FillDcScans(space, 0, n, 0, 1);
    ghost var s1 := space[..];
    p := FillScans(space, p, n, 1, 5, 0, 2);
    ghost var s2 := space[..];
    RunKept(s1, s2, m, m + n);
    p := FillScans(space, p, n, 6, 63, 0, 2);
    ghost var s3 := space[..];
    RunKept(s2, s3, m + n, m + 2 * n);
    p := FillScans(space, p, n, 1, 63, 2, 1);
    ghost var s4 := space[..];
    RunKept(s3, s4, m + 2 * n, m + 3 * n);
    p := FillDcScans(space, p, n, 1, 0);
    ghost var s5 := space[..];
    RunKept(s4, s5, m + 3 * n, 2 * m + 3 * n);
    p := FillScans(space, p, n, 1, 63, 1, 0);
    ghost var s6 := space[..];
    RunKept(s5, s6, 2 * m + 3 * n, 2 * m + 4 * n);
    PlainPrefix(n, s6, space[..2 * m + 4 * n]);
  }

  lemma PlainPrefix(n: nat, s: seq<ScanInfo>, t: seq<ScanInfo>)
    requires var m := DcScans(n);
      && t <= s && |t| == 2 * m + 4 * n && DcRun(s, 0, n, 0, 1) && SingleRun(s, m, n, 1, 5, 0, 2)
      && SingleRun(s, m + n, n, 6, 63, 0, 2) && SingleRun(s, m + 2 * n, n, 1, 63, 2, 1)
      && DcRun(s, m + 3 * n, n, 1, 0) && SingleRun(s, 2 * m + 3 * n, n, 1, 63, 1, 0)
    ensures PlainScript(n, t)
  {
    hide Is;
  }

  // ---------------------------------------------------------------- the scripts are valid and complete

  lemma ScanFits(n: nat, before: seq<ScanInfo>, s: ScanInfo, comps: seq<int>, ss: int, se: int, ah: int, al: int)
    requires Is(s, comps, ss, se, ah, al) && 1 <= |comps| <= MAX_COMPS_IN_SCAN && ParametersOk(s)
    requires forall j :: 0 <= j < |comps| ==> 0 <= comps[j] < n
    requires forall j :: 0 < j < |comps| ==> comps[j - 1] < comps[j]
    requires forall j :: 0 <= j < |comps| ==> BandOk(before, s, comps[j])
    ensures ScanOk(true, n, before, s)
  {
    hide LastAl, BandOk;
    assert comps == s.componentIndex[..s.compsInScan];
  }

  lemma SendsBand(s: ScanInfo, comps: seq<int>, ss: int, se: int, ah: int, al: int, c: int, k: int)
    requires Is(s, comps, ss, se, ah, al)
    ensures s.Sends(c, k) <==> c in comps && ss <= k <= se
    ensures s.al == al
  {
  }

  /** One more scan of one or several components. */
  lemma AppendScan(n: nat, before: seq<ScanInfo>, s: ScanInfo, comps: seq<int>, ss: int, se: int, ah: int, al: int)
    requires Is(s, comps, ss, se, ah, al) && 1 <= |comps| <= MAX_COMPS_IN_SCAN && ParametersOk(s)
    requires forall j :: 0 <= j < |comps| ==> 0 <= comps[j] < n
    requires forall j :: 0 < j < |comps| ==> comps[j - 1] < comps[j]
    requires OrderOk(true, n, before) && forall j :: 0 <= j < |comps| ==> BandOk(before, s, comps[j])
    ensures OrderOk(true, n, before + [s])
    ensures forall c, k :: LastAl(before + [s], c, k) == if c in comps && ss <= k <= se then al
        else LastAl(before, c, k)
  {
    hide LastAl, BandOk, OrderOk, ScanOk, Is;
    ScanFits(n, before, s, comps, ss, se, ah, al);
    OrderSnoc(true, n, before, s);
    forall c, k ensures LastAl(before + [s], c, k) == if c in comps && ss <= k <= se then al else LastAl(before, c, k) {
      LastAlSnoc(before, s, c, k);
      SendsBand(s, comps, ss, se, ah, al, c, k);
    }
  }

  /** Components `lo` to `hi - 1` have moved to bit position `al` in the band, nothing else has moved. */
  ghost predicate Moved(t: seq<ScanInfo>, u: seq<ScanInfo>, lo: int, hi: int, ss: int, se: int, al: int) {
    forall c, k :: LastAl(u, c, k) == if lo <= c < hi && ss <= k <= se then al else LastAl(t, c, k)
  }

  /** Every component stands at bit position `v` in the band. */
  ghost predicate At(script: seq<ScanInfo>, n: nat, ss: int, se: int, v: int) {
    forall c, k :: 0 <= c < n && ss <= k <= se ==> LastAl(script, c, k) == v
  }

  /** What scans may follow for a band that stands at `v`. */
  predicate Next(v: int, ah: int, al: int) {
    0 <= al <= MAX_AH_AL && if v == -1 then ah == 0 else 0 < v <= MAX_AH_AL && ah == v && al == v - 1
  }

  /** A run of single-component scans over one band moves the band of every component. */
  lemma {:induction false} AppendRun(n: nat, s: seq<ScanInfo>, p: nat, i: nat, ss: int, se: int, ah: int, al: int,
                                     v: int)
    requires SingleRun(s, p, n, ss, se, ah, al) && OrderOk(true, n, s[..p]) && i <= n
    requires if ss == 0 then se == 0
             else 1 <= ss <= se < DCTSIZE2 && forall c :: 0 <= c < n ==> LastAl(s[..p], c, 0) >= 0
    requires At(s[..p], n, ss, se, v) && Next(v, ah, al)
    ensures OrderOk(true, n, s[..p + i])
    ensures Moved(s[..p], s[..p + i], 0, i, ss, se, al)
  {
    hide LastAl, OrderOk;
    if i > 0 {
      AppendRun(n, s, p, i - 1, ss, se, ah, al, v);
      var now := s[..p + i - 1];
      assert s[..p + i] == now + [s[p + i - 1]];
      assert Is(s[p + i - 1], [i - 1], ss, se, ah, al);
      AppendScan(n, now, s[p + i - 1], [i - 1], ss, se, ah, al);
    }
  }

  /** An interleaved DC scan moves the DC coefficient of every component. */
  lemma AppendInterleaved(n: nat, s: seq<ScanInfo>, p: nat, ah: int, al: int, v: int)
    requires 0 < n <= MAX_COMPS_IN_SCAN && p < |s| && Is(s[p], AllComps(n), 0, 0, ah, al)
    requires OrderOk(true, n, s[..p]) && At(s[..p], n, 0, 0, v) && Next(v, ah, al)
    ensures OrderOk(true, n, s[..p + 1]) && Moved(s[..p], s[..p + 1], 0, n, 0, 0, al)
  {
    hide LastAl, OrderOk, ScanInfo.Comps;
    var t, comps := s[..p], AllComps(n);
    assert s[..p + 1] == t + [s[p]];
    forall j | 0 <= j < n ensures BandOk(t, s[p], comps[j]) {
      assert LastAl(t, j, 0) == v;
    }
    AppendScan(n, t, s[p], comps, 0, 0, ah, al);
    forall c ensures c in comps <==> 0 <= c < n {
      assert 0 <= c < n ==> comps[c] == c;
    }
  }

  /** A DC run moves the DC coefficient of every component. */
  lemma AppendDc(n: nat, s: seq<ScanInfo>, p: nat, ah: int, al: int, v: int)
    requires n > 0 && DcRun(s, p, n, ah, al) && OrderOk(true, n, s[..p]) && At(s[..p], n, 0, 0, v) && Next(v, ah, al)
    ensures var q := p + DcScans(n);
      q <= |s| && OrderOk(true, n, s[..q]) && Moved(s[..p], s[..q], 0, n, 0, 0, al)
  {
    hide LastAl, OrderOk, Is, At, Moved;
    if n <= MAX_COMPS_IN_SCAN {
      AppendInterleaved(n, s, p, ah, al, v);
    } else {
      AppendRun(n, s, p, n, 0, 0, ah, al, v);
    }
  }

  /** The script is complete: everything about every component has been sent, down to bit 0. */
  ghost predicate Complete(n: nat, s: seq<ScanInfo>) {
    forall c, k :: 0 <= c < n && 0 <= k < DCTSIZE2 ==> LastAl(s, c, k) == 0
  }

  lemma PlainOk(n: nat, s: seq<ScanInfo>)
    requires n > 0 && PlainScript(n, s)
    ensures OrderOk(true, n, s) && Complete(n, s)
  {
    hide LastAl, SingleRun, DcRun, OrderOk;
    var m := DcScans(n);
    NothingSent(true, n);
    assert s[..0] == [] && s[..2 * m + 4 * n] == s;
    AppendDc(n, s, 0, 0, 1, -1);
    AppendRun(n, s, m, n, 1, 5, 0, 2, -1);
    AppendRun(n, s, m + n, n, 6, 63, 0, 2, -1);
    AppendRun(n, s, m + 2 * n, n, 1, 63, 2, 1, 2);
    AppendDc(n, s, m + 3 * n, 1, 0, 1);
    AppendRun(n, s, 2 * m + 3 * n, n, 1, 63, 1, 0, 1);
  }

  lemma ColorStep(s: seq<ScanInfo>, p: nat, c: int, ss: int, se: int, ah: int, al: int, v: int)
    requires p < |s| && Is(s[p], [c], ss, se, ah, al) && 0 <= c < 3 && OrderOk(true, 3, s[..p])
    requires 1 <= ss <= se < DCTSIZE2 && Next(v, ah, al) && LastAl(s[..p], c, 0) >= 0
    requires forall k :: ss <= k <= se ==> LastAl(s[..p], c, k) == v
    ensures OrderOk(true, 3, s[..p + 1])
    ensures Moved(s[..p], s[..p + 1], c, c + 1, ss, se, al)
  {
    assert s[..p + 1] == s[..p] + [s[p]];
    AppendScan(3, s[..p], s[p], [c], ss, se, ah, al);
  }

  lemma ColorOk(s: seq<ScanInfo>)
    requires ColorScript(s)
    ensures OrderOk(true, 3, s) && Complete(3, s)
  {
    hide LastAl, OrderOk, Is;
    NothingSent(true, 3);
    assert s[..0] == [] && s[..10] == s;
    AppendDc(3, s, 0, 0, 1, -1);
    ColorStep(s, 1, 0, 1, 5, 0, 2, -1);
    ColorStep(s, 2, 2, 1, 63, 0, 1, -1);
    ColorStep(s, 3, 1, 1, 63, 0, 1, -1);
    ColorStep(s, 4, 0, 6, 63, 0, 2, -1);
    ColorStep(s, 5, 0, 1, 63, 2, 1, 2);
    AppendDc(3, s, 6, 1, 0, 1);
    ColorStep(s, 7, 2, 1, 63, 1, 0, 1);
    ColorStep(s, 8, 1, 1, 63, 1, 0, 1);
    ColorStep(s, 9, 0, 1, 63, 1, 0, 1);
  }

  /** For every number of components the script is accepted, and leaves nothing unsent. */
  lemma SimpleScriptComplete(n: nat, ycc: bool, s: seq<ScanInfo>)
    requires n > 0 && SimpleScript(n, ycc, s)
    ensures ValidScript(n, s) && Progressive(s) && Complete(n, s)
  {
    if n == 3 && ycc {
      ColorOk(s);
    } else {
      PlainOk(n, s);
    }
    assert forall c :: 0 <= c < n ==> LastAl(s, c, 0) == 0;
  }
}
