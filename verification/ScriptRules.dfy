/** The rules of `validate_script` in terms of the scans alone: which scan sent a coefficient last is read off the
    script itself, without a table of bit positions. */
module ScriptRules {
  import opened JpegLimits
  import opened ScanScripts
  import opened SimpleProgressions

  /** The scan carries coefficient `k` of component `c`. */
  ghost predicate Carries(s: ScanInfo, c: int, k: int) {
    s.ss <= k <= s.se && exists j :: 0 <= j < 4 && j < s.compsInScan <= 4 && s.componentIndex[j] == c
  }

  /** Scan `i` is the last one that carries it. */
  ghost predicate SentLast(script: seq<ScanInfo>, i: nat, c: int, k: int)
    requires i < |script|
  {
    Carries(script[i], c, k) && forall l :: i < l < |script| ==> !Carries(script[l], c, k)
  }

  ghost predicate NeverSent(script: seq<ScanInfo>, c: int, k: int) {
    forall i :: 0 <= i < |script| ==> !Carries(script[i], c, k)
  }

  lemma CarriesSends(s: ScanInfo, c: int, k: int)
    ensures s.Sends(c, k) <==> Carries(s, c, k)
  {
    if s.Sends(c, k) {
      var j :| 0 <= j < |s.Comps()| && s.Comps()[j] == c;
      assert s.componentIndex[j] == c;
    }
    if Carries(s, c, k) {
      var j :| 0 <= j < 4 && j < s.compsInScan <= 4 && s.componentIndex[j] == c;
      assert s.Comps()[j] == c;
    }
  }

  /** A scan that does not carry the coefficient changes nothing. */
  lemma SentEarlier(script: seq<ScanInfo>, i: nat, c: int, k: int)
    requires i < |script| && !Carries(script[|script| - 1], c, k)
    ensures SentLast(script, i, c, k) <==> i < |script| - 1 && SentLast(script[..|script| - 1], i, c, k)
  {
    hide Carries;
    var n := |script| - 1;
    if i < n {
      assert script[..n][i] == script[i];
      forall l | i < l < n ensures script[..n][l] == script[l] {
      }
      if SentLast(script[..n], i, c, k) {
        forall l | i < l < |script| ensures !Carries(script[l], c, k) {
          assert l < n ==> !Carries(script[..n][l], c, k);
        }
      }
    }
  }

  lemma SentHere(script: seq<ScanInfo>, c: int, k: int)
    requires script != [] && Carries(script[|script| - 1], c, k)
    ensures !NeverSent(script, c, k)
    ensures forall i :: 0 <= i < |script| ==> (SentLast(script, i, c, k) <==> i == |script| - 1)
  {
    hide Carries;
  }

  lemma NeverLonger(script: seq<ScanInfo>, c: int, k: int)
    requires script != [] && !Carries(script[|script| - 1], c, k)
    ensures NeverSent(script, c, k) <==> NeverSent(script[..|script| - 1], c, k)
  {
    hide Carries;
    var n := |script| - 1;
    if NeverSent(script[..n], c, k) {
      forall l | 0 <= l < |script| ensures !Carries(script[l], c, k) {
        assert l < n ==> !Carries(script[..n][l], c, k);
      }
    }
  }

  /** What `last_bitpos` records. */
  lemma {:induction false} LastSent(script: seq<ScanInfo>, c: int, k: int)
    ensures NeverSent(script, c, k) ==> LastAl(script, c, k) == -1
    ensures forall i :: 0 <= i < |script| && SentLast(script, i, c, k) ==> LastAl(script, c, k) == script[i].al
    ensures NeverSent(script, c, k) || exists i :: 0 <= i < |script| && SentLast(script, i, c, k)
  {
    hide Carries, SentLast, NeverSent;
    if script == [] {
      NoScans(c, k);
    } else {
      var n := |script| - 1;
      var before := script[..n];
      CarriesSends(script[n], c, k);
      if Carries(script[n], c, k) {
        SentHere(script, c, k);
        assert SentLast(script, n, c, k);
      } else {
        LastSent(before, c, k);
        NeverLonger(script, c, k);
        forall i | 0 <= i < |script| ensures SentLast(script, i, c, k) <==> i < n && SentLast(before, i, c, k) {
          SentEarlier(script, i, c, k);
        }
        if !NeverSent(before, c, k) {
          var i :| 0 <= i < |before| && SentLast(before, i, c, k);
          assert SentLast(script, i, c, k);
        }
      }
    }
  }

  lemma NoScans(c: int, k: int)
    ensures NeverSent([], c, k)
  {
  }

  /** One to four components of the image, in ascending order. */
  ghost predicate Components(n: int, s: ScanInfo) {
    && 1 <= s.compsInScan <= 4
    && (forall j :: 0 <= j < s.compsInScan ==> 0 <= s.componentIndex[j] < n)
    && (forall j :: 0 < j < s.compsInScan ==> s.componentIndex[j - 1] < s.componentIndex[j])
  }

  /** What a progressive scan must satisfy after the scans `before`. */
  ghost predicate ProgressiveRule(n: int, before: seq<ScanInfo>, s: ScanInfo) {
    && Components(n, s)
    && 0 <= s.ss <= s.se <= 63 && 0 <= s.ah <= 10 && 0 <= s.al <= 10
    && (s.ss == 0 ==> s.se == 0) && (s.ss > 0 ==> s.compsInScan == 1)
    && forall j :: 0 <= j < s.compsInScan ==> BandRule(before, s, s.componentIndex[j])
  }

  /** DC comes first; a first scan of a coefficient has `ah` 0, and each later one sends the next bit. */
  ghost predicate BandRule(before: seq<ScanInfo>, s: ScanInfo, c: int) {
    && (s.ss > 0 ==> !NeverSent(before, c, 0))
    && forall k :: s.ss <= k <= s.se ==> NextBit(before, s, c, k)
  }

  ghost predicate NextBit(before: seq<ScanInfo>, s: ScanInfo, c: int, k: int) {
    && (NeverSent(before, c, k) ==> s.ah == 0)
    && forall i :: 0 <= i < |before| && SentLast(before, i, c, k) ==> s.ah == before[i].al && s.al == s.ah - 1
  }

  /** A sequential scan sends whole blocks of components not sent before. */
  ghost predicate SequentialRule(n: int, before: seq<ScanInfo>, s: ScanInfo) {
    && Components(n, s) && s.ss == 0 && s.se == 63 && s.ah == 0 && s.al == 0
    && forall j :: 0 <= j < s.compsInScan ==> NeverSent(before, s.componentIndex[j], 0)
  }

  ghost predicate NonNegative(script: seq<ScanInfo>) { forall i :: 0 <= i < |script| ==> script[i].al >= 0 }

  lemma LastNegative(script: seq<ScanInfo>, c: int, k: int)
    requires NonNegative(script)
    ensures LastAl(script, c, k) < 0 <==> NeverSent(script, c, k)
  {
    hide Carries, SentLast, NeverSent, LastAl;
    LastSent(script, c, k);
    if !NeverSent(script, c, k) {
      var i :| 0 <= i < |script| && SentLast(script, i, c, k);
      assert LastAl(script, c, k) == script[i].al;
    }
  }

  lemma NextAgrees(before: seq<ScanInfo>, s: ScanInfo, c: int, k: int)
    requires NonNegative(before)
    ensures Continues(s, LastAl(before, c, k)) <==> NextBit(before, s, c, k)
  {
    hide Carries, SentLast, NeverSent, LastAl;
    LastNegative(before, c, k);
    LastSent(before, c, k);
    if NeverSent(before, c, k) {
      forall i | 0 <= i < |before| ensures !SentLast(before, i, c, k) {
        NotLast(before, i, c, k);
      }
    } else {
      var i :| 0 <= i < |before| && SentLast(before, i, c, k);
      assert LastAl(before, c, k) == before[i].al;
    }
  }

  lemma NotLast(script: seq<ScanInfo>, i: nat, c: int, k: int)
    requires i < |script| && NeverSent(script, c, k)
    ensures !SentLast(script, i, c, k)
  {
  }

  lemma BandAgrees(before: seq<ScanInfo>, s: ScanInfo, c: int)
    requires NonNegative(before) && 0 <= s.ss
    ensures BandOk(before, s, c) <==> BandRule(before, s, c)
  {
    hide NeverSent, LastAl, NextBit, Continues;
    LastNegative(before, c, 0);
    forall k | s.ss <= k <= s.se ensures Continues(s, LastAl(before, c, k)) <==> NextBit(before, s, c, k) {
      NextAgrees(before, s, c, k);
    }
  }

  lemma CompsAre(s: ScanInfo, c: int)
    requires 1 <= s.compsInScan <= 4
    ensures c in s.Comps() <==> exists j :: 0 <= j < s.compsInScan && s.componentIndex[j] == c
  {
    if j :| 0 <= j < s.compsInScan && s.componentIndex[j] == c {
      assert s.Comps()[j] == c;
    }
    if c in s.Comps() {
      var j :| 0 <= j < |s.Comps()| && s.Comps()[j] == c;
      assert s.componentIndex[j] == c;
    }
  }

  lemma ProgressiveAgrees(n: int, before: seq<ScanInfo>, s: ScanInfo)
    requires NonNegative(before)
    ensures ProgressiveOk(n, before, s) <==> ProgressiveRule(n, before, s)
  {
    hide BandOk, BandRule;
    if 1 <= s.compsInScan <= 4 && 0 <= s.ss {
      forall c ensures c in s.Comps() <==> exists j :: 0 <= j < s.compsInScan && s.componentIndex[j] == c {
        CompsAre(s, c);
      }
      forall c ensures BandOk(before, s, c) <==> BandRule(before, s, c) {
        BandAgrees(before, s, c);
      }
      forall j | 0 <= j < s.compsInScan ensures s.componentIndex[j] in s.Comps() {
        CompsAre(s, s.componentIndex[j]);
      }
    }
  }

  lemma SequentialAgrees(n: int, before: seq<ScanInfo>, s: ScanInfo)
    requires NonNegative(before)
    ensures SequentialOk(n, before, s) <==> SequentialRule(n, before, s)
  {
    hide LastAl, NeverSent;
    if 1 <= s.compsInScan <= 4 {
      forall c ensures c in s.Comps() <==> exists j :: 0 <= j < s.compsInScan && s.componentIndex[j] == c {
        CompsAre(s, c);
      }
      forall c ensures LastAl(before, c, 0) < 0 <==> NeverSent(before, c, 0) {
        LastNegative(before, c, 0);
      }
      forall j | 0 <= j < s.compsInScan ensures s.componentIndex[j] in s.Comps() {
        CompsAre(s, s.componentIndex[j]);
      }
    }
  }

  /** A script is valid if and only if it has a scan, every scan obeys the rule for what its first scan makes of the
      image, sequential if that sends whole blocks and progressive otherwise, and some scan sends the DC coefficient
      of each component. */
  lemma ValidExactly(n: int, script: seq<ScanInfo>)
    ensures ValidScript(n, script) <==>
      && script != []
      && (forall i :: 0 <= i < |script| ==>
            if script[0].ss == 0 && script[0].se == 63 then SequentialRule(n, script[..i], script[i])
            else ProgressiveRule(n, script[..i], script[i]))
      && (forall c :: 0 <= c < n ==> !NeverSent(script, c, 0))
  {
    hide SequentialRule, ProgressiveRule, SequentialOk, ProgressiveOk, LastAl, NeverSent;
    if script != [] {
      var sequential := script[0].ss == 0 && script[0].se == 63;
      forall i | 0 <= i < |script|
        ensures ScanOk(!sequential, n, script[..i], script[i]) ==> script[i].al >= 0
        ensures (if sequential then SequentialRule(n, script[..i], script[i])
                 else ProgressiveRule(n, script[..i], script[i])) ==> script[i].al >= 0
      {
        AlNonNegative(n, script[..i], script[i]);
      }
      if forall i :: 0 <= i < |script| ==> script[i].al >= 0 {
        forall i | 0 <= i < |script|
          ensures ScanOk(!sequential, n, script[..i], script[i]) <==>
            if sequential then SequentialRule(n, script[..i], script[i])
            else ProgressiveRule(n, script[..i], script[i])
        {
          SequentialAgrees(n, script[..i], script[i]);
          ProgressiveAgrees(n, script[..i], script[i]);
        }
        forall c ensures LastAl(script, c, 0) < 0 <==> NeverSent(script, c, 0) {
          LastNegative(script, c, 0);
        }
      }
    }
  }

  lemma AlNonNegative(n: int, before: seq<ScanInfo>, s: ScanInfo)
    ensures SequentialRule(n, before, s) || ProgressiveRule(n, before, s) ==> s.al >= 0
    ensures SequentialOk(n, before, s) || ProgressiveOk(n, before, s) ==> s.al >= 0
  {
  }

  // ---------------------------------------------------------------- the scripts of jpeg_simple_progression

  /** The components and parameters of a scan. */
  ghost predicate Does(s: ScanInfo, comps: seq<int>, ss: int, se: int, ah: int, al: int) {
    && s.compsInScan == |comps| <= 4 && s.ss == ss && s.se == se && s.ah == ah && s.al == al
    && forall j :: 0 <= j < |comps| ==> s.componentIndex[j] == comps[j]
  }

  lemma IsDoes(s: ScanInfo, comps: seq<int>, ss: int, se: int, ah: int, al: int)
    requires Is(s, comps, ss, se, ah, al)
    ensures Does(s, comps, ss, se, ah, al)
  {
    forall j | 0 <= j < |comps| ensures s.componentIndex[j] == comps[j] {
      assert s.Comps()[j] == comps[j];
    }
  }

  /** The ten scans for YCbCr. */
  lemma ColorScans(s: seq<ScanInfo>)
    requires SimpleScript(3, true, s)
    ensures |s| == 10
    ensures Does(s[0], [0, 1, 2], 0, 0, 0, 1) && Does(s[1], [0], 1, 5, 0, 2) && Does(s[2], [2], 1, 63, 0, 1)
    ensures Does(s[3], [1], 1, 63, 0, 1) && Does(s[4], [0], 6, 63, 0, 2) && Does(s[5], [0], 1, 63, 2, 1)
    ensures Does(s[6], [0, 1, 2], 0, 0, 1, 0) && Does(s[7], [2], 1, 63, 1, 0) && Does(s[8], [1], 1, 63, 1, 0)
    ensures Does(s[9], [0], 1, 63, 1, 0)
  {
    hide Is, Does;
    assert AllComps(3) == [0, 1, 2];
    IsDoes(s[0], [0, 1, 2], 0, 0, 0, 1);
    IsDoes(s[1], [0], 1, 5, 0, 2);
    IsDoes(s[2], [2], 1, 63, 0, 1);
    IsDoes(s[3], [1], 1, 63, 0, 1);
    IsDoes(s[4], [0], 6, 63, 0, 2);
    IsDoes(s[5], [0], 1, 63, 2, 1);
    IsDoes(s[6], [0, 1, 2], 0, 0, 1, 0);
    IsDoes(s[7], [2], 1, 63, 1, 0);
    IsDoes(s[8], [1], 1, 63, 1, 0);
    IsDoes(s[9], [0], 1, 63, 1, 0);
  }

  /** Otherwise: a DC scan, two bands of first AC scans, two refinements of the whole AC band, and before the last the
      refinement of DC; interleaved DC scans if there are at most four components. */
  lemma PlainScans(n: nat, ycc: bool, s: seq<ScanInfo>, i: nat)
    requires SimpleScript(n, ycc, s) && !(n == 3 && ycc) && i < n
    ensures var m := if n <= 4 then 1 else n;
      && |s| == (if n <= 4 then 2 + 4 * n else 6 * n)
      && (n <= 4 ==> Does(s[0], seq(n, j => j), 0, 0, 0, 1) && Does(s[1 + 3 * n], seq(n, j => j), 0, 0, 1, 0))
      && (n > 4 ==> Does(s[i], [i], 0, 0, 0, 1) && Does(s[4 * n + i], [i], 0, 0, 1, 0))
      && Does(s[m + i], [i], 1, 5, 0, 2) && Does(s[m + n + i], [i], 6, 63, 0, 2)
      && Does(s[m + 2 * n + i], [i], 1, 63, 2, 1) && Does(s[2 * m + 3 * n + i], [i], 1, 63, 1, 0)
  {
    hide Is, Does, SingleRun, DcRun;
    var m := DcScans(n);
    DcDoes(s, 0, n, 0, 1, i);
    DcDoes(s, m + 3 * n, n, 1, 0, i);
    RunDoes(s, m, n, 1, 5, 0, 2, i);
    RunDoes(s, m + n, n, 6, 63, 0, 2, i);
    RunDoes(s, m + 2 * n, n, 1, 63, 2, 1, i);
    RunDoes(s, 2 * m + 3 * n, n, 1, 63, 1, 0, i);
  }

  lemma DcDoes(s: seq<ScanInfo>, p: nat, n: nat, ah: int, al: int, i: nat)
    requires DcRun(s, p, n, ah, al) && i < n
    ensures n <= 4 ==> p < |s| && Does(s[p], seq(n, j => j), 0, 0, ah, al)
    ensures n > 4 ==> p + i < |s| && Does(s[p + i], [i], 0, 0, ah, al)
  {
    hide Is, Does, SingleRun;
    if n <= 4 {
      assert AllComps(n) == seq(n, j => j);
      IsDoes(s[p], AllComps(n), 0, 0, ah, al);
    } else {
      RunDoes(s, p, n, 0, 0, ah, al, i);
    }
  }

  lemma RunDoes(s: seq<ScanInfo>, p: nat, n: nat, ss: int, se: int, ah: int, al: int, i: nat)
    requires SingleRun(s, p, n, ss, se, ah, al) && i < n
    ensures p + i < |s| && Does(s[p + i], [i], ss, se, ah, al)
  {
    hide Is, Does;
    assert Is(s[p + i], [p + i - p], ss, se, ah, al);
    IsDoes(s[p + i], [i], ss, se, ah, al);
  }
}
