/** Why Huffman's procedure is optimal: length assignments under the Kraft inequality, their cost,
    and the lower bound that merging the two smallest weights preserves. */
module HuffmanOptimality {
  import opened BitStrings

  // ---------------------------------------------------------------- sums

  function Total(s: seq<nat>): nat
  {
    if s == [] then 0 else Total(s[..|s| - 1]) + s[|s| - 1]
  }

  lemma {:induction false} TotalUpdate(s: seq<nat>, i: nat, v: nat)
    requires i < |s|
    ensures Total(s[i := v]) + s[i] == Total(s) + v
  {
    var n := |s| - 1;
    if i == n {
      assert s[i := v][..n] == s[..n];
    } else {
      TotalUpdate(s[..n], i, v);
      assert s[i := v][..n] == s[..n][i := v];
    }
  }

  lemma {:induction false} TotalAtLeast(s: seq<nat>, i: nat)
    requires i < |s|
    ensures s[i] <= Total(s)
  {
    if i < |s| - 1 {
      TotalAtLeast(s[..|s| - 1], i);
    }
  }

  lemma {:induction false} TotalTwo(s: seq<nat>, i: nat, j: nat)
    requires i < j < |s|
    ensures s[i] + s[j] <= Total(s)
  {
    if j < |s| - 1 {
      TotalTwo(s[..|s| - 1], i, j);
    } else {
      TotalAtLeast(s[..|s| - 1], i);
    }
  }

  lemma {:induction false} TotalZero(s: seq<nat>)
    requires forall i :: 0 <= i < |s| ==> s[i] == 0
    ensures Total(s) == 0
  {
    if s != [] {
      TotalZero(s[..|s| - 1]);
    }
  }

  lemma {:induction false} TotalDoubles(s: seq<nat>, t: seq<nat>)
    requires |s| == |t| && forall i :: 0 <= i < |s| ==> t[i] == 2 * s[i]
    ensures Total(t) == 2 * Total(s)
  {
    if s != [] {
      TotalDoubles(s[..|s| - 1], t[..|t| - 1]);
    }
  }

  // ---------------------------------------------------------------- weights and lengths

  /** Weights by symbol; weight 0 means the symbol is absent. */
  type Weights = seq<nat>

  function KraftTerms(w: Weights, len: seq<nat>, n: nat): (s: seq<nat>)
    requires |w| == |len|
    ensures |s| == |w|
  {
    seq(|w|, i requires 0 <= i < |w| => if w[i] > 0 && len[i] <= n then Pow2(n - len[i]) else 0)
  }

  function CostTerms(w: Weights, len: seq<nat>): (s: seq<nat>)
    requires |w| == |len|
    ensures |s| == |w|
  {
    seq(|w|, i requires 0 <= i < |w| => w[i] * len[i])
  }

  /** The sum of `2^-len` over the present symbols, in units of `2^-n`. */
  function Kraft(w: Weights, len: seq<nat>, n: nat): nat
    requires |w| == |len|
  {
    Total(KraftTerms(w, len, n))
  }

  /** The number of bits spent. */
  function Cost(w: Weights, len: seq<nat>): nat
    requires |w| == |len|
  {
    Total(CostTerms(w, len))
  }

  /** Lengths at most `n` that satisfy the Kraft inequality. */
  ghost predicate Feasible(w: Weights, len: seq<nat>, n: nat) {
    && |w| == |len|
    && (forall i :: 0 <= i < |w| && w[i] > 0 ==> len[i] <= n)
    && Kraft(w, len, n) <= Pow2(n)
  }

  function Merge(w: Weights, a: nat, b: nat): Weights
    requires a < |w| && b < |w|
  {
    w[a := w[a] + w[b]][b := 0]
  }

  // ---------------------------------------------------------------- changing one length

  lemma SetLength(w: Weights, len: seq<nat>, n: nat, i: nat, l: nat)
    requires |w| == |len| && i < |w| && w[i] > 0 && len[i] <= n && l <= n
    ensures Kraft(w, len[i := l], n) + Pow2(n - len[i]) == Kraft(w, len, n) + Pow2(n - l)
    ensures Cost(w, len[i := l]) + w[i] * len[i] == Cost(w, len) + w[i] * l
  {
    assert KraftTerms(w, len[i := l], n) == KraftTerms(w, len, n)[i := Pow2(n - l)];
    TotalUpdate(KraftTerms(w, len, n), i, Pow2(n - l));
    assert CostTerms(w, len[i := l]) == CostTerms(w, len)[i := w[i] * l];
    TotalUpdate(CostTerms(w, len), i, w[i] * l);
  }

  /** Exchanging lengths so that the lighter symbol gets the longer one costs nothing. */
  lemma Exchange(w: Weights, len: seq<nat>, n: nat, i: nat, j: nat)
    requires Feasible(w, len, n) && i < |w| && j < |w| && i != j
    requires 0 < w[i] <= w[j] && len[i] <= len[j]
    ensures Feasible(w, len[i := len[j]][j := len[i]], n)
    ensures Cost(w, len[i := len[j]][j := len[i]]) <= Cost(w, len)
  {
    SetLength(w, len, n, i, len[j]);
    SetLength(w, len[i := len[j]], n, j, len[i]);
    CrossProducts(w[i], w[j], len[i], len[j]);
  }

  lemma CrossProducts(a: nat, b: nat, x: nat, y: nat)
    requires a <= b && x <= y
    ensures a * y + b * x <= a * x + b * y
  {
    assert (b - a) * x <= (b - a) * y;
    assert (b - a) * x == b * x - a * x && (b - a) * y == b * y - a * y;
  }

  // ---------------------------------------------------------------- the longest codes come in pairs

  /** Kraft terms in coarser units. */
  lemma {:induction false} KraftCoarser(w: Weights, len: seq<nat>, m: nat, n: nat)
    requires |w| == |len| && m <= n
    requires forall i :: 0 <= i < |w| && w[i] > 0 ==> len[i] <= m
    ensures Kraft(w, len, n) == Shl(Kraft(w, len, m), n - m)
  {
    if m < n {
      KraftCoarser(w, len, m, n - 1);
      TotalDoubles(KraftTerms(w, len, n - 1), KraftTerms(w, len, n));
    }
  }

  /** A sum of multiples of `2^-(l-1)` that leaves room for `2^-l` leaves room for twice that. */
  lemma RoomForTwice(m: nat, l: nat, k: nat)
    requires l > 0 && Shl(m, k + 1) + Pow2(k) <= Pow2(l + k)
    ensures Shl(m, k + 1) + Pow2(k + 1) <= Pow2(l + k)
  {
    ShlPow2(l - 1, k + 1);
    ShlPow2(0, k + 1);
    if m >= Pow2(l - 1) {
      ShlMono(Pow2(l - 1), m, k + 1);
    } else {
      ShlMono(m + 1, Pow2(l - 1), k + 1);
      ShlSum(m, 1, k + 1);
    }
  }

  /** If one symbol alone has the longest code, the code can be shortened. */
  lemma ShortenLonely(w: Weights, len: seq<nat>, n: nat, p: nat)
    requires Feasible(w, len, n) && p < |w| && w[p] > 0 && len[p] > 0
    requires forall i :: 0 <= i < |w| && w[i] > 0 && i != p ==> len[i] < len[p]
    ensures Feasible(w, len[p := len[p] - 1], n)
    ensures Cost(w, len[p := len[p] - 1]) < Cost(w, len)
  {
    hide CostTerms, Total;
    var l := len[p];
    SetLength(w, len, n, p, l - 1);
    ProductStep(w[p], l);
    // without p, the sum is a multiple of 2^-(l-1)
    var w' := w[p := 0];
    assert KraftTerms(w', len, n) == KraftTerms(w, len, n)[p := 0];
    TotalUpdate(KraftTerms(w, len, n), p, 0);
    KraftCoarser(w', len, l - 1, n);
    RoomForTwice(Kraft(w', len, l - 1), l, n - l);
  }

  lemma ProductStep(a: nat, l: nat)
    requires l > 0
    ensures a * l == a * (l - 1) + a
  {
  }

  /** A present symbol of maximal length. */
  lemma {:induction false} Longest(w: Weights, len: seq<nat>, k: nat) returns (p: nat)
    requires |w| == |len| && k <= |w|
    requires exists i :: 0 <= i < k && w[i] > 0
    ensures p < k && w[p] > 0
    ensures forall i :: 0 <= i < k && w[i] > 0 ==> len[i] <= len[p]
  {
    if exists i :: 0 <= i < k - 1 && w[i] > 0 {
      p := Longest(w, len, k - 1);
      if w[k - 1] > 0 && len[k - 1] > len[p] {
        p := k - 1;
      }
    } else {
      p := k - 1;
    }
  }

  /** `a` and `b` are the two lightest present symbols. */
  ghost predicate TwoLightest(w: Weights, a: nat, b: nat)
  {
    && a < |w| && b < |w| && a != b && 0 < w[a] <= w[b]
    && forall i :: 0 <= i < |w| && w[i] > 0 && i != a ==> w[b] <= w[i]
  }

  /** Any feasible lengths can be rearranged, at no cost, so that the two lightest symbols have the
      same, longest, length. */
  lemma {:induction false} PairUp(w: Weights, len: seq<nat>, n: nat, a: nat, b: nat) returns (len': seq<nat>)
    requires Feasible(w, len, n) && TwoLightest(w, a, b)
    ensures Feasible(w, len', n) && Cost(w, len') <= Cost(w, len)
    ensures len'[a] == len'[b] && len'[a] > 0
    decreases Cost(w, len)
  {
    var p := Longest(w, len, |w|);
    if exists q :: 0 <= q < |w| && q != p && w[q] > 0 && len[q] == len[p] {
      var q :| 0 <= q < |w| && q != p && w[q] > 0 && len[q] == len[p];
      TwoLongestPositive(w, len, n, p, q);
      len' := BringDown(w, len, n, a, b, p, q);
    } else {
      var i := if p == a then b else a;
      assert len[i] < len[p];
      ShortenLonely(w, len, n, p);
      len' := PairUp(w, len[p := len[p] - 1], n, a, b);
    }
  }

  lemma TwoLongestPositive(w: Weights, len: seq<nat>, n: nat, p: nat, q: nat)
    requires Feasible(w, len, n) && p < |w| && q < |w| && p != q && w[p] > 0 && w[q] > 0 && len[p] == len[q]
    ensures len[p] > 0
  {
    if len[p] == 0 {
      TotalTwo(KraftTerms(w, len, n), if p < q then p else q, if p < q then q else p);
    }
  }

  lemma BringDown(w: Weights, len: seq<nat>, n: nat, a: nat, b: nat, p: nat, q: nat) returns (len': seq<nat>)
    requires Feasible(w, len, n) && TwoLightest(w, a, b)
    requires p < |w| && q < |w| && p != q && w[p] > 0 && w[q] > 0 && len[p] == len[q] > 0
    requires forall i :: 0 <= i < |w| && w[i] > 0 ==> len[i] <= len[p]
    ensures Feasible(w, len', n) && Cost(w, len') <= Cost(w, len)
    ensures len'[a] == len'[b] == len[p]
  {
    hide Kraft, Cost;
    var l := len[p];
    // first give `a` the longest length, from a partner other than the one kept for `b`
    var p1 := if len[a] == l then a else p;
    var q1 := if len[a] == l then (if p == a then q else p) else q;
    assert q1 != a && q1 != p1 && len[q1] == l;
    var len1 := len;
    if p1 != a {
      Exchange(w, len, n, a, p1);
      len1 := len[a := len[p1]][p1 := len[a]];
    }
    assert len1[a] == l && len1[q1] == l;
    if q1 != b {
      Exchange(w, len1, n, b, q1);
      len' := len1[b := len1[q1]][q1 := len1[b]];
    } else {
      len' := len1;
    }
  }

  /** A pair of equal length `l`, seen as one symbol of length `l - 1`: the same Kraft sum. */
  lemma MergeKraft(w: Weights, len: seq<nat>, n: nat, a: nat, b: nat)
    requires |w| == |len| && a < |w| && b < |w| && a != b && w[a] > 0 && w[b] > 0
    requires 0 < len[a] == len[b] <= n
    ensures Kraft(Merge(w, a, b), len[a := len[a] - 1], n) == Kraft(w, len, n)
  {
    var up := Pow2(n - (len[a] - 1));
    var k := KraftTerms(w, len, n);
    assert KraftTerms(Merge(w, a, b), len[a := len[a] - 1], n) == k[a := up][b := 0];
    TotalUpdate(k, a, up);
    TotalUpdate(k[a := up], b, 0);
  }

  /** The same for the cost: it drops by the weight of the pair. */
  lemma MergeCost(w: Weights, len: seq<nat>, a: nat, b: nat)
    requires |w| == |len| && a < |w| && b < |w| && a != b && 0 < len[a] == len[b]
    ensures Cost(Merge(w, a, b), len[a := len[a] - 1]) + w[a] + w[b] == Cost(w, len)
  {
    var up := (w[a] + w[b]) * (len[a] - 1);
    var c := CostTerms(w, len);
    assert CostTerms(Merge(w, a, b), len[a := len[a] - 1]) == c[a := up][b := 0];
    TotalUpdate(c, a, up);
    TotalUpdate(c[a := up], b, 0);
    PairProduct(w[a], w[b], len[a]);
  }

  lemma PairProduct(x: nat, y: nat, l: nat)
    requires l > 0
    ensures (x + y) * (l - 1) + x + y == x * l + y * l
  {
  }

  /** Feasible lengths of the weights give feasible lengths of the merged weights that are cheaper
      by what the merge costs. */
  lemma MergeBound(w: Weights, len: seq<nat>, n: nat, a: nat, b: nat) returns (len': seq<nat>)
    requires Feasible(w, len, n) && TwoLightest(w, a, b)
    ensures Feasible(Merge(w, a, b), len', n)
    ensures Cost(Merge(w, a, b), len') + w[a] + w[b] <= Cost(w, len)
  {
    hide Kraft, Cost;
    var len1 := PairUp(w, len, n, a, b);
    len' := len1[a := len1[a] - 1];
    MergeKraft(w, len1, n, a, b);
    MergeCost(w, len1, a, b);
  }

  // ---------------------------------------------------------------- the bound carried by the merge loop

  /** After merges that cost `spent` in all: every feasible assignment of the original weights costs
      at least `spent` more than some feasible assignment of the current ones. */
  ghost predicate LowerBound(w0: Weights, spent: nat, w: Weights)
  {
    forall len: seq<nat>, n: nat :: Feasible(w0, len, n) ==> Reduces(w0, len, n, spent, w)
  }

  ghost predicate Reduces(w0: Weights, len: seq<nat>, n: nat, spent: nat, w: Weights)
    requires |w0| == |len|
  {
    exists len': seq<nat> :: Feasible(w, len', n) && Cost(w, len') + spent <= Cost(w0, len)
  }

  lemma LowerBoundStart(w0: Weights)
    ensures LowerBound(w0, 0, w0)
  {
    forall len: seq<nat>, n: nat | Feasible(w0, len, n) ensures Reduces(w0, len, n, 0, w0) {
      assert Feasible(w0, len, n) && Cost(w0, len) + 0 <= Cost(w0, len);
    }
  }

  lemma LowerBoundStep(w0: Weights, spent: nat, w: Weights, a: nat, b: nat)
    requires LowerBound(w0, spent, w) && TwoLightest(w, a, b)
    ensures LowerBound(w0, spent + w[a] + w[b], Merge(w, a, b))
  {
    forall len: seq<nat>, n: nat | Feasible(w0, len, n)
      ensures Reduces(w0, len, n, spent + w[a] + w[b], Merge(w, a, b))
    {
      assert Reduces(w0, len, n, spent, w);
      var len1: seq<nat> :| Feasible(w, len1, n) && Cost(w, len1) + spent <= Cost(w0, len);
      var len2 := MergeBound(w, len1, n, a, b);
      assert Feasible(Merge(w, a, b), len2, n);
    }
  }

  /** At the end: no feasible assignment costs less than what the merges cost. */
  lemma LowerBoundEnd(w0: Weights, spent: nat, w: Weights, len: seq<nat>, n: nat)
    requires LowerBound(w0, spent, w) && Feasible(w0, len, n)
    ensures spent <= Cost(w0, len)
  {
    assert Reduces(w0, len, n, spent, w);
  }
}
