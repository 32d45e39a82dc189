/** `jpeg_gen_optimal_table`: Huffman's procedure over linked chains, the limit of 16 bits, and the
    table that results. */
module OptimalTables {
  import opened BitStrings
  import opened HuffmanTables
  import opened HuffmanOptimality
  import opened HuffmanForests
  import opened CodeLengths

  const SYMBOLS := 257
  const CUTOFF := 1_000_000_000

  // ---------------------------------------------------------------- the merge loop

  /** The search for the smallest nonzero frequency, the larger symbol number winning ties. */
  method FindSmallest(freq: array<nat>, skip: int) returns (c: int)
    requires freq.Length == SYMBOLS
    ensures c == -1 ==> forall y :: 0 <= y < SYMBOLS && y != skip && freq[y] > 0 ==> freq[y] > CUTOFF
    ensures c != -1 ==> 0 <= c < SYMBOLS && c != skip && 0 < freq[c] <= CUTOFF
    ensures c != -1 ==>
      forall y :: 0 <= y < SYMBOLS && y != skip && y != c && freq[y] > 0 ==>
        freq[c] < freq[y] || (freq[c] == freq[y] && c > y)
  {
    c := -1;
    var v: nat := CUTOFF;
    for i := 0 to SYMBOLS
      invariant -1 <= c < i && (c == -1 ==> v == CUTOFF)
      invariant c == -1 ==> forall y :: 0 <= y < i && y != skip && freq[y] > 0 ==> freq[y] > CUTOFF
      invariant c != -1 ==> c != skip && 0 < freq[c] == v <= CUTOFF
      invariant c != -1 ==>
        forall y :: 0 <= y < i && y != skip && y != c && freq[y] > 0 ==>
          freq[c] < freq[y] || (freq[c] == freq[y] && c > y)
    {
      if freq[i] != 0 && freq[i] <= v && i != skip {
        v := freq[i];
        c := i;
      }
    }
  }

  lemma DeepenedOne(size: seq<nat>, s: seq<nat>, k: nat)
    requires k < |s| && s[k] !in s[..k] && s[k] < |size|
    ensures Deepened(size, s[..k + 1]) == Deepened(size, s[..k])[s[k] := size[s[k]] + 1]
  {
    assert s[..k + 1] == s[..k] + [s[k]];
  }

  /** The walk along a chain that makes every code in it one bit longer. */
  method Lengthen(codesize: array<nat>, others: array<int>, c0: nat, ghost chain: seq<nat>) returns (c: nat)
    requires codesize.Length == others.Length
    requires IsPath(others[..], c0, chain)
    modifies codesize
    ensures c == chain[|chain| - 1] < codesize.Length
    ensures codesize[..] == Deepened(old(codesize[..]), chain)
  {
    ghost var size0 := codesize[..];
    ghost var k := 0;
    c := c0;
    assert chain[..0] == [] && Deepened(size0, []) == size0;
    DeepenedOne(size0, chain, 0);
    codesize[c] := codesize[c] + 1;
    while others[c] >= 0
      invariant k < |chain| && c == chain[k]
      invariant k + 1 < |chain| ==> others[c] == chain[k + 1]
      invariant codesize[..] == Deepened(size0, chain[..k + 1])
      decreases |chain| - k
    {
      forall i | 0 <= i < k + 1 ensures chain[i] != chain[k + 1] {
        PathDistinct(others[..], c0, chain, i, k + 1);
      }
      DeepenedOne(size0, chain, k + 1);
      c := others[c];
      k := k + 1;
      codesize[c] := codesize[c] + 1;
    }
    assert chain[..k + 1] == chain;
  }

  lemma DeepenedTwice(size: seq<nat>, s: seq<nat>, t: seq<nat>)
    requires forall i :: i in s ==> i !in t
    ensures Deepened(Deepened(size, s), t) == Deepened(size, s + t)
  {
  }

  /** One merge: the lighter tree takes the other one in. */
  method MergeTrees(freq: array<nat>, codesize: array<nat>, others: array<int>, a: nat, b: nat,
                    ghost w0: Weights, ghost f: Forest)
    requires freq.Length == codesize.Length == others.Length == |w0| && freq != codesize
    requires f.freq == freq[..] && f.size == codesize[..] && f.others == others[..]
    requires CanJoin(w0, f, a, b) && Chained(w0, f)
    modifies freq, codesize, others
    ensures var f' := Joined(w0, f, a, b);
      f'.freq == freq[..] && f'.size == codesize[..] && f'.others == others[..]
    ensures freq[..] == old(freq[..])[a := old(freq[a] + freq[b])][b := 0]
  {
    freq[a] := freq[a] + freq[b];
    freq[b] := 0;
    JoinedChained(w0, f, a, b);
    var c1 := Lengthen(codesize, others, a, f.chain[a]);
    others[c1] := b;
    var c2 := Lengthen(codesize, others, b, f.chain[b]);
    DeepenedTwice(f.size, f.chain[a], f.chain[b]);
  }

  /** The counts the procedure is made for: some real symbol occurs, and the total is no more than
      the cutoff of the search. */
  ghost predicate Countable(w: Weights) {
    && |w| == SYMBOLS && w[SYMBOLS - 1] == 1
    && (exists u :: 0 <= u < SYMBOLS - 1 && w[u] > 0)
    && Total(w) <= CUTOFF
  }

  /** The arrays hold the forest. */
  ghost predicate Holds(freq: seq<nat>, codesize: seq<nat>, others: seq<int>, w0: Weights, f: Forest, spent: nat) {
    && f.freq == freq && f.size == codesize && f.others == others
    && Grown(w0, f, spent) && Total(freq) == Total(w0)
  }

  /** A merge as the source has it: the least nonzero frequency, the larger symbol number winning ties, takes in
      the least of the others. */
  ghost predicate LightestMerged(w: seq<nat>, w': seq<nat>) {
    exists a, b :: 0 <= a < |w| && 0 <= b < |w| && TookIn(w, w', a, b)
  }

  ghost predicate TookIn(w: seq<nat>, w': seq<nat>, a: nat, b: nat)
    requires a < |w| && b < |w|
  {
    && a != b && w[a] > 0 && w[b] > 0 && w' == w[a := w[a] + w[b]][b := 0]
    && (forall y :: 0 <= y < |w| && y != a && w[y] > 0 ==> w[a] < w[y] || (w[a] == w[y] && a > y))
    && (forall y :: 0 <= y < |w| && y != a && y != b && w[y] > 0 ==> w[b] < w[y] || (w[b] == w[y] && b > y))
  }

  lemma TwoMerged(w: seq<nat>, w': seq<nat>, a: nat, b: nat)
    requires a < |w| && b < |w| && a != b && w[a] > 0 && w[b] > 0 && w' == w[a := w[a] + w[b]][b := 0]
    requires forall y :: 0 <= y < |w| && y != a && w[y] > 0 ==> w[a] < w[y] || (w[a] == w[y] && a > y)
    requires forall y :: 0 <= y < |w| && y != a && y != b && w[y] > 0 ==> w[b] < w[y] || (w[b] == w[y] && b > y)
    ensures LightestMerged(w, w')
  {
    assert TookIn(w, w', a, b);
  }

  /** One turn of the loop, unless a single tree is left. */
  method MergeTwo(freq: array<nat>, codesize: array<nat>, others: array<int>,
                  ghost w0: Weights, ghost f: Forest, ghost spent: nat)
    returns (done: bool, ghost f': Forest, ghost spent': nat)
    requires freq.Length == codesize.Length == others.Length == SYMBOLS && freq != codesize
    requires Countable(w0) && Holds(freq[..], codesize[..], others[..], w0, f, spent)
    modifies freq, codesize, others
    ensures done ==> Optimal(w0, codesize[..]) && codesize[..] == SizesFrom(w0, f, spent)
    ensures !done ==> Holds(freq[..], codesize[..], others[..], w0, f', spent')
    ensures !done ==> SizesFrom(w0, f', spent') == SizesFrom(w0, f, spent)
    ensures !done ==> Alive(freq[..]) < old(Alive(freq[..]))
    ensures !done ==> LightestMerged(old(freq[..]), freq[..])
  {
    hide Grown, Total, Alive, Optimal, Precedes, Joined, SizesFrom, LightestMerged;
    f', spent' := f, spent;
    SomeRoot(w0, f, spent);
    var c1 := FindSmallest(freq, -1);
    var c2 := FindSmallest(freq, c1);
    if c2 < 0 {
      LastRoot(w0, f, spent, c1);
      OneTree(w0, f, spent, c1);
      return true, f, spent;
    }
    FoundTwo(w0, f, spent, c1, c2);
    JoinedGrown(w0, f, spent, c1, c2);
    SizesJoined(w0, f, spent, c1, c2);
    MergeTrees(freq, codesize, others, c1, c2, w0, f);
    JoinedOnce(w0, f, c1, c2);
    assert LightestMerged(old(freq[..]), freq[..]) by { TwoMerged(f.freq, freq[..], c1, c2); }
    return false, Joined(w0, f, c1, c2), spent + f.freq[c1] + f.freq[c2];
  }

  /** Lines 722 to 776. */
  method MergeAll(freq: array<nat>, codesize: array<nat>, others: array<int>)
    requires freq.Length == codesize.Length == others.Length == SYMBOLS && freq != codesize
    requires Countable(freq[..])
    requires codesize[..] == Seedlings(freq[..]).size && others[..] == Seedlings(freq[..]).others
    modifies freq, codesize, others
    ensures Optimal(old(freq[..]), codesize[..]) && codesize[..] == CodeSizes(old(freq[..]))
  {
    hide Grown, Total, Alive, Optimal, SizesFrom;
    ghost var w0: Weights := freq[..];
    ghost var f := Seedlings(w0);
    ghost var spent := 0;
    SeedlingsGrown(w0);
    var done := false;
    while !done
      invariant done ==> Optimal(w0, codesize[..]) && codesize[..] == CodeSizes(w0)
      invariant !done ==> Holds(freq[..], codesize[..], others[..], w0, f, spent)
      invariant !done ==> SizesFrom(w0, f, spent) == CodeSizes(w0)
      decreases !done, Alive(freq[..])
    {
      done, f, spent := MergeTwo(freq, codesize, others, w0, f, spent);
    }
  }

  /** There is always a tree, and no tree is beyond the cutoff. */
  lemma SomeRoot(w0: Weights, f: Forest, spent: nat)
    requires Countable(w0) && Grown(w0, f, spent) && Total(f.freq) == Total(w0)
    ensures |f.freq| == SYMBOLS && exists c :: 0 <= c < SYMBOLS && f.freq[c] > 0
    ensures forall c :: 0 <= c < SYMBOLS ==> f.freq[c] <= CUTOFF
  {
    hide Chained, Weighed, Full, Heavy, LastDeepest, LowerBound, Total, Cost;
    assert f.freq[f.owner[SYMBOLS - 1]] > 0;
    forall c | 0 <= c < SYMBOLS ensures f.freq[c] <= CUTOFF {
      TotalAtLeast(f.freq, c);
    }
  }

  lemma LastRoot(w0: Weights, f: Forest, spent: nat, c: nat)
    requires Countable(w0) && Grown(w0, f, spent) && c < SYMBOLS == |f.freq| && f.freq[c] > 0
    requires forall y :: 0 <= y < SYMBOLS && y != c && f.freq[y] > 0 ==> f.freq[y] > CUTOFF
    requires forall y :: 0 <= y < SYMBOLS ==> f.freq[y] <= CUTOFF
    ensures Optimal(w0, f.size)
  {
    hide Grown, Optimal, Total;
    var u :| 0 <= u < SYMBOLS - 1 && w0[u] > 0;
    GrownOptimal(w0, f, spent, c, u);
  }

  lemma FoundTwo(w0: Weights, f: Forest, spent: nat, c1: nat, c2: nat)
    requires Grown(w0, f, spent) && c1 < |f.freq| && c2 < |f.freq| && c1 != c2 && f.freq[c1] > 0 && f.freq[c2] > 0
    requires forall y :: 0 <= y < |f.freq| && y != c1 && f.freq[y] > 0 ==>
      f.freq[c1] < f.freq[y] || (f.freq[c1] == f.freq[y] && c1 > y)
    requires forall y :: 0 <= y < |f.freq| && y != c1 && y != c2 && f.freq[y] > 0 ==>
      f.freq[c2] < f.freq[y] || (f.freq[c2] == f.freq[y] && c2 > y)
    ensures FirstTwo(f.freq, c1, c2) && Chained(w0, f)
  {
  }

  // ---------------------------------------------------------------- counting and listing

  lemma {:induction false} TotalOfPrefix(s: seq<nat>, n: nat)
    requires n <= |s|
    ensures Total(s[..n]) <= Total(s)
  {
    if n < |s| {
      TotalOfPrefix(s[..|s| - 1], n);
      assert s[..|s| - 1][..n] == s[..n];
    } else {
      assert s[..n] == s;
    }
  }

  /** No length occurs more often than there are symbols. */
  /** One more code of a length is still at most all codes. */
  lemma NextTally(size: seq<nat>, i: nat)
    requires i < |size| && 0 < size[i] <= MAX_CLEN && forall k :: 0 <= k < i ==> size[k] <= MAX_CLEN
    ensures Tally(size[..i])[size[i]] + 1 <= Alive(size)
  {
    hide Tally, Alive;
    TallyBounded(size, i + 1, size[i]);
    TallyStep(size[..i], size[i]);
    assert size[..i + 1] == size[..i] + [size[i]];
  }

  lemma TallyBounded(size: seq<nat>, n: nat, l: nat)
    requires n <= |size| && l <= MAX_CLEN && forall i :: 0 <= i < n ==> size[i] <= MAX_CLEN
    ensures Tally(size[..n])[l] <= Alive(size)
  {
    TallySums(size[..n]);
    TotalAtLeast(Tally(size[..n]), l);
    assert AliveTerms(size[..n]) == AliveTerms(size)[..n];
    TotalOfPrefix(AliveTerms(size), n);
  }

  /** Lines 779 to 788. The counts are bytes; with at most 255 symbols none wraps around. */
  method CountLengths(codesize: array<nat>, bits: array<Byte>) returns (ok: bool)
    requires codesize.Length == SYMBOLS && Alive(codesize[..]) <= 255
    requires bits.Length == MAX_CLEN + 1 && forall l :: 0 <= l <= MAX_CLEN ==> bits[l] == 0
    modifies bits
    ensures ok <==> forall i :: 0 <= i < SYMBOLS ==> codesize[i] <= MAX_CLEN
    ensures ok ==> bits[..] == Tally(codesize[..])
  {
    hide Alive;
    ghost var size := codesize[..];
    assert size[..0] == [];
    for i := 0 to SYMBOLS
      invariant forall k :: 0 <= k < i ==> size[k] <= MAX_CLEN
      invariant bits[..] == Tally(size[..i])
    {
      if codesize[i] != 0 {
        if codesize[i] > MAX_CLEN {
          return false;
        }
        bits[codesize[i]] := CountUp(bits[codesize[i]], size, i);
      }
      assert size[..i + 1] == size[..i] + [size[i]];
    }
    assert size[..SYMBOLS] == size;
    return true;
  }

  method CountUp(b: Byte, ghost size: seq<nat>, ghost i: nat) returns (b': Byte)
    requires i < |size| && 0 < size[i] <= MAX_CLEN && b == Tally(size[..i])[size[i]] && Alive(size) <= 255
    requires forall k :: 0 <= k < i ==> size[k] <= MAX_CLEN
    ensures b' == b + 1
  {
    hide *;
    NextTally(size, i);
    b' := (b + 1) % 256;
  }

  function LengthsOf(size: seq<nat>, vals: seq<nat>): (s: seq<nat>)
    requires forall q :: 0 <= q < |vals| ==> vals[q] < |size|
    ensures |s| == |vals|
  {
    seq(|vals|, q requires 0 <= q < |vals| => size[vals[q]])
  }

  /** `vals` lists the symbols with codes shorter than `i`, and those below `j` with codes of length
      `i`, in order of increasing length. */
  ghost predicate Lists(size: seq<nat>, vals: seq<nat>, i: nat, j: nat)
    requires 0 < i <= MAX_CLEN + 1 && j <= |size|
  {
    && (forall s :: s in vals <==> 0 <= s < |size| && (0 < size[s] < i || (size[s] == i && s < j)))
    && (forall p, q :: 0 <= p < q < |vals| ==> vals[p] != vals[q])
    && (forall q :: 0 <= q < |vals| ==> vals[q] < |size|)
    && LengthsOf(size, vals) == Sizes(Tally(size), i - 1) + seq(multiset(size[..j])[i], _ => i)
  }

  lemma ListsOne(size: seq<nat>, vals: seq<nat>, i: nat, j: nat)
    requires 0 < i <= MAX_CLEN && j < |size| && Lists(size, vals, i, j)
    ensures size[j] != i ==> Lists(size, vals, i, j + 1)
    ensures size[j] == i ==> Lists(size, vals + [j], i, j + 1)
  {
    assert size[..j + 1] == size[..j] + [size[j]];
    var n := multiset(size[..j])[i];
    if size[j] == i {
      assert seq(n + 1, _ => i) == seq(n, _ => i) + [i];
      assert LengthsOf(size, vals + [j]) == LengthsOf(size, vals) + [i];
    }
  }

  lemma ListsNext(size: seq<nat>, vals: seq<nat>, i: nat)
    requires 0 < i <= MAX_CLEN && Lists(size, vals, i, |size|)
    ensures Lists(size, vals, i + 1, 0)
  {
    assert size[..|size|] == size && size[..0] == [];
    assert seq(0, _ => i + 1) == [];
  }

  /** A list without repetition is no longer than the alphabet. */
  lemma ListsShort(size: seq<nat>, vals: seq<nat>, i: nat, j: nat)
    requires 0 < i <= MAX_CLEN + 1 && j < |size| && Lists(size, vals, i, j) && size[j] == i
    ensures |vals| < |size|
  {
    DistinctShort(vals, Below(|size|) - {j});
  }

  lemma {:induction false} DistinctShort(vals: seq<nat>, pool: set<nat>)
    requires forall p, q :: 0 <= p < q < |vals| ==> vals[p] != vals[q]
    requires forall q :: 0 <= q < |vals| ==> vals[q] in pool
    ensures |vals| <= |pool|
  {
    if vals != [] {
      var n := |vals| - 1;
      DistinctShort(vals[..n], pool - {vals[n]});
    }
  }

  function Below(n: nat): (r: set<nat>)
    ensures |r| == n && forall k :: k in r <==> 0 <= k < n
  {
    if n == 0 then {} else Below(n - 1) + {n - 1}
  }

  /** Lines 822 to 834: the symbols sorted by code length, without the pseudo-symbol. */
  method ListSymbols(codesize: array<nat>, huffval: array<Byte>) returns (p: nat)
    requires codesize.Length == SYMBOLS && huffval.Length == SYMBOLS - 1
    modifies huffval
    ensures p <= huffval.Length && Lists(codesize[..SYMBOLS - 1], huffval[..p], MAX_CLEN + 1, 0)
    ensures huffval[..p] == Listed(codesize[..SYMBOLS - 1], MAX_CLEN + 1, 0)
    ensures forall a, b :: 0 <= a < b < p ==>
      && codesize[huffval[a]] <= codesize[huffval[b]]
      && (codesize[huffval[a]] == codesize[huffval[b]] ==> huffval[a] < huffval[b])
  {
    hide Lists, Listed;
    ListedInOrder(codesize[..SYMBOLS - 1], MAX_CLEN + 1, 0);
    ghost var size := codesize[..SYMBOLS - 1];
    p := 0;
    ListsNone(size);
    ListedNone(size);
    assert huffval[..0] == [];
    for i := 1 to MAX_CLEN + 1
      invariant p <= huffval.Length && Lists(size, huffval[..p], i, 0) && huffval[..p] == Listed(size, i, 0)
    {
      ListedNext(size, i);
      for j := 0 to SYMBOLS - 1
        invariant p <= huffval.Length && Lists(size, huffval[..p], i, j) && huffval[..p] == Listed(size, i, j)
      {
        ListsOne(size, huffval[..p], i, j);
        ListedOne(size, i, j);
        assert size[j] == codesize[j];
        if codesize[j] == i {
          ListsShort(size, huffval[..p], i, j);
          ghost var before := huffval[..p];
          huffval[p] := j;
          p := p + 1;
          assert huffval[..p] == before + [j];
        }
      }
      ListsNext(size, huffval[..p], i);
    }
  }

  /** The list itself: by code length, and symbols with codes of the same length by number. */
  function Listed(size: seq<nat>, i: nat, j: nat): seq<nat>
    requires j <= |size|
    decreases i, j
  {
    if j > 0 then Listed(size, i, j - 1) + (if size[j - 1] == i then [j - 1] else [])
    else if i <= 1 then []
    else Listed(size, i - 1, |size|)
  }

  lemma ListedNone(size: seq<nat>)
    ensures Listed(size, 1, 0) == []
  {
  }

  lemma ListedOne(size: seq<nat>, i: nat, j: nat)
    requires j < |size|
    ensures Listed(size, i, j + 1) == Listed(size, i, j) + (if size[j] == i then [j] else [])
  {
  }

  lemma ListedNext(size: seq<nat>, i: nat)
    requires 0 < i
    ensures Listed(size, i + 1, 0) == Listed(size, i, |size|)
  {
  }

  /** Shorter codes come first, and of symbols with codes of the same length the smaller. */
  ghost predicate InOrder(size: seq<nat>, vals: seq<nat>) {
    && (forall q :: 0 <= q < |vals| ==> vals[q] < |size|)
    && (forall a, b :: 0 <= a < b < |vals| ==>
          && size[vals[a]] <= size[vals[b]]
          && (size[vals[a]] == size[vals[b]] ==> vals[a] < vals[b]))
  }

  lemma {:induction false} ListedInOrder(size: seq<nat>, i: nat, j: nat)
    requires j <= |size|
    ensures InOrder(size, Listed(size, i, j))
    ensures forall q :: 0 <= q < |Listed(size, i, j)| ==>
      var s := Listed(size, i, j)[q];
      size[s] < i || (size[s] == i && s < j)
    decreases i, j
  {
    if j > 0 {
      ListedInOrder(size, i, j - 1);
    } else if i > 1 {
      ListedInOrder(size, i - 1, |size|);
    }
  }

  lemma {:induction false} NothingListed(size: seq<nat>, i: nat, j: nat)
    requires j <= |size| && 0 < i && forall s :: 0 <= s < |size| ==> size[s] == 0
    ensures Listed(size, i, j) == []
    decreases i, j
  {
    if j > 0 {
      NothingListed(size, i, j - 1);
    } else if i > 1 {
      NothingListed(size, i - 1, |size|);
    }
  }

  lemma ListsNone(size: seq<nat>)
    ensures Lists(size, [], 1, 0)
  {
    assert size[..0] == [];
    assert seq(0, _ => 1) == [];
  }

  // ---------------------------------------------------------------- the table

  /** At most 254 real symbols, so that every count fits a byte. */
  ghost predicate Small(w: Weights) { Alive(w) <= 255 }

  /** What the limiting loop needs. */
  lemma TallyComplete(w0: Weights, size: seq<nat>)
    requires Optimal(w0, size) && |w0| == SYMBOLS && forall i :: 0 <= i < SYMBOLS ==> size[i] <= MAX_CLEN
    ensures Complete(Tally(size), MAX_CLEN, Alive(w0))
  {
    hide Alive, Slots, Total, Optimal, Pow2, Shl, UnitsOf;
    SameSize(w0, size);
    TallySums(size);
    SameUnits(w0, size);
    ShlPow2(MAX_CLEN, SYMBOLS - MAX_CLEN);
    ShlInjective(Slots(Tally(size), MAX_CLEN), Pow2(MAX_CLEN), SYMBOLS - MAX_CLEN);
  }

  lemma SameSize(w0: Weights, size: seq<nat>)
    requires Optimal(w0, size)
    ensures |size| == |w0|
  {
  }

  /** Optimal code sizes have the Kraft sum 1 in units of the longest length. */
  lemma SameUnits(w0: Weights, size: seq<nat>)
    requires Optimal(w0, size) && |w0| == SYMBOLS && forall i :: 0 <= i < SYMBOLS ==> size[i] <= MAX_CLEN
    ensures Alive(size) == Alive(w0) && Shl(Total(UnitsOf(size)), SYMBOLS - MAX_CLEN) == Pow2(SYMBOLS)
  {
    hide Alive, Total, Cost, Fib, Pow2, Shl, Feasible;
    assert AliveTerms(size) == AliveTerms(w0);
    SameAlive(size, w0);
    assert KraftTerms(w0, size, MAX_CLEN) == UnitsOf(size);
    KraftUnits(w0, size);
    KraftCoarser(w0, size, MAX_CLEN, SYMBOLS);
  }

  lemma KraftUnits(w: Weights, size: seq<nat>)
    requires |w| == |size| && KraftTerms(w, size, MAX_CLEN) == UnitsOf(size)
    ensures Kraft(w, size, MAX_CLEN) == Total(UnitsOf(size))
  {
  }

  lemma SameAlive(v: Weights, w: Weights)
    requires AliveTerms(v) == AliveTerms(w)
    ensures Alive(v) == Alive(w)
  {
  }

  lemma {:induction false} ShlInjective(x: nat, y: nat, k: nat)
    requires Shl(x, k) == Shl(y, k)
    ensures x == y
  {
    if k > 0 {
      ShlInjective(x, y, k - 1);
    }
  }

  /** The table lists exactly the counted symbols, each once, in order of their Huffman code lengths, and those
      with codes of the same length in increasing order. */
  ghost predicate ListsCounted(w0: Weights, size: seq<nat>, t: HuffTable)
    requires t.Typed() && |w0| == |size| == SYMBOLS && |AllSizes(t)| <= 256
  {
    var n := |AllSizes(t)|;
    && (forall s :: 0 <= s < 256 ==> (s in t.vals[..n] <==> w0[s] > 0))
    && (forall p, q :: 0 <= p < q < n ==> t.vals[p] != t.vals[q])
    && (forall p, q :: 0 <= p < q < n ==> size[t.vals[p]] <= size[t.vals[q]])
    && (forall p, q :: 0 <= p < q < n && size[t.vals[p]] == size[t.vals[q]] ==> t.vals[p] < t.vals[q])
  }

  /** `t` is the outcome for counts `w0` with Huffman code lengths `size`: accepted by
      `jpeg_make_c_derived_tbl`, with a code for exactly the counted symbols, and with the optimal
      code lengths themselves unless some of them is over 16 bits. */
  ghost predicate Generated(w0: Weights, size: seq<nat>, t: HuffTable) {
    && Optimal(w0, size) && |w0| == SYMBOLS && t.Typed() && Accepted(t, false)
    && ListsCounted(w0, size, t)
    && ((forall i :: 0 <= i < SYMBOLS ==> size[i] <= 16) ==>
          forall p :: 0 <= p < |AllSizes(t)| ==> AllSizes(t)[p] == size[t.vals[p]])
  }

  /** The counts of the lengths up to 16. */
  method CopyCounts(counts: array<Byte>, bits: array<Byte>)
    requires counts.Length == MAX_CLEN + 1 && bits.Length == 17 && counts != bits
    modifies bits
    ensures bits[..] == counts[..17]
  {
    for l := 0 to 17
      invariant bits[..l] == counts[..l]
    {
      bits[l] := counts[l];
    }
    assert bits[..] == bits[..17];
  }

  /** The table as a function of the code sizes: how many codes of each length are left, and the symbols. */
  function MadeBits(size: seq<nat>): (r: seq<nat>)
    ensures |r| == 17
  {
    var b := LimitFrom(Tally(size), MAX_CLEN);
    var i := InUse(b, 16);
    if b[i] > 0 then b[i := b[i] - 1][..17] else b[..17]
  }

  function MadeSymbols(size: seq<nat>): seq<nat>
    requires |size| == SYMBOLS
  {
    Listed(size[..SYMBOLS - 1], MAX_CLEN + 1, 0)
  }

  /** The table is the one made for these code sizes; its array of symbols may be longer than the list. */
  ghost predicate Made(size: seq<nat>, t: HuffTable) {
    && |size| == SYMBOLS && t.Typed() && t.bits == MadeBits(size)
    && |MadeSymbols(size)| == |AllSizes(t)| <= 256 && t.vals[..|AllSizes(t)|] == MadeSymbols(size)
  }

  /** `jpeg_gen_optimal_table`. Fails exactly when Huffman's procedure assigns a code of more than
      32 bits, which takes a total of at least Fibonacci(35). */
  method GenOptimalTable(freq: array<nat>, bits: array<Byte>, huffval: array<Byte>)
    returns (ok: bool, ghost size: seq<nat>)
    requires freq.Length == SYMBOLS && bits.Length == 17 && huffval.Length == SYMBOLS - 1 && bits != huffval
    requires Countable(freq[..][SYMBOLS - 1 := 1]) && Small(freq[..][SYMBOLS - 1 := 1])
    modifies freq, bits, huffval
    ensures Optimal(old(freq[..])[SYMBOLS - 1 := 1], size)
    ensures size == CodeSizes(old(freq[..])[SYMBOLS - 1 := 1])
    ensures ok <==> forall i :: 0 <= i < SYMBOLS ==> size[i] <= MAX_CLEN
    ensures ok ==> Generated(old(freq[..])[SYMBOLS - 1 := 1], size, HuffTable(bits[..], huffval[..]))
    ensures ok ==> Made(size, HuffTable(bits[..], huffval[..]))
  {
    hide Optimal, Countable, Tally, Lists, Accepted, ListsCounted, Complete, Alive, CodeSizes, LimitFrom, Listed,
         InOrder;
    ghost var w0: Weights := freq[..][SYMBOLS - 1 := 1];
    var counts := new Byte[MAX_CLEN + 1](_ => 0);
    var codesize := new nat[SYMBOLS](_ => 0);
    var others := new int[SYMBOLS](_ => -1);
    freq[SYMBOLS - 1] := 1;
    assert freq[..] == w0;
    MergeAll(freq, codesize, others);
    size := codesize[..];
    OptimalAlive(w0, size);
    ok := CountLengths(codesize, counts);
    if !ok {
      return;
    }
    ghost var tally: seq<nat> := counts[..];
    TallyComplete(w0, size);
    LimitLengths(counts, Alive(w0));
    ghost var limited: seq<nat> := counts[..];
    var i := DropLongest(counts, Alive(w0));
    CopyCounts(counts, bits);
    var p := ListSymbols(codesize, huffval);
    assert codesize[..SYMBOLS - 1] == size[..SYMBOLS - 1] && huffval[..p] == huffval[..][..p];
    ListedInOrder(size[..SYMBOLS - 1], MAX_CLEN + 1, 0);
    TableFollows(w0, size, tally, limited, i, HuffTable(bits[..], huffval[..]), p);
  }

  lemma OptimalAlive(w0: Weights, size: seq<nat>)
    requires Optimal(w0, size)
    ensures |size| == |w0| && Alive(size) == Alive(w0)
  {
    assert AliveTerms(size) == AliveTerms(w0);
  }

  /** From the steps to the outcome. */
  lemma TableFollows(w0: Weights, size: seq<nat>, tally: seq<nat>, limited: seq<nat>, i: nat, t: HuffTable, p: nat)
    requires |w0| == |size| == SYMBOLS && Optimal(w0, size) && (forall s :: 0 <= s < SYMBOLS ==> size[s] <= MAX_CLEN)
    requires tally == Tally(size) && Complete(limited, 16, Alive(w0))
    requires (forall l :: 16 < l <= MAX_CLEN ==> tally[l] == 0) ==> limited == tally
    requires 1 <= i <= 16 && limited[i] > 0 && forall l :: i < l <= MAX_CLEN ==> limited[l] == 0
    requires t.Typed() && t.bits == limited[i := limited[i] - 1][..17]
    requires p <= 256 && Lists(size[..SYMBOLS - 1], t.vals[..p], MAX_CLEN + 1, 0)
    requires InOrder(size[..SYMBOLS - 1], t.vals[..p])
    ensures Generated(w0, size, t) && |AllSizes(t)| == p
  {
    hide InOrder, Optimal, Countable, Lists, Accepted, ListsCounted, Complete, Alive, Slots, Fits;
    DroppedFits(limited, i, Alive(w0));
    RealCount(w0, size, t.vals[..p]);
    assert |AllSizes(t)| == p;
    TableAccepted(w0, size, t, p);
    if forall s :: 0 <= s < SYMBOLS ==> size[s] <= 16 {
      NoneLong(size);
      LengthsKept(w0, size, i, t, p);
    }
  }

  lemma NoneLong(size: seq<nat>)
    requires forall s :: 0 <= s < |size| ==> size[s] <= 16
    ensures forall l :: 16 < l <= MAX_CLEN ==> Tally(size)[l] == 0
  {
    forall l | 16 < l <= MAX_CLEN ensures l !in multiset(size) {
    }
  }

  /** As many symbols are listed as there are codes. */
  lemma RealCount(w0: Weights, size: seq<nat>, vals: seq<nat>)
    requires |w0| == |size| == SYMBOLS && Optimal(w0, size) && (forall s :: 0 <= s < SYMBOLS ==> size[s] <= MAX_CLEN)
    requires Lists(size[..SYMBOLS - 1], vals, MAX_CLEN + 1, 0)
    ensures |vals| + 1 == Alive(w0)
  {
    hide Slots, Total;
    var listed := size[..SYMBOLS - 1];
    TallySums(listed);
    SizesCount(Tally(listed), MAX_CLEN);
    assert Tally(listed)[..MAX_CLEN + 1] == Tally(listed);
    assert listed[..0] == [];
    assert |vals| == |LengthsOf(listed, vals)| == Alive(listed);
    OptimalAlive(w0, size);
    AliveSnoc(size);
  }

  lemma AliveSnoc(size: seq<nat>)
    requires size != []
    ensures Alive(size) == Alive(size[..|size| - 1]) + (if size[|size| - 1] > 0 then 1 else 0)
  {
    assert AliveTerms(size)[..|size| - 1] == AliveTerms(size[..|size| - 1]);
  }

  lemma SameOrder(size: seq<nat>, t: HuffTable, p: nat)
    requires |size| == SYMBOLS && t.Typed() && p <= 256 && InOrder(size[..SYMBOLS - 1], t.vals[..p])
    ensures forall a, b :: 0 <= a < b < p && size[t.vals[a]] == size[t.vals[b]] ==> t.vals[a] < t.vals[b]
  {
    forall a, b | 0 <= a < b < p && size[t.vals[a]] == size[t.vals[b]] ensures t.vals[a] < t.vals[b] {
      var v := t.vals[..p];
      assert v[a] == t.vals[a] && v[b] == t.vals[b];
    }
  }

  lemma TableAccepted(w0: Weights, size: seq<nat>, t: HuffTable, p: nat)
    requires |w0| == |size| == SYMBOLS && Optimal(w0, size) && (forall s :: 0 <= s < SYMBOLS ==> size[s] <= MAX_CLEN)
    requires t.Typed() && |AllSizes(t)| == p <= 256 && Fits(AllSizes(t))
    requires Lists(size[..SYMBOLS - 1], t.vals[..p], MAX_CLEN + 1, 0) && InOrder(size[..SYMBOLS - 1], t.vals[..p])
    ensures Accepted(t, false) && ListsCounted(w0, size, t)
  {
    hide Fits;
    var listed, v := size[..SYMBOLS - 1], t.vals[..p];
    SameOrder(size, t, p);
    hide InOrder;
    forall a, b | 0 <= a < b < p ensures t.vals[a] != t.vals[b] && size[t.vals[a]] <= size[t.vals[b]] {
      assert v[a] == t.vals[a] && v[b] == t.vals[b];
      assert LengthsOf(listed, v)[a] == size[v[a]] && LengthsOf(listed, v)[b] == size[v[b]];
      assert listed[..0] == [] && LengthsOf(listed, v) == Sizes(Tally(listed), MAX_CLEN);
      SizesSorted(Tally(listed), MAX_CLEN, a, b);
    }
  }

  /** Without codes over 16 bits, freeing a slot among the longest codes takes the pseudo-symbol's own
      code away: it is among the longest. */
  lemma LengthsKept(w0: Weights, size: seq<nat>, i: nat, t: HuffTable, p: nat)
    requires |w0| == |size| == SYMBOLS && Optimal(w0, size) && (forall s :: 0 <= s < SYMBOLS ==> size[s] <= 16)
    requires 1 <= i <= 16 && Tally(size)[i] > 0 && forall l :: i < l <= MAX_CLEN ==> Tally(size)[l] == 0
    requires t.Typed() && t.bits == Tally(size)[i := Tally(size)[i] - 1][..17]
    requires p <= 256 && Lists(size[..SYMBOLS - 1], t.vals[..p], MAX_CLEN + 1, 0) && |AllSizes(t)| == p
    ensures forall q :: 0 <= q < p ==> AllSizes(t)[q] == size[t.vals[q]]
  {
    LastIsLongest(size, i);
    hide Optimal, Lists;
    LengthsOfTable(size, i, t);
    LengthsListed(size, t, p);
  }

  lemma LengthsOfTable(size: seq<nat>, i: nat, t: HuffTable)
    requires |size| == SYMBOLS && size[SYMBOLS - 1] == i <= 16 && (forall s :: 0 <= s < SYMBOLS ==> size[s] <= 16)
    requires Tally(size)[i] > 0 && t.Typed() && t.bits == Tally(size)[i := Tally(size)[i] - 1][..17]
    ensures AllSizes(t) == Sizes(Tally(size[..SYMBOLS - 1]), MAX_CLEN)
  {
    hide Sizes;
    var listed := size[..SYMBOLS - 1];
    assert size == listed + [i];
    TallyStep(listed, i);
    assert t.bits == Tally(listed)[..17];
    SizesOfPrefix(Tally(listed), 17, 16);
    NoneLong(listed);
    SizesEnd(Tally(listed), 16, MAX_CLEN);
  }

  lemma LengthsListed(size: seq<nat>, t: HuffTable, p: nat)
    requires |size| == SYMBOLS && t.Typed() && AllSizes(t) == Sizes(Tally(size[..SYMBOLS - 1]), MAX_CLEN)
    requires p <= 256 && Lists(size[..SYMBOLS - 1], t.vals[..p], MAX_CLEN + 1, 0) && |AllSizes(t)| == p
    ensures forall q :: 0 <= q < p ==> AllSizes(t)[q] == size[t.vals[q]]
  {
    hide Sizes, Tally;
    var listed, v := size[..SYMBOLS - 1], t.vals[..p];
    NothingOf(listed, Sizes(Tally(listed), MAX_CLEN), MAX_CLEN + 1);
    assert LengthsOf(listed, v) == AllSizes(t);
    forall q | 0 <= q < p ensures AllSizes(t)[q] == size[t.vals[q]] {
      assert v[q] == t.vals[q];
      assert LengthsOf(listed, v)[q] == listed[v[q]];
    }
  }

  lemma NothingOf(size: seq<nat>, s: seq<nat>, i: nat)
    ensures s + seq(multiset(size[..0])[i], _ => i) == s
  {
    assert size[..0] == [];
  }

  lemma LastIsLongest(size: seq<nat>, i: nat)
    requires |size| == SYMBOLS && (forall s :: 0 <= s < SYMBOLS ==> size[s] <= size[SYMBOLS - 1] <= 16)
    requires 1 <= i <= 16 && Tally(size)[i] > 0 && forall l :: i < l <= MAX_CLEN ==> Tally(size)[l] == 0
    ensures size[SYMBOLS - 1] == i
  {
    assert i in size;
    assert size[SYMBOLS - 1] in multiset(size);
    assert Tally(size)[size[SYMBOLS - 1]] > 0;
  }

  lemma {:induction false} SizesOfPrefix(bits: seq<nat>, n: nat, l: nat)
    requires l < n <= |bits|
    ensures Sizes(bits[..n], l) == Sizes(bits, l)
  {
    if l > 0 {
      SizesOfPrefix(bits, n, l - 1);
    }
  }

  lemma {:induction false} SizesEnd(bits: seq<nat>, l: nat, m: nat)
    requires l <= m < |bits| && forall k :: l < k <= m ==> bits[k] == 0
    ensures Sizes(bits, m) == Sizes(bits, l)
  {
    if l < m {
      SizesEnd(bits, l, m - 1);
      assert seq(0, _ => m) == [];
    }
  }

  // ---------------------------------------------------------------- consequences

  /** A total below Fibonacci(35), pseudo-symbol included, keeps every code at 32 bits or less. */
  lemma NoOverflow(w0: Weights, size: seq<nat>)
    requires Optimal(w0, size) && Total(w0) < 9227465
    ensures forall i :: 0 <= i < |size| ==> size[i] <= MAX_CLEN
  {
    hide Fib, Kraft, Cost, Feasible, Total;
    Fib35();
    forall i | 0 <= i < |size| ensures size[i] <= MAX_CLEN {
      if size[i] > MAX_CLEN {
        FibMono(35, size[i] + 2);
      }
    }
  }

  /** The derived table has codes for exactly the counted symbols; as a DC table, too, when these are
      at most 15. */
  lemma CodesForCounted(w0: Weights, size: seq<nat>, t: HuffTable, isDC: bool, d: Derived)
    requires Generated(w0, size, t) && IsDerived(t, isDC, d)
    ensures forall s :: 0 <= s < 256 ==> (d.HasCode(s) <==> w0[s] > 0)
  {
    var n := |AllSizes(t)|;
    forall s | 0 <= s < 256 ensures d.HasCode(s) <==> w0[s] > 0 {
      if s in t.vals[..n] {
        var p :| 0 <= p < n && t.vals[..n][p] == s;
        assert EntryAt(AllSizes(t), t.vals, d, p);
      }
    }
  }

  lemma AcceptedForDC(w0: Weights, size: seq<nat>, t: HuffTable)
    requires Generated(w0, size, t) && forall s :: 15 < s < 256 ==> w0[s] == 0
    ensures Accepted(t, true)
  {
    forall p | 0 <= p < |AllSizes(t)| ensures t.vals[p] <= 15 {
      assert t.vals[p] in t.vals[..|AllSizes(t)|];
    }
  }

  /** Unless some Huffman code is over 16 bits, the derived codes have the optimal lengths: no code
      that also reserves a slot for the pseudo-symbol spends fewer bits. */
  lemma DerivedOptimal(w0: Weights, size: seq<nat>, t: HuffTable, isDC: bool, d: Derived)
    requires Generated(w0, size, t) && IsDerived(t, isDC, d) && forall i :: 0 <= i < SYMBOLS ==> size[i] <= 16
    ensures d.size == size[..SYMBOLS - 1]
    ensures forall len: seq<nat>, n: nat :: Feasible(w0, len, n) ==>
        Cost(w0, d.size + [size[SYMBOLS - 1]]) <= Cost(w0, len)
  {
    hide Cost, Feasible, Kraft;
    CodesForCounted(w0, size, t, isDC, d);
    forall s | 0 <= s < 256 ensures d.size[s] == size[s] {
      if d.HasCode(s) {
        var p := PositionOf(t, isDC, d, s);
      }
    }
    assert d.size + [size[SYMBOLS - 1]] == size;
  }

  /** Counts without any real symbol leave no length in use, and the search for the largest one in use,
      lines 815 to 817, has nothing to stop at. */
  lemma NothingInUse(w0: Weights, l: nat)
    requires |w0| == SYMBOLS && w0[SYMBOLS - 1] == 1 && forall u :: 0 <= u < SYMBOLS - 1 ==> w0[u] == 0
    requires l <= MAX_CLEN
    ensures Tally(CodeSizes(w0))[l] == 0
  {
    NothingCoded(w0);
    assert l > 0 ==> l !in CodeSizes(w0);
  }
}
