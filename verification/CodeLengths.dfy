/** Code length counts: the slots they take up, when canonical codes fit them, and how
    `jpeg_gen_optimal_table` brings lengths down to 16 bits. */
module CodeLengths {
  import opened BitStrings
  import opened HuffmanTables
  import opened HuffmanOptimality
  import opened HuffmanForests

  const MAX_CLEN := 32

  // ---------------------------------------------------------------- slots

  /** How many of the `2^k` bit strings of length `k` begin with a code of length at most `k`. */
  function Slots(bits: seq<nat>, k: nat): nat
    requires k < |bits|
  {
    if k == 0 then bits[0] else 2 * Slots(bits, k - 1) + bits[k]
  }

  lemma {:induction false} SlotsAdd(b: seq<nat>, l: nat, x: nat, k: nat)
    requires l < |b| && k < |b|
    ensures Slots(b[l := b[l] + x], k) == Slots(b, k) + (if l <= k then Shl(x, k - l) else 0)
  {
    if k > 0 {
      SlotsAdd(b, l, x, k - 1);
    }
  }

  lemma {:induction false} SlotsZero(b: seq<nat>, k: nat)
    requires k < |b| && forall i :: 0 <= i <= k ==> b[i] == 0
    ensures Slots(b, k) == 0
  {
    if k > 0 {
      SlotsZero(b, k - 1);
    }
  }

  lemma {:induction false} SlotsPrefix(b: seq<nat>, n: nat, k: nat)
    requires k < n <= |b|
    ensures Slots(b[..n], k) == Slots(b, k)
  {
    if k > 0 {
      SlotsPrefix(b, n, k - 1);
    }
  }

  // ---------------------------------------------------------------- which counts have codes

  lemma {:induction false} CodePrefix(s: seq<nat>, t: seq<nat>, p: nat)
    requires s <= t && p < |s|
    ensures Code(s, p) == Code(t, p)
  {
    if p > 0 {
      CodePrefix(s, t, p - 1);
    }
  }

  /** The slots up to the end of codes `s` of lengths at most `l`, seen at the last of them. */
  function Reached(s: seq<nat>, l: nat): nat
    requires s != [] ==> s[|s| - 1] <= l
  {
    if s == [] then 0 else Shl(Code(s, |s| - 1) + 1, l - s[|s| - 1])
  }

  /** A run of `r` codes of length `l` after shorter codes `s` takes up `r` slots. */
  lemma RunEnds(s: seq<nat>, r: nat, l: nat)
    requires r > 0 && Ascending(s + seq(r, _ => l)) && (s != [] ==> s[|s| - 1] < l)
    ensures Reached(s + seq(r, _ => l), l) == Reached(s, l) + r
  {
    var t := s + seq(r, _ => l);
    if s != [] {
      CodePrefix(s, t, |s| - 1);
      assert t[|s| - 1] == s[|s| - 1] && t[|s|] == l;
    }
    CodeRun(t, |s|, |t| - 1);
  }

  lemma ReachedLonger(s: seq<nat>, l: nat)
    requires s != [] ==> s[|s| - 1] <= l
    ensures Reached(s, l + 1) == 2 * Reached(s, l)
  {
  }

  /** The successor of the last code of length at most `l` is the number of slots taken up. */
  lemma {:induction false} CodesFill(bits: seq<nat>, l: nat)
    requires l < |bits| && bits[0] == 0
    ensures Slots(bits, l) == Reached(Sizes(bits, l), l)
  {
    hide Reached;
    if l == 0 {
      NothingReached();
    } else {
      CodesFill(bits, l - 1);
      var s := Sizes(bits, l - 1);
      ReachedLonger(s, l - 1);
      if bits[l] > 0 {
        SizesAscending(bits, l);
        RunEnds(s, bits[l], l);
      } else {
        assert Sizes(bits, l) == s;
      }
    }
  }

  lemma NothingReached()
    ensures Reached([], 0) == 0
  {
  }

  lemma SizesAscending(bits: seq<nat>, l: nat)
    requires l < |bits|
    ensures Ascending(Sizes(bits, l))
  {
    var t := Sizes(bits, l);
    forall p, q | 0 <= p <= q < |t| ensures t[p] <= t[q] {
      SizesSorted(bits, l, p, q);
    }
  }

  lemma {:induction false} SizesCount(bits: seq<nat>, l: nat)
    requires l < |bits| && bits[0] == 0
    ensures |Sizes(bits, l)| == Total(bits[..l + 1])
  {
    if l > 0 {
      SizesCount(bits, l - 1);
      assert bits[..l + 1][..l] == bits[..l];
    } else {
      assert bits[..1] == [0];
      assert Total([0]) == Total([0][..0]) + 0;
    }
  }

  /** If the last code fits then so do all. */
  lemma LastFits(s: seq<nat>)
    requires Ascending(s) && s != []
    ensures Fits(s) <==> CodeFits(s, |s| - 1)
  {
    var n := |s| - 1;
    if CodeFits(s, n) {
      forall p | 0 <= p < n ensures CodeFits(s, p) {
        CodeGap(s, p, n);
        ExtendedFits(Code(s, p) + 1, s[p], s[n] - s[p]);
      }
    }
  }

  /** The canonical codes of figure C.2 fit, with the all-ones codes left free, exactly when the Kraft
      sum of their lengths is below 1. */
  lemma FitsIffKraft(bits: seq<nat>, l: nat)
    requires l < |bits| && bits[0] == 0
    ensures Fits(Sizes(bits, l)) <==> Slots(bits, l) < Pow2(l)
  {
    hide Code, Slots, Sizes, Fits;
    var s := Sizes(bits, l);
    CodesFill(bits, l);
    if s != [] {
      SizesAscending(bits, l);
      LastFits(s);
      var n := s[|s| - 1];
      ExtendedFits(Code(s, |s| - 1) + 1, n, l - n);
    } else {
      NoneFit();
    }
  }

  lemma NoneFit()
    ensures Fits([])
  {
  }

  lemma ExtendedFits(c: nat, n: nat, k: nat)
    ensures Shl(c, k) < Pow2(n + k) <==> c < Pow2(n)
  {
    ShlPow2(n, k);
    if c < Pow2(n) {
      ShlMono(c + 1, Pow2(n), k);
      ShlSum(c, 1, k);
      ShlOne(k);
    } else {
      ShlMono(Pow2(n), c, k);
    }
  }

  // ---------------------------------------------------------------- the codes in numbers

  /** The first code of length `l`, by figure F.15: twice what comes after the last code that is shorter. */
  function FirstCode(bits: seq<nat>, l: nat): nat
    requires 1 <= l < |bits|
  {
    if l == 1 then 0 else 2 * (FirstCode(bits, l - 1) + bits[l - 1])
  }

  /** The number of codes shorter than `l`. */
  function Shorter(bits: seq<nat>, l: nat): nat
    requires 1 <= l <= |bits|
  {
    if l == 1 then 0 else Shorter(bits, l - 1) + bits[l - 1]
  }

  lemma {:induction false} FirstIsShorter(bits: seq<nat>, l: nat)
    requires 1 <= l <= |bits|
    ensures First(bits, l) == Shorter(bits, l)
  {
    if l > 1 {
      FirstIsShorter(bits, l - 1);
    }
  }

  lemma {:induction false} FirstCodeReached(bits: seq<nat>, l: nat)
    requires 1 <= l < |bits|
    ensures FirstCode(bits, l) == Reached(Sizes(bits, l - 1), l)
  {
    hide Reached, Code, Sizes, Ascending;
    if l == 1 {
      NothingReached();
      ReachedLonger([], 0);
      assert Sizes(bits, 0) == [] by { NoSizes(bits); }
    } else {
      FirstCodeReached(bits, l - 1);
      LengthReached(bits, l - 1);
      ReachedLonger(Sizes(bits, l - 1), l - 1);
    }
  }

  lemma NoSizes(bits: seq<nat>)
    requires bits != []
    ensures Sizes(bits, 0) == []
  {
  }

  /** The codes of length `l` take up a slot each. */
  lemma LengthReached(bits: seq<nat>, l: nat)
    requires 1 <= l < |bits|
    ensures Reached(Sizes(bits, l), l) == Reached(Sizes(bits, l - 1), l) + bits[l]
  {
    hide Reached, Code, Ascending;
    if bits[l] > 0 {
      SizesAscending(bits, l);
      RunEnds(Sizes(bits, l - 1), bits[l], l);
    } else {
      assert Sizes(bits, l) == Sizes(bits, l - 1);
    }
  }

  /** Code number `j` of length `l` is the first one plus `j`, and stands that far after the shorter ones. */
  lemma CanonicalCode(t: HuffTable, l: nat, j: nat)
    requires t.Typed() && 1 <= l <= 16 && j < t.bits[l]
    ensures Shorter(t.bits, l) + j < |AllSizes(t)| && AllSizes(t)[Shorter(t.bits, l) + j] == l
    ensures Code(AllSizes(t), Shorter(t.bits, l) + j) == FirstCode(t.bits, l) + j
  {
    hide Code, Reached;
    var s := Sizes(t.bits, l - 1);
    var run := s + seq(j + 1, _ => l);
    FirstIsShorter(t.bits, l);
    FirstCodeReached(t.bits, l);
    SizesPrefix(t.bits, l, 16);
    assert run <= Sizes(t.bits, l);
    SizesAscending(t.bits, l);
    RunEnds(s, j + 1, l);
    CodePrefix(run, AllSizes(t), |s| + j);
    LastReached(run, l);
  }

  lemma LastReached(s: seq<nat>, l: nat)
    requires s != [] && s[|s| - 1] == l
    ensures Reached(s, l) == Code(s, |s| - 1) + 1
  {
    hide Code;
  }

  /** So every symbol has the code that the standard gives it. */
  lemma DerivedCanonical(t: HuffTable, isDC: bool, d: Derived, l: nat, j: nat)
    requires IsDerived(t, isDC, d) && 1 <= l <= 16 && j < t.bits[l]
    ensures Shorter(t.bits, l) + j < 256
    ensures d.CodeBits(t.vals[Shorter(t.bits, l) + j]) == BitsOf(FirstCode(t.bits, l) + j, l)
  {
    hide Code;
    CanonicalCode(t, l, j);
    assert EntryAt(AllSizes(t), t.vals, d, Shorter(t.bits, l) + j);
  }

  /** Exactly these tables are accepted: at most 256 codes, whose lengths leave some of the `2^16` slots of 16 bits
      free, and distinct symbols, up to 15 for DC tables. */
  lemma AcceptedExactly(t: HuffTable, isDC: bool)
    requires t.Typed()
    ensures Accepted(t, isDC) <==>
      var n := Shorter(t.bits, 17);
      && n <= 256 && FirstCode(t.bits, 16) + t.bits[16] < 0x10000
      && (forall p :: 0 <= p < n ==> t.vals[p] <= if isDC then 15 else 255)
      && (forall p, q :: 0 <= p < q < n ==> t.vals[p] != t.vals[q])
  {
    hide Fits, Sizes, Shorter, FirstCode;
    FirstIsShorter(t.bits, 17);
    FitsExactly(t);
  }

  lemma FitsExactly(t: HuffTable)
    requires t.Typed()
    ensures Fits(AllSizes(t)) <==> FirstCode(t.bits, 16) + t.bits[16] < 0x10000
  {
    hide Fits, Code, Slots, Reached, Sizes, FirstCode, Pow2;
    var b := t.bits[0 := 0];
    SameFromOne(t.bits, b, 16);
    FitsIffKraft(b, 16);
    FirstCodeReached(b, 16);
    CodesFill(b, 15);
    SlotsNext(b, 15);
    ReachedLonger(Sizes(b, 15), 15);
    Pow16();
  }

  lemma Pow16()
    ensures Pow2(16) == 0x10000
  {
    assert Pow2(4) == 16 && Pow2(8) == 256;
  }

  lemma SlotsNext(b: seq<nat>, k: nat)
    requires k + 1 < |b|
    ensures Slots(b, k + 1) == 2 * Slots(b, k) + b[k + 1]
  {
  }

  /** The unused entry 0 makes no difference. */
  lemma {:induction false} SameFromOne(bits: seq<nat>, b: seq<nat>, l: nat)
    requires |b| == |bits| && l < |b| && forall i :: 1 <= i < |b| ==> b[i] == bits[i]
    ensures Sizes(b, l) == Sizes(bits, l) && (l > 0 ==> FirstCode(b, l) == FirstCode(bits, l))
  {
    if l > 0 {
      SameFromOne(bits, b, l - 1);
    }
  }

  // ---------------------------------------------------------------- counting lengths

  /** How many entries have each length from 1 to 32. */
  function Tally(size: seq<nat>): (b: seq<nat>)
    ensures |b| == MAX_CLEN + 1
  {
    seq(MAX_CLEN + 1, l => if l == 0 then 0 else multiset(size)[l])
  }

  lemma TallyStep(s: seq<nat>, x: nat)
    requires x <= MAX_CLEN
    ensures Tally(s + [x]) == if x == 0 then Tally(s) else Tally(s)[x := Tally(s)[x] + 1]
  {
  }

  /** The lengths up to 32 that the Kraft sum counts, in units of `2^-32`. */
  function UnitsOf(size: seq<nat>): (s: seq<nat>)
    ensures |s| == |size|
  {
    seq(|size|, i requires 0 <= i < |size| => if 0 < size[i] <= MAX_CLEN then Pow2(MAX_CLEN - size[i]) else 0)
  }

  /** Counting lengths preserves the Kraft sum and the number of codes. */
  lemma {:induction false} TallySums(size: seq<nat>)
    requires forall i :: 0 <= i < |size| ==> size[i] <= MAX_CLEN
    ensures Slots(Tally(size), MAX_CLEN) == Total(UnitsOf(size))
    ensures Total(Tally(size)) == Alive(size)
  {
    hide Tally, Slots;
    if size == [] {
      TallyNone();
    } else {
      var n := |size| - 1;
      TallySums(size[..n]);
      assert size == size[..n] + [size[n]];
      TallyStep(size[..n], size[n]);
      assert UnitsOf(size)[..n] == UnitsOf(size[..n]);
      assert AliveTerms(size)[..n] == AliveTerms(size[..n]);
      if size[n] > 0 {
        PlusSums(Tally(size[..n]), size[n], 1, MAX_CLEN);
        ShlOne(MAX_CLEN - size[n]);
      }
    }
  }

  lemma TallyNone()
    ensures Slots(Tally([]), MAX_CLEN) == 0 && Total(Tally([])) == 0
  {
    SlotsZero(Tally([]), MAX_CLEN);
    TotalZero(Tally([]));
  }

  // ---------------------------------------------------------------- limiting lengths to 16 bits

  /** Counts of a complete code of `n` symbols, none longer than `i`. */
  ghost predicate Complete(b: seq<nat>, i: nat, n: nat) {
    && i <= MAX_CLEN && |b| == MAX_CLEN + 1 && b[0] == 0 && Total(b) == n
    && (forall l :: i < l <= MAX_CLEN ==> b[l] == 0)
    && Slots(b, i) == Pow2(i)
  }

  lemma LargePower(i: nat)
    requires i >= 10
    ensures Pow2(i) == 2 * Pow2(i - 1) && Pow2(i) >= 1024
  {
    assert Pow2(5) == 32 && Pow2(10) == 1024;
    Pow2Mono(10, i);
  }

  /** Fewer than 256 codes that are not all short: the longest come in pairs, and there is a
      shorter code at least two bits shorter. */
  lemma PairAvailable(b: seq<nat>, i: nat, n: nat) returns (j: nat)
    requires Complete(b, i, n) && i > 16 && n <= 255 && b[i] > 0
    ensures b[i] >= 2 && 1 <= j <= i - 2 && b[j] > 0
  {
    hide Slots, Total, Pow2;
    SlotsNext(b, i - 1);
    SlotsNext(b, i - 2);
    LargePower(i);
    TotalTwo(b, i - 1, i);
    if forall l :: 0 <= l <= i - 2 ==> b[l] == 0 {
      SlotsZero(b, i - 2);
    }
    j :| 0 <= j <= i - 2 && b[j] > 0;
  }

  function Plus(b: seq<nat>, i: nat, x: int): (r: seq<nat>)
    requires i < |b| && b[i] + x >= 0
    ensures |r| == |b| && r[i] == b[i] + x && forall k :: 0 <= k < |b| && k != i ==> r[k] == b[k]
  {
    b[i := b[i] + x]
  }

  lemma PlusSums(b: seq<nat>, i: nat, x: int, k: nat)
    requires i <= k < |b| && b[i] + x >= 0
    ensures Total(Plus(b, i, x)) == Total(b) + x
    ensures Slots(Plus(b, i, x), k) == Slots(b, k) + (if x >= 0 then Shl(x, k - i) else 0 - Shl(0 - x, k - i))
  {
    hide Slots, Total;
    TotalUpdate(b, i, b[i] + x);
    if x >= 0 {
      SlotsAdd(b, i, x, k);
    } else {
      var c := Plus(b, i, x);
      SlotsAdd(c, i, 0 - x, k);
      assert c[i := c[i] + (0 - x)] == b;
    }
  }

  /** One step of the adjustment of section K.2: a pair of length `i` becomes one code of length
      `i - 1`, and a code of length `j` becomes two of length `j + 1`. */
  function Split(b: seq<nat>, i: nat, j: nat): (r: seq<nat>)
    requires 1 <= j && j + 2 <= i < |b| && b[i] >= 2 && b[j] >= 1
    ensures |r| == |b| && r[i] == b[i] - 2
  {
    Plus(Plus(Plus(Plus(b, i, -2), i - 1, 1), j + 1, 2), j, -1)
  }

  lemma SplitSums(b: seq<nat>, i: nat, j: nat)
    requires 1 <= j && j + 2 <= i < |b| && b[i] >= 2 && b[j] >= 1
    ensures Total(Split(b, i, j)) == Total(b) && Slots(Split(b, i, j), i) == Slots(b, i)
  {
    hide Slots, Total, Plus;
    var b1 := Plus(b, i, -2);
    var b2 := Plus(b1, i - 1, 1);
    var b3 := Plus(b2, j + 1, 2);
    PlusSums(b, i, -2, i);
    PlusSums(b1, i - 1, 1, i);
    PlusSums(b2, j + 1, 2, i);
    PlusSums(b3, j, -1, i);
    ShlSum(1, 1, i - j - 1);
    assert Shl(1, 1) == 2 && Shl(2, 0) == 2;
  }

  /** The counts that grow stay below the number of codes. */
  lemma SplitBounded(b: seq<nat>, i: nat, j: nat)
    requires 1 <= j && j + 2 <= i < |b| && b[i] >= 2 && b[j] >= 1
    ensures b[i - 1] + 1 <= Total(b)
    ensures Plus(Plus(b, i, -2), i - 1, 1)[j + 1] + 2 <= Total(b)
  {
    hide Slots, Total, Plus;
    TotalTwo(b, i - 1, i);
    var b1 := Plus(b, i, -2);
    var b2 := Plus(b1, i - 1, 1);
    PlusSums(b, i, -2, i);
    PlusSums(b1, i - 1, 1, i);
    TotalTwo(b2, j, j + 1);
  }

  lemma SplitComplete(b: seq<nat>, i: nat, j: nat, n: nat)
    requires Complete(b, i, n) && 1 <= j && j + 2 <= i && b[i] >= 2 && b[j] >= 1
    ensures Complete(Split(b, i, j), i, n) && Split(b, i, j)[i] + 2 == b[i]
  {
    hide Slots, Total;
    SplitSums(b, i, j);
  }

  lemma CompleteShorter(b: seq<nat>, i: nat, n: nat)
    requires Complete(b, i, n) && i > 0 && b[i] == 0
    ensures Complete(b, i - 1, n)
  {
    assert Pow2(i) == 2 * Pow2(i - 1);
  }

  /** A complete code is not without codes. */
  lemma CompleteHasCode(b: seq<nat>, i: nat, n: nat)
    requires Complete(b, i, n)
    ensures exists l :: 1 <= l <= i && b[l] > 0
  {
    if forall l :: 1 <= l <= i ==> b[l] == 0 {
      SlotsZero(b, i);
    }
  }

  /** The largest length in use up to `j`, or 0. */
  function InUse(b: seq<nat>, j: nat): (r: nat)
    requires j < |b|
    ensures r <= j && (r > 0 ==> b[r] > 0) && forall l :: r < l <= j ==> b[l] == 0
  {
    if j == 0 || b[j] > 0 then j else InUse(b, j - 1)
  }

  /** The adjustment as a function: pairs of length `i` are split up as long as there are any, then
      those of the next shorter length, down to 17. */
  function LimitFrom(b: seq<nat>, i: nat): (r: seq<nat>)
    requires i < |b|
    ensures |r| == |b|
    decreases i, b[i]
  {
    if i <= 16 then b
    else if b[i] < 2 || InUse(b, i - 2) == 0 then LimitFrom(b, i - 1)
    else LimitFrom(Split(b, i, InUse(b, i - 2)), i)
  }

  lemma LimitSplit(b: seq<nat>, i: nat, j: nat)
    requires 16 < i < |b| && b[i] >= 2 && 1 <= j <= i - 2 && b[j] > 0 && forall l :: j < l <= i - 2 ==> b[l] == 0
    ensures LimitFrom(b, i) == LimitFrom(Split(b, i, j), i)
  {
    hide Split;
    assert InUse(b, i - 2) == j;
  }

  lemma LimitNext(b: seq<nat>, i: nat)
    requires 16 < i < |b| && b[i] == 0
    ensures LimitFrom(b, i) == LimitFrom(b, i - 1)
  {
  }

  /** `jpeg_gen_optimal_table`, lines 801 to 812: no code stays longer than 16 bits, and the code
      stays complete with the same number of symbols. Counts are bytes; none wraps around. */
  method LimitLengths(bits: array<Byte>, ghost n: nat)
    requires bits.Length == MAX_CLEN + 1 && Complete(bits[..], MAX_CLEN, n) && n <= 255
    modifies bits
    ensures Complete(bits[..], 16, n) && bits[..] == LimitFrom(old(bits[..]), MAX_CLEN)
    ensures (forall l :: 16 < l <= MAX_CLEN ==> old(bits[l]) == 0) ==> bits[..] == old(bits[..])
  {
    hide Slots, Total, LimitFrom, Split;
    var i := MAX_CLEN;
    assert LimitFrom(bits[..], i) == LimitFrom(old(bits[..]), MAX_CLEN);
    while i > 16
      invariant 16 <= i <= MAX_CLEN && LimitFrom(bits[..], i) == LimitFrom(old(bits[..]), MAX_CLEN)
      invariant 16 <= i <= MAX_CLEN && Complete(bits[..], i, n)
      invariant (forall l :: 16 < l <= MAX_CLEN ==> old(bits[l]) == 0) ==> bits[..] == old(bits[..])
    {
      while bits[i] > 0
        invariant Complete(bits[..], i, n) && LimitFrom(bits[..], i) == LimitFrom(old(bits[..]), MAX_CLEN)
        invariant (forall l :: 16 < l <= MAX_CLEN ==> old(bits[l]) == 0) ==> bits[..] == old(bits[..])
        decreases bits[i]
      {
        SplitPair(bits, i, n);
      }
      CompleteShorter(bits[..], i, n);
      LimitNext(bits[..], i);
      i := i - 1;
    }
    Limited(bits[..], i);
  }

  lemma Limited(b: seq<nat>, i: nat)
    requires i <= 16 && i < |b|
    ensures LimitFrom(b, i) == b
  {
  }

  /** The step as the source has it: of the codes of length `i` two are replaced by a shorter one, and the longest
      code at least two bits shorter by two longer ones. */
  ghost predicate PairSplit(b: seq<int>, b': seq<int>, i: nat) {
    |b| == |b'| && exists j :: 1 <= j <= i - 2 < |b| && SplitAt(b, b', i, j)
  }

  ghost predicate SplitAt(b: seq<int>, b': seq<int>, i: nat, j: nat)
    requires |b| == |b'| && j <= i - 2 < |b|
  {
    && b[j] > 0 && (forall l :: j < l <= i - 2 ==> b[l] == 0)
    && forall k :: 0 <= k < |b| ==>
         b'[k] - b[k] == (if k == i then -2 else if k == j then -1 else 0)
                         + (if k == i - 1 then 1 else 0) + (if k == j + 1 then 2 else 0)
  }

  lemma OneSplit(b: seq<nat>, i: nat, j: nat)
    requires 1 <= j && j + 2 <= i < |b| && b[i] >= 2 && b[j] >= 1 && forall l :: j < l <= i - 2 ==> b[l] == 0
    ensures PairSplit(b, Split(b, i, j), i)
  {
    assert SplitAt(b, Split(b, i, j), i, j);
  }

  /** The body of its inner loop. */
  method SplitPair(bits: array<Byte>, i: nat, ghost n: nat)
    requires bits.Length == MAX_CLEN + 1 && Complete(bits[..], i, n) && 16 < i && n <= 255 && bits[i] > 0
    modifies bits
    ensures Complete(bits[..], i, n) && bits[i] == old(bits[i]) - 2
    ensures LimitFrom(bits[..], i) == LimitFrom(old(bits[..]), i)
    ensures PairSplit(old(bits[..]), bits[..], i)
  {
    hide Slots, Total, LimitFrom, PairSplit;
    ghost var b: seq<nat> := bits[..];
    ghost var k := PairAvailable(b, i, n);
    var j := i - 2;
    while bits[j] == 0
      invariant k <= j <= i - 2 && forall l :: j < l <= i - 2 ==> bits[l] == 0
      decreases j
    {
      j := j - 1;
    }
    SplitComplete(b, i, j, n);
    SplitBounded(b, i, j);
    bits[i] := bits[i] - 2;
    bits[i - 1] := (bits[i - 1] + 1) % 256;
    bits[j + 1] := (bits[j + 1] + 2) % 256;
    bits[j] := bits[j] - 1;
    assert bits[..] == Split(b, i, j);
    LimitSplit(b, i, j);
    OneSplit(b, i, j);
  }

  /** Lines 814 to 817: the slot of the pseudo-symbol is freed, among the longest codes. */
  method DropLongest(bits: array<Byte>, ghost n: nat) returns (i: nat)
    requires bits.Length == MAX_CLEN + 1 && Complete(bits[..], 16, n)
    modifies bits
    ensures 1 <= i <= 16 && old(bits[i]) > 0 && forall l :: i < l <= MAX_CLEN ==> old(bits[l]) == 0
    ensures bits[..] == old(bits[..])[i := old(bits[i]) - 1]
  {
    CompleteHasCode(bits[..], 16, n);
    i := 16;
    while bits[i] == 0
      invariant 1 <= i <= 16 && (exists l :: 1 <= l <= i && bits[l] > 0)
      invariant forall l :: i < l <= MAX_CLEN ==> bits[l] == 0
      decreases i
    {
      i := i - 1;
    }
    bits[i] := bits[i] - 1;
  }

  /** What is left has one slot of the longest length to spare, so the canonical codes fit. */
  lemma DroppedFits(b: seq<nat>, i: nat, n: nat)
    requires Complete(b, 16, n) && 1 <= i <= 16 && b[i] > 0
    ensures var b' := b[i := b[i] - 1][..17];
      |b'| == 17 && Slots(b', 16) + Pow2(16 - i) == Pow2(16) && Fits(Sizes(b', 16)) && |Sizes(b', 16)| + 1 == n
  {
    hide Slots, Total, Fits, Sizes, Pow2, Shl;
    var b1 := b[i := b[i] - 1];
    assert b1[i := b1[i] + 1] == b;
    SlotsAdd(b1, i, 1, 16);
    ShlOne(16 - i);
    SlotsPrefix(b1, 17, 16);
    FitsIffKraft(b1[..17], 16);
    SizesCount(b1[..17], 16);
    assert b1[..17][..17] == b1[..17];
    TotalUpdate(b, i, b[i] - 1);
    TotalPrefix(b1, 17);
  }

  lemma {:induction false} TotalPrefix(s: seq<nat>, n: nat)
    requires n <= |s| && forall i :: n <= i < |s| ==> s[i] == 0
    ensures Total(s[..n]) == Total(s)
  {
    if n < |s| {
      TotalPrefix(s[..|s| - 1], n);
      assert s[..|s| - 1][..n] == s[..n];
    } else {
      assert s[..n] == s;
    }
  }
}
