/** The state of the merge loop of `jpeg_gen_optimal_table`: trees held as linked chains, and what
    every merge keeps. */
module HuffmanForests {
  import opened BitStrings
  import opened HuffmanOptimality

  /** `freq`, `codesize` and `others` as in the source. `owner` tells in whose chain a symbol is,
      and `chain` lists the chain that hangs off each symbol. */
  datatype Forest = Forest(freq: Weights, size: seq<nat>, others: seq<int>, owner: seq<nat>, chain: seq<seq<nat>>)

  // ---------------------------------------------------------------- chains

  /** Following `others` from `c` visits exactly `s` and ends. */
  ghost predicate IsPath(others: seq<int>, c: nat, s: seq<nat>) {
    && s != [] && s[0] == c
    && (forall k :: 0 <= k < |s| ==> s[k] < |others|)
    && (forall k :: 0 <= k < |s| - 1 ==> others[s[k]] == s[k + 1])
    && others[s[|s| - 1]] == -1
  }

  /** A walk that ends meets nobody twice. */
  lemma {:induction false} PathDistinct(others: seq<int>, c: nat, s: seq<nat>, i: nat, j: nat)
    requires IsPath(others, c, s) && i < j < |s|
    ensures s[i] != s[j]
    decreases |s| - j
  {
    if j + 1 < |s| {
      PathDistinct(others, c, s, i + 1, j + 1);
    }
    assert others[s[i]] == s[i + 1];
  }

  /** Appending one chain to another. */
  lemma PathJoin(others: seq<int>, c1: nat, s1: seq<nat>, c2: nat, s2: seq<nat>)
    requires IsPath(others, c1, s1) && IsPath(others, c2, s2)
    requires forall k :: 0 <= k < |s1| ==> s1[k] !in s2
    ensures IsPath(others[s1[|s1| - 1] := c2], c1, s1 + s2)
    ensures IsPath(others[s1[|s1| - 1] := c2], c2, s2)
  {
    forall k | 0 <= k < |s1| - 1 ensures s1[k] != s1[|s1| - 1] {
      PathDistinct(others, c1, s1, k, |s1| - 1);
    }
    forall k | 0 <= k < |s2| ensures s2[k] != s1[|s1| - 1] {
      assert s2[k] in s2;
    }
  }

  lemma PathApart(others: seq<int>, c: nat, s: seq<nat>, at: nat, v: int)
    requires IsPath(others, c, s) && at < |others| && at !in s
    ensures IsPath(others[at := v], c, s)
  {
    assert forall k :: 0 <= k < |s| ==> s[k] in s;
  }

  // ---------------------------------------------------------------- sums over trees

  lemma {:induction false} TotalAdd(s: seq<nat>, t: seq<nat>, u: seq<nat>)
    requires |s| == |t| == |u| && forall i :: 0 <= i < |s| ==> u[i] == s[i] + t[i]
    ensures Total(u) == Total(s) + Total(t)
  {
    var n := |s| - 1;
    if s != [] {
      TotalAdd(s[..n], t[..n], u[..n]);
    }
  }

  function GroupTerms(w: Weights, owner: seq<nat>, c: nat): (s: seq<nat>)
    requires |w| == |owner|
    ensures |s| == |w|
  {
    seq(|w|, i requires 0 <= i < |w| => if owner[i] == c then w[i] else 0)
  }

  /** The weight of the tree at `c`. */
  function Group(w: Weights, owner: seq<nat>, c: nat): nat
    requires |w| == |owner|
  {
    Total(GroupTerms(w, owner, c))
  }

  /** The weights of one tree, the others cleared. */
  function Only(w: Weights, owner: seq<nat>, c: nat): Weights
    requires |w| == |owner|
  {
    GroupTerms(w, owner, c)
  }

  function AliveTerms(w: Weights): (s: seq<nat>)
    ensures |s| == |w|
  {
    seq(|w|, i requires 0 <= i < |w| => if w[i] > 0 then 1 else 0)
  }

  /** How many weights are nonzero. */
  function Alive(w: Weights): nat { Total(AliveTerms(w)) }

  lemma AliveTwo(w: Weights, i: nat, j: nat)
    requires i < |w| && j < |w| && i != j && w[i] > 0 && w[j] > 0
    ensures Alive(w) >= 2
  {
    TotalTwo(AliveTerms(w), if i < j then i else j, if i < j then j else i);
  }

  // ---------------------------------------------------------------- Fibonacci numbers

  function Fib(n: nat): nat { if n < 2 then n else Fib(n - 1) + Fib(n - 2) }

  lemma {:induction false} FibMono(m: nat, n: nat)
    requires m <= n
    ensures Fib(m) <= Fib(n)
  {
    if m < n {
      FibMono(m, n - 1);
      assert n >= 2 ==> Fib(n) == Fib(n - 1) + Fib(n - 2);
    }
  }

  lemma Fib35()
    ensures Fib(35) == 9227465
  {
    assert Fib(2) == 1 && Fib(3) == 2 && Fib(4) == 3 && Fib(5) == 5 && Fib(6) == 8;
    assert Fib(7) == 13 && Fib(8) == 21 && Fib(9) == 34 && Fib(10) == 55 && Fib(11) == 89;
    assert Fib(12) == 144 && Fib(13) == 233 && Fib(14) == 377 && Fib(15) == 610 && Fib(16) == 987;
    assert Fib(17) == 1597 && Fib(18) == 2584 && Fib(19) == 4181 && Fib(20) == 6765;
    assert Fib(21) == 10946 && Fib(22) == 17711 && Fib(23) == 28657 && Fib(24) == 46368;
    assert Fib(25) == 75025 && Fib(26) == 121393 && Fib(27) == 196418 && Fib(28) == 317811;
    assert Fib(29) == 514229 && Fib(30) == 832040 && Fib(31) == 1346269 && Fib(32) == 2178309;
    assert Fib(33) == 3524578 && Fib(34) == 5702887;
  }

  // ---------------------------------------------------------------- what every merge keeps

  ghost predicate Shape(w0: Weights, f: Forest) {
    && |f.freq| == |f.size| == |f.others| == |f.owner| == |f.chain| == |w0|
    && (forall i :: 0 <= i < |w0| && w0[i] > 0 ==> f.owner[i] < |w0| && f.freq[f.owner[i]] > 0)
    && (forall i :: 0 <= i < |w0| && w0[i] == 0 ==> f.size[i] == 0)
  }

  /** The links spell out the chains, and the chain of a tree holds the symbols of the tree. */
  ghost predicate Chained(w0: Weights, f: Forest)
    requires Shape(w0, f)
  {
    forall c :: 0 <= c < |w0| && f.freq[c] > 0 ==> ChainAt(w0, f, c)
  }

  ghost predicate ChainAt(w0: Weights, f: Forest, c: nat)
    requires Shape(w0, f) && c < |w0|
  {
    && IsPath(f.others, c, f.chain[c])
    && (forall i :: 0 <= i < |w0| ==> (i in f.chain[c] <==> w0[i] > 0 && f.owner[i] == c))
  }

  /** The weight of a root is the weight of its tree. */
  ghost predicate Weighed(w0: Weights, f: Forest)
    requires Shape(w0, f)
  {
    forall c :: 0 <= c < |w0| ==> f.freq[c] == Group(w0, f.owner, c)
  }

  /** The Kraft sum of every tree is 1, in units of `2^-n` with `n` the number of symbols. */
  ghost predicate Full(w0: Weights, f: Forest)
    requires Shape(w0, f)
  {
    && (forall i :: 0 <= i < |w0| ==> f.size[i] + Alive(f.freq) <= |w0|)
    && (forall c :: 0 <= c < |w0| && f.freq[c] > 0 ==> FullAt(w0, f, c))
  }

  ghost predicate FullAt(w0: Weights, f: Forest, c: nat)
    requires Shape(w0, f)
  {
    Kraft(Only(w0, f.owner, c), f.size, |w0|) == Pow2(|w0|)
  }

  /** Depth costs weight: a tree that holds a symbol at depth `d` weighs at least Fibonacci(d + 2),
      and every other tree at least Fibonacci(d + 1). */
  ghost predicate Heavy(w0: Weights, f: Forest)
    requires Shape(w0, f)
  {
    forall i :: 0 <= i < |w0| && w0[i] > 0 ==> HeavyAt(f, i, f.owner[i])
  }

  ghost predicate HeavyAt(f: Forest, i: nat, c: nat)
    requires i < |f.size| && c < |f.freq|
  {
    && f.freq[c] >= Fib(f.size[i] + 2)
    && (forall y :: 0 <= y < |f.freq| && y != c && f.freq[y] > 0 ==> f.freq[y] >= Fib(f.size[i] + 1))
  }

  /** The search takes `a` before `b`: the smaller weight, of equal weights the larger symbol. */
  predicate Precedes(w: Weights, a: nat, b: nat)
    requires a < |w| && b < |w|
  {
    w[a] < w[b] || (w[a] == w[b] && a > b)
  }

  /** The last symbol is as deep as any; a tree as deep as its tree is taken after it; and no other
      tree is so light that two such trees could overtake it. */
  ghost predicate LastDeepest(w0: Weights, f: Forest)
    requires Shape(w0, f)
  {
    w0 != [] && w0[|w0| - 1] > 0 &&
    var last := |w0| - 1;
    var t := f.owner[last];
    && (forall i :: 0 <= i < |w0| && w0[i] > 0 ==> DeepAt(f, i, f.owner[i], t, f.size[last]))
    && (forall y :: 0 <= y < |w0| && y != t && f.freq[y] > 0 ==> NotHalf(f.freq, y, t))
  }

  ghost predicate DeepAt(f: Forest, i: nat, c: nat, t: nat, d: nat)
    requires i < |f.size| && c < |f.freq| && t < |f.freq|
  {
    f.size[i] <= d && (c != t && f.size[i] == d ==> Precedes(f.freq, t, c))
  }

  ghost predicate NotHalf(w: Weights, y: nat, t: nat)
    requires y < |w| && t < |w|
  {
    2 * w[y] > w[t] || (2 * w[y] == w[t] && y < t)
  }

  ghost predicate Grown(w0: Weights, f: Forest, spent: nat) {
    && Shape(w0, f) && Chained(w0, f) && Weighed(w0, f) && Full(w0, f) && Heavy(w0, f) && LastDeepest(w0, f)
    && Cost(w0, f.size) == spent && LowerBound(w0, spent, f.freq)
  }

  // ---------------------------------------------------------------- the start

  function Seedlings(w0: Weights): Forest {
    Forest(w0, seq(|w0|, _ => 0), seq(|w0|, _ => -1),
           seq(|w0|, i requires 0 <= i < |w0| => i), seq(|w0|, i requires 0 <= i < |w0| => [i]))
  }

  lemma {:induction false} TotalSingle(s: seq<nat>, c: nat)
    requires c < |s| && forall i :: 0 <= i < |s| && i != c ==> s[i] == 0
    ensures Total(s) == s[c]
  {
    if c == |s| - 1 {
      TotalZero(s[..c]);
    } else {
      TotalSingle(s[..|s| - 1], c);
    }
  }

  lemma {:induction false} AliveAtMost(w: Weights)
    ensures Alive(w) <= |w|
  {
    if w != [] {
      AliveAtMost(w[..|w| - 1]);
      assert AliveTerms(w)[..|w| - 1] == AliveTerms(w[..|w| - 1]);
    }
  }

  lemma SeedlingsWeighed(w0: Weights)
    ensures Weighed(w0, Seedlings(w0))
  {
    hide Total;
    var f := Seedlings(w0);
    forall c | 0 <= c < |w0| ensures f.freq[c] == Group(w0, f.owner, c) {
      TotalSingle(GroupTerms(w0, f.owner, c), c);
    }
  }

  lemma SeedlingsFull(w0: Weights)
    ensures Full(w0, Seedlings(w0))
  {
    hide Total;
    var f := Seedlings(w0);
    AliveAtMost(w0);
    forall c | 0 <= c < |w0| && f.freq[c] > 0 ensures FullAt(w0, f, c) {
      TotalSingle(KraftTerms(Only(w0, f.owner, c), f.size, |w0|), c);
    }
  }

  lemma SeedlingsGrown(w0: Weights)
    requires w0 != [] && w0[|w0| - 1] == 1
    ensures Grown(w0, Seedlings(w0), 0)
  {
    hide LowerBound, Weighed, Full, Total;
    SeedlingsWeighed(w0);
    SeedlingsFull(w0);
    TotalZero(CostTerms(w0, Seedlings(w0).size));
    LowerBoundStart(w0);
    assert Fib(1) == Fib(2) == 1;
  }

  // ---------------------------------------------------------------- one merge

  /** `a` and then `b` are what the two searches find. */
  ghost predicate FirstTwo(w: Weights, a: nat, b: nat) {
    && a < |w| && b < |w| && a != b && w[a] > 0 && w[b] > 0
    && (forall y :: 0 <= y < |w| && w[y] > 0 && y != a ==> Precedes(w, a, y))
    && (forall y :: 0 <= y < |w| && w[y] > 0 && y != a && y != b ==> Precedes(w, b, y))
  }

  function Joined(w0: Weights, f: Forest, a: nat, b: nat): Forest
    requires Shape(w0, f) && a < |w0| && b < |w0| && f.chain[a] != []
    requires forall k :: 0 <= k < |f.chain[a]| ==> f.chain[a][k] < |w0|
  {
    Forest(Merge(f.freq, a, b),
           Deepened(f.size, f.chain[a] + f.chain[b]),
           f.others[f.chain[a][|f.chain[a]| - 1] := b],
           seq(|w0|, i requires 0 <= i < |w0| => if f.owner[i] == b then a else f.owner[i]),
           f.chain[a := f.chain[a] + f.chain[b]])
  }

  /** One more bit for the symbols of `s`. */
  function Deepened(size: seq<nat>, s: seq<nat>): (r: seq<nat>)
    ensures |r| == |size|
  {
    seq(|size|, i requires 0 <= i < |size| => if i in s then size[i] + 1 else size[i])
  }

  ghost predicate CanJoin(w0: Weights, f: Forest, a: nat, b: nat) {
    Shape(w0, f) && FirstTwo(f.freq, a, b) && ChainAt(w0, f, a) && ChainAt(w0, f, b)
  }

  lemma InJoined(w0: Weights, f: Forest, a: nat, b: nat)
    requires CanJoin(w0, f, a, b)
    ensures forall i :: 0 <= i < |w0| ==>
      Joined(w0, f, a, b).size[i] == if w0[i] > 0 && f.owner[i] in {a, b} then f.size[i] + 1 else f.size[i]
    ensures Shape(w0, Joined(w0, f, a, b))
  {
  }

  /** A chain that is not merged is still linked as it was. */
  lemma OtherChain(w0: Weights, f: Forest, a: nat, b: nat, c: nat)
    requires CanJoin(w0, f, a, b) && c < |w0| && c != a && c != b && f.freq[c] > 0 && ChainAt(w0, f, c)
    ensures Shape(w0, Joined(w0, f, a, b)) && ChainAt(w0, Joined(w0, f, a, b), c)
  {
    InJoined(w0, f, a, b);
    var last := f.chain[a][|f.chain[a]| - 1];
    assert last in f.chain[a];
    PathApart(f.others, c, f.chain[c], last, b);
  }

  /** The merged chain holds both trees. */
  lemma MergedChain(w0: Weights, f: Forest, a: nat, b: nat)
    requires CanJoin(w0, f, a, b)
    ensures Shape(w0, Joined(w0, f, a, b)) && ChainAt(w0, Joined(w0, f, a, b), a)
    ensures IsPath(Joined(w0, f, a, b).others, b, f.chain[b])
  {
    InJoined(w0, f, a, b);
    forall k | 0 <= k < |f.chain[a]| ensures f.chain[a][k] !in f.chain[b] {
      assert f.chain[a][k] in f.chain[a];
    }
    PathJoin(f.others, a, f.chain[a], b, f.chain[b]);
  }

  lemma JoinedChained(w0: Weights, f: Forest, a: nat, b: nat)
    requires CanJoin(w0, f, a, b) && Chained(w0, f)
    ensures Shape(w0, Joined(w0, f, a, b)) && Chained(w0, Joined(w0, f, a, b))
    ensures IsPath(Joined(w0, f, a, b).others, b, f.chain[b])
  {
    MergedChain(w0, f, a, b);
    var f' := Joined(w0, f, a, b);
    forall c | 0 <= c < |w0| && f'.freq[c] > 0 ensures ChainAt(w0, f', c) {
      if c != a {
        ChainsOf(w0, f, c);
        OtherChain(w0, f, a, b, c);
      }
    }
  }

  lemma JoinedGroups(w0: Weights, f: Forest, a: nat, b: nat, c: nat)
    requires CanJoin(w0, f, a, b) && c < |w0|
    ensures var o := Joined(w0, f, a, b).owner;
      Group(w0, o, c) == if c == a then Group(w0, f.owner, a) + Group(w0, f.owner, b)
                         else if c == b then 0 else Group(w0, f.owner, c)
  {
    var o := Joined(w0, f, a, b).owner;
    if c == a {
      TotalAdd(GroupTerms(w0, f.owner, a), GroupTerms(w0, f.owner, b), GroupTerms(w0, o, a));
    } else if c == b {
      TotalZero(GroupTerms(w0, o, b));
    } else {
      assert GroupTerms(w0, o, c) == GroupTerms(w0, f.owner, c);
    }
  }

  lemma JoinedWeighed(w0: Weights, f: Forest, a: nat, b: nat)
    requires CanJoin(w0, f, a, b) && Weighed(w0, f)
    ensures Shape(w0, Joined(w0, f, a, b)) && Weighed(w0, Joined(w0, f, a, b))
  {
    InJoined(w0, f, a, b);
    var f' := Joined(w0, f, a, b);
    forall c | 0 <= c < |w0| ensures f'.freq[c] == Group(w0, f'.owner, c) {
      JoinedGroups(w0, f, a, b, c);
    }
  }

  lemma JoinedAlive(w0: Weights, f: Forest, a: nat, b: nat)
    requires CanJoin(w0, f, a, b)
    ensures Alive(Merge(f.freq, a, b)) + 1 == Alive(f.freq)
  {
    assert AliveTerms(Merge(f.freq, a, b)) == AliveTerms(f.freq)[b := 0];
    TotalUpdate(AliveTerms(f.freq), b, 0);
  }

  /** The units a tree takes up, symbol by symbol. */
  function Units(w0: Weights, f: Forest, c: nat): (s: seq<nat>)
    requires Shape(w0, f)
    ensures |s| == |w0|
  {
    KraftTerms(Only(w0, f.owner, c), f.size, |w0|)
  }

  lemma JoinedUnits(w0: Weights, f: Forest, a: nat, b: nat, i: nat)
    requires CanJoin(w0, f, a, b) && Full(w0, f) && i < |w0|
    ensures Shape(w0, Joined(w0, f, a, b))
    ensures 2 * Units(w0, Joined(w0, f, a, b), a)[i] == Units(w0, f, a)[i] + Units(w0, f, b)[i]
  {
    hide Total, FullAt;
    InJoined(w0, f, a, b);
    AliveTwo(f.freq, a, b);
    assert f.size[i] + Alive(f.freq) <= |w0|;
  }

  lemma JoinedKraft(w0: Weights, f: Forest, a: nat, b: nat)
    requires CanJoin(w0, f, a, b) && Full(w0, f)
    ensures Shape(w0, Joined(w0, f, a, b)) && FullAt(w0, Joined(w0, f, a, b), a)
  {
    hide Total, Alive, Units;
    InJoined(w0, f, a, b);
    var f' := Joined(w0, f, a, b);
    var ka, kb, k := Units(w0, f, a), Units(w0, f, b), Units(w0, f', a);
    var both := seq(|w0|, i requires 0 <= i < |w0| => ka[i] + kb[i]);
    TotalAdd(ka, kb, both);
    forall i | 0 <= i < |w0| ensures both[i] == 2 * k[i] {
      JoinedUnits(w0, f, a, b, i);
    }
    TotalDoubles(k, both);
    UnitsFull(w0, f, a);
    UnitsFull(w0, f, b);
    UnitsFull(w0, f', a);
  }

  lemma UnitsFull(w0: Weights, f: Forest, c: nat)
    requires Shape(w0, f) && c < |w0|
    ensures FullAt(w0, f, c) <==> Total(Units(w0, f, c)) == Pow2(|w0|)
  {
  }

  lemma OtherUnits(w0: Weights, f: Forest, a: nat, b: nat, c: nat)
    requires CanJoin(w0, f, a, b) && c < |w0| && c != a && c != b
    ensures Shape(w0, Joined(w0, f, a, b))
    ensures Units(w0, Joined(w0, f, a, b), c) == Units(w0, f, c)
  {
    hide Total;
    InJoined(w0, f, a, b);
  }

  lemma JoinedFull(w0: Weights, f: Forest, a: nat, b: nat)
    requires CanJoin(w0, f, a, b) && Full(w0, f)
    ensures Shape(w0, Joined(w0, f, a, b)) && Full(w0, Joined(w0, f, a, b))
  {
    hide Total, Alive, Units, FullAt;
    InJoined(w0, f, a, b);
    JoinedAlive(w0, f, a, b);
    JoinedKraft(w0, f, a, b);
    var f' := Joined(w0, f, a, b);
    forall c | 0 <= c < |w0| && f'.freq[c] > 0 ensures FullAt(w0, f', c) {
      if c != a {
        OtherUnits(w0, f, a, b, c);
        UnitsFull(w0, f, c);
        UnitsFull(w0, f', c);
      }
    }
  }

  lemma JoinedHeavyAt(w0: Weights, f: Forest, a: nat, b: nat, i: nat)
    requires CanJoin(w0, f, a, b) && Heavy(w0, f) && i < |w0| && w0[i] > 0
    ensures Shape(w0, Joined(w0, f, a, b))
    ensures HeavyAt(Joined(w0, f, a, b), i, Joined(w0, f, a, b).owner[i])
  {
    InJoined(w0, f, a, b);
    assert HeavyAt(f, i, f.owner[i]);
    assert Fib(f.size[i] + 3) == Fib(f.size[i] + 2) + Fib(f.size[i] + 1);
  }

  lemma JoinedHeavy(w0: Weights, f: Forest, a: nat, b: nat)
    requires CanJoin(w0, f, a, b) && Heavy(w0, f)
    ensures Shape(w0, Joined(w0, f, a, b)) && Heavy(w0, Joined(w0, f, a, b))
  {
    hide HeavyAt;
    InJoined(w0, f, a, b);
    forall i | 0 <= i < |w0| && w0[i] > 0
      ensures HeavyAt(Joined(w0, f, a, b), i, Joined(w0, f, a, b).owner[i])
    {
      JoinedHeavyAt(w0, f, a, b, i);
    }
  }

  lemma JoinedDeepest(w0: Weights, f: Forest, a: nat, b: nat)
    requires CanJoin(w0, f, a, b) && LastDeepest(w0, f)
    ensures Shape(w0, Joined(w0, f, a, b)) && LastDeepest(w0, Joined(w0, f, a, b))
  {
    hide DeepAt, NotHalf;
    InJoined(w0, f, a, b);
    var f' := Joined(w0, f, a, b);
    var last := |w0| - 1;
    var t' := f'.owner[last];
    forall i | 0 <= i < |w0| && w0[i] > 0 ensures DeepAt(f', i, f'.owner[i], t', f'.size[last]) {
      StillDeep(w0, f, a, b, i);
    }
    forall y | 0 <= y < |w0| && y != t' && f'.freq[y] > 0 ensures NotHalf(f'.freq, y, t') {
      StillNotHalf(w0, f, a, b, y);
    }
  }

  lemma StillDeep(w0: Weights, f: Forest, a: nat, b: nat, i: nat)
    requires CanJoin(w0, f, a, b) && LastDeepest(w0, f) && i < |w0| && w0[i] > 0
    ensures var f', last := Joined(w0, f, a, b), |w0| - 1;
      Shape(w0, f') && DeepAt(f', i, f'.owner[i], f'.owner[last], f'.size[last])
  {
    InJoined(w0, f, a, b);
    var last := |w0| - 1;
    var t := f.owner[last];
    assert DeepAt(f, i, f.owner[i], t, f.size[last]);
    if t != a && t != b {
      assert NotHalf(f.freq, a, t) && NotHalf(f.freq, b, t);
    }
  }

  lemma StillNotHalf(w0: Weights, f: Forest, a: nat, b: nat, y: nat)
    requires CanJoin(w0, f, a, b) && LastDeepest(w0, f) && y < |w0|
    requires Shape(w0, Joined(w0, f, a, b))
    requires y != Joined(w0, f, a, b).owner[|w0| - 1] && Joined(w0, f, a, b).freq[y] > 0
    ensures NotHalf(Joined(w0, f, a, b).freq, y, Joined(w0, f, a, b).owner[|w0| - 1])
  {
    var t := f.owner[|w0| - 1];
    if t != a && t != b {
      assert NotHalf(f.freq, a, t);
      assert y != a ==> NotHalf(f.freq, y, t);
    }
  }

  lemma JoinedCost(w0: Weights, f: Forest, a: nat, b: nat)
    requires CanJoin(w0, f, a, b) && Weighed(w0, f)
    ensures Cost(w0, Joined(w0, f, a, b).size) == Cost(w0, f.size) + f.freq[a] + f.freq[b]
  {
    hide Total;
    InJoined(w0, f, a, b);
    var f' := Joined(w0, f, a, b);
    JoinedGroups(w0, f, a, b, a);
    forall i | 0 <= i < |w0|
      ensures CostTerms(w0, f'.size)[i] == CostTerms(w0, f.size)[i] + GroupTerms(w0, f'.owner, a)[i]
    {
      OneMore(w0[i], f.size[i]);
    }
    TotalAdd(CostTerms(w0, f.size), GroupTerms(w0, f'.owner, a), CostTerms(w0, f'.size));
  }

  lemma OneMore(x: nat, l: nat)
    ensures x * (l + 1) == x * l + x
  {
  }

  /** One turn of the merge loop keeps everything. */
  lemma JoinedGrown(w0: Weights, f: Forest, spent: nat, a: nat, b: nat)
    requires Grown(w0, f, spent) && FirstTwo(f.freq, a, b)
    ensures CanJoin(w0, f, a, b)
    ensures Grown(w0, Joined(w0, f, a, b), spent + f.freq[a] + f.freq[b])
    ensures Total(Merge(f.freq, a, b)) == Total(f.freq)
    ensures Alive(Merge(f.freq, a, b)) + 1 == Alive(f.freq)
  {
    hide Chained, Weighed, Full, Heavy, LastDeepest, Cost, LowerBound, ChainAt, Total, Alive;
    assert ChainAt(w0, f, a) && ChainAt(w0, f, b) by { ChainsOf(w0, f, a); ChainsOf(w0, f, b); }
    InJoined(w0, f, a, b);
    JoinedChained(w0, f, a, b);
    JoinedWeighed(w0, f, a, b);
    JoinedFull(w0, f, a, b);
    JoinedHeavy(w0, f, a, b);
    JoinedDeepest(w0, f, a, b);
    JoinedCost(w0, f, a, b);
    JoinedAlive(w0, f, a, b);
    LowerBoundStep(w0, spent, f.freq, a, b);
    TotalUpdate(f.freq, a, f.freq[a] + f.freq[b]);
    TotalUpdate(f.freq[a := f.freq[a] + f.freq[b]], b, 0);
  }

  lemma ChainsOf(w0: Weights, f: Forest, c: nat)
    requires Shape(w0, f) && Chained(w0, f) && c < |w0| && f.freq[c] > 0
    ensures ChainAt(w0, f, c)
  {
  }

  // ---------------------------------------------------------------- the procedure as a function

  /** Ties are resolved: no other pair of trees is the one to merge. */
  lemma FirstTwoUnique(w: Weights, a: nat, b: nat, c: nat, d: nat)
    requires FirstTwo(w, a, b) && FirstTwo(w, c, d)
    ensures a == c && b == d
  {
  }

  /** The code sizes when the two first trees are merged until there is only one. */
  ghost function SizesFrom(w0: Weights, f: Forest, spent: nat): seq<nat>
    requires Grown(w0, f, spent)
    decreases Alive(f.freq)
  {
    if a: nat, b: nat :| FirstTwo(f.freq, a, b) then
      JoinedGrown(w0, f, spent, a, b);
      SizesFrom(w0, Joined(w0, f, a, b), spent + f.freq[a] + f.freq[b])
    else f.size
  }

  lemma SizesJoined(w0: Weights, f: Forest, spent: nat, a: nat, b: nat)
    requires Grown(w0, f, spent) && FirstTwo(f.freq, a, b)
    ensures Grown(w0, Joined(w0, f, a, b), spent + f.freq[a] + f.freq[b])
    ensures SizesFrom(w0, f, spent) == SizesFrom(w0, Joined(w0, f, a, b), spent + f.freq[a] + f.freq[b])
  {
    hide Grown, FirstTwo, Joined, Alive;
    JoinedGrown(w0, f, spent, a, b);
    forall c: nat, d: nat | FirstTwo(f.freq, c, d) ensures c == a && d == b {
      FirstTwoUnique(f.freq, a, b, c, d);
    }
  }

  lemma OneTree(w0: Weights, f: Forest, spent: nat, c: nat)
    requires Grown(w0, f, spent) && forall y :: 0 <= y < |f.freq| && f.freq[y] > 0 ==> y == c
    ensures SizesFrom(w0, f, spent) == f.size
  {
    hide Grown;
  }

  /** The code sizes that Huffman's procedure assigns, ties resolved as the code resolves them; the last
      symbol is the pseudo-symbol. */
  ghost function CodeSizes(w0: Weights): seq<nat>
    requires w0 != [] && w0[|w0| - 1] == 1
  {
    SeedlingsGrown(w0);
    SizesFrom(w0, Seedlings(w0), 0)
  }

  // ---------------------------------------------------------------- the end

  /** The lengths are those of a complete code, no assignment that satisfies the Kraft inequality
      is cheaper, depth `d` needs a total of Fibonacci(d + 2), and no symbol has a longer code than
      the last one. */
  ghost predicate Optimal(w0: Weights, size: seq<nat>) {
    && |size| == |w0| && w0 != [] && w0[|w0| - 1] > 0
    && (forall i :: 0 <= i < |w0| ==> (w0[i] == 0 <==> size[i] == 0))
    && (forall i :: 0 <= i < |w0| ==> size[i] <= |w0|)
    && Kraft(w0, size, |w0|) == Pow2(|w0|)
    && (forall len: seq<nat>, n: nat :: Feasible(w0, len, n) ==> Cost(w0, size) <= Cost(w0, len))
    && (forall i :: 0 <= i < |w0| && w0[i] > 0 ==> Total(w0) >= Fib(size[i] + 2))
    && (forall i :: 0 <= i < |w0| ==> size[i] <= size[|w0| - 1])
  }

  /** Of two symbols in a complete code neither has the empty code. */
  lemma NotEmpty(w: Weights, size: seq<nat>, n: nat, i: nat, j: nat)
    requires |w| == |size| && i < |w| && j < |w| && i != j && w[i] > 0 && w[j] > 0
    requires size[i] <= n && size[j] <= n && Kraft(w, size, n) <= Pow2(n)
    ensures size[i] > 0
  {
    if size[i] == 0 {
      TotalTwo(KraftTerms(w, size, n), if i < j then i else j, if i < j then j else i);
    }
  }

  /** When one tree is left, its depths are optimal code lengths. */
  lemma GrownOptimal(w0: Weights, f: Forest, spent: nat, c: nat, u: nat)
    requires Grown(w0, f, spent) && c < |w0| && f.freq[c] > 0
    requires forall y :: 0 <= y < |w0| && f.freq[y] > 0 ==> y == c
    requires u < |w0| - 1 && w0[u] > 0
    ensures Optimal(w0, f.size)
  {
    assert FullAt(w0, f, c);
    assert Only(w0, f.owner, c) == w0;
    assert f.freq[c] == Group(w0, f.owner, c) == Total(w0);
    var last := |w0| - 1;
    forall i | 0 <= i < |w0| && w0[i] > 0
      ensures f.size[i] > 0 && f.size[i] <= f.size[last] && Total(w0) >= Fib(f.size[i] + 2)
    {
      NotEmpty(w0, f.size, |w0|, i, if i == u then last else u);
      assert HeavyAt(f, i, f.owner[i]) && DeepAt(f, i, f.owner[i], f.owner[last], f.size[last]);
    }
    forall len: seq<nat>, n: nat | Feasible(w0, len, n) ensures Cost(w0, f.size) <= Cost(w0, len) {
      LowerBoundEnd(w0, spent, f.freq, len, n);
    }
  }

  /** The symbol the search finds among the first `n`. */
  lemma {:induction false} Lightest(w: Weights, skip: int, n: nat) returns (c: nat)
    requires n <= |w| && exists y :: 0 <= y < n && y != skip && w[y] > 0
    ensures c < n && c != skip && w[c] > 0
    ensures forall y :: 0 <= y < n && y != skip && y != c && w[y] > 0 ==> Precedes(w, c, y)
  {
    var m := n - 1;
    if exists y :: 0 <= y < m && y != skip && w[y] > 0 {
      c := Lightest(w, skip, m);
      if m != skip && 0 < w[m] <= w[c] {
        c := m;
      }
    } else {
      c := m;
    }
  }

  /** While there are two trees there are two to merge. */
  lemma SomeTwo(w: Weights, c: nat, d: nat) returns (a: nat, b: nat)
    requires c < |w| && d < |w| && c != d && w[c] > 0 && w[d] > 0
    ensures FirstTwo(w, a, b)
  {
    a := Lightest(w, -1, |w|);
    b := Lightest(w, a, |w|);
  }

  /** Huffman's procedure, carried through, is optimal. */
  lemma {:induction false} SizesOptimal(w0: Weights, f: Forest, spent: nat, u: nat)
    requires Grown(w0, f, spent) && u < |w0| - 1 && w0[u] > 0
    ensures Optimal(w0, SizesFrom(w0, f, spent))
    decreases Alive(f.freq)
  {
    hide Optimal, Chained, Weighed, Full, Heavy, LastDeepest, Cost, LowerBound, Joined, SizesFrom;
    var c := f.owner[u];
    if d: nat :| d < |w0| && d != c && f.freq[d] > 0 {
      var a, b := SomeTwo(f.freq, c, d);
      JoinedGrown(w0, f, spent, a, b);
      SizesJoined(w0, f, spent, a, b);
      JoinedOnce(w0, f, a, b);
      SizesOptimal(w0, Joined(w0, f, a, b), spent + f.freq[a] + f.freq[b], u);
    } else {
      OneTree(w0, f, spent, c);
      GrownOptimal(w0, f, spent, c, u);
    }
  }

  lemma JoinedOnce(w0: Weights, f: Forest, a: nat, b: nat)
    requires CanJoin(w0, f, a, b)
    ensures Joined(w0, f, a, b).freq == Merge(f.freq, a, b)
  {
  }

  lemma CodeSizesOptimal(w0: Weights)
    requires w0 != [] && w0[|w0| - 1] == 1 && exists u :: 0 <= u < |w0| - 1 && w0[u] > 0
    ensures Optimal(w0, CodeSizes(w0))
  {
    hide Optimal, Grown, SizesFrom;
    SeedlingsGrown(w0);
    var u :| 0 <= u < |w0| - 1 && w0[u] > 0;
    SizesOptimal(w0, Seedlings(w0), 0, u);
  }

  /** With the pseudo-symbol alone no symbol has a code. */
  lemma NothingCoded(w0: Weights)
    requires w0 != [] && w0[|w0| - 1] == 1 && forall u :: 0 <= u < |w0| - 1 ==> w0[u] == 0
    ensures CodeSizes(w0) == seq(|w0|, _ => 0)
  {
    hide Grown;
    SeedlingsGrown(w0);
    OneTree(w0, Seedlings(w0), 0, |w0| - 1);
  }
}
