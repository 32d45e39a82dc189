/** Bit strings, most significant bit first, shifts, and the magnitude categories of
    section F.1.2.1 of ITU-T T.81. */
module BitStrings {

  type Bits = seq<bool>

  type Byte = n: nat | n < 256

  function Pow2(n: nat): (p: nat)
    ensures p >= 1
  {
    if n == 0 then 1 else 2 * Pow2(n - 1)
  }

  /** `x << k`, without a width limit. */
  function Shl(x: nat, k: nat): nat
  {
    if k == 0 then x else 2 * Shl(x, k - 1)
  }

  /** `x >> k`, rounding toward minus infinity. */
  function Shr(x: int, k: nat): (r: int)
    ensures x >= 0 ==> r >= 0
    decreases k
  {
    if k == 0 then x else Shr(x, k - 1) / 2
  }

  /** The low `n` bits of the two's complement representation of `v`. */
  function BitsOf(v: int, n: nat): (s: Bits)
    ensures |s| == n
    decreases n
  {
    if n == 0 then [] else BitsOf(v / 2, n - 1) + [v % 2 == 1]
  }

  /** The unsigned number a bit string denotes. */
  function Val(s: Bits): nat
  {
    if s == [] then 0 else 2 * Val(s[..|s| - 1]) + (if s[|s| - 1] then 1 else 0)
  }

  // ---------------------------------------------------------------- shifts

  lemma {:induction false} ShlAdd(x: nat, a: nat, b: nat)
    ensures Shl(x, a + b) == Shl(Shl(x, a), b)
  {
    if b != 0 {
      ShlAdd(x, a, b - 1);
    }
  }

  lemma ShlOne(k: nat)
    ensures Shl(1, k) == Pow2(k)
  {
    ShlPow2(0, k);
  }

  lemma ShiftNext(x: nat, v: int, k: nat)
    ensures Shl(x, k + 1) == 2 * Shl(x, k) && Shr(v, k + 1) == Shr(v, k) / 2
  {
  }

  lemma {:induction false} ShlZero(k: nat)
    ensures Shl(0, k) == 0
  {
    if k != 0 {
      ShlZero(k - 1);
    }
  }

  lemma {:induction false} ShlMono(x: nat, y: nat, k: nat)
    requires x <= y
    ensures Shl(x, k) <= Shl(y, k)
  {
    if k != 0 {
      ShlMono(x, y, k - 1);
    }
  }

  lemma {:induction false} ShlSum(x: nat, y: nat, k: nat)
    ensures Shl(x + y, k) == Shl(x, k) + Shl(y, k)
  {
    if k != 0 {
      ShlSum(x, y, k - 1);
    }
  }

  lemma {:induction false} ShlPow2(n: nat, k: nat)
    ensures Shl(Pow2(n), k) == Pow2(n + k)
  {
    if k != 0 {
      ShlPow2(n, k - 1);
    }
  }

  /** Shifting back what was shifted up loses nothing, for either sign. */
  lemma {:induction false} ShrShl(x: nat, k: nat)
    ensures Shr(Shl(x, k), k) == x && Shr(0 - Shl(x, k), k) + x == 0
    decreases k
  {
    if k != 0 {
      ShlAdd(x, 1, k - 1);
      assert Shl(x, 1) == 2 * x;
      ShrShl(2 * x, k - 1);
    }
  }

  lemma {:induction false} ShrAtLeast(x: nat, a: nat, k: nat)
    requires x >= Shl(a, k)
    ensures Shr(x, k) >= a
    decreases k
  {
    if k != 0 {
      ShlAdd(a, 1, k - 1);
      assert Shl(a, 1) == 2 * Shl(a, 0);
      ShrAtLeast(x, 2 * a, k - 1);
    }
  }

  lemma {:induction false} Pow2Mono(a: nat, b: nat)
    requires a <= b
    ensures Pow2(a) <= Pow2(b)
  {
    if a < b {
      Pow2Mono(a, b - 1);
    }
  }

  // ---------------------------------------------------------------- numbers and bit strings

  lemma {:induction false} ValBound(s: Bits)
    ensures Val(s) < Pow2(|s|)
  {
    if s != [] {
      ValBound(s[..|s| - 1]);
    }
  }

  /** A number that fits is recovered from its bits; a negative one comes back as its two's complement. */
  lemma {:induction false} ValBitsOf(v: int, n: nat)
    requires 0 <= v + Pow2(n) && v < Pow2(n)
    ensures Val(BitsOf(v, n)) == if v < 0 then v + Pow2(n) else v
    decreases n
  {
    if n != 0 {
      ValBitsOf(v / 2, n - 1);
      var s := BitsOf(v, n);
      assert s[..|s| - 1] == BitsOf(v / 2, n - 1);
    }
  }

  lemma {:induction false} BitsOfVal(s: Bits)
    ensures BitsOf(Val(s), |s|) == s
  {
    if s != [] {
      BitsOfVal(s[..|s| - 1]);
      assert s == s[..|s| - 1] + [s[|s| - 1]];
    }
  }

  lemma {:induction false} ValConcat(a: Bits, b: Bits)
    ensures Val(a + b) == Shl(Val(a), |b|) + Val(b)
  {
    if b == [] {
      assert a + b == a;
    } else {
      var b' := b[..|b| - 1];
      assert (a + b)[..|a + b| - 1] == a + b';
      assert (a + b)[|a + b| - 1] == b[|b| - 1];
      ValConcat(a, b');
    }
  }

  /** Dropping the last `k` bits shifts right by `k`. */
  lemma {:induction false} ValPrefix(s: Bits, k: nat)
    requires k <= |s|
    ensures Val(s[..|s| - k]) == Shr(Val(s), k)
  {
    if k == 0 {
      assert s[..|s|] == s;
    } else {
      ValPrefix(s, k - 1);
      var s' := s[..|s| - (k - 1)];
      assert s'[..|s'| - 1] == s[..|s| - k];
    }
  }

  // ---------------------------------------------------------------- magnitude categories

  /** The magnitude category: how many bits the binary form of `v` has. */
  function NBits(v: nat): nat
  {
    if v == 0 then 0 else 1 + NBits(v / 2)
  }

  lemma {:induction false} NBitsBounds(v: nat)
    ensures v < Pow2(NBits(v))
    ensures v > 0 ==> Pow2(NBits(v) - 1) <= v
  {
    if v != 0 {
      NBitsBounds(v / 2);
    }
  }

  lemma {:induction false} NBitsAtMost(v: nat, n: nat)
    ensures NBits(v) <= n <==> v < Pow2(n)
  {
    if v != 0 && n != 0 {
      NBitsAtMost(v / 2, n - 1);
    }
  }

  function Abs(v: int): nat { if v < 0 then -v else v }

  /** The appended bits of a coefficient or difference `v`: its low bits when positive,
      the low bits of `v - 1` (the complement of its magnitude) when negative. */
  function MagnitudeBits(v: int): Bits
  {
    BitsOf(if v < 0 then v - 1 else v, NBits(Abs(v)))
  }

  /** EXTEND of figure F.12: the signed value of `s` appended bits with value `r`. */
  function Extend(r: nat, s: nat): int
    requires s > 0
  {
    if r < Pow2(s - 1) then r - Pow2(s) + 1 else r
  }

  /** EXTEND undoes the encoder's choice of appended bits. */
  lemma ExtendMagnitude(v: int)
    requires v != 0
    ensures NBits(Abs(v)) > 0
    ensures Extend(Val(MagnitudeBits(v)), NBits(Abs(v))) == v
  {
    var n := NBits(Abs(v));
    NBitsBounds(Abs(v));
    ValBitsOf(if v < 0 then v - 1 else v, n);
    assert Pow2(n) == 2 * Pow2(n - 1);
  }
}
