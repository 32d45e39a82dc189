/** Dimensions in blocks and MCUs: `initial_setup` and `per_scan_setup` (`jcmaster.c`). */
module Geometry {
  import opened Wrappers

  const BLOCK_SIZE := 8
  const MAX_SAMP_FACTOR := 4
  const C_MAX_BLOCKS_IN_MCU := 10

  // ---------------------------------------------------------------- rounding up

  /** `jdiv_round_up`. */
  function DivRoundUp(a: nat, b: nat): nat
    requires b > 0
  {
    (a + b - 1) / b
  }

  /** `jround_up`. */
  function RoundUp(a: nat, b: nat): nat
    requires b > 0
  {
    a + b - 1 - (a + b - 1) % b
  }

  /** The quotient rounded up is the least number that is large enough. */
  lemma DivRoundUpLeast(a: nat, b: nat, q: nat)
    requires b > 0
    ensures DivRoundUp(a, b) <= q <==> a <= q * b
  {
    var d := DivRoundUp(a, b);
    assert d * b <= a + b - 1 < d * b + b;
    if d <= q {
      assert d * b <= q * b;
    } else {
      assert (q + 1) * b <= d * b;
    }
  }

  /** `ceil(ceil(a * h / m) / h) = ceil(a / m)`: whole MCUs over a component are whole MCUs over the
      image. */
  lemma NestedRoundUp(a: nat, h: nat, m: nat)
    requires h > 0 && m > 0
    ensures DivRoundUp(DivRoundUp(a * h, m), h) == DivRoundUp(a, m)
  {
    var l, r := DivRoundUp(DivRoundUp(a * h, m), h), DivRoundUp(a, m);
    NestedAtMost(a, h, m, l);
    NestedAtMost(a, h, m, r);
    DivRoundUpLeast(a, m, l);
    DivRoundUpLeast(a, m, r);
  }

  lemma NestedAtMost(a: nat, h: nat, m: nat, q: nat)
    requires h > 0 && m > 0
    ensures DivRoundUp(DivRoundUp(a * h, m), h) <= q <==> a <= q * m
  {
    DivRoundUpLeast(DivRoundUp(a * h, m), h, q);
    DivRoundUpLeast(a * h, m, q * h);
    Cancel(a, h, q * m);
    assert q * h * m == q * m * h;
  }

  lemma Cancel(a: nat, h: nat, b: nat)
    requires h > 0
    ensures a * h <= b * h <==> a <= b
  {
    if a <= b {
      assert a * h <= b * h;
    } else {
      assert (b + 1) * h <= a * h;
    }
  }

  /** `a * b`, one step at a time. */
  function Times(a: nat, b: nat): nat { if a == 0 then 0 else Times(a - 1, b) + b }

  lemma {:induction false} TimesProduct(a: nat, b: nat)
    ensures Times(a, b) == a * b
  {
    if a > 0 {
      TimesProduct(a - 1, b);
      assert a * b == (a - 1) * b + b;
    }
  }

  lemma {:induction false} TimesMono(a: nat, c: nat, b: nat)
    requires a <= c
    ensures Times(a, b) <= Times(c, b)
  {
    if a < c {
      TimesMono(a, c - 1, b);
    }
  }

  /** How much of the last of `n` cells of size `h` is used by `w`. */
  function LastPart(w: nat, h: nat): (r: nat)
    requires h > 0
  {
    if w % h == 0 then h else w % h
  }

  lemma LastPartFits(w: nat, h: nat, n: nat)
    requires h > 0 && w > 0 && n == DivRoundUp(w, h)
    ensures n > 0 && Times(n - 1, h) + LastPart(w, h) == w && 1 <= LastPart(w, h) <= h
    ensures RoundUp(w, h) == Times(n, h)
  {
    DivRoundUpLeast(w, h, n);
    DivRoundUpLeast(w, h, 0);
    DivRoundUpLeast(w, h, n - 1);
    TimesProduct(n - 1, h);
    TimesProduct(n, h);
    var p := w - (n - 1) * h;
    assert n * h == (n - 1) * h + h;
    if p == h {
      ModOf(n, 0, h);
    } else {
      ModOf(n - 1, p, h);
    }
    ModOf(n, p - 1, h);
  }

  lemma ModOf(q: nat, r: nat, h: nat)
    requires r < h
    ensures (q * h + r) % h == r
  {
    var x := q * h + r;
    var d := x / h - q;
    assert d * h == (x / h) * h - q * h;
    assert d > 0 ==> d * h >= h;
    assert d < 0 ==> d * h <= 0 - h;
  }

  lemma TimesNext(a: nat, b: nat)
    ensures Times(a + 1, b) == Times(a, b) + b
  {
  }

  lemma CellOf(col: nat, x: nat, w: nat)
    requires x < w
    ensures (col * w + x) / w == col
  {
    ModOf(col, x, w);
    var n := col * w + x;
    var d := n / w - col;
    assert d * w == (n / w) * w - col * w == 0;
    assert d > 0 ==> d * w >= w;
    assert d < 0 ==> d * w <= 0 - w;
  }

  // ---------------------------------------------------------------- the frame

  /** Sampling factors of a component. */
  datatype Component = Component(h: nat, v: nat)

  /** The image, its components, and the largest sampling factors. */
  datatype Frame = Frame(width: nat, height: nat, comps: seq<Component>, maxH: nat, maxV: nat) {
    ghost predicate Valid() {
      && width > 0 && height > 0 && comps != [] && maxH > 0 && maxV > 0
      && (forall c :: 0 <= c < |comps| ==> 0 < comps[c].h <= maxH && 0 < comps[c].v <= maxV)
      && maxH <= MAX_SAMP_FACTOR && maxV <= MAX_SAMP_FACTOR
    }

    function WidthInBlocks(c: nat): nat
      requires c < |comps| && maxH > 0
    {
      DivRoundUp(width * comps[c].h, maxH * BLOCK_SIZE)
    }

    function HeightInBlocks(c: nat): nat
      requires c < |comps| && maxV > 0
    {
      DivRoundUp(height * comps[c].v, maxV * BLOCK_SIZE)
    }

    /** MCUs across an interleaved scan. */
    function MCUsAcross(): nat
      requires maxH > 0
    {
      DivRoundUp(width, maxH * BLOCK_SIZE)
    }

    function TotalIMcuRows(): nat
      requires maxV > 0
    {
      DivRoundUp(height, maxV * BLOCK_SIZE)
    }

    /** Non-dummy block columns of the last MCU, and non-dummy block rows of the last iMCU row. */
    function LastCol(c: nat): nat
      requires c < |comps| && maxH > 0 && comps[c].h > 0
    {
      LastPart(WidthInBlocks(c), comps[c].h)
    }

    function LastRow(c: nat): nat
      requires c < |comps| && maxV > 0 && comps[c].v > 0
    {
      LastPart(HeightInBlocks(c), comps[c].v)
    }
  }

  /** Every component is cut into the same number of MCU columns and rows, of which only the last are
      incomplete. */
  lemma ComponentGrid(f: Frame, c: nat)
    requires f.Valid() && c < |f.comps|
    ensures f.MCUsAcross() > 0 && f.TotalIMcuRows() > 0
    ensures Times(f.MCUsAcross() - 1, f.comps[c].h) + f.LastCol(c) == f.WidthInBlocks(c)
    ensures Times(f.TotalIMcuRows() - 1, f.comps[c].v) + f.LastRow(c) == f.HeightInBlocks(c)
    ensures 1 <= f.LastCol(c) <= f.comps[c].h && 1 <= f.LastRow(c) <= f.comps[c].v
    ensures RoundUp(f.WidthInBlocks(c), f.comps[c].h) == Times(f.MCUsAcross(), f.comps[c].h)
    ensures RoundUp(f.HeightInBlocks(c), f.comps[c].v) == Times(f.TotalIMcuRows(), f.comps[c].v)
  {
    hide DivRoundUp, RoundUp, Times, LastPart;
    var h, v := f.comps[c].h, f.comps[c].v;
    NestedRoundUp(f.width, h, f.maxH * BLOCK_SIZE);
    NestedRoundUp(f.height, v, f.maxV * BLOCK_SIZE);
    SomeBlocks(f.width, h, f.maxH * BLOCK_SIZE);
    SomeBlocks(f.height, v, f.maxV * BLOCK_SIZE);
    LastPartFits(f.WidthInBlocks(c), h, f.MCUsAcross());
    LastPartFits(f.HeightInBlocks(c), v, f.TotalIMcuRows());
  }

  /** Components are as many blocks of 8 by 8 samples wide and high as cover them, and no more; and the image as many
      MCUs. */
  lemma LeastBlocks(f: Frame, c: nat)
    requires f.Valid() && c < |f.comps|
    ensures (f.WidthInBlocks(c) - 1) * (8 * f.maxH) < f.width * f.comps[c].h <= f.WidthInBlocks(c) * (8 * f.maxH)
    ensures (f.HeightInBlocks(c) - 1) * (8 * f.maxV) < f.height * f.comps[c].v <= f.HeightInBlocks(c) * (8 * f.maxV)
    ensures (f.MCUsAcross() - 1) * (8 * f.maxH) < f.width <= f.MCUsAcross() * (8 * f.maxH)
    ensures (f.TotalIMcuRows() - 1) * (8 * f.maxV) < f.height <= f.TotalIMcuRows() * (8 * f.maxV)
  {
    hide DivRoundUp;
    LeastCover(f.width * f.comps[c].h, f.maxH * BLOCK_SIZE);
    LeastCover(f.height * f.comps[c].v, f.maxV * BLOCK_SIZE);
    LeastCover(f.width, f.maxH * BLOCK_SIZE);
    LeastCover(f.height, f.maxV * BLOCK_SIZE);
  }

  lemma LeastCover(a: nat, b: nat)
    requires b > 0
    ensures a <= DivRoundUp(a, b) * b && (a > 0 ==> (DivRoundUp(a, b) - 1) * b < a)
  {
    hide DivRoundUp;
    var q := DivRoundUp(a, b);
    DivRoundUpLeast(a, b, q);
    if q > 0 {
      DivRoundUpLeast(a, b, q - 1);
    }
  }

  lemma SomeBlocks(a: nat, h: nat, m: nat)
    requires a > 0 && h > 0 && m > 0
    ensures DivRoundUp(a * h, m) > 0
  {
    DivRoundUpLeast(a * h, m, 0);
    assert a * h >= h;
  }

  /** `initial_setup`, the part that looks at sampling factors: rejects factors outside 1 to 4. */
  method InitialSetup(width: nat, height: nat, comps: seq<Component>) returns (r: Option<Frame>)
    ensures r.Some? <==> width > 0 && height > 0 && comps != [] && forall c :: 0 <= c < |comps| ==>
      1 <= comps[c].h <= 4 && 1 <= comps[c].v <= 4
    ensures r.Some? ==> r.value.Valid() && r.value.width == width && r.value.height == height && r.value.comps == comps
    ensures r.Some? ==> exists c :: 0 <= c < |comps| && comps[c].h == r.value.maxH
    ensures r.Some? ==> exists c :: 0 <= c < |comps| && comps[c].v == r.value.maxV
  {
    if width == 0 || height == 0 || comps == [] {
      return None;
    }
    var maxH, maxV := 1, 1;
    for ci := 0 to |comps|
      invariant forall c :: 0 <= c < ci ==> 0 < comps[c].h <= maxH && 0 < comps[c].v <= maxV
      invariant 1 <= maxH <= MAX_SAMP_FACTOR && 1 <= maxV <= MAX_SAMP_FACTOR
      invariant (ci == 0 && maxH == 1) || exists c :: 0 <= c < ci && comps[c].h == maxH
      invariant (ci == 0 && maxV == 1) || exists c :: 0 <= c < ci && comps[c].v == maxV
    {
      if comps[ci].h <= 0 || comps[ci].h > MAX_SAMP_FACTOR || comps[ci].v <= 0 || comps[ci].v > MAX_SAMP_FACTOR {
        return None;
      }
      if comps[ci].h > maxH {
        maxH := comps[ci].h;
      }
      if comps[ci].v > maxV {
        maxV := comps[ci].v;
      }
    }
    return Some(Frame(width, height, comps, maxH, maxV));
  }
}
