/** Huffman tables: the canonical codes of Annex C of ITU-T T.81 as `jchuff.c` derives them,
    and the bit-by-bit decoding of figure F.16 as `jdhuff.c` performs it. */
module HuffmanTables {
  import opened Wrappers
  import opened BitStrings

  const NUM_HUFF_TBLS := 4

  /** JHUFF_TBL: `bits[l]` is the number of codes of length `l` (entry 0 is unused), and
      `vals` lists the symbols in order of increasing code length. */
  datatype HuffTable = HuffTable(bits: seq<Byte>, vals: seq<Byte>) {
    ghost predicate Typed() { |bits| == 17 && |vals| == 256 }
  }

  // ---------------------------------------------------------------- code lengths (figure C.1)

  /** The code lengths, in order, of all codes of length at most `l`. */
  function Sizes(bits: seq<nat>, l: nat): (s: seq<nat>)
    requires l < |bits|
    ensures forall p :: 0 <= p < |s| ==> 1 <= s[p] <= l
  {
    if l == 0 then [] else Sizes(bits, l - 1) + seq(bits[l], _ => l)
  }

  /** The number of codes shorter than `l`. */
  function First(bits: seq<nat>, l: nat): nat
    requires 1 <= l <= |bits|
  {
    |Sizes(bits, l - 1)|
  }

  lemma {:induction false} SizesPrefix(bits: seq<nat>, l: nat, m: nat)
    requires l <= m < |bits|
    ensures Sizes(bits, l) <= Sizes(bits, m)
    decreases m
  {
    if l < m {
      SizesPrefix(bits, l, m - 1);
    }
  }

  lemma {:induction false} SizesSorted(bits: seq<nat>, l: nat, p: nat, q: nat)
    requires l < |bits|
    requires p <= q < |Sizes(bits, l)|
    ensures Sizes(bits, l)[p] <= Sizes(bits, l)[q]
  {
    if l != 0 && q < |Sizes(bits, l - 1)| {
      SizesSorted(bits, l - 1, p, q);
    }
  }

  /** The codes of length `k` occupy one block of positions. */
  lemma {:induction false} SizesBlock(bits: seq<nat>, l: nat, k: nat, p: nat)
    requires 1 <= k <= l < |bits|
    requires p < |Sizes(bits, l)|
    ensures First(bits, k) + bits[k] <= |Sizes(bits, l)|
    ensures Sizes(bits, l)[p] == k <==> First(bits, k) <= p < First(bits, k) + bits[k]
    decreases l
  {
    if k < l {
      SizesPrefix(bits, k, l - 1);
      if p < |Sizes(bits, l - 1)| {
        SizesBlock(bits, l - 1, k, p);
      }
    }
  }

  // ---------------------------------------------------------------- the codes (figure C.2)

  ghost predicate Ascending(sizes: seq<nat>) {
    forall p, q :: 0 <= p <= q < |sizes| ==> sizes[p] <= sizes[q]
  }

  /** The code at position `p`: one more than its predecessor, extended to its own length. */
  function Code(sizes: seq<nat>, p: nat): nat
    requires p < |sizes|
  {
    if p == 0 then 0
    else if sizes[p] < sizes[p - 1] then 0
    else Shl(Code(sizes, p - 1) + 1, sizes[p] - sizes[p - 1])
  }

  /** No code fills its length with ones, let alone overflows it. */
  ghost predicate Fits(sizes: seq<nat>) {
    FitsUpTo(sizes, |sizes|)
  }

  ghost predicate FitsUpTo(sizes: seq<nat>, n: nat)
    requires n <= |sizes|
  {
    forall p :: 0 <= p < n ==> CodeFits(sizes, p)
  }

  ghost predicate CodeFits(sizes: seq<nat>, p: nat)
    requires p < |sizes|
  {
    Code(sizes, p) + 1 < Pow2(sizes[p])
  }

  /** The code at position `p` as a bit string. */
  function CodeAt(sizes: seq<nat>, p: nat): Bits
    requires p < |sizes|
  {
    BitsOf(Code(sizes, p), sizes[p])
  }

  /** A later code, cut to the length of an earlier one, is strictly larger. */
  lemma {:induction false} CodeGap(sizes: seq<nat>, p: nat, q: nat)
    requires Ascending(sizes)
    requires p < q < |sizes|
    ensures Code(sizes, q) >= Shl(Code(sizes, p) + 1, sizes[q] - sizes[p])
  {
    if p < q - 1 {
      CodeGap(sizes, p, q - 1);
      var d, e := sizes[q] - sizes[q - 1], sizes[q - 1] - sizes[p];
      ShlAdd(Code(sizes, p) + 1, e, d);
      ShlMono(Shl(Code(sizes, p) + 1, e), Code(sizes, q - 1) + 1, d);
    }
  }

  /** Codes of the same length are consecutive. */
  lemma {:induction false} CodeRun(sizes: seq<nat>, p: nat, q: nat)
    requires p <= q < |sizes|
    requires Ascending(sizes) && sizes[p] == sizes[q]
    ensures Code(sizes, q) == Code(sizes, p) + (q - p)
  {
    if p < q {
      assert sizes[p] <= sizes[q - 1] <= sizes[q];
      CodeRun(sizes, p, q - 1);
    }
  }

  // ---------------------------------------------------------------- acceptance and derived codes

  function AllSizes(t: HuffTable): (s: seq<nat>)
    requires t.Typed()
  {
    Sizes(t.bits, 16)
  }

  lemma AllSizesAscending(t: HuffTable)
    requires t.Typed()
    ensures Ascending(AllSizes(t))
  {
    forall p, q | 0 <= p <= q < |AllSizes(t)| ensures AllSizes(t)[p] <= AllSizes(t)[q] {
      SizesSorted(t.bits, 16, p, q);
    }
  }

  ghost predicate GoodSymbols(vals: seq<Byte>, isDC: bool, n: nat)
    requires n <= |vals|
  {
    && (forall p :: 0 <= p < n ==> vals[p] <= (if isDC then 15 else 255))
    && (forall p, q :: 0 <= p < q < n ==> vals[p] != vals[q])
  }

  /** What `jpeg_make_c_derived_tbl` checks: room for the symbols, codes that fit, and distinct
      symbols in range. */
  ghost predicate Accepted(t: HuffTable, isDC: bool)
    requires t.Typed()
  {
    && |AllSizes(t)| <= 256
    && Fits(AllSizes(t))
    && GoodSymbols(t.vals, isDC, |AllSizes(t)|)
  }

  /** A derived table: code and code length of every symbol, length 0 for a symbol without code. */
  datatype Derived = Derived(code: seq<nat>, size: seq<nat>) {
    ghost predicate Typed() { |code| == 256 && |size| == 256 }

    predicate HasCode(s: nat) { s < |size| && size[s] != 0 }

    function CodeBits(s: nat): Bits
      requires s < |code| && s < |size|
    {
      BitsOf(code[s], size[s])
    }
  }

  /** The symbol listed at position `p` has the code of that position. */
  ghost predicate EntryAt(sizes: seq<nat>, vals: seq<Byte>, d: Derived, p: nat)
    requires d.Typed() && p < |sizes| && p < |vals|
  {
    d.size[vals[p]] == sizes[p] && d.code[vals[p]] == Code(sizes, p)
  }

  /** The first `n` listed symbols have the codes of their positions, every other has none. */
  ghost predicate DerivedFrom(sizes: seq<nat>, vals: seq<Byte>, d: Derived, n: nat)
    requires n <= |sizes| && n <= |vals|
  {
    && d.Typed()
    && (forall p :: 0 <= p < n ==> EntryAt(sizes, vals, d, p))
    && OthersUncoded(vals, d, n)
  }

  /** Symbols other than the first `n` have no code. */
  ghost predicate OthersUncoded(vals: seq<Byte>, d: Derived, n: nat)
    requires d.Typed() && n <= |vals|
  {
    forall s :: 0 <= s < 256 && s !in vals[..n] ==> d.size[s] == 0
  }

  ghost predicate IsDerived(t: HuffTable, isDC: bool, d: Derived) {
    t.Typed() && Accepted(t, isDC) && DerivedFrom(AllSizes(t), t.vals, d, |AllSizes(t)|)
  }

  lemma PositionOf(t: HuffTable, isDC: bool, d: Derived, s: nat) returns (p: nat)
    requires IsDerived(t, isDC, d) && d.HasCode(s)
    ensures p < |AllSizes(t)| && t.vals[p] == s
    ensures d.size[s] == AllSizes(t)[p] && d.code[s] == Code(AllSizes(t), p)
  {
    assert s in t.vals[..|AllSizes(t)|];
    p :| 0 <= p < |AllSizes(t)| && t.vals[p] == s;
    assert EntryAt(AllSizes(t), t.vals, d, p);
  }

  /** Codes are as long as announced, at most 16 bits, and never all ones. */
  lemma CodeShape(t: HuffTable, isDC: bool, d: Derived, s: nat)
    requires IsDerived(t, isDC, d) && d.HasCode(s)
    ensures 1 <= |d.CodeBits(s)| <= 16
    ensures Val(d.CodeBits(s)) == d.code[s]
    ensures false in d.CodeBits(s)
  {
    var p := PositionOf(t, isDC, d, s);
    assert CodeFits(AllSizes(t), p);
    ValBitsOf(d.code[s], d.size[s]);
    if false !in d.CodeBits(s) {
      ValOnes(d.CodeBits(s));
    }
  }

  lemma {:induction false} ValOnes(s: Bits)
    requires false !in s
    ensures Val(s) == Pow2(|s|) - 1
  {
    if s != [] {
      ValOnes(s[..|s| - 1]);
      assert s[|s| - 1] in s;
    }
  }

  /** A number at or past the successor of `a`, extended by `k` bits, does not begin with `a`. */
  lemma BitsDiffer(a: nat, n: nat, b: nat, k: nat)
    requires a < Pow2(n) && b < Pow2(n + k) && b >= Shl(a + 1, k)
    ensures Val(BitsOf(b, n + k)[..n]) > a
    ensures BitsOf(b, n + k)[..n] != BitsOf(a, n)
  {
    ValBitsOf(a, n);
    ValBitsOf(b, n + k);
    ValPrefix(BitsOf(b, n + k), k);
    ShrAtLeast(b, a + 1, k);
  }

  /** Codes at different positions: neither is a prefix of the other. */
  lemma PositionsPrefixFree(sizes: seq<nat>, p: nat, q: nat)
    requires Ascending(sizes) && Fits(sizes) && p < q < |sizes|
    ensures !(CodeAt(sizes, p) <= CodeAt(sizes, q)) && !(CodeAt(sizes, q) <= CodeAt(sizes, p))
  {
    var m, n := sizes[p], sizes[q];
    assert CodeFits(sizes, p) && CodeFits(sizes, q);
    CodeGap(sizes, p, q);
    BitsDiffer(Code(sizes, p), m, Code(sizes, q), n - m);
  }

  /** No code is a prefix of the code of another symbol. */
  lemma PrefixFree(t: HuffTable, isDC: bool, d: Derived, a: nat, b: nat)
    requires IsDerived(t, isDC, d) && d.HasCode(a) && d.HasCode(b)
    ensures d.CodeBits(a) <= d.CodeBits(b) ==> a == b
  {
    var p := PositionOf(t, isDC, d, a);
    var q := PositionOf(t, isDC, d, b);
    AllSizesAscending(t);
    if p < q {
      PositionsPrefixFree(AllSizes(t), p, q);
    } else if q < p {
      PositionsPrefixFree(AllSizes(t), q, p);
    }
  }

  // ---------------------------------------------------------------- decoding (figure F.16)

  /** The largest code of length `l`, or -1 when there is none. */
  function MaxCode(t: HuffTable, l: nat): int
    requires t.Typed() && 1 <= l <= 16
  {
    if t.bits[l] == 0 then -1
    else
      SizesPrefix(t.bits, l, 16);
      Code(AllSizes(t), First(t.bits, l) + t.bits[l] - 1)
  }

  /** The position of the first code of length `l`, less that code. */
  function ValOffset(t: HuffTable, l: nat): int
    requires t.Typed() && 1 <= l <= 16 && t.bits[l] != 0
  {
    SizesPrefix(t.bits, l, 16);
    First(t.bits, l) - Code(AllSizes(t), First(t.bits, l))
  }

  /** Having read the `l` bits whose value is `code`, read on until they form a code. */
  function DecodeLoop(t: HuffTable, code: nat, l: nat, bits: Bits): Option<(nat, Bits)>
    requires t.Typed() && l >= 1
    decreases |bits|
  {
    if l > 16 then None
    else if code > MaxCode(t, l) then
      if bits == [] then None
      else DecodeLoop(t, 2 * code + (if bits[0] then 1 else 0), l + 1, bits[1..])
    else
      var i := code + ValOffset(t, l);
      if 0 <= i < |t.vals| then Some((t.vals[i], bits)) else None
  }

  function DecodeSymbol(t: HuffTable, bits: Bits): Option<(nat, Bits)>
    requires t.Typed()
  {
    if bits == [] then None
    else DecodeLoop(t, if bits[0] then 1 else 0, 1, bits[1..])
  }

  /** The first `l` bits of a longer code exceed every code of length `l`. */
  lemma TooLongYet(t: HuffTable, p: nat, l: nat)
    requires t.Typed() && Fits(AllSizes(t))
    requires p < |AllSizes(t)| && 1 <= l < AllSizes(t)[p]
    ensures Val(CodeAt(AllSizes(t), p)[..l]) > MaxCode(t, l)
  {
    hide Code, CodeAt, Val, Sizes, First, Ascending, Fits;
    if t.bits[l] != 0 {
      var q := First(t.bits, l) + t.bits[l] - 1;
      SizesBlock(t.bits, 16, l, p);
      SizesBlock(t.bits, 16, l, q);
      AllSizesAscending(t);
      ShorterIsSmaller(AllSizes(t), q, p);
    }
  }

  lemma ShorterIsSmaller(sizes: seq<nat>, q: nat, p: nat)
    requires Ascending(sizes) && Fits(sizes)
    requires p < |sizes| && q < |sizes| && sizes[q] < sizes[p]
    ensures Val(CodeAt(sizes, p)[..sizes[q]]) > Code(sizes, q)
  {
    hide Code, Val, BitsOf, Shl, Pow2;
    assert CodeFits(sizes, p) && CodeFits(sizes, q);
    CodeGap(sizes, q, p);
    BitsDiffer(Code(sizes, q), sizes[q], Code(sizes, p), sizes[p] - sizes[q]);
  }

  /** At its own length a code is recognised, and its offset is its position. */
  lemma CodeFound(t: HuffTable, p: nat)
    requires t.Typed() && p < |AllSizes(t)|
    ensures var n := AllSizes(t)[p];
      t.bits[n] != 0 && Code(AllSizes(t), p) <= MaxCode(t, n) && Code(AllSizes(t), p) + ValOffset(t, n) == p
  {
    var sizes := AllSizes(t);
    var n := sizes[p];
    AllSizesAscending(t);
    SizesBlock(t.bits, 16, n, p);
    var f := First(t.bits, n);
    var q := f + t.bits[n] - 1;
    SizesBlock(t.bits, 16, n, q);
    SizesBlock(t.bits, 16, n, f);
    CodeRun(sizes, p, q);
    CodeRun(sizes, f, p);
  }

  lemma OneMoreBit(t: HuffTable, c: Bits, l: nat, rest: Bits)
    requires t.Typed() && 1 <= l < |c| <= 16 && Val(c[..l]) > MaxCode(t, l)
    ensures DecodeLoop(t, Val(c[..l]), l, c[l..] + rest) == DecodeLoop(t, Val(c[..l + 1]), l + 1, c[l + 1..] + rest)
  {
    hide MaxCode;
    var bs := c[l..] + rest;
    assert bs[0] == c[l] && bs[1..] == c[l + 1..] + rest;
    assert c[..l + 1][..l] == c[..l];
  }

  lemma WholeCode(t: HuffTable, p: nat, rest: Bits)
    requires t.Typed() && Fits(AllSizes(t)) && |AllSizes(t)| <= 256 && p < |AllSizes(t)|
    ensures DecodeLoop(t, Val(CodeAt(AllSizes(t), p)), AllSizes(t)[p], rest) == Some((t.vals[p], rest))
  {
    hide Val, MaxCode, ValOffset, Code, BitsOf, Pow2;
    assert CodeFits(AllSizes(t), p);
    ValBitsOf(Code(AllSizes(t), p), AllSizes(t)[p]);
    CodeFound(t, p);
  }

  lemma {:induction false} DecodeFromPrefix(t: HuffTable, p: nat, l: nat, rest: Bits)
    requires t.Typed() && Fits(AllSizes(t)) && |AllSizes(t)| <= 256
    requires p < |AllSizes(t)| && 1 <= l <= AllSizes(t)[p]
    ensures var c := CodeAt(AllSizes(t), p);
      DecodeLoop(t, Val(c[..l]), l, c[l..] + rest) == Some((t.vals[p], rest))
    decreases AllSizes(t)[p] - l
  {
    hide DecodeLoop, Val, MaxCode, Code, Sizes, FitsUpTo, BitsOf;
    var c := CodeAt(AllSizes(t), p);
    if l < AllSizes(t)[p] {
      TooLongYet(t, p, l);
      OneMoreBit(t, c, l, rest);
      DecodeFromPrefix(t, p, l + 1, rest);
    } else {
      assert c[..l] == c && c[l..] + rest == rest;
      WholeCode(t, p, rest);
    }
  }

  lemma DecodeCodeAt(t: HuffTable, p: nat, rest: Bits)
    requires t.Typed() && Fits(AllSizes(t)) && p < |AllSizes(t)| <= 256
    ensures DecodeSymbol(t, CodeAt(AllSizes(t), p) + rest) == Some((t.vals[p], rest))
  {
    var c := CodeAt(AllSizes(t), p);
    DecodeFromPrefix(t, p, 1, rest);
    assert (c + rest)[1..] == c[1..] + rest;
    assert c[..1] == [c[0]];
    assert c[..1][..0] == [];
  }

  /** Decoding inverts coding: the code of a symbol, whatever follows it, decodes to the symbol. */
  lemma DecodeInvertsCode(t: HuffTable, isDC: bool, d: Derived, s: nat, rest: Bits)
    requires IsDerived(t, isDC, d) && d.HasCode(s)
    ensures DecodeSymbol(t, d.CodeBits(s) + rest) == Some((s, rest))
  {
    var p := PositionOf(t, isDC, d, s);
    DecodeCodeAt(t, p, rest);
  }

  // ---------------------------------------------------------------- jpeg_make_c_derived_tbl

  /** The table a caller selects, if the number is legal and a table is installed. */
  function Selected(tables: seq<Option<HuffTable>>, tblno: int): Option<HuffTable>
  {
    if 0 <= tblno < NUM_HUFF_TBLS && tblno < |tables| then tables[tblno] else None
  }

  /** Figure C.1 in place: fills `huffsize` and returns how many codes there are, or fails when
      they would overrun the table. */
  method FillSizes(t: HuffTable, huffsize: array<nat>) returns (ok: bool, lastp: nat)
    requires t.Typed() && huffsize.Length == 257
    modifies huffsize
    ensures ok <==> |AllSizes(t)| <= 256
    ensures ok ==> lastp == |AllSizes(t)| && huffsize[..lastp] == AllSizes(t) && huffsize[lastp] == 0
  {
    var p := 0;
    for l := 1 to 17
      invariant 0 <= p <= 256
      invariant huffsize[..p] == Sizes(t.bits, l - 1)
    {
      var i: nat := t.bits[l];
      if p + i > 256 {
        SizesPrefix(t.bits, l, 16);
        return false, 0;
      }
      ghost var before := huffsize[..p];
      ghost var start := p;
      while i > 0
        invariant 0 <= i <= t.bits[l]
        invariant p + i == start + t.bits[l] <= 256
        invariant huffsize[..p] == before + seq(p - start, _ => l)
      {
        huffsize[p] := l;
        p := p + 1;
        i := i - 1;
      }
    }
    huffsize[p] := 0;
    return true, p;
  }

  /** The first `p` codes are in place. */
  ghost predicate CodesIn(huffcode: array<nat>, sizes: seq<nat>, p: nat)
    requires p <= |sizes| && p <= huffcode.Length
    reads huffcode
  {
    forall q :: 0 <= q < p ==> huffcode[q] == Code(sizes, q)
  }

  /** The inner loop of figure C.2: consecutive codes for all positions of length `si`. */
  method FillRun(huffsize: array<nat>, lastp: nat, huffcode: array<nat>, p0: nat, code0: nat, si: nat)
    returns (p: nat, code: nat)
    requires huffsize.Length == 257 && huffcode.Length == 257 && huffsize != huffcode
    requires p0 <= lastp <= 256 && huffsize[lastp] == 0 && si > 0
    requires CodesIn(huffcode, huffsize[..lastp], p0)
    requires p0 < lastp && huffsize[p0] == si ==> Code(huffsize[..lastp], p0) == code0
    modifies huffcode
    ensures p0 <= p <= lastp && huffsize[p] != si && code == code0 + (p - p0)
    ensures forall q :: p0 <= q < p ==> huffsize[q] == si
    ensures CodesIn(huffcode, huffsize[..lastp], p)
  {
    p, code := p0, code0;
    while huffsize[p] == si
      invariant p0 <= p <= lastp && code == code0 + (p - p0)
      invariant forall q :: p0 <= q < p ==> huffsize[q] == si
      invariant p < lastp && huffsize[p] == si ==> Code(huffsize[..lastp], p) == code
      invariant CodesIn(huffcode, huffsize[..lastp], p)
      decreases lastp - p
    {
      assert huffsize[..lastp][p] == si;
      huffcode[p] := code;
      if p + 1 < lastp && huffsize[p + 1] == si {
        assert huffsize[..lastp][p + 1] == si;
        assert Code(huffsize[..lastp], p + 1) == Shl(Code(huffsize[..lastp], p) + 1, 0);
      }
      p := p + 1;
      code := code + 1;
    }
  }

  /** Figure C.2 in place: fills `huffcode`, or fails when some length runs out of codes. */
  method FillCodes(huffsize: array<nat>, lastp: nat, huffcode: array<nat>) returns (ok: bool)
    requires huffsize.Length == 257 && huffcode.Length == 257 && huffsize != huffcode
    requires lastp <= 256 && huffsize[lastp] == 0
    requires Ascending(huffsize[..lastp]) && forall p :: 0 <= p < lastp ==> huffsize[p] > 0
    modifies huffcode
    ensures ok <==> Fits(huffsize[..lastp])
    ensures ok ==> forall p :: 0 <= p < lastp ==> huffcode[p] == Code(huffsize[..lastp], p)
  {
    hide Code, Pow2, Shl, CodeFits, Ascending;
    ghost var sizes := huffsize[..lastp];
    var code: nat := 0;
    var si := huffsize[0];
    var p := 0;
    while huffsize[p] != 0
      invariant 0 <= p <= lastp
      invariant NextCode(sizes, p, si, code)
      invariant CodesIn(huffcode, sizes, p)
      invariant FitsUpTo(sizes, p)
      decreases lastp - p, if p < lastp then huffsize[p] - si else 0
    {
      ghost var p0 := p;
      assert sizes[p] == huffsize[p];
      ghost var code0 := code;
      if huffsize[p] == si {
        NextIs(sizes, p, si, code);
      }
      p, code := FillRun(huffsize, lastp, huffcode, p, code, si);
      assert forall q :: 0 <= q < lastp ==> sizes[q] == huffsize[q];
      AfterRun(sizes, p0, p, si, code0);
      if code >= Pow2(si) {
        return false;
      }
      code := code * 2;
      si := si + 1;
    }
    return true;
  }

  /** State of figure C.2 before length `si`: the positions below `p` are done, and `code` is the
      next code, extended to length `si`. */
  ghost predicate NextCode(sizes: seq<nat>, p: nat, si: nat, code: nat)
    requires p <= |sizes|
  {
    && (p < |sizes| ==> si <= sizes[p])
    && (if p == 0 then code == 0 && (|sizes| > 0 ==> si == sizes[0])
        else sizes[p - 1] < si && code == Shl(Code(sizes, p - 1) + 1, si - sizes[p - 1]))
  }

  lemma NextIs(sizes: seq<nat>, p: nat, si: nat, code: nat)
    requires p < |sizes| && NextCode(sizes, p, si, code) && sizes[p] == si
    ensures Code(sizes, p) == code
  {
  }

  lemma AfterRun(sizes: seq<nat>, p0: nat, p: nat, si: nat, code0: nat)
    requires Ascending(sizes) && p0 <= p <= |sizes| && p0 < |sizes| && sizes[0] > 0
    requires NextCode(sizes, p0, si, code0) && FitsUpTo(sizes, p0)
    requires forall q :: p0 <= q < p ==> sizes[q] == si
    requires p < |sizes| ==> sizes[p] != si
    ensures si > 0 && p > 0
    ensures code0 + (p - p0) < Pow2(si) ==>
              NextCode(sizes, p, si + 1, 2 * (code0 + (p - p0))) && FitsUpTo(sizes, p)
    ensures code0 + (p - p0) >= Pow2(si) ==> !FitsUpTo(sizes, |sizes|)
  {
    assert p < |sizes| ==> sizes[p0] <= sizes[p];
    if p0 == p {
      if code0 >= Pow2(si) {
        CodeStillFits(Code(sizes, p - 1) + 1, sizes[p - 1], si);
        assert !CodeFits(sizes, p - 1);
      }
    } else {
      assert Code(sizes, p0) == code0;
      CodeRun(sizes, p0, p - 1);
      forall q | p0 <= q < p ensures Code(sizes, q) == code0 + (q - p0) {
        CodeRun(sizes, p0, q);
      }
      assert CodeFits(sizes, p - 1) <==> code0 + (p - p0) < Pow2(si);
    }
  }

  /** Extending a code that fits keeps it fitting. */
  lemma CodeStillFits(c: nat, n: nat, m: nat)
    requires n <= m && Shl(c, m - n) >= Pow2(m)
    ensures c >= Pow2(n)
  {
    if c < Pow2(n) {
      ShlMono(c + 1, Pow2(n), m - n);
      ShlSum(c, 1, m - n);
      ShlPow2(n, m - n);
      ShlMono(1, 1, m - n);
      ShlPow2(0, m - n);
    }
  }

  /** Figure C.3 in place: enters the codes by symbol, failing on a symbol that is out of range or
      that already has a code. */
  method FillEncodingTables(vals: seq<Byte>, isDC: bool, lastp: nat, huffsize: array<nat>, huffcode: array<nat>,
                            ehufco: array<nat>, ehufsi: array<nat>) returns (ok: bool)
    requires |vals| == 256 && lastp <= 256
    requires huffsize.Length == 257 && huffcode.Length == 257 && ehufco.Length == 256 && ehufsi.Length == 256
    requires ehufco != ehufsi && huffsize !in {ehufco, ehufsi} && huffcode !in {ehufco, ehufsi}
    requires forall p :: 0 <= p < lastp ==> huffsize[p] > 0 && huffcode[p] == Code(huffsize[..lastp], p)
    modifies ehufco, ehufsi
    ensures ok <==> GoodSymbols(vals, isDC, lastp)
    ensures ok ==> DerivedFrom(huffsize[..lastp], vals, Derived(ehufco[..], ehufsi[..]), lastp)
  {
    ghost var sizes := huffsize[..lastp];
    for s := 0 to 256
      invariant forall u :: 0 <= u < s ==> ehufsi[u] == 0
    {
      ehufsi[s] := 0;
    }
    var maxsymbol := if isDC then 15 else 255;
    for p := 0 to lastp
      invariant GoodSymbols(vals, isDC, p)
      invariant DerivedFrom(sizes, vals, Derived(ehufco[..], ehufsi[..]), p)
    {
      var i := vals[p];
      if i > maxsymbol || ehufsi[i] != 0 {
        assert i <= maxsymbol ==> i in vals[..p];
        return false;
      }
      forall q | 0 <= q < p ensures vals[q] != i {
        assert EntryAt(sizes, vals, Derived(ehufco[..], ehufsi[..]), q);
      }
      ghost var before := Derived(ehufco[..], ehufsi[..]);
      ehufco[i] := huffcode[p];
      ehufsi[i] := huffsize[p];
      EntryAdded(sizes, vals, before, Derived(ehufco[..], ehufsi[..]), p);
    }
    return true;
  }

  lemma EntryKept(sizes: seq<nat>, vals: seq<Byte>, d: Derived, d': Derived, p: nat, q: nat)
    requires d.Typed() && d'.Typed() && q < p < |sizes| && p < |vals| && EntryAt(sizes, vals, d, q)
    requires vals[q] != vals[p]
    requires d'.code == d.code[vals[p] := Code(sizes, p)] && d'.size == d.size[vals[p] := sizes[p]]
    ensures EntryAt(sizes, vals, d', q)
  {
    hide Code;
  }

  lemma StillUncoded(vals: seq<Byte>, d: Derived, d': Derived, p: nat, l: nat)
    requires d.Typed() && d'.Typed() && p < |vals| && d'.size == d.size[vals[p] := l] && OthersUncoded(vals, d, p)
    ensures OthersUncoded(vals, d', p + 1)
  {
    forall s | 0 <= s < 256 && s !in vals[..p + 1] ensures d'.size[s] == 0 {
      assert vals[..p + 1] == vals[..p] + [vals[p]];
      assert s !in vals[..p] && s != vals[p];
    }
  }

  lemma NewEntry(sizes: seq<nat>, vals: seq<Byte>, d': Derived, p: nat)
    requires d'.Typed() && p < |sizes| && p < |vals|
    requires vals[p] < 256 && d'.code[vals[p]] == Code(sizes, p) && d'.size[vals[p]] == sizes[p]
    ensures EntryAt(sizes, vals, d', p)
  {
    hide Code;
  }

  lemma EntryAdded(sizes: seq<nat>, vals: seq<Byte>, d: Derived, d': Derived, p: nat)
    requires p < |sizes| && p < |vals| && vals[p] !in vals[..p]
    requires DerivedFrom(sizes, vals, d, p) && d'.Typed()
    requires d'.code == d.code[vals[p] := Code(sizes, p)] && d'.size == d.size[vals[p] := sizes[p]]
    ensures DerivedFrom(sizes, vals, d', p + 1)
  {
    hide Code, EntryAt, OthersUncoded;
    forall q | 0 <= q < p + 1 ensures EntryAt(sizes, vals, d', q) {
      if q < p {
        assert vals[..p][q] == vals[q] && vals[q] in vals[..p];
        EntryKept(sizes, vals, d, d', p, q);
      } else {
        NewEntry(sizes, vals, d', p);
      }
    }
    StillUncoded(vals, d, d', p, sizes[p]);
  }

  /** `jpeg_make_c_derived_tbl`: succeeds exactly on the tables that pass its checks, and then
      leaves the canonical code of every symbol in the derived table. */
  method MakeCDerivedTbl(tables: seq<Option<HuffTable>>, isDC: bool, tblno: int,
                         ehufco: array<nat>, ehufsi: array<nat>) returns (ok: bool)
    requires forall i :: 0 <= i < |tables| && tables[i].Some? ==> tables[i].value.Typed()
    requires ehufco != ehufsi && ehufco.Length == 256 && ehufsi.Length == 256
    modifies ehufco, ehufsi
    ensures ok <==> 0 <= tblno < 4 && tblno < |tables| && tables[tblno].Some? && Accepted(tables[tblno].value, isDC)
    ensures ok ==> IsDerived(Selected(tables, tblno).value, isDC, Derived(ehufco[..], ehufsi[..]))
  {
    if tblno < 0 || tblno >= NUM_HUFF_TBLS || tblno >= |tables| || tables[tblno].None? {
      return false;
    }
    var t := tables[tblno].value;
    var huffsize := new nat[257];
    var huffcode := new nat[257];
    var lastp;
    ok, lastp := FillSizes(t, huffsize);
    if !ok {
      return;
    }
    AllSizesAscending(t);
    ok := FillCodes(huffsize, lastp, huffcode);
    if !ok {
      return;
    }
    ok := FillEncodingTables(t.vals, isDC, lastp, huffsize, huffcode, ehufco, ehufsi);
  }
}
