/** When end-of-band runs are cut: only a full counter, 7FFF, or more than 937 waiting correction bits force a
    run out before a block with symbols, a restart or the end of the scan does. A decoder would accept any
    other cut, so that decoding says nothing about this. */
module EobRuns {
  import opened Wrappers
  import opened BitStrings
  import opened Coding
  import opened RunLength
  import opened AcRefinement
  import opened AcScans

  // ---------------------------------------------------------------- blocks without symbols

  lemma {:induction false} ShrBounds(x: nat, k: nat)
    ensures Shl(Shr(x, k), k) <= x < Shl(Shr(x, k) + 1, k)
    decreases k
  {
    if k > 0 {
      var y := Shr(x, k - 1);
      ShrBounds(x, k - 1);
      ShlAdd(y / 2, 1, k - 1);
      ShlAdd(y / 2 + 1, 1, k - 1);
      assert Shl(y / 2, 1) == 2 * (y / 2) && Shl(y / 2 + 1, 1) == 2 * (y / 2) + 2;
      ShlMono(2 * (y / 2), y, k - 1);
      ShlMono(y + 1, 2 * (y / 2) + 2, k - 1);
    }
  }

  /** The point transform of a magnitude, as a comparison with powers of two. */
  lemma MagSmall(z: Block, al: nat, k: nat)
    requires k < 64
    ensures Mag(z, al, k) == 0 <==> Abs(z[k]) < Pow2(al)
    ensures Mag(z, al, k) == 1 <==> Pow2(al) <= Abs(z[k]) < 2 * Pow2(al)
    ensures Mag(z, al, k) == 0 <==> Trunc(z[k], al) == 0
  {
    hide Shl, Shr, Pow2;
    var m := Mag(z, al, k);
    ShrBounds(Abs(z[k]), al);
    ShlOne(al);
    ShlZero(al);
    ShlSum(1, 1, al);
    ShlMono(if m >= 1 then 1 else 0, m, al);
    ShlMono(if m >= 2 then 2 else 0, m, al);
    ShlMono(m + 1, if m == 0 then 1 else m + 1, al);
    ShlMono(if m <= 1 then m + 1 else 0, 2, al);
  }

  /** No coefficient of the band becomes nonzero in this scan: in a first scan all are less than `2^al`, in a
      refinement scan none is from `2^al` to `2^(al + 1) - 1`. */
  ghost predicate Quiet(m: Params, z: Block) {
    forall k :: m.ss <= k <= m.se ==>
      if m.refine then !(Pow2(m.al) <= Abs(z[k]) < 2 * Pow2(m.al)) else Abs(z[k]) < Pow2(m.al)
  }

  /** The correction bits of the whole band. */
  function Corrections(m: Params, z: Block): Bits
  {
    if m.refine then CorrBits(z, m.al, m.ss, m.se + 1) else []
  }

  lemma {:induction false} NothingInBand(tbl: nat, y: Block, k: nat, se: nat, r: nat)
    requires se < 64 && forall i :: k <= i <= se ==> y[i] == 0
    ensures BandTokens(tbl, y, k, se, r) == []
    decreases 64 - k
  {
    if k <= se {
      NothingInBand(tbl, y, k + 1, se, r + 1);
    }
  }

  /** Exactly the quiet blocks have no symbols; what they leave is their correction bits. */
  lemma QuietBlocks(m: Params, z: Block)
    ensures CodeBlock(m, z).syms == [] <==> Quiet(m, z)
    ensures Quiet(m, z) ==> CodeBlock(m, z) == Coded([], Some(Corrections(m, z)))
  {
    hide CorrBits, RefineTokens, BandTokens, Mag, Pow2, Trunc;
    forall k: nat | k < 64
      ensures Mag(z, m.al, k) == 0 <==> Abs(z[k]) < Pow2(m.al)
      ensures Mag(z, m.al, k) == 1 <==> Pow2(m.al) <= Abs(z[k]) < 2 * Pow2(m.al)
      ensures Mag(z, m.al, k) == 0 <==> Trunc(z[k], m.al) == 0
    {
      MagSmall(z, m.al, k);
    }
    if m.refine {
      var eob := LastNew(z, m.al, m.ss, m.se + 1);
      if eob != 0 {
        RefineTokensNonempty(m.tbl, z, m.al, m.ss, eob, 0, []);
      }
    } else {
      var y := Transformed(z, m.al);
      if BandTokens(m.tbl, y, m.ss, m.se, 0) == [] {
        BandTokensEmpty(m.tbl, y, m.ss, m.se, 0);
        forall k | m.ss <= k <= m.se ensures Abs(z[k]) < Pow2(m.al) {
          assert y[k] == 0;
        }
      }
      if Quiet(m, z) {
        forall k | m.ss <= k <= m.se ensures y[k] == 0 {
          assert Abs(z[k]) < Pow2(m.al);
        }
        NothingInBand(m.tbl, y, m.ss, m.se, 0);
      }
    }
  }

  // ---------------------------------------------------------------- the run symbol

  /** A run of `n` blocks goes out as one symbol with the number of bits of `n` less one, those bits, and the
      waiting correction bits one by one. */
  lemma RunSymbol(tbl: nat, n: nat, corr: Bits, nb: nat)
    requires Pow2(nb) <= n < 2 * Pow2(nb)
    ensures EobTokens(tbl, Pending(n, corr))
         == [Sym(tbl, 16 * nb)] + (if nb > 0 then [Raw(BitsOf(n, nb))] else []) + RawEach(corr)
    ensures |RawEach(corr)| == |corr| && forall i :: 0 <= i < |corr| ==> RawEach(corr)[i] == Raw([corr[i]])
  {
    NBitsAtMost(n, nb);
    NBitsAtMost(n, nb + 1);
    EachRaw(corr);
  }

  lemma {:induction false} EachRaw(corr: Bits)
    ensures |RawEach(corr)| == |corr| && forall i :: 0 <= i < |corr| ==> RawEach(corr)[i] == Raw([corr[i]])
  {
    if corr != [] {
      EachRaw(corr[1..]);
    }
  }

  // ---------------------------------------------------------------- one block

  /** A quiet block writes nothing and joins the run, if and only if the counter does not become 7FFF and at most
      937 correction bits wait; otherwise the run goes out, itself included. */
  lemma QuietJoins(m: Params, p: Pending, z: Block)
    requires Quiet(m, z) && p.eobrun < 0x7FFF && (p.eobrun == 0 ==> p.corr == [])
    ensures var now := Pending(p.eobrun + 1, p.corr + Corrections(m, z));
      && (BlockTokens(m, p, z) == [] && BlockPending(m, p, z) == now
          <==> now.eobrun != 0x7FFF && |now.corr| <= 937)
      && (now.eobrun == 0x7FFF || |now.corr| > 937 ==>
            BlockTokens(m, p, z) == EobTokens(m.tbl, now) && BlockPending(m, p, z) == Pending(0, []))
  {
    hide CodeBlock, Quiet, Corrections;
    QuietBlocks(m, z);
  }

  /** Any other block first sends out the pending run, then its symbols; it starts a run of its own unless its band
      ends with a coefficient that becomes nonzero. */
  lemma LoudFlushes(m: Params, p: Pending, z: Block)
    requires !Quiet(m, z)
    ensures BlockTokens(m, p, z) == EobTokens(m.tbl, p) + CodeBlock(m, z).syms
    ensures BlockPending(m, p, z)
         == if CodeBlock(m, z).tail.Some? then Pending(1, CodeBlock(m, z).tail.value) else Pending(0, [])
  {
    hide CodeBlock, Quiet, EobTokens;
    QuietBlocks(m, z);
    TailShort(m, z);
    assert (EobTokens(m.tbl, p) + CodeBlock(m, z).syms) + [] == EobTokens(m.tbl, p) + CodeBlock(m, z).syms;
  }

  // ---------------------------------------------------------------- runs of blocks

  /** The correction bits of all blocks. */
  function AllCorrections(m: Params, zs: seq<Block>): Bits
  {
    if zs == [] then [] else Corrections(m, zs[0]) + AllCorrections(m, zs[1..])
  }

  /** As long as the bounds are kept, quiet blocks only lengthen the run: it is coded once, at the end. */
  lemma {:induction false} QuietRun(m: Params, p: Pending, zs: seq<Block>)
    requires forall i :: 0 <= i < |zs| ==> Quiet(m, zs[i])
    requires p.eobrun + |zs| < 0x7FFF && |p.corr| + |AllCorrections(m, zs)| <= 937 && (p.eobrun == 0 ==> p.corr == [])
    ensures RunTokens(m, p, zs) == EobTokens(m.tbl, Pending(p.eobrun + |zs|, p.corr + AllCorrections(m, zs)))
    decreases |zs|
  {
    hide Quiet, BlockTokens, BlockPending, EobTokens, Corrections;
    if zs == [] {
      assert p.corr + [] == p.corr;
    } else {
      var now := Pending(p.eobrun + 1, p.corr + Corrections(m, zs[0]));
      QuietJoins(m, p, zs[0]);
      QuietRun(m, now, zs[1..]);
      assert [] + RunTokens(m, now, zs[1..]) == RunTokens(m, now, zs[1..]);
      assert now.corr + AllCorrections(m, zs[1..]) == p.corr + AllCorrections(m, zs);
    }
  }

  /** Fewer than 7FFF quiet blocks with at most 937 correction bits, between restarts, take exactly one symbol. */
  lemma OneRunSymbol(m: Params, zs: seq<Block>, nb: nat)
    requires 0 < |zs| < 0x7FFF && (forall i :: 0 <= i < |zs| ==> Quiet(m, zs[i])) && |AllCorrections(m, zs)| <= 937
    requires Pow2(nb) <= |zs| < 2 * Pow2(nb)
    ensures var ts := RunTokens(m, Pending(0, []), zs);
      && ts != [] && ts[0] == Sym(m.tbl, 16 * nb) && (forall i :: 1 <= i < |ts| ==> ts[i].Raw?)
      && |ts| == 1 + (if nb > 0 then 1 else 0) + |AllCorrections(m, zs)|
      && (nb > 0 ==> ts[1] == Raw(BitsOf(|zs|, nb)))
  {
    hide Quiet, RunTokens, EobTokens, Pow2;
    QuietRun(m, Pending(0, []), zs);
    assert [] + AllCorrections(m, zs) == AllCorrections(m, zs);
    RunSymbol(m.tbl, |zs|, AllCorrections(m, zs), nb);
  }

  /** And exactly 7FFF of them, without correction bits, are coded at once, with nothing left. */
  lemma {:induction false} FullRun(m: Params, p: Pending, zs: seq<Block>)
    requires !m.refine && p.corr == [] && zs != [] && p.eobrun + |zs| == 0x7FFF
    requires forall i :: 0 <= i < |zs| ==> Quiet(m, zs[i])
    ensures PendingAfter(m, p, zs) == Pending(0, [])
    ensures RunTokens(m, p, zs) == [Sym(m.tbl, 0xE0), Raw(BitsOf(0x7FFF, 14))]
    decreases |zs|
  {
    hide Quiet, BlockTokens, BlockPending, EobTokens, Corrections;
    var now := Pending(p.eobrun + 1, []);
    assert Corrections(m, zs[0]) == [] by { NoCorrections(m, zs[0]); }
    QuietJoins(m, p, zs[0]);
    if |zs| == 1 {
      FullSymbol(m.tbl);
      NothingOwed(m);
      assert zs[1..] == [] && p.corr + Corrections(m, zs[0]) == [];
      assert EobTokens(m.tbl, Pending(0x7FFF, [])) + [] == EobTokens(m.tbl, Pending(0x7FFF, []));
    } else {
      FullRun(m, now, zs[1..]);
      assert [] + RunTokens(m, now, zs[1..]) == RunTokens(m, now, zs[1..]);
    }
  }

  lemma NoCorrections(m: Params, z: Block)
    requires !m.refine
    ensures Corrections(m, z) == []
  {
  }

  lemma NothingOwed(m: Params)
    ensures RunTokens(m, NOTHING, []) == []
  {
  }

  lemma FullSymbol(tbl: nat)
    ensures EobTokens(tbl, Pending(0x7FFF, [])) == [Sym(tbl, 0xE0), Raw(BitsOf(0x7FFF, 14))]
  {
    hide BitsOf;
    assert Pow2(5) == 32 && Pow2(10) == 1024 && Pow2(14) == 0x4000;
    RunSymbol(tbl, 0x7FFF, [], 14);
    assert RawEach([]) == [];
  }
}
