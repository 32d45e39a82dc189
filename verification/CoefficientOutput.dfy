/** The emission of DC differences and nonzero AC coefficients, as both entropy encoders write them. */
module CoefficientOutput {
  import opened Wrappers
  import opened BitStrings
  import opened BitOutput
  import opened HuffmanTables
  import opened Coding
  import opened RunLength
  import opened Scans
  import opened TokenSinks

  /** The loops that find how many bits a magnitude needs. */
  method CountBits(v: nat) returns (n: nat)
    ensures n == NBits(v)
  {
    n := 0;
    var temp := v;
    while temp != 0
      invariant n + NBits(temp) == NBits(v)
    {
      n := n + 1;
      temp := temp / 2;
    }
  }

  /** The DC difference of one block: category symbol and appended bits. */
  method EmitDiff(sink: TokenSink, tbl: nat, diff: int) returns (r: Outcome)
    requires sink.Valid() && tbl < NUM_HUFF_TBLS
    modifies sink.Repr()
    ensures sink.Explains(r, NBits(Abs(diff)) <= 11, old(sink.done), old(sink.cur), DiffTokens(tbl, diff))
    ensures NBits(Abs(diff)) <= 11 && old(sink.Accepts(DiffTokens(tbl, diff))) ==> r.Ok?
    ensures r.Ok? ==> sink.Valid() && sink.done == old(sink.done) && NBits(Abs(diff)) <= 11
    ensures r.Ok? ==> sink.cur == old(sink.cur) + DiffTokens(tbl, diff)
  {
    hide TokenSink.Valid, AllCodable, DiffTokens;
    var temp2 := if diff < 0 then diff - 1 else diff;
    var nbits := CountBits(Abs(diff));
    if nbits > 11 {
      return Error;
    }
    ghost var from, ts := sink.cur, DiffTokens(tbl, diff);
    DiffParts(sink.Code(), tbl, diff, from);
    r := sink.EmitSymbol(tbl, nbits);
    if r != Ok {
      sink.ExplainsPart(r, true, true, old(sink.done), from, ts, from, [Sym(tbl, nbits)], DiffRaw(diff));
      return;
    }
    if nbits != 0 {
      ghost var mid := sink.cur;
      NoTokens(mid + DiffRaw(diff));
      r := sink.EmitBits(temp2, nbits);
      sink.ExplainsPart(r, true, true, old(sink.done), from, ts, mid, DiffRaw(diff), []);
    }
  }

  /** One nonzero coefficient after `run` zeros: ZRLs, its symbol, and its bits. */
  method EmitCoef(sink: TokenSink, tbl: nat, run: nat, v: int) returns (r: Outcome)
    requires sink.Valid() && tbl < NUM_HUFF_TBLS + NUM_HUFF_TBLS && (sink.gather ==> tbl < NUM_HUFF_TBLS) && v != 0
    modifies sink.Repr()
    ensures sink.Explains(r, NBits(Abs(v)) <= 10, old(sink.done), old(sink.cur), CoefTokens(tbl, run, v))
    ensures NBits(Abs(v)) <= 10 && old(sink.Accepts(CoefTokens(tbl, run, v))) ==> r.Ok?
    ensures r.Ok? ==> sink.Valid() && sink.done == old(sink.done) && NBits(Abs(v)) <= 10
    ensures r.Ok? ==> sink.cur == old(sink.cur) + CoefTokens(tbl, run, v)
  {
    hide TokenSink.Valid, CoefTokens, AllCodable;
    var n := run;
    ghost var from, ts := sink.cur, CoefTokens(tbl, run, v);
    while n > 15
      invariant sink.Valid() && sink.done == old(sink.done)
      invariant sink.cur + CoefTokens(tbl, n, v) == from + ts
      invariant AllCodable(sink.Code(), ts) ==> AllCodable(sink.Code(), CoefTokens(tbl, n, v))
    {
      ghost var cur := sink.cur;
      ZrlStep(sink.Code(), tbl, n, v, cur);
      r := sink.EmitSymbol(tbl, ZRL);
      if r != Ok {
        sink.ExplainsPart(r, true, NBits(Abs(v)) <= 10, old(sink.done), from, ts, cur, [Sym(tbl, ZRL)],
                          CoefTokens(tbl, n - 16, v));
        return;
      }
      n := n - 16;
    }
    var nbits := CountBits(Abs(v));
    if nbits > 10 {
      return Error;
    }
    ghost var cur := sink.cur;
    PairStep(sink.Code(), tbl, n, v, cur);
    r := sink.EmitSymbol(tbl, 16 * n + nbits);
    if r != Ok {
      sink.ExplainsPart(r, true, true, old(sink.done), from, ts, cur, [Sym(tbl, 16 * n + nbits)],
                        [Raw(MagnitudeBits(v))]);
      return;
    }
    ghost var mid := sink.cur;
    NoTokens(mid + [Raw(MagnitudeBits(v))]);
    r := sink.EmitBits(if v < 0 then v - 1 else v, nbits);
    sink.ExplainsPart(r, true, true, old(sink.done), from, ts, mid, [Raw(MagnitudeBits(v))], []);
  }

  /** Tokens move from what remains to what is emitted. */
  lemma Moved(emitted: seq<Token>, now: seq<Token>, later: seq<Token>)
    ensures (emitted + now) + later == emitted + (now + later)
  {
  }

  lemma NoTokens(ts: seq<Token>)
    ensures ts + [] == ts
  {
  }

  function DiffRaw(diff: int): seq<Token>
  {
    if NBits(Abs(diff)) != 0 then [Raw(MagnitudeBits(diff))] else []
  }

  lemma DiffParts(c: Codec, tbl: nat, diff: int, ts: seq<Token>)
    ensures var sym := [Sym(tbl, NBits(Abs(diff)))];
      && DiffTokens(tbl, diff) == sym + DiffRaw(diff)
      && (AllCodable(c, DiffTokens(tbl, diff)) <==> AllCodable(c, sym) && AllCodable(c, DiffRaw(diff)))
      && (ts + sym) + DiffRaw(diff) == ts + DiffTokens(tbl, diff)
      && (NBits(Abs(diff)) == 0 ==> ts + sym == ts + DiffTokens(tbl, diff))
  {
    var sym := [Sym(tbl, NBits(Abs(diff)))];
    CodableAppend(c, sym, DiffRaw(diff));
    Moved(ts, sym, DiffRaw(diff));
  }

  lemma ZrlStep(c: Codec, tbl: nat, n: nat, v: int, ts: seq<Token>)
    requires n > 15
    ensures var zrl := [Sym(tbl, ZRL)];
      && ts + CoefTokens(tbl, n, v) == (ts + zrl) + CoefTokens(tbl, n - 16, v)
      && (AllCodable(c, CoefTokens(tbl, n, v)) <==> AllCodable(c, zrl) && AllCodable(c, CoefTokens(tbl, n - 16, v)))
  {
    var zrl := [Sym(tbl, ZRL)];
    assert Zrls(tbl, n / 16) == zrl + Zrls(tbl, (n - 16) / 16);
    assert CoefTokens(tbl, n, v) == zrl + CoefTokens(tbl, n - 16, v);
    CodableAppend(c, zrl, CoefTokens(tbl, n - 16, v));
    Moved(ts, zrl, CoefTokens(tbl, n - 16, v));
  }

  lemma PairStep(c: Codec, tbl: nat, n: nat, v: int, ts: seq<Token>)
    requires n <= 15
    ensures var sym, mag := [Sym(tbl, 16 * n + NBits(Abs(v)))], [Raw(MagnitudeBits(v))];
      && ts + CoefTokens(tbl, n, v) == (ts + sym) + mag
      && (AllCodable(c, CoefTokens(tbl, n, v)) <==> AllCodable(c, sym) && AllCodable(c, mag))
  {
    var sym, mag := [Sym(tbl, 16 * n + NBits(Abs(v)))], [Raw(MagnitudeBits(v))];
    assert CoefTokens(tbl, n, v) == sym + mag;
    CodableAppend(c, sym, mag);
    Moved(ts, sym, mag);
  }
}
