/** Two-pass coding: a statistics pass, tables made from its counts, and an output pass with these
    tables (`finish_pass_gather`, `finish_pass_gather_phuff`). */
module OptimizedScans {
  import opened Wrappers
  import opened BitStrings
  import opened BitOutput
  import opened HuffmanTables
  import opened HuffmanOptimality
  import opened HuffmanForests
  import opened CodeLengths
  import opened OptimalTables
  import opened Coding
  import opened RunLength
  import opened Scans
  import opened ScanStreams
  import opened TokenSinks
  import opened Zigzags
  import opened SequentialEncoding
  import opened ScanSymbols
  import opened SequentialStatistics
  import opened ProgressiveScans
  import Sequential = SequentialScans

  /** The counts of one table, with the pseudo-symbol. */
  function CountRow(ts: seq<Token>, tbl: nat): (w: Weights)
    ensures |w| == SYMBOLS && w[SYMBOLS - 1] == 1
  {
    seq(SYMBOLS, s requires 0 <= s < SYMBOLS => if s == SYMBOLS - 1 then 1 else Occurrences(ts, tbl, s))
  }

  /** The totals the table generator can compare. */
  ghost predicate Manageable(ts: seq<Token>, tables: nat) {
    forall tbl :: 0 <= tbl < tables ==> Total(CountRow(ts, tbl)) <= CUTOFF
  }

  /** Huffman's procedure gives no symbol a code of more than 32 bits. */
  ghost predicate Shallow(ts: seq<Token>, tbl: nat) {
    forall s :: 0 <= s < |CodeSizes(CountRow(ts, tbl))| ==> CodeSizes(CountRow(ts, tbl))[s] <= MAX_CLEN
  }

  ghost predicate AllShallow(ts: seq<Token>, tables: nat) { forall tbl :: 0 <= tbl < tables ==> Shallow(ts, tbl) }

  /** Totals, pseudo-symbol included, below Fibonacci(35). */
  ghost predicate LowTotals(ts: seq<Token>, tables: nat) {
    forall tbl :: 0 <= tbl < tables ==> Total(CountRow(ts, tbl)) < 9227465
  }

  /** Such totals are harmless. */
  lemma LowShallow(ts: seq<Token>, tables: nat)
    requires LowTotals(ts, tables)
    ensures AllShallow(ts, tables)
  {
    hide Optimal, CodeSizes, Total;
    forall tbl | 0 <= tbl < tables ensures Shallow(ts, tbl) {
      var w := CountRow(ts, tbl);
      if exists u :: 0 <= u < SYMBOLS - 1 && w[u] > 0 {
        CodeSizesOptimal(w);
        NoOverflow(w, CodeSizes(w));
      } else {
        NothingCoded(w);
      }
    }
  }

  /** Books with codes for exactly the symbols of `ts`. */
  ghost predicate Tailored(books: Books, ts: seq<Token>) {
    forall tbl :: 0 <= tbl < |books| ==> CodesFor(books[tbl], ts, tbl)
  }

  ghost predicate CodesFor(bk: CodeBook, ts: seq<Token>, tbl: nat) {
    forall s :: 0 <= s < 256 ==> (bk.derived.HasCode(s) <==> Occurrences(ts, tbl, s) > 0)
  }

  /** With tailored books no symbol lacks a code. */
  lemma {:induction false} TailoredCodable(books: Books, all: seq<Token>, ts: seq<Token>)
    requires Tailored(books, all) && InAlphabet(all, |books|) && forall t :: t in ts ==> t in all
    ensures AllCodable(HuffmanCodec(books), ts)
  {
    if ts != [] {
      var t := ts[0];
      assert t in all;
      if t.Sym? {
        assert CodesFor(books[t.tbl], all, t.tbl);
        assert BookValid(books, t.tbl);
        assert Occurrences(all, t.tbl, t.sym) > 0;
      }
      forall u | u in ts[1..] ensures u in all {
        assert u in ts;
      }
      TailoredCodable(books, all, ts[1..]);
    }
  }

  lemma {:induction false} InFlatten(segs: seq<seq<Token>>, i: nat, t: Token)
    requires i < |segs| && t in segs[i]
    ensures t in Flatten(segs)
  {
    if i < |segs| - 1 {
      InFlatten(segs[..|segs| - 1], i, t);
    }
  }

  lemma TailoredSegments(books: Books, segs: seq<seq<Token>>)
    requires Tailored(books, Flatten(segs)) && InAlphabet(Flatten(segs), |books|)
    ensures SegmentsCodable(HuffmanCodec(books), segs)
  {
    hide Tailored, InAlphabet, Flatten;
    forall i | 0 <= i < |segs| ensures AllCodable(HuffmanCodec(books), segs[i]) {
      forall t | t in segs[i] ensures t in Flatten(segs) {
        InFlatten(segs, i, t);
      }
      TailoredCodable(books, Flatten(segs), segs[i]);
    }
  }

  // ---------------------------------------------------------------- the tables as a function of the counts

  /** The first position of a symbol in a list, or its length. */
  function PositionIn(vals: seq<nat>, s: nat): (p: nat)
    ensures p <= |vals| && (p < |vals| ==> vals[p] == s) && forall q :: 0 <= q < p ==> vals[q] != s
  {
    if vals == [] || vals[0] == s then 0 else 1 + PositionIn(vals[1..], s)
  }

  /** The code of a symbol in the table made from a row of counts: the canonical code of its position. */
  ghost function MadeCode(w: Weights, s: nat): Option<Bits>
    requires |w| == SYMBOLS && w[SYMBOLS - 1] == 1
  {
    var size := CodeSizes(w);
    if |size| != SYMBOLS then None
    else
      var lens, p := Sizes(MadeBits(size), 16), PositionIn(MadeSymbols(size), s);
      if p < |MadeSymbols(size)| && p < |lens| then Some(BitsOf(Code(lens, p), lens[p])) else None
  }

  lemma MadeLength(w: Weights, s: nat)
    requires |w| == SYMBOLS && w[SYMBOLS - 1] == 1
    ensures MadeCode(w, s).Some? ==> 1 <= |MadeCode(w, s).value| <= 16
  {
    hide CodeSizes, MadeBits, MadeSymbols, Sizes;
  }

  /** The code made for a scan: that of each of its tables. */
  ghost function MadeCodec(ts: seq<Token>, tables: nat): Codec
  {
    Codec((tbl: nat, s: nat) => if tbl < tables && s < 256 then MadeCode(CountRow(ts, tbl), s) else None,
          (tbl: nat, bits: Bits) => None)
  }

  /** A book has exactly the codes made from the counts. */
  ghost predicate MadeBook(bk: CodeBook, ts: seq<Token>, tbl: nat)
    requires bk.derived.Typed()
  {
    forall s :: 0 <= s < 256 ==>
      MadeCode(CountRow(ts, tbl), s) == (if bk.derived.HasCode(s) then Some(bk.derived.CodeBits(s)) else None)
  }

  /** All books of a scan. */
  ghost predicate MadeBooks(books: Books, ts: seq<Token>) {
    forall tbl :: 0 <= tbl < |books| ==> BookValid(books, tbl) && MadeBook(books[tbl], ts, tbl)
  }

  /** Then they write what the made code writes. */
  lemma MadeWrites(books: Books, ts: seq<Token>)
    requires MadeBooks(books, ts)
    ensures SameWrites(HuffmanCodec(books), MadeCodec(ts, |books|))
  {
    hide MadeCode;
    var c, c' := HuffmanCodec(books), MadeCodec(ts, |books|);
    forall tbl: nat, s: nat ensures c.write(tbl, s) == c'.write(tbl, s) {
      if tbl < |books| && s < 256 {
        assert BookValid(books, tbl) && MadeBook(books[tbl], ts, tbl);
      }
    }
  }

  /** Two codes that write alike make the same bytes. */
  ghost predicate SameWrites(c: Codec, c': Codec) {
    forall tbl: nat, s: nat :: c.write(tbl, s) == c'.write(tbl, s)
  }

  lemma {:induction false} SameBits(c: Codec, c': Codec, ts: seq<Token>)
    requires SameWrites(c, c')
    ensures StreamBits(c, ts) == StreamBits(c', ts) && (AllCodable(c, ts) <==> AllCodable(c', ts))
  {
    if ts != [] {
      SameBits(c, c', ts[1..]);
      if ts[0].Sym? {
        assert c.write(ts[0].tbl, ts[0].sym) == c'.write(ts[0].tbl, ts[0].sym);
      }
    }
  }

  lemma SameOutput(c: Codec, c': Codec, segs: seq<seq<Token>>)
    requires SameWrites(c, c') && segs != []
    ensures ScanOutput(c, segs) == ScanOutput(c', segs)
  {
    hide StreamBits, SameWrites;
    forall i | 0 <= i < |segs| ensures StreamBits(c, segs[i]) == StreamBits(c', segs[i]) {
      SameBits(c, c', segs[i]);
    }
    var n := |segs| - 1;
    assert SegmentBits(c, segs[..n]) == SegmentBits(c', segs[..n]);
  }

  /** A table made for code sizes has their codes. */
  lemma MadeFrom(w: Weights, t: HuffTable, isDC: bool, d: Derived, s: nat)
    requires |w| == SYMBOLS && w[SYMBOLS - 1] == 1 && Made(CodeSizes(w), t) && IsDerived(t, isDC, d) && s < 256
    ensures MadeCode(w, s) == (if d.HasCode(s) then Some(d.CodeBits(s)) else None)
  {
    hide CodeSizes, MadeBits, MadeSymbols;
    var vals, n := MadeSymbols(CodeSizes(w)), |AllSizes(t)|;
    var p := PositionIn(vals, s);
    assert vals == t.vals[..n];
    if p < |vals| {
      assert t.vals[p] == s;
      assert EntryAt(AllSizes(t), t.vals, d, p);
    } else {
      assert s !in vals;
      assert !d.HasCode(s);
    }
  }

  lemma MadeFromAll(t: HuffTable, isDC: bool, d: Derived, ts: seq<Token>, tbl: nat)
    requires Made(CodeSizes(CountRow(ts, tbl)), t) && IsDerived(t, isDC, d)
    ensures MadeBook(CodeBook(t, isDC, d), ts, tbl)
  {
    hide Made, MadeCode;
    forall s | 0 <= s < 256
      ensures MadeCode(CountRow(ts, tbl), s) == (if d.HasCode(s) then Some(d.CodeBits(s)) else None)
    {
      MadeFrom(CountRow(ts, tbl), t, isDC, d, s);
    }
  }

  // ---------------------------------------------------------------- making a table

  /** A table nobody uses. */
  function EmptyBook(isDC: bool): CodeBook
  {
    CodeBook(HuffTable(seq(17, _ => 0), seq(256, _ => 0)), isDC, Derived(seq(256, _ => 0), seq(256, _ => 0)))
  }

  lemma {:induction false} NoSizes(bits: seq<nat>, l: nat)
    requires l < |bits| && forall i :: 0 <= i < |bits| ==> bits[i] == 0
    ensures Sizes(bits, l) == []
  {
    if l > 0 {
      NoSizes(bits, l - 1);
    }
  }

  lemma EmptyBookValid(isDC: bool)
    ensures EmptyBook(isDC).Valid()
  {
    NoSizes(EmptyBook(isDC).huff.bits, 16);
  }

  /** A table never counts more symbols than a length count of one byte can hold. */
  lemma CountsFew(mode: ScanMode, ts: seq<Token>, tbl: nat)
    requires AllExpected(mode, ts)
    ensures Small(CountRow(ts, tbl))
  {
    hide AllExpected, Total;
    NeverCounted(mode, ts, tbl);
    AliveWithout(CountRow(ts, tbl), 0x1B, 0x1C);
  }

  lemma AliveWithout(w: Weights, a: nat, b: nat)
    requires a < b < |w| && w[a] == w[b] == 0
    ensures Alive(w) + 2 <= |w|
  {
    hide Total;
    AliveAtMost(w[a := 1][b := 1]);
    assert AliveTerms(w[a := 1][b := 1]) == AliveTerms(w)[a := 1][b := 1];
    TotalUpdate(AliveTerms(w), a, 1);
    TotalUpdate(AliveTerms(w)[a := 1], b, 1);
  }

  /** `jpeg_gen_optimal_table` on one row of counts of a scan, and `jpeg_make_c_derived_tbl` on the
      outcome. The only failure left is a Huffman code of more than 32 bits. */
  method GenerateBook(row: array<nat>, isDC: bool, ghost mode: ScanMode, ghost ts: seq<Token>, ghost tbl: nat)
    returns (r: Option<CodeBook>)
    requires row.Length == SYMBOLS && forall s :: 0 <= s < 256 ==> row[s] == Occurrences(ts, tbl, s)
    requires isDC ==> forall s :: 15 < s < 256 ==> Occurrences(ts, tbl, s) == 0
    requires AllExpected(mode, ts) && Total(CountRow(ts, tbl)) <= CUTOFF
    modifies row
    ensures r.Some? <==> Shallow(ts, tbl)
    ensures r.Some? ==> r.value.Valid() && CodesFor(r.value, ts, tbl) && MadeBook(r.value, ts, tbl)
  {
    hide Generated, Optimal, IsDerived, Total, CodeSizes, AllExpected, Small, Made, MadeCode;
    var used := false;
    for s := 0 to 256
      invariant used <==> exists u :: 0 <= u < s && row[u] > 0
    {
      used := used || row[s] > 0;
    }
    if !used {
      EmptyBookValid(isDC);
      NothingCoded(CountRow(ts, tbl));
      NothingMade(isDC, ts, tbl);
      return Some(EmptyBook(isDC));
    }
    ghost var w0: Weights := row[..][SYMBOLS - 1 := 1];
    assert w0 == CountRow(ts, tbl);
    var bits := new Byte[17](_ => 0);
    var huffval := new Byte[256](_ => 0);
    CountsFew(mode, ts, tbl);
    RowCountable(ts, tbl);
    var ok, size := GenOptimalTable(row, bits, huffval);
    assert |size| == SYMBOLS by { OptimalAlive(w0, size); }
    if !ok {
      return None;
    }
    var t := HuffTable(bits[..], huffval[..]);
    var d := DeriveGenerated(t, isDC, w0, size);
    MadeFromAll(t, isDC, d, ts, tbl);
    return Some(CodeBook(t, isDC, d));
  }

  lemma RowCountable(ts: seq<Token>, tbl: nat)
    requires Total(CountRow(ts, tbl)) <= CUTOFF && exists u :: 0 <= u < 256 && Occurrences(ts, tbl, u) > 0
    ensures Countable(CountRow(ts, tbl))
  {
    var u :| 0 <= u < 256 && Occurrences(ts, tbl, u) > 0;
    assert CountRow(ts, tbl)[u] > 0;
  }

  lemma NothingMade(isDC: bool, ts: seq<Token>, tbl: nat)
    requires forall s :: 0 <= s < 256 ==> Occurrences(ts, tbl, s) == 0
    ensures EmptyBook(isDC).Valid() && MadeBook(EmptyBook(isDC), ts, tbl)
  {
    var w := CountRow(ts, tbl);
    EmptyBookValid(isDC);
    NothingCoded(w);
    NothingListed(CodeSizes(w)[..SYMBOLS - 1], MAX_CLEN + 1, 0);
  }

  /** A generated table is always accepted. */
  method DeriveGenerated(t: HuffTable, isDC: bool, ghost w0: Weights, ghost size: seq<nat>) returns (d: Derived)
    requires Generated(w0, size, t) && (isDC ==> forall s :: 15 < s < 256 ==> w0[s] == 0)
    ensures IsDerived(t, isDC, d) && forall s :: 0 <= s < 256 ==> (d.HasCode(s) <==> w0[s] > 0)
  {
    var ehufco := new nat[256](_ => 0);
    var ehufsi := new nat[256](_ => 0);
    if isDC {
      AcceptedForDC(w0, size, t);
    }
    var ok := MakeCDerivedTbl([Some(t)], isDC, 0, ehufco, ehufsi);
    d := Derived(ehufco[..], ehufsi[..]);
    CodesForCounted(w0, size, t, isDC, d);
  }

  // ---------------------------------------------------------------- two passes

  method CopyRow(counts: array2<nat>, tbl: nat) returns (row: array<nat>)
    requires counts.Length1 == SYMBOLS && tbl < counts.Length0
    ensures fresh(row) && row.Length == SYMBOLS && forall s :: 0 <= s < SYMBOLS ==> row[s] == counts[tbl, s]
  {
    row := new nat[SYMBOLS](s requires 0 <= s < SYMBOLS reads counts => counts[tbl, s]);
  }

  lemma AppendValid(books: Books, bk: CodeBook)
    requires bk.Valid()
    ensures forall i :: 0 <= i < |books + [bk]| ==> BookValid(books + [bk], i)
  {
    forall i | 0 <= i < |books + [bk]| ensures BookValid(books + [bk], i) {
      if i < |books| {
        assert BookValid(books, i);
      }
    }
  }

  function Append(books: Books, bk: CodeBook): (r: Books)
    requires bk.Valid()
    ensures |r| == |books| + 1 && r[..|books|] == books && r[|books|] == bk
  {
    AppendValid(books, bk);
    books + [bk]
  }

  /** One more table is as it should be. */
  lemma BooksNext(books: Books, bk: CodeBook, ts: seq<Token>)
    requires Tailored(books, ts) && AllShallow(ts, |books|) && MadeBooks(books, ts)
    requires bk.Valid() && CodesFor(bk, ts, |books|) && MadeBook(bk, ts, |books|) && Shallow(ts, |books|)
    ensures Tailored(Append(books, bk), ts) && AllShallow(ts, |books| + 1) && MadeBooks(Append(books, bk), ts)
  {
    hide CodesFor, MadeBook, Shallow;
    var more := Append(books, bk);
    forall tbl | 0 <= tbl < |more|
      ensures BookValid(more, tbl) && CodesFor(more[tbl], ts, tbl) && MadeBook(more[tbl], ts, tbl)
    {
      if tbl < |books| {
        assert BookValid(books, tbl) && more[tbl] == more[..|books|][tbl] == books[tbl];
      }
    }
  }

  lemma NoBooks(ts: seq<Token>)
    ensures Tailored([], ts) && AllShallow(ts, 0) && MadeBooks([], ts)
  {
  }

  lemma NotAllShallow(ts: seq<Token>, tbl: nat, tables: nat)
    requires tbl < tables && !Shallow(ts, tbl)
    ensures !AllShallow(ts, tables)
  {
  }

  /** The statistics pass over a progressive scan, and its tables. Whatever the data, no symbol of the
      scan is left without code: apart from a coefficient out of range, only a Huffman code of more than
      32 bits can make this fail. */
  method ProgressiveTables(mode: ScanMode, interval: nat, order: seq<nat>, data: seq<seq<Block>>, bufSize: nat)
    returns (ok: bool, books: Books)
    requires ModeInRange(mode) && IsOrder(order) && DataShaped(mode, data) && bufSize > 0
    requires Shaped(mode, ZigzagScan(order, data))
    requires Manageable(Flatten(ScanSegments(mode, interval, ZigzagScan(order, data))), NUM_HUFF_TBLS)
    ensures var segs := ScanSegments(mode, interval, ZigzagScan(order, data));
      && (ok <==> ScanOk(mode, interval, ZigzagScan(order, data)) && AllShallow(Flatten(segs), NUM_HUFF_TBLS))
      && (ok ==> Tailored(books, Flatten(segs)) && SegmentsCodable(HuffmanCodec(books), segs))
      && (ok ==> SameWrites(HuffmanCodec(books), MadeCodec(Flatten(segs), NUM_HUFF_TBLS)))
  {
    hide ScanSegments, Flatten, ScanOk, SegmentsCodable, HuffmanCodec, ScanOutput, ZigzagAll, IsOrder, InAlphabet,
         CodesFor, CountRow, Total, Shallow, AllExpected, Expected, Tailored, AllShallow, MadeBooks, MadeBook,
         MadeCodec, SameWrites;
    ghost var segs := ScanSegments(mode, interval, ZigzagScan(order, data));
    ghost var ts := Flatten(segs);
    NoBooks(ts);
    books := [];
    var r, _, counts, _ := EncodeScan(true, [], mode, interval, order, data, bufSize, bufSize, false);
    if r != Ok {
      return false, books;
    }
    ScanExpected(mode, interval, ZigzagScan(order, data));
    for tbl := 0 to NUM_HUFF_TBLS
      invariant |books| == tbl && Tailored(books, ts) && AllShallow(ts, tbl) && MadeBooks(books, ts)
      modifies {}
    {
      NeverCounted(mode, ts, tbl);
      var row := CopyRow(counts, tbl);
      var bk := GenerateBook(row, !mode.Ac?, mode, ts, tbl);
      if bk.None? {
        NotAllShallow(ts, tbl, NUM_HUFF_TBLS);
        return false, books;
      }
      BooksNext(books, bk.value, ts);
      books := Append(books, bk.value);
    }
    TailoredSegments(books, segs);
    MadeWrites(books, ts);
    ok := true;
  }

  /** Both passes over a progressive scan. */
  method EncodeProgressive(mode: ScanMode, interval: nat, order: seq<nat>, data: seq<seq<Block>>, bufSize: nat)
    returns (ok: bool, books: Books, bytes: seq<Byte>)
    requires ModeInRange(mode) && IsOrder(order) && DataShaped(mode, data) && bufSize > 0
    requires Shaped(mode, ZigzagScan(order, data))
    requires Manageable(Flatten(ScanSegments(mode, interval, ZigzagScan(order, data))), NUM_HUFF_TBLS)
    ensures var segs := ScanSegments(mode, interval, ZigzagScan(order, data));
      && (ok <==> ScanOk(mode, interval, ZigzagScan(order, data)) && AllShallow(Flatten(segs), NUM_HUFF_TBLS))
      && (ok ==> Tailored(books, Flatten(segs)) && SegmentsCodable(HuffmanCodec(books), segs))
      && (ok ==> SameWrites(HuffmanCodec(books), MadeCodec(Flatten(segs), NUM_HUFF_TBLS)))
      && (ok ==> bytes == ScanOutput(HuffmanCodec(books), segs))
  {
    hide ScanSegments, Flatten, ScanOk, SegmentsCodable, HuffmanCodec, ScanOutput, ZigzagAll, IsOrder, Tailored,
         Manageable, AllShallow;
    bytes := [];
    ok, books := ProgressiveTables(mode, interval, order, data, bufSize);
    if ok {
      var r, counts;
      var left;
      r, bytes, counts, left := EncodeScan(false, books, mode, interval, order, data, bufSize, bufSize, false);
    }
  }

  /** The statistics pass over a sequential scan, and its tables, with the same guarantee. */
  method SequentialTables(mode: ScanMode, interval: nat, order: seq<nat>, data: seq<seq<Block>>)
    returns (ok: bool, books: Books)
    requires TablesInRange(mode) && IsOrder(order) && DataShaped(mode, data)
    requires Shaped(mode, ZigzagScan(order, data))
    requires Manageable(Flatten(ScanSegments(mode, interval, ZigzagScan(order, data))), 2 * NUM_HUFF_TBLS)
    ensures var segs := ScanSegments(mode, interval, ZigzagScan(order, data));
      && (ok <==> ScanOk(mode, interval, ZigzagScan(order, data)) && AllShallow(Flatten(segs), 2 * NUM_HUFF_TBLS))
      && (ok ==> Tailored(books, Flatten(segs)) && SegmentsCodable(HuffmanCodec(books), segs))
      && (ok ==> SameWrites(HuffmanCodec(books), MadeCodec(Flatten(segs), 2 * NUM_HUFF_TBLS)))
  {
    hide ScanSegments, Flatten, ScanOk, SegmentsCodable, HuffmanCodec, ScanOutput, ZigzagAll, IsOrder, CodesFor,
         CountRow, Total, Shallow, AllExpected, Tailored, AllShallow, MadeBooks, MadeBook, MadeCodec, SameWrites;
    ghost var segs := ScanSegments(mode, interval, ZigzagScan(order, data));
    ghost var ts := Flatten(segs);
    NoBooks(ts);
    books := [];
    var good, dc, ac := Sequential.GatherScan(mode, interval, order, data);
    if !good {
      return false, books;
    }
    ScanExpected(mode, interval, ZigzagScan(order, data));
    for tbl := 0 to 2 * NUM_HUFF_TBLS
      invariant |books| == tbl && Tailored(books, ts) && AllShallow(ts, tbl) && MadeBooks(books, ts)
      modifies {}
    {
      var isDC := tbl < NUM_HUFF_TBLS;
      if isDC {
        DcCounts(dc, ac, ts, tbl);
      }
      var row := CopyRow(if isDC then dc else ac, if isDC then tbl else tbl - NUM_HUFF_TBLS);
      var bk := GenerateBook(row, isDC, mode, ts, tbl);
      if bk.None? {
        NotAllShallow(ts, tbl, 2 * NUM_HUFF_TBLS);
        return false, books;
      }
      BooksNext(books, bk.value, ts);
      books := Append(books, bk.value);
    }
    TailoredSegments(books, segs);
    MadeWrites(books, ts);
    ok := true;
  }

  /** Both passes over a sequential scan. */
  method EncodeSequential(mode: ScanMode, interval: nat, order: seq<nat>, data: seq<seq<Block>>, bufSize: nat)
    returns (ok: bool, books: Books, bytes: seq<Byte>)
    requires TablesInRange(mode) && IsOrder(order) && DataShaped(mode, data) && bufSize > 0
    requires Shaped(mode, ZigzagScan(order, data))
    requires Manageable(Flatten(ScanSegments(mode, interval, ZigzagScan(order, data))), 2 * NUM_HUFF_TBLS)
    ensures var segs := ScanSegments(mode, interval, ZigzagScan(order, data));
      && (ok <==> ScanOk(mode, interval, ZigzagScan(order, data)) && AllShallow(Flatten(segs), 2 * NUM_HUFF_TBLS))
      && (ok ==> Tailored(books, Flatten(segs)) && SegmentsCodable(HuffmanCodec(books), segs))
      && (ok ==> SameWrites(HuffmanCodec(books), MadeCodec(Flatten(segs), 2 * NUM_HUFF_TBLS)))
      && (ok ==> bytes == ScanOutput(HuffmanCodec(books), segs))
  {
    hide ScanSegments, Flatten, ScanOk, SegmentsCodable, HuffmanCodec, ScanOutput, ZigzagAll, IsOrder, Tailored,
         Manageable, AllShallow;
    bytes := [];
    ok, books := SequentialTables(mode, interval, order, data);
    if ok {
      var r;
      r, bytes := Sequential.EncodeScan(books, mode, interval, order, data, bufSize, false);
    }
  }

  lemma DcCounts(dc: array2<nat>, ac: array2<nat>, ts: seq<Token>, tbl: nat)
    requires Counts(dc, ac, ts) && tbl < NUM_HUFF_TBLS
    ensures forall s :: 15 < s < 256 ==> Occurrences(ts, tbl, s) == 0
  {
    forall s | 15 < s < 256 ensures Occurrences(ts, tbl, s) == 0 {
      assert Sym(tbl, s) !in ts;
    }
  }
}
