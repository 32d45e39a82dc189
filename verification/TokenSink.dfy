/** Where the progressive entropy encoder sends its symbols and bits: to the output, or, in a
    statistics pass, to the symbol counts (`emit_symbol`, `emit_bits` and the marker part of
    `emit_restart` in `jcphuff.c`). */
module TokenSinks {
  import opened Wrappers
  import opened BitStrings
  import opened EntropySegments
  import opened BitOutput
  import opened HuffmanTables
  import opened Coding
  import opened ScanStreams

  function Flatten(segs: seq<seq<Token>>): seq<Token>
  {
    if segs == [] then [] else Flatten(segs[..|segs| - 1]) + segs[|segs| - 1]
  }

  lemma {:induction false} FlattenCons(s: seq<Token>, segs: seq<seq<Token>>)
    ensures Flatten([s] + segs) == s + Flatten(segs)
  {
    var all := [s] + segs;
    if segs == [] {
      assert all[..|all| - 1] == [] && all == [s];
      assert [] + s == s == s + [];
    } else {
      var n := |segs| - 1;
      assert all[..|all| - 1] == [s] + segs[..n];
      FlattenCons(s, segs[..n]);
      assert (s + Flatten(segs[..n])) + segs[n] == s + (Flatten(segs[..n]) + segs[n]);
    }
  }

  lemma FlattenSnoc(segs: seq<seq<Token>>, s: seq<Token>)
    ensures Flatten(segs + [s]) == Flatten(segs) + s
  {
    assert (segs + [s])[..|segs + [s]| - 1] == segs;
  }

  /** How often each symbol occurs: what a statistics pass must count. */
  function Occurrences(ts: seq<Token>, tbl: nat, s: nat): nat { multiset(ts)[Sym(tbl, s)] }

  /** Only 8-bit symbols of the first `tables` tables are used. */
  ghost predicate InAlphabet(ts: seq<Token>, tables: nat) {
    forall t :: t in ts && t.Sym? ==> t.tbl < tables && t.sym < 256
  }

  /** The bytes complete so far: closed segments with their markers, and the whole bytes of the
      open segment. */
  ghost function Complete(c: Codec, done: seq<seq<Token>>, cur: seq<Token>): seq<Byte>
  {
    Sealed(SegmentBits(c, done)) + Stuff(Bytes(StreamBits(c, cur)))
  }

  /** The working state of an encoder: where tokens go, and (as ghosts) which tokens went. `fatal`
      says whether a destination that refuses is an error, as in `jcphuff.c`, or a suspension. */
  class TokenSink {
    const gather: bool
    const fatal: bool
    const books: Books
    const w: BitWriter
    const counts: array2<nat>
    ghost const before: seq<Byte>
    ghost const room: nat
    ghost var done: seq<seq<Token>>
    ghost var cur: seq<Token>

    ghost function Code(): Codec { HuffmanCodec(books) }

    ghost function Repr(): set<object> { {this, w, counts} }

    /** In a statistics pass the counts are those of the tokens so far; otherwise the bytes written
        before and now are exactly the complete bytes of the tokens. */
    ghost predicate Valid()
      reads this, w, counts
    {
      && counts.Length0 == NUM_HUFF_TBLS && counts.Length1 == 257
      && (gather ==> Counted(Flatten(done) + cur))
      && (!gather ==> Written())
    }

    ghost predicate Counted(ts: seq<Token>)
      requires counts.Length0 == NUM_HUFF_TBLS && counts.Length1 == 257
      reads counts
    {
      && InAlphabet(ts, NUM_HUFF_TBLS)
      && (forall tbl, s :: 0 <= tbl < NUM_HUFF_TBLS && 0 <= s < 257 ==> counts[tbl, s] == Occurrences(ts, tbl, s))
    }

    ghost predicate Written()
      reads this, w
    {
      && w.Valid()
      && SegmentsCodable(Code(), done) && AllCodable(Code(), cur)
      && before + w.out == Complete(Code(), done, cur)
      && w.pending == Rem(StreamBits(Code(), cur))
      && (w.suspending ==> w.free + |w.out| == room)
    }

    /** The destination has room for the bytes these tokens complete. */
    ghost predicate Fits(done': seq<seq<Token>>, cur': seq<Token>)
    {
      w.suspending ==> |Complete(Code(), done', cur')| < |before| + room
    }

    /** These tokens will all go through: always in a statistics pass, and otherwise when every
        symbol has a code and the destination has room for the bytes they complete. */
    ghost predicate Accepts(ts: seq<Token>)
      reads this
    {
      gather || (AllCodable(Code(), ts) && Fits(done, cur + ts))
    }

    /** So do the first of them. */
    lemma AcceptsFirst(ts: seq<Token>, now: seq<Token>, later: seq<Token>)
      requires cur + ts == (cur + now) + later && (AllCodable(Code(), ts) ==> AllCodable(Code(), now))
      ensures Accepts(ts) ==> Accepts(now)
    {
      FitsPart(done, cur + now, later);
    }

    lemma FitsPart(done': seq<seq<Token>>, a: seq<Token>, b: seq<Token>)
      ensures Fits(done', a + b) ==> Fits(done', a)
    {
      CompleteGrows(Code(), done', a, b);
    }

    /** What is closed has been written before. */
    lemma FitsClosed(done': seq<seq<Token>>, cur': seq<Token>)
      ensures Fits(done' + [cur'], []) ==> Fits(done', cur')
    {
      CompleteClose(Code(), done', cur');
    }

    /** The destination has room for the finished scan. */
    ghost predicate FitsWhole()
      reads this
    {
      w.suspending ==> |ScanOutput(Code(), done + [cur])| < |before| + room
    }

    constructor (gather: bool, fatal: bool, books: Books, free: nat, bufSize: nat, suspending: bool)
      requires free > 0 && bufSize > 0
      ensures Valid() && fresh(Repr()) && done == [] && cur == []
      ensures this.gather == gather && this.fatal == fatal && this.books == books && w.suspending == suspending
      ensures before == [] && room == free
    {
      this.gather, this.fatal, this.books := gather, fatal, books;
      ShlConstants(0);
      w := new BitWriter(0, 0, free, bufSize, suspending, []);
      counts := new nat[NUM_HUFF_TBLS, 257]((i, j) => 0);
      before, room := [], free;
      done, cur := [], [];
      new;
      assert Rem([]) == [] && Bytes([]) == [] && Stuff([]) == [];
      assert Flatten(done) + cur == [];
    }

    /** A working state that continues a saved one (`encode_mcu_huff`, lines 484 to 487). */
    constructor Resume(books: Books, putBuffer: nat, putBits: nat, free: nat, bufSize: nat, suspending: bool,
                       ghost before: seq<Byte>, ghost done: seq<seq<Token>>, ghost cur: seq<Token>)
      requires free > 0 && bufSize > 0
      requires SegmentsCodable(HuffmanCodec(books), done) && AllCodable(HuffmanCodec(books), cur)
      requires before == Complete(HuffmanCodec(books), done, cur)
      requires var p := Rem(StreamBits(HuffmanCodec(books), cur)); |p| == putBits && Holds(putBuffer, p)
      ensures Valid() && fresh(Repr()) && !gather && !fatal && this.books == books
      ensures this.done == done && this.cur == cur && this.before == before && room == free
      ensures w.suspending == suspending && w.out == [] && w.free == free
    {
      this.gather, this.fatal, this.books := false, false, books;
      w := new BitWriter(putBuffer, putBits, free, bufSize, suspending, Rem(StreamBits(HuffmanCodec(books), cur)));
      counts := new nat[NUM_HUFF_TBLS, 257]((i, j) => 0);
      this.before, this.room, this.done, this.cur := before, free, done, cur;
      new;
      NothingNew(before);
    }

    /** Why tokens `ts` did not all go out after `from`: the destination had no room for them, or
        (with `ok` standing for the caller's own checks) they could not be coded. */
    ghost predicate Explains(r: Outcome, ok: bool, done': seq<seq<Token>>, from: seq<Token>, ts: seq<Token>)
    {
      match r
      case Ok => true
      case Suspended => !gather && !fatal && !Fits(done', from + ts)
      case Error => !ok || (!gather && (!AllCodable(Code(), ts) || (fatal && !Fits(done', from + ts))))
    }

    /** If `now` is why it stopped at `cur`, then it is why all of `ts` did not go out after `from`. */
    lemma ExplainsPart(r: Outcome, ok: bool, ok': bool, done': seq<seq<Token>>, from: seq<Token>, ts: seq<Token>,
                       cur': seq<Token>, now: seq<Token>, later: seq<Token>)
      requires Explains(r, ok, done', cur', now) && (ok' ==> ok)
      requires from + ts == (cur' + now) + later
      requires AllCodable(Code(), ts) ==> AllCodable(Code(), now)
      ensures Explains(r, ok', done', from, ts)
    {
      CompleteGrows(Code(), done', cur' + now, later);
    }

    /** What a refusal of the destination means. */
    function Refusal(): Outcome { if fatal then Error else Suspended }

    /** `emit_bits` outside the counting of symbols. */
    method EmitBits(code: int, size: nat) returns (r: Outcome)
      requires Valid() && 0 < size <= 16
      modifies Repr()
      ensures r == (if gather || Fits(done, old(cur) + [Raw(BitsOf(code, size))]) then Ok else Refusal())
      ensures Explains(r, true, old(done), old(cur), [Raw(BitsOf(code, size))])
      ensures old(Accepts([Raw(BitsOf(code, size))])) ==> r.Ok?
      ensures r.Ok? ==> Valid() && done == old(done) && cur == old(cur) + [Raw(BitsOf(code, size))]
    {
      ghost var t := Raw(BitsOf(code, size));
      if gather {
        RawUncounted(Flatten(done) + cur, t.bits);
        assert Flatten(done) + (cur + [t]) == Flatten(done) + cur + [t];
      } else {
        StreamOne(Code(), t);
        CompleteStep(Code(), done, cur, t);
        r := w.EmitBits(code, size);
        if r == Suspended {
          return Refusal();
        }
        Rejoin(before, old(w.out), Stuff(Bytes(old(w.pending) + TokenBits(Code(), t))));
      }
      cur := cur + [t];
      return Ok;
    }

    /** `emit_symbol`. */
    method EmitSymbol(tbl: nat, s: nat) returns (r: Outcome)
      requires Valid() && tbl < NUM_HUFF_TBLS + NUM_HUFF_TBLS && (gather ==> tbl < NUM_HUFF_TBLS) && s < 256
      modifies Repr()
      ensures r == (if gather then Ok
                    else if !Codable(Code(), Sym(tbl, s)) then Error
                    else if Fits(done, old(cur) + [Sym(tbl, s)]) then Ok else Refusal())
      ensures Explains(r, true, old(done), old(cur), [Sym(tbl, s)])
      ensures old(Accepts([Sym(tbl, s)])) ==> r.Ok?
      ensures r.Ok? ==> Valid() && done == old(done) && cur == old(cur) + [Sym(tbl, s)]
    {
      ghost var t := Sym(tbl, s);
      if gather {
        counts[tbl, s] := counts[tbl, s] + 1;
        SymCounted(Flatten(done) + cur, tbl, s);
        assert Flatten(done) + (cur + [t]) == Flatten(done) + cur + [t];
      } else {
        StreamOne(Code(), t);
        if tbl >= |books| {
          return Error;
        }
        assert BookValid(books, tbl);
        var d := books[tbl].derived;
        SizeAtMost16(books, tbl, s);
        CompleteStep(Code(), done, cur, t);
        r := w.EmitBits(d.code[s], d.size[s]);
        if r == Suspended {
          return Refusal();
        }
        if r == Error {
          return;
        }
        Rejoin(before, old(w.out), Stuff(Bytes(old(w.pending) + TokenBits(Code(), t))));
      }
      cur := cur + [t];
      return Ok;
    }

    /** The output part of a restart: flush the partial byte and write marker RSTn. */
    method CloseSegment(num: nat) returns (r: Outcome)
      requires Valid() && num == |done| % 8
      modifies Repr()
      ensures r == (if gather || Fits(old(done) + [old(cur)], []) then Ok else Refusal())
      ensures r.Ok? ==> Valid() && done == old(done) + [old(cur)] && cur == []
    {
      hide Complete, SegmentsCodable, AllCodable, Stuff, Bytes, Rem, HuffmanCodec;
      FlattenSnoc(done, cur);
      assert Flatten(done + [cur]) + [] == Flatten(done) + cur;
      if !gather {
        CompleteClose(Code(), done, cur);
        ghost var flushed := Stuff(Bytes(w.pending + ONES));
        r := w.FlushBits();
        if r != Ok {
          return Refusal();
        }
        var ok := w.EmitByte(0xFF);
        if !ok {
          return Refusal();
        }
        ok := w.EmitByte(RST0 + num);
        if !ok {
          return Refusal();
        }
        RejoinMarker(before, old(w.out), flushed, num);
      }
      done, cur := done + [cur], [];
      return Ok;
    }

    /** `flush_bits` at the end of a scan: the output is the finished scan. */
    method Finish() returns (r: Outcome)
      requires Valid()
      modifies Repr()
      ensures r == (if gather || old(FitsWhole()) then Ok else Refusal())
      ensures r.Ok? ==> done == old(done) && cur == old(cur)
      ensures r.Ok? && gather ==> Counted(Flatten(done + [cur]))
      ensures r.Ok? && !gather ==>
                before + w.out == ScanOutput(Code(), done + [cur]) && SegmentsCodable(Code(), done + [cur])
                && w.free > 0 && (w.suspending ==> w.free + |w.out| == room)
    {
      hide Complete, ScanOutput, SegmentsCodable, StreamBits, AllCodable, Stuff, Bytes, Rem, Flatten, HuffmanCodec;
      FlattenSnoc(done, cur);
      if !gather {
        CompleteFinish(Code(), done, cur);
        r := w.FlushBits();
        if r != Ok {
          return Refusal();
        }
        Rejoin(before, old(w.out), Stuff(Bytes(old(w.pending) + ONES)));
      }
      return Ok;
    }
  }

  /** Flushing writes at most one byte, stuffed. */
  lemma FlushIsShort(p: Bits)
    requires |p| < 8
    ensures |Stuff(Bytes(p + ONES))| <= 2
  {
    var s := p + ONES;
    if |s| >= 8 {
      assert Bytes(s[8..]) == [];
      assert Bytes(s) == [Val(s[..8])];
    }
  }

  /** So finishing a scan adds at most two bytes. */
  lemma FinishShort(c: Codec, done: seq<seq<Token>>, cur: seq<Token>)
    ensures |ScanOutput(c, done + [cur])| <= |Complete(c, done, cur)| + 2
  {
    hide Complete, ScanOutput, Stuff, Bytes, Rem, StreamBits;
    CompleteFinish(c, done, cur);
    FlushIsShort(Rem(StreamBits(c, cur)));
  }

  lemma NothingNew(before: seq<Byte>)
    ensures before + [] == before
  {
  }

  /** Bytes move from what is being written to what is written. */
  lemma Rejoin(a: seq<Byte>, b: seq<Byte>, c: seq<Byte>)
    ensures a + (b + c) == (a + b) + c
  {
  }

  lemma RejoinMarker(a: seq<Byte>, b: seq<Byte>, c: seq<Byte>, num: nat)
    requires num < 8
    ensures a + (b + c + [0xFF] + [RST0 + num]) == (a + b) + c + RestartMarker(num)
  {
  }

  /** One more token: the complete bytes grow by what its bits complete. */
  lemma CompleteStep(c: Codec, done: seq<seq<Token>>, cur: seq<Token>, t: Token)
    ensures AllCodable(c, cur) && Codable(c, t) ==> AllCodable(c, cur + [t])
    ensures Complete(c, done, cur + [t])
         == Complete(c, done, cur) + Stuff(Bytes(Rem(StreamBits(c, cur)) + TokenBits(c, t)))
    ensures Rem(StreamBits(c, cur + [t])) == Rem(Rem(StreamBits(c, cur)) + TokenBits(c, t))
  {
    StreamOne(c, t);
    StreamAppend(c, cur, [t]);
    CodableAppend(c, cur, [t]);
    PackStep(Sealed(SegmentBits(c, done)), StreamBits(c, cur), TokenBits(c, t));
  }

  /** More tokens never make fewer bytes complete. */
  lemma CompleteGrows(c: Codec, done: seq<seq<Token>>, cur: seq<Token>, ts: seq<Token>)
    ensures Complete(c, done, cur) <= Complete(c, done, cur + ts)
  {
    StreamAppend(c, cur, ts);
    PackStep(Sealed(SegmentBits(c, done)), StreamBits(c, cur), StreamBits(c, ts));
  }

  /** Finishing: the scan is what is complete, and the padded rest. */
  lemma CompleteFinish(c: Codec, done: seq<seq<Token>>, cur: seq<Token>)
    ensures ScanOutput(c, done + [cur]) == Complete(c, done, cur) + Stuff(Bytes(Rem(StreamBits(c, cur)) + ONES))
    ensures SegmentsCodable(c, done) && AllCodable(c, cur) ==> SegmentsCodable(c, done + [cur])
  {
    PackStep(Sealed(SegmentBits(c, done)), StreamBits(c, cur), ONES);
    assert (done + [cur])[..|done + [cur]| - 1] == done;
  }

  /** Closing the open segment: the complete bytes grow by the padded rest and the marker. */
  lemma CompleteClose(c: Codec, done: seq<seq<Token>>, cur: seq<Token>)
    ensures Complete(c, done + [cur], [])
         == Complete(c, done, cur) + Stuff(Bytes(Rem(StreamBits(c, cur)) + ONES)) + RestartMarker(|done|)
    ensures SegmentsCodable(c, done) && AllCodable(c, cur) ==> SegmentsCodable(c, done + [cur])
    ensures AllCodable(c, []) && Rem(StreamBits(c, [])) == []
  {
    PackStep(Sealed(SegmentBits(c, done)), StreamBits(c, cur), ONES);
    var segs := SegmentBits(c, done + [cur]);
    assert segs[..|segs| - 1] == SegmentBits(c, done);
    assert Stuff(Bytes(StreamBits(c, []))) == [];
    NothingNew(Sealed(segs));
  }

  /** Bits written after `s`, with only its incomplete byte at hand, continue the packing of `s`. */
  lemma PackStep(before: seq<Byte>, s: Bits, b: Bits)
    ensures before + Stuff(Bytes(s + b)) == (before + Stuff(Bytes(s))) + Stuff(Bytes(Rem(s) + b))
    ensures Rem(s + b) == Rem(Rem(s) + b)
  {
    PackAppend(s, b);
    StuffAppend(Bytes(s), Bytes(Rem(s) + b));
  }

  lemma RawUncounted(ts: seq<Token>, bits: Bits)
    ensures forall tbl: nat, s: nat :: Occurrences(ts + [Raw(bits)], tbl, s) == Occurrences(ts, tbl, s)
  {
  }

  lemma SymCounted(ts: seq<Token>, tbl: nat, s: nat)
    ensures forall t: nat, u: nat ::
      Occurrences(ts + [Sym(tbl, s)], t, u) == Occurrences(ts, t, u) + (if t == tbl && u == s then 1 else 0)
  {
  }

  lemma SizeAtMost16(books: Books, tbl: nat, s: nat)
    requires tbl < |books| && s < 256
    ensures books[tbl].derived.Typed() && books[tbl].derived.size[s] <= 16
  {
    assert BookValid(books, tbl);
    var bk := books[tbl];
    if bk.derived.HasCode(s) {
      CodeShape(bk.huff, bk.isDC, bk.derived, s);
    }
  }
}
