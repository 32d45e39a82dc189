/** How large a suspending destination's buffer must be: room for the longest MCU, stuffed, and a restart
    marker. */
module BufferRoom {
  import opened Wrappers
  import opened BitStrings
  import opened EntropySegments
  import opened HuffmanTables
  import opened Coding
  import opened RunLength
  import opened Scans
  import opened ScanStreams
  import opened TokenSinks
  import opened ScanSymbols
  import opened SequentialScans

  /** Bytes that any block can add, and any restart with the bits that waited. */
  const BLOCK_ROOM := 528
  const RESTART_ROOM := 5

  // ---------------------------------------------------------------- tokens of an MCU

  lemma {:induction false} ZrlsSize(tbl: nat, n: nat)
    ensures |Zrls(tbl, n)| == n
  {
    if n > 0 {
      ZrlsSize(tbl, n - 1);
    }
  }

  /** Each coefficient takes a symbol and its bits, and sixteen zeros a ZRL. */
  lemma {:induction false} BandSize(tbl: nat, y: Block, k: nat, se: nat, r: nat)
    requires k <= se + 1 <= 64
    ensures 16 * |BandTokens(tbl, y, k, se, r)| <= 33 * (se + 1 - k) + r
    decreases 64 - k
  {
    if k > se {
    } else if y[k] == 0 {
      BandSize(tbl, y, k + 1, se, r + 1);
    } else {
      ZrlsSize(tbl, r / 16);
      BandSize(tbl, y, k + 1, se, 0);
    }
  }

  lemma BlockSize(mode: ScanMode, ci: nat, last: int, z: Block)
    requires mode.Sequential? && ci < |mode.comps|
    ensures |BlockCode(mode, ci, last, z)| <= 132
  {
    hide BandTokens;
    BandSize(mode.comps[ci].acTbl, z, 1, 63, 0);
  }

  lemma {:induction false} BlocksSize(mode: ScanMode, last: seq<int>, mcu: Mcu, j: nat)
    requires mode.Sequential? && |last| == |mode.comps| && j <= |mcu| == |mode.membership|
    ensures |BlocksCode(mode, last, mcu, j)| <= 132 * (|mcu| - j)
    decreases |mcu| - j
  {
    hide BlockCode, LastAfter;
    if j < |mcu| {
      var ci := mode.membership[j];
      BlockSize(mode, ci, last[ci], mcu[j]);
      BlocksSize(mode, last[ci := LastAfter(mode, last[ci], mcu[j])], mcu, j + 1);
    }
  }

  // ---------------------------------------------------------------- from tokens to bytes

  /** No code of more than 16 bits. */
  ghost predicate ShortCodes(c: Codec) {
    forall tbl: nat, s: nat :: c.write(tbl, s).Some? ==> |c.write(tbl, s).value| <= 16
  }

  lemma HuffmanShort(books: Books)
    ensures ShortCodes(HuffmanCodec(books))
  {
    var c := HuffmanCodec(books);
    forall tbl: nat, s: nat | c.write(tbl, s).Some? ensures |c.write(tbl, s).value| <= 16 {
      assert BookValid(books, tbl);
      var bk := books[tbl];
      CodeShape(bk.huff, bk.isDC, bk.derived, s);
    }
  }

  lemma {:induction false} StreamSize(c: Codec, mode: ScanMode, ts: seq<Token>)
    requires ShortCodes(c) && AllExpected(mode, ts)
    ensures |StreamBits(c, ts)| <= 16 * |ts|
  {
    hide Expected;
    if ts != [] {
      assert ts[0] in ts && forall t :: t in ts[1..] ==> t in ts;
      StreamSize(c, mode, ts[1..]);
      assert |TokenBits(c, ts[0])| <= 16 by { TokenSize(c, mode, ts[0]); }
    }
  }

  lemma TokenSize(c: Codec, mode: ScanMode, t: Token)
    requires ShortCodes(c) && Expected(mode, t)
    ensures |TokenBits(c, t)| <= 16
  {
  }

  lemma {:induction false} BytesSize(s: Bits)
    ensures 8 * |Bytes(s)| <= |s|
  {
    if |s| >= 8 {
      BytesSize(s[8..]);
    }
  }

  lemma {:induction false} StuffSize(bs: seq<Byte>)
    ensures |Stuff(bs)| <= 2 * |bs|
  {
    if bs != [] {
      StuffSize(bs[1..]);
    }
  }

  /** Bits complete a byte for every eight of them, or two with stuffing. */
  lemma PackSize(before: seq<Byte>, s: Bits, b: Bits)
    ensures 4 * |before + Stuff(Bytes(s + b))| <= 4 * |before + Stuff(Bytes(s))| + 7 + |b|
  {
    hide *;
    PackStep(before, s, b);
    BytesSize(Rem(s) + b);
    StuffSize(Bytes(Rem(s) + b));
  }

  /** Tokens complete at most four bytes each, however many bits waited. */
  lemma CompleteSize(c: Codec, mode: ScanMode, done: seq<seq<Token>>, cur: seq<Token>, ts: seq<Token>)
    requires ShortCodes(c) && AllExpected(mode, ts)
    ensures |Complete(c, done, cur + ts)| <= |Complete(c, done, cur)| + 4 * |ts| + 1
  {
    hide AllExpected, ShortCodes, Sealed, Bytes, Stuff, Rem, StreamBits;
    StreamAppend(c, cur, ts);
    StreamSize(c, mode, ts);
    PackSize(Sealed(SegmentBits(c, done)), StreamBits(c, cur), StreamBits(c, ts));
  }

  lemma CloseSize(c: Codec, done: seq<seq<Token>>, cur: seq<Token>)
    ensures |Complete(c, done + [cur], [])| <= |Complete(c, done, cur)| + 4
  {
    hide Complete, Bytes, Stuff, Rem;
    var pad := Rem(StreamBits(c, cur)) + ONES;
    CompleteClose(c, done, cur);
    BytesSize(pad);
    StuffSize(Bytes(pad));
  }

  // ---------------------------------------------------------------- every MCU fits

  lemma FedSize(c: Codec, mode: ScanMode, interval: nat, e: Enc, mcu: Mcu)
    requires ShortCodes(c) && mode.Sequential? && Fitting(mode, e.coder) && |mcu| == mode.BlocksInMcu()
    requires McuOk(mode, Restarted(mode, interval, e).coder, mcu)
    ensures var e' := Fed(mode, interval, e, mcu);
      |Complete(c, e'.done, e'.cur)| <= |Complete(c, e.done, e.cur)| + BLOCK_ROOM * |mcu| + RESTART_ROOM
  {
    hide Complete, ShortCodes, BlocksCode, BlocksOk, AllExpected;
    var e1 := Restarted(mode, interval, e);
    if interval > 0 && e.togo == 0 {
      assert e.cur + [] == e.cur;
      CloseSize(c, e.done, e.cur);
    }
    McuExpected(mode, e1.coder, mcu);
    BlocksSize(mode, e1.coder.last, mcu, 0);
    CompleteSize(c, mode, e1.done, e1.cur, McuTokens(mode, e1.coder, mcu));
  }

  /** A buffer with room for any MCU has room for each, whatever the tables and the restart interval. */
  lemma {:induction false} RoomForEach(c: Codec, mode: ScanMode, interval: nat, e: Enc, mcus: seq<Mcu>,
                                       bufSize: nat)
    requires ShortCodes(c) && mode.Sequential? && Fitting(mode, e.coder) && Shaped(mode, mcus)
    requires RunOk(mode, interval, e, mcus)
    requires bufSize > BLOCK_ROOM * |mode.membership| + RESTART_ROOM
    ensures EachFits(c, mode, interval, e, mcus, bufSize)
    decreases |mcus|
  {
    hide Complete, ShortCodes, McuOk, Fed, Restarted;
    if mcus != [] {
      FedSize(c, mode, interval, e, mcus[0]);
      RoomForEach(c, mode, interval, Fed(mode, interval, e, mcus[0]), mcus[1..], bufSize);
    }
  }
}
