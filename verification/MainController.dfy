/** Scanlines through the main controller (`jcmainct.c`) and `jpeg_write_scanlines` (`jcapistd.c`):
    however they arrive, and however often the compressor suspends, every iMCU row is accepted once. */
module MainControl {
  import opened Preprocessing

  const DCTSIZE := 8

  /** The coefficient controller, as the main controller sees it: each call takes the whole iMCU row, or
      suspends. `refuses` says which calls suspend. */
  class Receiver {
    const refuses: nat -> bool
    var calls: nat
    var accepted: seq<seq<Group>>

    constructor (refuses: nat -> bool)
      ensures this.refuses == refuses && accepted == [] && calls == 0
    {
      this.refuses, calls, accepted := refuses, 0, [];
    }

    method CompressData(buffer: array<Group>) returns (ok: bool)
      modifies this
      ensures ok == !refuses(old(calls)) && calls == old(calls) + 1
      ensures accepted == if ok then old(accepted) + [buffer[..]] else old(accepted)
    {
      ok := !refuses(calls);
      calls := calls + 1;
      if ok {
        accepted := accepted + [buffer[..]];
      }
    }
  }

  /** iMCU row `t`: eight row groups. */
  function IMcuRow(src: Source, t: nat): seq<Group>
    requires src.Valid()
  {
    seq(DCTSIZE, i requires 0 <= i < DCTSIZE => src.Out(DCTSIZE * t + i))
  }

  /** The iMCU row consists of the output groups `8 t` to `8 t + 7`. */
  ghost predicate EightGroups(src: Source, t: nat, groups: seq<Group>)
    requires src.Valid()
  {
    |groups| == 8 && forall i :: 0 <= i < 8 ==> groups[i] == src.Out(8 * t + i)
  }

  function FirstRows(src: Source, n: nat): seq<seq<Group>>
    requires src.Valid()
  {
    seq(n, t requires 0 <= t < n => IMcuRow(src, t))
  }

  lemma FirstRowsNext(src: Source, n: nat)
    requires src.Valid()
    ensures FirstRows(src, n + 1) == FirstRows(src, n) + [IMcuRow(src, n)]
  {
  }

  /** `total` iMCU rows cover the image, and no fewer do. */
  ghost predicate Covers(src: Source, total: nat) {
    && src.Valid() && total > 0
    && Base(src.rg, DCTSIZE * total) >= |src.image| && Base(src.rg, DCTSIZE * (total - 1)) < |src.image|
  }

  class MainController {
    const prep: PrepController
    const coef: Receiver
    const total: nat
    const buffer: array<Group>
    var curIMcuRow: nat
    var rowgroupCtr: nat
    var suspended: bool

    ghost function Repr(): set<object>
    {
      {this, prep, prep.trueBuffer, prep.pointers, coef, buffer}
    }

    /** Everything accepted so far is the beginning of the image, and the buffer holds what comes next. */
    ghost predicate State()
      reads Repr()
    {
      && prep.Valid() && Covers(prep.src, total) && buffer.Length == DCTSIZE
      && curIMcuRow <= total && rowgroupCtr <= DCTSIZE && (curIMcuRow == total ==> rowgroupCtr == 0)
      && prep.done == DCTSIZE * curIMcuRow + rowgroupCtr
      && prep.Delivered(buffer, 0, rowgroupCtr, DCTSIZE * curIMcuRow)
      && coef.accepted == FirstRows(prep.src, curIMcuRow)
      && (suspended ==> rowgroupCtr == DCTSIZE)
      && (!prep.context && prep.rowsToGo == 0 ==> rowgroupCtr == DCTSIZE || curIMcuRow == total)
      && (curIMcuRow == total ==> prep.rowsToGo == 0)
    }

    /** Between calls. A full buffer means suspension, and when no rows are to come and nothing is
        suspended, all is done. */
    ghost predicate Valid()
      reads Repr()
    {
      && State() && (rowgroupCtr == DCTSIZE ==> suspended)
      && (prep.rowsToGo == 0 && !suspended ==> curIMcuRow == total)
    }

    /** `start_pass_main`. */
    constructor (prep: PrepController, coef: Receiver, total: nat)
      requires prep.Valid() && prep.done == 0 && prep.rowsToGo == |prep.src.image| && Covers(prep.src, total)
      requires coef.accepted == []
      ensures Valid() && curIMcuRow == 0 && !suspended && this.prep == prep && this.coef == coef && this.total == total
      ensures fresh(buffer)
    {
      this.prep, this.coef, this.total := prep, coef, total;
      buffer := new Group[DCTSIZE](_ => []);
      curIMcuRow, rowgroupCtr, suspended := 0, 0, false;
    }

    /** The iMCU row in the buffer is complete. */
    lemma BufferRow()
      requires State() && rowgroupCtr == DCTSIZE
      ensures buffer[..] == IMcuRow(prep.src, curIMcuRow)
    {
    }

    /** An accepted iMCU row that leaves no rows to come was the last one, without context rows. */
    lemma LastRow()
      requires State() && rowgroupCtr == DCTSIZE
      ensures !prep.context && prep.rowsToGo == 0 ==> curIMcuRow + 1 == total
      ensures curIMcuRow + 1 == total ==> prep.rowsToGo == 0
    {
      if curIMcuRow + 1 < total {
        BaseMono(prep.rg, DCTSIZE * (curIMcuRow + 1), DCTSIZE * (total - 1));
      }
    }

    /** `process_data_simple_main`: returns the caller's row counter. While the compressor is suspended
        the counter is one short, so that the last row will be handed in again; the counter never
        underflows. The call stops only for lack of rows, or because the compressor refused. */
    method ProcessData(input: seq<Row>, inRowsAvail: nat) returns (inRowCtr: nat)
      requires Valid() && prep.Feeds(input, if suspended then 1 else 0, inRowsAvail)
      modifies Repr()
      ensures Valid()
      ensures prep.rowsToGo + inRowCtr + (if suspended then 1 else 0) == old(prep.rowsToGo)
          + (if old(suspended) then 1 else 0)
      ensures suspended || curIMcuRow == total || inRowCtr >= inRowsAvail
      ensures suspended ==> coef.calls > 0 && coef.refuses(coef.calls - 1)
      ensures curIMcuRow >= old(curIMcuRow)
    {
      hide State, PrepController.Feeds, PrepController.Valid, Covers;
      Bounds();
      inRowCtr := 0;
      while curIMcuRow < total
        invariant State() && old(curIMcuRow) <= curIMcuRow <= total && (suspended ==> curIMcuRow < total)
        invariant prep.Feeds(input, if suspended then 1 else inRowCtr, inRowsAvail)
        invariant suspended ==>
            old(suspended) && inRowCtr == 0 && rowgroupCtr == DCTSIZE && prep.rowsToGo == old(prep.rowsToGo)
        invariant !suspended ==> prep.rowsToGo + inRowCtr == old(prep.rowsToGo) + (if old(suspended) then 1 else 0)
        invariant !suspended ==> rowgroupCtr < DCTSIZE && (inRowCtr == 0 && curIMcuRow < total ==> prep.rowsToGo > 0)
        decreases total - curIMcuRow
      {
        if rowgroupCtr < DCTSIZE {
          inRowCtr := FillBuffer(input, inRowCtr, inRowsAvail);
        }
        if rowgroupCtr != DCTSIZE {
          return;
        }
        var ok;
        ok, inRowCtr := HandOver(inRowCtr);
        if !ok {
          return;
        }
      }
    }

    lemma Bounds()
      requires Valid()
      ensures State() && curIMcuRow <= total && (suspended ==> rowgroupCtr == DCTSIZE && curIMcuRow < total)
      ensures !suspended ==> rowgroupCtr < DCTSIZE && (curIMcuRow < total ==> prep.rowsToGo > 0)
    {
    }

    /** A full buffer goes to the compressor. */
    method HandOver(inRowCtr: nat) returns (ok: bool, ctr: nat)
      requires State() && rowgroupCtr == DCTSIZE && (suspended || inRowCtr > 0)
      modifies this, coef
      ensures State() && (suspended <==> !ok)
      ensures ctr + (if suspended then 1 else 0) == inRowCtr + (if old(suspended) then 1 else 0)
      ensures if ok then curIMcuRow == old(curIMcuRow) + 1 <= total && rowgroupCtr == 0
              else curIMcuRow == old(curIMcuRow) < total && rowgroupCtr == DCTSIZE
      ensures !ok ==> coef.calls > 0 && coef.refuses(coef.calls - 1)
    {
      BufferRow();
      LastRow();
      FirstRowsNext(prep.src, curIMcuRow);
      ctr := inRowCtr;
      ok := coef.CompressData(buffer);
      if !ok {
        if !suspended {
          ctr := ctr - 1;
          suspended := true;
        }
        return;
      }
      if suspended {
        ctr := ctr + 1;
        suspended := false;
      }
      rowgroupCtr := 0;
      curIMcuRow := curIMcuRow + 1;
    }

    /** The preprocessor fills the buffer as far as the rows go. */
    method FillBuffer(input: seq<Row>, inRowCtr: nat, inRowsAvail: nat) returns (ctr: nat)
      requires State() && !suspended && rowgroupCtr < DCTSIZE && curIMcuRow < total
      requires prep.Feeds(input, inRowCtr, inRowsAvail)
      modifies this`rowgroupCtr, prep, prep.trueBuffer, buffer
      ensures State() && prep.Feeds(input, ctr, inRowsAvail)
      ensures inRowCtr <= ctr && prep.rowsToGo + ctr == old(prep.rowsToGo) + inRowCtr
      ensures rowgroupCtr == DCTSIZE || (ctr >= inRowsAvail && prep.rowsToGo > 0)
      ensures ctr == 0 && old(prep.rowsToGo) > 0 ==> rowgroupCtr < DCTSIZE
    {
      hide PrepController.Valid, Source.Out, Covers, IMcuRow;
      ghost var togo := prep.rowsToGo;
      prep.FeedsBound(input, inRowCtr, inRowsAvail);
      ctr, rowgroupCtr := prep.PreProcess(input, inRowCtr, inRowsAvail, buffer, rowgroupCtr);
      prep.FeedsOn(input, inRowCtr, inRowsAvail, togo, ctr);
    }
  }

  /** The application's side: `next_scanline`, and the global state. */
  class Compressor {
    const main: MainController
    const imageHeight: nat
    var nextScanline: nat
    var scanning: bool
    /** The rows of the image before color conversion. */
    ghost const raw: seq<Row>

    ghost predicate Valid()
      reads this, main, main.Repr()
    {
      && main.Valid() && imageHeight == |main.prep.src.image| == |raw|
      && (forall i :: 0 <= i < |raw| ==> main.prep.convert(raw[i]) == main.prep.src.image[i])
      && main.prep.rowsToGo <= imageHeight
      && nextScanline + (if main.suspended then 1 else 0) + main.prep.rowsToGo == imageHeight
    }

    /** `jpeg_start_compress`. */
    constructor (main: MainController, ghost raw: seq<Row>)
      requires main.Valid() && !main.suspended && main.prep.rowsToGo == |main.prep.src.image| == |raw|
      requires forall i :: 0 <= i < |raw| ==> main.prep.convert(raw[i]) == main.prep.src.image[i]
      ensures Valid() && nextScanline == 0 && scanning && this.main == main && this.raw == raw
    {
      this.main, this.raw, nextScanline, scanning := main, raw, 0, true;
      imageHeight := main.prep.height;
    }

    /** The application has handed in everything exactly when every iMCU row has been accepted. */
    lemma DoneIffAccepted()
      requires Valid()
      ensures nextScanline <= imageHeight
      ensures nextScanline == imageHeight <==> main.curIMcuRow == main.total
      ensures main.coef.accepted == FirstRows(main.prep.src, main.curIMcuRow)
      ensures |main.coef.accepted| == main.curIMcuRow
      ensures forall t :: 0 <= t < main.curIMcuRow ==> EightGroups(main.prep.src, t, main.coef.accepted[t])
    {
    }

    /** `jpeg_write_scanlines`, called with the rows from `next_scanline` on; rows past the bottom of the
        image are ignored. Returns how many rows were taken, or nothing in a wrong state. */
    method WriteScanlines(scanlines: seq<Row>, numLines: nat) returns (ok: bool, taken: nat)
      requires Valid() && numLines <= |scanlines|
      requires forall i :: 0 <= i < numLines && nextScanline + i < imageHeight ==> scanlines[i] == raw[nextScanline + i]
      modifies this, main.Repr()
      ensures Valid() && ok == old(scanning) && scanning == old(scanning)
      ensures nextScanline == old(nextScanline) + taken
      ensures main.curIMcuRow >= old(main.curIMcuRow)
      ensures ok && taken < numLines && nextScanline < imageHeight ==>
        main.suspended && main.coef.calls > 0 && main.coef.refuses(main.coef.calls - 1)
    {
      if !scanning {
        return false, 0;
      }
      DoneIffAccepted();
      var rowsLeft := imageHeight - nextScanline;
      var n := if numLines > rowsLeft then rowsLeft else numLines;
      taken := main.ProcessData(scanlines, n);
      nextScanline := nextScanline + taken;
      ok := true;
    }
  }
}
