/** The preprocessing controller (`jcprepct.c`): input rows become row groups for the downsampler, with
    or without context rows, whatever the height of the image and however the rows arrive. */
module Preprocessing {

  /** One row of samples, of all components. */
  type Row = seq<int>

  /** What the downsampler makes of one row group: for each component its rows. */
  type Group = seq<seq<Row>>

  // ---------------------------------------------------------------- what must come out

  /** The first row of group `g`. */
  function Base(rg: nat, g: nat): nat
  {
    if g == 0 then 0 else Base(rg, g - 1) + rg
  }

  /** Row `r` of the image continued above and below by its first and last row. */
  function Extended(image: seq<Row>, r: int): Row
    requires image != []
  {
    if r < 0 then image[0] else if r >= |image| then image[|image| - 1] else image[r]
  }

  /** `n` rows of the extended image from row `from` on. */
  function Rows(image: seq<Row>, from: int, n: nat): (s: seq<Row>)
    requires image != []
    ensures |s| == n
  {
    seq(n, i requires 0 <= i < n => Extended(image, from + i))
  }

  /** A group whose rows all repeat the last rows of another. */
  function Repeated(group: Group): Group
  {
    seq(|group|, c requires 0 <= c < |group| =>
      if group[c] == [] then [] else seq(|group[c]|, _ => group[c][|group[c]| - 1]))
  }

  /** The image, its row groups' height, and the downsampler: with context it sees three row groups,
      else one. */
  datatype Source = Source(image: seq<Row>, rg: nat, context: bool, down: seq<Row> -> Group) {
    ghost predicate Valid() { image != [] && rg > 0 }

    /** Output group `g`. With context rows every group is downsampled from the extended image; without,
        the groups below the image repeat the last output rows. */
    function Out(g: nat): Group
      requires Valid()
    {
      if context then down(Rows(image, Base(rg, g) - rg, 3 * rg))
      else if g == 0 || Base(rg, g) < |image| then down(Rows(image, Base(rg, g), rg))
      else Repeated(Out(g - 1))
    }
  }

  /** Wraparound in a buffer of `n` rows. */
  function Wrap(j: int, n: nat): int
  {
    if j < 0 then j + n else if j >= n then j - n else j
  }

  // ---------------------------------------------------------------- the buffer

  /** `create_context_buffer`: three row groups, seen through pointers that repeat the last group above
      the first and the first group below the last. Pointer `rg + j` is `color_buf[j]`. */
  method CreateContextBuffer(rg: nat) returns (buffer: array<Row>, fake: array<nat>)
    ensures fresh(buffer) && fresh(fake) && buffer.Length == 3 * rg && fake.Length == 5 * rg
    ensures forall k :: 0 <= k < 5 * rg ==> fake[k] == Wrap(k - rg, 3 * rg)
  {
    buffer := new Row[3 * rg](_ => []);
    fake := new nat[5 * rg](_ => 0);
    for i := 0 to 3 * rg
      invariant forall k :: rg <= k < rg + i ==> fake[k] == Wrap(k - rg, 3 * rg)
      modifies fake
    {
      fake[rg + i] := i;
    }
    for i := 0 to rg
      invariant forall k :: 0 <= k < i ==> fake[k] == Wrap(k - rg, 3 * rg)
      invariant forall k :: rg <= k < 4 * rg + i ==> fake[k] == Wrap(k - rg, 3 * rg)
      modifies fake
    {
      fake[i] := 2 * rg + i;
      fake[4 * rg + i] := i;
    }
  }

  // ---------------------------------------------------------------- the window of context rows

  ghost predicate SlotAt(buf: seq<Row>, image: seq<Row>, rg: nat, base: int, this_: int, j: int)
    requires image != [] && |buf| == 3 * rg && 0 <= this_ <= 2 * rg && 0 <= rg + j < 3 * rg
  {
    buf[Wrap(this_ + j, 3 * rg)] == Extended(image, base + j)
  }

  /** Around row `base`, which is at `this_` in the buffer, the extended image is in place from one group
      above up to row `to`. */
  ghost predicate InPlace(buf: seq<Row>, image: seq<Row>, rg: nat, base: int, this_: int, to: int)
    requires image != [] && |buf| == 3 * rg && 0 <= this_ <= 2 * rg
  {
    forall j :: 0 <= rg + j < 3 * rg && base + j < to ==> SlotAt(buf, image, rg, base, this_, j)
  }

  /** `buf'` is `buf` with rows `from` on of the extended image stored at `at`. */
  ghost predicate Stored(buf: seq<Row>, buf': seq<Row>, image: seq<Row>, at: nat, from: int, n: nat)
    requires image != []
  {
    && |buf'| == |buf| && at + n <= |buf|
    && (forall i :: 0 <= i < at ==> buf'[i] == buf[i])
    && (forall i :: at + n <= i < |buf| ==> buf'[i] == buf[i])
    && (forall i :: at <= i < at + n ==> buf'[i] == Extended(image, from + (i - at)))
  }

  /** Row `to`, the next to be stored, belongs at `at`. */
  ghost predicate Aligned(rg: nat, base: int, this_: int, at: int, to: int) {
    && this_ in {0, rg, 2 * rg} && to <= base + 2 * rg && (if this_ == 0 && base == 0 then 0 <= to else base + rg <= to)
    && at + (base + 2 * rg - to) == if this_ == 2 * rg then rg else this_ + 2 * rg
  }

  lemma StoreRows(buf: seq<Row>, buf': seq<Row>, image: seq<Row>, rg: nat, base: int, this_: int, at: nat, to: int,
                  n: nat)
    requires image != [] && |buf| == 3 * rg && Aligned(rg, base, this_, at, to) && Stored(buf, buf', image, at, to, n)
    requires to + n <= base + 2 * rg && InPlace(buf, image, rg, base, this_, to)
    ensures InPlace(buf', image, rg, base, this_, to + n)
  {
    forall j | 0 <= rg + j < 3 * rg && base + j < to + n ensures SlotAt(buf', image, rg, base, this_, j) {
      if base + j < to {
        assert SlotAt(buf, image, rg, base, this_, j);
      }
    }
  }

  /** The row before the next one to be stored, through a wrapped pointer if need be. */
  lemma RowBefore(buf: seq<Row>, image: seq<Row>, rg: nat, base: int, this_: int, at: nat, to: int)
    requires image != [] && rg > 0 && |buf| == 3 * rg && Aligned(rg, base, this_, at, to) && to > 0
    requires InPlace(buf, image, rg, base, this_, to) && at <= 3 * rg
    ensures buf[if at > 0 then at - 1 else 3 * rg - 1] == Extended(image, to - 1)
  {
    assert SlotAt(buf, image, rg, base, this_, to - 1 - base);
  }

  /** The first rows of the image, with the top row repeated above them. */
  lemma StoreFirst(buf: seq<Row>, image: seq<Row>, rg: nat, n: nat)
    requires image != [] && |buf| == 3 * rg && 0 < n <= 2 * rg
    requires forall i :: 0 <= i < n ==> buf[i] == Extended(image, i)
    requires forall i :: 2 * rg <= i < 3 * rg ==> buf[i] == image[0]
    ensures InPlace(buf, image, rg, 0, 0, n)
  {
    forall j | 0 <= rg + j < 3 * rg && j < n ensures SlotAt(buf, image, rg, 0, 0, j) {
    }
  }

  /** On to the next group. */
  lemma NextGroup(buf: seq<Row>, image: seq<Row>, rg: nat, base: int, this_: int, to: int)
    requires image != [] && |buf| == 3 * rg && rg > 0 && this_ in {0, rg, 2 * rg}
    requires InPlace(buf, image, rg, base, this_, to)
    requires to <= base + 2 * rg
    ensures InPlace(buf, image, rg, base + rg, if this_ + rg >= 3 * rg then 0 else this_ + rg, to)
  {
    var next, b := if this_ + rg >= 3 * rg then 0 else this_ + rg, base + rg;
    forall j | 0 <= rg + j < 3 * rg && b + j < to ensures SlotAt(buf, image, rg, b, next, j) {
      assert SlotAt(buf, image, rg, base, this_, j + rg);
    }
  }

  // ---------------------------------------------------------------- the controller

  class PrepController {
    const height: nat
    const rg: nat
    const context: bool
    const convert: Row -> Row
    const down: seq<Row> -> Group
    const trueBuffer: array<Row>
    const pointers: array<nat>
    var rowsToGo: nat
    var nextBufRow: nat
    var thisRowGroup: nat
    var nextBufStop: nat
    ghost const src: Source
    /** How many rows, with those added below the image, have entered the buffer, and how many groups
        have left it. */
    ghost var entered: nat
    ghost var done: nat

    /** `jinit_c_prep_controller` and `start_pass_prep`. */
    constructor (src: Source, convert: Row -> Row)
      requires src.Valid()
      ensures Valid() && this.src == src && this.convert == convert && rowsToGo == |src.image| && done == 0
      ensures fresh(trueBuffer) && fresh(pointers)
    {
      this.src, this.convert := src, convert;
      height, rg, context, down := |src.image|, src.rg, src.context, src.down;
      var buffer, fake;
      if src.context {
        buffer, fake := CreateContextBuffer(src.rg);
      } else {
        buffer := new Row[src.rg](_ => []);
        fake := new nat[0];
      }
      trueBuffer, pointers := buffer, fake;
      rowsToGo, nextBufRow, thisRowGroup, nextBufStop := |src.image|, 0, 0, 2 * src.rg;
      entered, done := 0, 0;
    }

    ghost predicate Wired()
      reads this, pointers
    {
      && src.Valid() && height == |src.image| && rg == src.rg && context == src.context && down == src.down
      && trueBuffer.Length == (if context then 3 * rg else rg)
      && (context ==> pointers.Length == 5 * rg && forall k :: 0 <= k < 5 * rg ==> pointers[k] == Wrap(k - rg, 3 * rg))
    }

    /** Rows in step with the image. */
    ghost predicate Counted()
      reads this
    {
      rowsToGo <= height && if rowsToGo > 0 then entered == height - rowsToGo else entered >= height
    }

    ghost predicate Valid()
      reads this, trueBuffer, pointers
    {
      Wired() && Counted() && if context then ContextState() else DataState()
    }

    /** `color_buf[j]` with context rows. */
    function Seen(j: int): Row
      requires Wired() && context && 0 <= rg + j < 5 * rg
      reads this, trueBuffer, pointers
    {
      trueBuffer[pointers[rg + j]]
    }

    /** With context rows: the extended image is in place around the group to process, and the group
        after the next one is not complete. */
    ghost predicate ContextState()
      requires Wired() && context
      reads this, trueBuffer, pointers
    {
      Position() && entered < Base(rg, done) + 2 * rg && (entered > 0 ==> Around())
    }

    ghost predicate Around()
      requires Wired() && context && Position()
      reads this, trueBuffer, pointers
    {
      InPlace(trueBuffer[..], src.image, rg, Base(rg, done), thisRowGroup, entered)
    }

    ghost predicate Position()
      reads this
    {
      var base := Base(rg, done);
      && Aligned(rg, base, thisRowGroup, nextBufRow, entered) && (done == 0 ==> thisRowGroup == 0)
      && nextBufStop == nextBufRow + (base + 2 * rg - entered)
    }

    /** Without context: the buffer holds the beginning of the group being filled. */
    ghost predicate DataState()
      requires Wired() && !context
      reads this, trueBuffer, pointers
    {
      && nextBufRow < rg
      && (rowsToGo > 0 ==> entered == Base(rg, done) + nextBufRow)
      && (rowsToGo == 0 ==> Base(rg, done) >= height)
      && forall j :: 0 <= j < nextBufRow ==> trueBuffer[j] == Extended(src.image, Base(rg, done) + j)
    }

    /** The rows offered are the next rows of the image, before color conversion. */
    ghost predicate Feeds(input: seq<Row>, inRowCtr: nat, inRowsAvail: nat)
      reads this
    {
      && src.Valid() && inRowsAvail <= |input| && rowsToGo <= |src.image|
      && inRowsAvail - inRowCtr <= rowsToGo
      && forall i :: inRowCtr <= i < inRowsAvail ==>
           convert(input[i]) == src.image[|src.image| - rowsToGo + (i - inRowCtr)]
    }

    /** Color conversion of `n` rows into the buffer from row `at` on. */
    method ColorConvert(input: seq<Row>, inRowCtr: nat, at: nat, n: nat)
      requires Wired() && inRowCtr + n <= |input| && at + n <= trueBuffer.Length
      modifies trueBuffer
      ensures forall i :: 0 <= i < at ==> trueBuffer[i] == old(trueBuffer[i])
      ensures forall i :: at + n <= i < trueBuffer.Length ==> trueBuffer[i] == old(trueBuffer[i])
      ensures forall i :: at <= i < at + n ==> trueBuffer[i] == convert(input[inRowCtr + (i - at)])
    {
      for i := 0 to n
        invariant forall k :: 0 <= k < at ==> trueBuffer[k] == old(trueBuffer[k])
        invariant forall k :: at + i <= k < trueBuffer.Length ==> trueBuffer[k] == old(trueBuffer[k])
        invariant forall k :: at <= k < at + i ==> trueBuffer[k] == convert(input[inRowCtr + (k - at)])
      {
        trueBuffer[if context then pointers[rg + at + i] else at + i] := convert(input[inRowCtr + i]);
      }
    }

    /** `expand_bottom_edge` on the conversion buffer: copies of the row before `from`, which may be
        reached through a wrapped pointer. */
    method ExpandBuffer(from: nat, to: nat)
      requires Wired() && from <= to <= trueBuffer.Length && (from > 0 || context)
      modifies trueBuffer
      ensures forall i :: 0 <= i < from ==> trueBuffer[i] == old(trueBuffer[i])
      ensures forall i :: to <= i < trueBuffer.Length ==> trueBuffer[i] == old(trueBuffer[i])
      ensures forall i :: from <= i < to ==>
        trueBuffer[i] == old(trueBuffer[if from > 0 then from - 1 else trueBuffer.Length - 1])
      requires to - from < trueBuffer.Length
    {
      for row := from to to
        invariant forall i :: 0 <= i < from ==> trueBuffer[i] == old(trueBuffer[i])
        invariant forall i :: row <= i < trueBuffer.Length ==> trueBuffer[i] == old(trueBuffer[i])
        invariant forall i :: from <= i < row ==>
          trueBuffer[i] == old(trueBuffer[if from > 0 then from - 1 else trueBuffer.Length - 1])
      {
        trueBuffer[if context then pointers[rg + row] else row] :=
          trueBuffer[if context then pointers[rg + from - 1] else from - 1];
      }
    }

    /** Copies of the first row above it. */
    method PadTop()
      requires Wired() && context
      modifies trueBuffer
      ensures forall i :: 0 <= i < 2 * rg ==> trueBuffer[i] == old(trueBuffer[i])
      ensures forall i :: 2 * rg <= i < 3 * rg ==> trueBuffer[i] == old(trueBuffer[0])
    {
      for row := 1 to rg + 1
        invariant forall i :: 0 <= i < 3 * rg - row + 1 ==> trueBuffer[i] == old(trueBuffer[i])
        invariant forall i :: 3 * rg - row < i < 3 * rg ==> trueBuffer[i] == old(trueBuffer[0])
      {
        trueBuffer[pointers[rg - row]] := trueBuffer[pointers[rg]];
      }
    }

    /** Color conversion of the next `n` rows of the image. */
    method StoreNext(input: seq<Row>, inRowCtr: nat, inRowsAvail: nat, n: nat)
      requires Wired() && Feeds(input, inRowCtr, inRowsAvail)
      requires inRowCtr + n <= inRowsAvail && nextBufRow + n <= trueBuffer.Length
      modifies trueBuffer
      ensures Stored(old(trueBuffer[..]), trueBuffer[..], src.image, nextBufRow, height - rowsToGo, n)
    {
      ColorConvert(input, inRowCtr, nextBufRow, n);
      forall i | nextBufRow <= i < nextBufRow + n
        ensures trueBuffer[i] == Extended(src.image, height - rowsToGo + (i - nextBufRow))
      {
        var k := inRowCtr + (i - nextBufRow);
        assert convert(input[k]) == src.image[height - rowsToGo + (k - inRowCtr)];
      }
    }

    /** The next rows into the window; with the first ones, the first row fills the group above as well. */
    method StoreWindow(input: seq<Row>, inRowCtr: nat, inRowsAvail: nat, n: nat)
      requires Valid() && context && Feeds(input, inRowCtr, inRowsAvail) && inRowCtr + n <= inRowsAvail
      requires 0 < n <= nextBufStop - nextBufRow && rowsToGo > 0
      modifies trueBuffer
      ensures InPlace(trueBuffer[..], src.image, rg, Base(rg, done), thisRowGroup, entered + n)
    {
      hide Feeds, InPlace, Base, Stored, Extended, Wrap;
      StoreNext(input, inRowCtr, inRowsAvail, n);
      if rowsToGo == height {
        ghost var now := trueBuffer[..];
        PadTop();
        TopDone(old(trueBuffer[..]), now, trueBuffer[..], src.image, rg, n);
      } else {
        StoreRows(old(trueBuffer[..]), trueBuffer[..], src.image, rg, Base(rg, done), thisRowGroup, nextBufRow, entered,
                  n);
      }
    }

    /** The branch of `pre_process_context` that takes input rows. */
    method TakeContextRows(input: seq<Row>, inRowCtr: nat, inRowsAvail: nat) returns (ctr: nat)
      requires Valid() && context && Feeds(input, inRowCtr, inRowsAvail) && inRowCtr < inRowsAvail
      modifies this`rowsToGo, this`nextBufRow, this`entered, trueBuffer
      ensures Wired() && Counted() && Position() && Around()
      ensures inRowCtr < ctr <= inRowsAvail && rowsToGo + ctr == old(rowsToGo) + inRowCtr
    {
      hide Feeds, InPlace, Base, Stored, Extended, Wrap;
      ghost var base := Base(rg, done);
      FeedsBound(input, inRowCtr, inRowsAvail);
      var inrows := inRowsAvail - inRowCtr;
      var numrows := nextBufStop - nextBufRow;
      if inrows < numrows {
        numrows := inrows;
      }
      StoreWindow(input, inRowCtr, inRowsAvail, numrows);
      ctr := inRowCtr + numrows;
      nextBufRow := nextBufRow + numrows;
      rowsToGo := rowsToGo - numrows;
      entered := entered + numrows;
    }

    lemma FeedsBound(input: seq<Row>, inRowCtr: nat, inRowsAvail: nat)
      requires Feeds(input, inRowCtr, inRowsAvail)
      ensures src.Valid() && inRowsAvail <= |input| && inRowsAvail - inRowCtr <= rowsToGo
    {
    }

    /** The branch that pads below the image. */
    method PadContextRows()
      requires Valid() && context && rowsToGo == 0
      modifies this`nextBufRow, this`entered, trueBuffer
      ensures Wired() && Counted() && Position() && Around() && nextBufRow == nextBufStop
    {
      hide InPlace, Base, Feeds, Extended;
      if nextBufRow < nextBufStop {
        ghost var base := Base(rg, done);
        var n := nextBufStop - nextBufRow;
        RowBefore(trueBuffer[..], src.image, rg, base, thisRowGroup, nextBufRow, entered);
        ExpandBuffer(nextBufRow, nextBufStop);
        BottomStored(old(trueBuffer[..]), trueBuffer[..], src.image, nextBufRow, entered, n);
        StoreRows(old(trueBuffer[..]), trueBuffer[..], src.image, rg, base, thisRowGroup, nextBufRow, entered, n);
        entered := entered + n;
        nextBufRow := nextBufStop;
      }
    }

    /** The rows the downsampler sees for the group to process: one group above to one group below. */
    ghost function Visible(): seq<Row>
      requires Wired() && context && thisRowGroup <= 2 * rg
      reads this, trueBuffer, pointers
    {
      seq(3 * rg, i requires 0 <= i < 3 * rg && Wired() && context && thisRowGroup <= 2 * rg
        reads this, trueBuffer, pointers => Seen(thisRowGroup - rg + i))
    }

    lemma VisibleAt(i: nat)
      requires Wired() && Position() && context && Around() && entered == Base(rg, done) + 2 * rg && i < 3 * rg
      ensures Seen(thisRowGroup - rg + i) == Extended(src.image, Base(rg, done) - rg + i)
    {
      hide Base, Extended;
      var buf, base, j := trueBuffer[..], Base(rg, done), i - rg;
      assert SlotAt(buf, src.image, rg, base, thisRowGroup, j);
      assert pointers[thisRowGroup + i] == Wrap(thisRowGroup + j, 3 * rg);
      assert base + j == base - rg + i;
    }

    /** They are the rows of the extended image. */
    lemma VisibleRows()
      requires Wired() && Position() && context && Around() && entered == Base(rg, done) + 2 * rg
      ensures Visible() == Rows(src.image, Base(rg, done) - rg, 3 * rg)
    {
      hide Base, Extended, Seen;
      forall i | 0 <= i < 3 * rg ensures Visible()[i] == Rows(src.image, Base(rg, done) - rg, 3 * rg)[i] {
        VisibleAt(i);
      }
    }

    method Downsample() returns (group: Group)
      requires Wired() && context && thisRowGroup <= 2 * rg
      ensures group == down(Visible())
    {
      var rows: seq<Row> := [];
      for i := 0 to 3 * rg
        invariant |rows| == i && forall k :: 0 <= k < i ==> rows[k] == Visible()[k]
      {
        rows := rows + [Seen(thisRowGroup - rg + i)];
      }
      assert rows == Visible();
      return down(rows);
    }

    /** A full window: the group is downsampled and the pointers advance. */
    method EmitContextGroup(out: array<Group>, outCtr: nat)
      requires Wired() && Counted() && context && Position() && Around() && nextBufRow == nextBufStop
      requires outCtr < out.Length
      modifies this`nextBufRow, this`thisRowGroup, this`nextBufStop, this`done, out
      ensures Valid() && done == old(done) + 1 && entered == Base(rg, done) + rg
      ensures out[outCtr] == src.Out(old(done))
      ensures forall i :: 0 <= i < out.Length && i != outCtr ==> out[i] == old(out[i])
    {
      hide InPlace, Extended;
      VisibleRows();
      out[outCtr] := Downsample();
      NextWindow();
    }

    method NextWindow()
      requires Wired() && Counted() && context && Position() && Around() && nextBufRow == nextBufStop
      modifies this`nextBufRow, this`thisRowGroup, this`nextBufStop, this`done
      ensures Valid() && done == old(done) + 1 && entered == Base(rg, done) + rg
    {
      hide InPlace, Extended;
      NextGroup(trueBuffer[..], src.image, rg, Base(rg, done), thisRowGroup, entered);
      thisRowGroup := thisRowGroup + rg;
      if thisRowGroup >= 3 * rg {
        thisRowGroup := 0;
      }
      if nextBufRow >= 3 * rg {
        nextBufRow := 0;
      }
      nextBufStop := nextBufRow + rg;
      done := done + 1;
    }

    /** Output row groups `from` to `to - 1` of the buffer are the groups of the image after the first
        `done0`. */
    ghost predicate Delivered(out: array<Group>, from: nat, to: nat, done0: nat)
      requires src.Valid()
      reads out
    {
      to <= out.Length && forall i :: from <= i < to ==> out[i] == src.Out(done0 + (i - from))
    }

    /** What has been taken from the input moves on in step with the image. */
    lemma FeedsOn(input: seq<Row>, inRowCtr: nat, inRowsAvail: nat, togo: nat, ctr: nat)
      requires src.Valid() && inRowCtr <= ctr && inRowsAvail <= |input| && togo <= |src.image|
      requires inRowsAvail - inRowCtr <= togo && rowsToGo + ctr == togo + inRowCtr
      requires forall i :: inRowCtr <= i < inRowsAvail ==>
          convert(input[i]) == src.image[|src.image| - togo + (i - inRowCtr)]
      ensures Feeds(input, ctr, inRowsAvail)
    {
    }

    /** No row has been taken beyond the first `ahead` rows after the groups that went out. */
    ghost predicate JustEnough(ahead: nat)
      reads this
    {
      rowsToGo > 0 ==> height - rowsToGo == Base(rg, done) + ahead
    }

    /** One turn of the loop of `pre_process_context`. */
    method ContextStep(input: seq<Row>, inRowCtr: nat, inRowsAvail: nat, out: array<Group>, outCtr: nat)
      returns (inCtr: nat, outCtr': nat)
      requires Valid() && context && Feeds(input, inRowCtr, inRowsAvail) && outCtr < out.Length
      requires inRowCtr < inRowsAvail || rowsToGo == 0
      modifies this, trueBuffer, out
      ensures Valid() && Feeds(input, inCtr, inRowsAvail)
      ensures inRowCtr <= inCtr && (inCtr <= inRowsAvail || inCtr == inRowCtr)
      ensures rowsToGo + inCtr == old(rowsToGo) + inRowCtr
      ensures outCtr' in {outCtr, outCtr + 1} && (inCtr > inRowCtr || outCtr' > outCtr)
      ensures inRowCtr < inRowsAvail ==> inRowCtr < inCtr
      ensures done == old(done) + (outCtr' - outCtr)
      ensures outCtr' > outCtr ==> out[outCtr] == src.Out(old(done)) && JustEnough(rg)
      ensures forall i :: 0 <= i < out.Length && i != outCtr ==> out[i] == old(out[i])
    {
      hide Position, Around, ContextState, Source.Out, Wired;
      inCtr, outCtr' := inRowCtr, outCtr;
      ghost var togo := rowsToGo;
      if inRowCtr < inRowsAvail {
        inCtr := TakeContextRows(input, inRowCtr, inRowsAvail);
      } else {
        PadContextRows();
      }
      FeedsOn(input, inRowCtr, inRowsAvail, togo, inCtr);
      if nextBufRow == nextBufStop {
        EmitContextGroup(out, outCtr);
        outCtr' := outCtr + 1;
      } else {
        NotFull();
      }
    }

    lemma NotFull()
      requires Wired() && Counted() && context && Position() && Around() && nextBufRow != nextBufStop
      ensures Valid()
    {
    }

    /** `pre_process_context`: stops when the output is full, or the input used up above the bottom of
        the image. */
    method PreProcessContext(input: seq<Row>, inRowCtr: nat, inRowsAvail: nat, out: array<Group>, outCtr: nat)
      returns (inCtr: nat, outCtr': nat)
      requires Valid() && context && Feeds(input, inRowCtr, inRowsAvail) && outCtr <= out.Length
      modifies this, trueBuffer, out
      ensures Valid() && outCtr <= outCtr' <= out.Length && done == old(done) + (outCtr' - outCtr)
      ensures inRowCtr <= inCtr && (inCtr <= inRowsAvail || inCtr == inRowCtr)
      ensures rowsToGo + inCtr == old(rowsToGo) + inRowCtr
      ensures Delivered(out, outCtr, outCtr', old(done))
      ensures forall i :: 0 <= i < outCtr ==> out[i] == old(out[i])
      ensures outCtr' == out.Length || (inCtr >= inRowsAvail && rowsToGo > 0)
      ensures inCtr == inRowCtr && old(rowsToGo) > 0 ==> outCtr' == outCtr
      ensures outCtr < outCtr' == out.Length ==> JustEnough(rg)
    {
      hide Valid, Feeds, Source.Out, JustEnough;
      inCtr, outCtr' := inRowCtr, outCtr;
      FeedsBound(input, inRowCtr, inRowsAvail);
      while outCtr' < out.Length
        invariant Valid() && Feeds(input, inCtr, inRowsAvail)
        invariant outCtr <= outCtr' <= out.Length && done == old(done) + (outCtr' - outCtr)
        invariant inRowCtr <= inCtr && (inCtr <= inRowsAvail || inCtr == inRowCtr)
        invariant rowsToGo + inCtr == old(rowsToGo) + inRowCtr
        invariant Delivered(out, outCtr, outCtr', old(done))
        invariant inCtr == inRowCtr && old(rowsToGo) > 0 ==> outCtr' == outCtr
        invariant forall i :: 0 <= i < outCtr ==> out[i] == old(out[i])
        invariant outCtr < outCtr' == out.Length ==> JustEnough(rg)
        decreases out.Length - outCtr', inRowsAvail - inCtr
      {
        if inCtr >= inRowsAvail && rowsToGo != 0 {
          break;
        }
        inCtr, outCtr' := ContextStep(input, inCtr, inRowsAvail, out, outCtr');
      }
    }

    /** Without context: the next rows enter the buffer, completed below the image. */
    method TakeDataRows(input: seq<Row>, inRowCtr: nat, inRowsAvail: nat) returns (ctr: nat)
      requires Valid() && !context && Feeds(input, inRowCtr, inRowsAvail) && inRowCtr < inRowsAvail
      modifies this`rowsToGo, this`nextBufRow, this`entered, trueBuffer
      ensures Wired() && Counted() && Filling()
      ensures inRowCtr < ctr <= inRowsAvail && rowsToGo + ctr == old(rowsToGo) + inRowCtr
      ensures Base(rg, done) < height && (rowsToGo == 0 ==> nextBufRow == rg)
    {
      hide Feeds, Base, Extended;
      FeedsBound(input, inRowCtr, inRowsAvail);
      var inrows := inRowsAvail - inRowCtr;
      var numrows := rg - nextBufRow;
      if inrows < numrows {
        numrows := inrows;
      }
      StoreNext(input, inRowCtr, inRowsAvail, numrows);
      ctr := inRowCtr + numrows;
      nextBufRow := nextBufRow + numrows;
      rowsToGo := rowsToGo - numrows;
      entered := entered + numrows;
      if rowsToGo == 0 && nextBufRow < rg {
        ghost var n := rg - nextBufRow;
        ExpandBuffer(nextBufRow, rg);
        BottomRows(src.image, entered, n);
        entered := entered + n;
        nextBufRow := rg;
      }
    }

    /** The buffer holds the beginning of the group being filled, or all of it. */
    ghost predicate Filling()
      requires Wired() && !context
      reads this, trueBuffer, pointers
    {
      && nextBufRow <= rg && entered == Base(rg, done) + nextBufRow
      && forall j :: 0 <= j < nextBufRow ==> trueBuffer[j] == Extended(src.image, Base(rg, done) + j)
    }

    /** The buffer is full: its group goes out. */
    method EmitDataGroup(out: array<Group>, outCtr: nat)
      requires Wired() && Counted() && !context && Filling() && nextBufRow == rg && outCtr < out.Length
      requires Base(rg, done) < height
      modifies this`nextBufRow, this`done, out
      ensures Valid() && done == old(done) + 1 && JustEnough(0)
      ensures out[outCtr] == src.Out(old(done))
      ensures forall i :: 0 <= i < out.Length && i != outCtr ==> out[i] == old(out[i])
    {
      assert trueBuffer[..] == Rows(src.image, Base(rg, done), rg);
      out[outCtr] := down(trueBuffer[..]);
      nextBufRow := 0;
      done := done + 1;
    }

    /** For each component its last row, as many times as it has rows. */
    method RepeatLast(group: Group) returns (r: Group)
      ensures r == Repeated(group)
    {
      r := [];
      for c := 0 to |group|
        invariant |r| == c && forall d :: 0 <= d < c ==> r[d] == Repeated(group)[d]
      {
        var rows: seq<Row> := [];
        for row := 0 to |group[c]|
          invariant |rows| == row && forall k :: 0 <= k < row ==> rows[k] == group[c][|group[c]| - 1]
        {
          rows := rows + [group[c][|group[c]| - 1]];
        }
        assert rows == Repeated(group)[c];
        r := r + [rows];
      }
    }

    /** `expand_bottom_edge` on the output: the groups from `from` on repeat the last rows. */
    method ExpandOutput(out: array<Group>, from: nat)
      requires Valid() && !context && rowsToGo == 0 && 0 < from < out.Length && done > 0
      requires out[from - 1] == src.Out(done - 1)
      modifies this`done, out
      ensures Valid() && done == old(done) + (out.Length - from)
      ensures Delivered(out, from, out.Length, old(done))
      ensures forall i :: 0 <= i < from ==> out[i] == old(out[i])
      ensures forall i :: from <= i < out.Length ==> LastRows(old(out[from - 1]), out[i])
    {
      hide Source.Out, Base, Repeated, LastRows;
      ghost var last := out[from - 1];
      for i := from to out.Length
        invariant forall k :: 0 <= k < from ==> out[k] == old(out[k])
        invariant forall k :: from <= k < i ==> out[k] == Repeated(last) && LastRows(last, out[k])
        modifies out
      {
        out[i] := RepeatLast(out[from - 1]);
        RepeatedRows(last);
      }
      OutBelow(src, done, out.Length - from);
      done := done + (out.Length - from);
      BaseMono(rg, old(done), done);
    }

    /** `pre_process_data`: stops when the output is full or the input used up; at the bottom of the
        image the output is filled. */
    method PreProcessData(input: seq<Row>, inRowCtr: nat, inRowsAvail: nat, out: array<Group>, outCtr: nat)
      returns (inCtr: nat, outCtr': nat)
      requires Valid() && !context && Feeds(input, inRowCtr, inRowsAvail) && outCtr <= out.Length
      modifies this, trueBuffer, out
      ensures Valid() && outCtr <= outCtr' <= out.Length && done == old(done) + (outCtr' - outCtr)
      ensures inRowCtr <= inCtr && (inCtr <= inRowsAvail || inCtr == inRowCtr)
      ensures rowsToGo + inCtr == old(rowsToGo) + inRowCtr
      ensures Delivered(out, outCtr, outCtr', old(done))
      ensures forall i :: 0 <= i < outCtr ==> out[i] == old(out[i])
      ensures outCtr' == out.Length || inCtr >= inRowsAvail
      ensures inCtr == inRowCtr && old(rowsToGo) > 0 ==> outCtr' == outCtr
      ensures inRowCtr < inCtr && rowsToGo == 0 ==> outCtr' == out.Length
      ensures outCtr < outCtr' == out.Length ==> JustEnough(0)
    {
      hide Valid, Feeds, Source.Out, Filling, Wired, Base, JustEnough;
      inCtr, outCtr' := inRowCtr, outCtr;
      FeedsBound(input, inRowCtr, inRowsAvail);
      while inCtr < inRowsAvail && outCtr' < out.Length
        invariant Valid() && Feeds(input, inCtr, inRowsAvail)
        invariant outCtr <= outCtr' <= out.Length && done == old(done) + (outCtr' - outCtr)
        invariant inRowCtr <= inCtr && (inCtr <= inRowsAvail || inCtr == inRowCtr)
        invariant rowsToGo + inCtr == old(rowsToGo) + inRowCtr
        invariant Delivered(out, outCtr, outCtr', old(done))
        invariant inCtr == inRowCtr && old(rowsToGo) > 0 ==> outCtr' == outCtr
        invariant forall i :: 0 <= i < outCtr ==> out[i] == old(out[i])
        invariant inRowCtr < inCtr && rowsToGo == 0 ==> outCtr' == out.Length
        invariant outCtr < outCtr' == out.Length ==> JustEnough(0)
        decreases inRowsAvail - inCtr
      {
        inCtr, outCtr' := DataStep(input, inCtr, inRowsAvail, out, outCtr');
      }
    }

    /** One turn of its loop. */
    method DataStep(input: seq<Row>, inRowCtr: nat, inRowsAvail: nat, out: array<Group>, outCtr: nat)
      returns (inCtr: nat, outCtr': nat)
      requires Valid() && !context && Feeds(input, inRowCtr, inRowsAvail) && inRowCtr < inRowsAvail
      requires outCtr < out.Length
      modifies this, trueBuffer, out
      ensures Valid() && Feeds(input, inCtr, inRowsAvail) && outCtr <= outCtr' <= out.Length
      ensures inRowCtr < inCtr <= inRowsAvail && rowsToGo + inCtr == old(rowsToGo) + inRowCtr
      ensures done == old(done) + (outCtr' - outCtr) && Delivered(out, outCtr, outCtr', old(done))
      ensures forall i :: 0 <= i < outCtr ==> out[i] == old(out[i])
      ensures rowsToGo == 0 ==> outCtr' == out.Length
      ensures outCtr' > outCtr ==> JustEnough(0)
    {
      hide Source.Out, Base, Extended;
      ghost var togo := rowsToGo;
      FeedsBound(input, inRowCtr, inRowsAvail);
      outCtr' := outCtr;
      inCtr := TakeDataRows(input, inRowCtr, inRowsAvail);
      FeedsOn(input, inRowCtr, inRowsAvail, togo, inCtr);
      if nextBufRow == rg {
        EmitDataGroup(out, outCtr');
        outCtr' := outCtr' + 1;
      }
      if rowsToGo == 0 && outCtr' < out.Length {
        ExpandOutput(out, outCtr');
        outCtr' := out.Length;
      }
    }

    /** `pre_process_data` or `pre_process_context`, as `jinit_c_prep_controller` installs it. */
    method PreProcess(input: seq<Row>, inRowCtr: nat, inRowsAvail: nat, out: array<Group>, outCtr: nat)
      returns (inCtr: nat, outCtr': nat)
      requires Valid() && Feeds(input, inRowCtr, inRowsAvail) && outCtr <= out.Length
      modifies this, trueBuffer, out
      ensures Valid() && outCtr <= outCtr' <= out.Length && done == old(done) + (outCtr' - outCtr)
      ensures inRowCtr <= inCtr && (inCtr <= inRowsAvail || inCtr == inRowCtr)
      ensures rowsToGo + inCtr == old(rowsToGo) + inRowCtr
      ensures Delivered(out, outCtr, outCtr', old(done))
      ensures forall i :: 0 <= i < outCtr ==> out[i] == old(out[i])
      ensures outCtr' == out.Length || inCtr >= inRowsAvail
      ensures inCtr == inRowCtr && old(rowsToGo) > 0 ==> outCtr' == outCtr
      ensures rowsToGo == 0 && (context || old(rowsToGo) > 0) ==> outCtr' == out.Length
    {
      if context {
        inCtr, outCtr' := PreProcessContext(input, inRowCtr, inRowsAvail, out, outCtr);
      } else {
        inCtr, outCtr' := PreProcessData(input, inRowCtr, inRowsAvail, out, outCtr);
      }
    }
  }

  lemma {:induction false} BaseMono(rg: nat, g: nat, h: nat)
    requires g <= h
    ensures Base(rg, g) <= Base(rg, h)
  {
    if g < h {
      BaseMono(rg, g, h - 1);
    }
  }

  /** The groups below the image all repeat the last group of the image. */
  lemma {:induction false} OutBelow(src: Source, g: nat, n: nat)
    requires src.Valid() && !src.context && g > 0 && Base(src.rg, g) >= |src.image|
    ensures forall k :: g <= k < g + n ==> src.Out(k) == Repeated(src.Out(g - 1))
  {
    if n > 0 {
      OutBelow(src, g, n - 1);
      BaseMono(src.rg, g, g + n - 1);
      RepeatedTwice(src.Out(g - 1));
    }
  }

  /** Of each component, every row of `group` is the last row of `last`. */
  ghost predicate LastRows(last: Group, group: Group) {
    && |group| == |last|
    && (forall c :: 0 <= c < |last| ==> |group[c]| == |last[c]|)
    && (forall c, r :: 0 <= c < |last| && 0 <= r < |last[c]| ==> group[c][r] == last[c][|last[c]| - 1])
  }

  lemma RepeatedRows(group: Group)
    ensures LastRows(group, Repeated(group))
  {
  }

  // ---------------------------------------------------------------- which rows of the image

  lemma {:induction false} BaseProduct(rg: nat, g: nat)
    ensures Base(rg, g) == g * rg
  {
    if g > 0 {
      BaseProduct(rg, g - 1);
      assert g * rg == (g - 1) * rg + rg;
    }
  }

  /** With context rows, output group `g` is made of the rows of the groups before it, at it and after it, the
      first and last row of the image standing in for rows above and below. */
  lemma ContextRows(src: Source, g: nat) returns (rows: seq<Row>)
    requires src.Valid() && src.context
    ensures |rows| == 3 * src.rg && src.Out(g) == src.down(rows)
    ensures var from := (g - 1) * src.rg;
      forall i :: 0 <= i < 3 * src.rg ==>
        rows[i] == src.image[if from + i < 0 then 0 else if from + i >= |src.image| then |src.image| - 1 else from + i]
  {
    BaseProduct(src.rg, g);
    var from := Base(src.rg, g) - src.rg;
    assert (g - 1) * src.rg == from;
    rows := Rows(src.image, from, 3 * src.rg);
    assert forall i :: 0 <= i < 3 * src.rg ==> rows[i] == Extended(src.image, from + i);
  }

  /** Without context a group that begins inside the image is made of its own rows, the last row of the image
      standing in for those below. */
  lemma OwnRows(src: Source, g: nat) returns (rows: seq<Row>)
    requires src.Valid() && !src.context && g * src.rg < |src.image|
    ensures |rows| == src.rg && src.Out(g) == src.down(rows)
    ensures var from := g * src.rg;
      forall i :: 0 <= i < src.rg ==>
        rows[i] == src.image[if from + i >= |src.image| then |src.image| - 1 else from + i]
  {
    BaseProduct(src.rg, g);
    rows := Rows(src.image, Base(src.rg, g), src.rg);
    assert forall i :: 0 <= i < src.rg ==> rows[i] == Extended(src.image, Base(src.rg, g) + i);
  }

  /** And every group below the image repeats, of each component, the last row of the last group that begins inside
      the image. */
  lemma {:induction false} RowsBelow(src: Source, last: nat, g: nat)
    requires src.Valid() && !src.context && last * src.rg < |src.image| <= (last + 1) * src.rg && last < g
    ensures LastRows(src.Out(last), src.Out(g))
  {
    hide Repeated, LastRows, Source.Out;
    BaseProduct(src.rg, last + 1);
    OutBelow(src, last + 1, g - last);
    RepeatedRows(src.Out(last));
  }

  lemma RepeatedTwice(group: Group)
    ensures Repeated(Repeated(group)) == Repeated(group)
  {
    forall c | 0 <= c < |group| ensures Repeated(Repeated(group))[c] == Repeated(group)[c] {
    }
  }

  /** Below the image every row is its last row. */
  lemma BottomRows(image: seq<Row>, to: int, n: nat)
    requires image != [] && to >= |image|
    ensures forall i :: to <= i < to + n ==> Extended(image, i) == Extended(image, to - 1)
  {
  }

  /** Copies of the row before are the rows below the image. */
  lemma BottomStored(buf: seq<Row>, buf': seq<Row>, image: seq<Row>, at: nat, to: int, n: nat)
    requires image != [] && |buf| == |buf'| && at + n <= |buf| && to >= |image|
    requires forall i :: 0 <= i < at ==> buf'[i] == buf[i]
    requires forall i :: at + n <= i < |buf| ==> buf'[i] == buf[i]
    requires forall i :: at <= i < at + n ==> buf'[i] == Extended(image, to - 1)
    ensures Stored(buf, buf', image, at, to, n)
  {
  }

  /** The first rows stored, and the padding above them. */
  lemma TopDone(buf: seq<Row>, now: seq<Row>, after: seq<Row>, image: seq<Row>, rg: nat, n: nat)
    requires image != [] && |buf| == |after| == 3 * rg && 0 < n <= 2 * rg && Stored(buf, now, image, 0, 0, n)
    requires forall i :: 0 <= i < 2 * rg ==> after[i] == now[i]
    requires forall i :: 2 * rg <= i < 3 * rg ==> after[i] == now[0]
    ensures InPlace(after, image, rg, 0, 0, n)
  {
    assert now[0] == Extended(image, 0 + (0 - 0));
    StoreFirst(after, image, rg, n);
  }
}
