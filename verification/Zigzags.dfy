/** Zigzag order: how stored blocks are read by the coders. */
module Zigzags {
  import opened BitStrings
  import opened RunLength
  import opened Scans

  /** `jpeg_natural_order`: a permutation of the 64 positions that keeps the DC term first. */
  ghost predicate IsOrder(order: seq<nat>) {
    && |order| == 64 && order[0] == 0
    && (forall k :: 0 <= k < 64 ==> order[k] < 64)
    && (forall k, l :: 0 <= k < l < 64 ==> order[k] != order[l])
  }

  /** A block as stored, read in zigzag order. */
  function Zigzag(order: seq<nat>, natural: Block): Block
    requires IsOrder(order)
  {
    seq(64, k requires 0 <= k < 64 => natural[order[k]])
  }

  /** The blocks of an MCU in zigzag order. */
  function ZigzagAll(order: seq<nat>, data: seq<Block>): Mcu
    requires IsOrder(order)
  {
    seq(|data|, i requires 0 <= i < |data| => Zigzag(order, data[i]))
  }

  lemma ZigzagShape(order: seq<nat>, data: seq<Block>)
    requires IsOrder(order)
    ensures |ZigzagAll(order, data)| == |data|
  {
  }

  ghost predicate DataShaped(mode: ScanMode, data: seq<seq<Block>>)
  {
    forall i :: 0 <= i < |data| ==> |data[i]| == mode.BlocksInMcu()
  }

  /** The MCUs of a scan in zigzag order. */
  function ZigzagScan(order: seq<nat>, data: seq<seq<Block>>): seq<Mcu>
    requires IsOrder(order)
  {
    seq(|data|, i requires 0 <= i < |data| => ZigzagAll(order, data[i]))
  }

  lemma ScanShape(mode: ScanMode, order: seq<nat>, data: seq<seq<Block>>)
    requires IsOrder(order) && DataShaped(mode, data)
    ensures Shaped(mode, ZigzagScan(order, data))
  {
  }

  method ReadZigzag(order: seq<nat>, block: Block, k: nat) returns (v: int)
    requires IsOrder(order) && k < 64
    ensures v == Zigzag(order, block)[k]
  {
    v := block[order[k]];
  }
}
