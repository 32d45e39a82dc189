/** The entropy coder behind `encode_mcu`, as the coefficient controller calls it. */
module McuSinks {
  import opened BitOutput
  import opened Coding
  import opened RunLength
  import opened Scans
  import opened ScanStreams
  import opened Zigzags
  import opened SequentialEncoding

  /** Which coder is called: one that records its MCUs and suspends as it pleases, or the sequential
      Huffman encoder with its destination. */
  datatype Entropy = Recording(refuses: nat -> bool) | Huff(enc: HuffEncoder)

  /** The encoder's state is that of a run over the MCUs it has accepted. */
  ghost predicate Encoded(mode: ScanMode, interval: nat, order: seq<nat>, state: Enc, log: seq<seq<Block>>) {
    && IsOrder(order) && DataShaped(mode, log) && Shaped(mode, ZigzagScan(order, log))
    && state == FedAll(mode, interval, Start(mode, interval), ZigzagScan(order, log))
    && RunOk(mode, interval, Start(mode, interval), ZigzagScan(order, log))
  }

  lemma NothingEncoded(mode: ScanMode, interval: nat, order: seq<nat>)
    requires IsOrder(order)
    ensures Encoded(mode, interval, order, Start(mode, interval), [])
  {
  }

  lemma EncodedNext(mode: ScanMode, interval: nat, order: seq<nat>, state: Enc, log: seq<seq<Block>>, mcu: seq<Block>)
    requires Encoded(mode, interval, order, state, log) && |mcu| == mode.BlocksInMcu()
    requires Fitting(mode, state.coder) && |ZigzagAll(order, mcu)| == mode.BlocksInMcu()
    requires McuOk(mode, Restarted(mode, interval, state).coder, ZigzagAll(order, mcu))
    ensures Encoded(mode, interval, order, Fed(mode, interval, state, ZigzagAll(order, mcu)), log + [mcu])
  {
    hide McuOk, Fed, Restarted, IsOrder, FedAll, RunOk, ZigzagAll;
    ScanShape(mode, order, log + [mcu]);
    var now := [ZigzagAll(order, mcu)];
    assert ZigzagScan(order, log + [mcu]) == ZigzagScan(order, log) + now;
    OneFed(mode, interval, state, now[0]);
    FedAllAppend(mode, interval, Start(mode, interval), ZigzagScan(order, log), now);
  }

  lemma OneFed(mode: ScanMode, interval: nat, e: Enc, mcu: Mcu)
    requires Fitting(mode, e.coder) && |mcu| == mode.BlocksInMcu()
    ensures FedAll(mode, interval, e, [mcu]) == Fed(mode, interval, e, mcu)
    ensures RunOk(mode, interval, e, [mcu]) <==> McuOk(mode, Restarted(mode, interval, e).coder, mcu)
  {
    hide McuOk, Fed, Restarted;
    assert [mcu][1..] == [];
  }

  class McuSink {
    const entropy: Entropy
    var calls: nat
    /** The MCUs accepted. */
    var log: seq<seq<Block>>

    ghost function Repr(): set<object>
    {
      {this} + (if entropy.Huff? then {entropy.enc} else {})
    }

    constructor (entropy: Entropy)
      requires entropy.Huff? ==>
        entropy.enc.Valid() && entropy.enc.State() == Start(entropy.enc.mode, entropy.enc.interval)
      ensures Valid() && this.entropy == entropy && calls == 0 && log == []
    {
      this.entropy, calls, log := entropy, 0, [];
      new;
      if entropy.Huff? {
        NothingEncoded(entropy.enc.mode, entropy.enc.interval, entropy.enc.order);
      }
    }

    ghost predicate Valid()
      reads Repr()
    {
      entropy.Huff? ==>
        && entropy.enc.Valid()
        && Encoded(entropy.enc.mode, entropy.enc.interval, entropy.enc.order, entropy.enc.State(), log)
    }

    /** An MCU of `n` blocks is what the coder expects. */
    ghost predicate Expects(n: nat) { entropy.Huff? ==> entropy.enc.mode.BlocksInMcu() == n }

    /** What a suspending destination has taken and can take before it is emptied. */
    ghost function Budget(): nat
      reads Repr()
    {
      if entropy.Huff? && entropy.enc.suspending then entropy.enc.free + |entropy.enc.stream| else 0
    }

    /** The call just made was refused: by its number, or because the destination has no room for the bytes
        the MCU would complete. */
    ghost predicate Refused(mcu: seq<Block>)
      requires Valid() && Expects(|mcu|)
      reads Repr()
    {
      match entropy
      case Recording(refuses) => calls > 0 && refuses(calls - 1)
      case Huff(enc) =>
        ZigzagShape(enc.order, mcu);
        !enc.Takes(Fed(enc.mode, enc.interval, enc.State(), ZigzagAll(enc.order, mcu)))
    }

    /** The MCU has a coefficient out of range, or a symbol without code. */
    ghost predicate Impossible(mcu: seq<Block>)
      requires Valid() && Expects(|mcu|)
      reads Repr()
    {
      entropy.Huff? &&
      var enc := entropy.enc;
      ZigzagShape(enc.order, mcu);
      var st, z := Restarted(enc.mode, enc.interval, enc.State()).coder, ZigzagAll(enc.order, mcu);
      !(McuOk(enc.mode, st, z) && AllCodable(enc.Code(), McuTokens(enc.mode, st, z)))
    }

    method EncodeMcu(mcu: seq<Block>) returns (r: Outcome)
      requires Valid() && Expects(|mcu|)
      modifies Repr()
      ensures Valid() && Budget() == old(Budget())
      ensures log == if r.Ok? then old(log) + [mcu] else old(log)
      ensures r.Suspended? ==> Refused(mcu)
      ensures r.Error? ==> Impossible(mcu)
      ensures entropy.Recording? ==> calls == old(calls) + 1 && (r.Ok? <==> !entropy.refuses(old(calls)))
    {
      hide Encoded, SegmentsCodable, BitOutput.Holds, IsOrder, TablesInRange, McuOk, AllCodable, McuTokens, Restarted,
           Fed, ZigzagAll;
      match entropy {
        case Recording(refuses) =>
          r := if refuses(calls) then Suspended else Ok;
        case Huff(enc) =>
          ZigzagShape(enc.order, mcu);
          ghost var before := enc.State();
          r := enc.EncodeMcu(mcu);
          if r == Ok {
            EncodedNext(enc.mode, enc.interval, enc.order, before, log, mcu);
          }
      }
      calls := calls + 1;
      if r == Ok {
        log := log + [mcu];
      }
    }

    /** The application empties the destination's buffer. */
    method Drain()
      requires Valid()
      modifies Repr()
      ensures Valid() && log == old(log) && calls == old(calls)
      ensures entropy.Huff? ==>
          entropy.enc.free == entropy.enc.bufSize && entropy.enc.State() == old(entropy.enc.State())
    {
      if entropy.Huff? {
        entropy.enc.Drain();
      }
    }
  }
}
