/** What a coder has completed never shrinks: not over any MCU, and not when the scan is finished. */
module StreamGrowth {
  import opened BitStrings
  import opened EntropySegments
  import opened Coding
  import opened Scans
  import opened ScanStreams
  import opened TokenSinks

  /** All symbols of a scan have codes, and there is room for all of it. */
  ghost predicate WholeFits(c: Codec, segs: seq<seq<Token>>, free: nat, suspending: bool)
    requires segs != []
  {
    SegmentsCodable(c, segs) && (suspending ==> |ScanOutput(c, segs)| < free)
  }

  lemma FedGrows(c: Codec, mode: ScanMode, interval: nat, e: Enc, mcu: Mcu)
    requires Fitting(mode, e.coder) && |mcu| == mode.BlocksInMcu()
    ensures var e' := Fed(mode, interval, e, mcu);
      |Complete(c, e.done, e.cur)| <= |Complete(c, e'.done, e'.cur)|
  {
    hide Complete, ScanOutput, Stuff, Bytes, Rem, StreamBits, McuTokens, FlushTokens;
    var e1 := Restarted(mode, interval, e);
    CompleteGrows(c, e.done, e.cur, FlushTokens(mode, e.coder));
    CompleteClose(c, e.done, e.cur + FlushTokens(mode, e.coder));
    CompleteGrows(c, e1.done, e1.cur, McuTokens(mode, e1.coder, mcu));
  }

  lemma {:induction false} AllFedGrows(c: Codec, mode: ScanMode, interval: nat, e: Enc, mcus: seq<Mcu>)
    requires Fitting(mode, e.coder) && Shaped(mode, mcus)
    ensures var e' := FedAll(mode, interval, e, mcus);
      |Complete(c, e.done, e.cur)| <= |Complete(c, e'.done, e'.cur)|
    decreases |mcus|
  {
    hide Complete, Fed;
    if mcus != [] {
      FedGrows(c, mode, interval, e, mcus[0]);
      AllFedGrows(c, mode, interval, Fed(mode, interval, e, mcus[0]), mcus[1..]);
    }
  }

  /** The finished scan is at least as long as anything complete on the way. */
  lemma FinishedGrows(c: Codec, mode: ScanMode, interval: nat, e: Enc, mcus: seq<Mcu>)
    requires Fitting(mode, e.coder) && Shaped(mode, mcus)
    ensures |Complete(c, e.done, e.cur)| <= |ScanOutput(c, Finished(mode, FedAll(mode, interval, e, mcus)))|
  {
    hide Complete, ScanOutput, Stuff, Bytes, Rem, StreamBits, FlushTokens, FedAll;
    var f := FedAll(mode, interval, e, mcus);
    AllFedGrows(c, mode, interval, e, mcus);
    CompleteGrows(c, f.done, f.cur, FlushTokens(mode, f.coder));
    CompleteFinish(c, f.done, f.cur + FlushTokens(mode, f.coder));
  }

  /** What the final flush adds to the bytes already complete. */
  ghost function FlushSize(c: Codec, segs: seq<seq<Token>>): nat
    requires segs != []
  {
    |Stuff(Bytes(Rem(StreamBits(c, segs[|segs| - 1])) + ONES))|
  }
}
