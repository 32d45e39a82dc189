/** A whole pass of the coefficient controller over a scan: iMCU row by iMCU row, called again whenever the
    entropy coder suspended, after the application has emptied the destination's buffer. */
module CodingPasses {
  import opened BitOutput
  import opened Coding
  import opened RunLength
  import opened Geometry
  import opened ScanSetups
  import opened McuSinks
  import opened CoefControl
  import opened Scans
  import opened ScanStreams
  import opened TokenSinks
  import opened Zigzags
  import opened SequentialEncoding
  import opened SequentialScans

  /** `J_BUF_MODE`: from the DCT, from the DCT by way of the virtual arrays, from the arrays alone. */
  datatype BufferMode = PassThru | SaveAndPass | CrankDest

  /** Once its buffer is emptied the coder accepts the MCU it refused. */
  ghost predicate Drainable(sink: McuSink, p: Picture, s: Setup)
    requires Suits(p, s) && s.parts != []
  {
    match sink.entropy
    case Recording(refuses) => forall n :: !refuses(n)
    case Huff(enc) =>
      IsOrder(enc.order) && Shaped(enc.mode, ZigzagScan(enc.order, ScanMcus(p, s)))
      && (enc.suspending ==>
            EachFits(enc.Code(), enc.mode, enc.interval, Start(enc.mode, enc.interval),
                     ZigzagScan(enc.order, ScanMcus(p, s)), enc.bufSize))
  }

  lemma {:induction false} EachFitsAt(c: Codec, mode: ScanMode, interval: nat, e: Enc, mcus: seq<Mcu>, bufSize: nat,
                                      i: nat)
    requires Fitting(mode, e.coder) && Shaped(mode, mcus) && i < |mcus| && Shaped(mode, mcus[..i])
    requires EachFits(c, mode, interval, e, mcus, bufSize)
    ensures var e0 := FedAll(mode, interval, e, mcus[..i]);
      var e1 := Fed(mode, interval, e0, mcus[i]);
      |Complete(c, e1.done, e1.cur)| < |Complete(c, e0.done, e0.cur)| + bufSize
    decreases i
  {
    hide Fed, Complete;
    if i > 0 {
      assert mcus[..i][0] == mcus[0] && mcus[..i][1..] == mcus[1..][..i - 1];
      EachFitsAt(c, mode, interval, Fed(mode, interval, e, mcus[0]), mcus[1..], bufSize, i - 1);
    }
  }

  /** The position of a controller, as a position in the scan. */
  ghost predicate Reached(coef: CoefController)
    reads coef, coef.sink.Repr()
  {
    && coef.Setting() && coef.sink.Valid()
    && var mcus := ScanMcus(coef.p, coef.s);
       |coef.sink.log| < |mcus| && coef.sink.log == mcus[..|coef.sink.log|]
  }

  /** The coder could not code the next MCU. */
  ghost predicate Broken(coef: CoefController)
    reads coef, coef.sink.Repr()
  {
    Reached(coef) && var mcu := ScanMcus(coef.p, coef.s)[|coef.sink.log|];
    coef.sink.Expects(|mcu|) && coef.sink.Impossible(mcu)
  }

  lemma FailedBroken(coef: CoefController, yoffset: nat, col: nat)
    requires coef.FailedAt(yoffset, col)
    ensures Broken(coef)
  {
    hide McuSink.Valid, McuSink.Impossible, Upto, ScanMcus, Parts, Membership, SetupFor, RowsPerIMcuRow;
    NextOfScan(coef.p, coef.s, coef.iMcuRowNum, yoffset, col);
    PartsSize(coef.p, coef.s, coef.iMcuRowNum, yoffset, col, |coef.s.parts|);
  }

  /** The coder has just refused the next MCU. */
  ghost predicate Refusing(coef: CoefController)
    reads coef, coef.sink.Repr()
  {
    Reached(coef) && var mcu := ScanMcus(coef.p, coef.s)[|coef.sink.log|];
    coef.sink.Expects(|mcu|) && coef.sink.Refused(mcu)
  }

  lemma RefusedNext(coef: CoefController, yoffset: nat, col: nat)
    requires coef.RefusedAt(yoffset, col)
    ensures Refusing(coef)
  {
    hide McuSink.Valid, McuSink.Refused, Upto, ScanMcus, Parts, Membership, SetupFor, RowsPerIMcuRow;
    NextOfScan(coef.p, coef.s, coef.iMcuRowNum, yoffset, col);
    PartsSize(coef.p, coef.s, coef.iMcuRowNum, yoffset, col, |coef.s.parts|);
  }

  /** A coder that suspends has something to drain. */
  lemma RefusedFull(coef: CoefController, yoffset: nat, col: nat)
    requires coef.RefusedAt(yoffset, col) && Drainable(coef.sink, coef.p, coef.s)
    ensures coef.sink.entropy.Huff? && coef.sink.entropy.enc.suspending
    ensures coef.sink.entropy.enc.free < coef.sink.entropy.enc.bufSize
    ensures Reached(coef)
  {
    hide Upto, ScanMcus, Parts, Membership, SetupFor, RowsPerIMcuRow, Fed, FedAll, EachFits, ZigzagAll, IsOrder,
         RunOk, SegmentsCodable, BitOutput.Holds, TablesInRange, AllCodable, Complete;
    NextOfScan(coef.p, coef.s, coef.iMcuRowNum, yoffset, col);
    PartsSize(coef.p, coef.s, coef.iMcuRowNum, yoffset, col, |coef.s.parts|);
    if coef.sink.entropy.Huff? {
      var enc, mcus, i := coef.sink.entropy.enc, ScanMcus(coef.p, coef.s), |coef.sink.log|;
      var z := ZigzagScan(enc.order, mcus);
      assert z[..i] == ZigzagScan(enc.order, coef.sink.log);
      EachFitsAt(enc.Code(), enc.mode, enc.interval, Start(enc.mode, enc.interval), z, enc.bufSize, i);
    }
  }

  /** What the virtual arrays hold before iMCU row `n` of a pass. */
  ghost predicate Prepared(coef: CoefController, buf: BufferMode, n: nat)
    reads coef.wholeImage
  {
    buf != PassThru ==>
      && ArraysFor(coef.p.frame, coef.wholeImage) && coef.Allocated()
      && coef.Saved(if buf == SaveAndPass then n else coef.p.frame.TotalIMcuRows())
  }

  /** The method of the controller for the buffer mode, as `start_pass_coef` selects it. */
  method OneRow(coef: CoefController, buf: BufferMode) returns (r: Outcome)
    requires coef.Valid() && coef.iMcuRowNum < coef.p.frame.TotalIMcuRows() && Prepared(coef, buf, coef.iMcuRowNum)
    modifies coef, coef.sink.Repr(), coef.mcuBuffer, if buf == SaveAndPass then coef.wholeImage else []
    ensures !r.Error? ==>
      && coef.Valid() && Prepared(coef, buf, coef.iMcuRowNum)
      && coef.iMcuRowNum == old(coef.iMcuRowNum) + (if r.Ok? then 1 else 0)
    ensures r.Ok? ==> coef.mcuVertOffset == 0 && coef.mcuCtr == 0
    ensures r.Suspended? ==> coef.RefusedAt(coef.mcuVertOffset, coef.mcuCtr)
    ensures r.Error? ==> Broken(coef)
    ensures coef.sink.Budget() == old(coef.sink.Budget()) && old(coef.sink.log) <= coef.sink.log
  {
    hide CoefController.Valid, CoefController.Allocated, CoefController.RefusedAt, CoefController.FailedAt, Broken,
         McuSink.Budget, CoefController.StripSaved;
    match buf {
      case PassThru => r := coef.CompressData();
      case SaveAndPass => r := coef.CompressFirstPass();
      case CrankDest => r := coef.CompressOutput();
    }
    if r == Error {
      ghost var y: nat, col: nat :| coef.FailedAt(y, col);
      FailedBroken(coef, y, col);
    }
  }

  /** How much of its buffer the coder's destination has left, if it can suspend at all. */
  ghost predicate Drained(sink: McuSink)
    reads sink.Repr()
  {
    sink.entropy.Huff? ==> sink.entropy.enc.free == sink.entropy.enc.bufSize
  }

  /** The same MCUs in the coder, and the same budget, mean the same free space. */
  twostate lemma SameRoom(sink: McuSink)
    requires old(sink.Valid()) && sink.Valid() && old(sink.log) == sink.log && old(sink.Budget()) == sink.Budget()
    requires sink.entropy.Huff? && sink.entropy.enc.suspending
    ensures old(Drained(sink)) <==> Drained(sink)
  {
    hide FedAll, RunOk, IsOrder, SegmentsCodable, AllCodable, BitOutput.Holds, TablesInRange;
  }

  /** One call, and if the coder suspended, its destination emptied. Either an iMCU row is done, or MCUs
      were accepted, or at least the buffer is empty now. */
  method OneCall(coef: CoefController, buf: BufferMode) returns (r: Outcome)
    requires coef.Valid() && coef.iMcuRowNum < coef.p.frame.TotalIMcuRows() && Prepared(coef, buf, coef.iMcuRowNum)
    requires Drainable(coef.sink, coef.p, coef.s)
    modifies coef, coef.sink.Repr(), coef.mcuBuffer, if buf == SaveAndPass then coef.wholeImage else []
    ensures r != Error ==> coef.Valid() && Prepared(coef, buf, coef.iMcuRowNum)
    ensures r.Ok? ==> coef.iMcuRowNum == old(coef.iMcuRowNum) + 1 && coef.mcuVertOffset == 0 && coef.mcuCtr == 0
    ensures r.Suspended? ==> coef.iMcuRowNum == old(coef.iMcuRowNum) && Reached(coef)
    ensures r.Suspended? ==> Drained(coef.sink) && (coef.sink.log == old(coef.sink.log) ==> !old(Drained(coef.sink)))
    ensures r.Error? ==> Broken(coef)
    ensures old(coef.sink.log) <= coef.sink.log
  {
    hide Drained, Drainable, Prepared, CoefController.Valid, CoefController.RefusedAt, McuSink.Budget, Reached,
         Broken;
    r := OneRow(coef, buf);
    if r == Suspended {
      RefusedFull(coef, coef.mcuVertOffset, coef.mcuCtr);
      Stuck(coef);
      Empty(coef);
    }
  }

  /** A call that suspended without an MCU accepted did not start with an empty buffer. */
  twostate lemma Stuck(coef: CoefController)
    requires old(coef.Valid()) && coef.Valid() && old(coef.sink.Budget()) == coef.sink.Budget()
    requires coef.sink.entropy.Huff? && coef.sink.entropy.enc.suspending
    requires coef.sink.entropy.enc.free < coef.sink.entropy.enc.bufSize
    ensures coef.sink.log == old(coef.sink.log) ==> !old(Drained(coef.sink))
  {
    hide McuSink.Valid, McuSink.Budget, CoefController.Setting, Upto;
    if coef.sink.log == old(coef.sink.log) {
      SameRoom(coef.sink);
    }
  }

  method Empty(coef: CoefController)
    requires coef.Valid() && Reached(coef)
    modifies coef.sink.Repr()
    ensures coef.Valid() && Reached(coef) && Drained(coef.sink) && coef.sink.log == old(coef.sink.log)
  {
    hide McuSink.Valid, SetupFor, Upto, ScanMcus;
    coef.sink.Drain();
  }

  lemma AllOfScan(p: Picture, s: Setup)
    requires Suits(p, s) && s.parts != []
    ensures Upto(p, s, p.frame.TotalIMcuRows(), 0, 0) == ScanMcus(p, s)
  {
    UptoSteps(p, s, p.frame.TotalIMcuRows(), 0, 0);
  }

  /** A pass over the whole scan. However often the coder suspends, at the end it has accepted exactly the
      MCUs of the scan; it fails only at an MCU that cannot be coded. */
  method RunPass(coef: CoefController, buf: BufferMode) returns (r: Outcome)
    requires coef.Valid() && coef.iMcuRowNum == coef.mcuVertOffset == coef.mcuCtr == 0
    requires Prepared(coef, buf, 0) && Drainable(coef.sink, coef.p, coef.s)
    modifies coef, coef.sink.Repr(), coef.mcuBuffer, if buf == SaveAndPass then coef.wholeImage else []
    ensures r != Suspended
    ensures r.Ok? ==> coef.sink.Valid() && coef.sink.log == ScanMcus(coef.p, coef.s)
    ensures r.Ok? ==> Prepared(coef, buf, coef.p.frame.TotalIMcuRows())
    ensures r.Error? ==> Broken(coef)
  {
    hide McuSink.Valid, Drained, Drainable, SetupFor, Upto, ScanMcus, Prepared, Broken;
    r := Ok;
    while coef.iMcuRowNum < coef.p.frame.TotalIMcuRows()
      invariant coef.Valid() && Prepared(coef, buf, coef.iMcuRowNum)
      invariant coef.iMcuRowNum == coef.p.frame.TotalIMcuRows() ==> coef.mcuVertOffset == 0 && coef.mcuCtr == 0
      decreases coef.p.frame.TotalIMcuRows() - coef.iMcuRowNum, |ScanMcus(coef.p, coef.s)| - |coef.sink.log|,
                if Drained(coef.sink) then 0 else 1
    {
      r := OneCall(coef, buf);
      if r == Error {
        return;
      }
    }
    AllOfScan(coef.p, coef.s);
    r := Ok;
  }

  /** A pass that may not suspend, as `jpeg_finish_compress` runs all passes but the first: at a refusal it
      stops for good. */
  method RunOnce(coef: CoefController, buf: BufferMode) returns (r: Outcome)
    requires coef.Valid() && coef.iMcuRowNum == coef.mcuVertOffset == coef.mcuCtr == 0 && Prepared(coef, buf, 0)
    modifies coef, coef.sink.Repr(), coef.mcuBuffer, if buf == SaveAndPass then coef.wholeImage else []
    ensures r.Ok? ==> coef.sink.Valid() && coef.sink.log == ScanMcus(coef.p, coef.s)
    ensures r.Ok? ==> Prepared(coef, buf, coef.p.frame.TotalIMcuRows())
    ensures r.Suspended? ==> Refusing(coef)
    ensures r.Error? ==> Broken(coef)
    ensures coef.sink.Budget() == old(coef.sink.Budget())
  {
    hide McuSink.Valid, SetupFor, Upto, ScanMcus, Prepared, Broken, McuSink.Budget, CoefController.RefusedAt,
         Refusing;
    r := Ok;
    for row := 0 to coef.p.frame.TotalIMcuRows()
      invariant coef.Valid() && Prepared(coef, buf, coef.iMcuRowNum) && coef.iMcuRowNum == row
      invariant coef.mcuVertOffset == 0 && coef.mcuCtr == 0
      invariant coef.sink.Budget() == old(coef.sink.Budget())
    {
      r := OneRow(coef, buf);
      if r != Ok {
        if r == Suspended {
          RefusedNext(coef, coef.mcuVertOffset, coef.mcuCtr);
        }
        return;
      }
    }
    AllOfScan(coef.p, coef.s);
    r := Ok;
  }
}
