/**
 * The reader's wake check on the slave raises the line and then clears its flag, in two statements.
 * `SlaveWake` takes both in one step; here the other actors run in between.
 */
module SpiWake {
  import opened Bytes
  import opened SpiLink
  import opened SpiRuns
  import opened SpiMasterToSlave

  /** gpio_set_level(SPI_SLAVE_HANDSHARK_GPIO, 1) */
  function Raised(x: State): State { x.(c := Raise(x.c)) }

  /** wait_recv_data = false */
  function Cleared(x: State): State { x.(c := x.c.(s := x.c.s.(waitRecv := false)), readerAtCheck := false) }

  /** The reader stands between the two statements and does nothing. */
  predicate ReaderStill(acts: seq<Action>) {
    forall i | 0 <= i < |acts| :: !acts[i].ReaderTake? && !acts[i].ReaderCheck?
  }

  /** In the run a frame leaves no room for another, so that the slave parks. */
  predicate Parks(x: State, acts: seq<Action>)
    requires Run(ToSlave, x, acts)
    decreases |acts|
  {
    acts != [] &&
    var y := Next(ToSlave, x, acts[0]);
    || (acts[0].Callback? && x.c.event.WroteData? && Space(y.c.s.rxBuf) < FRAME)
    || Parks(y, acts[1..])
  }

  function Flagged(c: System): System { c.(s := c.s.(waitRecv := true)) }

  /** `x` as the reader sees it between its two statements. */
  function Between(x: State): State { x.(c := Flagged(x.c), readerAtCheck := true) }

  lemma HandleFlagged(e: Event, c: System, pad: Frame)
    ensures var (d, trigger) := Handle(e, c, pad); Handle(e, Flagged(c), pad) == (Flagged(d), trigger)
  {
    hide Push, Sub32;
  }

  lemma CallbackBetween(x: State, reg: Frame)
    ensures Next(ToSlave, Between(x), Callback(reg)) == Between(Next(ToSlave, x, Callback(reg)))
  {
    HandleFlagged(x.c.event, x.c.(s := x.c.s.(line := false), event := Quiet), reg);
    hide Handle;
  }

  lemma IsrBetween(x: State, stack: Frame)
    ensures Next(ToSlave, Between(x), Isr(stack)) == Between(Next(ToSlave, x, Isr(stack)))
  {
    hide Push, Sub32, SpiEvent;
  }

  /** Nobody but the reader looks at the flag before it is cleared. */
  lemma StepBetween(x: State, a: Action)
    requires !a.ReaderTake? && !a.ReaderCheck?
    ensures Enabled(ToSlave, Between(x), a) <==> Enabled(ToSlave, x, a)
    ensures Next(ToSlave, Between(x), a) == Between(Next(ToSlave, x, a))
  {
    match a
    case Isr(stack) => IsrBetween(x, stack);
    case Callback(reg) => CallbackBetween(x, reg);
    case _ =>
  }

  lemma StepParks(x: State, a: Action)
    requires Enabled(ToSlave, x, a) && !a.ReaderTake? && !a.ReaderCheck?
    ensures var y := Next(ToSlave, x, a);
            && y.readerAtCheck == x.readerAtCheck
            && (y.c.s.waitRecv <==>
                x.c.s.waitRecv || (a.Callback? && x.c.event.WroteData? && Space(y.c.s.rxBuf) < FRAME))
  {
  }

  lemma {:induction false} RunBetween(x: State, acts: seq<Action>)
    requires ReaderStill(acts)
    ensures Run(ToSlave, Between(x), acts) <==> Run(ToSlave, x, acts)
    ensures Run(ToSlave, x, acts) ==>
              var y := After(ToSlave, x, acts);
              && After(ToSlave, Between(x), acts) == Between(y)
              && (y.c.s.waitRecv <==> x.c.s.waitRecv || Parks(Between(x), acts))
              && y.readerAtCheck == x.readerAtCheck
    decreases |acts|
  {
    if acts != [] {
      var a := acts[0];
      StepBetween(x, a);
      var y := Next(ToSlave, x, a);
      if Enabled(ToSlave, x, a) {
        StepParks(x, a);
      }
      assert x.c.event == Between(x).c.event && y.c.s.rxBuf == Between(y).c.s.rxBuf;
      hide Next, Enabled, Between;
      RunBetween(y, acts[1..]);
    }
  }

  /** The slave waits for a wake-up that its flag does not ask for, and the master for a raised line. */
  ghost predicate Stalled(x: State) {
    x.c.m.mode == Write && !x.c.m.irq && x.c.event.Quiet? && !x.c.s.waitRecv
  }

  /**
   * A check that wakes the master, with any run of the others between its two statements: unless the slave
   * parks again in between this is the check in one step followed by the run, and if it does the link stalls.
   */
  lemma WakeInTwoSteps(x: State, acts: seq<Action>)
    requires Sound(x) && x.readerAtCheck && x.c.s.waitRecv
    requires Run(ToSlave, Raised(x), acts) && ReaderStill(acts)
    ensures var y := Next(ToSlave, x, ReaderCheck); var z := Cleared(After(ToSlave, Raised(x), acts));
            && Run(ToSlave, y, acts)
            && (!Parks(Raised(x), acts) ==> z == After(ToSlave, y, acts) && Sound(z))
            && (Parks(Raised(x), acts) ==> Stalled(z) && !Sound(z))
  {
    var y := Next(ToSlave, x, ReaderCheck);
    StepKeepsSound(x, ReaderCheck);
    assert Raised(x) == Between(y) && !y.c.s.waitRecv && !y.readerAtCheck;
    RunBetween(y, acts);
    RunKeepsSound(y, acts);
    var w := After(ToSlave, y, acts);
    assert Cleared(Between(w)) == w.(c := w.c.(s := w.c.s.(waitRecv := false)), readerAtCheck := false);
  }

  /** Nothing written later ever arrives. */
  lemma {:induction false} StalledForGood(x: State, acts: seq<Action>)
    requires Stalled(x) && Run(ToSlave, x, acts)
    ensures var y := After(ToSlave, x, acts);
            && Stalled(y) && x.c.m.sendBuf <= y.c.m.sendBuf
            && y.taken + y.c.s.rxBuf == x.taken + x.c.s.rxBuf
    decreases |acts|
  {
    if acts != [] {
      var y := Next(ToSlave, x, acts[0]);
      if acts[0].ReaderTake? {
        TakeCarriesBytes(x);
        var n := Min(READ_CHUNK, |x.c.s.rxBuf|);
        assert x.c.s.rxBuf == x.c.s.rxBuf[..n] + x.c.s.rxBuf[n..];
        Regroup(x.taken, x.c.s.rxBuf[..n], x.c.s.rxBuf[n..]);
      }
      StalledForGood(y, acts[1..]);
    }
  }

  // ---------- every wake-up can stall ----------

  /** How far a slave that is not parked is from its next frame, if the writer helps. */
  ghost function Stage(x: State): nat {
    var idle := (if x.writerAtCheck then 4 else 0) + (if x.c.m.irq then 2 else 0)
                + (if x.c.event.Quiet? then 0 else 1);
    if x.c.m.mode == Null then (if x.c.m.sendBuf == [] then 12 else 4) + idle
    else if x.c.event.WroteData? then 1
    else if x.c.event.WroteStatus? then 3
    else if x.c.m.transmitLen > 0 then 2
    else 20
  }

  /** Without the reader, a link that is not parked gets nearer to its next frame or stores one. */
  lemma StepTowardsPark(x: State) returns (a: Action)
    requires Sound(x) && !x.c.s.waitRecv
    ensures Enabled(ToSlave, x, a) && !a.ReaderTake? && !a.ReaderCheck? && Demo(a)
    ensures var y := Next(ToSlave, x, a);
            || y.c.s.waitRecv
            || |y.c.s.rxBuf| > |x.c.s.rxBuf|
            || (|y.c.s.rxBuf| == |x.c.s.rxBuf| && Stage(y) < Stage(x))
  {
    a := if !x.c.event.Quiet? then Callback(ZERO)
         else if x.c.m.irq then Isr(ZERO)
         else if x.writerAtCheck then WriterCheck
         else WriterSend(seq(WRITE, _ => 0));
  }

  lemma {:induction false} CanPark(x: State) returns (acts: seq<Action>)
    requires Sound(x) && !x.c.s.waitRecv
    ensures Run(ToSlave, x, acts) && ReaderStill(acts) && Demos(acts)
    ensures After(ToSlave, x, acts).c.s.waitRecv
    decreases CAPACITY - |x.c.s.rxBuf|, Stage(x)
  {
    var a := StepTowardsPark(x);
    var y := Next(ToSlave, x, a);
    RunOne(ToSlave, x, a);
    acts := [a];
    if !y.c.s.waitRecv {
      StepKeepsSound(x, a);
      var rest := CanPark(y);
      RunCons(ToSlave, x, a, rest);
      acts := [a] + rest;
    }
  }

  /** At every wake-up of every run the others can fit in enough between the two statements to stall the link. */
  lemma EveryWakeCanStall(x: State) returns (acts: seq<Action>)
    requires Sound(x) && x.readerAtCheck && x.c.s.waitRecv
    ensures Run(ToSlave, Raised(x), acts) && ReaderStill(acts) && Demos(acts)
    ensures Stalled(Cleared(After(ToSlave, Raised(x), acts)))
  {
    var y := Next(ToSlave, x, ReaderCheck);
    StepKeepsSound(x, ReaderCheck);
    assert Raised(x) == Between(y) && !y.c.s.waitRecv;
    acts := CanPark(y);
    RunBetween(y, acts);
    WakeInTwoSteps(x, acts);
  }

  lemma {:induction false} StillThenTake(x: State, acts: seq<Action>)
    requires !x.readerAtCheck && Run(ToSlave, x, acts) && ReaderStill(acts)
    ensures Run(ToSlave, x, acts + [ReaderTake]) && PromptRun(x, acts + [ReaderTake])
    ensures After(ToSlave, x, acts + [ReaderTake]) == Next(ToSlave, After(ToSlave, x, acts), ReaderTake)
    ensures !After(ToSlave, x, acts).readerAtCheck
    decreases |acts|
  {
    if acts == [] {
      RunOne(ToSlave, x, ReaderTake);
      assert acts + [ReaderTake] == [ReaderTake] && [ReaderTake][1..] == [];
    } else {
      StepParks(x, acts[0]);
      assert (acts + [ReaderTake])[1..] == acts[1..] + [ReaderTake];
      hide Next, Enabled;
      StillThenTake(Next(ToSlave, x, acts[0]), acts[1..]);
    }
  }

  /** Such a wake-up is reached from power-on, with a reader that is never late. */
  lemma WakeIsReachable() returns (acts: seq<Action>)
    ensures Run(ToSlave, Start(), acts) && PromptRun(Start(), acts) && Demos(acts)
    ensures var x := After(ToSlave, Start(), acts);
            Sound(x) && x.readerAtCheck && x.c.s.waitRecv && Timely(x, ReaderCheck)
  {
    hide Run, PromptRun;
    StartInv();
    var before := CanPark(Start());
    RunKeepsSound(Start(), before);
    StillThenTake(Start(), before);
    acts := before + [ReaderTake];
    assert Demos(acts);
    var x := After(ToSlave, Start(), before);
    StepKeepsSound(x, ReaderTake);
    ReadMakesRoom(x);
  }
}
