/**
 * The slave's writer task streams to the master's reader task, in writes of any length.
 *
 * Two gaps decide whether the stream arrives.  The writer puts its bytes and then, in a separate
 * critical section, offers them if no transfer is under way; when a transfer that was under way has
 * already carried them off, the offer is empty (`Filled` rules that out).  And the slave fills its frame
 * with whatever its buffer holds, announced or not (`Announced` rules out that this is more than was
 * announced).  Writes of whole frames, such as the demo's 2048 bytes, are always announced.  The
 * reader's two steps need no condition: the handler looks again.
 */
module SpiSlaveToMaster {
  import opened Bytes
  import opened SpiLink
  import opened SpiRuns

  /** The writer's critical section does not start a transfer of nothing. */
  predicate Filled(x: State, a: Action) { a.WriterCheck? && !x.c.s.sending ==> x.c.s.txBuf != [] }

  /** The callback is about to load a frame into the data register. */
  predicate Loads(c: System) { c.event.ReadStatus? || (c.event.ReadData? && c.s.totalSendLen > 0) }

  /** A load takes no more than was announced. */
  predicate Announced(x: State, a: Action) {
    a.Callback? && Loads(x.c) ==> Min(FRAME, |x.c.s.txBuf|) <= x.c.s.totalSendLen
  }

  predicate Good(x: State, a: Action) { Filled(x, a) && Announced(x, a) }

  ghost predicate GoodRun(x: State, acts: seq<Action>)
    requires Run(ToMaster, x, acts)
  {
    Always(ToMaster, x, acts, Good)
  }

  // ---------- the invariant: a transfer goes through five phases ----------

  ghost predicate Unused(c: System) {
    c.m.sendBuf == [] && c.m.mode != Write && c.s.rxBuf == [] && c.s.totalRecvLen == 0 && !c.s.waitRecv
  }

  ghost predicate Resting(c: System) {
    && c.m.mode == Null && !c.m.irq && c.event.Quiet? && !c.s.line
    && !c.s.sending && c.s.totalSendLen == c.m.transmitLen == 0
  }

  ghost predicate Offered(c: System) {
    && c.m.mode == Null && c.m.irq && c.event.Quiet? && c.s.line
    && c.s.sending && c.s.totalSendLen == c.s.status > 0 && c.m.transmitLen == 0
  }

  ghost predicate LengthRead(c: System) {
    c.m.mode == Read && !c.m.irq && c.event == ReadStatus
    && c.s.sending && c.s.totalSendLen == c.m.transmitLen > 0
  }

  /** A frame stands in the slave's data register; the master is due, or parked for want of space. */
  ghost predicate Loaded(c: System) {
    && c.m.mode == Read && c.event.Quiet? && (c.m.irq <==> !c.m.waitRecv)
    && c.s.sending && c.m.transmitLen > 0 && c.m.transmitLen == Min(FRAME, c.m.transmitLen) + c.s.totalSendLen
  }

  ghost predicate FrameRead(c: System) {
    && !c.m.irq && c.event == ReadData && (c.m.mode == Null <==> c.m.transmitLen == 0)
    && c.s.sending && c.s.totalSendLen == c.m.transmitLen
  }

  ghost predicate RoomInv(x: State) {
    var used := |x.c.m.recvBuf|;
    x.c.m.waitRecv ==>
      Loaded(x.c) && (used > CAPACITY - FRAME || (x.readerAtCheck && used > CAPACITY - FRAME - READ_CHUNK))
  }

  function InFlight(c: System): Stream {
    if c.m.mode == Read && c.event.Quiet? then c.s.dataReg[..Min(FRAME, c.m.transmitLen)] else []
  }

  ghost predicate Conserved(x: State) {
    x.written == x.taken + x.c.m.recvBuf + InFlight(x.c) + x.c.s.txBuf
  }

  ghost predicate Inv(x: State) {
    && Unused(x.c)
    && |x.c.s.txBuf| <= CAPACITY && |x.c.m.recvBuf| <= CAPACITY
    && x.c.s.totalSendLen <= |x.c.s.txBuf|
    && (Resting(x.c) || Offered(x.c) || LengthRead(x.c) || Loaded(x.c) || FrameRead(x.c))
    && (Resting(x.c) && x.c.s.txBuf != [] ==> x.writerAtCheck)
    && RoomInv(x)
    && Conserved(x)
  }

  lemma IsrKeepsInv(x: State, stack: Frame)
    requires Inv(x) && Enabled(ToMaster, x, Isr(stack))
    ensures Inv(Next(ToMaster, x, Isr(stack)))
  {
  }

  /** What a load does, announced or not. */
  function AfterLoad(c: System, reg: Frame): System {
    var n := Min(FRAME, |c.s.txBuf|);
    c.(m := c.m.(irq := true),
       s := c.s.(line := true, txBuf := c.s.txBuf[n..], totalSendLen := Sub32(c.s.totalSendLen, n),
                 dataReg := c.s.txBuf[..n] + reg[n..]),
       event := Quiet)
  }

  lemma LoadEffect(c: System, reg: Frame)
    requires Loads(c) && c.s.txBuf != []
    ensures SpiEvent(c, reg) == AfterLoad(c, reg)
  {
  }

  lemma LoadedFrame(tx: Stream, total: nat, reg: Frame)
    requires 0 < total <= |tx| && Min(FRAME, |tx|) <= total && total < TWO_32
    ensures var n := Min(FRAME, |tx|);
            && n == Min(FRAME, total) && (tx[..n] + reg[n..])[..n] + tx[n..] == tx && Sub32(total, n) == total - n
  {
  }

  lemma Rejoin(before: Stream, frame: Stream, rest: Stream, whole: Stream)
    requires frame + rest == whole
    ensures before + [] + whole == before + frame + rest
  {
  }

  lemma LoadConserves(x: State, reg: Frame)
    requires Inv(x) && Loads(x.c) && Announced(x, Callback(reg))
    ensures Conserved(x.(c := AfterLoad(x.c, reg)))
  {
    var tx, n := x.c.s.txBuf, Min(FRAME, |x.c.s.txBuf|);
    LoadedFrame(tx, x.c.s.totalSendLen, reg);
    assert InFlight(x.c) == [];
    assert InFlight(AfterLoad(x.c, reg)) == (tx[..n] + reg[n..])[..n];
    Rejoin(x.taken + x.c.m.recvBuf, (tx[..n] + reg[n..])[..n], tx[n..], tx);
  }

  lemma LoadKeepsInv(x: State, reg: Frame)
    requires Inv(x) && Enabled(ToMaster, x, Callback(reg)) && Loads(x.c)
    ensures Inv(Next(ToMaster, x, Callback(reg))) <==> Announced(x, Callback(reg))
  {
    LoadEffect(x.c, reg);
    if Announced(x, Callback(reg)) {
      LoadConserves(x, reg);
      LoadedFrame(x.c.s.txBuf, x.c.s.totalSendLen, reg);
      hide SpiEvent, Conserved, InFlight;
    }
    hide SpiEvent, InFlight;
  }

  lemma CallbackKeepsInv(x: State, reg: Frame)
    requires Inv(x) && Enabled(ToMaster, x, Callback(reg))
    ensures Inv(Next(ToMaster, x, Callback(reg))) <==> Announced(x, Callback(reg))
  {
    if Loads(x.c) {
      LoadKeepsInv(x, reg);
    }
  }

  lemma TakenOver(taken: Stream, buf: Stream, n: nat)
    requires n <= |buf|
    ensures taken + buf == taken + buf[..n] + buf[n..]
  {
  }

  lemma TakeKeepsInv(x: State)
    requires Inv(x) && Enabled(ToMaster, x, ReaderTake)
    ensures Inv(Next(ToMaster, x, ReaderTake))
  {
    TakenOver(x.taken, x.c.m.recvBuf, Min(READ_CHUNK, |x.c.m.recvBuf|));
  }

  lemma TaskKeepsInv(x: State, a: Action)
    requires Inv(x) && Enabled(ToMaster, x, a)
    requires a.ReaderCheck? || a.WriterSend? || a.WriterCheck?
    ensures Inv(Next(ToMaster, x, a)) <==> Filled(x, a)
  {
  }

  /** Every step keeps the invariant, except exactly an empty offer and an overfull load. */
  lemma StepKeepsInv(x: State, a: Action)
    requires Inv(x) && Enabled(ToMaster, x, a)
    ensures Inv(Next(ToMaster, x, a)) <==> Good(x, a)
  {
    match a
    case Isr(stack) => IsrKeepsInv(x, stack);
    case Callback(reg) => CallbackKeepsInv(x, reg);
    case ReaderTake => TakeKeepsInv(x);
    case _ => TaskKeepsInv(x, a);
  }

  lemma {:induction false} RunKeepsInv(x: State, acts: seq<Action>)
    requires Inv(x) && Run(ToMaster, x, acts) && GoodRun(x, acts)
    ensures Inv(After(ToMaster, x, acts))
    decreases |acts|
  {
    if acts != [] {
      StepKeepsInv(x, acts[0]);
      RunKeepsInv(Next(ToMaster, x, acts[0]), acts[1..]);
    }
  }

  // ---------- safety over runs ----------

  /** The stream arrives exactly once and in order, also when the master parks a transfer. */
  lemma Delivery(acts: seq<Action>)
    requires Run(ToMaster, Start(), acts) && GoodRun(Start(), acts)
    ensures Conserved(After(ToMaster, Start(), acts))
  {
    RunKeepsInv(Start(), acts);
  }

  /**
   * `total_send_len` never runs below zero, both ends agree on what is still to come, the master's
   * `assert(recv_actual_len == read_len)` holds, and the rendezvous is never what holds the master up.
   */
  lemma LengthAgreement(acts: seq<Action>, reg: Frame)
    requires Run(ToMaster, Start(), acts) && GoodRun(Start(), acts)
    ensures var x := After(ToMaster, Start(), acts); var c := x.c; var d := SpiEvent(c, reg);
            && (Loads(c) && Announced(x, Callback(reg)) ==>
                  d.s.totalSendLen + Min(FRAME, c.s.totalSendLen) == c.s.totalSendLen)
            && (c.m.mode == Read ==>
                  c.m.transmitLen == c.s.totalSendLen + (if c.event.Quiet? then Min(FRAME, c.m.transmitLen) else 0))
            && (c.m.mode == Read && Space(c.m.recvBuf) >= FRAME ==>
                  var n := Min(FRAME, c.m.transmitLen);
                  |Push(c.m.recvBuf, c.s.dataReg[..n])| == |c.m.recvBuf| + n)
            && (c.m.irq ==> c.event.Quiet?)
  {
    RunKeepsInv(Start(), acts);
  }

  /** A raised line is never overlooked: the master is due, at work, or parked and due to be woken. */
  lemma HighLineIsAnswered(acts: seq<Action>)
    requires Run(ToMaster, Start(), acts) && GoodRun(Start(), acts)
    ensures var x := After(ToMaster, Start(), acts);
            x.c.s.line ==> x.c.m.irq || !x.c.event.Quiet? || (x.c.m.waitRecv && |x.c.m.recvBuf| > FRAME)
  {
    RunKeepsInv(Start(), acts);
  }

  /** A wake check of a parked master always resumes the transfer. */
  lemma EveryCheckWakes(x: State)
    requires Inv(x) && x.readerAtCheck && x.c.m.waitRecv
    ensures var c := Next(ToMaster, x, ReaderCheck).c; c.m.irq && !c.m.waitRecv
  {
  }

  // ---------- writes of whole frames ----------

  predicate WholeFrames(x: State, a: Action) { a.WriterSend? ==> |a.data| % FRAME == 0 }

  ghost predicate Aligned(c: System) {
    && |c.s.txBuf| % FRAME == 0 && c.s.totalSendLen % FRAME == 0 && (c.m.mode == Read ==> c.m.transmitLen % FRAME == 0)
  }

  lemma LoadStaysAligned(x: State, reg: Frame)
    requires Inv(x) && Aligned(x.c) && Enabled(ToMaster, x, Callback(reg)) && Loads(x.c)
    ensures Announced(x, Callback(reg)) && Aligned(Next(ToMaster, x, Callback(reg)).c)
  {
    LoadEffect(x.c, reg);
    hide SpiEvent;
  }

  /** With whole frames only an empty offer can go wrong, and every frame is full. */
  lemma WholeFramesAreAnnounced(x: State, a: Action)
    requires Inv(x) && Aligned(x.c) && Enabled(ToMaster, x, a) && WholeFrames(x, a) && Filled(x, a)
    ensures Good(x, a) && Aligned(Next(ToMaster, x, a).c)
  {
    if a.Callback? && Loads(x.c) {
      LoadStaysAligned(x, a.reg);
      hide Next, Inv, Aligned;
    }
  }

  lemma {:induction false} WholeFrameRunsAreGood(x: State, acts: seq<Action>)
    requires Inv(x) && Aligned(x.c) && Run(ToMaster, x, acts)
    requires Always(ToMaster, x, acts, WholeFrames) && Always(ToMaster, x, acts, Filled)
    ensures GoodRun(x, acts) && Aligned(After(ToMaster, x, acts).c)
    decreases |acts|
  {
    if acts != [] {
      WholeFramesAreAnnounced(x, acts[0]);
      StepKeepsInv(x, acts[0]);
      WholeFrameRunsAreGood(Next(ToMaster, x, acts[0]), acts[1..]);
    }
  }

  // ---------- the gap in the writer task ----------

  /** The writer's check follows its send at once, with nothing in between. */
  predicate Prompt(x: State, a: Action) { x.writerAtCheck ==> a.WriterCheck? }

  /** Then no offer is ever empty. */
  lemma {:induction false} PromptRunsAreGood(x: State, acts: seq<Action>)
    requires Inv(x) && Aligned(x.c) && Run(ToMaster, x, acts)
    requires Always(ToMaster, x, acts, Prompt) && Always(ToMaster, x, acts, WholeFrames)
    requires x.writerAtCheck ==> x.c.s.txBuf != []
    ensures GoodRun(x, acts)
    decreases |acts|
  {
    if acts != [] {
      WholeFramesAreAnnounced(x, acts[0]);
      StepKeepsInv(x, acts[0]);
      PromptRunsAreGood(Next(ToMaster, x, acts[0]), acts[1..]);
    }
  }

  /** The slave believes in a transfer that the master knows nothing of. */
  ghost predicate Stalled(c: System) {
    c.m.mode == Null && !c.m.irq && !c.m.waitRecv && c.event.Quiet? && c.s.sending
  }

  lemma {:induction false} StalledForGood(x: State, acts: seq<Action>)
    requires Stalled(x.c) && Run(ToMaster, x, acts)
    ensures var y := After(ToMaster, x, acts);
            Stalled(y.c) && y.taken + y.c.m.recvBuf == x.taken + x.c.m.recvBuf
    decreases |acts|
  {
    if acts != [] {
      var n := Min(READ_CHUNK, |x.c.m.recvBuf|);
      assert x.c.m.recvBuf == x.c.m.recvBuf[..n] + x.c.m.recvBuf[n..];
      StalledForGood(Next(ToMaster, x, acts[0]), acts[1..]);
    }
  }

  /** After any empty offer, if the handlers run next: nothing the writer sends later ever arrives. */
  lemma EmptyOfferStalls(x: State, acts: seq<Action>)
    requires Inv(x) && Enabled(ToMaster, x, WriterCheck) && !Filled(x, WriterCheck)
    ensures var offer := [WriterCheck] + ([Isr(ZERO)] + [Callback(ZERO)]);
            Run(ToMaster, x, offer) &&
            (Run(ToMaster, After(ToMaster, x, offer), acts) ==>
               var y := After(ToMaster, After(ToMaster, x, offer), acts);
               y.taken + y.c.m.recvBuf == x.written)
  {
    var y := Next(ToMaster, x, WriterCheck);
    var z := Next(ToMaster, y, Isr(ZERO));
    RunOne(ToMaster, z, Callback(ZERO));
    RunCons(ToMaster, y, Isr(ZERO), [Callback(ZERO)]);
    RunCons(ToMaster, x, WriterCheck, [Isr(ZERO)] + [Callback(ZERO)]);
    var w := Next(ToMaster, z, Callback(ZERO));
    if Run(ToMaster, w, acts) {
      StalledForGood(w, acts);
    }
  }

  /** If instead the writer sends again first: `total_send_len` wraps and a frame is overwritten. */
  lemma EmptyOfferLosesFrames(x: State, data: Stream)
    requires Inv(x) && Enabled(ToMaster, x, WriterCheck) && !Filled(x, WriterCheck)
    requires 2 * FRAME <= |data| <= CAPACITY
    ensures var y := Next(ToMaster, Next(ToMaster, x, WriterCheck), Isr(ZERO));
            Enabled(ToMaster, y, WriterSend(data)) &&
            var acts := [WriterSend(data)] + ([Callback(ZERO)] + ([Isr(ZERO)] + [Callback(ZERO)]));
            Run(ToMaster, y, acts) &&
            var z := After(ToMaster, y, acts);
            && z.c.s.totalSendLen == TWO_32 - 2 * FRAME
            && z.taken + z.c.m.recvBuf + z.c.s.dataReg + z.c.s.txBuf == x.written + data[FRAME..]
  {
    var y := Next(ToMaster, Next(ToMaster, x, WriterCheck), Isr(ZERO));
    var y1 := Next(ToMaster, y, WriterSend(data));
    var y2 := Next(ToMaster, y1, Callback(ZERO));
    var y3 := Next(ToMaster, y2, Isr(ZERO));
    OfferedNothing(x);
    OverwrittenFrame(y, data);
    hide Next, Inv, Filled, Fooled;
    RunOne(ToMaster, y3, Callback(ZERO));
    RunCons(ToMaster, y2, Isr(ZERO), [Callback(ZERO)]);
    RunCons(ToMaster, y1, Callback(ZERO), [Isr(ZERO)] + [Callback(ZERO)]);
    RunCons(ToMaster, y, WriterSend(data), [Callback(ZERO)] + ([Isr(ZERO)] + [Callback(ZERO)]));
  }

  /** The master has read a length of zero, and the slave believes in a transfer. */
  ghost predicate Fooled(x: State) {
    && x.c.m.mode == Null && !x.c.m.irq && x.c.m.sendBuf == [] && x.c.event == ReadStatus
    && x.c.s.sending && x.c.s.txBuf == [] && x.c.s.totalSendLen == x.c.s.status == 0
    && !x.writerAtCheck && x.taken + x.c.m.recvBuf == x.written
  }

  lemma OfferedNothing(x: State)
    requires Inv(x) && Enabled(ToMaster, x, WriterCheck) && !Filled(x, WriterCheck)
    ensures var y := Next(ToMaster, Next(ToMaster, x, WriterCheck), Isr(ZERO)); Fooled(y) && y.written == x.written
  {
  }

  lemma OverwrittenFrame(y: State, data: Stream)
    requires Fooled(y) && 2 * FRAME <= |data| <= CAPACITY
    ensures Enabled(ToMaster, y, WriterSend(data)) &&
            var y1 := Next(ToMaster, y, WriterSend(data));
            Enabled(ToMaster, y1, Callback(ZERO)) &&
            var y2 := Next(ToMaster, y1, Callback(ZERO));
            Enabled(ToMaster, y2, Isr(ZERO)) &&
            var y3 := Next(ToMaster, y2, Isr(ZERO));
            Enabled(ToMaster, y3, Callback(ZERO)) &&
            var z := Next(ToMaster, y3, Callback(ZERO));
            && z.c.s.totalSendLen == TWO_32 - 2 * FRAME
            && z.taken + z.c.m.recvBuf + z.c.s.dataReg + z.c.s.txBuf == y.written + data[FRAME..]
  {
    var y1 := Next(ToMaster, y, WriterSend(data));
    assert y1.c.s.txBuf == data;
    LoadEffect(y1.c, ZERO);
    hide SpiEvent;
    var y3 := Next(ToMaster, Next(ToMaster, y1, Callback(ZERO)), Isr(ZERO));
    SecondLoad(y3, data);
  }

  /** The master has read a length of zero again, and the callback loads over the first frame. */
  lemma SecondLoad(x: State, data: Stream)
    requires |data| >= 2 * FRAME && x.c.event == ReadStatus && x.c.s.txBuf == data[FRAME..]
    requires x.c.s.totalSendLen == TWO_32 - FRAME
    ensures var z := Next(ToMaster, x, Callback(ZERO));
            && z.c.s.totalSendLen == TWO_32 - 2 * FRAME && z.c.m.recvBuf == x.c.m.recvBuf
            && x.taken + x.c.m.recvBuf + z.c.s.dataReg + z.c.s.txBuf == x.taken + x.c.m.recvBuf + data[FRAME..]
  {
    LoadEffect(x.c, ZERO);
    hide SpiEvent;
    var z := Next(ToMaster, x, Callback(ZERO));
    assert z.c.s.dataReg + z.c.s.txBuf == data[FRAME..];
    Regroup(x.taken + x.c.m.recvBuf, z.c.s.dataReg, z.c.s.txBuf);
  }

  // ---------- the gap between a partial write and its frame ----------

  /** `Announced` is the exact condition: the bytes that a load takes beyond the announcement are lost. */
  lemma AnnouncedIffNothingIsLost(x: State, reg: Frame)
    requires Inv(x) && Enabled(ToMaster, x, Callback(reg))
    ensures Conserved(Next(ToMaster, x, Callback(reg))) <==> Announced(x, Callback(reg))
  {
    var y := Next(ToMaster, x, Callback(reg));
    CallbackKeepsInv(x, reg);
    if Loads(x.c) && !Announced(x, Callback(reg)) {
      LoadEffect(x.c, reg);
      hide SpiEvent;
      assert |y.taken + y.c.m.recvBuf + InFlight(y.c) + y.c.s.txBuf| < |y.written|;
    }
  }

  /** And they stay lost: the master skips them, and goes on behind them. */
  lemma OverfullLoadSkipsBytes(x: State, reg: Frame, stack: Frame)
    requires Inv(x) && Enabled(ToMaster, x, Callback(reg)) && Loads(x.c) && !Announced(x, Callback(reg))
    requires Space(x.c.m.recvBuf) >= FRAME
    ensures var y := Next(ToMaster, x, Callback(reg));
            Enabled(ToMaster, y, Isr(stack)) &&
            var z := Next(ToMaster, y, Isr(stack));
            var k := |z.taken| + |z.c.m.recvBuf|;
            var lost := Min(FRAME, |x.c.s.txBuf|) - x.c.s.totalSendLen;
            && lost > 0 && k + lost <= |x.written|
            && z.c.s.totalSendLen == TWO_32 - lost && z.c.m.mode == Null
            && z.taken + z.c.m.recvBuf == x.written[..k] && z.c.s.txBuf == x.written[k + lost..]
  {
    var tx, n, total := x.c.s.txBuf, Min(FRAME, |x.c.s.txBuf|), x.c.s.totalSendLen;
    LoadEffect(x.c, reg);
    ReadsTheLast(x.(c := AfterLoad(x.c, reg)), stack);
    hide SpiEvent, GpioIsr;
    assert (tx[..n] + reg[n..])[..total] == tx[..total];
    Regroup(x.taken, x.c.m.recvBuf, tx[..total]);
    SkippedBytes(x.taken + x.c.m.recvBuf, tx, total, n);
  }

  lemma ReadsTheLast(x: State, stack: Frame)
    requires x.c.m.mode == Read && x.c.m.irq && x.c.event.Quiet? && x.c.m.sendBuf == []
    requires 0 < x.c.m.transmitLen <= FRAME <= Space(x.c.m.recvBuf)
    ensures Enabled(ToMaster, x, Isr(stack))
    ensures var z := Next(ToMaster, x, Isr(stack));
            && z == x.(c := z.c) && z.c.s == x.c.s && z.c.m.mode == Null
            && z.c.m.recvBuf == x.c.m.recvBuf + x.c.s.dataReg[..x.c.m.transmitLen]
  {
  }

  lemma SkippedBytes(got: Stream, tx: Stream, total: nat, n: nat)
    requires total <= n <= |tx|
    ensures var all := got + tx; var k := |got| + total;
            got + tx[..total] == all[..k] && tx[n..] == all[k + (n - total)..]
  {
  }

  /** A partial write can do that: ten bytes, and then some more before the first frame is filled. */
  lemma PartialWriteLosesBytes(data: Stream)
    requires 0 < |data| <= FRAME - 10
    ensures var acts := [WriterSend(ZERO[..10]), WriterCheck, Isr(ZERO), WriterSend(data), Callback(ZERO)];
            Run(ToMaster, Start(), acts) &&
            var y := After(ToMaster, Start(), acts); !Conserved(y) && y.c.s.totalSendLen == TWO_32 - |data|
  {
    var x3 := TenBytesAreRead();
    MoreBeforeTheFrame(x3, data);
    hide Next, Inv, Conserved;
    FiveSteps(Start(), WriterSend(ZERO[..10]), WriterCheck, Isr(ZERO), WriterSend(data), Callback(ZERO));
  }

  lemma MoreBeforeTheFrame(x3: State, data: Stream)
    requires Inv(x3) && x3.c.event == ReadStatus && x3.c.s.txBuf == ZERO[..10] && x3.c.s.totalSendLen == 10
    requires !x3.writerAtCheck && 0 < |data| <= FRAME - 10
    ensures Enabled(ToMaster, x3, WriterSend(data))
    ensures var x4 := Next(ToMaster, x3, WriterSend(data));
            Enabled(ToMaster, x4, Callback(ZERO)) &&
            var y := Next(ToMaster, x4, Callback(ZERO)); !Conserved(y) && y.c.s.totalSendLen == TWO_32 - |data|
  {
    var x4 := Next(ToMaster, x3, WriterSend(data));
    StepKeepsInv(x3, WriterSend(data));
    LoadEffect(x4.c, ZERO);
    AnnouncedIffNothingIsLost(x4, ZERO);
    hide SpiEvent, Inv, Conserved;
  }

  lemma TenBytesAreRead() returns (x3: State)
    ensures var s := Start();
            var x1 := Next(ToMaster, s, WriterSend(ZERO[..10]));
            var x2 := Next(ToMaster, x1, WriterCheck);
            && x3 == Next(ToMaster, x2, Isr(ZERO)) && Inv(x3)
            && Enabled(ToMaster, s, WriterSend(ZERO[..10])) && Enabled(ToMaster, x1, WriterCheck)
            && Enabled(ToMaster, x2, Isr(ZERO))
    ensures x3.c.event == ReadStatus && x3.c.s.txBuf == ZERO[..10] && x3.c.s.totalSendLen == 10 && !x3.writerAtCheck
  {
    var s := Start();
    var x1 := Next(ToMaster, s, WriterSend(ZERO[..10]));
    var x2 := Next(ToMaster, x1, WriterCheck);
    x3 := Next(ToMaster, x2, Isr(ZERO));
    StepKeepsInv(s, WriterSend(ZERO[..10]));
    StepKeepsInv(x1, WriterCheck);
    StepKeepsInv(x2, Isr(ZERO));
  }

  lemma FiveSteps(s: State, a: Action, b: Action, c: Action, d: Action, e: Action)
    requires Enabled(ToMaster, s, a)
    requires var x1 := Next(ToMaster, s, a); var x2 := Next(ToMaster, x1, b); var x3 := Next(ToMaster, x2, c);
             && Enabled(ToMaster, x1, b) && Enabled(ToMaster, x2, c) && Enabled(ToMaster, x3, d)
             && Enabled(ToMaster, Next(ToMaster, x3, d), e)
    ensures var x3 := Next(ToMaster, Next(ToMaster, Next(ToMaster, s, a), b), c);
            && Run(ToMaster, s, [a, b, c, d, e])
            && After(ToMaster, s, [a, b, c, d, e]) == Next(ToMaster, Next(ToMaster, x3, d), e)
  {
    hide Next, Enabled;
    var x1 := Next(ToMaster, s, a);
    var x2 := Next(ToMaster, x1, b);
    var x3 := Next(ToMaster, x2, c);
    var x4 := Next(ToMaster, x3, d);
    RunOne(ToMaster, x4, e);
    RunCons(ToMaster, x3, d, [e]);
    RunCons(ToMaster, x2, c, [d] + [e]);
    RunCons(ToMaster, x1, b, [c] + ([d] + [e]));
    RunCons(ToMaster, s, a, [b] + ([c] + ([d] + [e])));
    assert [a] + ([b] + ([c] + ([d] + [e]))) == [a, b, c, d, e];
  }

  // ---------- an empty offer in writes of 2048 bytes ----------

  lemma Do(s: State, x: State, a: Action) returns (y: State)
    requires Reaches(ToMaster, s, x) && Inv(x) && Enabled(ToMaster, x, a) && Good(x, a) && Demo(a)
    ensures y == Next(ToMaster, x, a) && Reaches(ToMaster, s, y) && Inv(y)
  {
    y := Next(ToMaster, x, a);
    ReachStep(ToMaster, s, x, a);
    StepKeepsInv(x, a);
  }

  /** `x` is reached; a full frame is loaded, the master is due, `tx` bytes of the transfer are still to load. */
  ghost predicate Turn(s: State, x: State, tx: int, more: int, rx: int) {
    && Reaches(ToMaster, s, x) && Inv(x) && Loaded(x.c) && x.c.m.irq
    && |x.c.s.txBuf| == tx + more && x.c.s.totalSendLen == tx && x.c.m.transmitLen == tx + FRAME
    && |x.c.m.recvBuf| == rx
  }

  /** `k` frames go through. */
  lemma {:induction false} Pump(s: State, x: State, tx: int, more: int, rx: int, k: nat) returns (y: State)
    requires Turn(s, x, tx, more, rx) && tx >= FRAME * k && CAPACITY - rx >= FRAME * k && more >= 0
    ensures Turn(s, y, tx - FRAME * k, more, rx + FRAME * k) && y.writerAtCheck == x.writerAtCheck
    decreases k
  {
    y := x;
    if k > 0 {
      y := Do(s, y, Isr(ZERO));
      y := Do(s, y, Callback(ZERO));
      y := Pump(s, y, tx - FRAME, more, rx + FRAME, k - 1);
    }
  }

  lemma FirstWriteIsOffered() returns (x: State)
    ensures Reaches(ToMaster, Start(), x) && Inv(x) && Offered(x.c) && !x.writerAtCheck
    ensures |x.c.s.txBuf| == x.c.s.totalSendLen == WRITE && x.c.m.recvBuf == []
  {
    var s := Start();
    assert Run(ToMaster, s, []) && After(ToMaster, s, []) == s && Demos([]);
    hide Reaches;
    x := Do(s, s, WriterSend(seq(WRITE, _ => 0)));
    x := Do(s, x, WriterCheck);
  }

  /** The length of the first write is read, and its first frame loaded. */
  lemma FirstWriteIsLoaded() returns (x: State)
    ensures Turn(Start(), x, 1984, 0, 0) && !x.writerAtCheck
  {
    x := FirstWriteIsOffered();
    hide Reaches;
    x := Do(Start(), x, Isr(ZERO));
    x := Do(Start(), x, Callback(ZERO));
  }

  /** The last frame of the first write is read; the callback announces the second before the writer's check. */
  lemma SecondWriteOvertakes(s: State, x: State) returns (y: State)
    requires Turn(s, x, 0, WRITE, 1984)
    ensures Turn(s, y, 1984, 0, 2048) && y.writerAtCheck == x.writerAtCheck
  {
    y := Do(s, x, Isr(ZERO));
    y := Do(s, y, Callback(ZERO));
    y := Do(s, y, Isr(ZERO));
    y := Do(s, y, Callback(ZERO));
  }

  /** An empty offer is within reach: two writes of 2048 bytes from power-on are enough. */
  lemma EmptyOfferIsReachable() returns (x: State)
    ensures Reaches(ToMaster, Start(), x) && Inv(x)
    ensures Enabled(ToMaster, x, WriterCheck) && !Filled(x, WriterCheck)
  {
    var s := Start();
    x := FirstWriteIsLoaded();
    x := Do(s, x, WriterSend(seq(WRITE, _ => 0)));
    x := Pump(s, x, 1984, WRITE, 0, 31);
    x := SecondWriteOvertakes(s, x);
    x := Pump(s, x, 1984, 0, 2048, 31);
    x := Do(s, x, Isr(ZERO));
    x := Do(s, x, Callback(ZERO)); // all gone; the writer still stands before its check
  }

  // ---------- progress ----------

  ghost function Phase(c: System): nat {
    if Resting(c) then 0 else if LengthRead(c) then 1 else if Offered(c) then 2
    else if FrameRead(c) then 3 else 4
  }

  ghost function Rank(x: State): nat {
    ((8 * |x.c.s.txBuf| + Phase(x.c)) * (CAPACITY + 1) + |x.c.m.recvBuf|) * 4
    + (if x.readerAtCheck then 2 else 0) + (if x.c.m.irq then 1 else 0)
  }

  lemma ProductiveStepsLowerRank(x: State, a: Action)
    requires Inv(x) && Enabled(ToMaster, x, a) && Good(x, a) && Productive(ToMaster, x, a)
    ensures Rank(Next(ToMaster, x, a)) < Rank(x)
  {
    var y := Next(ToMaster, x, a);
    StepKeepsInv(x, a);
    match a
    case ReaderTake => assert Phase(y.c) == Phase(x.c) && |y.c.m.recvBuf| < |x.c.m.recvBuf|;
    case ReaderCheck => assert Phase(y.c) == Phase(x.c) && |y.c.m.recvBuf| == |x.c.m.recvBuf|;
    case Isr(_) =>
      assert (Phase(y.c) == Phase(x.c) && |y.c.m.recvBuf| == |x.c.m.recvBuf|) || Phase(y.c) < Phase(x.c);
    case Callback(_) => assert 8 * |y.c.s.txBuf| + Phase(y.c) < 8 * |x.c.s.txBuf| + Phase(x.c);
    case _ =>
  }

  lemma SomeoneCanMove(x: State) returns (a: Action)
    requires Inv(x) && !x.writerAtCheck && !Delivered(x)
    ensures Enabled(ToMaster, x, a) && Productive(ToMaster, x, a)
  {
    a := if x.readerAtCheck then ReaderCheck
         else if x.c.m.recvBuf != [] then ReaderTake
         else if !x.c.event.Quiet? then Callback(ZERO)
         else Isr(ZERO);
  }

  lemma {:induction false} ProductiveRunsAreBounded(x: State, acts: seq<Action>)
    requires Inv(x) && Run(ToMaster, x, acts) && GoodRun(x, acts)
    requires Always(ToMaster, x, acts, (x, a) => Productive(ToMaster, x, a))
    ensures |acts| <= Rank(x) && Inv(After(ToMaster, x, acts))
    decreases |acts|
  {
    if acts != [] {
      StepKeepsInv(x, acts[0]);
      ProductiveStepsLowerRank(x, acts[0]);
      ProductiveRunsAreBounded(Next(ToMaster, x, acts[0]), acts[1..]);
    }
  }

  /** Once the writer stops, every good schedule that keeps going delivers everything in bounded time. */
  lemma EverythingIsDelivered(before: seq<Action>, acts: seq<Action>)
    requires Run(ToMaster, Start(), before) && GoodRun(Start(), before)
    requires var x := After(ToMaster, Start(), before);
             && !x.writerAtCheck && Run(ToMaster, x, acts) && GoodRun(x, acts)
             && Always(ToMaster, x, acts, (x, a) => Productive(ToMaster, x, a))
    ensures var x := After(ToMaster, Start(), before); var y := After(ToMaster, x, acts);
            && |acts| <= Rank(x)
            && (Delivered(y) || exists a :: Enabled(ToMaster, y, a) && Productive(ToMaster, y, a))
  {
    var x := After(ToMaster, Start(), before);
    RunKeepsInv(Start(), before);
    ProductiveRunsAreBounded(x, acts);
    WriterStaysIdle(ToMaster, x, acts);
    var y := After(ToMaster, x, acts);
    if !Delivered(y) {
      var a := SomeoneCanMove(y);
    }
  }

  lemma {:induction false} ProductiveRunsWriteNothing(x: State, acts: seq<Action>)
    requires Run(ToMaster, x, acts) && Always(ToMaster, x, acts, (x, a) => Productive(ToMaster, x, a))
    ensures Always(ToMaster, x, acts, WholeFrames) && Always(ToMaster, x, acts, Filled)
    decreases |acts|
  {
    if acts != [] {
      ProductiveRunsWriteNothing(Next(ToMaster, x, acts[0]), acts[1..]);
    }
  }

  /** After whole frames every schedule is good. */
  lemma WholeFramesAreDelivered(before: seq<Action>, acts: seq<Action>)
    requires Run(ToMaster, Start(), before)
    requires Always(ToMaster, Start(), before, WholeFrames) && Always(ToMaster, Start(), before, Filled)
    requires var x := After(ToMaster, Start(), before);
             && !x.writerAtCheck && Run(ToMaster, x, acts)
             && Always(ToMaster, x, acts, (x, a) => Productive(ToMaster, x, a))
    ensures Conserved(After(ToMaster, Start(), before))
    ensures var x := After(ToMaster, Start(), before); var y := After(ToMaster, x, acts);
            && |acts| <= Rank(x)
            && (Delivered(y) || exists a :: Enabled(ToMaster, y, a) && Productive(ToMaster, y, a))
  {
    var x := After(ToMaster, Start(), before);
    WholeFrameRunsAreGood(Start(), before);
    RunKeepsInv(Start(), before);
    ProductiveRunsWriteNothing(x, acts);
    WholeFrameRunsAreGood(x, acts);
    EverythingIsDelivered(before, acts);
  }
}
