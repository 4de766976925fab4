/**
 * The master's writer task streams to the slave's reader task.  Four actors interleave freely.
 *
 * Over every interleaving the two chips agree on lengths and turns, bytes arrive in order and at most
 * once, and the link drains once the writer stops.  That no byte is lost is another matter: the reader
 * task reads and then checks in two steps, and `Timely` is the exact condition on its checks.
 */
module SpiMasterToSlave {
  import opened Bytes
  import opened SpiLink
  import opened SpiRuns

  /** If the wake check wakes the master, the slave has room for a frame, or for a short last one. */
  predicate Timely(x: State, a: Action) {
    a.ReaderCheck? && x.c.s.waitRecv ==>
      Space(x.c.s.rxBuf) >= FRAME || 0 < x.c.m.transmitLen <= Space(x.c.s.rxBuf)
  }

  ghost predicate TimelyRun(x: State, acts: seq<Action>)
    requires Run(ToSlave, x, acts)
  {
    Always(ToSlave, x, acts, Timely)
  }

  // ---------- the invariant ----------

  /** The real bytes of the frame that the slave has not stored yet. */
  function InFlight(c: System): Stream {
    if c.event.WroteData? then c.event.frame[..Min(FRAME, c.s.totalRecvLen)] else []
  }

  ghost predicate Unused(c: System) {
    && c.m.recvBuf == [] && !c.m.waitRecv && c.m.mode != Read
    && c.s.txBuf == [] && c.s.totalSendLen == 0 && !c.s.sending && c.s.status == 0
    && !c.event.ReadData?
  }

  ghost predicate IdleInv(x: State) {
    && x.c.m.transmitLen == x.c.s.totalRecvLen == 0
    && (x.c.event.Quiet? || x.c.event == WroteStatus(0) || x.c.event == ReadStatus)
    && !x.c.s.waitRecv
    && (x.c.m.sendBuf != [] ==> x.c.m.irq || x.writerAtCheck)
  }

  /** Who is to move while a transfer is under way: the master, the slave, or the slave's reader. */
  ghost predicate MastersTurn(c: System) {
    c.m.irq && c.event.Quiet? && !c.s.waitRecv && c.m.transmitLen == c.s.totalRecvLen
  }

  ghost predicate SlavesTurn(c: System) {
    && !c.m.irq && !c.s.waitRecv
    && match c.event
       case WroteStatus(len) => len == c.m.transmitLen > 0 && c.s.totalRecvLen == 0
       case WroteData(_) => c.s.totalRecvLen > 0
                            && c.m.transmitLen == c.s.totalRecvLen - Min(FRAME, c.s.totalRecvLen)
       case _ => false
  }

  ghost predicate ReadersTurn(c: System) {
    && !c.m.irq && c.event.Quiet? && c.s.waitRecv && !c.s.line && c.m.transmitLen == c.s.totalRecvLen
  }

  /** A parked slave is nearly full, or its reader has just read and is about to check. */
  ghost predicate Parked(x: State) {
    var used := |x.c.s.rxBuf|;
    x.c.s.waitRecv ==> used > CAPACITY - FRAME || (x.readerAtCheck && used > CAPACITY - FRAME - READ_CHUNK)
  }

  /** What no schedule can break: the two chips agree, and exactly one side is to move. */
  ghost predicate Sound(x: State) {
    && Unused(x.c)
    && |x.c.m.sendBuf| <= CAPACITY && |x.c.s.rxBuf| <= CAPACITY
    && x.c.m.transmitLen <= |x.c.m.sendBuf|
    && (if x.c.m.mode == Null then IdleInv(x)
        else MastersTurn(x.c) || SlavesTurn(x.c) || ReadersTurn(x.c))
    && Parked(x)
  }

  /** A slave that is not parked has room for a frame, or for all that is still announced. */
  ghost predicate RoomLeft(x: State) {
    var room := Space(x.c.s.rxBuf);
    !x.c.s.waitRecv ==> room >= FRAME || 0 < x.c.s.totalRecvLen <= room
  }

  /** All bytes that have reached the reader or are still on their way to it, in the order of the stream. */
  function Link(x: State): Stream { x.taken + x.c.s.rxBuf + InFlight(x.c) + x.c.m.sendBuf }

  ghost predicate Conserved(x: State) { x.written == Link(x) }

  ghost predicate Inv(x: State) { Sound(x) && RoomLeft(x) && Conserved(x) }

  lemma IsrKeepsSound(x: State, stack: Frame)
    requires Sound(x) && Enabled(ToSlave, x, Isr(stack))
    ensures Sound(Next(ToSlave, x, Isr(stack)))
  {
    hide SpiEvent;
  }

  lemma FrameKeepsSound(x: State, reg: Frame)
    requires Sound(x) && Enabled(ToSlave, x, Callback(reg)) && x.c.event.WroteData?
    ensures Sound(Next(ToSlave, x, Callback(reg)))
  {
    hide Announce, LoadFrame, TakeLength;
  }

  lemma CallbackKeepsSound(x: State, reg: Frame)
    requires Sound(x) && Enabled(ToSlave, x, Callback(reg))
    ensures Sound(Next(ToSlave, x, Callback(reg)))
  {
    if x.c.event.WroteData? {
      FrameKeepsSound(x, reg);
    } else {
      hide Push, TakeFrame;
    }
  }

  lemma StepKeepsSound(x: State, a: Action)
    requires Sound(x) && Enabled(ToSlave, x, a)
    ensures Sound(Next(ToSlave, x, a))
  {
    match a
    case Isr(stack) => IsrKeepsSound(x, stack);
    case Callback(reg) => CallbackKeepsSound(x, reg);
    case _ => hide GpioIsr, SpiEvent;
  }

  /** Every step leaves room, except a wake check exactly when it is not timely. */
  lemma StepKeepsRoom(x: State, a: Action)
    requires Sound(x) && RoomLeft(x) && Enabled(ToSlave, x, a)
    ensures RoomLeft(Next(ToSlave, x, a)) <==> Timely(x, a)
  {
  }

  // ---------- where each byte comes from ----------

  /** How many real bytes of the frame in flight the slave has room for. */
  function Stored(c: System): nat {
    Min(|InFlight(c)|, if Space(c.s.rxBuf) < 0 then 0 else Space(c.s.rxBuf))
  }

  /** What a step does to `Link`, for anything recorded byte by byte; `more` is for what the writer adds. */
  function Carry<T>(x: State, s: seq<T>, a: Action, more: seq<T>): seq<T>
    requires |s| == |Link(x)|
  {
    var done := |x.taken| + |x.c.s.rxBuf|;
    match a
    case WriterSend(_) => s + more
    case Callback(_) => s[..done + Stored(x.c)] + s[done + |InFlight(x.c)|..]
    case _ => s
  }

  function Added(a: Action): Stream { if a.WriterSend? then a.data else [] }

  /** Leaving out the end of `f` in the middle of a stream. */
  lemma CutOut(a: Stream, b: Stream, f: Stream, d: Stream, n: nat)
    requires n <= |f|
    ensures var s := a + b + f + d;
            s[..|a| + |b| + n] + s[|a| + |b| + |f|..] == a + (b + f[..n]) + [] + d
  {
  }

  lemma IsrCarriesBytes(x: State, stack: Frame)
    requires Sound(x) && Enabled(ToSlave, x, Isr(stack))
    ensures Link(Next(ToSlave, x, Isr(stack))) == Link(x)
  {
    var y := Next(ToSlave, x, Isr(stack));
    if x.c.m.mode == Write && x.c.m.transmitLen > 0 {
      var n := Min(FRAME, x.c.m.transmitLen);
      assert InFlight(y.c) == x.c.m.sendBuf[..n];
      assert x.c.m.sendBuf == x.c.m.sendBuf[..n] + x.c.m.sendBuf[n..];
    }
  }

  /** The slave stores what it has room for of a frame. */
  lemma FrameCarriesBytes(x: State, reg: Frame)
    requires Sound(x) && Enabled(ToSlave, x, Callback(reg)) && x.c.event.WroteData?
    ensures Link(Next(ToSlave, x, Callback(reg))) == Carry(x, Link(x), Callback(reg), [])
  {
    var c, y := x.c, Next(ToSlave, x, Callback(reg));
    var f := InFlight(c);
    assert y.c.s.rxBuf == c.s.rxBuf + f[..Stored(c)] && InFlight(y.c) == [];
    hide Sound, Next, InFlight, Enabled;
    CutOut(x.taken, c.s.rxBuf, f, c.m.sendBuf, Stored(c));
  }

  lemma TakeCarriesBytes(x: State)
    requires Enabled(ToSlave, x, ReaderTake)
    ensures Link(Next(ToSlave, x, ReaderTake)) == Link(x)
  {
    var n := Min(READ_CHUNK, |x.c.s.rxBuf|);
    assert x.c.s.rxBuf == x.c.s.rxBuf[..n] + x.c.s.rxBuf[n..];
    Regroup(x.taken, x.c.s.rxBuf[..n], x.c.s.rxBuf[n..]);
  }

  lemma CallbackCarriesBytes(x: State, reg: Frame)
    requires Sound(x) && Enabled(ToSlave, x, Callback(reg))
    ensures Link(Next(ToSlave, x, Callback(reg))) == Carry(x, Link(x), Callback(reg), [])
  {
    if x.c.event.WroteData? {
      FrameCarriesBytes(x, reg);
    } else {
      var y, k := Next(ToSlave, x, Callback(reg)), |x.taken| + |x.c.s.rxBuf|;
      assert Link(y) == Link(x) && InFlight(x.c) == [];
      hide Sound, Next, Link, Enabled;
      assert Link(x)[..k] + Link(x)[k..] == Link(x);
    }
  }

  lemma StepCarriesBytes(x: State, a: Action)
    requires Sound(x) && Enabled(ToSlave, x, a)
    ensures var y := Next(ToSlave, x, a);
            Link(y) == Carry(x, Link(x), a, Added(a)) && y.written == x.written + Added(a)
  {
    hide GpioIsr, SpiEvent, Sound;
    assert x.written + [] == x.written;
    match a
    case Isr(stack) => IsrCarriesBytes(x, stack);
    case Callback(reg) => CallbackCarriesBytes(x, reg);
    case ReaderTake => TakeCarriesBytes(x);
    case WriterSend(data) => Regroup(x.taken + x.c.s.rxBuf + InFlight(x.c), x.c.m.sendBuf, data);
    case _ =>
  }

  /** While there is room, no step loses a byte. */
  lemma StepKeepsBytes(x: State, a: Action)
    requires Sound(x) && RoomLeft(x) && Enabled(ToSlave, x, a)
    ensures Link(Next(ToSlave, x, a)) == Link(x) + Added(a)
  {
    StepCarriesBytes(x, a);
    assert Stored(x.c) == |InFlight(x.c)|;
    hide Sound, RoomLeft, Next, Link;
  }

  /** Every step keeps the invariant, except a wake check exactly when it is not timely. */
  lemma StepKeepsInv(x: State, a: Action)
    requires Inv(x) && Enabled(ToSlave, x, a)
    ensures Inv(Next(ToSlave, x, a)) <==> Timely(x, a)
  {
    hide Sound, RoomLeft, Next, Link, Enabled, Timely;
    StepKeepsSound(x, a);
    StepKeepsRoom(x, a);
    StepKeepsBytes(x, a);
    StepCarriesBytes(x, a);
  }

  lemma {:induction false} RunKeepsSound(x: State, acts: seq<Action>)
    requires Sound(x) && Run(ToSlave, x, acts)
    ensures Sound(After(ToSlave, x, acts))
    decreases |acts|
  {
    hide Sound, Next, Enabled;
    if acts != [] {
      StepKeepsSound(x, acts[0]);
      RunKeepsSound(Next(ToSlave, x, acts[0]), acts[1..]);
    }
  }

  lemma {:induction false} RunKeepsInv(x: State, acts: seq<Action>)
    requires Inv(x) && Run(ToSlave, x, acts) && TimelyRun(x, acts)
    ensures Inv(After(ToSlave, x, acts))
    decreases |acts|
  {
    hide Inv, Next, Enabled, Timely;
    if acts != [] {
      StepKeepsInv(x, acts[0]);
      RunKeepsInv(Next(ToSlave, x, acts[0]), acts[1..]);
    }
  }

  lemma StartInv()
    ensures Inv(Start())
  {
  }

  // ---------- over every run, timely or not ----------

  /** Both ends agree on the length, and exactly one of the master, the slave and its reader is to move. */
  lemma LengthAgreement(acts: seq<Action>)
    requires Run(ToSlave, Start(), acts)
    ensures var c := After(ToSlave, Start(), acts).c;
            && (c.m.mode == Write && c.event.Quiet? ==>
                  c.m.transmitLen == c.s.totalRecvLen <= |c.m.sendBuf|)
            && (c.m.mode == Write ==>
                  (if c.m.irq then 1 else 0) + (if c.event.Quiet? then 0 else 1)
                  + (if c.s.waitRecv then 1 else 0) == 1)
            && c.m.transmitLen <= |c.m.sendBuf| <= CAPACITY
  {
    hide Run, After, Next;
    StartInv();
    RunKeepsSound(Start(), acts);
  }

  /** No lost wake-up: bytes never wait in the send buffer with nobody due to look at them. */
  lemma NoLostWakeUp(acts: seq<Action>)
    requires Run(ToSlave, Start(), acts)
    ensures var x := After(ToSlave, Start(), acts);
            x.c.m.sendBuf != [] ==> x.c.m.mode != Null || x.c.m.irq || x.writerAtCheck
  {
    hide Run, After, Next;
    StartInv();
    RunKeepsSound(Start(), acts);
  }

  /** A raised line is never overlooked: the interrupt is pending, or a transaction is on its way to lower it. */
  lemma HighLineIsAnswered(acts: seq<Action>)
    requires Run(ToSlave, Start(), acts)
    ensures var c := After(ToSlave, Start(), acts).c; c.s.line ==> c.m.irq || !c.event.Quiet?
  {
    hide Run, After, Next;
    StartInv();
    LineAnsweredAfter(Start(), acts);
  }

  lemma StepAnswersLine(x: State, a: Action)
    requires Sound(x) && Enabled(ToSlave, x, a) && (x.c.s.line ==> x.c.m.irq || !x.c.event.Quiet?)
    ensures var c := Next(ToSlave, x, a).c; c.s.line ==> c.m.irq || !c.event.Quiet?
  {
    hide Push;
  }

  lemma {:induction false} LineAnsweredAfter(x: State, acts: seq<Action>)
    requires Sound(x) && Run(ToSlave, x, acts) && (x.c.s.line ==> x.c.m.irq || !x.c.event.Quiet?)
    ensures var c := After(ToSlave, x, acts).c; c.s.line ==> c.m.irq || !c.event.Quiet?
    decreases |acts|
  {
    hide Sound, Next, Enabled;
    if acts != [] {
      StepKeepsSound(x, acts[0]);
      StepAnswersLine(x, acts[0]);
      LineAnsweredAfter(Next(ToSlave, x, acts[0]), acts[1..]);
    }
  }

  /** A wake check of a parked slave always wakes the master, whatever the schedule was. */
  lemma EveryCheckWakes(x: State)
    requires Sound(x) && x.readerAtCheck && x.c.s.waitRecv
    ensures var c := Next(ToSlave, x, ReaderCheck).c; c.m.irq && c.s.line && !c.s.waitRecv
  {
  }

  /** A read that times out does not look at the flag. */
  lemma EmptyPollChangesNothing(x: State)
    requires x.c.s.rxBuf == [] && !x.readerAtCheck
    ensures Next(ToSlave, x, ReaderTake) == x
  {
  }

  /** `at` tells from which positions of `written` the bytes of `s` come: in order, none twice. */
  ghost predicate ComesFrom(s: Stream, at: seq<int>, written: Stream) {
    && |at| == |s|
    && (forall i | 0 <= i < |at| :: 0 <= at[i] < |written| && s[i] == written[at[i]])
    && (forall i, j | 0 <= i < j < |at| :: at[i] < at[j])
  }

  /** The positions of `Link` after a run, byte by byte, from those before it. */
  ghost function Origins(x: State, at: seq<int>, acts: seq<Action>): seq<int>
    requires Sound(x) && Run(ToSlave, x, acts) && |at| == |Link(x)|
    decreases |acts|
  {
    if acts == [] then at else
    StepKeepsSound(x, acts[0]);
    StepCarriesBytes(x, acts[0]);
    Origins(Next(ToSlave, x, acts[0]),
            Carry(x, at, acts[0], Positions(|x.written|, |Added(acts[0])|)), acts[1..])
  }

  lemma AppendKeepsOrder(s: Stream, at: seq<int>, written: Stream, data: Stream)
    requires ComesFrom(s, at, written)
    ensures ComesFrom(s + data, at + Positions(|written|, |data|), written + data)
  {
  }

  lemma CutKeepsOrder(s: Stream, at: seq<int>, written: Stream, k: nat, m: nat)
    requires ComesFrom(s, at, written) && k <= m <= |s|
    ensures ComesFrom(s[..k] + s[m..], at[..k] + at[m..], written)
  {
    var t, p := s[..k] + s[m..], at[..k] + at[m..];
    forall i | 0 <= i < |p| ensures p[i] == at[if i < k then i else i + m - k] && 0 <= p[i] < |written| {}
    forall i | 0 <= i < |p| ensures t[i] == s[if i < k then i else i + m - k] && t[i] == written[p[i]] {}
  }

  lemma CarryKeepsOrder(x: State, at: seq<int>, a: Action)
    requires ComesFrom(Link(x), at, x.written)
    ensures ComesFrom(Carry(x, Link(x), a, Added(a)), Carry(x, at, a, Positions(|x.written|, |Added(a)|)),
                      x.written + Added(a))
  {
    var done := |x.taken| + |x.c.s.rxBuf|;
    hide ComesFrom;
    assert x.written + [] == x.written;
    AppendKeepsOrder(Link(x), at, x.written, Added(a));
    CutKeepsOrder(Link(x), at, x.written, done + Stored(x.c), done + |InFlight(x.c)|);
  }

  lemma {:induction false} RunKeepsOrder(x: State, at: seq<int>, acts: seq<Action>)
    requires Sound(x) && Run(ToSlave, x, acts) && ComesFrom(Link(x), at, x.written)
    ensures var y := After(ToSlave, x, acts); ComesFrom(Link(y), Origins(x, at, acts), y.written)
    decreases |acts|
  {
    assert |at| == |Link(x)|;
    hide Sound, Link, Next, Carry, ComesFrom, Enabled;
    if acts != [] {
      StepKeepsSound(x, acts[0]);
      StepCarriesBytes(x, acts[0]);
      CarryKeepsOrder(x, at, acts[0]);
      RunKeepsOrder(Next(ToSlave, x, acts[0]),
                    Carry(x, at, acts[0], Positions(|x.written|, |Added(acts[0])|)), acts[1..]);
    }
  }

  /** In every run, even when bytes are lost: none arrives twice, out of order or from the padding of a frame. */
  lemma OrderInEveryRun(acts: seq<Action>)
    requires Run(ToSlave, Start(), acts)
    ensures var x := After(ToSlave, Start(), acts);
            ComesFrom(x.taken + x.c.s.rxBuf + InFlight(x.c) + x.c.m.sendBuf, Origins(Start(), [], acts), x.written)
  {
    hide Run, After, Next, Origins;
    StartInv();
    RunKeepsOrder(Start(), [], acts);
  }

  function Lost(x: State): int { |x.written| - |Link(x)| }

  /** What is lost, and the frame that a link without room may lose next. */
  ghost function Risk(x: State): int { Lost(x) + if RoomLeft(x) then 0 else FRAME }

  function UntimelyChecks(x: State, acts: seq<Action>): nat
    requires Run(ToSlave, x, acts)
    decreases |acts|
  {
    if acts == [] then 0
    else (if Timely(x, acts[0]) then 0 else 1) + UntimelyChecks(Next(ToSlave, x, acts[0]), acts[1..])
  }

  /** Behind a frame that does not fit the slave parks: only another untimely check can cost more. */
  lemma StepKeepsRisk(x: State, a: Action)
    requires Sound(x) && Enabled(ToSlave, x, a)
    ensures var y := Next(ToSlave, x, a);
            Lost(x) <= Lost(y) && Risk(y) <= Risk(x) + (if Timely(x, a) then 0 else FRAME)
  {
    StepCarriesBytes(x, a);
    if RoomLeft(x) {
      StepKeepsRoom(x, a);
      StepKeepsBytes(x, a);
      hide Sound, Next, Link;
    }
  }

  lemma {:induction false} RiskAfter(x: State, acts: seq<Action>)
    requires Sound(x) && Run(ToSlave, x, acts)
    ensures var y := After(ToSlave, x, acts);
            Lost(x) <= Lost(y) && Risk(y) <= Risk(x) + FRAME * UntimelyChecks(x, acts)
    decreases |acts|
  {
    hide Sound, Next, Lost, Risk, Timely, Enabled;
    if acts != [] {
      StepKeepsSound(x, acts[0]);
      StepKeepsRisk(x, acts[0]);
      RiskAfter(Next(ToSlave, x, acts[0]), acts[1..]);
    }
  }

  /** An untimely check costs at most one frame. */
  lemma LossIsBounded(acts: seq<Action>)
    requires Run(ToSlave, Start(), acts)
    ensures 0 <= Lost(After(ToSlave, Start(), acts)) <= FRAME * UntimelyChecks(Start(), acts)
  {
    hide Run, After, Next, UntimelyChecks;
    StartInv();
    RiskAfter(Start(), acts);
  }

  // ---------- over timely runs ----------

  /** Nothing at all is lost. */
  lemma Delivery(acts: seq<Action>)
    requires Run(ToSlave, Start(), acts) && TimelyRun(Start(), acts)
    ensures Conserved(After(ToSlave, Start(), acts))
  {
    hide Run, After, Next, TimelyRun;
    StartInv();
    RunKeepsInv(Start(), acts);
  }

  /** What a frame brings always finds room. */
  lemma FlowControl(acts: seq<Action>)
    requires Run(ToSlave, Start(), acts) && TimelyRun(Start(), acts)
    ensures var c := After(ToSlave, Start(), acts).c; c.event.WroteData? ==> |InFlight(c)| <= Space(c.s.rxBuf)
  {
    hide Run, After, Next, TimelyRun;
    StartInv();
    RunKeepsInv(Start(), acts);
  }

  // ---------- 64 free bytes ----------

  /** The wake check finds room for a whole frame. */
  predicate Roomy(x: State, a: Action) {
    a.ReaderCheck? && x.c.s.waitRecv ==> Space(x.c.s.rxBuf) >= FRAME
  }

  ghost predicate FrameRoom(x: State) { x.c.s.waitRecv || Space(x.c.s.rxBuf) >= FRAME }

  /** Room for a whole frame is kept by every step, except a wake check exactly when it is not roomy. */
  lemma StepKeepsFrameRoom(x: State, a: Action)
    requires Sound(x) && FrameRoom(x) && Enabled(ToSlave, x, a)
    ensures FrameRoom(Next(ToSlave, x, a)) <==> Roomy(x, a)
  {
  }

  /** With such checks the slave has 64 free bytes whenever a frame can arrive. */
  lemma {:induction false} RoomForEveryFrame(x: State, acts: seq<Action>)
    requires Sound(x) && FrameRoom(x) && Run(ToSlave, x, acts) && Always(ToSlave, x, acts, Roomy)
    ensures var c := After(ToSlave, x, acts).c; c.event.WroteData? ==> Space(c.s.rxBuf) >= FRAME
    decreases |acts|
  {
    if acts == [] {
      assert x.c.event.WroteData? ==> !x.c.s.waitRecv;
    } else {
      StepKeepsSound(x, acts[0]);
      StepKeepsFrameRoom(x, acts[0]);
      RoomForEveryFrame(Next(ToSlave, x, acts[0]), acts[1..]);
    }
  }

  /** The reader's wake check follows its read at once, with nothing in between. */
  predicate Prompt(x: State, a: Action) { x.readerAtCheck ==> a.ReaderCheck? }

  ghost predicate PromptRun(x: State, acts: seq<Action>)
    requires Run(ToSlave, x, acts)
  {
    Always(ToSlave, x, acts, Prompt)
  }

  /** A read makes room for a frame, whatever the schedule was before it. */
  lemma ReadMakesRoom(x: State)
    requires Sound(x) && Enabled(ToSlave, x, ReaderTake)
    ensures Roomy(Next(ToSlave, x, ReaderTake), ReaderCheck)
  {
  }

  lemma {:induction false} PromptRunsAreRoomy(x: State, acts: seq<Action>)
    requires Sound(x) && Run(ToSlave, x, acts) && PromptRun(x, acts)
    requires x.readerAtCheck ==> Roomy(x, ReaderCheck)
    ensures Always(ToSlave, x, acts, Roomy)
    ensures var y := After(ToSlave, x, acts); y.readerAtCheck ==> Roomy(y, ReaderCheck)
    decreases |acts|
  {
    if acts != [] {
      StepKeepsSound(x, acts[0]);
      if acts[0].ReaderTake? {
        ReadMakesRoom(x);
      }
      PromptRunsAreRoomy(Next(ToSlave, x, acts[0]), acts[1..]);
    }
  }

  lemma {:induction false} RoomyRunsAreTimely(x: State, acts: seq<Action>)
    requires Run(ToSlave, x, acts) && Always(ToSlave, x, acts, Roomy)
    ensures TimelyRun(x, acts)
    decreases |acts|
  {
    if acts != [] {
      RoomyRunsAreTimely(Next(ToSlave, x, acts[0]), acts[1..]);
    }
  }

  /** From power-on a prompt reader always leaves 64 free bytes for the next frame. */
  lemma PromptRunsHaveRoom(acts: seq<Action>)
    requires Run(ToSlave, Start(), acts) && PromptRun(Start(), acts)
    ensures var c := After(ToSlave, Start(), acts).c; c.event.WroteData? ==> Space(c.s.rxBuf) >= FRAME
  {
    hide Run, After, Next, PromptRun, Always;
    StartInv();
    PromptRunsAreRoomy(Start(), acts);
    RoomForEveryFrame(Start(), acts);
  }

  lemma {:induction false} PromptRunsAreTimely(x: State, acts: seq<Action>)
    requires Sound(x) && Run(ToSlave, x, acts) && PromptRun(x, acts)
    requires x.readerAtCheck ==> Timely(x, ReaderCheck)
    ensures TimelyRun(x, acts)
    ensures var y := After(ToSlave, x, acts); y.readerAtCheck ==> Timely(y, ReaderCheck)
    decreases |acts|
  {
    if acts != [] {
      StepKeepsSound(x, acts[0]);
      if acts[0].ReaderTake? {
        ReadMakesRoom(x);
      }
      PromptRunsAreTimely(Next(ToSlave, x, acts[0]), acts[1..]);
    }
  }

  // ---------- the gap in the reader task ----------

  predicate CheckFree(acts: seq<Action>) { forall i | 0 <= i < |acts| :: !acts[i].ReaderCheck? }

  lemma {:induction false} CheckFreeRunsAreTimely(x: State, acts: seq<Action>)
    requires Run(ToSlave, x, acts) && CheckFree(acts)
    ensures TimelyRun(x, acts)
    decreases |acts|
  {
    if acts != [] {
      assert !acts[0].ReaderCheck?;
      CheckFreeRunsAreTimely(Next(ToSlave, x, acts[0]), acts[1..]);
    }
  }

  /** Bytes get lost although the reader checks no more and the writer writes as the demo does. */
  ghost predicate CanLose(x: State) {
    exists acts :: Run(ToSlave, x, acts) && CheckFree(acts) && Demos(acts) && !Conserved(After(ToSlave, x, acts))
  }

  lemma AlreadyLost(x: State)
    requires !Conserved(x)
    ensures CanLose(x)
  {
    assert Run(ToSlave, x, []) && After(ToSlave, x, []) == x;
  }

  lemma LosesLater(x: State, a: Action)
    requires Enabled(ToSlave, x, a) && !a.ReaderCheck? && Demo(a) && CanLose(Next(ToSlave, x, a))
    ensures CanLose(x)
  {
    hide Conserved, Next, Enabled;
    var y := Next(ToSlave, x, a);
    var acts :| Run(ToSlave, y, acts) && CheckFree(acts) && Demos(acts) && !Conserved(After(ToSlave, y, acts));
    RunCons(ToSlave, x, a, acts);
    assert CheckFree([a] + acts) && Demos([a] + acts);
  }

  /** The master is due, the slave has no room for a whole frame and has told nobody. */
  ghost predicate Crammed(x: State) {
    && x.c.m.irq && x.c.event.Quiet? && !x.c.s.waitRecv && 0 <= Space(x.c.s.rxBuf) < FRAME
    && |x.c.m.sendBuf| <= CAPACITY && |x.written| == |x.taken| + |x.c.s.rxBuf| + |x.c.m.sendBuf|
  }

  /** The next frame brings more than fits. */
  lemma FrameDoesNotFit(x: State)
    requires Crammed(x) && x.c.m.mode == Write && x.c.s.totalRecvLen == x.c.m.transmitLen <= |x.c.m.sendBuf|
    requires x.c.m.transmitLen > Space(x.c.s.rxBuf)
    ensures CanLose(x)
  {
    var y := Next(ToSlave, x, Isr(ZERO));
    var z := Next(ToSlave, y, Callback(ZERO));
    assert |z.taken + z.c.s.rxBuf + InFlight(z.c) + z.c.m.sendBuf| < |z.written|;
    AlreadyLost(z);
    LosesLater(y, Callback(ZERO));
    LosesLater(x, Isr(ZERO));
  }

  /** A new transfer of at least a frame starts. */
  lemma NextTransferDoesNotFit(x: State)
    requires Crammed(x) && x.c.m.mode == Null && |x.c.m.sendBuf| >= FRAME
    ensures CanLose(x)
  {
    var y := Next(ToSlave, x, Isr(ZERO));
    var z := Next(ToSlave, y, Callback(ZERO));
    FrameDoesNotFit(z);
    LosesLater(y, Callback(ZERO));
    LosesLater(x, Isr(ZERO));
  }

  /** A transfer has just ended, and the writer can always add to what is left. */
  lemma EndedTransferDoesNotFit(x: State)
    requires Crammed(x) && x.c.m.mode == Write && x.c.m.transmitLen == 0
    ensures CanLose(x)
    decreases |x.c.m.sendBuf| < FRAME, x.writerAtCheck
  {
    if |x.c.m.sendBuf| >= FRAME {
      NextTransferDoesNotFit(Next(ToSlave, x, Isr(ZERO)));
      LosesLater(x, Isr(ZERO));
    } else if x.writerAtCheck {
      EndedTransferDoesNotFit(Next(ToSlave, x, WriterCheck));
      LosesLater(x, WriterCheck);
    } else {
      var data := seq(WRITE, _ => 0);
      EndedTransferDoesNotFit(Next(ToSlave, x, WriterSend(data)));
      LosesLater(x, WriterSend(data));
    }
  }

  /**
   * `Timely` is the exact condition: after a timely step nothing is lost as long as the reader does not
   * check again; after a check that is not timely bytes can be lost before it does.
   */
  lemma TimelyIffNothingIsLost(x: State, a: Action)
    requires Inv(x) && Enabled(ToSlave, x, a)
    ensures Timely(x, a) ==>
              forall acts | Run(ToSlave, Next(ToSlave, x, a), acts) && CheckFree(acts) ::
                Conserved(After(ToSlave, Next(ToSlave, x, a), acts))
    ensures !Timely(x, a) ==> CanLose(Next(ToSlave, x, a))
  {
    var y := Next(ToSlave, x, a);
    if Timely(x, a) {
      StepKeepsInv(x, a);
      forall acts | Run(ToSlave, y, acts) && CheckFree(acts)
        ensures Conserved(After(ToSlave, y, acts))
      {
        CheckFreeRunsAreTimely(y, acts);
        RunKeepsInv(y, acts);
      }
    } else if x.c.m.transmitLen > 0 {
      FrameDoesNotFit(y);
    } else {
      EndedTransferDoesNotFit(y);
    }
  }

  /** A frame is conserved exactly when its real bytes fit. */
  lemma ConservedIffItFits(x: State, reg: Frame)
    requires Sound(x) && Conserved(x) && Enabled(ToSlave, x, Callback(reg))
    ensures Conserved(Next(ToSlave, x, Callback(reg))) <==> |InFlight(x.c)| <= Space(x.c.s.rxBuf)
  {
    StepCarriesBytes(x, Callback(reg));
    assert Space(x.c.s.rxBuf) >= 0;
    assert |Link(x)| == |x.taken| + |x.c.s.rxBuf| + |InFlight(x.c)| + |x.c.m.sendBuf|;
    hide Sound, Next, Link, InFlight, Enabled;
  }

  /** A wake without room for a whole frame, and the frame the master then sends. */
  lemma EarlyWakeStep(x: State, stack: Frame)
    requires Inv(x) && Enabled(ToSlave, x, ReaderCheck) && !Roomy(x, ReaderCheck)
    requires x.c.m.transmitLen > 0
    ensures var y := Next(ToSlave, x, ReaderCheck);
            Enabled(ToSlave, y, Isr(stack)) &&
            var z := Next(ToSlave, y, Isr(stack));
            && Sound(z) && Conserved(z) && z.c.event.WroteData?
            && |InFlight(z.c)| == Min(FRAME, x.c.m.transmitLen) && z.c.s.rxBuf == x.c.s.rxBuf
  {
    var y := Next(ToSlave, x, ReaderCheck);
    StepKeepsSound(x, ReaderCheck);
    StepKeepsSound(y, Isr(stack));
    StepCarriesBytes(x, ReaderCheck);
    StepCarriesBytes(y, Isr(stack));
    hide Link;
  }

  /** A wake without room for a whole frame: the next one loses bytes exactly when its real bytes do not fit. */
  lemma EarlyWakeLosesBytes(x: State, stack: Frame, reg: Frame)
    requires Inv(x) && Enabled(ToSlave, x, ReaderCheck) && !Roomy(x, ReaderCheck)
    requires x.c.m.transmitLen > 0
    ensures var acts := [ReaderCheck] + ([Isr(stack)] + [Callback(reg)]);
            Run(ToSlave, x, acts) &&
            (Conserved(After(ToSlave, x, acts)) <==> Min(FRAME, x.c.m.transmitLen) <= Space(x.c.s.rxBuf))
  {
    hide Next, Inv, Sound, Conserved, InFlight;
    EarlyWakeStep(x, stack);
    var y := Next(ToSlave, x, ReaderCheck);
    var z := Next(ToSlave, y, Isr(stack));
    ConservedIffItFits(z, reg);
    RunOne(ToSlave, z, Callback(reg));
    RunCons(ToSlave, y, Isr(stack), [Callback(reg)]);
    RunCons(ToSlave, x, ReaderCheck, [Isr(stack)] + [Callback(reg)]);
  }

  lemma Do(s: State, x: State, a: Action) returns (y: State)
    requires Reaches(ToSlave, s, x) && Inv(x) && Enabled(ToSlave, x, a) && Timely(x, a) && Demo(a)
    ensures y == Next(ToSlave, x, a) && Reaches(ToSlave, s, y) && Inv(y)
  {
    y := Next(ToSlave, x, a);
    ReachStep(ToSlave, s, x, a);
    StepKeepsInv(x, a);
  }

  /** `x` is reached, and it is the master's turn with `todo` bytes announced. */
  ghost predicate Turn(s: State, x: State, todo: int, send: int, rx: int) {
    && Reaches(ToSlave, s, x) && Inv(x) && x.c.m.mode == Write && MastersTurn(x.c)
    && x.c.m.transmitLen == todo && |x.c.m.sendBuf| == send && |x.c.s.rxBuf| == rx
  }

  /** From a master's turn, `k` whole frames can go through if there is room for them. */
  lemma {:induction false} Pump(s: State, x: State, todo: int, send: int, rx: int, k: nat)
    returns (y: State)
    requires Turn(s, x, todo, send, rx) && todo >= FRAME * k && CAPACITY - rx >= FRAME * (k + 1)
    ensures Turn(s, y, todo - FRAME * k, send - FRAME * k, rx + FRAME * k)
    ensures y.readerAtCheck == x.readerAtCheck && y.writerAtCheck == x.writerAtCheck
    decreases k
  {
    y := x;
    if k > 0 {
      y := Do(s, y, Isr(ZERO));
      y := Do(s, y, Callback(ZERO));
      y := Pump(s, y, todo - FRAME, send - FRAME, rx + FRAME, k - 1);
    }
  }

  /** The first 2048 bytes are announced ... */
  lemma FirstTransfer() returns (y: State)
    ensures Turn(Start(), y, WRITE, WRITE, 0) && !y.readerAtCheck && !y.writerAtCheck
  {
    var s := Start();
    assert Run(ToSlave, s, []) && After(ToSlave, s, []) == s && Demos([]);
    hide Reaches, Run, After;
    y := Do(s, s, WriterSend(seq(WRITE, _ => 0)));
    y := Do(s, y, WriterCheck);
    y := Do(s, y, Isr(ZERO)); // announces them
    y := Do(s, y, Callback(ZERO));
  }

  /** ... and one frame of them is through. */
  lemma FirstFrame() returns (y: State)
    ensures Turn(Start(), y, 1984, 1984, 64) && !y.readerAtCheck && !y.writerAtCheck
  {
    hide Turn;
    y := FirstTransfer();
    y := Pump(Start(), y, WRITE, WRITE, 0, 1);
  }

  /** The writer writes again behind a transfer that has ended, and the master announces it. */
  lemma NextTransfer(s: State, x: State, rx: int) returns (y: State)
    requires Turn(s, x, 0, 0, rx) && !x.writerAtCheck
    ensures Turn(s, y, WRITE, WRITE, rx) && y.readerAtCheck == x.readerAtCheck && !y.writerAtCheck
  {
    y := Do(s, x, WriterSend(seq(WRITE, _ => 0)));
    y := Do(s, y, WriterCheck);
    y := Do(s, y, Isr(ZERO));
    y := Do(s, y, Isr(ZERO));
    y := Do(s, y, Callback(ZERO));
  }

  lemma FillSlave(s: State, x: State) returns (y: State)
    requires Turn(s, x, WRITE, WRITE, 4032)
    ensures Reaches(ToSlave, s, y) && Inv(y) && y.c.s.waitRecv && y.readerAtCheck == x.readerAtCheck
    ensures y.c.m.transmitLen == 1984 && |y.c.s.rxBuf| == CAPACITY
  {
    y := Do(s, x, Isr(ZERO));
    y := Do(s, y, Callback(ZERO));
  }

  /** The gap is real: a run from power-on, in writes of 2048 bytes, loses bytes. */
  lemma BytesCanBeLost() returns (acts: seq<Action>)
    ensures Run(ToSlave, Start(), acts) && Demos(acts) && !Conserved(After(ToSlave, Start(), acts))
  {
    var s := Start();
    var x := FirstFrame();
    x := Do(s, x, ReaderTake); // the reader takes 64 bytes and stands before its check
    x := Pump(s, x, 1984, 1984, 0, 31);
    x := NextTransfer(s, x, 1984);
    x := Pump(s, x, WRITE, WRITE, 1984, 32);
    x := NextTransfer(s, x, 4032);
    x := FillSlave(s, x);      // no room left: the slave parks behind the reader's back
    TimelyIffNothingIsLost(x, ReaderCheck);
    ReachStep(ToSlave, s, x, ReaderCheck);
    var y := Next(ToSlave, x, ReaderCheck);
    var before :| Run(ToSlave, s, before) && After(ToSlave, s, before) == y && Demos(before);
    var after :| Run(ToSlave, y, after) && CheckFree(after) && Demos(after) && !Conserved(After(ToSlave, y, after));
    RunAppend(ToSlave, s, before, after);
    acts := before + after;
  }

  // ---------- progress ----------

  /** How far the handshake is from its next frame. */
  ghost function Phase(c: System): nat {
    if c.m.mode == Null then (if c.m.irq then 3 else 0) + (if c.event.Quiet? then 0 else 1)
    else if c.event.WroteData? then 6
    else if c.event.WroteStatus? then 2
    else if c.m.transmitLen == 0 then 5
    else 1
  }

  /** Work that is left without the writer: bytes to send, then the handshake, then bytes to read. */
  ghost function Rank(x: State): nat {
    ((8 * |x.c.m.sendBuf| + Phase(x.c)) * (CAPACITY + 1) + |x.c.s.rxBuf|) * 2
    + (if x.readerAtCheck then 1 else 0)
  }

  lemma ProductiveStepsLowerRank(x: State, a: Action)
    requires Sound(x) && Enabled(ToSlave, x, a) && Productive(ToSlave, x, a)
    ensures Rank(Next(ToSlave, x, a)) < Rank(x)
  {
    var y := Next(ToSlave, x, a);
    StepKeepsSound(x, a);
    match a
    case ReaderTake => assert Phase(y.c) == Phase(x.c) && |y.c.s.rxBuf| < |x.c.s.rxBuf|;
    case ReaderCheck => assert Phase(y.c) == Phase(x.c) && |y.c.s.rxBuf| == |x.c.s.rxBuf|;
    case Isr(_) => assert 8 * |y.c.m.sendBuf| + Phase(y.c) < 8 * |x.c.m.sendBuf| + Phase(x.c);
    case Callback(_) => assert 8 * |y.c.m.sendBuf| + Phase(y.c) < 8 * |x.c.m.sendBuf| + Phase(x.c);
    case _ =>
  }

  /** Every byte that is not lost has reached the reader. */
  predicate Drained(x: State) { x.c.s.rxBuf == [] && InFlight(x.c) == [] && x.c.m.sendBuf == [] }

  /** Bytes on their way never leave only the writer able to act. */
  lemma SomeoneCanMove(x: State) returns (a: Action)
    requires Sound(x) && !x.writerAtCheck && !Drained(x)
    ensures Enabled(ToSlave, x, a) && Productive(ToSlave, x, a) && Prompt(x, a)
    ensures (x.readerAtCheck ==> Timely(x, ReaderCheck)) ==> Timely(x, a)
  {
    a := if x.readerAtCheck then ReaderCheck
         else if x.c.s.rxBuf != [] then ReaderTake
         else if !x.c.event.Quiet? then Callback(ZERO)
         else Isr(ZERO);
  }

  lemma {:induction false} ProductiveRunsAreBounded(x: State, acts: seq<Action>)
    requires Sound(x) && Run(ToSlave, x, acts)
    requires Always(ToSlave, x, acts, (x, a) => Productive(ToSlave, x, a))
    ensures |acts| <= Rank(x)
    decreases |acts|
  {
    hide Sound, Next, Rank, Enabled;
    if acts != [] {
      StepKeepsSound(x, acts[0]);
      ProductiveStepsLowerRank(x, acts[0]);
      ProductiveRunsAreBounded(Next(ToSlave, x, acts[0]), acts[1..]);
    }
  }

  /** What has reached the reader when nothing is left: the stream in order, but for a frame an untimely check. */
  lemma WhatADrainedLinkDelivers(acts: seq<Action>)
    requires Run(ToSlave, Start(), acts) && Drained(After(ToSlave, Start(), acts))
    ensures var x := After(ToSlave, Start(), acts);
            && ComesFrom(x.taken, Origins(Start(), [], acts), x.written)
            && 0 <= |x.written| - |x.taken| <= FRAME * UntimelyChecks(Start(), acts)
  {
    OrderInEveryRun(acts);
    LossIsBounded(acts);
    var x := After(ToSlave, Start(), acts);
    assert Link(x) == x.taken;
    hide Origins, UntimelyChecks, Run, After, ComesFrom;
  }

  /** Once the writer stops, every schedule drains the link in bounded time. */
  lemma EveryRunDrains(before: seq<Action>, acts: seq<Action>)
    requires Run(ToSlave, Start(), before)
    requires var x := After(ToSlave, Start(), before);
             && !x.writerAtCheck && Run(ToSlave, x, acts)
             && Always(ToSlave, x, acts, (x, a) => Productive(ToSlave, x, a))
    ensures var x := After(ToSlave, Start(), before); var y := After(ToSlave, x, acts);
            && |acts| <= Rank(x)
            && (Drained(y) || exists a :: Enabled(ToSlave, y, a) && Productive(ToSlave, y, a) && Prompt(y, a))
  {
    StartInv();
    hide Sound, Next, Rank, Run, After, Enabled, Productive, Prompt, Drained;
    var x := After(ToSlave, Start(), before);
    var y := After(ToSlave, x, acts);
    RunKeepsSound(Start(), before);
    RunKeepsSound(x, acts);
    ProductiveRunsAreBounded(x, acts);
    WriterStaysIdle(ToSlave, x, acts);
    if !Drained(y) {
      var a := SomeoneCanMove(y);
    }
  }

  lemma DrainedIsDelivered(x: State)
    requires Conserved(x) && Drained(x)
    ensures Delivered(x)
  {
    assert Link(x) == x.taken;
  }

  /** In timely runs a drained link has delivered everything. */
  lemma TimelyRunsDeliver(before: seq<Action>, acts: seq<Action>)
    requires Run(ToSlave, Start(), before) && TimelyRun(Start(), before)
    requires var x := After(ToSlave, Start(), before);
             && !x.writerAtCheck && Run(ToSlave, x, acts) && TimelyRun(x, acts)
             && Always(ToSlave, x, acts, (x, a) => Productive(ToSlave, x, a))
    ensures var x := After(ToSlave, Start(), before); var y := After(ToSlave, x, acts);
            && |acts| <= Rank(x)
            && (Delivered(y) || exists a :: Enabled(ToSlave, y, a) && Productive(ToSlave, y, a) && Prompt(y, a))
  {
    var x := After(ToSlave, Start(), before);
    var y := After(ToSlave, x, acts);
    assert Inv(x) && Inv(y) by {
      hide Run, After, Next, TimelyRun, Productive;
      StartInv();
      RunKeepsInv(Start(), before);
      RunKeepsInv(x, acts);
    }
    hide Sound, RoomLeft, Conserved, Next, Rank, Run, After, Enabled, Productive, Prompt, Drained, Delivered;
    EveryRunDrains(before, acts);
    if Drained(y) {
      DrainedIsDelivered(y);
    }
  }

  /** Once the writer stops, every prompt schedule that keeps going delivers everything in bounded time. */
  lemma EverythingIsDelivered(before: seq<Action>, acts: seq<Action>)
    requires Run(ToSlave, Start(), before) && PromptRun(Start(), before)
    requires var x := After(ToSlave, Start(), before);
             && !x.writerAtCheck && Run(ToSlave, x, acts) && PromptRun(x, acts)
             && Always(ToSlave, x, acts, (x, a) => Productive(ToSlave, x, a))
    ensures var x := After(ToSlave, Start(), before); var y := After(ToSlave, x, acts);
            && |acts| <= Rank(x)
            && (Delivered(y) || exists a :: Enabled(ToSlave, y, a) && Productive(ToSlave, y, a) && Prompt(y, a))
  {
    hide Run, After, Next, Enabled, Productive, Prompt, PromptRun, TimelyRun, Timely, Delivered, Rank;
    StartInv();
    PromptRunsAreTimely(Start(), before);
    RunKeepsSound(Start(), before);
    PromptRunsAreTimely(After(ToSlave, Start(), before), acts);
    TimelyRunsDeliver(before, acts);
  }
}
