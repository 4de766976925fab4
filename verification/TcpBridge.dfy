/**
 * The UART/TCP bridge: a daemon fills the ring buffer for ever, and while a client is connected a task
 * drains it to the socket.  `Next` is one atomic step of one of the four tasks; every ring operation is
 * one step because it holds the mutex.
 *
 * Assumptions: the 500 ms of clean-up outlast the tasks of the session, and `send` takes all of its
 * bytes or fails.
 */
module TcpBridge {
  import opened Bytes
  import opened RingBuffer

  const CACHE := 8192 // UART_CACHE_SIZE
  const CHUNK := 512  // BUF_SIZE

  /** buffer_to_tcp_task: not running, at the top of its loop, or holding bytes for `send`. */
  datatype Sender = Off | AtTop | Holding(at: int, chunk: seq<byte>)

  /** tcp_server_task: in `accept`, waiting for the exit semaphore, or cleaning up. */
  datatype Server = Accepting | Serving | Cleaning

  /** The last line is history: what UART delivered, what was sent and from which positions, ... */
  datatype State = State(
    ring: seq<byte>, sender: Sender, receiver: bool, running: bool, sem: nat, server: Server,
    received: seq<byte>, sent: seq<byte>, sentAt: seq<int>, lost: nat, overwritten: nat, sessions: nat)

  datatype Action =
    | Uart(data: seq<byte>)                      // uart_rx_daemon_task got bytes
    | Accept(senderRuns: bool, receiverRuns: bool) // a task whose malloc fails only signals
    | SenderRead
    | SenderSend(ok: bool)
    | ReceiverEnds                               // tcp_to_uart_task leaves its loop
    | ServerWakes
    | CleanedUp

  function Start(): State { State([], Off, false, false, 0, Accepting, [], [], [], 0, 0, 0) }

  predicate Enabled(x: State, a: Action) {
    match a
    case Uart(data) => 0 < |data| <= CHUNK
    case Accept(_, _) => x.server.Accepting?
    case SenderRead => x.sender.AtTop?
    case SenderSend(_) => x.sender.Holding?
    case ReceiverEnds => x.receiver
    case ServerWakes => x.server.Serving? && x.sem > 0
    case CleanedUp => x.server.Cleaning? && x.sender.Off? && !x.receiver
  }

  /** The common end of the two session tasks. */
  function Exited(x: State): State { x.(running := false, sem := x.sem + 1) }

  function Next(x: State, a: Action): State {
    match a
    case Uart(data) =>
      var ring := Last(x.ring + data, CACHE);
      x.(ring := ring, received := x.received + data,
         overwritten := x.overwritten + (|x.ring| + |data| - |ring|))
    case Accept(s, r) =>
      x.(server := Serving, running := true, sender := if s then AtTop else Off, receiver := r,
         sem := (if s then 0 else 1) + (if r then 0 else 1), sessions := x.sessions + 1)
    case SenderRead =>
      if !x.running then Exited(x.(sender := Off)) else
      var n := Min(CHUNK, |x.ring|);
      if n == 0 then x
      else x.(ring := x.ring[n..], sender := Holding(|x.received| - |x.ring|, x.ring[..n]))
    case SenderSend(ok) =>
      if !x.sender.Holding? then x
      else if ok then
        x.(sender := AtTop, sent := x.sent + x.sender.chunk,
           sentAt := x.sentAt + Positions(x.sender.at, |x.sender.chunk|))
      else Exited(x.(sender := Off, lost := x.lost + |x.sender.chunk|))
    case ReceiverEnds => Exited(x.(receiver := false))
    case ServerWakes => x.(server := Cleaning, running := false, sem := if x.sem > 0 then x.sem - 1 else 0)
    case CleanedUp => x.(server := Accepting)
  }

  predicate Run(x: State, acts: seq<Action>)
    decreases |acts|
  {
    acts == [] || (Enabled(x, acts[0]) && Run(Next(x, acts[0]), acts[1..]))
  }

  function After(x: State, acts: seq<Action>): State
    requires Run(x, acts)
    decreases |acts|
  {
    if acts == [] then x else After(Next(x, acts[0]), acts[1..])
  }

  // ---------- the invariant ----------

  function Held(x: State): seq<byte> { if x.sender.Holding? then x.sender.chunk else [] }

  /** The ring is the end of the stream; a chunk in hand and the bytes sent lie before it, in order. */
  ghost predicate InOrder(x: State) {
    var ringAt := |x.received| - |x.ring|;
    var doneAt := if x.sender.Holding? then x.sender.at else ringAt;
    && 0 <= doneAt <= ringAt && x.ring == x.received[ringAt..]
    && (x.sender.Holding? ==> 0 < |x.sender.chunk| <= CHUNK && doneAt + |x.sender.chunk| <= ringAt
                              && x.sender.chunk == x.received[doneAt..doneAt + |x.sender.chunk|])
    && |x.sent| == |x.sentAt|
    && (forall i | 0 <= i < |x.sentAt| :: 0 <= x.sentAt[i] < doneAt && x.sent[i] == x.received[x.sentAt[i]])
    && (forall i, j | 0 <= i < j < |x.sentAt| :: x.sentAt[i] < x.sentAt[j])
  }

  /** Every byte that came in is accounted for. */
  ghost predicate Balanced(x: State) {
    |x.received| == |x.sent| + |Held(x)| + |x.ring| + x.lost + x.overwritten
  }

  /** Both session tasks signal exactly once, and the server has taken the first signal. */
  ghost predicate Signals(x: State) {
    var alive := (if x.sender.Off? then 0 else 1) + (if x.receiver then 1 else 0);
    match x.server
    case Accepting => alive == 0
    case Serving => x.sem + alive == 2
    case Cleaning => x.sem + alive == 1 && !x.running
  }

  /** A session loses at most the one chunk that its sender holds when it ends. */
  ghost predicate LossBound(x: State) {
    && (x.sender.Off? || x.sessions > 0)
    && x.lost <= CHUNK * (x.sessions - (if x.sender.Off? then 0 else 1))
  }

  /** While nothing is lost or overwritten there is no gap at all. */
  ghost predicate Complete(x: State) {
    x.lost == 0 && x.overwritten == 0 ==> x.received == x.sent + Held(x) + x.ring
  }

  ghost predicate Inv(x: State) {
    |x.ring| <= CACHE && InOrder(x) && Balanced(x) && Signals(x) && LossBound(x) && Complete(x)
  }

  lemma UartKeepsOrder(x: State, data: seq<byte>)
    requires InOrder(x)
    ensures InOrder(Next(x, Uart(data)))
  {
    var y := Next(x, Uart(data));
    assert x.ring + data == y.received[|x.received| - |x.ring|..];
    assert y.ring == y.received[|y.received| - |y.ring|..];
    if x.sender.Holding? {
      var at, n := x.sender.at, |x.sender.chunk|;
      assert y.received[at..at + n] == x.received[at..at + n];
    }
  }

  lemma ReadKeepsOrder(x: State)
    requires InOrder(x) && x.sender.AtTop?
    ensures InOrder(Next(x, SenderRead))
  {
    var n := Min(CHUNK, |x.ring|);
    var at := |x.received| - |x.ring|;
    assert x.ring[..n] == x.received[at..at + n];
    assert x.ring[n..] == x.received[at + n..];
  }

  lemma SendKeepsOrder(x: State, ok: bool)
    requires InOrder(x) && x.sender.Holding?
    ensures InOrder(Next(x, SenderSend(ok)))
  {
    var y := Next(x, SenderSend(ok));
    var at, n, k := x.sender.at, |x.sender.chunk|, |x.sentAt|;
    if ok {
      forall i | 0 <= i < |y.sentAt|
        ensures 0 <= y.sentAt[i] < at + n && y.sent[i] == y.received[y.sentAt[i]]
        ensures i < k ==> y.sentAt[i] < at
        ensures i >= k ==> y.sentAt[i] == at + (i - k)
      {
        if i >= k {
          assert x.sender.chunk[i - k] == x.received[at..at + n][i - k];
        }
      }
    }
  }

  lemma StepKeepsOrder(x: State, a: Action)
    requires InOrder(x) && Enabled(x, a) && Signals(x)
    ensures InOrder(Next(x, a))
  {
    match a
    case Uart(data) => UartKeepsOrder(x, data);
    case SenderRead => ReadKeepsOrder(x);
    case SenderSend(ok) => SendKeepsOrder(x, ok);
    case _ =>
  }

  /** The counters need the order only for the lengths. */
  lemma StepKeepsCounts(x: State, a: Action)
    requires Enabled(x, a) && |x.ring| <= CACHE && Balanced(x) && Signals(x) && LossBound(x)
    requires |Held(x)| <= CHUNK
    ensures var y := Next(x, a); |y.ring| <= CACHE && Balanced(y) && Signals(y) && LossBound(y)
  {
  }

  lemma StepKeepsComplete(x: State, a: Action)
    requires Enabled(x, a) && |x.ring| <= CACHE && Complete(x) && Signals(x)
    ensures Complete(Next(x, a))
  {
    var y := Next(x, a);
    if y.lost == 0 && y.overwritten == 0 {
      match a
      case Uart(data) => assert y.ring == x.ring + data;
      case SenderRead => assert Held(y) + y.ring == x.ring;
      case SenderSend(ok) => assert y.sent + Held(y) == x.sent + Held(x);
      case _ =>
    }
  }

  lemma StepKeepsInv(x: State, a: Action)
    requires Inv(x) && Enabled(x, a)
    ensures Inv(Next(x, a))
  {
    hide Next, Signals, LossBound, Complete, Enabled;
    StepKeepsOrder(x, a);
    StepKeepsCounts(x, a);
    StepKeepsComplete(x, a);
  }

  lemma {:induction false} RunKeepsInv(x: State, acts: seq<Action>)
    requires Inv(x) && Run(x, acts)
    ensures Inv(After(x, acts))
    decreases |acts|
  {
    if acts != [] {
      StepKeepsInv(x, acts[0]);
      RunKeepsInv(Next(x, acts[0]), acts[1..]);
    }
  }

  lemma StartInv()
    ensures Inv(Start()) && Start().overwritten == 0
  {
  }

  lemma Reachable(acts: seq<Action>)
    requires Run(Start(), acts)
    ensures Inv(After(Start(), acts))
  {
    RunKeepsInv(Start(), acts);
  }

  // ---------- results over all runs and sessions ----------

  /** What was handed to `send` is a subsequence of the UART stream: no byte twice, none out of order. */
  lemma SentInOrder(acts: seq<Action>)
    requires Run(Start(), acts)
    ensures var x := After(Start(), acts);
            && |x.sentAt| == |x.sent|
            && (forall i, j | 0 <= i < j < |x.sentAt| :: x.sentAt[i] < x.sentAt[j])
            && (forall i | 0 <= i < |x.sentAt| ::
                  0 <= x.sentAt[i] < |x.received| && x.sent[i] == x.received[x.sentAt[i]])
  {
    hide Balanced, Signals, LossBound, Complete, Run, After;
    Reachable(acts);
  }

  /** received == sent + in hand + in the ring + lost + overwritten, and the loss is bounded. */
  lemma Conservation(acts: seq<Action>)
    requires Run(Start(), acts)
    ensures var x := After(Start(), acts); Balanced(x) && x.lost <= CHUNK * x.sessions && |x.ring| <= CACHE
    ensures Complete(After(Start(), acts))
  {
    hide InOrder, Balanced, Signals, Complete, Run, After;
    Reachable(acts);
  }

  lemma {:induction false} SessionsOnlyGrow(x: State, acts: seq<Action>)
    requires Run(x, acts)
    ensures After(x, acts).sessions >= x.sessions
    decreases |acts|
  {
    if acts != [] {
      SessionsOnlyGrow(Next(x, acts[0]), acts[1..]);
    }
  }

  /** What the sender can still lose before its task ends. */
  function AtRisk(x: State): nat { if x.sender.Off? then 0 else CHUNK }

  lemma StepInSession(x: State, a: Action)
    requires Enabled(x, a) && |Held(x)| <= CHUNK && Next(x, a).sessions == x.sessions
    ensures x.lost <= Next(x, a).lost && Next(x, a).lost + AtRisk(Next(x, a)) <= x.lost + AtRisk(x)
  {
  }

  /** While no new session starts at most one chunk is lost, and nothing behind the end of the sender. */
  lemma {:induction false} SessionLosesAtMostAChunk(x: State, acts: seq<Action>)
    requires Inv(x) && Run(x, acts) && After(x, acts).sessions == x.sessions
    ensures x.lost <= After(x, acts).lost <= x.lost + (if x.sender.Off? then 0 else CHUNK)
    decreases |acts|
  {
    if acts != [] {
      var y := Next(x, acts[0]);
      StepKeepsInv(x, acts[0]);
      SessionsOnlyGrow(x, [acts[0]]);
      SessionsOnlyGrow(y, acts[1..]);
      assert |Held(x)| <= CHUNK;
      hide Inv, Next, Enabled, Held;
      StepInSession(x, acts[0]);
      SessionLosesAtMostAChunk(y, acts[1..]);
    }
  }

  /** The counting semaphore never passes its maximum of 2, and a new session finds no old task. */
  lemma SessionsDoNotOverlap(acts: seq<Action>)
    requires Run(Start(), acts)
    ensures var x := After(Start(), acts);
            && (!x.server.Accepting? ==> x.sem <= 2)
            && (x.server.Accepting? ==> x.sender.Off? && !x.receiver)
  {
    hide InOrder, Balanced, LossBound, Complete, Run, After;
    Reachable(acts);
  }

  /** What UART has delivered and no session has taken out of the ring, sent or not. */
  function Backlog(x: State): int { |x.received| - (|x.sent| + |Held(x)| + x.lost) }

  /** At no moment of the run is the backlog bigger than the ring. */
  predicate BacklogFits(x: State, acts: seq<Action>)
    requires Run(x, acts)
    decreases |acts|
  {
    Backlog(x) <= CACHE && (acts == [] || BacklogFits(Next(x, acts[0]), acts[1..]))
  }

  /** A step that overwrites for the first time leaves a full ring, and so a backlog that is bigger. */
  lemma OverwritingShows(x: State, a: Action)
    requires Inv(x) && Enabled(x, a)
    ensures Next(x, a).overwritten >= x.overwritten
    ensures x.overwritten == 0 ==> (Next(x, a).overwritten == 0 <==> Backlog(Next(x, a)) <= CACHE)
  {
    StepKeepsInv(x, a);
    hide InOrder, Signals, LossBound, Complete;
  }

  lemma {:induction false} OverwrittenOnlyGrows(x: State, acts: seq<Action>)
    requires Inv(x) && Run(x, acts)
    ensures After(x, acts).overwritten >= x.overwritten
    decreases |acts|
  {
    hide Inv, Next, Enabled;
    if acts != [] {
      OverwritingShows(x, acts[0]);
      StepKeepsInv(x, acts[0]);
      OverwrittenOnlyGrows(Next(x, acts[0]), acts[1..]);
    }
  }

  lemma {:induction false} NothingOverwrittenFrom(x: State, acts: seq<Action>)
    requires Inv(x) && x.overwritten == 0 && Run(x, acts)
    ensures After(x, acts).overwritten == 0 <==> BacklogFits(x, acts)
    decreases |acts|
  {
    assert Backlog(x) <= CACHE;
    hide Inv, Next, Enabled, Backlog;
    if acts != [] {
      var y := Next(x, acts[0]);
      OverwritingShows(x, acts[0]);
      StepKeepsInv(x, acts[0]);
      if y.overwritten == 0 {
        NothingOverwrittenFrom(y, acts[1..]);
      } else {
        OverwrittenOnlyGrows(y, acts[1..]);
      }
    }
  }

  /**
   * Over all runs and sessions nothing is overwritten if and only if at every moment the bytes received
   * exceed the bytes taken out by at most the size of the ring.
   */
  lemma NothingOverwrittenIffBacklogFits(acts: seq<Action>)
    requires Run(Start(), acts)
    ensures After(Start(), acts).overwritten == 0 <==> BacklogFits(Start(), acts)
  {
    hide *;
    StartInv();
    NothingOverwrittenFrom(Start(), acts);
  }

  // ---------- a running session drains the ring ----------

  /** What the sender does if its socket takes everything: each 512 bytes of the ring are two steps. */
  function DrainSteps(held: bool, ring: nat): seq<Action>
    decreases ring, held
  {
    if held then [SenderSend(true)] + DrainSteps(false, ring)
    else if ring == 0 then []
    else [SenderRead] + DrainSteps(true, ring - Min(CHUNK, ring))
  }

  /** How many steps that are: one for what is in hand, two for each chunk begun. */
  lemma {:induction false} DrainIsShort(held: bool, ring: nat)
    ensures |DrainSteps(held, ring)| == (if held then 1 else 0) + 2 * ((ring + CHUNK - 1) / CHUNK)
    decreases ring, held
  {
    if held {
      DrainIsShort(false, ring);
    } else if ring > 0 {
      DrainIsShort(true, ring - Min(CHUNK, ring));
      assert ring > CHUNK ==> (ring + CHUNK - 1) / CHUNK == (ring - CHUNK + CHUNK - 1) / CHUNK + 1;
    }
  }

  /** A byte in the ring is taken out by the sender's next look at it. */
  lemma ReadTakes(x: State)
    requires x.running && x.sender.AtTop? && x.ring != []
    ensures var y := Next(x, SenderRead);
            && y.sender.Holding? && |y.sender.chunk| == Min(CHUNK, |x.ring|) && y.sender.chunk + y.ring == x.ring
            && y == x.(ring := y.ring, sender := y.sender)
  {
  }

  lemma RunFirst(x: State, a: Action, rest: seq<Action>)
    requires Enabled(x, a) && Run(Next(x, a), rest)
    ensures Run(x, [a] + rest) && After(x, [a] + rest) == After(Next(x, a), rest)
  {
    assert ([a] + rest)[1..] == rest;
  }

  /** What is in hand and all of the ring have gone out, in order, and nothing else has changed. */
  ghost predicate Drained(x: State, y: State) {
    && y.ring == [] && y.sender.AtTop? && y.sent == x.sent + (Held(x) + x.ring)
    && y.lost == x.lost && y.received == x.received && y.running
  }

  lemma SentThenDrained(x: State, y: State)
    requires x.sender.Holding? && Drained(Next(x, SenderSend(true)), y)
    ensures Drained(x, y)
  {
    Regroup(x.sent, x.sender.chunk, x.ring);
    assert [] + x.ring == x.ring;
  }

  lemma ReadThenDrained(x: State, y: State)
    requires x.running && x.sender.AtTop? && x.ring != [] && Drained(Next(x, SenderRead), y)
    ensures Drained(x, y)
  {
    ReadTakes(x);
    assert [] + x.ring == x.ring;
  }

  /** While a session runs its sender drains the ring in that many steps. */
  lemma {:induction false} RunningSessionDrains(x: State)
    requires x.running && !x.sender.Off?
    ensures var acts := DrainSteps(x.sender.Holding?, |x.ring|); Run(x, acts) && Drained(x, After(x, acts))
    decreases |x.ring|, x.sender.Holding?
  {
    var a := if x.sender.Holding? then SenderSend(true) else SenderRead;
    var y, acts := Next(x, a), DrainSteps(x.sender.Holding?, |x.ring|);
    if x.sender.Holding? || x.ring != [] {
      var rest := DrainSteps(y.sender.Holding?, |y.ring|);
      assert acts == [a] + rest && Enabled(x, a) && y.running && !y.sender.Off?;
      assert |y.ring| < |x.ring| || (|y.ring| == |x.ring| && x.sender.Holding? && !y.sender.Holding?);
      hide Run, After, Next, Drained, DrainSteps;
      RunningSessionDrains(y);
      RunFirst(x, a, rest);
      if x.sender.Holding? {
        SentThenDrained(x, After(y, rest));
      } else {
        ReadThenDrained(x, After(y, rest));
      }
    } else {
      assert x.sent + ([] + []) == x.sent;
    }
  }

  /** So does a new session, from whatever the ring has gathered before it. */
  lemma NewSessionDrains(x: State, receiverRuns: bool)
    requires Signals(x) && x.server.Accepting?
    ensures var acts := [Accept(true, receiverRuns)] + DrainSteps(false, |x.ring|);
            && Run(x, acts)
            && var y := After(x, acts); y.ring == [] && y.sent == x.sent + x.ring && y.lost == x.lost
  {
    var a := Accept(true, receiverRuns);
    var y := Next(x, a);
    RunningSessionDrains(y);
    assert y.running && y.sender == AtTop && y.ring == x.ring && y.sent == x.sent && y.lost == x.lost && Enabled(x, a);
    hide Run, After, Next, DrainSteps;
    RunFirst(x, a, DrainSteps(false, |x.ring|));
    assert [] + x.ring == x.ring;
  }

  // ---------- the end of a session is final ----------

  /** What has been taken out of the ring. */
  function TakenOut(x: State): nat { |x.sent| + |Held(x)| + x.lost }

  predicate NoAccept(acts: seq<Action>) { forall i | 0 <= i < |acts| :: !acts[i].Accept? }

  /** Either task that leaves its loop, and the server, stop the session for both tasks. */
  predicate Ends(a: Action) { a == SenderSend(false) || a.ReceiverEnds? || a.ServerWakes? }

  lemma {:induction false} StoppedTakesNothing(x: State, acts: seq<Action>)
    requires !x.running && Run(x, acts) && NoAccept(acts)
    ensures !After(x, acts).running && TakenOut(After(x, acts)) == TakenOut(x)
    decreases |acts|
  {
    if acts != [] {
      assert !acts[0].Accept?;
      StoppedTakesNothing(Next(x, acts[0]), acts[1..]);
    }
  }

  /** Behind the end of one of its tasks a session takes nothing more out of the ring. */
  lemma EndIsFinal(x: State, a: Action, acts: seq<Action>)
    requires Enabled(x, a) && Ends(a) && Run(Next(x, a), acts) && NoAccept(acts)
    ensures TakenOut(After(Next(x, a), acts)) == TakenOut(x) && !After(Next(x, a), acts).running
  {
    StoppedTakesNothing(Next(x, a), acts);
  }

  // ---------- clean-up ----------

  /** The steps that are left to the tasks of a session which the server has ended. */
  function LastSteps(x: State): seq<Action> {
    (if x.sender.Holding? then [SenderSend(true)] else [])
    + (if x.sender.Off? then [] else [SenderRead]) + (if x.receiver then [ReceiverEnds] else [])
  }

  /** After the server has stopped a session its tasks end within three steps of their own. */
  lemma {:induction false} CleanUpIsShort(x: State)
    requires Signals(x) && x.server.Cleaning?
    ensures var acts := LastSteps(x);
            |acts| <= 3 && Run(x, acts) && Enabled(After(x, acts), CleanedUp) && After(x, acts).lost == x.lost
    decreases x.sender.Holding?, !x.sender.Off?, x.receiver
  {
    var acts := LastSteps(x);
    if acts != [] {
      var y := Next(x, acts[0]);
      CleanUpIsShort(y);
      assert acts[1..] == LastSteps(y);
    }
  }

  // ---------- the tasks in place ----------

  /** Where buffer_to_tcp_task stands; the bytes it holds are its local buffer. */
  datatype Task = Ended | Looping | Sending(buffer: seq<byte>)

  class Bridge {
    const rb: RingBuf
    var sender: Task
    var receiver: bool
    var running: bool // ctx.running
    var sem: nat      // ctx.exit_sem
    var server: Server
    var sent: seq<byte> // what the socket took, over all sessions
    ghost var received: seq<byte>
    ghost var at: int
    ghost var sentAt: seq<int>
    ghost var lost: nat
    ghost var overwritten: nat
    ghost var sessions: nat

    ghost predicate Valid()
      reads this, rb, rb.buffer
    {
      rb.Valid() && rb.buffer != null && rb.Capacity() == CACHE
    }

    ghost function Value(): State
      requires Valid()
      reads this, rb, rb.buffer
    {
      State(rb.Contents(),
            match sender case Ended => Off case Looping => AtTop case Sending(chunk) => Holding(at, chunk),
            receiver, running, sem, server, received, sent, sentAt, lost, overwritten, sessions)
    }

    /** tcp_bridge_init once rb_init has succeeded. */
    constructor (rb: RingBuf)
      requires rb.Valid() && rb.buffer != null && rb.Capacity() == CACHE && rb.Contents() == []
      ensures this.rb == rb && Valid() && Value() == Start()
    {
      this.rb := rb;
      sender, receiver, running, sem, server := Ended, false, false, 0, Accepting;
      received, at, sent, sentAt, lost, overwritten, sessions := [], 0, [], [], 0, 0, 0;
    }

    method UartRxDaemon(data: seq<byte>)
      requires Valid()
      modifies this`received, this`overwritten, rb`head, rb`tail, rb`count, rb.buffer
      ensures Valid() && Value() == Next(old(Value()), Uart(data))
    {
      ghost var before := rb.Contents();
      rb.Write(data);
      received := received + data;
      overwritten := overwritten + (|before| + |data| - |rb.Contents()|);
    }

    /** The top of the loop of buffer_to_tcp_task. */
    method BufferToTcpRead()
      requires Valid() && sender.Looping?
      modifies this`sender, this`at, this`running, this`sem, rb`tail, rb`count
      ensures Valid() && Value() == Next(old(Value()), SenderRead)
    {
      if !running {
        sender := Ended;
        Exit();
        return;
      }
      at := |received| - |rb.Contents()|;
      var buffer := new byte[CHUNK];
      var len := rb.Read(buffer, CHUNK);
      if len > 0 {
        sender := Sending(buffer[..len]);
      }
    }

    /** `send` and what follows it in that loop. */
    method BufferToTcpSend(ok: bool)
      requires Valid() && sender.Sending?
      modifies this`sender, this`running, this`sem, this`sent, this`sentAt, this`lost
      ensures Valid() && Value() == Next(old(Value()), SenderSend(ok))
    {
      if ok {
        sent := sent + sender.buffer;
        sentAt := sentAt + Positions(at, |sender.buffer|);
        sender := Looping;
      } else {
        lost := lost + |sender.buffer|;
        sender := Ended;
        Exit();
      }
    }

    /** The end of tcp_to_uart_task. */
    method TcpToUartEnd()
      requires Valid() && receiver
      modifies this`receiver, this`running, this`sem
      ensures Valid() && Value() == Next(old(Value()), ReceiverEnds)
    {
      receiver := false;
      Exit();
    }

    method Exit()
      modifies this`running, this`sem
      ensures !running && sem == old(sem) + 1
    {
      running := false;
      sem := sem + 1;
    }

    /** tcp_server_task from a successful `accept` to its wait on the semaphore. */
    method ServerAccept(senderMemory: bool, receiverMemory: bool)
      requires Valid() && server.Accepting?
      modifies this`running, this`sem, this`receiver, this`sender, this`server, this`sessions
      ensures Valid() && Value() == Next(old(Value()), Accept(senderMemory, receiverMemory))
    {
      sessions := sessions + 1;
      running := true;
      sem := 0;
      receiver := receiverMemory;
      if !receiverMemory {
        sem := sem + 1;
      }
      sender := if senderMemory then Looping else Ended;
      if !senderMemory {
        sem := sem + 1;
      }
      server := Serving;
    }

    method ServerWake()
      requires Valid() && server.Serving? && sem > 0
      modifies this`running, this`sem, this`server
      ensures Valid() && Value() == Next(old(Value()), ServerWakes)
    {
      sem := sem - 1;
      running := false;
      server := Cleaning;
    }

    method ServerCleanUp()
      requires Valid() && server.Cleaning?
      modifies this`server
      ensures Valid() && Value() == Next(old(Value()), CleanedUp)
    {
      server := Accepting;
    }
  }
}
