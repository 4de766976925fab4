/**
 * Runs of the two boards with the tasks of one configuration.  The interrupt handlers and the two
 * tasks interleave freely; each blocking read or send and each check behind it is one step.
 */
module SpiRuns {
  import opened Bytes
  import opened SpiLink

  /** ToSlave: ESP_HSPI_MASTER_SEND with ESP_SPI_SLAVE_RECV.  ToMaster: neither macro defined. */
  datatype Config = ToSlave | ToMaster

  /** `written` and `taken` record what the writer task has sent and the reader task has received. */
  datatype State = State(
    c: System, writerAtCheck: bool, readerAtCheck: bool, written: Stream, taken: Stream)

  datatype Action =
    | Isr(stack: Frame)        // gpio_isr_handler
    | Callback(reg: Frame)     // spi_event_callback
    | ReaderTake               // the reader task's xStreamBufferReceive
    | ReaderCheck              //   and its wake check
    | WriterSend(data: Stream) // the writer task's xStreamBufferSend
    | WriterCheck              //   and its critical section

  const ZERO: Frame := seq(FRAME, _ => 0)

  function Start(): State { State(Init(), false, false, [], []) }

  function SendBuf(f: Config, c: System): Stream { if f.ToSlave? then c.m.sendBuf else c.s.txBuf }

  function RecvBuf(f: Config, c: System): Stream { if f.ToSlave? then c.s.rxBuf else c.m.recvBuf }

  /** The rendezvous: the master's handler runs when the slave has handled the last transaction. */
  predicate Enabled(f: Config, x: State, a: Action) {
    match a
    case Isr(_) => x.c.m.irq && x.c.event.Quiet?
    case Callback(_) => !x.c.event.Quiet?
    case ReaderTake => !x.readerAtCheck
    case ReaderCheck => x.readerAtCheck
    case WriterSend(data) => !x.writerAtCheck && data != [] && |data| <= Space(SendBuf(f, x.c))
    case WriterCheck => x.writerAtCheck
  }

  function Next(f: Config, x: State, a: Action): State {
    match a
    case Isr(stack) => x.(c := GpioIsr(x.c, stack))
    case Callback(reg) => x.(c := SpiEvent(x.c, reg))
    case ReaderTake =>
      var n := Min(READ_CHUNK, |RecvBuf(f, x.c)|);
      x.(c := if f.ToSlave? then SlaveTake(x.c) else MasterTake(x.c),
         readerAtCheck := f.ToMaster? || n != 0, // the slave's reader skips the check after a time-out
         taken := x.taken + RecvBuf(f, x.c)[..n])
    case ReaderCheck =>
      x.(c := if f.ToSlave? then SlaveWake(x.c) else MasterWake(x.c), readerAtCheck := false)
    case WriterSend(data) =>
      x.(c := if f.ToSlave? then MasterPut(x.c, data) else SlavePut(x.c, data),
         writerAtCheck := true, written := x.written + data)
    case WriterCheck =>
      x.(c := if f.ToSlave? then MasterKick(x.c) else SlaveOffer(x.c), writerAtCheck := false)
  }

  predicate Run(f: Config, x: State, acts: seq<Action>)
    decreases |acts|
  {
    acts == [] || (Enabled(f, x, acts[0]) && Run(f, Next(f, x, acts[0]), acts[1..]))
  }

  function After(f: Config, x: State, acts: seq<Action>): State
    requires Run(f, x, acts)
    decreases |acts|
  {
    if acts == [] then x else After(f, Next(f, x, acts[0]), acts[1..])
  }

  /** Every step of the run satisfies `p`. */
  ghost predicate Always(f: Config, x: State, acts: seq<Action>, p: (State, Action) -> bool)
    requires Run(f, x, acts)
    decreases |acts|
  {
    acts == [] || (p(x, acts[0]) && Always(f, Next(f, x, acts[0]), acts[1..], p))
  }

  const WRITE := 2048 // both writer tasks always send this much at once

  predicate Demo(a: Action) { a.WriterSend? ==> |a.data| == WRITE }

  predicate Demos(acts: seq<Action>) { forall i | 0 <= i < |acts| :: Demo(acts[i]) }

  /** By a run in which the writer task writes as the demo does. */
  ghost predicate Reaches(f: Config, x: State, y: State) {
    exists acts :: Run(f, x, acts) && After(f, x, acts) == y && Demos(acts)
  }

  lemma {:induction false} RunAppend(f: Config, x: State, a: seq<Action>, b: seq<Action>)
    requires Run(f, x, a) && Run(f, After(f, x, a), b)
    ensures Run(f, x, a + b) && After(f, x, a + b) == After(f, After(f, x, a), b)
    decreases |a|
  {
    if a == [] {
      assert a + b == b;
    } else {
      assert (a + b)[1..] == a[1..] + b;
      RunAppend(f, Next(f, x, a[0]), a[1..], b);
    }
  }

  lemma RunOne(f: Config, x: State, a: Action)
    requires Enabled(f, x, a)
    ensures Run(f, x, [a]) && After(f, x, [a]) == Next(f, x, a)
  {
    var rest := [a][1..];
    assert rest == [];
    assert Run(f, Next(f, x, a), rest) && After(f, Next(f, x, a), rest) == Next(f, x, a);
  }

  lemma RunCons(f: Config, x: State, a: Action, acts: seq<Action>)
    requires Enabled(f, x, a) && Run(f, Next(f, x, a), acts)
    ensures Run(f, x, [a] + acts) && After(f, x, [a] + acts) == After(f, Next(f, x, a), acts)
  {
    RunOne(f, x, a);
    RunAppend(f, x, [a], acts);
  }

  lemma ReachRun(f: Config, x: State, y: State, acts: seq<Action>)
    requires Reaches(f, x, y) && Run(f, y, acts) && Demos(acts)
    ensures Reaches(f, x, After(f, y, acts))
  {
    var before :| Run(f, x, before) && After(f, x, before) == y && Demos(before);
    RunAppend(f, x, before, acts);
    assert Demos(before + acts);
  }

  lemma ReachStep(f: Config, x: State, y: State, a: Action)
    requires Reaches(f, x, y) && Enabled(f, y, a) && Demo(a)
    ensures Reaches(f, x, Next(f, y, a))
  {
    RunOne(f, y, a);
    ReachRun(f, x, y, [a]);
  }

  // ---------- vocabulary of the progress results ----------

  predicate Delivered(x: State) { x.taken == x.written }

  /** Steps of anyone but the writer that are more than an empty poll. */
  predicate Productive(f: Config, x: State, a: Action) {
    !a.WriterSend? && !a.WriterCheck? && (a.ReaderTake? ==> RecvBuf(f, x.c) != [])
  }

  /** While only productive steps are taken the writer writes nothing. */
  lemma {:induction false} WriterStaysIdle(f: Config, x: State, acts: seq<Action>)
    requires Run(f, x, acts) && Always(f, x, acts, (x, a) => Productive(f, x, a)) && !x.writerAtCheck
    ensures !After(f, x, acts).writerAtCheck && After(f, x, acts).written == x.written
    decreases |acts|
  {
    if acts != [] {
      WriterStaysIdle(f, Next(f, x, acts[0]), acts[1..]);
    }
  }
}
