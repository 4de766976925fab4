/**
 * The ESP-NOW pairing protocol: Nodes broadcast their magic number and whether they have heard anyone;
 * a node that hears such a broadcast from a peer with a magic no bigger than its own starts to unicast.
 *
 * A node handles one event of its queue at a time.  Every packet ever sent may reach any other node it
 * is addressed to, never, late, out of order or many times; bytes that no node sent fail the CRC.
 */
module EspNow {
  import opened Bytes
  import opened EspNowFrame

  /** A MAC address: the broadcast address or that of a node. */
  datatype Address = All | To(node: nat)

  datatype Frame = Frame(kind: Kind, state: byte, seqNum: u16, magic: u32, payload: seq<byte>)

  datatype Packet = Packet(to: Address, frame: Frame)

  function Data(crc: Crc, f: Frame): seq<byte> {
    Prepared(crc, f.kind, f.state, f.seqNum, f.magic, f.payload)
  }

  /** Before its first send, in its event loop, after "Send done", or deinitialized after an error. */
  datatype Phase = Starting | Running | Done | Failed

  /** `peers` is the peer list, `owed` the send callbacks still to come, `sent` history. */
  datatype Node = Node(
    phase: Phase, unicast: bool, broadcast: bool, state: byte, magic: u32, count: u16, dest: Address,
    seqs: Counters, buffer: Frame, peers: set<nat>, owed: multiset<Address>, sent: seq<Packet>)

  function KindOf(d: Address): Kind { if d.All? then Broadcast else Unicast }

  /** example_espnow_data_prepare */
  function Prepare(n: Node, payload: seq<byte>): Node {
    var k := KindOf(n.dest);
    n.(buffer := Frame(k, n.state, n.seqs[Code(k)], n.magic, payload), seqs := Counted(n.seqs, k))
  }

  /** esp_now_send; after a failure the node is deinitialized. */
  function Transmit(n: Node, ok: bool): Node {
    if ok then n.(sent := n.sent + [Packet(n.dest, n.buffer)], owed := n.owed + multiset{n.dest})
    else n.(phase := Failed)
  }

  /** example_espnow_init */
  function Initial(magic: u32, count: u16, payload: seq<byte>): Node {
    Prepare(Node(Starting, false, true, 0, magic, count, All, [0, 0],
                 Frame(Broadcast, 0, 0, 0, []), {}, multiset{}, []), payload)
  }

  /** The first send of example_espnow_task. */
  function Begin(n: Node, ok: bool): Node { Transmit(n.(phase := Running), ok) }

  /** `count--` on a `uint16_t`. */
  function Decremented(c: u16): u16 { if c == 0 then TWO_16 - 1 else c - 1 }

  /** Case EXAMPLE_ESPNOW_SEND_CB. */
  function OnSent(n: Node, to: Address, payload: seq<byte>, ok: bool): Node {
    var n := n.(owed := n.owed - multiset{to});
    if to.All? && !n.broadcast then n else
    var n := if to.All? then n else n.(count := Decremented(n.count));
    if to.To? && n.count == 0 then n.(phase := Done)
    else Transmit(Prepare(n.(dest := to), payload), ok)
  }

  /** Case EXAMPLE_ESPNOW_RECV_CB; `memory` is whether a new peer can be allocated and added. */
  function OnReceived(n: Node, from: nat, p: Parsed, memory: bool, payload: seq<byte>, ok: bool): Node {
    if p.TooShort? then n
    else if p.ret == Code(Broadcast) then
      if from !in n.peers && !memory then n.(phase := Failed) else
      var n := n.(peers := n.peers + {from}, state := if n.state == 0 then 1 else n.state);
      if p.state == 1 && !n.unicast && n.magic >= AsUnsigned(p.magic) then
        var n := Transmit(Prepare(n.(dest := To(from)), payload), ok);
        if ok then n.(broadcast := false, unicast := true) else n
      else n
    else if p.ret == Code(Unicast) then n.(broadcast := false)
    else n
  }

  // ---------- the network ----------

  datatype Action =
    | Starts(i: nat, ok: bool)
    | Sent(i: nat, to: Address, payload: seq<byte>, ok: bool)                           // a send callback
    | Received(i: nat, from: nat, k: nat, memory: bool, payload: seq<byte>, ok: bool) // the k-th packet of `from`
    | Noise(i: nat, from: nat, data: seq<byte>, memory: bool, payload: seq<byte>, ok: bool)

  predicate Enabled(crc: Crc, s: seq<Node>, a: Action) {
    && a.i < |s|
    && s[a.i].phase == (if a.Starts? then Starting else Running)
    && match a
       case Starts(_, _) => true
       case Sent(i, to, _, _) => to in s[i].owed
       case Received(i, from, k, _, _, _) =>
         from < |s| && from != i && k < |s[from].sent| && (s[from].sent[k].to == All || s[from].sent[k].to == To(i))
       case Noise(_, _, data, _, _, _) => var p := Parse(crc, data); p.TooShort? || (p.ret != 0 && p.ret != 1)
  }

  function Next(crc: Crc, s: seq<Node>, a: Action): seq<Node>
    requires Enabled(crc, s, a)
  {
    var n := s[a.i];
    s[a.i := match a
             case Starts(_, ok) => Begin(n, ok)
             case Sent(_, to, payload, ok) => OnSent(n, to, payload, ok)
             case Received(_, from, k, memory, payload, ok) =>
               OnReceived(n, from, Parse(crc, Data(crc, s[from].sent[k].frame)), memory, payload, ok)
             case Noise(_, from, data, memory, payload, ok) =>
               OnReceived(n, from, Parse(crc, data), memory, payload, ok)]
  }

  predicate Run(crc: Crc, s: seq<Node>, acts: seq<Action>)
    decreases |acts|
  {
    acts == [] || (Enabled(crc, s, acts[0]) && Run(crc, Next(crc, s, acts[0]), acts[1..]))
  }

  function After(crc: Crc, s: seq<Node>, acts: seq<Action>): seq<Node>
    requires Run(crc, s, acts)
    decreases |acts|
  {
    if acts == [] then s else After(crc, Next(crc, s, acts[0]), acts[1..])
  }

  ghost predicate Reaches(crc: Crc, s: seq<Node>, t: seq<Node>) {
    exists acts :: Run(crc, s, acts) && After(crc, s, acts) == t
  }

  lemma {:induction false} RunSnoc(crc: Crc, s: seq<Node>, acts: seq<Action>, a: Action)
    requires Run(crc, s, acts) && Enabled(crc, After(crc, s, acts), a)
    ensures Run(crc, s, acts + [a]) && After(crc, s, acts + [a]) == Next(crc, After(crc, s, acts), a)
    decreases |acts|
  {
    hide Enabled, OnSent, OnReceived, Begin, Parse, Data;
    if acts == [] {
      assert acts + [a] == [a] && [a][1..] == [];
    } else {
      assert (acts + [a])[1..] == acts[1..] + [a];
      RunSnoc(crc, Next(crc, s, acts[0]), acts[1..], a);
    }
  }

  lemma ReachesItself(crc: Crc, s: seq<Node>)
    ensures Reaches(crc, s, s)
  {
    assert Run(crc, s, []) && After(crc, s, []) == s;
  }

  lemma ReachesStep(crc: Crc, s: seq<Node>, t: seq<Node>, a: Action)
    requires Reaches(crc, s, t) && Enabled(crc, t, a)
    ensures Reaches(crc, s, Next(crc, t, a))
  {
    hide Enabled, Next, Run, After;
    var acts :| Run(crc, s, acts) && After(crc, s, acts) == t;
    RunSnoc(crc, s, acts, a);
  }

  /** Every node starts with its own random magic and first payload, and the same configured count. */
  function Fresh(magics: seq<u32>, count: u16, payloads: seq<seq<byte>>): (s: seq<Node>)
    requires |payloads| == |magics|
    ensures |s| == |magics|
  {
    seq(|magics|, i requires 0 <= i < |magics| => Initial(magics[i], count, payloads[i]))
  }

  // ---------- what each node keeps ----------

  /** How many of the first `k` packets are of this kind. */
  function OfKind(sent: seq<Packet>, kind: Kind, k: nat): nat
    requires k <= |sent|
  {
    if k == 0 then 0 else OfKind(sent, kind, k - 1) + (if sent[k - 1].frame.kind == kind then 1 else 0)
  }

  lemma {:induction false} OfKindOfPrefix(sent: seq<Packet>, p: Packet, kind: Kind, k: nat)
    requires k <= |sent|
    ensures OfKind(sent + [p], kind, k) == OfKind(sent, kind, k)
  {
    if k > 0 {
      OfKindOfPrefix(sent, p, kind, k - 1);
    }
  }

  function Unicasts(n: Node): nat { OfKind(n.sent, Unicast, |n.sent|) }

  /** Roles, counters and outstanding callbacks of one node. */
  ghost predicate Roles(n: Node, count: u16) {
    && n.state == (if n.peers == {} then 0 else 1)
    && n.owed[All] <= 1
    && (n.unicast ==> !n.broadcast && n.dest.To?)
    && (n.phase.Starting? ==> n.sent == [] && n.owed == multiset{} && n.peers == {} && !n.unicast && n.broadcast)
    && (n.phase.Starting? || (n.phase.Running? && !n.unicast) ==>
          n.dest.All? && n.count == count && Unicasts(n) == 0 && forall j :: To(j) !in n.owed)
    && (n.phase.Running? && n.unicast ==>
          && 1 <= n.count <= count && Unicasts(n) == count - n.count + 1
          && forall j :: n.owed[To(j)] == if n.dest == To(j) then 1 else 0)
    && (n.phase.Running? && n.broadcast ==> n.owed[All] == 1)
    && (n.phase.Done? ==> n.unicast && n.count == 0 && Unicasts(n) == count)
    && Unicasts(n) <= count
  }

  ghost predicate PacketOk(n: Node, k: nat)
    requires k < |n.sent|
  {
    var p := n.sent[k];
    && p.frame.magic == n.magic && p.frame.kind == KindOf(p.to)
    && (p.frame.state == 1 ==> n.peers != {})
    && (p.to.To? ==> n.unicast && n.dest == p.to)
  }

  ghost predicate Packets(n: Node) {
    && (forall k | 0 <= k < |n.sent| :: PacketOk(n, k))
    && (n.phase.Running? ==> n.sent != [] && n.sent[0].to.All? && n.sent[0].frame.state == 0)
    && (n.phase.Starting? ==> n.buffer.magic == n.magic && n.buffer.kind == Broadcast && n.buffer.state == 0)
  }

  /** The k-th frame of a kind carries sequence number k. */
  ghost predicate NumberedAt(sent: seq<Packet>, k: nat)
    requires k < |sent|
  {
    sent[k].frame.seqNum == OfKind(sent, sent[k].frame.kind, k) % TWO_16
  }

  ghost predicate Numbered(n: Node) {
    && (forall k | 0 <= k < |n.sent| :: NumberedAt(n.sent, k))
    && (n.phase.Starting? ==> n.sent == [] && n.buffer.kind == Broadcast && n.buffer.seqNum == 0
                              && n.seqs == [1, 0])
    && (n.phase.Running? ==> n.seqs[0] == OfKind(n.sent, Broadcast, |n.sent|) % TWO_16
                             && n.seqs[1] == OfKind(n.sent, Unicast, |n.sent|) % TWO_16)
  }

  ghost predicate Local(n: Node, count: u16) { Roles(n, count) && Packets(n) && Numbered(n) }

  /** Some node unicasts to node j. */
  ghost predicate Addressed(s: seq<Node>, j: nat) {
    exists i | 0 <= i < |s| :: s[i].unicast && s[i].dest == To(j)
  }

  /** What node i knows of the others, and why it would have stopped broadcasting. */
  ghost predicate Knows(s: seq<Node>, i: nat)
    requires i < |s|
  {
    && (forall j | j in s[i].peers :: j < |s| && j != i)
    && (s[i].broadcast || s[i].unicast || Addressed(s, i))
    && (s[i].unicast ==> s[i].dest.To? && Link(s, i, s[i].dest.node))
  }

  ghost predicate Link(s: seq<Node>, i: nat, j: nat)
    requires i < |s|
  {
    j < |s| && j != i && s[i].magic >= s[j].magic && j in s[i].peers && s[j].peers != {}
  }

  ghost predicate Inv(s: seq<Node>, count: u16) {
    forall i | 0 <= i < |s| :: Local(s[i], count) && Knows(s, i)
  }

  lemma OfKindOfAppend(sent: seq<Packet>, p: Packet, kind: Kind)
    ensures OfKind(sent + [p], kind, |sent| + 1)
         == OfKind(sent, kind, |sent|) + (if p.frame.kind == kind then 1 else 0)
  {
    OfKindOfPrefix(sent, p, kind, |sent|);
  }

  lemma AppendKeepsNumbers(n: Node, m: Node, p: Packet)
    requires m.sent == n.sent + [p] && m.phase.Running?
    requires forall k | 0 <= k < |n.sent| :: NumberedAt(n.sent, k)
    requires p.frame.seqNum == OfKind(n.sent, p.frame.kind, |n.sent|) % TWO_16
    requires var b, u := OfKind(n.sent, Broadcast, |n.sent|), OfKind(n.sent, Unicast, |n.sent|);
             if p.frame.kind.Broadcast? then m.seqs == [(b + 1) % TWO_16, u % TWO_16]
             else m.seqs == [b % TWO_16, (u + 1) % TWO_16]
    ensures Numbered(m)
  {
    forall k | 0 <= k < |m.sent|
      ensures NumberedAt(m.sent, k)
    {
      if k < |n.sent| {
        assert NumberedAt(n.sent, k);
      }
      OfKindOfPrefix(n.sent, p, m.sent[k].frame.kind, k);
    }
    OfKindOfAppend(n.sent, p, Broadcast);
    OfKindOfAppend(n.sent, p, Unicast);
  }

  lemma CountedNext(s: Counters, k: Kind, b: nat, u: nat)
    requires s == [b % TWO_16, u % TWO_16]
    ensures Counted(s, k) == if k.Broadcast? then [(b + 1) % TWO_16, u % TWO_16] else [b % TWO_16, (u + 1) % TWO_16]
  {
  }

  lemma TransmitKeepsNumbers(n: Node, payload: seq<byte>, ok: bool)
    requires n.phase.Running? && Numbered(n)
    ensures var m := Transmit(Prepare(n, payload), ok); Numbered(m) && !m.phase.Starting?
  {
    if ok {
      var b, u := OfKind(n.sent, Broadcast, |n.sent|), OfKind(n.sent, Unicast, |n.sent|);
      hide OfKind;
      CountedNext(n.seqs, KindOf(n.dest), b, u);
      hide Counted;
      AppendKeepsNumbers(n, Transmit(Prepare(n, payload), ok), Packet(n.dest, Prepare(n, payload).buffer));
    }
  }

  lemma BeginKeepsNumbers(n: Node, ok: bool)
    requires n.phase.Starting? && Numbered(n)
    ensures Numbered(Begin(n, ok))
  {
    if ok {
      AppendKeepsNumbers(n, Begin(n, ok), Packet(n.dest, n.buffer));
    }
  }

  /** Nothing sent, or the end: the numbering does not change. */
  lemma QuietKeepsNumbers(n: Node, m: Node)
    requires n.phase.Running? && Numbered(n) && !m.phase.Starting?
    requires m.sent == n.sent && (m.phase.Running? ==> m.seqs == n.seqs)
    ensures Numbered(m)
  {
  }

  lemma OnSentKeepsNumbers(n: Node, to: Address, payload: seq<byte>, ok: bool)
    requires n.phase.Running? && Numbered(n)
    ensures Numbered(OnSent(n, to, payload, ok))
  {
    hide Prepare, Transmit, Numbered;
    var m := n.(owed := n.owed - multiset{to});
    if to.All? && !m.broadcast {
      QuietKeepsNumbers(n, m);
    } else {
      var c := if to.All? then m else m.(count := Decremented(m.count));
      QuietKeepsNumbers(n, c.(dest := to));
      if to.To? && c.count == 0 {
        QuietKeepsNumbers(n, c.(phase := Done));
      } else {
        TransmitKeepsNumbers(c.(dest := to), payload, ok);
      }
    }
  }

  lemma OnReceivedKeepsNumbers(n: Node, from: nat, p: Parsed, memory: bool, payload: seq<byte>, ok: bool)
    requires n.phase.Running? && Numbered(n)
    ensures Numbered(OnReceived(n, from, p, memory, payload, ok))
  {
    hide Prepare, Transmit, Numbered;
    QuietKeepsNumbers(n, n.(phase := Failed));
    QuietKeepsNumbers(n, n.(broadcast := false));
    var m := n.(peers := n.peers + {from}, state := if n.state == 0 then 1 else n.state);
    QuietKeepsNumbers(n, m);
    QuietKeepsNumbers(n, m.(dest := To(from)));
    TransmitKeepsNumbers(m.(dest := To(from)), payload, ok);
    RolesDoNotCount(Transmit(Prepare(m.(dest := To(from)), payload), ok));
  }

  lemma RolesDoNotCount(n: Node)
    requires Numbered(n) && !n.phase.Starting?
    ensures Numbered(n.(broadcast := false, unicast := true))
  {
  }

  lemma PrepareThenTransmit(n: Node, payload: seq<byte>, ok: bool)
    ensures Unicasts(Transmit(Prepare(n, payload), ok)) == Unicasts(n) + (if ok && n.dest.To? then 1 else 0)
  {
    if ok {
      OfKindOfAppend(n.sent, Packet(n.dest, Prepare(n, payload).buffer), Unicast);
    }
  }

  lemma TransmitKeepsPackets(n: Node, payload: seq<byte>, ok: bool)
    requires n.phase.Running? && Packets(n) && n.state == (if n.peers == {} then 0 else 1)
    requires ok && n.dest.To? ==> n.unicast
    ensures var m := Transmit(Prepare(n, payload), ok); Packets(m) && !m.phase.Starting?
  {
    var m := Transmit(Prepare(n, payload), ok);
    forall k | 0 <= k < |m.sent|
      ensures PacketOk(m, k)
    {
      if k < |n.sent| {
        assert PacketOk(n, k);
      }
    }
  }

  /** Packets stay in order while roles and peers only grow. */
  lemma QuietKeepsPackets(n: Node, m: Node)
    requires n.phase.Running? && Packets(n)
    requires !m.phase.Starting? && m.sent == n.sent && m.magic == n.magic && n.peers <= m.peers
    requires n.unicast ==> m.unicast && m.dest == n.dest
    ensures Packets(m)
  {
    forall k | 0 <= k < |m.sent|
      ensures PacketOk(m, k)
    {
      assert PacketOk(n, k);
    }
  }

  lemma OnSentKeepsPackets(n: Node, to: Address, payload: seq<byte>, ok: bool, count: u16)
    requires n.phase.Running? && Packets(n) && Roles(n, count) && to in n.owed
    ensures Packets(OnSent(n, to, payload, ok))
  {
    assert to.To? ==> n.unicast && n.dest == to;
    hide Prepare, Transmit, Packets;
    var m := n.(owed := n.owed - multiset{to});
    if to.All? && !m.broadcast {
      QuietKeepsPackets(n, m);
    } else {
      var c := if to.All? then m else m.(count := Decremented(m.count));
      QuietKeepsPackets(n, c.(phase := Done));
      QuietKeepsPackets(n, c.(dest := to));
      TransmitKeepsPackets(c.(dest := to), payload, ok);
    }
  }

  lemma OnReceivedKeepsPackets(n: Node, from: nat, p: Parsed, memory: bool, payload: seq<byte>, ok: bool, count: u16)
    requires n.phase.Running? && Packets(n) && Roles(n, count)
    ensures Packets(OnReceived(n, from, p, memory, payload, ok))
  {
    hide Prepare, Packets, Unicasts;
    QuietKeepsPackets(n, n.(phase := Failed));
    QuietKeepsPackets(n, n.(broadcast := false));
    var m := n.(peers := n.peers + {from}, state := if n.state == 0 then 1 else n.state);
    QuietKeepsPackets(n, m);
    if !n.unicast {
      var x := m.(dest := To(from));
      var y := x.(broadcast := false, unicast := true);
      QuietKeepsPackets(n, x);
      QuietKeepsPackets(n, y);
      TransmitKeepsPackets(if ok then y else x, payload, ok);
      RolesDoNotMatter(x, payload);
    }
  }

  /** The flags change after the send, but the frame does not depend on them. */
  lemma RolesDoNotMatter(n: Node, payload: seq<byte>)
    ensures Transmit(Prepare(n.(broadcast := false, unicast := true), payload), true)
         == Transmit(Prepare(n, payload), true).(broadcast := false, unicast := true)
  {
  }

  lemma BeginKeepsLocal(n: Node, ok: bool, count: u16)
    requires n.phase.Starting? && Local(n, count)
    ensures Local(Begin(n, ok), count)
  {
    BeginKeepsNumbers(n, ok);
    if ok {
      OfKindOfAppend(n.sent, Packet(n.dest, n.buffer), Unicast);
    }
    hide OfKind;
  }

  lemma OnSentKeepsRoles(n: Node, to: Address, payload: seq<byte>, ok: bool, count: u16)
    requires n.phase.Running? && Roles(n, count) && to in n.owed
    ensures Roles(OnSent(n, to, payload, ok), count)
  {
    var m := n.(owed := n.owed - multiset{to});
    var c := if to.All? then m else m.(count := Decremented(m.count));
    PrepareThenTransmit(c.(dest := to), payload, ok);
    hide OfKind, Counted;
  }

  lemma StartOfUnicastKeepsRoles(n: Node, from: nat, payload: seq<byte>, ok: bool, count: u16)
    requires n.phase.Running? && Roles(n, count) && count >= 1 && !n.unicast
    ensures var t := Transmit(Prepare(n.(dest := To(from)), payload), ok);
            Roles(if ok then t.(broadcast := false, unicast := true) else t, count)
  {
    PrepareThenTransmit(n.(dest := To(from)), payload, ok);
    hide OfKind, Counted;
  }

  lemma OnReceivedKeepsRoles(n: Node, from: nat, p: Parsed, memory: bool, payload: seq<byte>, ok: bool, count: u16)
    requires n.phase.Running? && Roles(n, count) && count >= 1
    ensures Roles(OnReceived(n, from, p, memory, payload, ok), count)
  {
    var m := n.(peers := n.peers + {from}, state := if n.state == 0 then 1 else n.state);
    hide Unicasts, Prepare, Transmit;
    assert Roles(m, count) && Roles(n.(phase := Failed), count) && Roles(n.(broadcast := false), count);
    if !m.unicast {
      StartOfUnicastKeepsRoles(m, from, payload, ok, count);
    }
    hide Roles;
  }

  // ---------- what every step keeps ----------

  /** What a handler never takes back: the magic, the peers, and the one link. */
  ghost predicate Grows(n: Node, m: Node) {
    m.magic == n.magic && n.peers <= m.peers && (n.unicast ==> m.unicast && m.dest == n.dest)
  }

  lemma OnSentGrows(n: Node, to: Address, payload: seq<byte>, ok: bool, count: u16)
    requires n.phase.Running? && Roles(n, count) && to in n.owed
    ensures var m := OnSent(n, to, payload, ok);
            Grows(n, m) && m.peers == n.peers && m.unicast == n.unicast && m.broadcast == n.broadcast
  {
    hide Unicasts, Counted;
  }

  lemma OnReceivedGrows(n: Node, from: nat, p: Parsed, memory: bool, payload: seq<byte>, ok: bool)
    ensures var m := OnReceived(n, from, p, memory, payload, ok);
            && Grows(n, m) && m.peers <= n.peers + {from}
            && (m.peers != n.peers ==> p.Parsed? && p.ret == 0)
            && (m.broadcast == n.broadcast || m.unicast || (p.Parsed? && p.ret == 1))
            && (m.unicast && !n.unicast ==>
                  && p.Parsed? && p.ret == 0 && p.state == 1 && n.magic >= AsUnsigned(p.magic)
                  && m.dest == To(from) && from in m.peers)
  {
    hide Counted;
  }

  lemma NodeKeepsLocal(crc: Crc, s: seq<Node>, a: Action, count: u16)
    requires Enabled(crc, s, a) && Local(s[a.i], count) && count >= 1
    ensures Local(Next(crc, s, a)[a.i], count)
  {
    hide Roles, Packets, Numbered, OnSent, OnReceived, Begin, Parse, Data;
    var n := s[a.i];
    match a
    case Starts(_, ok) => BeginKeepsLocal(n, ok, count);
    case Sent(_, to, payload, ok) =>
      OnSentKeepsNumbers(n, to, payload, ok);
      OnSentKeepsPackets(n, to, payload, ok, count);
      OnSentKeepsRoles(n, to, payload, ok, count);
    case Received(_, from, k, memory, payload, ok) =>
      var p := Parse(crc, Data(crc, s[from].sent[k].frame));
      OnReceivedKeepsNumbers(n, from, p, memory, payload, ok);
      OnReceivedKeepsPackets(n, from, p, memory, payload, ok, count);
      OnReceivedKeepsRoles(n, from, p, memory, payload, ok, count);
    case Noise(_, from, data, memory, payload, ok) =>
      var p := Parse(crc, data);
      OnReceivedKeepsNumbers(n, from, p, memory, payload, ok);
      OnReceivedKeepsPackets(n, from, p, memory, payload, ok, count);
      OnReceivedKeepsRoles(n, from, p, memory, payload, ok, count);
  }

  /** Node i becomes m: it grows, and a new link goes to a node that has heard someone, magic no bigger. */
  ghost predicate Learns(s: seq<Node>, i: nat, m: Node)
    requires i < |s|
  {
    && Grows(s[i], m) && (forall j | j in m.peers :: j < |s| && j != i)
    && (m.broadcast || m.unicast || Addressed(s, i))
    && (m.unicast && !s[i].unicast ==>
          && m.dest.To? && m.dest.node < |s| && m.dest.node != i && m.dest.node in m.peers
          && m.magic >= s[m.dest.node].magic && s[m.dest.node].peers != {})
  }

  lemma HearingLearns(
      crc: Crc, s: seq<Node>, i: nat, from: nat, k: nat, memory: bool, payload: seq<byte>, ok: bool, count: u16)
    requires Inv(s, count) && i < |s| && from < |s| && i != from && k < |s[from].sent|
    requires s[from].sent[k].to.All? || s[from].sent[k].to == To(i)
    ensures var p := Parse(crc, Data(crc, s[from].sent[k].frame));
            Learns(s, i, OnReceived(s[i], from, p, memory, payload, ok))
  {
    var f := s[from].sent[k].frame;
    RoundTrip(crc, f.kind, f.state, f.seqNum, f.magic, f.payload);
    UnsignedAgain(f.magic);
    assert Knows(s, i) && Local(s[from], count) && PacketOk(s[from], k);
    hide Roles, Numbered, Prepared, Parse;
    OnReceivedGrows(s[i], from, Parse(crc, Data(crc, f)), memory, payload, ok);
    hide OnReceived;
  }

  lemma NodeLearns(crc: Crc, s: seq<Node>, a: Action, count: u16)
    requires Enabled(crc, s, a) && Inv(s, count)
    ensures Learns(s, a.i, Next(crc, s, a)[a.i])
  {
    var n := s[a.i];
    assert Local(n, count) && Knows(s, a.i);
    match a
    case Starts(_, ok) =>
      hide Roles, Packets, Numbered, OnSent, OnReceived, Parse, Data;
    case Sent(_, to, payload, ok) =>
      OnSentGrows(n, to, payload, ok, count);
      hide Roles, Packets, Numbered, OnSent, OnReceived, Begin, Parse, Data;
    case Received(_, from, k, memory, payload, ok) =>
      HearingLearns(crc, s, a.i, from, k, memory, payload, ok, count);
      hide Learns, Local, OnSent, OnReceived, Begin, Parse, Data;
    case Noise(_, from, data, memory, payload, ok) =>
      assert OnReceived(n, from, Parse(crc, data), memory, payload, ok) == n;
      hide Roles, Packets, Numbered, OnSent, OnReceived, Begin, Parse, Data;
  }

  lemma AddressedLasts(s: seq<Node>, k: nat, m: Node, j: nat)
    requires k < |s| && Addressed(s, j) && Grows(s[k], m)
    ensures Addressed(s[k := m], j)
  {
    var i :| 0 <= i < |s| && s[i].unicast && s[i].dest == To(j);
    assert s[k := m][i].unicast && s[k := m][i].dest == To(j);
  }

  /** What i knows stays true when node k grows. */
  lemma KnowledgeLasts(s: seq<Node>, k: nat, m: Node, i: nat)
    requires k < |s| && i < |s| && i != k && Knows(s, i) && Grows(s[k], m)
    ensures Knows(s[k := m], i)
  {
    if Addressed(s, i) {
      AddressedLasts(s, k, m, i);
    }
    hide Addressed;
  }

  /** The invariant is a matter of the acting node. */
  lemma OthersStay(s: seq<Node>, k: nat, m: Node, count: u16)
    requires Inv(s, count) && k < |s| && Grows(s[k], m) && Local(m, count) && Knows(s[k := m], k)
    ensures Inv(s[k := m], count)
  {
    hide Local, Knows, Grows;
    var t := s[k := m];
    forall i | 0 <= i < |t|
      ensures Local(t[i], count) && Knows(t, i)
    {
      assert Local(s[i], count) && Knows(s, i);
      if i != k {
        KnowledgeLasts(s, k, m, i);
      }
    }
  }

  lemma StepKeepsInv(crc: Crc, s: seq<Node>, a: Action, count: u16)
    requires Enabled(crc, s, a) && Inv(s, count) && count >= 1
    ensures Inv(Next(crc, s, a), count)
  {
    var m := Next(crc, s, a)[a.i];
    assert Local(s[a.i], count) && Knows(s, a.i);
    NodeKeepsLocal(crc, s, a, count);
    NodeLearns(crc, s, a, count);
    assert Next(crc, s, a) == s[a.i := m];
    if Addressed(s, a.i) {
      AddressedLasts(s, a.i, m, a.i);
    }
    hide Inv, Local, Next, Enabled, Addressed;
    assert Knows(s[a.i := m], a.i);
    OthersStay(s, a.i, m, count);
  }

  lemma {:induction false} RunKeepsInv(crc: Crc, s: seq<Node>, acts: seq<Action>, count: u16)
    requires Run(crc, s, acts) && Inv(s, count) && count >= 1
    ensures Inv(After(crc, s, acts), count)
    ensures var t := After(crc, s, acts); |t| == |s| && forall i | 0 <= i < |s| :: t[i].magic == s[i].magic
    decreases |acts|
  {
    hide Inv, OnSent, OnReceived, Begin, Parse, Data;
    if acts != [] {
      var t := Next(crc, s, acts[0]);
      StepKeepsInv(crc, s, acts[0], count);
      NodeLearns(crc, s, acts[0], count);
      RunKeepsInv(crc, t, acts[1..], count);
    }
  }

  lemma ReachesKeepsInv(crc: Crc, s: seq<Node>, t: seq<Node>, count: u16)
    requires Reaches(crc, s, t) && Inv(s, count) && count >= 1
    ensures Inv(t, count) && |t| == |s| && forall i | 0 <= i < |s| :: t[i].magic == s[i].magic
  {
    var acts :| Run(crc, s, acts) && After(crc, s, acts) == t;
    RunKeepsInv(crc, s, acts, count);
  }

  lemma FreshInv(magics: seq<u32>, count: u16, payloads: seq<seq<byte>>)
    requires |payloads| == |magics|
    ensures Inv(Fresh(magics, count, payloads), count)
  {
  }
}
