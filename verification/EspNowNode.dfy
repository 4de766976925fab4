/**
 * One ESP-NOW node in place: the send parameters, the frame buffer and the handlers of its event loop,
 * each tied to the protocol's step on values.  What the radio is given are the bytes of the buffer.
 */
module EspNowNode {
  import opened Bytes
  import opened EspNowFrame
  import opened EspNow

  /** What esp_now_send is called with. */
  datatype Datagram = Datagram(to: Address, data: seq<byte>)

  function OnAir(crc: Crc, p: Packet): Datagram { Datagram(p.to, Data(crc, p.frame)) }

  class SendParam {
    const tx: Transmitter
    const buffer: array<byte>
    const magic: u32
    var phase: Phase
    var unicast: bool
    var broadcast: bool
    var state: byte
    var count: u16
    var dest: Address
    var peers: set<nat>
    var radio: seq<Datagram>
    ghost var frame: Frame
    ghost var sent: seq<Packet>
    ghost var owed: multiset<Address>

    ghost predicate Valid()
      reads this, tx, buffer
    {
      && buffer.Length >= HEADER
      && buffer[..] == Data(tx.crc, frame)
      && |radio| == |sent| && forall k | 0 <= k < |sent| :: radio[k] == OnAir(tx.crc, sent[k])
    }

    ghost function Value(): Node
      reads this, tx
    {
      Node(phase, unicast, broadcast, state, magic, count, dest, tx.seqs, frame, peers, owed, sent)
    }

    /** example_espnow_init, for a configured frame length of at least the header. */
    constructor (tx: Transmitter, magic: u32, count: u16, len: nat, random: seq<byte>)
      requires tx.seqs == [0, 0] && len == HEADER + |random|
      modifies tx
      ensures Valid() && fresh(buffer) && this.tx == tx && Value() == Initial(magic, count, random)
    {
      this.tx, this.magic := tx, magic;
      phase, unicast, broadcast, state, this.count, dest := Starting, false, true, 0, count, All;
      peers, radio, sent, owed := {}, [], [], multiset{};
      frame := Frame(Broadcast, 0, 0, 0, []);
      buffer := new byte[len];
      new;
      tx.Prepare(buffer, Broadcast, state, magic, random);
      frame := Frame(Broadcast, state, 0, magic, random);
    }

    method PrepareData(random: seq<byte>)
      requires Valid() && |random| == buffer.Length - HEADER
      modifies `frame, tx, buffer
      ensures Valid() && Value() == Prepare(old(Value()), random)
    {
      var kind := if dest.All? then Broadcast else Unicast;
      ghost var n := tx.seqs[Code(kind)];
      tx.Prepare(buffer, kind, state, magic, random);
      frame := Frame(kind, state, n, magic, random);
    }

    /** esp_now_send on the buffer; `ok` is what it returns, and failure deinitializes the node. */
    method Send(ok: bool)
      requires Valid()
      modifies `phase, `radio, `sent, `owed
      ensures Valid() && Value() == Transmit(old(Value()), ok)
    {
      if ok {
        radio := radio + [Datagram(dest, buffer[..])];
        sent := sent + [Packet(dest, frame)];
        owed := owed + multiset{dest};
      } else {
        phase := Failed;
      }
    }

    method Start(ok: bool)
      requires Valid() && phase.Starting?
      modifies `phase, `radio, `sent, `owed
      ensures Valid() && Value() == Begin(old(Value()), ok)
    {
      phase := Running;
      Send(ok);
    }

    method SendTo(to: Address, random: seq<byte>, ok: bool)
      requires Valid() && |random| == buffer.Length - HEADER
      modifies `phase, `dest, `radio, `sent, `owed, `frame, tx, buffer
      ensures Valid() && Value() == Transmit(Prepare(old(Value()).(dest := to), random), ok)
      ensures phase == if ok then old(phase) else Failed
    {
      hide Prepare;
      dest := to;
      PrepareData(random);
      Send(ok);
    }

    /** The rest of the send callback, once it is known that there is more to send. */
    method CountDown(to: Address) returns (more: bool)
      requires Valid() && phase.Running?
      modifies `phase, `count
      ensures Valid()
      ensures var n := old(Value());
              var m := if to.All? then n else n.(count := Decremented(n.count));
              more == !(to.To? && m.count == 0) && Value() == if more then m else m.(phase := Done)
    {
      more := true;
      if !to.All? {
        count := Decremented(count);
        if count == 0 {
          phase := Done;
          more := false;
        }
      }
    }

    method HandleSendCb(to: Address, random: seq<byte>, ok: bool)
      requires Valid() && phase.Running? && |random| == buffer.Length - HEADER
      modifies `phase, `count, `dest, `radio, `sent, `owed, `frame, tx, buffer
      ensures Valid() && Value() == OnSent(old(Value()), to, random, ok)
    {
      hide Prepare, Transmit, Data, OnAir, Decremented;
      owed := owed - multiset{to};
      if to.All? && !broadcast {
        return;
      }
      var more := CountDown(to);
      if more {
        SendTo(to, random, ok);
      }
    }

    /** A broadcast of `from` has been heard; false if it cannot become a peer. */
    method NotePeer(from: nat, memory: bool) returns (ok: bool)
      requires Valid() && phase.Running?
      modifies `phase, `state, `peers
      ensures Valid() && ok == (from in old(peers) || memory)
      ensures var n := old(Value());
              Value() == if ok then n.(peers := n.peers + {from}, state := if n.state == 0 then 1 else n.state)
                         else n.(phase := Failed)
    {
      if from !in peers {
        if !memory {
          phase := Failed;
          return false;
        }
        peers := peers + {from};
      }
      assert peers == old(peers) + {from};
      if state == 0 {
        state := 1;
      }
      return true;
    }

    /** A broadcast frame has been received. */
    method HandleBroadcast(from: nat, p: Parsed, memory: bool, random: seq<byte>, ok: bool)
      requires Valid() && phase.Running? && |random| == buffer.Length - HEADER
      requires p.Parsed? && p.ret == Code(Broadcast)
      modifies `phase, `unicast, `broadcast, `state, `dest, `peers, `radio, `sent, `owed, `frame, tx, buffer
      ensures Valid() && Value() == OnReceived(old(Value()), from, p, memory, random, ok)
    {
      hide Prepare, Transmit, Data, OnAir;
      var known := NotePeer(from, memory);
      if known && p.state == 1 {
        if !unicast && magic >= AsUnsigned(p.magic) {
          SendTo(To(from), random, ok);
          if ok {
            broadcast := false;
            unicast := true;
          }
        }
      }
    }

    method HandleRecvCb(from: nat, data: array<byte>, memory: bool, random: seq<byte>, ok: bool)
      requires Valid() && phase.Running? && |random| == buffer.Length - HEADER && data != buffer
      modifies `phase, `unicast, `broadcast, `state, `dest, `peers, `radio, `sent, `owed, `frame, tx, buffer, data
      ensures Valid()
      ensures Value() == OnReceived(old(Value()), from, Parse(tx.crc, old(data[..])), memory, random, ok)
    {
      hide Prepare, Transmit, Data, Parse, OnAir;
      var p := ParseInPlace(tx.crc, data);
      if p.TooShort? {
        return;
      }
      if p.ret == Code(Broadcast) {
        HandleBroadcast(from, p, memory, random, ok);
      } else if p.ret == Code(Unicast) {
        broadcast := false;
      }
    }
  }
}
