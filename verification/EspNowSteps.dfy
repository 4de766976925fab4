/**
 * What single events do for good: a unicast frame silences its receiver, an error or the end of the
 * countdown stops a node, noise changes nothing.
 */
module EspNowSteps {
  import opened Bytes
  import opened EspNowFrame
  import opened EspNow

  /** A unicast frame makes its receiver stop broadcasting, and does nothing else. */
  lemma UnicastSilences(crc: Crc, s: seq<Node>, a: Action)
    requires a.Received? && Enabled(crc, s, a) && s[a.from].sent[a.k].frame.kind == Unicast
    ensures Next(crc, s, a) == s[a.i := s[a.i].(broadcast := false)]
  {
    var f := s[a.from].sent[a.k].frame;
    RoundTrip(crc, f.kind, f.state, f.seqNum, f.magic, f.payload);
    hide Parse, Data;
  }

  /** `m` has sent no broadcast since `n`, and will not start. */
  ghost predicate Silent(n: Node, m: Node) {
    && !m.broadcast && !m.phase.Starting? && n.sent <= m.sent
    && forall k | |n.sent| <= k < |m.sent| :: m.sent[k].to.To?
  }

  lemma SilentOnSent(n: Node, to: Address, payload: seq<byte>, ok: bool)
    requires !n.broadcast && n.phase.Running?
    ensures Silent(n, OnSent(n, to, payload, ok))
  {
    hide Counted;
  }

  lemma SilentOnReceived(n: Node, from: nat, p: Parsed, memory: bool, payload: seq<byte>, ok: bool)
    requires !n.broadcast && n.phase.Running?
    ensures Silent(n, OnReceived(n, from, p, memory, payload, ok))
  {
    hide Counted;
  }

  lemma SilentStep(crc: Crc, s: seq<Node>, i: nat, a: Action)
    requires i < |s| && !s[i].broadcast && !s[i].phase.Starting? && Enabled(crc, s, a)
    ensures Silent(s[i], Next(crc, s, a)[i])
  {
    if a.i == i {
      match a
      case Sent(_, to, payload, ok) => SilentOnSent(s[i], to, payload, ok);
      case Received(_, from, k, memory, payload, ok) =>
        SilentOnReceived(s[i], from, Parse(crc, Data(crc, s[from].sent[k].frame)), memory, payload, ok);
      case Noise(_, from, data, memory, payload, ok) =>
        SilentOnReceived(s[i], from, Parse(crc, data), memory, payload, ok);
    }
    hide OnSent, OnReceived, Parse, Data;
  }

  /** A node that does not broadcast never broadcasts again. */
  lemma {:induction false} SilentForGood(crc: Crc, s: seq<Node>, i: nat, acts: seq<Action>)
    requires i < |s| && !s[i].broadcast && !s[i].phase.Starting? && Run(crc, s, acts)
    ensures var t := After(crc, s, acts);
            && |t| == |s| && !t[i].broadcast && s[i].sent <= t[i].sent
            && forall k | |s[i].sent| <= k < |t[i].sent| :: t[i].sent[k].to.To?
    decreases |acts|
  {
    if acts != [] {
      SilentStep(crc, s, i, acts[0]);
      var u := Next(crc, s, acts[0]);
      hide Next, Enabled;
      SilentForGood(crc, u, i, acts[1..]);
      var t := After(crc, u, acts[1..]);
      forall k | |s[i].sent| <= k < |t[i].sent| ensures t[i].sent[k].to.To? {
        if k < |u[i].sent| {
          assert t[i].sent[k] == u[i].sent[k];
        }
      }
    }
  }

  /** So a node that has received a unicast frame never broadcasts again. */
  lemma UnicastEndsBroadcasting(crc: Crc, s: seq<Node>, a: Action, acts: seq<Action>)
    requires a.Received? && Enabled(crc, s, a) && s[a.from].sent[a.k].frame.kind == Unicast
    requires Run(crc, Next(crc, s, a), acts)
    ensures var t := After(crc, Next(crc, s, a), acts);
            && |t| == |s| && !t[a.i].broadcast && s[a.i].sent <= t[a.i].sent
            && forall k | |s[a.i].sent| <= k < |t[a.i].sent| :: t[a.i].sent[k].to.To?
  {
    UnicastSilences(crc, s, a);
    hide Next, Enabled;
    SilentForGood(crc, s[a.i := s[a.i].(broadcast := false)], a.i, acts);
  }

  /** What an event does if its send succeeds, and what if it fails. */
  ghost predicate StopsOnFailure(n: Node, good: Node, bad: Node) {
    if good.sent != n.sent then |good.sent| == |n.sent| + 1 && bad.phase == Failed && bad.sent == n.sent
                                && bad.broadcast == n.broadcast && bad.unicast == n.unicast
    else bad == good
  }

  /** A send that fails stops the node without a packet; an event that sends nothing does not mind. */
  lemma FailedSendStops(n: Node, to: Address, payload: seq<byte>)
    ensures StopsOnFailure(n, OnSent(n, to, payload, true), OnSent(n, to, payload, false))
  {
    hide Counted;
  }

  lemma FailedAnswerStops(n: Node, from: nat, p: Parsed, memory: bool, payload: seq<byte>)
    ensures StopsOnFailure(
              n, OnReceived(n, from, p, memory, payload, true), OnReceived(n, from, p, memory, payload, false))
  {
    hide Counted;
  }

  /** A broadcast of a stranger stops a node that has no memory for it; for a known peer none is needed. */
  lemma MemoryForStrangers(crc: Crc, s: seq<Node>, a: Action)
    requires a.Received? && Enabled(crc, s, a) && s[a.from].sent[a.k].frame.kind == Broadcast && !a.memory
    ensures var b := Received(a.i, a.from, a.k, true, a.payload, a.ok);
            Enabled(crc, s, b) && (a.from in s[a.i].peers ==> Next(crc, s, a) == Next(crc, s, b))
    ensures a.from !in s[a.i].peers ==> Next(crc, s, a) == s[a.i := s[a.i].(phase := Failed)]
  {
    var f := s[a.from].sent[a.k].frame;
    RoundTrip(crc, f.kind, f.state, f.seqNum, f.magic, f.payload);
    hide Parse, Data;
  }

  /** A node at its end, however it got there, does nothing more. */
  lemma {:induction false} EndIsFinal(crc: Crc, s: seq<Node>, i: nat, acts: seq<Action>)
    requires i < |s| && (s[i].phase.Done? || s[i].phase.Failed?) && Run(crc, s, acts)
    ensures |After(crc, s, acts)| == |s| && After(crc, s, acts)[i] == s[i]
    decreases |acts|
  {
    hide OnSent, OnReceived, Begin, Parse, Data;
    if acts != [] {
      EndIsFinal(crc, Next(crc, s, acts[0]), i, acts[1..]);
    }
  }

  /** Bytes that are no frame of the example change nothing. */
  lemma NoiseIsIgnored(crc: Crc, s: seq<Node>, a: Action)
    requires a.Noise? && Enabled(crc, s, a)
    ensures Next(crc, s, a) == s
  {
    hide Parse;
  }
}
