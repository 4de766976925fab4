/**
 * What the pairing protocol guarantees in every run, for any number of nodes, and where it falls short.
 */
module EspNowPairing {
  import opened Bytes
  import opened EspNowFrame
  import opened EspNow

  // ---------- every run of freshly started nodes ----------

  ghost predicate Reachable(crc: Crc, magics: seq<u32>, count: u16, payloads: seq<seq<byte>>, s: seq<Node>) {
    |payloads| == |magics| && Reaches(crc, Fresh(magics, count, payloads), s)
  }

  lemma ReachableInv(crc: Crc, magics: seq<u32>, count: u16, payloads: seq<seq<byte>>, s: seq<Node>)
    requires count >= 1 && Reachable(crc, magics, count, payloads, s)
    ensures Inv(s, count) && |s| == |magics| && forall i | 0 <= i < |s| :: s[i].magic == magics[i]
  {
    FreshInv(magics, count, payloads);
    ReachesKeepsInv(crc, Fresh(magics, count, payloads), s, count);
  }

  /** Node i has sent node j a unicast frame. */
  ghost predicate Unicasting(s: seq<Node>, i: nat, j: nat)
    requires i < |s|
  {
    exists k | 0 <= k < |s[i].sent| :: s[i].sent[k].to == To(j)
  }

  /** Role safety: a link goes to another node that has heard someone, from a magic that is no smaller. */
  lemma LinksGoDown(crc: Crc, magics: seq<u32>, count: u16, payloads: seq<seq<byte>>, s: seq<Node>, i: nat, j: nat)
    requires count >= 1 && Reachable(crc, magics, count, payloads, s)
    requires i < |s| && Unicasting(s, i, j)
    ensures |s| == |magics| && j < |s| && j != i && magics[i] >= magics[j]
    ensures j in s[i].peers && s[j].peers != {} && !s[i].broadcast
    ensures forall h | Unicasting(s, i, h) :: h == j
  {
    ReachableInv(crc, magics, count, payloads, s);
    assert Local(s[i], count) && Knows(s, i);
    forall k | 0 <= k < |s[i].sent| && s[i].sent[k].to.To?
      ensures s[i].unicast && s[i].dest == s[i].sent[k].to
    {
      assert PacketOk(s[i], k);
    }
    hide Roles, Packets, Numbered;
  }

  ghost predicate Path(s: seq<Node>, p: seq<nat>) {
    && |p| >= 1 && (forall k | 0 <= k < |p| :: p[k] < |s|)
    && forall k | 0 <= k < |p| - 1 :: Unicasting(s, p[k], p[k + 1])
  }

  lemma {:induction false} PathsGoDown(
      crc: Crc, magics: seq<u32>, count: u16, payloads: seq<seq<byte>>, s: seq<Node>, p: seq<nat>, a: nat, b: nat)
    requires count >= 1 && Reachable(crc, magics, count, payloads, s) && Path(s, p) && a <= b < |p|
    ensures |s| == |magics| && magics[p[a]] >= magics[p[b]]
    decreases b
  {
    hide Unicasting, Reachable;
    ReachableInv(crc, magics, count, payloads, s);
    if a < b {
      PathsGoDown(crc, magics, count, payloads, s, p, a, b - 1);
      assert Unicasting(s, p[b - 1], p[b - 1 + 1]);
      LinksGoDown(crc, magics, count, payloads, s, p[b - 1], p[b]);
    }
  }

  /** The unicast graph has a cycle only among nodes that drew one and the same magic. */
  lemma CyclesShareOneMagic(
      crc: Crc, magics: seq<u32>, count: u16, payloads: seq<seq<byte>>, s: seq<Node>, p: seq<nat>)
    requires count >= 1 && Reachable(crc, magics, count, payloads, s) && Path(s, p)
    requires |p| >= 2 && p[0] == p[|p| - 1]
    ensures |s| == |magics| && p[1] != p[0] && forall k | 0 <= k < |p| :: magics[p[k]] == magics[p[0]]
  {
    hide Unicasting, Reachable;
    ReachableInv(crc, magics, count, payloads, s);
    assert Unicasting(s, p[0], p[0 + 1]);
    LinksGoDown(crc, magics, count, payloads, s, p[0], p[1]);
    forall k | 0 <= k < |p|
      ensures magics[p[k]] == magics[p[0]]
    {
      PathsGoDown(crc, magics, count, payloads, s, p, 0, k);
      PathsGoDown(crc, magics, count, payloads, s, p, k, |p| - 1);
    }
  }

  /** So with distinct magics the graph is acyclic ... */
  lemma Acyclic(crc: Crc, magics: seq<u32>, count: u16, payloads: seq<seq<byte>>, s: seq<Node>, p: seq<nat>)
    requires count >= 1 && Reachable(crc, magics, count, payloads, s) && Path(s, p) && |p| >= 2
    requires forall i, j | 0 <= i < j < |magics| :: magics[i] != magics[j]
    ensures p[0] != p[|p| - 1]
  {
    hide Unicasting, Reachable;
    if p[0] == p[|p| - 1] {
      CyclesShareOneMagic(crc, magics, count, payloads, s, p);
    }
  }

  /** ... and the node with the smallest magic never unicasts. */
  lemma SmallestOnlyListens(
      crc: Crc, magics: seq<u32>, count: u16, payloads: seq<seq<byte>>, s: seq<Node>, i: nat, j: nat)
    requires count >= 1 && Reachable(crc, magics, count, payloads, s)
    requires i < |s| && i < |magics| && forall h | 0 <= h < |magics| && h != i :: magics[h] > magics[i]
    ensures !Unicasting(s, i, j)
  {
    if Unicasting(s, i, j) {
      LinksGoDown(crc, magics, count, payloads, s, i, j);
    }
  }

  /** The sender sends exactly `count` unicast frames, one at a time, and broadcasts no more. */
  lemma ExactCount(crc: Crc, magics: seq<u32>, count: u16, payloads: seq<seq<byte>>, s: seq<Node>, i: nat)
    requires count >= 1 && Reachable(crc, magics, count, payloads, s) && i < |s|
    ensures s[i].unicast ==> !s[i].broadcast
    ensures s[i].phase.Running? && s[i].unicast ==>
              && Unicasts(s[i]) == count - s[i].count + 1 <= count
              && forall j :: s[i].owed[To(j)] == if s[i].dest == To(j) then 1 else 0
    ensures s[i].phase.Done? ==> Unicasts(s[i]) == count
    ensures Unicasts(s[i]) <= count && s[i].owed[All] <= 1
  {
    ReachableInv(crc, magics, count, payloads, s);
    assert Local(s[i], count);
  }

  /** The frames of each kind that a node sends are numbered from 0, modulo 65536. */
  lemma SequenceNumbers(crc: Crc, magics: seq<u32>, count: u16, payloads: seq<seq<byte>>, s: seq<Node>, i: nat, k: nat)
    requires count >= 1 && Reachable(crc, magics, count, payloads, s) && i < |s| && k < |s[i].sent|
    ensures var p := s[i].sent[k];
            p.frame.seqNum == OfKind(s[i].sent, p.frame.kind, k) % TWO_16 && p.frame.kind == KindOf(p.to)
  {
    ReachableInv(crc, magics, count, payloads, s);
    assert Local(s[i], count) && NumberedAt(s[i].sent, k) && PacketOk(s[i], k);
  }

  // ---------- runs that show the limits ----------

  lemma ReachStep(crc: Crc, magics: seq<u32>, count: u16, payloads: seq<seq<byte>>, s: seq<Node>, a: Action)
    requires Reachable(crc, magics, count, payloads, s) && Enabled(crc, s, a)
    ensures Reachable(crc, magics, count, payloads, Next(crc, s, a))
  {
    ReachesStep(crc, Fresh(magics, count, payloads), s, a);
  }

  lemma ReachFresh(crc: Crc, magics: seq<u32>, count: u16, payloads: seq<seq<byte>>)
    requires |payloads| == |magics|
    ensures Reachable(crc, magics, count, payloads, Fresh(magics, count, payloads))
  {
    ReachesItself(crc, Fresh(magics, count, payloads));
  }

  /** A broadcast as a node that has heard someone, or no one, sends it. */
  function Call(state: byte, seqNum: u16, magic: u32, payload: seq<byte>): Packet {
    Packet(All, Frame(Broadcast, state, seqNum, magic, payload))
  }

  /** A node that has sent its first broadcast, has then heard `from`, and has said so. */
  function Calling(magic: u32, count: u16, payload: seq<byte>): Node { Begin(Initial(magic, count, payload), true) }

  function Aware(magic: u32, count: u16, payload: seq<byte>, from: nat): Node {
    Calling(magic, count, payload).(peers := {from}, state := 1)
  }

  function Inviting(magic: u32, count: u16, payload: seq<byte>, from: nat): Node {
    OnSent(Aware(magic, count, payload, from), All, payload, true)
  }

  lemma HearsCall(crc: Crc, magic: u32, count: u16, payload: seq<byte>, from: nat, other: u32, theirs: seq<byte>)
    ensures OnReceived(Calling(magic, count, payload), from, Parse(crc, Data(crc, Call(0, 0, other, theirs).frame)),
                       true, payload, true) == Aware(magic, count, payload, from)
  {
    RoundTrip(crc, Broadcast, 0, 0, other, theirs);
  }

  lemma HearsInvitation(crc: Crc, n: Node, from: nat, other: u32, theirs: seq<byte>, payload: seq<byte>)
    requires !n.unicast && n.magic >= other
    ensures var m := OnReceived(n, from, Parse(crc, Data(crc, Call(1, 1, other, theirs).frame)), true, payload, true);
            var aware := n.(dest := To(from), state := if n.state == 0 then 1 else n.state);
            m.sent == n.sent + [Packet(To(from), Prepare(aware, payload).buffer)]
  {
    RoundTrip(crc, Broadcast, 1, 1, other, theirs);
    UnsignedAgain(other);
  }

  lemma WhatTheySend(magic: u32, count: u16, payload: seq<byte>, from: nat)
    ensures var n := Calling(magic, count, payload);
            && n.phase.Running? && !n.unicast && n.magic == magic && All in n.owed
            && n.sent == [Call(0, 0, magic, payload)]
    ensures var n := Aware(magic, count, payload, from); n.phase.Running? && All in n.owed
    ensures var n := Inviting(magic, count, payload, from);
            n.phase.Running? && !n.unicast && n.magic == magic && n.peers == {from}
            && n.sent == [Call(0, 0, magic, payload), Call(1, 1, magic, payload)]
  {
  }

  /** i and j have both started. */
  lemma BothCall(crc: Crc, magics: seq<u32>, count: u16, payloads: seq<seq<byte>>, s: seq<Node>, i: nat)
    requires Reachable(crc, magics, count, payloads, s) && i < |s| == |magics|
    requires s[i] == Initial(magics[i], count, payloads[i])
    ensures Reachable(crc, magics, count, payloads, s[i := Calling(magics[i], count, payloads[i])])
  {
    ReachStep(crc, magics, count, payloads, s, Starts(i, true));
  }

  /** Node j hears h ... */
  lemma Hears(crc: Crc, magics: seq<u32>, count: u16, payloads: seq<seq<byte>>, s: seq<Node>, j: nat, h: nat)
    requires Reachable(crc, magics, count, payloads, s) && |s| == |magics| && j < |s| && h < |s| && j != h
    requires s[j] == Calling(magics[j], count, payloads[j])
    requires s[h].sent != [] && s[h].sent[0] == Call(0, 0, magics[h], payloads[h])
    ensures Reachable(crc, magics, count, payloads, s[j := Aware(magics[j], count, payloads[j], h)])
  {
    WhatTheySend(magics[j], count, payloads[j], h);
    HearsCall(crc, magics[j], count, payloads[j], h, magics[h], payloads[h]);
    hide OnReceived, Calling, Aware, Parse, Data, Reachable;
    ReachStep(crc, magics, count, payloads, s, Received(j, h, 0, true, payloads[j], true));
  }

  /** ... and invites. */
  lemma Invites(crc: Crc, magics: seq<u32>, count: u16, payloads: seq<seq<byte>>, s: seq<Node>, j: nat, h: nat)
    requires Reachable(crc, magics, count, payloads, s) && |s| == |magics| && j < |s| && h < |s| && j != h
    requires s[j] == Calling(magics[j], count, payloads[j])
    requires s[h].sent != [] && s[h].sent[0] == Call(0, 0, magics[h], payloads[h])
    ensures Reachable(crc, magics, count, payloads, s[j := Inviting(magics[j], count, payloads[j], h)])
  {
    Hears(crc, magics, count, payloads, s, j, h);
    WhatTheySend(magics[j], count, payloads[j], h);
    hide Calling, Aware, OnSent, OnReceived, Begin, Parse, Data, Reachable;
    var t := s[j := Aware(magics[j], count, payloads[j], h)];
    ReachStep(crc, magics, count, payloads, t, Sent(j, All, payloads[j], true));
    assert t[j := Inviting(magics[j], count, payloads[j], h)] == s[j := Inviting(magics[j], count, payloads[j], h)];
  }

  /** Node i takes up the invitation of j. */
  lemma TakesUp(crc: Crc, magics: seq<u32>, count: u16, payloads: seq<seq<byte>>, s: seq<Node>, i: nat, j: nat)
    returns (t: seq<Node>)
    requires Reachable(crc, magics, count, payloads, s) && |s| == |magics| && i < |s| && j < |s| && i != j
    requires s[i].phase.Running? && !s[i].unicast && s[i].magic == magics[i] >= magics[j]
    requires |s[j].sent| >= 2 && s[j].sent[1] == Call(1, 1, magics[j], payloads[j])
    ensures Reachable(crc, magics, count, payloads, t) && |t| == |s| && t == s[i := t[i]] && Unicasting(t, i, j)
    ensures s[i].sent <= t[i].sent
  {
    HearsInvitation(crc, s[i], j, magics[j], payloads[j], payloads[i]);
    var hear := Received(i, j, 1, true, payloads[i], true);
    ReachStep(crc, magics, count, payloads, s, hear);
    t := Next(crc, s, hear);
    assert t[i].sent[|s[i].sent|].to == To(j);
  }

  /** Two nodes that drew the same magic can each become the other's sender. */
  lemma EqualMagicsPairBothWays(crc: Crc, magics: seq<u32>, count: u16, payloads: seq<seq<byte>>, i: nat, j: nat)
    returns (t: seq<Node>)
    requires |payloads| == |magics| && i < |magics| && j < |magics| && i != j && magics[i] == magics[j]
    ensures Reachable(crc, magics, count, payloads, t) && |t| == |magics|
    ensures Unicasting(t, i, j) && Unicasting(t, j, i)
  {
    hide Reachable;
    ReachFresh(crc, magics, count, payloads);
    var s := Fresh(magics, count, payloads);
    BothCall(crc, magics, count, payloads, s, i);
    s := s[i := Calling(magics[i], count, payloads[i])];
    BothCall(crc, magics, count, payloads, s, j);
    s := s[j := Calling(magics[j], count, payloads[j])];
    WhatTheySend(magics[i], count, payloads[i], j);
    WhatTheySend(magics[j], count, payloads[j], i);
    hide Calling, Inviting, Fresh;
    Invites(crc, magics, count, payloads, s, i, j);
    s := s[i := Inviting(magics[i], count, payloads[i], j)];
    Invites(crc, magics, count, payloads, s, j, i);
    s := s[j := Inviting(magics[j], count, payloads[j], i)];
    t := TakesUp(crc, magics, count, payloads, s, i, j);
    assert t[i].sent[1] == Call(1, 1, magics[i], payloads[i]);
    var u := TakesUp(crc, magics, count, payloads, t, j, i);
    assert u[i] == t[i];
    t := u;
  }

  /** The unicast graph can get a cycle exactly if two nodes draw the same magic. */
  lemma CycleIffMagicRepeats(crc: Crc, magics: seq<u32>, count: u16, payloads: seq<seq<byte>>)
    requires count >= 1 && |payloads| == |magics|
    ensures (exists s: seq<Node>, p: seq<nat> ::
               Reachable(crc, magics, count, payloads, s) && Path(s, p) && |p| >= 2 && p[0] == p[|p| - 1])
       <==> (exists i, j | 0 <= i < j < |magics| :: magics[i] == magics[j])
  {
    hide Reachable, Unicasting;
    if i, j :| 0 <= i < j < |magics| && magics[i] == magics[j] {
      var s := EqualMagicsPairBothWays(crc, magics, count, payloads, i, j);
      assert Path(s, [i, j, i]);
    } else {
      forall s: seq<Node>, p: seq<nat> | Reachable(crc, magics, count, payloads, s) && Path(s, p) && |p| >= 2
        ensures p[0] != p[|p| - 1]
      {
        Acyclic(crc, magics, count, payloads, s, p);
      }
    }
  }

  /** With two nodes at most one ever unicasts, in every run, exactly if their magics differ. */
  lemma OneSenderIffMagicsDiffer(crc: Crc, magics: seq<u32>, count: u16, payloads: seq<seq<byte>>)
    requires count >= 1 && |payloads| == |magics| == 2
    ensures (forall s: seq<Node> | Reachable(crc, magics, count, payloads, s) ::
               |s| == 2 && !(Unicasting(s, 0, 1) && Unicasting(s, 1, 0)))
       <==> magics[0] != magics[1]
  {
    if magics[0] == magics[1] {
      var s := EqualMagicsPairBothWays(crc, magics, count, payloads, 0, 1);
    } else {
      forall s: seq<Node> | Reachable(crc, magics, count, payloads, s)
        ensures |s| == 2 && !(Unicasting(s, 0, 1) && Unicasting(s, 1, 0))
      {
        ReachableInv(crc, magics, count, payloads, s);
        hide Reachable;
        if Unicasting(s, 0, 1) && Unicasting(s, 1, 0) {
          LinksGoDown(crc, magics, count, payloads, s, 0, 1);
          LinksGoDown(crc, magics, count, payloads, s, 1, 0);
        }
      }
    }
  }

  /** A pairing is one-sided when the listener has never heard its sender. */
  ghost predicate OneSided(s: seq<Node>, i: nat, j: nat) {
    i < |s| && j < |s| && Unicasting(s, i, j) && i !in s[j].peers
  }

  lemma ThirdPartyInvites(
      crc: Crc, magics: seq<u32>, count: u16, payloads: seq<seq<byte>>, i: nat, j: nat, h: nat)
    returns (t: seq<Node>)
    requires |payloads| == |magics|
    requires i < |magics| && j < |magics| && h < |magics| && i != j && j != h && h != i && magics[i] >= magics[j]
    ensures Reachable(crc, magics, count, payloads, t) && OneSided(t, i, j)
  {
    hide Reachable;
    ReachFresh(crc, magics, count, payloads);
    var s := Fresh(magics, count, payloads);
    BothCall(crc, magics, count, payloads, s, i);
    s := s[i := Calling(magics[i], count, payloads[i])];
    BothCall(crc, magics, count, payloads, s, j);
    s := s[j := Calling(magics[j], count, payloads[j])];
    BothCall(crc, magics, count, payloads, s, h);
    s := s[h := Calling(magics[h], count, payloads[h])];
    hide Calling, Inviting, Fresh;
    t := Invited(crc, magics, count, payloads, s, i, j, h);
  }

  lemma Invited(
      crc: Crc, magics: seq<u32>, count: u16, payloads: seq<seq<byte>>, s: seq<Node>, i: nat, j: nat, h: nat)
    returns (t: seq<Node>)
    requires Reachable(crc, magics, count, payloads, s) && |s| == |magics|
    requires i < |s| && j < |s| && h < |s| && i != j && j != h && h != i && magics[i] >= magics[j]
    requires s[i] == Calling(magics[i], count, payloads[i]) && s[j] == Calling(magics[j], count, payloads[j])
    requires s[h] == Calling(magics[h], count, payloads[h])
    ensures Reachable(crc, magics, count, payloads, t) && OneSided(t, i, j)
  {
    assert |payloads| == |magics|;
    hide Reachable, Calling, Inviting, Aware, Unicasting, Call;
    assert s[h].sent != [] && s[h].sent[0] == Call(0, 0, magics[h], payloads[h]) by {
      WhatTheySend(magics[h], count, payloads[h], j);
    }
    Invites(crc, magics, count, payloads, s, j, h);
    var inviting := Inviting(magics[j], count, payloads[j], h);
    var u := s[j := inviting];
    assert inviting.peers == {h} && |inviting.sent| == 2 && inviting.sent[1] == Call(1, 1, magics[j], payloads[j]) by {
      WhatTheySend(magics[j], count, payloads[j], h);
    }
    assert u[i].phase.Running? && !u[i].unicast && u[i].magic == magics[i] by {
      WhatTheySend(magics[i], count, payloads[i], j);
    }
    t := TakesUp(crc, magics, count, payloads, u, i, j);
    assert t[j] == inviting;
  }

  /**
   * Handshake causality: in every run each end of a link has received a broadcast of the other, exactly
   * if there are no more than two nodes.  With a third node the listener may have heard only that one.
   */
  lemma HandshakeIffTwoNodes(crc: Crc, magics: seq<u32>, count: u16, payloads: seq<seq<byte>>)
    requires count >= 1 && |payloads| == |magics|
    ensures (forall s: seq<Node>, i: nat, j: nat |
               Reachable(crc, magics, count, payloads, s) && i < |s| && Unicasting(s, i, j) ::
               j < |s| && j in s[i].peers && i in s[j].peers)
       <==> |magics| <= 2
  {
    if |magics| <= 2 {
      forall s: seq<Node>, i: nat, j: nat | Reachable(crc, magics, count, payloads, s) && i < |s| && Unicasting(s, i, j)
        ensures j < |s| && j in s[i].peers && i in s[j].peers
      {
        LinksGoDown(crc, magics, count, payloads, s, i, j);
        ReachableInv(crc, magics, count, payloads, s);
        hide Reachable, Unicasting, Local;
        assert Knows(s, j);
        var h :| h in s[j].peers;
        assert h == i;
      }
    } else {
      var i, j := if magics[0] >= magics[1] then 0 else 1, if magics[0] >= magics[1] then 1 else 0;
      var s := ThirdPartyInvites(crc, magics, count, payloads, i, j, 2);
      assert OneSided(s, i, j);
    }
  }

  /** A broadcast of node j was delivered to node i during the run. */
  ghost predicate Delivered(s: seq<Node>, acts: seq<Action>, i: nat, j: nat)
    requires j < |s|
  {
    exists n | 0 <= n < |acts| ::
      acts[n].Received? && acts[n].i == i && acts[n].from == j
      && acts[n].k < |s[j].sent| && s[j].sent[acts[n].k].to == All
  }

  lemma StepSends(crc: Crc, s: seq<Node>, a: Action, j: nat)
    requires Enabled(crc, s, a) && j < |s|
    ensures var t := Next(crc, s, a); |t| == |s| && s[j].sent <= t[j].sent
  {
    hide Parse, Data;
  }

  lemma {:induction false} RunSends(crc: Crc, s: seq<Node>, acts: seq<Action>, j: nat)
    requires Run(crc, s, acts) && j < |s|
    ensures var t := After(crc, s, acts); |t| == |s| && s[j].sent <= t[j].sent
    decreases |acts|
  {
    if acts != [] {
      StepSends(crc, s, acts[0], j);
      hide Next, Enabled;
      RunSends(crc, Next(crc, s, acts[0]), acts[1..], j);
    }
  }

  lemma NewPeerByBroadcast(crc: Crc, s: seq<Node>, a: Action, i: nat, j: nat, count: u16)
    requires Enabled(crc, s, a) && Inv(s, count) && i < |s|
    requires j !in s[i].peers && j in Next(crc, s, a)[i].peers
    ensures a.Received? && a.i == i && a.from == j && a.k < |s[j].sent| && s[j].sent[a.k].to == All
  {
    if a.i == i {
      assert Local(s[i], count);
      match a
      case Sent(_, to, p, ok) =>
        OnSentGrows(s[i], to, p, ok, count);
      case Received(_, from, k, memory, p, ok) =>
        var f := s[from].sent[k].frame;
        RoundTrip(crc, f.kind, f.state, f.seqNum, f.magic, f.payload);
        assert Local(s[from], count) && PacketOk(s[from], k);
        OnReceivedGrows(s[i], from, Parse(crc, Data(crc, f)), memory, p, ok);
      case _ =>
    }
    hide Local, Parse, Data, Roles, Numbered, PacketOk, Addressed, OnSent;
  }

  /** The peer list of a node names exactly those whose broadcasts reached it: no peer comes from nowhere. */
  lemma {:induction false} PeersWereHeard(
      crc: Crc, s: seq<Node>, acts: seq<Action>, i: nat, j: nat, count: u16)
    requires Run(crc, s, acts) && Inv(s, count) && count >= 1 && i < |s|
    requires var t := After(crc, s, acts); |t| == |s| && j !in s[i].peers && j in t[i].peers
    ensures j < |s| && |After(crc, s, acts)| == |s| && Delivered(After(crc, s, acts), acts, i, j)
    decreases |acts|
  {
    if acts != [] {
      var u := Next(crc, s, acts[0]);
      StepKeepsInv(crc, s, acts[0], count);
      if j in u[i].peers {
        NewPeerByBroadcast(crc, s, acts[0], i, j, count);
        RunSends(crc, s, acts, j);
        hide Next, Enabled, Inv, After;
        assert acts[0].Received? && acts[0].i == i;
      } else {
        hide Next, Enabled, Inv;
        PeersWereHeard(crc, u, acts[1..], i, j, count);
      }
    }
  }
}
