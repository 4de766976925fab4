/**
 * The pairing protocol never gets stuck: the network may lose what it likes, but from every reachable
 * state in which both nodes still run there is a way on to a complete unicast transfer.
 */
module EspNowProgress {
  import opened Bytes
  import opened EspNowFrame
  import opened EspNow
  import opened EspNowPairing

  /** One step on the way. */
  lemma Do(crc: Crc, s: seq<Node>, t: seq<Node>, a: Action, count: u16) returns (u: seq<Node>)
    requires Reaches(crc, s, t) && Enabled(crc, t, a) && Inv(t, count) && count >= 1
    ensures u == Next(crc, t, a) && Reaches(crc, s, u) && Inv(u, count)
  {
    u := Next(crc, t, a);
    ReachesStep(crc, s, t, a);
    StepKeepsInv(crc, t, a, count);
  }

  /** What the callbacks of the sender do one after the other. */
  lemma {:induction false} CountsDown(
      crc: Crc, s: seq<Node>, t: seq<Node>, i: nat, j: nat, payload: seq<byte>, count: u16)
    returns (u: seq<Node>)
    requires Reaches(crc, s, t) && Inv(t, count) && count >= 1
    requires i < |t| && t[i].phase.Running? && t[i].unicast && t[i].dest == To(j)
    ensures Reaches(crc, s, u) && Inv(u, count) && |u| == |t| && u[i].phase.Done? && u[i].dest == To(j)
    decreases t[i].count
  {
    assert Local(t[i], count);
    var a := Sent(i, To(j), payload, true);
    assert To(j) in t[i].owed;
    u := Do(crc, s, t, a, count);
    hide Reaches, Inv;
    if t[i].count > 1 {
      u := CountsDown(crc, s, u, i, j, payload, count);
    }
  }

  /** Node j still broadcasts, so it can hear i's first frame, which asks for no answer ... */
  lemma HearsFirstCall(crc: Crc, s: seq<Node>, t: seq<Node>, j: nat, i: nat, payload: seq<byte>, count: u16)
    returns (u: seq<Node>)
    requires Reaches(crc, s, t) && Inv(t, count) && count >= 1
    requires i < |t| && j < |t| && i != j && t[i].phase.Running? && t[j].phase.Running? && t[j].broadcast
    ensures Reaches(crc, s, u) && Inv(u, count) && |u| == |t| && u == t[j := u[j]]
    ensures u[j].phase.Running? && u[j].broadcast && u[j].state == 1 && u[j].magic == t[j].magic
  {
    assert Local(t[i], count) && PacketOk(t[i], 0) && Local(t[j], count);
    var f := t[i].sent[0].frame;
    RoundTrip(crc, f.kind, f.state, f.seqNum, f.magic, f.payload);
    u := Do(crc, s, t, Received(j, i, 0, true, payload, true), count);
    hide Inv, Reaches, Parse, Data;
  }

  /** ... then says that it has heard someone ... */
  lemma SaysSo(crc: Crc, s: seq<Node>, t: seq<Node>, j: nat, payload: seq<byte>, count: u16)
    returns (u: seq<Node>)
    requires Reaches(crc, s, t) && Inv(t, count) && count >= 1
    requires j < |t| && t[j].phase.Running? && t[j].broadcast && t[j].state == 1
    ensures Reaches(crc, s, u) && Inv(u, count) && |u| == |t| && u == t[j := u[j]]
    ensures u[j].sent != [] && u[j].magic == t[j].magic
    ensures var p := u[j].sent[|u[j].sent| - 1]; p.to.All? && p.frame.state == 1 && p.frame.kind == Broadcast
  {
    assert Local(t[j], count);
    assert All in t[j].owed;
    u := Do(crc, s, t, Sent(j, All, payload, true), count);
    hide Inv, Reaches;
  }

  /** ... and i, with a magic no smaller, takes that up. */
  lemma TakesUpCall(crc: Crc, s: seq<Node>, t: seq<Node>, i: nat, j: nat, payload: seq<byte>, count: u16)
    returns (u: seq<Node>)
    requires Reaches(crc, s, t) && Inv(t, count) && count >= 1
    requires i < |t| && j < |t| && i != j && t[i].phase.Running? && !t[i].unicast && t[i].magic >= t[j].magic
    requires t[j].sent != []
    requires var p := t[j].sent[|t[j].sent| - 1]; p.to.All? && p.frame.state == 1 && p.frame.kind == Broadcast
    ensures Reaches(crc, s, u) && Inv(u, count) && |u| == |t|
    ensures u[i].phase.Running? && u[i].unicast && u[i].dest == To(j)
  {
    var k := |t[j].sent| - 1;
    assert Local(t[j], count) && PacketOk(t[j], k);
    var f := t[j].sent[k].frame;
    RoundTrip(crc, f.kind, f.state, f.seqNum, f.magic, f.payload);
    UnsignedAgain(f.magic);
    u := Do(crc, s, t, Received(i, j, k, true, payload, true), count);
    hide Inv, Reaches, Parse, Data;
  }

  /** In any network, a running node can still serve any broadcasting node whose magic is no bigger. */
  lemma CanStillPair(crc: Crc, s: seq<Node>, i: nat, j: nat, payload: seq<byte>, count: u16)
    returns (u: seq<Node>)
    requires Inv(s, count) && count >= 1 && i < |s| && j < |s| && i != j && s[i].magic >= s[j].magic
    requires s[i].phase.Running? && !s[i].unicast && s[j].phase.Running? && s[j].broadcast
    ensures Reaches(crc, s, u) && Inv(u, count) && |u| == |s| && u[i].phase.Done? && u[i].dest == To(j)
  {
    ReachesItself(crc, s);
    hide Inv, Reaches;
    u := HearsFirstCall(crc, s, s, j, i, payload, count);
    assert u[i] == s[i];
    u := SaysSo(crc, s, u, j, payload, count);
    assert u[i] == s[i];
    u := TakesUpCall(crc, s, u, i, j, payload, count);
    u := CountsDown(crc, s, u, i, j, payload, count);
  }

  /** Of two running nodes with different magics the smaller broadcasts until the bigger unicasts. */
  lemma SmallerStillBroadcasts(s: seq<Node>, i: nat, j: nat, count: u16)
    requires Inv(s, count) && |s| == 2 && i < 2 && j < 2 && i != j && s[i].magic > s[j].magic
    ensures s[j].broadcast || s[i].unicast
    ensures s[i].unicast ==> s[i].dest == To(j)
  {
    assert Knows(s, j) && Knows(s, i);
  }

  /**
   * Two nodes with different magics: whatever has happened, if both still run there is a way on to "Send
   * done" of the bigger one, with exactly the configured number of unicast frames sent to the other.
   */
  lemma PairingCanAlwaysComplete(
      crc: Crc, magics: seq<u32>, count: u16, payloads: seq<seq<byte>>, s: seq<Node>, i: nat, j: nat,
      payload: seq<byte>)
    returns (u: seq<Node>)
    requires count >= 1 && |magics| == 2 && i < 2 && j < 2 && magics[i] > magics[j]
    requires Reachable(crc, magics, count, payloads, s) && |s| == 2 && s[i].phase.Running? && s[j].phase.Running?
    ensures Reaches(crc, s, u) && |u| == 2 && u[i].phase.Done? && u[i].dest == To(j) && Unicasts(u[i]) == count
  {
    ReachableInv(crc, magics, count, payloads, s);
    SmallerStillBroadcasts(s, i, j, count);
    if s[i].unicast {
      ReachesItself(crc, s);
      u := CountsDown(crc, s, s, i, j, payload, count);
    } else {
      u := CanStillPair(crc, s, i, j, payload, count);
    }
    assert Local(u[i], count);
  }
}
