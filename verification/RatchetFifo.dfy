/**
Ratchet peers over channels that deliver each direction in the order sent: every
delivery decrypts, and each inbox is the other peer's outbox up to what is in flight.
*/
module RatchetFifo {
  import opened Common
  import opened RatchetState
  import opened RatchetChain
  import opened RatchetProtocol
  import opened RatchetRuns

  /** The texts sent to a peer and not yet delivered, oldest first. */
  function InFlight(eras: seq<Era>, p: Peer): seq<Text>
    requires RecvGen(p.gen) < |eras| && p.session.recvNum <= |eras[RecvGen(p.gen)].texts|
  {
    var r := RecvGen(p.gen);
    eras[r].texts[p.session.recvNum..] + if r + 2 < |eras| then eras[r + 2].texts else []
  }

  /** So far this peer was handed exactly the oldest of the texts sent to it, in order. */
  ghost predicate Ordered(eras: seq<Era>, p: Peer, sent: seq<Text>) {
    && RecvGen(p.gen) < |eras| && p.session.recvNum <= |eras[RecvGen(p.gen)].texts|
    && sent == p.inbox + InFlight(eras, p)
  }

  /** The message delivered is the oldest one still in flight to its receiver. */
  predicate Oldest(eras: seq<Era>, p: Peer, g: nat, num: nat)
    requires RecvGen(p.gen) < |eras|
  {
    var r := RecvGen(p.gen);
    || (g == r && num == p.session.recvNum)
    || (g > r && num == 0 && p.session.recvNum == |eras[r].texts|)
  }

  lemma SendOrdered(eras: seq<Era>, p: Peer, q: Peer, text: Text, ephemeral: Scalar)
    requires PeerOk(eras, p) && PeerOk(eras, q) && p.gen % 2 != q.gen % 2
    requires Ordered(eras, p, q.outbox) && Ordered(eras, q, p.outbox)
    ensures var c := PeerSends(eras, p, text, ephemeral);
      Ordered(c.eras, c.peer, q.outbox) && Ordered(c.eras, q, c.peer.outbox)
  {
    var c := PeerSends(eras, p, text, ephemeral);
    assert c.peer.session.recvNum == p.session.recvNum;
    hide Synced, Transmit;
    assert InFlight(c.eras, q) == InFlight(eras, q) + [text];
  }

  /** The reply hands over message num of era g and moves on to the number after it. */
  ghost predicate HandsOver(eras: seq<Era>, p: Peer, g: nat, num: nat, r: Reply)
    requires g < |eras|
  {
    && num < |eras[g].texts| && r.outcome == Success(eras[g].texts[num])
    && r.next.recvNum == num + 1
    && (r.next.dhr == p.session.dhr <==> g == RecvGen(p.gen))
  }

  lemma TakeUpOrdered(eras: seq<Era>, p: Peer, q: Peer, g: nat, num: nat, ephemeral: Scalar, r: Reply)
    requires |eras| - 2 <= p.gen < |eras| && |eras| - 2 <= q.gen < |eras| && p.gen % 2 != q.gen % 2
    requires Ordered(eras, p, q.outbox) && Ordered(eras, q, p.outbox) && g < |eras|
    requires g == RecvGen(p.gen) || 0 < p.gen < g == p.gen + 1
    requires Oldest(eras, p, g, num) && HandsOver(eras, p, g, num, r)
    ensures var c := TakeUp(eras, p, g, num, ephemeral, r);
      && InFlight(eras, p)[0] == eras[g].texts[num]
      && Ordered(c.eras, c.peer, q.outbox) && Ordered(c.eras, q, c.peer.outbox)
  {
    var c := TakeUp(eras, p, g, num, ephemeral, r);
    assert InFlight(eras, p) == [eras[g].texts[num]] + InFlight(c.eras, c.peer);
  }

  lemma OldestDecrypts(eras: seq<Era>, p: Peer, g: nat, num: nat, ephemeral: Scalar)
    requires Linked(eras) && PeerOk(eras, p) && CanDeliver(eras, p, g, num, ephemeral) && Oldest(eras, p, g, num)
    requires g == RecvGen(p.gen) || 0 < p.gen < g == p.gen + 1
    ensures HandsOver(eras, p, g, num, ReplyTo(eras, p, g, num, ephemeral))
  {
    if g == RecvGen(p.gen) {
      CurrentReply(eras, p, num, ephemeral);
    } else {
      NextReply(eras, p, num, ephemeral);
      assert eras[g].secret != eras[RecvGen(p.gen)].secret;
      OpensAtOne(eras[g].chain, ReplyTo(eras, p, g, num, ephemeral).next);
    }
  }

  lemma OpensAtOne(chain: Key, s: Session)
    requires Tracks(s, chain, {0}) && s.recvNum <= 1
    ensures s.recvNum == 1
  {
    assert 0 in {0};
  }

  lemma FifoDeliver(eras: seq<Era>, p: Peer, q: Peer, g: nat, num: nat, ephemeral: Scalar)
    requires Linked(eras) && PeerOk(eras, p) && PeerOk(eras, q) && p.gen % 2 != q.gen % 2
    requires CanDeliver(eras, p, g, num, ephemeral) && RecvGen(p.gen) < |eras| && Oldest(eras, p, g, num)
    requires Ordered(eras, p, q.outbox) && Ordered(eras, q, p.outbox)
    ensures var c := PeerReceives(eras, p, g, num, ephemeral);
      && HandsOver(eras, p, g, num, ReplyTo(eras, p, g, num, ephemeral))
      && Ordered(c.eras, c.peer, q.outbox) && Ordered(c.eras, q, c.peer.outbox)
  {
    if g != RecvGen(p.gen) {
      NewerIsNext(eras, p, g);
    }
    assert |eras| - 2 <= p.gen < |eras| && |eras| - 2 <= q.gen < |eras|;
    hide Linked, PeerOk, ReplyTo, HandsOver, Ordered;
    OldestDecrypts(eras, p, g, num, ephemeral);
    TakeUpOrdered(eras, p, q, g, num, ephemeral, ReplyTo(eras, p, g, num, ephemeral));
  }

  ghost predicate InOrder(net: Net) {
    && Ordered(net.eras, net.initiator, net.responder.outbox)
    && Ordered(net.eras, net.responder, net.initiator.outbox)
  }

  /** The event is a send, or a delivery of the oldest message in flight. */
  predicate Fifo(net: Net, e: Event) {
    e.Deliver? ==> RecvGen(net.Of(e.role).gen) < |net.eras| && Oldest(net.eras, net.Of(e.role), e.era, e.num)
  }

  lemma StartInOrder(i: Scalar, r: Scalar, dh2: Key, iMaxSkip: Uint32, rMaxSkip: Uint32)
    ensures InOrder(Start(i, r, dh2, iMaxSkip, rMaxSkip))
  {
  }

  /**
   * First in, first out: every delivery decrypts to the oldest text in flight, whatever
   * the skip limits, and each outbox stays the other inbox followed by what is in flight.
   */
  lemma FifoStep(net: Net, e: Event)
    requires InStep(net) && InOrder(net) && Possible(net, e) && Fifo(net, e)
    ensures !TakesUpOlder(net, e) && InOrder(Step(net, e))
    ensures e.Deliver? ==>
      HandsOver(net.eras, net.Of(e.role), e.era, e.num, ReplyTo(net.eras, net.Of(e.role), e.era, e.num, e.ephemeral))
  {
    var p, q := net.Of(e.role), net.Of(e.role.Other());
    if e.Send? {
      SendOrdered(net.eras, p, q, e.text, e.ephemeral);
    } else {
      FifoDeliver(net.eras, p, q, e.era, e.num, e.ephemeral);
    }
    hide Linked, PeerOk, Ordered, PeerSends, PeerReceives, ReplyTo, InFlight;
  }

  ghost predicate FifoRuns(net: Net, events: seq<Event>)
    requires InStep(net)
    decreases |events|
  {
    |events| > 0 ==>
      && Possible(net, events[0]) && Fifo(net, events[0]) && !TakesUpOlder(net, events[0])
      && (StepKeepsExactly(net, events[0]); FifoRuns(Step(net, events[0]), events[1..]))
  }

  /**
  Over a whole first-in-first-out run the texts decrypted are the texts encrypted, in order, up to those in
  flight.
  */
  lemma {:induction false} FifoRunAgrees(net: Net, events: seq<Event>)
    requires InStep(net) && InOrder(net) && FifoRuns(net, events)
    ensures Runs(net, events) && InOrder(After(net, events))
    decreases |events|
  {
    if |events| > 0 {
      StepKeepsExactly(net, events[0]);
      FifoStep(net, events[0]);
      hide InStep, InOrder, Step;
      FifoRunAgrees(Step(net, events[0]), events[1..]);
    }
  }
}
