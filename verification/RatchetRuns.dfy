/**
Whole runs of two ratchet peers: the invariant of every run, exactly which deliveries
decrypt, and what one message of an older chain does.
*/
module RatchetRuns {
  import opened Common
  import opened RatchetState
  import opened RatchetChain
  import opened RatchetProtocol
  import opened RatchetApart

  datatype Role = Initiator | Responder {
    function Other(): Role {
      if this == Initiator then Responder else Initiator
    }
  }

  datatype Net = Net(eras: seq<Era>, initiator: Peer, responder: Peer) {
    function Of(role: Role): Peer {
      if role == Initiator then initiator else responder
    }

    function After(role: Role, c: Change): Net {
      if role == Initiator then Net(c.eras, c.peer, responder) else Net(c.eras, initiator, c.peer)
    }
  }

  datatype Event =
    | Send(role: Role, text: Text, ephemeral: Scalar)
    | Deliver(role: Role, era: nat, num: nat, ephemeral: Scalar)

  function Start(i: Scalar, r: Scalar, dh2: Key, iMaxSkip: Uint32, rMaxSkip: Uint32): Net {
    Net(InitialEras(i, r, dh2),
        Peer(InitialSession(i, r, dh2, iMaxSkip, true), 0, [], []),
        Peer(InitialSession(r, i, dh2, rMaxSkip, false), 1, [], []))
  }

  predicate Possible(net: Net, e: Event) {
    match e
    case Send(role, _, ephemeral) => CanSend(net.eras, net.Of(role), ephemeral)
    case Deliver(role, g, num, ephemeral) => CanDeliver(net.eras, net.Of(role), g, num, ephemeral)
  }

  /** The message belongs to a chain older than the one its receiver is on. */
  predicate FromOlderChain(net: Net, e: Event) {
    e.Deliver? && e.era < RecvGen(net.Of(e.role).gen)
  }

  /** Such a message is taken up unless it is further ahead than the skip limit. */
  predicate TakesUpOlder(net: Net, e: Event) {
    var s := net.Of(e.role).session;
    FromOlderChain(net, e) && e.num <= s.recvNum + s.maxSkip
  }

  function Step(net: Net, e: Event): Net
    requires InStep(net) && Possible(net, e)
  {
    var p := net.Of(e.role);
    net.After(e.role, if e.Send? then PeerSends(net.eras, p, e.text, e.ephemeral)
                      else PeerReceives(net.eras, p, e.era, e.num, e.ephemeral))
  }

  ghost predicate InStep(net: Net) {
    && Linked(net.eras)
    && PeerOk(net.eras, net.initiator) && PeerOk(net.eras, net.responder)
    && net.initiator.gen % 2 == 0 && net.responder.gen % 2 == 1
  }

  /** Peers that used each other's public keys start with the same root key, as the two halves of Start. */
  lemma HandshakeAgrees(i: Scalar, r: Scalar, iIdentity: Scalar, rIdentity: Scalar)
    ensures var dh2 := Agree(iIdentity, rIdentity);
      var net := Start(i, r, dh2, DEFAULT_MAX_SKIP, DEFAULT_MAX_SKIP);
      && Init(i, Base(r), iIdentity, Base(rIdentity), true) == Success(net.initiator.session)
      && Init(r, Base(i), rIdentity, Base(iIdentity), false) == Success(net.responder.session)
  {
  }

  lemma StartInStep(i: Scalar, r: Scalar, dh2: Key, iMaxSkip: Uint32, rMaxSkip: Uint32)
    requires i != r
    ensures InStep(Start(i, r, dh2, iMaxSkip, rMaxSkip))
  {
  }

  lemma SendStepKeeps(net: Net, e: Event)
    requires InStep(net) && Possible(net, e) && e.Send?
    ensures InStep(Step(net, e))
  {
    hide Linked, Synced, PeerSends;
    SendKeeps(net.eras, net.Of(e.role), net.Of(e.role.Other()), e.text, e.ephemeral);
  }

  lemma DeliveryKeeps(net: Net, e: Event)
    requires InStep(net) && Possible(net, e) && e.Deliver? && !FromOlderChain(net, e)
    ensures InStep(Step(net, e))
  {
    hide Linked, Synced, ReplyTo, ReceivedAs, NextReceivedAs, TakeUp;
    var p, q := net.Of(e.role), net.Of(e.role.Other());
    var r := ReplyTo(net.eras, p, e.era, e.num, e.ephemeral);
    if e.era == RecvGen(p.gen) {
      CurrentReply(net.eras, p, e.num, e.ephemeral);
      CurrentKeeps(net.eras, p, q, e.num, e.ephemeral, r);
    } else {
      NewerIsNext(net.eras, p, e.era);
      NextReply(net.eras, p, e.num, e.ephemeral);
      NextKeeps(net.eras, p, q, e.num, e.ephemeral, r);
    }
  }

  // --- a message of an older chain ---

  /** An older generation of the other peer is not the one the conversation goes on with. */
  lemma OlderStrays(net: Net, e: Event)
    requires InStep(net) && Possible(net, e) && FromOlderChain(net, e)
    ensures Strays(net.eras, net.Of(e.role).gen, net.eras[e.era].secret)
  {
  }

  /** The branch of root keys that a peer starts by taking up the message. */
  function BranchOf(net: Net, e: Event): Key
    requires net.Of(e.role).gen < |net.eras| && e.Deliver? && e.era < |net.eras|
  {
    BranchAt(net.eras, net.Of(e.role).gen, net.eras[e.era].secret)
  }

  /**
   * A message of an older chain never decrypts. If it is further ahead than the skip limit
   * the session is unchanged; otherwise it has left the conversation for a branch of its own.
   */
  lemma OlderChainLoses(net: Net, e: Event)
    requires InStep(net) && Possible(net, e) && FromOlderChain(net, e)
    ensures var s := net.Of(e.role).session;
      var r := ReplyTo(net.eras, net.Of(e.role), e.era, e.num, e.ephemeral);
      && r.outcome.Failure?
      && (if TakesUpOlder(net, e) then On(r.next, BranchOf(net, e)) && KeyFrom(r.next, e.ephemeral) else r.next == s)
  {
    hide On, SealedOn, Receive;
    var p := net.Of(e.role);
    OlderStrays(net, e);
    assert e.era >= 1;
    var w := OnWire(net.eras, e.era, e.num);
    WireOffBranch(net.eras, p.gen, net.eras[e.era].secret, e.era, e.num);
    BranchesOff(p.session, w.header, w.body, net.eras[e.era].secret, e.ephemeral);
  }

  lemma OnBranchIsApart(eras: seq<Era>, p: Peer, g: nat, num: nat, ephemeral: Scalar, r: Reply)
    requires Linked(eras) && PeerOk(eras, p) && 1 <= g < RecvGen(p.gen)
    requires r.outcome.Failure? && On(r.next, BranchAt(eras, p.gen, eras[g].secret))
    ensures var c := TakeUp(eras, p, g, num, ephemeral, r); !PeerOk(c.eras, c.peer)
  {
    DepthOfEra(eras, p.gen);
    ExtendsDeeper(r.next.root, BranchAt(eras, p.gen, eras[g].secret));
  }

  /** A message of an older chain that is too far ahead leaves everything as it was; any other ends the agreement. */
  lemma OlderStep(net: Net, e: Event)
    requires InStep(net) && Possible(net, e) && FromOlderChain(net, e)
    ensures if TakesUpOlder(net, e) then !InStep(Step(net, e)) else Step(net, e) == net
  {
    hide On, Receive, OnWire, Synced;
    OlderChainLoses(net, e);
    var p := net.Of(e.role);
    var r := ReplyTo(net.eras, p, e.era, e.num, e.ephemeral);
    if TakesUpOlder(net, e) {
      OnBranchIsApart(net.eras, p, e.era, e.num, e.ephemeral, r);
    } else {
      assert p.inbox + [] == p.inbox;
    }
  }

  // --- runs ---

  /** Exactly the steps that do not take up a message of an older chain keep the two peers in step. */
  lemma StepKeepsExactly(net: Net, e: Event)
    requires InStep(net) && Possible(net, e)
    ensures InStep(Step(net, e)) <==> !TakesUpOlder(net, e)
  {
    hide InStep, Step;
    if FromOlderChain(net, e) {
      OlderStep(net, e);
    } else if e.Send? {
      SendStepKeeps(net, e);
    } else {
      DeliveryKeeps(net, e);
    }
  }

  ghost predicate Runs(net: Net, events: seq<Event>)
    requires InStep(net)
    decreases |events|
  {
    |events| > 0 ==>
      && Possible(net, events[0]) && !TakesUpOlder(net, events[0])
      && (StepKeepsExactly(net, events[0]); Runs(Step(net, events[0]), events[1..]))
  }

  ghost function After(net: Net, events: seq<Event>): (r: Net)
    requires InStep(net) && Runs(net, events)
    ensures InStep(r)
    decreases |events|
  {
    if |events| == 0 then net
    else
      StepKeepsExactly(net, events[0]);
      After(Step(net, events[0]), events[1..])
  }

  // --- which deliveries decrypt ---

  /** Whatever the network delivers, a message decrypts exactly when it is decryptable, and always to the text sent. */
  lemma DecryptsExactly(net: Net, e: Event)
    requires InStep(net) && e.Deliver? && Possible(net, e)
    ensures var p := net.Of(e.role);
      var outcome := ReplyTo(net.eras, p, e.era, e.num, e.ephemeral).outcome;
      && (outcome.Success? <==> Decryptable(net.eras, p, e.era, e.num))
      && (outcome.Success? ==> outcome.value == net.eras[e.era].texts[e.num])
  {
    var p := net.Of(e.role);
    if e.era < RecvGen(p.gen) {
      OlderChainLoses(net, e);
    } else if e.era == RecvGen(p.gen) {
      CurrentReply(net.eras, p, e.num, e.ephemeral);
    } else {
      NewerIsNext(net.eras, p, e.era);
      NextReply(net.eras, p, e.num, e.ephemeral);
    }
  }

  /** Era by era, keys stay, texts are only added and nothing delivered is ever forgotten. */
  ghost predicate KeepsHistory(eras: seq<Era>, eras1: seq<Era>) {
    && |eras| <= |eras1|
    && forall g :: 0 <= g < |eras| ==>
         && eras[g].secret == eras1[g].secret && eras[g].root == eras1[g].root && eras[g].chain == eras1[g].chain
         && eras[g].texts <= eras1[g].texts
         && eras[g].delivered <= eras1[g].delivered
  }

  lemma StepKeepsHistory(net: Net, e: Event)
    requires InStep(net) && Possible(net, e)
    ensures KeepsHistory(net.eras, Step(net, e).eras) && |Step(net, e).eras| <= |net.eras| + 1
  {
    var p := net.Of(e.role);
    var eras := net.eras;
    hide Synced, Linked, ReplyTo, Transmit;
    assert e.Send? ==> Step(net, e).eras == PeerSends(eras, p, e.text, e.ephemeral).eras;
    assert e.Deliver? ==> Step(net, e).eras == PeerReceives(eras, p, e.era, e.num, e.ephemeral).eras;
  }

  lemma KeepsTransitively(a: seq<Era>, b: seq<Era>, c: seq<Era>)
    requires KeepsHistory(a, b) && KeepsHistory(b, c)
    ensures KeepsHistory(a, c)
  {
  }

  lemma KeepsItself(eras: seq<Era>)
    ensures KeepsHistory(eras, eras)
  {
  }

  lemma {:induction false} RunKeepsHistory(net: Net, events: seq<Event>)
    requires InStep(net) && Runs(net, events)
    ensures KeepsHistory(net.eras, After(net, events).eras)
    decreases |events|
  {
    hide InStep, Step, KeepsHistory;
    if |events| > 0 {
      StepKeepsExactly(net, events[0]);
      StepKeepsHistory(net, events[0]);
      RunKeepsHistory(Step(net, events[0]), events[1..]);
      KeepsTransitively(net.eras, Step(net, events[0]).eras, After(net, events).eras);
    } else {
      KeepsItself(net.eras);
    }
  }

  lemma DecryptedIsMarked(net: Net, e: Event)
    requires InStep(net) && e.Deliver? && Possible(net, e) && Decryptable(net.eras, net.Of(e.role), e.era, e.num)
    ensures var eras := Step(net, e).eras; e.era < |eras| && e.num in eras[e.era].delivered
  {
    DecryptsExactly(net, e);
  }

  lemma RefusedOnceDelivered(net: Net, e: Event)
    requires InStep(net) && e.Deliver? && Possible(net, e) && e.num in net.eras[e.era].delivered
    ensures ReplyTo(net.eras, net.Of(e.role), e.era, e.num, e.ephemeral).outcome.Failure?
  {
    hide ReplyTo, Step, Linked, Synced;
    DecryptsExactly(net, e);
    NotDecryptable(net, e);
  }

  lemma NotDecryptable(net: Net, e: Event)
    requires InStep(net) && e.Deliver? && Possible(net, e) && e.num in net.eras[e.era].delivered
    ensures !Decryptable(net.eras, net.Of(e.role), e.era, e.num)
  {
    var p := net.Of(e.role);
    if e.era > RecvGen(p.gen) {
      NewerIsNext(net.eras, p, e.era);
    }
  }

  /** A message that decrypted once is refused ever after, whatever happens in between. */
  lemma NeverTwice(net: Net, g: nat, num: nat, events: seq<Event>, again: Event)
    requires InStep(net) && Runs(net, events) && g < |net.eras| && num in net.eras[g].delivered
    requires again.Deliver? && again.era == g && again.num == num && Possible(After(net, events), again)
    ensures var net1 := After(net, events);
      ReplyTo(net1.eras, net1.Of(again.role), g, num, again.ephemeral).outcome.Failure?
  {
    hide After, InStep, ReplyTo;
    RunKeepsHistory(net, events);
    RefusedOnceDelivered(After(net, events), again);
  }

  // --- the skip limit sessions start with ---

  /** The net as the two constructors leave it. */
  ghost function Introduced(i: Scalar, r: Scalar, iIdentity: Scalar, rIdentity: Scalar): (net: Net)
    requires i != r
    ensures InStep(net)
  {
    HandshakeAgrees(i, r, iIdentity, rIdentity);
    StartInStep(i, r, Agree(iIdentity, rIdentity), DEFAULT_MAX_SKIP, DEFAULT_MAX_SKIP);
    var first := Init(i, Base(r), iIdentity, Base(rIdentity), true).value;
    var second := Init(r, Base(i), rIdentity, Base(iIdentity), false).value;
    Net(InitialEras(i, r, Agree(iIdentity, rIdentity)), Peer(first, 0, [], []), Peer(second, 1, [], []))
  }

  /** Nothing was received yet, and messages up to number 1000 may be first. */
  ghost predicate Unheard(net: Net) {
    && |net.eras| <= 3
    && net.initiator.gen in {0, 2} && net.responder.gen == 1
    && net.initiator.session.recvNum == 0 && net.responder.session.recvNum == 0
    && net.initiator.session.maxSkip == 1000 && net.responder.session.maxSkip == 1000
    && forall g :: 0 <= g < |net.eras| ==> net.eras[g].delivered == {}
  }

  lemma SendStaysUnheard(net: Net, e: Event)
    requires InStep(net) && Possible(net, e) && e.Send? && Unheard(net)
    ensures Unheard(Step(net, e))
  {
  }

  lemma {:induction false} SendsStayUnheard(net: Net, events: seq<Event>)
    requires InStep(net) && Runs(net, events) && Unheard(net) && forall e <- events :: e.Send?
    ensures Unheard(After(net, events))
    decreases |events|
  {
    hide InStep, Step, Unheard;
    if |events| > 0 {
      StepKeepsExactly(net, events[0]);
      SendStaysUnheard(net, events[0]);
      SendsStayUnheard(Step(net, events[0]), events[1..]);
    }
  }

  /** With the limit sessions start with, the first message to arrive decrypts exactly up to number 1000. */
  lemma FirstGapExactly(i: Scalar, r: Scalar, iIdentity: Scalar, rIdentity: Scalar, events: seq<Event>, e: Event)
    requires i != r
    requires Runs(Introduced(i, r, iIdentity, rIdentity), events)
    requires forall e <- events :: e.Send?
    requires e.Deliver? && Possible(After(Introduced(i, r, iIdentity, rIdentity), events), e)
    ensures var net := After(Introduced(i, r, iIdentity, rIdentity), events);
      ReplyTo(net.eras, net.Of(e.role), e.era, e.num, e.ephemeral).outcome.Success? <==> e.num <= 1000
  {
    hide InStep, ReplyTo, After, Runs;
    var net0 := Introduced(i, r, iIdentity, rIdentity);
    assert Unheard(net0);
    SendsStayUnheard(net0, events);
    var net := After(net0, events);
    DecryptsExactly(net, e);
    NoTextsAtStart(net);
  }

  lemma NoTextsAtStart(net: Net)
    requires InStep(net)
    ensures net.eras[0].texts == []
  {
  }
}
