/**
What an eavesdropper can derive: from the wire alone, and from a session that leaks in the
middle of a run. The program promises that neither earlier nor later messages suffer from
a leak; this says exactly which ones do.
*/
module RatchetSecrecy {
  import opened RatchetState
  import opened RatchetChain
  import opened RatchetProtocol
  import opened RatchetApart
  import opened RatchetRuns

  /** All public keys are known, besides the given scalars and keys; derivations only run forward. */
  predicate Derivable(k: Key, scalars: set<Scalar>, keys: set<Key>) {
    k in keys ||
    match k
    case ZeroKey => true
    case Shared(lo, hi) => lo in scalars || hi in scalars
    case InitRoot(dh1, dh2) => Derivable(dh1, scalars, keys) && Derivable(dh2, scalars, keys)
    case RootOf(root, dh) => Derivable(root, scalars, keys) && Derivable(dh, scalars, keys)
    case ChainOf(root, dh) => Derivable(root, scalars, keys) && Derivable(dh, scalars, keys)
    case NextChain(chain) => Derivable(chain, scalars, keys)
    case MessageKey(chain) => Derivable(chain, scalars, keys)
  }

  function KeyFor(eras: seq<Era>, g: nat, num: nat): Key
    requires g < |eras|
  {
    MessageKey(Advance(eras[g].chain, num))
  }

  /** A chain key is derivable from its start or from an earlier chain key that is known. */
  lemma {:induction false} AdvanceDerivable(chain: Key, n: nat, scalars: set<Scalar>, keys: set<Key>)
    ensures Derivable(Advance(chain, n), scalars, keys) <==>
      Derivable(chain, scalars, keys) || exists j :: 1 <= j <= n && Advance(chain, j) in keys
  {
    if n > 0 {
      AdvanceDerivable(chain, n - 1, scalars, keys);
    }
  }

  lemma {:induction false} AdvanceUnique(c: Key, d: Key, i: nat, j: nat)
    requires !c.NextChain? && !d.NextChain?
    ensures Advance(c, i) == Advance(d, j) <==> c == d && i == j
  {
    if i > 0 && j > 0 {
      AdvanceUnique(c, d, i - 1, j - 1);
    }
  }

  // --- what a peer still remembers of its own sending ---

  /** The last era up to generation gen on which its peer sent something. */
  function LastSpoken(eras: seq<Era>, gen: nat): (g: nat)
    requires gen < |eras|
    ensures g <= gen
  {
    if eras[gen].texts != [] || gen < 2 then gen else LastSpoken(eras, gen - 2)
  }

  /** The chain key a peer keeps besides the current one: the one its last message came from. */
  function Recalled(eras: seq<Era>, gen: nat): Key
    requires gen < |eras|
  {
    var g := LastSpoken(eras, gen);
    if |eras[g].texts| == 0 || (g == 2 && |eras[g].texts| == 1) then ZeroKey
    else Advance(eras[g].chain, |eras[g].texts| - 1)
  }

  ghost predicate Recalls(eras: seq<Era>, p: Peer)
    requires p.gen < |eras|
  {
    p.session.prevSendChain == Recalled(eras, p.gen) && (p.gen == 0 ==> p.session.sendChain == ZeroKey)
  }

  /** The keys of delivered messages, on whatever chain, are in store no more. */
  ghost predicate Forgets(eras: seq<Era>, p: Peer) {
    forall j, n: Uint32 :: 0 <= j < |eras| && j % 2 != p.gen % 2 && n in eras[j].delivered ==>
      (Base(eras[j].secret), n) !in p.session.skipped
  }

  /** In step, with a first root from both peers' keys, and with sessions that remember no more than they should. */
  ghost predicate Guarded(net: Net) {
    && InStep(net)
    && net.eras[1].root.InitRoot? && net.eras[1].root.dh1 == Agree(net.eras[0].secret, net.eras[1].secret)
    && (|net.eras| > 2 ==> net.eras[2].texts != [])
    && Recalls(net.eras, net.initiator) && Recalls(net.eras, net.responder)
    && Forgets(net.eras, net.initiator) && Forgets(net.eras, net.responder)
  }

  lemma StartGuarded(i: Scalar, r: Scalar, dh2: Key, iMaxSkip: Uint32, rMaxSkip: Uint32)
    requires i != r
    ensures Guarded(Start(i, r, dh2, iMaxSkip, rMaxSkip))
  {
    StartInStep(i, r, dh2, iMaxSkip, rMaxSkip);
  }

  lemma {:induction false} SameRecalled(eras: seq<Era>, eras1: seq<Era>, gen: nat)
    requires gen < |eras| && SameKeys(eras, eras1)
    requires forall h :: 0 <= h <= gen && h % 2 == gen % 2 ==> eras1[h].texts == eras[h].texts
    ensures LastSpoken(eras1, gen) == LastSpoken(eras, gen) && Recalled(eras1, gen) == Recalled(eras, gen)
  {
    if eras[gen].texts == [] && gen >= 2 {
      SameRecalled(eras, eras1, gen - 2);
    }
  }

  lemma SendRecalls(eras: seq<Era>, p: Peer, q: Peer, text: Text, ephemeral: Scalar)
    requires PeerOk(eras, p) && q.gen < |eras| && p.gen % 2 != q.gen % 2 && (p.gen == 0 ==> |eras| == 2)
    requires Recalls(eras, p) && Recalls(eras, q) && (|eras| > 2 ==> eras[2].texts != [])
    ensures var c := PeerSends(eras, p, text, ephemeral);
      && c.peer.gen < |c.eras| && q.gen < |c.eras| && Recalls(c.eras, c.peer) && Recalls(c.eras, q)
      && (|c.eras| > 2 ==> c.eras[2].texts != [])
  {
    hide Tracks, OldKeysOnly, Recalled;
    var c := PeerSends(eras, p, text, ephemeral);
    SameRecalled(eras, c.eras, q.gen);
    JustSpoke(c.eras, c.peer.gen);
  }

  lemma JustSpoke(eras: seq<Era>, gen: nat)
    requires gen < |eras| && eras[gen].texts != []
    ensures Recalled(eras, gen) ==
      if gen == 2 && |eras[gen].texts| == 1 then ZeroKey else Advance(eras[gen].chain, |eras[gen].texts| - 1)
  {
  }

  lemma ReceiveKeepsRecall(s: Session, w: Wire, ephemeral: Scalar)
    ensures var t := Receive(s, w, ephemeral).next;
      t.prevSendChain == s.prevSendChain && (t.dhr == s.dhr ==> t.sendChain == s.sendChain)
  {
    hide ReceiveOnChain;
    if w.Message? {
      if w.header.dhPub == s.dhr {
        OnChainKeeps(s, w.header, w.body);
      } else if Skip(s, w.header.prevChainCount).Success? {
        var s1 := Skip(s, w.header.prevChainCount).value;
        if s.recvNum <= w.header.prevChainCount {
          SkipKeepsRest(s, w.header.prevChainCount);
        }
        if Turn(s1, w.header.dhPub, ephemeral).Success? {
          OnChainKeeps(Turn(s1, w.header.dhPub, ephemeral).value, w.header, w.body);
        }
      }
    }
  }

  lemma TakeUpRecalls(eras: seq<Era>, p: Peer, q: Peer, g: nat, num: nat, ephemeral: Scalar, r: Reply)
    requires 2 <= |eras| && |eras| - 2 <= p.gen < |eras| && |eras| - 2 <= q.gen < |eras| && p.gen % 2 != q.gen % 2
    requires Recalls(eras, p) && Recalls(eras, q) && (|eras| > 2 ==> eras[2].texts != [])
    requires g == RecvGen(p.gen) < |eras| || 0 < p.gen < g == p.gen + 1 == |eras| - 1
    requires r.next.prevSendChain == p.session.prevSendChain
    requires r.next.dhr == p.session.dhr ==> r.next.sendChain == p.session.sendChain
    requires g == RecvGen(p.gen) ==> r.next.dhr == p.session.dhr
    ensures var c := TakeUp(eras, p, g, num, ephemeral, r);
      && c.peer.gen < |c.eras| && q.gen < |c.eras| && Recalls(c.eras, c.peer) && Recalls(c.eras, q)
      && (|c.eras| > 2 ==> c.eras[2].texts != [])
  {
    var c := TakeUp(eras, p, g, num, ephemeral, r);
    hide Recalled;
    SameRecalled(eras, c.eras, p.gen);
    SameRecalled(eras, c.eras, q.gen);
    if r.next.dhr != p.session.dhr {
      assert c.peer.gen == p.gen + 2;
      TurnRecalls(c.eras, p.gen);
    }
  }

  lemma TurnRecalls(eras: seq<Era>, gen: nat)
    requires gen + 2 < |eras| && eras[gen + 2].texts == []
    ensures Recalled(eras, gen + 2) == Recalled(eras, gen)
  {
  }

  lemma SyncedReceives(eras: seq<Era>, p: Peer)
    requires PeerOk(eras, p)
    ensures p.session.dhr == Base(eras[RecvGen(p.gen)].secret)
  {
  }

  lemma CurrentTurnsNot(s: Session, w: Wire, ephemeral: Scalar)
    requires w.Message? && w.header.dhPub == s.dhr
    ensures Receive(s, w, ephemeral).next.dhr == s.dhr
  {
    OnChainKeeps(s, w.header, w.body);
  }

  // --- what a peer has forgotten ---

  /** Keys are only added for numbers not reached yet, or under the key of the message. */
  ghost predicate AddsOnlyNew(s: Session, t: Session, point: Point) {
    forall k <- t.skipped :: k in s.skipped || (k.0 == s.dhr && k.1 >= s.recvNum) || k.0 == point
  }

  lemma {:induction false} SkipAdds(s: Session, until: Uint32)
    requires s.recvNum <= until
    ensures forall k <- SkipTo(s, until).skipped :: k in s.skipped || (k.0 == s.dhr && k.1 >= s.recvNum)
    decreases until - s.recvNum
  {
    if s.recvNum < until {
      SkipAdds(SkipOne(s), until);
    }
  }

  lemma OnChainAdds(s: Session, header: Header, body: Body)
    ensures forall k <- ReceiveOnChain(s, header, body).next.skipped :: k in s.skipped || k.0 == s.dhr
  {
    if s.recvNum <= header.msgNum {
      SkipAdds(s, header.msgNum);
    }
  }

  lemma ReceiveAdds(s: Session, w: Wire, ephemeral: Scalar)
    requires w.Message?
    ensures AddsOnlyNew(s, Receive(s, w, ephemeral).next, w.header.dhPub)
  {
    hide ReceiveOnChain, SkipTo;
    if w.header.dhPub == s.dhr {
      OnChainAdds(s, w.header, w.body);
    } else if Skip(s, w.header.prevChainCount).Success? {
      var s1 := Skip(s, w.header.prevChainCount).value;
      if s.recvNum <= w.header.prevChainCount {
        SkipAdds(s, w.header.prevChainCount);
      }
      if Turn(s1, w.header.dhPub, ephemeral).Success? {
        OnChainAdds(Turn(s1, w.header.dhPub, ephemeral).value, w.header, w.body);
      }
    }
  }

  /** Taking up message num of era g: the store holds no delivered number of that era, and little else is new. */
  lemma ForgetsMore(eras: seq<Era>, p: Peer, eras1: seq<Era>, p1: Peer, g: nat)
    requires Linked(eras) && PeerOk(eras, p) && Forgets(eras, p) && SameKeys(eras, eras1) && g < |eras|
    requires p1.gen % 2 == p.gen % 2 && g % 2 != p.gen % 2
    requires AddsOnlyNew(p.session, p1.session, Base(eras[g].secret))
    requires forall j :: 0 <= j < |eras| && j != g && j % 2 != p.gen % 2 ==> eras1[j].delivered == eras[j].delivered
    requires forall j :: |eras| <= j < |eras1| ==> eras1[j].delivered == {}
    requires forall n: Uint32 :: n in eras1[g].delivered ==> (Base(eras[g].secret), n) !in p1.session.skipped
    ensures Forgets(eras1, p1)
  {
    forall j, n: Uint32 | 0 <= j < |eras1| && j % 2 != p1.gen % 2 && n in eras1[j].delivered
      ensures (Base(eras1[j].secret), n) !in p1.session.skipped
    {
      if j != g {
        assert eras[j].secret != eras[g].secret;
        if Base(eras[j].secret) == p.session.dhr {
          assert j == RecvGen(p.gen);
          assert n < p.session.recvNum;
        }
      }
    }
  }

  lemma OtherForgets(eras: seq<Era>, q: Peer, eras1: seq<Era>)
    requires Forgets(eras, q) && SameKeys(eras, eras1)
    requires forall j :: 0 <= j < |eras| && j % 2 != q.gen % 2 ==> eras1[j].delivered == eras[j].delivered
    requires forall j :: |eras| <= j < |eras1| ==> eras1[j].delivered == {}
    ensures Forgets(eras1, q)
  {
  }

  lemma SendForgets(eras: seq<Era>, p: Peer, q: Peer, text: Text, ephemeral: Scalar)
    requires 2 <= |eras| && p.gen < |eras| && Forgets(eras, p) && Forgets(eras, q)
    ensures var c := PeerSends(eras, p, text, ephemeral); Forgets(c.eras, c.peer) && Forgets(c.eras, q)
  {
    var c := PeerSends(eras, p, text, ephemeral);
    OtherForgets(eras, q, c.eras);
  }

  lemma NothingDelivered(s: Session, chain: Key, delivered: set<nat>)
    requires Tracks(s, chain, delivered)
    ensures forall n: Uint32 :: n in delivered ==> (s.dhr, n) !in s.skipped
  {
  }

  lemma CurrentForgets(eras: seq<Era>, p: Peer, num: nat, ephemeral: Scalar)
    requires Linked(eras) && PeerOk(eras, p) && CanDeliver(eras, p, RecvGen(p.gen), num, ephemeral)
    ensures var g := RecvGen(p.gen);
      var c := PeerReceives(eras, p, g, num, ephemeral);
      && c.peer.gen == p.gen
      && (c == Change(eras, p) || c.eras == Mark(eras, g, num))
      && forall n: Uint32 :: n in c.eras[g].delivered ==> (Base(eras[g].secret), n) !in c.peer.session.skipped
  {
    hide Receive, Linked, Tracks, OldKeysOnly;
    var g := RecvGen(p.gen);
    var r := ReplyTo(eras, p, g, num, ephemeral);
    CurrentReply(eras, p, num, ephemeral);
    CurrentCases(eras, p, num, r);
    if Acceptable(p.session, eras[g].delivered, num) {
      NothingDelivered(r.next, eras[g].chain, eras[g].delivered + {num});
    } else {
      NothingDelivered(p.session, eras[g].chain, eras[g].delivered);
    }
  }

  lemma NextForgets(eras: seq<Era>, p: Peer, num: nat, ephemeral: Scalar)
    requires Linked(eras) && PeerOk(eras, p) && 0 < p.gen < |eras| - 1
    requires CanDeliver(eras, p, p.gen + 1, num, ephemeral)
    ensures var g := p.gen + 1;
      var c := PeerReceives(eras, p, g, num, ephemeral);
      && (c == Change(eras, p) ||
          exists ok :: c.eras == MarkIf(eras, g, num, ok) + [NextEra(eras[g], ephemeral, [])])
      && c.peer.gen % 2 == p.gen % 2
      && forall n: Uint32 :: n in c.eras[g].delivered ==> (Base(eras[g].secret), n) !in c.peer.session.skipped
  {
    hide Receive, Linked, Tracks, Synced;
    var g := p.gen + 1;
    var r := ReplyTo(eras, p, g, num, ephemeral);
    NextReply(eras, p, num, ephemeral);
    NextCases(eras, p, num, ephemeral, r);
    if num <= p.session.recvNum + p.session.maxSkip {
      NothingDelivered(r.next, eras[g].chain, if num <= p.session.maxSkip then {num} else {});
      assert PeerReceives(eras, p, g, num, ephemeral).eras ==
        MarkIf(eras, g, num, r.outcome.Success?) + [NextEra(eras[g], ephemeral, [])];
    }
  }

  lemma DeliveryForgets(net: Net, e: Event)
    requires Guarded(net) && Possible(net, e) && e.Deliver? && !FromOlderChain(net, e)
    ensures var c := PeerReceives(net.eras, net.Of(e.role), e.era, e.num, e.ephemeral);
      Forgets(c.eras, c.peer) && Forgets(c.eras, net.Of(e.role.Other()))
  {
    hide Receive, Recalls, Synced, Linked, TakeUp, Forgets;
    var eras, p, g := net.eras, net.Of(e.role), e.era;
    var c := PeerReceives(eras, p, g, e.num, e.ephemeral);
    ReceiveAdds(p.session, OnWire(eras, g, e.num), e.ephemeral);
    if g == RecvGen(p.gen) {
      CurrentForgets(eras, p, e.num, e.ephemeral);
    } else {
      NewerIsNext(eras, p, g);
      NextForgets(eras, p, e.num, e.ephemeral);
    }
    OtherForgets(eras, net.Of(e.role.Other()), c.eras);
    TakesReply(eras, p, g, e.num, e.ephemeral);
    ForgetsMore(eras, p, c.eras, c.peer, g);
  }

  lemma TakesReply(eras: seq<Era>, p: Peer, g: nat, num: nat, ephemeral: Scalar)
    requires CanDeliver(eras, p, g, num, ephemeral)
    ensures var c := PeerReceives(eras, p, g, num, ephemeral);
      c.peer.session == Receive(p.session, OnWire(eras, g, num), ephemeral).next
  {
  }

  lemma DeliveryRecalls(net: Net, e: Event)
    requires Guarded(net) && Possible(net, e) && e.Deliver? && !FromOlderChain(net, e)
    ensures Guarded(Step(net, e))
  {
    hide Linked, Synced, Receive, Recalls, Forgets;
    var p, q := net.Of(e.role), net.Of(e.role.Other());
    var r := ReplyTo(net.eras, p, e.era, e.num, e.ephemeral);
    DeliveryKeeps(net, e);
    ReceiveKeepsRecall(p.session, OnWire(net.eras, e.era, e.num), e.ephemeral);
    if e.era == RecvGen(p.gen) {
      SyncedReceives(net.eras, p);
      CurrentTurnsNot(p.session, OnWire(net.eras, e.era, e.num), e.ephemeral);
    } else {
      NewerIsNext(net.eras, p, e.era);
    }
    TakeUpRecalls(net.eras, p, q, e.era, e.num, e.ephemeral, r);
    DeliveryForgets(net, e);
    StepKeepsHistory(net, e);
  }

  lemma SendGuarded(net: Net, e: Event)
    requires Guarded(net) && Possible(net, e) && e.Send?
    ensures Guarded(Step(net, e))
  {
    hide Linked, Synced, Recalls, Transmit, PeerSends, Forgets;
    SendStepKeeps(net, e);
    SendRecalls(net.eras, net.Of(e.role), net.Of(e.role.Other()), e.text, e.ephemeral);
    SendForgets(net.eras, net.Of(e.role), net.Of(e.role.Other()), e.text, e.ephemeral);
    StepKeepsHistory(net, e);
  }

  lemma StepGuarded(net: Net, e: Event)
    requires Guarded(net) && Possible(net, e) && !TakesUpOlder(net, e)
    ensures Guarded(Step(net, e))
  {
    hide Guarded, Step;
    GuardedInStep(net);
    if FromOlderChain(net, e) {
      OlderStep(net, e);
    } else if e.Deliver? {
      DeliveryRecalls(net, e);
    } else {
      SendGuarded(net, e);
    }
  }

  lemma GuardedInStep(net: Net)
    requires Guarded(net)
    ensures InStep(net)
  {
    hide InStep;
  }

  lemma {:induction false} RunGuarded(net: Net, events: seq<Event>)
    requires Guarded(net) && Runs(net, events)
    ensures Guarded(After(net, events))
    decreases |events|
  {
    hide Guarded, Step;
    if |events| > 0 {
      GuardedInStep(net);
      StepGuarded(net, events[0]);
      RunGuarded(Step(net, events[0]), events[1..]);
    }
  }

  // --- the wire alone ---

  lemma ChainOfEra(eras: seq<Era>, g: nat)
    requires Linked(eras) && 2 <= g < |eras|
    ensures eras[g].chain == ChainOf(eras[g - 1].root, Agree(eras[g].secret, eras[g - 1].secret))
    ensures g > 2 ==> eras[g - 1].root == RootOf(eras[g - 2].root, Agree(eras[g - 1].secret, eras[g - 2].secret))
  {
    assert Follows(eras[g], eras[g - 1]);
    assert g > 2 ==> Follows(eras[g - 1], eras[g - 2]);
  }

  /**
   * From the wire alone no message key can be derived but those of the responder's first chain, which starts
   * from the all-zero key.
   */
  lemma WireKeepsSecretsExactly(net: Net, g: nat, num: nat, scalars: set<Scalar>)
    requires InStep(net) && 1 <= g < |net.eras|
    requires forall k <- scalars :: Unused(net.eras, k)
    ensures Derivable(KeyFor(net.eras, g, num), scalars, {}) <==> g == 1
  {
    hide Synced;
    var eras := net.eras;
    AdvanceDerivable(eras[g].chain, num, scalars, {});
    if g >= 2 {
      ChainOfEra(eras, g);
      assert eras[g] in eras && eras[g - 1] in eras;
    }
  }

  // --- a session that leaks ---

  function Leaked(s: Session): set<Key> {
    {s.root, s.sendChain, s.recvChain, s.prevSendChain} + s.skipped.Values
  }

  /** Number j of era g is where a chain key in the session of p stands. */
  predicate ChainAt(eras: seq<Era>, p: Peer, g: nat, j: nat)
    requires p.gen < |eras|
  {
    || (g == p.gen && j == p.session.sendNum)
    || (g == RecvGen(p.gen) && j == p.session.recvNum)
    || (g == LastSpoken(eras, p.gen) && j + 1 == |eras[g].texts| && !(g == 2 && j == 0))
  }

  predicate Stored(eras: seq<Era>, p: Peer, g: nat, num: nat) {
    g < |eras| && num < UINT32_RANGE && (Base(eras[g].secret), num) in p.session.skipped
  }

  /**
   * The message is of the responder's first chain, or of the chain the other peer opens next,
   * or not before the position of a chain key in the session, or its key is in store.
   */
  predicate Exposed(eras: seq<Era>, p: Peer, g: nat, num: nat)
    requires p.gen < |eras|
  {
    || g == 1
    || (p.gen > 0 && g == p.gen + 1)
    || (exists j :: 0 <= j <= num && ChainAt(eras, p, g, j))
    || Stored(eras, p, g, num)
  }

  /** The eras as they are later, with what the leaked session of p says of them. */
  ghost predicate Later(eras: seq<Era>, eras1: seq<Era>, p: Peer) {
    && Linked(eras) && Linked(eras1) && PeerOk(eras, p) && Recalls(eras, p) && SameKeys(eras, eras1)
    && eras[1].root.dh1 == Agree(eras[0].secret, eras[1].secret)
  }

  lemma SameChainSameEra(eras: seq<Era>, g: nat, h: nat, i: nat, j: nat)
    requires Linked(eras) && 2 <= g < |eras| && h < |eras|
    ensures Advance(eras[g].chain, i) == Advance(eras[h].chain, j) <==> g == h && i == j
  {
    ChainOfEra(eras, g);
    DepthOfEra(eras, g - 1);
    if h >= 2 {
      ChainOfEra(eras, h);
      DepthOfEra(eras, h - 1);
    }
    AdvanceUnique(eras[g].chain, eras[h].chain, i, j);
  }

  /** What the session's four keys are. */
  lemma KeysHeld(eras: seq<Era>, eras1: seq<Era>, p: Peer)
    requires Later(eras, eras1, p)
    ensures var s := p.session;
      var l := LastSpoken(eras, p.gen);
      && s.root == eras1[if p.gen == 0 then 1 else p.gen].root && s.dhs == eras1[p.gen].secret
      && s.sendChain == (if p.gen == 0 then ZeroKey else Advance(eras1[p.gen].chain, s.sendNum))
      && s.sendNum == |eras[p.gen].texts|
      && s.recvChain == Advance(eras1[RecvGen(p.gen)].chain, s.recvNum)
      && s.prevSendChain == (if |eras[l].texts| == 0 || (l == 2 && |eras[l].texts| == 1) then ZeroKey
                             else Advance(eras1[l].chain, |eras[l].texts| - 1))
  {
  }

  /** Chain keys advanced from the start of an era, or nothing at all. */
  lemma ChainShape(eras: seq<Era>, g: nat, n: nat)
    requires Linked(eras) && g < |eras|
    ensures var k := Advance(eras[g].chain, n); k.ZeroKey? || k.ChainOf? || k.NextChain?
  {
    if g >= 2 {
      ChainOfEra(eras, g);
    }
  }

  /** Of root keys and DH outputs the session holds only its own root key. */
  lemma OnlyOwnRoot(eras: seq<Era>, eras1: seq<Era>, p: Peer, k: Key)
    requires Later(eras, eras1, p) && (k.Shared? || k.RootOf? || k.InitRoot?)
    ensures k in Leaked(p.session) <==> k == p.session.root
  {
    hide Linked, LastSpoken, Recalls;
    KeysHeld(eras, eras1, p);
    var s := p.session;
    ChainShape(eras1, p.gen, s.sendNum);
    ChainShape(eras1, RecvGen(p.gen), s.recvNum);
    var l := LastSpoken(eras, p.gen);
    ChainShape(eras1, l, if |eras[l].texts| == 0 then 0 else |eras[l].texts| - 1);
    StoredAreMessageKeys(eras, p);
  }

  lemma StoredAreMessageKeys(eras: seq<Era>, p: Peer)
    requires PeerOk(eras, p)
    ensures forall k <- p.session.skipped.Values :: k.MessageKey?
  {
  }

  /** The chain keys of the session stand exactly where ChainAt says. */
  lemma ChainHeld(eras: seq<Era>, eras1: seq<Era>, p: Peer, g: nat, j: nat)
    requires Later(eras, eras1, p) && 2 <= g < |eras1|
    ensures Advance(eras1[g].chain, j) in Leaked(p.session) <==> ChainAt(eras, p, g, j)
  {
    hide Linked, Recalls, LastSpoken, Extends, RootDepth, Tracks, OldKeysOnly;
    KeysHeld(eras, eras1, p);
    var s := p.session;
    var k := Advance(eras1[g].chain, j);
    ChainShape(eras1, g, j);
    SameChainSameEra(eras1, g, 1, j, 0);
    StoredAreMessageKeys(eras, p);
    SameChainSameEra(eras1, g, p.gen, j, s.sendNum);
    SameChainSameEra(eras1, g, RecvGen(p.gen), j, s.recvNum);
    var l := LastSpoken(eras, p.gen);
    SameChainSameEra(eras1, g, l, j, if |eras[l].texts| == 0 then 0 else |eras[l].texts| - 1);
    assert eras1[1].chain == ZeroKey by { FirstChain(eras1); }
    RootIsNoChain(eras1, if p.gen == 0 then 1 else p.gen);
  }

  lemma FirstChain(eras: seq<Era>)
    requires Linked(eras)
    ensures eras[1].chain == ZeroKey
  {
  }

  lemma RootIsNoChain(eras: seq<Era>, g: nat)
    requires Linked(eras) && 1 <= g < |eras|
    ensures eras[g].root.InitRoot? || eras[g].root.RootOf?
  {
    assert g >= 2 ==> Follows(eras[g], eras[g - 1]);
  }

  /** The message keys of the session are those in store. */
  lemma MessageHeld(eras: seq<Era>, eras1: seq<Era>, p: Peer, g: nat, num: nat)
    requires Later(eras, eras1, p) && 2 <= g < |eras1| && num < UINT32_RANGE
    ensures KeyFor(eras1, g, num) in Leaked(p.session) <==> Stored(eras, p, g, num)
  {
    hide Linked, Recalls, LastSpoken, Tracks, OldKeysOnly;
    KeysHeld(eras, eras1, p);
    var s := p.session;
    ChainShape(eras1, p.gen, s.sendNum);
    ChainShape(eras1, RecvGen(p.gen), s.recvNum);
    var l := LastSpoken(eras, p.gen);
    ChainShape(eras1, l, if |eras[l].texts| == 0 then 0 else |eras[l].texts| - 1);
    RootIsNoChain(eras1, if p.gen == 0 then 1 else p.gen);
    assert KeyFor(eras1, g, num) in Leaked(s) <==> KeyFor(eras1, g, num) in s.skipped.Values;
    if Stored(eras, p, g, num) {
      StoredIs(eras, p, g, num);
    }
    if KeyFor(eras1, g, num) in s.skipped.Values {
      OnlyStored(eras, eras1, p, g, num);
    }
  }

  lemma OnlyStored(eras: seq<Era>, eras1: seq<Era>, p: Peer, g: nat, num: nat)
    requires Later(eras, eras1, p) && 2 <= g < |eras1| && num < UINT32_RANGE
    requires KeyFor(eras1, g, num) in p.session.skipped.Values
    ensures Stored(eras, p, g, num)
  {
    hide Linked, Recalls, Tracks;
    var k :| k in p.session.skipped && p.session.skipped[k] == KeyFor(eras1, g, num);
    var j :| 0 <= j <= RecvGen(p.gen) && j % 2 == RecvGen(p.gen) % 2 && KeyOfEra(p.session, k, eras[j]);
    SameChainSameEra(eras1, g, j, num, k.1);
    assert k == (Base(eras[g].secret), num);
  }

  lemma StoredIs(eras: seq<Era>, p: Peer, g: nat, num: nat)
    requires Linked(eras) && PeerOk(eras, p) && Stored(eras, p, g, num)
    ensures p.session.skipped[(Base(eras[g].secret), num)] == KeyFor(eras, g, num)
  {
    var k := (Base(eras[g].secret), num as Uint32);
    var j :| 0 <= j <= RecvGen(p.gen) && j % 2 == RecvGen(p.gen) % 2 && KeyOfEra(p.session, k, eras[j]);
    assert j == g;
  }

  /** The root key before the one in the session cannot be derived. */
  lemma OlderRootSafe(eras: seq<Era>, eras1: seq<Era>, p: Peer, scalars: set<Scalar>)
    requires Later(eras, eras1, p) && p.gen >= 2
    requires forall g :: 0 <= g < |eras1| && eras1[g].secret in scalars ==> g == p.gen
    ensures !Derivable(eras1[p.gen - 1].root, scalars, Leaked(p.session))
  {
    hide Recalls, Synced;
    var g := p.gen;
    var root, dh := eras1[g - 1].root, Agree(eras1[g - 1].secret, eras1[g - 2].secret);
    DepthOfEra(eras1, g);
    DepthOfEra(eras1, g - 1);
    KeysHeld(eras, eras1, p);
    RootIsNoChain(eras1, g - 1);
    OnlyOwnRoot(eras, eras1, p, root);
    OnlyOwnRoot(eras, eras1, p, dh);
    RootIsNoChain(eras1, g);
    assert !Derivable(dh, scalars, Leaked(p.session));
    if g > 2 {
      assert Follows(eras1[g - 1], eras1[g - 2]);
    }
  }

  /** Of the chains' own starting keys only the one the other peer opens next can be derived. */
  lemma ChainStart(eras: seq<Era>, eras1: seq<Era>, p: Peer, g: nat, scalars: set<Scalar>)
    requires Later(eras, eras1, p) && 2 <= g < |eras1| && p.session.dhs in scalars
    requires forall h :: 0 <= h < |eras1| && eras1[h].secret in scalars ==> h == p.gen
    ensures Derivable(eras1[g].chain, scalars, Leaked(p.session)) <==>
      ChainAt(eras, p, g, 0) || (p.gen > 0 && g == p.gen + 1)
  {
    hide Recalls, Synced, LastSpoken, Leaked;
    KeysHeld(eras, eras1, p);
    ChainOfEra(eras1, g);
    ChainHeld(eras, eras1, p, g, 0);
    var root, dh := eras1[g - 1].root, Agree(eras1[g].secret, eras1[g - 1].secret);
    OnlyOwnRoot(eras, eras1, p, dh);
    OwnRootHeld(p.session);
    RootIsNoChain(eras1, if p.gen == 0 then 1 else p.gen);
    assert dh.Shared? && dh != p.session.root;
    assert Derivable(dh, scalars, Leaked(p.session)) <==> p.gen == g || p.gen == g - 1;
    if p.gen == g {
      OlderRootSafe(eras, eras1, p, scalars);
    }
  }

  lemma OwnRootHeld(s: Session)
    ensures s.root in Leaked(s)
  {
  }

  /** One leaked session, and exactly the exposed messages of the conversation can be read, whatever it adds later. */
  lemma ExposedExactly(eras: seq<Era>, eras1: seq<Era>, p: Peer, g: nat, num: nat, scalars: set<Scalar>)
    requires Later(eras, eras1, p) && 1 <= g < |eras1| && num < UINT32_RANGE && p.session.dhs in scalars
    requires forall h :: 0 <= h < |eras1| && eras1[h].secret in scalars ==> h == p.gen
    ensures Derivable(KeyFor(eras1, g, num), scalars, Leaked(p.session)) <==> Exposed(eras, p, g, num)
  {
    hide Later, Leaked, ChainAt, Stored;
    FirstChainLater(eras, eras1, p);
    var chain := eras1[g].chain;
    AdvanceDerivable(chain, num, scalars, Leaked(p.session));
    if g >= 2 {
      MessageHeld(eras, eras1, p, g, num);
      ChainStart(eras, eras1, p, g, scalars);
      forall j | 0 <= j <= num ensures Advance(chain, j) in Leaked(p.session) <==> ChainAt(eras, p, g, j) {
        ChainHeld(eras, eras1, p, g, j);
      }
      if j :| 1 <= j <= num && ChainAt(eras, p, g, j) {
        assert exists i :: 1 <= i <= num && Advance(chain, i) in Leaked(p.session);
      }
    }
  }

  lemma FirstChainLater(eras: seq<Era>, eras1: seq<Era>, p: Peer)
    requires Later(eras, eras1, p)
    ensures p.gen < |eras| && 2 <= |eras1| && eras1[1].chain == ZeroKey
  {
  }

  /**
   * If the session of a peer leaks in the middle of a run, exactly the exposed messages can be
   * read, among those sent before and those either peer sends in any run that follows.
   */
  lemma LeakExposesExactly(net: Net, role: Role, events: seq<Event>, g: nat, num: nat, scalars: set<Scalar>)
    requires Guarded(net) && Runs(net, events)
    requires var eras1 := After(net, events).eras;
      && 1 <= g < |eras1| && num < |eras1[g].texts|
      && forall k <- scalars :: Unused(eras1, k)
    ensures var p, eras1 := net.Of(role), After(net, events).eras;
      && p.gen < |net.eras|
      && (Derivable(KeyFor(eras1, g, num), scalars + {p.session.dhs}, Leaked(p.session)) <==>
            Exposed(net.eras, p, g, num))
  {
    hide Exposed, Derivable, Leaked, PeerOk, Recalls, Guarded, After, Runs, Follows;
    GuardedInStep(net);
    var p, eras1 := net.Of(role), After(net, events).eras;
    LaterHolds(net, role, events);
    var known := scalars + {p.session.dhs};
    OwnScalar(net.eras, p);
    assert eras1[p.gen].secret == p.session.dhs;
    forall h | 0 <= h < |eras1| && eras1[h].secret in known ensures h == p.gen {
      assert eras1[h] in eras1;
    }
    assert WellSized(eras1[g]);
    ExposedExactly(net.eras, eras1, p, g, num, known);
  }

  lemma LaterHolds(net: Net, role: Role, events: seq<Event>)
    requires Guarded(net) && Runs(net, events)
    ensures Later(net.eras, After(net, events).eras, net.Of(role))
  {
    hide Synced, Recalls, After, Runs;
    RunKeepsHistory(net, events);
  }

  lemma OwnScalar(eras: seq<Era>, p: Peer)
    requires PeerOk(eras, p)
    ensures p.gen < |eras| && p.session.dhs == eras[p.gen].secret
  {
  }

  // --- what that means for the messages of one peer ---

  lemma {:induction false} SpokenParity(eras: seq<Era>, gen: nat)
    requires gen < |eras|
    ensures LastSpoken(eras, gen) % 2 == gen % 2
  {
    if eras[gen].texts == [] && gen >= 2 {
      SpokenParity(eras, gen - 2);
    }
  }

  lemma StoredParity(eras: seq<Era>, p: Peer, g: nat, num: nat)
    requires Linked(eras) && PeerOk(eras, p) && Stored(eras, p, g, num)
    ensures g <= RecvGen(p.gen) && g % 2 == RecvGen(p.gen) % 2
  {
    var k := (Base(eras[g].secret), num as Uint32);
    var j :| 0 <= j <= RecvGen(p.gen) && j % 2 == RecvGen(p.gen) % 2 && KeyOfEra(p.session, k, eras[j]);
    assert j == g;
  }

  /**
   * Of the messages the peer itself has sent, past the responder's first chain, the leak exposes
   * exactly the last one, since the chain key it came from is kept; the initiator's very first
   * message, for which no chain key was there to keep, is the exception.
   */
  lemma SentExposedExactly(net: Net, role: Role, g: nat, num: nat)
    requires InStep(net) && 2 <= g <= net.Of(role).gen && g % 2 == net.Of(role).gen % 2
    requires num < |net.eras[g].texts|
    ensures var p := net.Of(role);
      Exposed(net.eras, p, g, num) <==>
        g == LastSpoken(net.eras, p.gen) && num + 1 == |net.eras[g].texts| && !(g == 2 && num == 0)
  {
    hide Tracks, OldKeysOnly, Linked, Stored, Advance, Recalls;
    var p := net.Of(role);
    if Stored(net.eras, p, g, num) {
      StoredParity(net.eras, p, g, num);
    }
    var last := |net.eras[g].texts| - 1;
    assert g == LastSpoken(net.eras, p.gen) ==> ChainAt(net.eras, p, g, last) || (g == 2 && last == 0);
  }

  /** No message the peer has decrypted is exposed, past the responder's first chain. */
  lemma ReceivedSafe(net: Net, role: Role, g: nat, num: nat)
    requires Guarded(net) && 2 <= g < |net.eras| && g % 2 != net.Of(role).gen % 2
    requires num in net.eras[g].delivered
    ensures net.Of(role).gen < |net.eras| && !Exposed(net.eras, net.Of(role), g, num)
  {
    hide OldKeysOnly, Recalls, Linked, Advance, LastSpoken;
    var p := net.Of(role);
    SpokenParity(net.eras, p.gen);
    assert WellSized(net.eras[g]) by { Sized(net.eras, g); }
  }

  lemma Sized(eras: seq<Era>, g: nat)
    requires Linked(eras) && g < |eras|
    ensures WellSized(eras[g])
  {
  }

  /** The session heals: two generations on, nothing is exposed any more. */
  lemma HealedAfter(net: Net, role: Role, g: nat, num: nat)
    requires InStep(net) && g >= net.Of(role).gen + 2
    ensures !Exposed(net.eras, net.Of(role), g, num)
  {
    hide Tracks, OldKeysOnly;
  }
}
