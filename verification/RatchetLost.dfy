/**
After a peer took up a message of an older chain: whatever the network still delivers to
either peer and whatever both send, what one sends from then on never decrypts for the
other, and the peer that was lost first decrypts nothing at all.
*/
module RatchetLost {
  import opened Common
  import opened RatchetState
  import opened RatchetProtocol
  import opened RatchetApart
  import opened RatchetRuns

  /** A peer that left the conversation by turning to the key of scalar `to`, and what it has sent since. */
  datatype Adrift = Adrift(session: Session, to: Scalar, said: seq<Wire>)

  /**
   * The net shows the conversation itself, in which a peer that left stands still; `role` left
   * it first.
   */
  datatype Wreck = Wreck(role: Role, net: Net, lost: Adrift, other: Option<Adrift>) {
    function Left(r: Role): Option<Adrift> {
      if r == role then Some(lost) else other
    }

    function With(r: Role, a: Adrift): Wreck {
      if r == role then this.(lost := a) else this.(other := Some(a))
    }

    function SessionOf(r: Role): Session {
      if Left(r).Some? then Left(r).value.session else net.Of(r).session
    }
  }

  /** A message, sent before its sender left the conversation or since. */
  datatype Posted = Before(era: nat, num: nat) | Since(i: nat)

  datatype LostEvent =
    | Says(role: Role, text: Text, ephemeral: Scalar)
    | Given(role: Role, m: Posted, ephemeral: Scalar)

  /** The message is one the other peer sent. */
  predicate SentTo(w: Wreck, r: Role, m: Posted) {
    match m
    case Before(g, num) =>
      && g < |w.net.eras| && num < |w.net.eras[g].texts| && num < UINT32_RANGE
      && g % 2 != w.net.Of(r).gen % 2
    case Since(i) => w.Left(r.Other()).Some? && i < |w.Left(r.Other()).value.said|
  }

  function WireOf(w: Wreck, r: Role, m: Posted): Wire
    requires SentTo(w, r, m)
  {
    match m
    case Before(g, num) => OnWire(w.net.eras, g, num)
    case Since(i) => w.Left(r.Other()).value.said[i]
  }

  /** New keys are drawn unlike those of the conversation and those of the lost peer. */
  predicate Fresh(w: Wreck, e: Scalar) {
    && Unused(w.net.eras, e)
    && e != w.lost.session.dhs
    && forall m <- w.lost.said :: m.Message? ==> m.header.dhPub != Base(e)
  }

  /** Any message ever sent may be given to its receiver, any number of times, and both peers may send. */
  predicate Happens(w: Wreck, e: LostEvent) {
    && Fresh(w, e.ephemeral)
    && match e
       case Says(r, text, ephemeral) => w.Left(r).None? ==> Possible(w.net, Send(r, text, ephemeral))
       case Given(r, m, _) => SentTo(w, r, m)
  }

  function Reply(w: Wreck, e: LostEvent): Reply
    requires Happens(w, e) && e.Given?
  {
    Receive(w.SessionOf(e.role), WireOf(w, e.role, e.m), e.ephemeral)
  }

  function ScalarOf(w: Wire): Scalar {
    if w.Message? && w.header.dhPub.Base? then w.header.dhPub.scalar else 0
  }

  /** The peer given the message is still in the conversation and stays in it. */
  predicate GoesOn(w: Wreck, e: LostEvent)
    requires Happens(w, e) && e.Given?
  {
    w.Left(e.role).None? && e.m.Before? && !TakesUpOlder(w.net, Delivery(e))
  }

  function Delivery(e: LostEvent): Event
    requires e.Given? && e.m.Before?
  {
    Deliver(e.role, e.m.era, e.m.num, e.ephemeral)
  }

  function LostStep(w: Wreck, e: LostEvent): Wreck
    requires InStep(w.net) && Happens(w, e)
  {
    match e
    case Says(r, text, ephemeral) =>
      (match w.Left(r)
       case None => w.(net := Step(w.net, Send(r, text, ephemeral)))
       case Some(a) =>
         var sent := Transmit(a.session, text, ephemeral);
         w.With(r, Adrift(sent.next, a.to, a.said + if sent.outcome.Success? then [sent.outcome.value] else [])))
    case Given(r, m, ephemeral) =>
      var reply := Reply(w, e);
      if GoesOn(w, e) then w.(net := Step(w.net, Delivery(e)))
      else if w.Left(r).Some? then w.With(r, w.Left(r).value.(session := reply.next))
      else if reply.next == w.SessionOf(r) then w
      else w.With(r, Adrift(reply.next, ScalarOf(WireOf(w, r, m)), []))
  }

  // --- what stays true ---

  function BranchFor(net: Net, r: Role, a: Adrift): Key
    requires net.Of(r).gen < |net.eras|
  {
    BranchAt(net.eras, net.Of(r).gen, a.to)
  }

  /** The peer left the conversation for a branch of its own, and stays on it. */
  ghost predicate Off(net: Net, r: Role, a: Adrift) {
    && Strays(net.eras, net.Of(r).gen, a.to)
    && On(a.session, BranchFor(net, r, a))
    && forall m <- a.said :: SealedOn(m, BranchFor(net, r, a))
  }

  /** The lost peer turned to a key of the conversation, and its own keys since are not of the conversation. */
  ghost predicate Outside(eras: seq<Era>, a: Adrift) {
    && !Unused(eras, a.to)
    && a.session.dhPub == Base(a.session.dhs) && Unused(eras, a.session.dhs)
    && forall m <- a.said :: m.Message? && m.header.dhPub.Base? && Unused(eras, m.header.dhPub.scalar)
  }

  ghost predicate Wrecked(w: Wreck) {
    && InStep(w.net)
    && 3 <= w.net.Of(w.role).gen
    && Off(w.net, w.role, w.lost)
    && (if w.other.None? then Outside(w.net.eras, w.lost)
        else
          && Off(w.net, w.role.Other(), w.other.value)
          && Apart(BranchFor(w.net, w.role, w.lost), BranchFor(w.net, w.role.Other(), w.other.value)))
  }

  lemma Generations(net: Net, r: Role)
    requires InStep(net) && 3 <= net.Of(r).gen
    ensures var g, h := net.Of(r).gen, net.Of(r.Other()).gen;
      2 <= h < |net.eras| <= h + 2 && g < |net.eras| <= g + 2 && (h == g + 1 || g == h + 1)
  {
    hide Linked, Synced;
  }

  /** What may be given to a peer that left is not sealed on its branch. */
  lemma NothingForIt(w: Wreck, r: Role, m: Posted)
    requires Wrecked(w) && SentTo(w, r, m) && w.Left(r).Some?
    ensures w.net.Of(r).gen < |w.net.eras|
    ensures !SealedOn(WireOf(w, r, m), BranchFor(w.net, r, w.Left(r).value))
  {
    hide On, Extends, Twin, Synced;
    var a := w.Left(r).value;
    assert Off(w.net, r, a);
    match m
    case Before(g, num) =>
      assert g >= 1;
      WireOffBranch(w.net.eras, w.net.Of(r).gen, a.to, g, num);
    case Since(i) =>
      var b := w.Left(r.Other()).value;
      assert b.said[i] in b.said;
      OneBranchOnly(Twin(b.said[i].body.key), BranchFor(w.net, r.Other(), b), BranchFor(w.net, r, a));
  }

  lemma GivenToLeft(w: Wreck, e: LostEvent)
    requires Wrecked(w) && Happens(w, e) && e.Given? && w.Left(e.role).Some?
    ensures Reply(w, e).outcome.Failure? && Wrecked(LostStep(w, e))
  {
    hide On, Receive, SealedOn, InStep, Fresh, Strays;
    NothingForIt(w, e.role, e.m);
    var a := w.Left(e.role).value;
    Deaf(a.session, WireOf(w, e.role, e.m), e.ephemeral, BranchFor(w.net, e.role, a));
    ReceiveDraws(a.session, WireOf(w, e.role, e.m), e.ephemeral);
    FreshIsUnused(w, e.ephemeral);
  }

  lemma FreshIsUnused(w: Wreck, e: Scalar)
    requires Fresh(w, e)
    ensures Unused(w.net.eras, e)
  {
  }

  lemma SaidByLeft(w: Wreck, e: LostEvent)
    requires Wrecked(w) && Happens(w, e) && e.Says? && w.Left(e.role).Some?
    ensures Wrecked(LostStep(w, e))
  {
    hide On, Transmit, SealedOn, InStep;
    var a := w.Left(e.role).value;
    Speaks(a.session, e.text, e.ephemeral, BranchFor(w.net, e.role, a));
  }

  // --- the other peer, as long as it is in the conversation ---

  lemma StillOutside(net: Net, e: Event, r: Role, a: Adrift)
    requires InStep(net) && Possible(net, e) && e.role == r.Other() && InStep(Step(net, e))
    requires Off(net, r, a) && Outside(net.eras, a) && a.session.dhs != e.ephemeral
    requires forall m <- a.said :: m.Message? ==> m.header.dhPub != Base(e.ephemeral)
    ensures Off(Step(net, e), r, a) && Outside(Step(net, e).eras, a)
    ensures Step(net, e).Of(r) == net.Of(r)
  {
    hide On, SealedOn, Step, Possible, Linked, Synced;
    var net1 := Step(net, e);
    StandsStill(net, e);
    StepKeepsHistory(net, e);
    StepDraws(net, e);
    assert PeerOk(net1.eras, net1.Of(r)) && PeerOk(net.eras, net.Of(r));
    StillStrays(net.eras, net1.eras, net.Of(r).gen, a.to);
  }

  lemma StillStrays(eras: seq<Era>, eras1: seq<Era>, g: nat, to: Scalar)
    requires Linked(eras1) && KeepsHistory(eras, eras1) && |eras1| <= g + 2
    requires Strays(eras, g, to) && !Unused(eras, to)
    ensures Strays(eras1, g, to) && !Unused(eras1, to) && BranchAt(eras1, g, to) == BranchAt(eras, g, to)
  {
    var era :| era in eras && era.secret == to;
    var h :| 0 <= h < |eras| && eras[h] == era;
    assert eras1[h] in eras1;
  }

  /** Only the key drawn in a step can be new in the conversation. */
  lemma StepDraws(net: Net, e: Event)
    requires InStep(net) && Possible(net, e)
    ensures forall k: Scalar :: Unused(net.eras, k) && k != e.ephemeral ==> Unused(Step(net, e).eras, k)
  {
    hide Receive, Transmit, Synced, Linked;
  }

  lemma StandsStill(net: Net, e: Event)
    requires InStep(net) && Possible(net, e)
    ensures Step(net, e).Of(e.role.Other()) == net.Of(e.role.Other())
  {
    hide InStep, PeerSends, PeerReceives;
  }

  lemma ReceiveDraws(s: Session, w: Wire, ephemeral: Scalar)
    ensures var t := Receive(s, w, ephemeral).next;
      s.dhPub == Base(s.dhs) ==> KeyFrom(t, s.dhs) || KeyFrom(t, ephemeral)
  {
    hide ReceiveOnChain;
    if w.Message? {
      if w.header.dhPub == s.dhr {
        OnChainKeeps(s, w.header, w.body);
      } else if Skip(s, w.header.prevChainCount).Success? {
        var s1 := Skip(s, w.header.prevChainCount).value;
        if s.recvNum <= w.header.prevChainCount {
          SkipKeepsRest(s, w.header.prevChainCount);
        }
        if Turn(s1, w.header.dhPub, ephemeral).Success? {
          OnChainKeeps(Turn(s1, w.header.dhPub, ephemeral).value, w.header, w.body);
        }
      }
    }
  }

  lemma OtherGoesOn(w: Wreck, e: LostEvent)
    requires Wrecked(w) && Happens(w, e) && w.Left(e.role).None?
    requires e.Given? ==> GoesOn(w, e)
    ensures Wrecked(LostStep(w, e))
  {
    hide InStep, Off, Outside, Step, TakesUpOlder;
    var o := if e.Says? then Send(e.role, e.text, e.ephemeral) else Delivery(e);
    OtherMay(w, e, o);
    StepKeepsExactly(w.net, o);
    StillOutside(w.net, o, w.role, w.lost);
  }

  lemma OtherMay(w: Wreck, e: LostEvent, o: Event)
    requires Happens(w, e) && w.Left(e.role).None?
    requires if e.Says? then o == Send(e.role, e.text, e.ephemeral) else e.m.Before? && o == Delivery(e)
    ensures Possible(w.net, o)
    ensures e.Says? ==> !TakesUpOlder(w.net, o)
  {
  }

  /** A peer that takes up what a lost one sends, or a message of an older chain, leaves as well. */
  lemma OtherLeaves(w: Wreck, e: LostEvent)
    requires Wrecked(w) && Happens(w, e) && e.Given? && w.Left(e.role).None? && !GoesOn(w, e)
    ensures Reply(w, e).outcome.Failure? && Wrecked(LostStep(w, e))
  {
    hide On, Receive, SealedOn, Linked, Synced, Apart;
    var r := e.role;
    var g, h := w.net.Of(w.role).gen, w.net.Of(r).gen;
    Generations(w.net, w.role);
    var s := w.net.Of(r).session;
    var m := WireOf(w, r, e.m);
    var to := ScalarOf(m);
    TakenUp(w, e);
    var branch := BranchAt(w.net.eras, h, to);
    if h == g + 1 {
      BranchesApart(w.net.eras, g, w.lost.to, to);
    } else {
      BranchesApart(w.net.eras, h, to, w.lost.to);
    }
    ApartBothWays(BranchAt(w.net.eras, g, w.lost.to), branch);
    NotForOther(w, e, branch);
    SyncedAt(w.net.eras, w.net.Of(r));
    BranchesOff(s, m.header, m.body, to, e.ephemeral);
  }

  lemma ApartBothWays(a: Key, b: Key)
    ensures Apart(a, b) <==> Apart(b, a)
  {
  }

  lemma SyncedAt(eras: seq<Era>, p: Peer)
    requires PeerOk(eras, p) && p.gen > 0
    ensures p.session.root == eras[p.gen].root && p.session.dhs == eras[p.gen].secret
    ensures p.session.dhr == Base(eras[p.gen - 1].secret)
  {
  }

  /** What makes the other peer leave names a key that strays from the conversation. */
  lemma TakenUp(w: Wreck, e: LostEvent)
    requires Wrecked(w) && Happens(w, e) && e.Given? && w.Left(e.role).None? && !GoesOn(w, e)
    ensures var m := WireOf(w, e.role, e.m);
      && m.Message? && m.header.dhPub == Base(ScalarOf(m)) != w.net.Of(e.role).session.dhr
      && Strays(w.net.eras, w.net.Of(e.role).gen, ScalarOf(m))
  {
    hide On, SealedOn;
    Generations(w.net, w.role);
    var p := w.net.Of(e.role);
    SyncedAt(w.net.eras, p);
    match e.m
    case Before(_, _) => OlderStrays(w.net, Delivery(e));
    case Since(i) =>
      assert w.lost.said[i] in w.lost.said;
      NotIn(w.net.eras, p.gen, ScalarOf(w.lost.said[i]));
  }

  lemma NotIn(eras: seq<Era>, g: nat, k: Scalar)
    requires 1 <= g < |eras| && Unused(eras, k)
    ensures eras[g - 1].secret != k && (g + 1 < |eras| ==> eras[g + 1].secret != k)
  {
    assert eras[g - 1] in eras;
  }

  lemma NotForOther(w: Wreck, e: LostEvent, branch: Key)
    requires Wrecked(w) && Happens(w, e) && e.Given? && w.Left(e.role).None?
    requires var to, h := ScalarOf(WireOf(w, e.role, e.m)), w.net.Of(e.role).gen;
      h < |w.net.eras| && Strays(w.net.eras, h, to) && branch == BranchAt(w.net.eras, h, to)
    requires Apart(BranchFor(w.net, w.role, w.lost), branch)
    ensures !SealedOn(WireOf(w, e.role, e.m), branch)
  {
    hide On, Extends, Twin, Synced, Apart;
    match e.m
    case Before(g, num) =>
      assert g >= 1;
      WireOffBranch(w.net.eras, w.net.Of(e.role).gen, ScalarOf(WireOf(w, e.role, e.m)), g, num);
    case Since(i) =>
      assert w.lost.said[i] in w.lost.said;
      OneBranchOnly(Twin(w.lost.said[i].body.key), BranchFor(w.net, w.role, w.lost), branch);
  }

  /** Nothing that happens after the loss repairs it. */
  lemma LostStepKeeps(w: Wreck, e: LostEvent)
    requires Wrecked(w) && Happens(w, e)
    ensures Wrecked(LostStep(w, e))
  {
    hide Wrecked, LostStep, GoesOn;
    if w.Left(e.role).Some? {
      if e.Says? {
        SaidByLeft(w, e);
      } else {
        GivenToLeft(w, e);
      }
    } else if e.Says? || GoesOn(w, e) {
      OtherGoesOn(w, e);
    } else {
      OtherLeaves(w, e);
    }
  }

  /** What can still be decrypted: what was sent before the loss, by the other peer while it is in the conversation. */
  lemma HeardExactly(w: Wreck, e: LostEvent)
    requires Wrecked(w) && Happens(w, e) && e.Given?
    ensures Reply(w, e).outcome.Success? <==>
      w.Left(e.role).None? && e.m.Before? && Decryptable(w.net.eras, w.net.Of(e.role), e.m.era, e.m.num)
  {
    hide Wrecked, LostStep, GoesOn;
    if w.Left(e.role).Some? {
      GivenToLeft(w, e);
    } else if e.m.Before? {
      StillInStep(w);
      OtherMay(w, e, Delivery(e));
      DecryptsExactly(w.net, Delivery(e));
      SameReply(w, e);
    } else {
      NotSince(w, e);
      OtherLeaves(w, e);
    }
  }

  lemma StillInStep(w: Wreck)
    requires Wrecked(w)
    ensures InStep(w.net)
  {
    hide InStep;
  }

  lemma NotSince(w: Wreck, e: LostEvent)
    requires Happens(w, e) && e.Given? && e.m.Since?
    ensures !GoesOn(w, e)
  {
  }

  lemma SameReply(w: Wreck, e: LostEvent)
    requires Happens(w, e) && e.Given? && w.Left(e.role).None? && e.m.Before?
    ensures Reply(w, e) == ReplyTo(w.net.eras, w.net.Of(e.role), e.m.era, e.m.num, e.ephemeral)
  {
    hide Receive;
  }

  // --- runs ---

  ghost predicate LostRuns(w: Wreck, events: seq<LostEvent>)
    requires Wrecked(w)
    decreases |events|
  {
    |events| > 0 ==>
      && Happens(w, events[0])
      && (LostStepKeeps(w, events[0]); LostRuns(LostStep(w, events[0]), events[1..]))
  }

  ghost function LostAfter(w: Wreck, events: seq<LostEvent>): (r: Wreck)
    requires Wrecked(w) && LostRuns(w, events)
    ensures Wrecked(r) && r.role == w.role
    decreases |events|
  {
    if |events| == 0 then w
    else
      LostStepKeeps(w, events[0]);
      KeepsRole(w, events[0]);
      LostAfter(LostStep(w, events[0]), events[1..])
  }

  lemma KeepsRole(w: Wreck, e: LostEvent)
    requires InStep(w.net) && Happens(w, e)
    ensures LostStep(w, e).role == w.role
    ensures w.other.Some? ==> LostStep(w, e).other.Some?
  {
    hide InStep, Receive, Transmit, Step;
  }

  lemma OlderChainWrecks(net: Net, e: Event)
    requires InStep(net) && Possible(net, e) && TakesUpOlder(net, e)
    ensures var r := ReplyTo(net.eras, net.Of(e.role), e.era, e.num, e.ephemeral);
      Wrecked(Wreck(e.role, net, Adrift(r.next, net.eras[e.era].secret, []), None))
  {
    hide On, ReplyTo, Synced;
    OlderChainLoses(net, e);
    OlderStrays(net, e);
    assert net.eras[e.era] in net.eras;
  }

  ghost function LostBy(net: Net, e: Event): (w: Wreck)
    requires InStep(net) && Possible(net, e) && TakesUpOlder(net, e)
    ensures Wrecked(w)
  {
    OlderChainWrecks(net, e);
    var r := ReplyTo(net.eras, net.Of(e.role), e.era, e.num, e.ephemeral);
    Wreck(e.role, net, Adrift(r.next, net.eras[e.era].secret, []), None)
  }

  /**
   * One message of an older chain within the skip limit, and in every run of both peers that
   * follows, its receiver decrypts nothing any more, and nobody decrypts what a peer sent
   * after it was lost. The other peer still decrypts what was sent before, as long as it is
   * in the conversation itself.
   */
  lemma LostForGood(net: Net, e: Event, events: seq<LostEvent>, last: LostEvent)
    requires InStep(net) && Possible(net, e) && TakesUpOlder(net, e)
    requires LostRuns(LostBy(net, e), events) && last.Given? && Happens(LostAfter(LostBy(net, e), events), last)
    ensures var w := LostAfter(LostBy(net, e), events);
      && (last.role == e.role || last.m.Since? ==> Reply(w, last).outcome.Failure?)
      && (Reply(w, last).outcome.Success? <==>
            && last.role != e.role && w.other.None?
            && last.m.Before? && Decryptable(w.net.eras, w.net.Of(last.role), last.m.era, last.m.num))
  {
    hide Wrecked, LostAfter, LostRuns, Reply, InStep, TakesUpOlder, Decryptable;
    HeardExactly(LostAfter(LostBy(net, e), events), last);
  }

  lemma LostStepKeepsHistory(w: Wreck, e: LostEvent)
    requires InStep(w.net) && Happens(w, e)
    ensures KeepsHistory(w.net.eras, LostStep(w, e).net.eras)
  {
    hide InStep, KeepsHistory, Step, TakesUpOlder;
    KeepsItself(w.net.eras);
    if w.Left(e.role).None? && (e.Says? || e.m.Before?) {
      var o := if e.Says? then Send(e.role, e.text, e.ephemeral) else Delivery(e);
      OtherMay(w, e, o);
      StepKeepsHistory(w.net, o);
    }
  }

  lemma {:induction false} LostRunKeepsHistory(w: Wreck, events: seq<LostEvent>)
    requires Wrecked(w) && LostRuns(w, events)
    ensures KeepsHistory(w.net.eras, LostAfter(w, events).net.eras)
    decreases |events|
  {
    hide Wrecked, LostStep, KeepsHistory;
    if |events| > 0 {
      StillInStep(w);
      var w1 := LostStep(w, events[0]);
      LostStepKeeps(w, events[0]);
      LostStepKeepsHistory(w, events[0]);
      LostRunKeepsHistory(w1, events[1..]);
      KeepsTransitively(w.net.eras, w1.net.eras, LostAfter(w, events).net.eras);
    } else {
      KeepsItself(w.net.eras);
    }
  }

  /** The loss does not make anything decrypt a second time either. */
  lemma NeverTwiceWhenLost(w: Wreck, events: seq<LostEvent>, last: LostEvent)
    requires Wrecked(w) && LostRuns(w, events) && Happens(LostAfter(w, events), last)
    requires last.Given? && last.m.Before? && last.m.era < |w.net.eras|
    requires last.m.num in w.net.eras[last.m.era].delivered
    ensures Reply(LostAfter(w, events), last).outcome.Failure?
  {
    hide Wrecked, LostAfter, LostRuns, Reply, ReplyTo, Decryptable, LostStep;
    var w1 := LostAfter(w, events);
    LostRunKeepsHistory(w, events);
    HeardExactly(w1, last);
    StillInStep(w1);
    if w1.Left(last.role).None? {
      OtherMay(w1, last, Delivery(last));
      NotDecryptable(w1.net, Delivery(last));
    }
  }

  // --- it does happen ---

  /** Taking up the first message of a newer chain adds an era and moves the receiver on to it. */
  lemma FirstOfNewer(net: Net, e: Event)
    requires InStep(net) && e.Deliver? && Possible(net, e) && e.num == 0 && e.era > RecvGen(net.Of(e.role).gen)
    ensures var net1 := Step(net, e);
      && net1.Of(e.role).gen == e.era + 1 && net1.Of(e.role.Other()) == net.Of(e.role.Other())
      && |net1.eras| == |net.eras| + 1 && net1.eras[|net.eras|].secret == e.ephemeral
      && net1.eras[|net.eras|].texts == []
      && forall g :: 0 <= g < |net.eras| ==>
           net1.eras[g].texts == net.eras[g].texts && net1.eras[g].secret == net.eras[g].secret
  {
    hide Synced, Linked, Receive, Mark;
    var p := net.Of(e.role);
    NewerTurns(net.eras, p, e.era, e.ephemeral);
    assert net.eras[e.era] in net.eras;
    var r := ReplyTo(net.eras, p, e.era, 0, e.ephemeral);
    var c := TakeUp(net.eras, p, e.era, 0, e.ephemeral, r);
    assert Step(net, e) == net.After(e.role, c);
    TakeUpTurns(net.eras, p, e.era, e.ephemeral, r);
  }

  lemma NewerTurns(eras: seq<Era>, p: Peer, g: nat, ephemeral: Scalar)
    requires Linked(eras) && PeerOk(eras, p) && CanDeliver(eras, p, g, 0, ephemeral) && g > RecvGen(p.gen)
    ensures ReplyTo(eras, p, g, 0, ephemeral).next.dhr != p.session.dhr
  {
    NewerIsNext(eras, p, g);
    assert p.session.dhr == Base(eras[RecvGen(p.gen)].secret);
  }

  lemma TakeUpTurns(eras: seq<Era>, p: Peer, g: nat, ephemeral: Scalar, r: Reply)
    requires g < |eras| && r.next.dhr != p.session.dhr
    ensures var c := TakeUp(eras, p, g, 0, ephemeral, r);
      && c.peer.gen == g + 1 && |c.eras| == |eras| + 1
      && c.eras[|eras|].secret == ephemeral && c.eras[|eras|].texts == []
      && forall h :: 0 <= h < |eras| ==> c.eras[h].texts == eras[h].texts && c.eras[h].secret == eras[h].secret
  {
  }

  /** What a send does to the eras, for a peer that has a chain already. */
  lemma SendAdds(net: Net, e: Event)
    requires InStep(net) && e.Send? && Possible(net, e) && net.Of(e.role).gen > 0
    ensures var net1, gen := Step(net, e), net.Of(e.role).gen;
      && net1.Of(e.role).gen == gen && net1.Of(e.role.Other()) == net.Of(e.role.Other())
      && |net1.eras| == |net.eras| && net1.eras[gen].texts == net.eras[gen].texts + [e.text]
      && forall g :: 0 <= g < |net.eras| ==>
           && net1.eras[g].secret == net.eras[g].secret
           && (g != gen ==> net1.eras[g].texts == net.eras[g].texts)
  {
  }

  lemma MaySend(net: Net, e: Event)
    requires InStep(net) && e.Send? && Unused(net.eras, e.ephemeral)
    requires net.Of(e.role).gen < |net.eras| && |net.eras[net.Of(e.role).gen].texts| <= 1
    ensures Possible(net, e)
  {
  }

  /** Both peers have sent, neither has received. */
  ghost predicate BothSpoke(net: Net) {
    && |net.eras| == 3 && net.initiator.gen == 2 && net.responder.gen == 1
    && net.eras[1].texts == ["a"] && net.eras[2].texts == ["b"]
    && net.eras[0].secret == 1 && net.eras[1].secret == 2 && net.eras[2].secret == 11
  }

  lemma BothSpeak() returns (events: seq<Event>, net2: Net)
    ensures var net := Start(1, 2, Shared(0, 0), DEFAULT_MAX_SKIP, DEFAULT_MAX_SKIP);
      InStep(net) && Runs(net, events) && After(net, events) == net2 && BothSpoke(net2) && InStep(net2)
  {
    hide InStep;
    var net := Start(1, 2, Shared(0, 0), DEFAULT_MAX_SKIP, DEFAULT_MAX_SKIP);
    StartInStep(1, 2, Shared(0, 0), DEFAULT_MAX_SKIP, DEFAULT_MAX_SKIP);
    events := [Send(Responder, "a", 10), Send(Initiator, "b", 11)];
    var net1 := Step(net, events[0]);
    StepKeepsExactly(net, events[0]);
    net2 := Step(net1, events[1]);
    StepKeepsExactly(net1, events[1]);
    RunsOne(net1, events[1], []);
    RunsOne(net, events[0], events[1..]);
    assert events == [events[0]] + events[1..] && events[1..] == [events[1]] + [];
  }

  /** From there the responder turns and answers, the initiator turns, and the first message is old. */
  lemma ThenTurn(net2: Net) returns (events: seq<Event>, e: Event)
    requires InStep(net2) && BothSpoke(net2)
    ensures Runs(net2, events) && Possible(After(net2, events), e) && TakesUpOlder(After(net2, events), e)
  {
    hide InStep, Step;
    events := [Deliver(Responder, 2, 0, 12), Send(Responder, "c", 13), Deliver(Initiator, 3, 0, 14)];
    e := Deliver(Initiator, 1, 0, 15);
    FirstOfNewer(net2, events[0]);
    StepKeepsExactly(net2, events[0]);
    var net3 := Step(net2, events[0]);
    MaySend(net3, events[1]);
    SendAdds(net3, events[1]);
    StepKeepsExactly(net3, events[1]);
    var net4 := Step(net3, events[1]);
    FirstOfNewer(net4, events[2]);
    StepKeepsExactly(net4, events[2]);
    var net5 := Step(net4, events[2]);
    RunsOne(net4, events[2], []);
    RunsOne(net3, events[1], events[2..]);
    RunsOne(net2, events[0], events[1..]);
    assert events == [events[0]] + events[1..];
    assert events[1..] == [events[1]] + events[2..] && events[2..] == [events[2]] + [];
  }

  lemma {:induction false} RunsJoin(net: Net, a: seq<Event>, b: seq<Event>)
    requires InStep(net) && Runs(net, a) && Runs(After(net, a), b)
    ensures Runs(net, a + b) && After(net, a + b) == After(After(net, a), b)
    decreases |a|
  {
    hide InStep, Step;
    if |a| == 0 {
      assert a + b == b;
    } else {
      StepKeepsExactly(net, a[0]);
      RunsJoin(Step(net, a[0]), a[1..], b);
      RunsOne(net, a[0], a[1..] + b);
      assert a + b == [a[0]] + (a[1..] + b);
    }
  }

  /** Both peers speak, the responder answers on a new chain, and its first message comes last. */
  lemma OlderChainArises() returns (events: seq<Event>, e: Event)
    ensures var net := Start(1, 2, Shared(0, 0), DEFAULT_MAX_SKIP, DEFAULT_MAX_SKIP);
      InStep(net) && Runs(net, events) && Possible(After(net, events), e) && TakesUpOlder(After(net, events), e)
  {
    hide InStep, Step, Runs, After;
    var first, net2 := BothSpeak();
    var second: seq<Event>;
    second, e := ThenTurn(net2);
    events := first + second;
    RunsJoin(Start(1, 2, Shared(0, 0), DEFAULT_MAX_SKIP, DEFAULT_MAX_SKIP), first, second);
  }

  lemma RunsOne(net: Net, e: Event, rest: seq<Event>)
    requires InStep(net) && Possible(net, e) && !TakesUpOlder(net, e)
    requires InStep(Step(net, e)) && Runs(Step(net, e), rest)
    ensures Runs(net, [e] + rest) && After(net, [e] + rest) == After(Step(net, e), rest)
  {
    hide InStep, Step;
    StepKeepsExactly(net, e);
    assert ([e] + rest)[1..] == rest;
  }
}
