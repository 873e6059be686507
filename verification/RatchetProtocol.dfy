/**
Two ratchet sessions talking to each other over a network that may delay, reorder,
repeat or drop messages: the agreement every run keeps, and exactly when a delivered
message decrypts.

Generation g of DH keys belongs to the initiator when g is even and to the responder
when g is odd. Generation 0 is the initiator's first key (never used to send),
generation 1 the responder's first key; a peer that turns the root ratchet moves on
by two. Era g records generation g: its key, the root key and chain key derived when
it was created, the texts sent on its chain and the numbers delivered so far.
*/
module RatchetProtocol {
  import opened Common
  import opened RatchetState
  import opened RatchetChain

  datatype Era = Era(secret: Scalar, root: Key, chain: Key, texts: seq<Text>, delivered: set<nat>)

  datatype Peer = Peer(session: Session, gen: nat, outbox: seq<Text>, inbox: seq<Text>)

  /** The eras after one peer acted, with that peer. */
  datatype Change = Change(eras: seq<Era>, peer: Peer)

  function Agree(a: Scalar, b: Scalar): Key {
    if a <= b then Shared(a, b) else Shared(b, a)
  }

  /** The generation whose chain a peer of generation g is receiving. */
  function RecvGen(g: nat): nat {
    if g == 0 then 1 else g - 1
  }

  /** The era after `last`, whose key pair `secret` was drawn against the key of `last`. */
  function NextEra(last: Era, secret: Scalar, texts: seq<Text>): Era {
    var dh := Agree(secret, last.secret);
    Era(secret, RootOf(last.root, dh), ChainOf(last.root, dh), texts, {})
  }

  // --- the sessions as the two constructors leave them ---

  function InitialSession(own: Scalar, remote: Scalar, dh2: Key, maxSkip: Uint32, initiator: bool): Session {
    Session(own, Base(remote), Base(own), InitRoot(Agree(own, remote), dh2),
            ZeroKey, 0, ZeroKey, 0, map[], maxSkip, ZeroKey, 0, initiator)
  }

  function InitialEras(i: Scalar, r: Scalar, dh2: Key): seq<Era> {
    [Era(i, ZeroKey, ZeroKey, [], {}), Era(r, InitRoot(Agree(i, r), dh2), ZeroKey, [], {})]
  }

  // --- what one peer does ---

  /** Message `num` of era `g`, as its sender put it on the wire. */
  function OnWire(eras: seq<Era>, g: nat, num: nat): Wire
    requires g < |eras| && num < |eras[g].texts| && num < UINT32_RANGE
  {
    Authentic(Base(eras[g].secret), eras[g].chain, num, eras[g].texts[num])
  }

  predicate Unused(eras: seq<Era>, ephemeral: Scalar) {
    forall era <- eras :: era.secret != ephemeral
  }

  /** A peer may send as long as the next message number still fits the header. */
  predicate CanSend(eras: seq<Era>, p: Peer, ephemeral: Scalar) {
    Unused(eras, ephemeral) && p.session.sendNum + 1 < UINT32_RANGE
  }

  function PeerSends(eras: seq<Era>, p: Peer, text: Text, ephemeral: Scalar): Change
    requires |eras| >= 2 && p.gen < |eras|
  {
    var p1 := p.(session := Transmit(p.session, text, ephemeral).next, outbox := p.outbox + [text]);
    if p.gen == 0 then Change(eras + [NextEra(eras[|eras| - 1], ephemeral, [text])], p1.(gen := 2))
    else Change(eras[p.gen := eras[p.gen].(texts := eras[p.gen].texts + [text])], p1)
  }

  /** The network may deliver to a peer any message the other one ever sent, any number of times. */
  predicate CanDeliver(eras: seq<Era>, p: Peer, g: nat, num: nat, ephemeral: Scalar) {
    && Unused(eras, ephemeral)
    && g < |eras| && num < |eras[g].texts| && num < UINT32_RANGE
    && g % 2 != p.gen % 2
  }

  function ReplyTo(eras: seq<Era>, p: Peer, g: nat, num: nat, ephemeral: Scalar): Reply
    requires CanDeliver(eras, p, g, num, ephemeral)
  {
    Receive(p.session, OnWire(eras, g, num), ephemeral)
  }

  function Mark(eras: seq<Era>, g: nat, num: nat): seq<Era>
    requires g < |eras|
  {
    eras[g := eras[g].(delivered := eras[g].delivered + {num})]
  }

  function MarkIf(eras: seq<Era>, g: nat, num: nat, ok: bool): seq<Era>
    requires g < |eras|
  {
    if ok then Mark(eras, g, num) else eras
  }

  /** The receiver takes up reply r to message num of era g. */
  function TakeUp(eras: seq<Era>, p: Peer, g: nat, num: nat, ephemeral: Scalar, r: Reply): Change
    requires g < |eras|
  {
    var eras1 := MarkIf(eras, g, num, r.outcome.Success?);
    var p1 := p.(session := r.next, inbox := p.inbox + if r.outcome.Success? then [r.outcome.value] else []);
    if r.next.dhr == p.session.dhr then Change(eras1, p1)
    else Change(eras1 + [NextEra(eras[g], ephemeral, [])], p1.(gen := g + 1))
  }

  function PeerReceives(eras: seq<Era>, p: Peer, g: nat, num: nat, ephemeral: Scalar): Change
    requires CanDeliver(eras, p, g, num, ephemeral)
  {
    TakeUp(eras, p, g, num, ephemeral, ReplyTo(eras, p, g, num, ephemeral))
  }

  // --- the agreement between a peer and the eras ---

  ghost predicate Follows(era: Era, last: Era) {
    var dh := Agree(era.secret, last.secret);
    era.root == RootOf(last.root, dh) && era.chain == ChainOf(last.root, dh)
  }

  ghost predicate WellSized(era: Era) {
    |era.texts| < UINT32_RANGE && forall n <- era.delivered :: n < |era.texts|
  }

  /** The root and chain keys of the eras form one alternating KDF sequence with distinct DH keys. */
  ghost predicate Linked(eras: seq<Era>) {
    && |eras| >= 2
    && eras[0].texts == [] && eras[0].chain == eras[1].chain == ZeroKey
    && eras[1].root.InitRoot?
    && (forall g :: 2 <= g < |eras| ==> Follows(eras[g], eras[g - 1]))
    && (forall g, h :: 0 <= g < h < |eras| ==> eras[g].secret != eras[h].secret)
    && (forall g :: 0 <= g < |eras| ==> WellSized(eras[g]))
  }

  ghost predicate SendsOn(s: Session, era: Era, gen: nat) {
    && s.dhs == era.secret && s.dhPub == Base(era.secret)
    && s.needsStep == (gen == 0)
    && s.sendNum == |era.texts|
    && (gen > 0 ==> s.sendChain == Advance(era.chain, s.sendNum))
  }

  ghost predicate ReceivesOn(s: Session, era: Era) {
    && s.dhr == Base(era.secret)
    && Tracks(s, era.chain, era.delivered)
  }

  ghost predicate KeyOfEra(s: Session, k: (Point, Uint32), era: Era) {
    k in s.skipped && k.0 == Base(era.secret) && s.skipped[k] == MessageKey(Advance(era.chain, k.1))
  }

  /** Stored message keys are keys of the peer's eras up to generation r, filed under their remote key and number. */
  ghost predicate OldKeysOnly(s: Session, eras: seq<Era>, r: nat)
    requires r < |eras|
  {
    forall k <- s.skipped :: exists j :: 0 <= j <= r && j % 2 == r % 2 && KeyOfEra(s, k, eras[j])
  }

  ghost predicate Synced(eras: seq<Era>, s: Session, gen: nat)
    requires 2 <= |eras| && gen < |eras|
  {
    && SendsOn(s, eras[gen], gen)
    && s.root == eras[if gen == 0 then 1 else gen].root
    && ReceivesOn(s, eras[RecvGen(gen)])
    && OldKeysOnly(s, eras, RecvGen(gen))
  }

  /** The peer is at one of the two latest generations and agrees with the eras it sends and receives on. */
  ghost predicate PeerOk(eras: seq<Era>, p: Peer) {
    && 2 <= |eras| && |eras| - 2 <= p.gen < |eras|
    && Synced(eras, p.session, p.gen)
    && (0 < p.gen < |eras| - 1 ==> eras[p.gen + 1].delivered == {})
  }

  /**
   * When a message on the wire decrypts at its receiver: it is on the chain being
   * received, new and within the skip limit, or it opens the next chain within the limit.
   */
  predicate Decryptable(eras: seq<Era>, p: Peer, g: nat, num: nat)
    requires g < |eras|
  {
    if g == RecvGen(p.gen) then Acceptable(p.session, eras[g].delivered, num)
    else g > RecvGen(p.gen) && num <= p.session.maxSkip
  }

  /** The two peers are never more than one generation apart: a newer message opens the next one. */
  lemma NewerIsNext(eras: seq<Era>, p: Peer, g: nat)
    requires PeerOk(eras, p) && RecvGen(p.gen) < g < |eras| && g % 2 != p.gen % 2
    ensures 0 < p.gen < |eras| - 1 && g == p.gen + 1
  {
  }

  // --- how the eras change ---

  lemma LinkedExtend(eras: seq<Era>, secret: Scalar, texts: seq<Text>)
    requires Linked(eras) && Unused(eras, secret) && |texts| < UINT32_RANGE
    ensures Linked(eras + [NextEra(eras[|eras| - 1], secret, texts)])
  {
  }

  lemma LinkedUpdate(eras: seq<Era>, g: nat, era: Era)
    requires Linked(eras) && 0 < g < |eras| && WellSized(era)
    requires era == eras[g].(texts := era.texts, delivered := era.delivered)
    ensures Linked(eras[g := era])
  {
  }

  ghost predicate SameKeys(eras: seq<Era>, eras1: seq<Era>) {
    && |eras| <= |eras1|
    && forall g :: 0 <= g < |eras| ==>
         eras1[g].secret == eras[g].secret && eras1[g].root == eras[g].root && eras1[g].chain == eras[g].chain
  }

  /** From `eras` to `eras1` nothing changed that a session of generation `gen` depends on. */
  ghost predicate KeptFor(eras: seq<Era>, eras1: seq<Era>, gen: nat)
    requires 2 <= |eras| && gen < |eras|
  {
    var r := RecvGen(gen);
    && SameKeys(eras, eras1)
    && eras1[gen] == eras[gen].(delivered := eras1[gen].delivered)
    && eras1[r] == eras[r].(texts := eras1[r].texts)
    && |eras[r].texts| <= |eras1[r].texts|
  }

  lemma OldKeysKept(s: Session, eras: seq<Era>, eras1: seq<Era>, r: nat)
    requires r < |eras| && SameKeys(eras, eras1) && OldKeysOnly(s, eras, r)
    ensures OldKeysOnly(s, eras1, r)
  {
    forall k <- s.skipped ensures exists j :: 0 <= j <= r && j % 2 == r % 2 && KeyOfEra(s, k, eras1[j]) {
      var j :| 0 <= j <= r && j % 2 == r % 2 && KeyOfEra(s, k, eras[j]);
      assert KeyOfEra(s, k, eras1[j]);
    }
  }

  lemma PeerKept(eras: seq<Era>, eras1: seq<Era>, p: Peer)
    requires PeerOk(eras, p) && KeptFor(eras, eras1, p.gen) && |eras1| <= p.gen + 2
    requires 0 < p.gen < |eras1| - 1 ==> eras1[p.gen + 1].delivered == {}
    ensures PeerOk(eras1, p)
  {
    OldKeysKept(p.session, eras, eras1, RecvGen(p.gen));
  }

  // --- sending ---

  lemma FirstSend(eras: seq<Era>, p: Peer, text: Text, ephemeral: Scalar)
    requires |eras| == 2 && PeerOk(eras, p) && p.gen == 0
    ensures var c := PeerSends(eras, p, text, ephemeral); PeerOk(c.eras, c.peer)
  {
    var c := PeerSends(eras, p, text, ephemeral);
    assert c.peer.session.sendChain == Advance(c.eras[2].chain, 1);
    OldKeysKept(p.session, eras, c.eras, 1);
  }

  lemma LaterSend(eras: seq<Era>, p: Peer, text: Text, ephemeral: Scalar)
    requires PeerOk(eras, p) && p.gen > 0 && CanSend(eras, p, ephemeral)
    ensures var c := PeerSends(eras, p, text, ephemeral); PeerOk(c.eras, c.peer)
  {
    var c := PeerSends(eras, p, text, ephemeral);
    OldKeysKept(p.session, eras, c.eras, RecvGen(p.gen));
  }

  lemma SendOtherKept(eras: seq<Era>, p: Peer, q: Peer, text: Text, ephemeral: Scalar)
    requires PeerOk(eras, p) && PeerOk(eras, q) && p.gen % 2 != q.gen % 2
    ensures PeerOk(PeerSends(eras, p, text, ephemeral).eras, q)
  {
    hide Synced, Transmit;
    PeerKept(eras, PeerSends(eras, p, text, ephemeral).eras, q);
  }

  /** Sending keeps both peers in agreement with the eras. */
  lemma SendKeeps(eras: seq<Era>, p: Peer, q: Peer, text: Text, ephemeral: Scalar)
    requires Linked(eras) && PeerOk(eras, p) && PeerOk(eras, q) && p.gen % 2 != q.gen % 2
    requires CanSend(eras, p, ephemeral)
    ensures var c := PeerSends(eras, p, text, ephemeral);
      Linked(c.eras) && PeerOk(c.eras, c.peer) && PeerOk(c.eras, q) && c.peer.gen % 2 == p.gen % 2
  {
    var c := PeerSends(eras, p, text, ephemeral);
    if p.gen == 0 {
      FirstSend(eras, p, text, ephemeral);
      LinkedExtend(eras, ephemeral, [text]);
    } else {
      LaterSend(eras, p, text, ephemeral);
      LinkedUpdate(eras, p.gen, c.eras[p.gen]);
    }
    SendOtherKept(eras, p, q, text, ephemeral);
    hide Linked, Synced, Transmit;
  }

  /** What a peer puts on the wire is the message the eras say: key, header and text. */
  lemma SendsOnWire(eras: seq<Era>, p: Peer, text: Text, ephemeral: Scalar)
    requires Linked(eras) && PeerOk(eras, p) && CanSend(eras, p, ephemeral)
    ensures var c := PeerSends(eras, p, text, ephemeral);
      var g := c.peer.gen;
      && g < |c.eras| && |c.eras[g].texts| == c.peer.session.sendNum
      && 0 < c.peer.session.sendNum
      && Transmit(p.session, text, ephemeral).outcome == Success(OnWire(c.eras, g, c.peer.session.sendNum - 1))
  {
    var s := p.session;
    if p.gen > 0 {
      assert s.sendChain == Advance(eras[p.gen].chain, s.sendNum);
    }
    assert WellSized(eras[p.gen]);
  }

  // --- receiving on the current chain ---

  /**
  A message of the chain being received decrypts exactly when it is decryptable, and a refused one changes
  nothing.
  */
  lemma CurrentReply(eras: seq<Era>, p: Peer, num: nat, ephemeral: Scalar)
    requires Linked(eras) && PeerOk(eras, p) && CanDeliver(eras, p, RecvGen(p.gen), num, ephemeral)
    ensures var g := RecvGen(p.gen);
      ReceivedAs(p.session, eras[g].chain, eras[g].delivered, num, eras[g].texts[num],
                 ReplyTo(eras, p, g, num, ephemeral))
  {
    var g := RecvGen(p.gen);
    assert WellSized(eras[g]);
    ReceiveTracked(p.session, eras[g].chain, eras[g].delivered, num, eras[g].texts[num]);
  }

  lemma CurrentKeys(eras: seq<Era>, s: Session, t: Session, r: nat, delivered: set<nat>)
    requires r < |eras| && OldKeysOnly(s, eras, r) && SameElsewhere(s, t) && s.dhr == Base(eras[r].secret)
    requires Tracks(t, eras[r].chain, delivered)
    ensures OldKeysOnly(t, eras, r)
  {
    forall k <- t.skipped ensures exists j :: 0 <= j <= r && j % 2 == r % 2 && KeyOfEra(t, k, eras[j]) {
      if k.0 == s.dhr {
        assert k == (t.dhr, k.1);
        assert KeyOfEra(t, k, eras[r]);
      } else {
        var j :| 0 <= j <= r && j % 2 == r % 2 && KeyOfEra(s, k, eras[j]);
        assert KeyOfEra(t, k, eras[j]);
      }
    }
  }

  lemma CurrentSynced(eras: seq<Era>, p: Peer, num: nat, r: Reply)
    requires Linked(eras) && PeerOk(eras, p)
    requires var era := eras[RecvGen(p.gen)];
      && num < |era.texts| && Acceptable(p.session, era.delivered, num)
      && ReceivedAs(p.session, era.chain, era.delivered, num, era.texts[num], r)
    ensures Synced(Mark(eras, RecvGen(p.gen), num), r.next, p.gen)
  {
    var g := RecvGen(p.gen);
    hide Tracks;
    CurrentKeys(eras, p.session, r.next, g, eras[g].delivered + {num});
    OldKeysKept(r.next, eras, Mark(eras, g, num), g);
  }

  lemma MarkLinked(eras: seq<Era>, g: nat, num: nat, ok: bool)
    requires Linked(eras) && 0 < g < |eras| && num < |eras[g].texts|
    ensures Linked(MarkIf(eras, g, num, ok))
  {
    assert WellSized(eras[g]);
    if ok {
      LinkedUpdate(eras, g, Mark(eras, g, num)[g]);
    }
  }

  ghost predicate BothOk(c: Change, q: Peer, parity: nat) {
    Linked(c.eras) && PeerOk(c.eras, c.peer) && PeerOk(c.eras, q) && c.peer.gen % 2 == parity
  }

  lemma CurrentOtherKept(eras: seq<Era>, p: Peer, q: Peer, num: nat)
    requires PeerOk(eras, p) && PeerOk(eras, q) && p.gen % 2 != q.gen % 2
    ensures PeerOk(Mark(eras, RecvGen(p.gen), num), q)
  {
    hide Synced;
    PeerKept(eras, Mark(eras, RecvGen(p.gen), num), q);
  }

  lemma CurrentCases(eras: seq<Era>, p: Peer, num: nat, r: Reply)
    requires Linked(eras) && p.gen < |eras|
    requires var era := eras[RecvGen(p.gen)];
      num < |era.texts| && ReceivedAs(p.session, era.chain, era.delivered, num, era.texts[num], r)
    ensures RecvGen(p.gen) > 0 && r.next.dhr == p.session.dhr
    ensures if Acceptable(p.session, eras[RecvGen(p.gen)].delivered, num) then r.outcome.Success?
            else r.outcome.Failure? && r.next == p.session
  {
    hide Tracks;
  }

  lemma CurrentKeeps(eras: seq<Era>, p: Peer, q: Peer, num: nat, ephemeral: Scalar, r: Reply)
    requires Linked(eras) && PeerOk(eras, p) && PeerOk(eras, q) && p.gen % 2 != q.gen % 2
    requires var era := eras[RecvGen(p.gen)];
      num < |era.texts| && ReceivedAs(p.session, era.chain, era.delivered, num, era.texts[num], r)
    ensures BothOk(TakeUp(eras, p, RecvGen(p.gen), num, ephemeral, r), q, p.gen % 2)
  {
    hide Linked, Synced, ReceivedAs, Acceptable;
    var g := RecvGen(p.gen);
    CurrentCases(eras, p, num, r);
    if Acceptable(p.session, eras[g].delivered, num) {
      CurrentSynced(eras, p, num, r);
      MarkLinked(eras, g, num, true);
      CurrentOtherKept(eras, p, q, num);
    } else {
      assert TakeUp(eras, p, g, num, ephemeral, r) == Change(eras, p);
    }
  }

  // --- receiving the first message of the next chain ---

  /** The session has turned to generation g of its peer and drawn `ephemeral` as its own key. */
  ghost predicate TurnedTo(eras: seq<Era>, g: nat, t: Session, ephemeral: Scalar, maxSkip: nat)
    requires g < |eras|
  {
    var next := NextEra(eras[g], ephemeral, []);
    && SendsOn(t, next, g + 1) && t.root == next.root
    && t.dhr == Base(eras[g].secret) && OldKeysOnly(t, eras, g)
    && t.maxSkip == maxSkip
  }

  lemma SkipKeepsKeys(eras: seq<Era>, s: Session, r: nat, num: Uint32)
    requires r < |eras| && ReceivesOn(s, eras[r]) && OldKeysOnly(s, eras, r) && Skip(s, num).Success?
    ensures var s1 := Skip(s, num).value; SameElsewhere(s, s1) && OldKeysOnly(s1, eras, r)
  {
    if s.recvNum <= num {
      SkipTracks(s, eras[r].chain, eras[r].delivered, num);
      hide Tracks, SkipTo;
      CurrentKeys(eras, s, SkipTo(s, num), r, eras[r].delivered);
    }
  }

  /** The chain turned to has no keys in store yet. */
  lemma NothingStored(eras: seq<Era>, s1: Session, r: nat, t: Session)
    requires Linked(eras) && r + 2 < |eras| && OldKeysOnly(s1, eras, r) && t.skipped == s1.skipped
    ensures OldKeysOnly(t, eras, r + 2)
    ensures forall k <- s1.skipped :: k.0 != Base(eras[r + 2].secret)
  {
    forall k <- s1.skipped
      ensures k.0 != Base(eras[r + 2].secret)
      ensures exists j :: 0 <= j <= r + 2 && j % 2 == (r + 2) % 2 && KeyOfEra(t, k, eras[j])
    {
      var j :| 0 <= j <= r && j % 2 == r % 2 && KeyOfEra(s1, k, eras[j]);
      assert eras[j].secret != eras[r + 2].secret && KeyOfEra(t, k, eras[j]);
    }
  }

  lemma TurnToNext(eras: seq<Era>, p: Peer, s1: Session, ephemeral: Scalar)
    requires Linked(eras) && PeerOk(eras, p) && 0 < p.gen < |eras| - 1
    requires SameElsewhere(p.session, s1) && OldKeysOnly(s1, eras, RecvGen(p.gen))
    ensures var g := p.gen + 1;
      var t := Turn(s1, Base(eras[g].secret), ephemeral);
      && t.Success? && t.value.recvNum == 0
      && TurnedTo(eras, g, t.value, ephemeral, p.session.maxSkip)
      && Tracks(t.value, eras[g].chain, {})
  {
    hide OldKeysOnly;
    var g := p.gen + 1;
    NothingStored(eras, s1, RecvGen(p.gen), Turn(s1, Base(eras[g].secret), ephemeral).value);
    assert Follows(eras[g], eras[p.gen]);
    TurnTracks(s1, eras[g].secret, ephemeral);
  }

  /** What receiving message num of the next chain must achieve. */
  ghost predicate NextReceivedAs(eras: seq<Era>, p: Peer, num: nat, ephemeral: Scalar, r: Reply)
    requires 0 < p.gen < |eras| - 1 && num < |eras[p.gen + 1].texts|
  {
    var g := p.gen + 1;
    var s := p.session;
    if num > s.recvNum + s.maxSkip then r == Reply(s, Failure(TooManySkipped))
    else
      && TurnedTo(eras, g, r.next, ephemeral, s.maxSkip)
      && r.next.recvNum <= num + 1
      && (if num <= s.maxSkip then
            r.outcome == Success(eras[g].texts[num]) && Tracks(r.next, eras[g].chain, {num})
          else r.outcome.Failure? && Tracks(r.next, eras[g].chain, {}))
  }

  lemma NextReply(eras: seq<Era>, p: Peer, num: nat, ephemeral: Scalar)
    requires Linked(eras) && PeerOk(eras, p) && 0 < p.gen < |eras| - 1
    requires CanDeliver(eras, p, p.gen + 1, num, ephemeral)
    ensures NextReceivedAs(eras, p, num, ephemeral, ReplyTo(eras, p, p.gen + 1, num, ephemeral))
  {
    var g := p.gen + 1;
    var s := p.session;
    var w := OnWire(eras, g, num);
    assert WellSized(eras[g]);
    assert w.header.dhPub != s.dhr;
    if num <= s.recvNum + s.maxSkip {
      var s1 := Skip(s, num).value;
      SkipKeepsKeys(eras, s, RecvGen(p.gen), num);
      TurnToNext(eras, p, s1, ephemeral);
      var t := Turn(s1, w.header.dhPub, ephemeral).value;
      ReceiveTracked(t, eras[g].chain, {}, num, eras[g].texts[num]);
      NextSettled(eras, g, t, num, ephemeral, s.maxSkip, ReceiveOnChain(t, w.header, w.body));
    }
  }

  lemma NextSettled(eras: seq<Era>, g: nat, t: Session, num: Uint32, ephemeral: Scalar, maxSkip: nat, r: Reply)
    requires g < |eras| && num < |eras[g].texts| && t.recvNum == 0
    requires TurnedTo(eras, g, t, ephemeral, maxSkip) && Tracks(t, eras[g].chain, {})
    requires ReceivedAs(t, eras[g].chain, {}, num, eras[g].texts[num], r)
    ensures TurnedTo(eras, g, r.next, ephemeral, maxSkip) && r.next.recvNum <= num + 1
    ensures if num <= maxSkip then r.outcome == Success(eras[g].texts[num]) && Tracks(r.next, eras[g].chain, {num})
            else r.outcome.Failure? && Tracks(r.next, eras[g].chain, {})
  {
    hide Tracks;
    if num <= maxSkip {
      assert {} + {num} == {num};
      CurrentKeys(eras, t, r.next, g, {num});
    }
  }

  lemma NextPeerOk(eras: seq<Era>, p: Peer, num: nat, ephemeral: Scalar, r: Reply)
    requires PeerOk(eras, p) && 0 < p.gen < |eras| - 1 && num < |eras[p.gen + 1].texts|
    requires NextReceivedAs(eras, p, num, ephemeral, r) && num <= p.session.recvNum + p.session.maxSkip
    ensures var g := p.gen + 1;
      var eras2 := MarkIf(eras, g, num, r.outcome.Success?) + [NextEra(eras[g], ephemeral, [])];
      Synced(eras2, r.next, g + 1)
  {
    var g := p.gen + 1;
    var eras2 := MarkIf(eras, g, num, r.outcome.Success?) + [NextEra(eras[g], ephemeral, [])];
    hide Tracks;
    assert eras[g].delivered + {num} == {num};
    OldKeysKept(r.next, eras, eras2, g);
  }

  lemma NextOtherKept(eras: seq<Era>, p: Peer, q: Peer, num: nat, ephemeral: Scalar, ok: bool)
    requires PeerOk(eras, p) && PeerOk(eras, q) && p.gen % 2 != q.gen % 2 && 0 < p.gen < |eras| - 1
    ensures var g := p.gen + 1;
      PeerOk(MarkIf(eras, g, num, ok) + [NextEra(eras[g], ephemeral, [])], q)
  {
    var g := p.gen + 1;
    hide Synced;
    PeerKept(eras, MarkIf(eras, g, num, ok) + [NextEra(eras[g], ephemeral, [])], q);
  }

  lemma NextLinked(eras: seq<Era>, g: nat, num: nat, ephemeral: Scalar, ok: bool)
    requires Linked(eras) && 1 < g == |eras| - 1 && num < |eras[g].texts| && Unused(eras, ephemeral)
    ensures Linked(MarkIf(eras, g, num, ok) + [NextEra(eras[g], ephemeral, [])])
  {
    MarkLinked(eras, g, num, ok);
    hide Linked;
    LinkedExtend(MarkIf(eras, g, num, ok), ephemeral, []);
  }

  lemma NextCases(eras: seq<Era>, p: Peer, num: nat, ephemeral: Scalar, r: Reply)
    requires Linked(eras) && PeerOk(eras, p) && 0 < p.gen < |eras| - 1 && num < |eras[p.gen + 1].texts|
    requires NextReceivedAs(eras, p, num, ephemeral, r)
    ensures if num <= p.session.recvNum + p.session.maxSkip then r.next.dhr != p.session.dhr
            else r == Reply(p.session, Failure(TooManySkipped))
  {
    hide Tracks, OldKeysOnly, Follows;
    assert eras[p.gen + 1].secret != eras[RecvGen(p.gen)].secret;
  }

  /** Opening the next chain keeps both peers in agreement with the eras, whether or not the message decrypts. */
  lemma NextKeeps(eras: seq<Era>, p: Peer, q: Peer, num: nat, ephemeral: Scalar, r: Reply)
    requires Linked(eras) && PeerOk(eras, p) && PeerOk(eras, q) && p.gen % 2 != q.gen % 2
    requires 0 < p.gen < |eras| - 1 && num < |eras[p.gen + 1].texts| && Unused(eras, ephemeral)
    requires NextReceivedAs(eras, p, num, ephemeral, r)
    ensures BothOk(TakeUp(eras, p, p.gen + 1, num, ephemeral, r), q, p.gen % 2)
  {
    hide Linked, Synced, NextReceivedAs;
    var g := p.gen + 1;
    var ok := r.outcome.Success?;
    NextCases(eras, p, num, ephemeral, r);
    if num <= p.session.recvNum + p.session.maxSkip {
      NextPeerOk(eras, p, num, ephemeral, r);
      NextOtherKept(eras, p, q, num, ephemeral, ok);
      NextLinked(eras, g, num, ephemeral, ok);
      assert TakeUp(eras, p, g, num, ephemeral, r).eras == MarkIf(eras, g, num, ok) + [NextEra(eras[g], ephemeral, [])];
    } else {
      assert TakeUp(eras, p, g, num, ephemeral, r) == Change(eras, p);
    }
  }
}
