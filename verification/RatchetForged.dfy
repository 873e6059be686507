/**
Messages nobody in the conversation sent: which of them a peer may be given without harm,
what the others cost it, and who can seal one that is accepted.
*/
module RatchetForged {
  import opened Common
  import opened RatchetState
  import opened RatchetChain
  import opened RatchetProtocol
  import opened RatchetApart
  import opened RatchetRuns
  import opened RatchetSecrecy

  // --- what a refused message does ---

  /** The message is behind the counter, too far ahead, or names a point no key agreement accepts. */
  predicate Harmless(s: Session, w: Wire) {
    || w.Truncated?
    || (if w.header.dhPub == s.dhr then
          w.header.msgNum < s.recvNum || w.header.msgNum > s.recvNum + s.maxSkip
        else w.header.dhPub.LowOrder? || w.header.prevChainCount > s.recvNum + s.maxSkip)
  }

  /** The net once `role` was given w, which is no message of the conversation. */
  function Given(net: Net, role: Role, w: Wire, ephemeral: Scalar): Net {
    var p := net.Of(role);
    net.After(role, Change(net.eras, p.(session := Receive(p.session, w, ephemeral).next)))
  }

  predicate Refuses(net: Net, role: Role, w: Wire, ephemeral: Scalar) {
    Receive(net.Of(role).session, w, ephemeral).outcome.Failure?
  }

  lemma EraStart(eras: seq<Era>, g: nat)
    requires Linked(eras) && g < |eras|
    ensures !eras[g].chain.NextChain?
  {
    if g >= 2 {
      assert Follows(eras[g], eras[g - 1]);
    }
  }

  /** A refused message within reach leaves the chain key one step further than the counter. */
  lemma AheadSlips(s: Session, chain: Key, delivered: set<nat>, header: Header, body: Body)
    requires Tracks(s, chain, delivered) && s.recvNum <= header.msgNum <= s.recvNum + s.maxSkip
    requires ReceiveOnChain(s, header, body).outcome.Failure?
    ensures ReceiveOnChain(s, header, body).next ==
      SkipTo(s, header.msgNum).(recvChain := Advance(chain, header.msgNum + 1))
  {
    SkipTracks(s, chain, delivered, header.msgNum);
  }

  lemma SlippedIsLost(eras: seq<Era>, p: Peer, w: Wire, ephemeral: Scalar)
    requires Linked(eras) && PeerOk(eras, p) && w.Message? && w.header.dhPub == p.session.dhr
    requires p.session.recvNum <= w.header.msgNum <= p.session.recvNum + p.session.maxSkip
    requires Receive(p.session, w, ephemeral).outcome.Failure?
    ensures !PeerOk(eras, p.(session := Receive(p.session, w, ephemeral).next))
  {
    hide OldKeysOnly, ReceiveOnChain;
    var g, s := RecvGen(p.gen), p.session;
    var n := w.header.msgNum;
    AheadSlips(s, eras[g].chain, eras[g].delivered, w.header, w.body);
    EraStart(eras, g);
    AdvanceUnique(eras[g].chain, eras[g].chain, n as nat + 1, n);
  }

  lemma TurnedIsLost(eras: seq<Era>, p: Peer, w: Wire, ephemeral: Scalar)
    requires Linked(eras) && PeerOk(eras, p) && w.Message? && w.header.dhPub != p.session.dhr
    requires w.header.dhPub.Base? && w.header.prevChainCount <= p.session.recvNum + p.session.maxSkip
    ensures !PeerOk(eras, p.(session := Receive(p.session, w, ephemeral).next))
  {
    hide Tracks, OldKeysOnly, ReceiveOnChain;
    var s := p.session;
    if s.recvNum <= w.header.prevChainCount {
      SkipKeepsRest(s, w.header.prevChainCount);
    }
    var t := Turn(Skip(s, w.header.prevChainCount).value, w.header.dhPub, ephemeral).value;
    OnChainKeeps(t, w.header, w.body);
    assert RootDepth(t.root) == RootDepth(s.root) + 2;
  }

  lemma HarmlessKeeps(eras: seq<Era>, p: Peer, w: Wire, ephemeral: Scalar)
    requires Linked(eras) && PeerOk(eras, p) && Harmless(p.session, w)
    requires Receive(p.session, w, ephemeral).outcome.Failure?
    ensures var t := Receive(p.session, w, ephemeral).next;
      && PeerOk(eras, p.(session := t))
      && p.session.recvNum <= t.recvNum && t.maxSkip == p.session.maxSkip
  {
    hide Tracks, OldKeysOnly, SkipTo;
    var s := p.session;
    if w.Message? && w.header.dhPub != s.dhr && Skip(s, w.header.prevChainCount).Success? {
      SkipKeepsKeys(eras, s, RecvGen(p.gen), w.header.prevChainCount);
      SkipStaysTracked(eras, p, w.header.prevChainCount);
    } else if w.Message? && w.header.dhPub == s.dhr {
      RefusedUnchanged(s, w.header, w.body);
    }
  }

  /** A refused message behind the counter or too far ahead on the current chain changes nothing, whatever its body. */
  lemma RefusedUnchanged(s: Session, header: Header, body: Body)
    requires header.msgNum < s.recvNum || header.msgNum > s.recvNum + s.maxSkip
    requires ReceiveOnChain(s, header, body).outcome.Failure?
    ensures ReceiveOnChain(s, header, body).next == s
  {
  }

  lemma SkipStaysTracked(eras: seq<Era>, p: Peer, until: Uint32)
    requires Linked(eras) && PeerOk(eras, p) && Skip(p.session, until).Success?
    ensures var t := Skip(p.session, until).value;
      && Tracks(t, eras[RecvGen(p.gen)].chain, eras[RecvGen(p.gen)].delivered) && p.session.recvNum <= t.recvNum
  {
    var s, era := p.session, eras[RecvGen(p.gen)];
    if s.recvNum <= until {
      SkipTracks(s, era.chain, era.delivered, until);
    }
  }

  /** A refused message keeps the two peers in step exactly if it is harmless. */
  lemma ForgedKeepsExactly(net: Net, role: Role, w: Wire, ephemeral: Scalar)
    requires InStep(net) && Refuses(net, role, w, ephemeral)
    ensures InStep(Given(net, role, w, ephemeral)) <==> Harmless(net.Of(role).session, w)
  {
    hide Synced, Receive, Linked;
    var p := net.Of(role);
    if Harmless(p.session, w) {
      HarmlessKeeps(net.eras, p, w, ephemeral);
    } else if w.header.dhPub == p.session.dhr {
      SlippedIsLost(net.eras, p, w, ephemeral);
    } else {
      TurnedIsLost(net.eras, p, w, ephemeral);
    }
  }

  /** Before a point without a key agreement is refused, the keys up to the count it names are stored. */
  lemma LowOrderSkips(s: Session, w: Wire, ephemeral: Scalar)
    requires w.Message? && w.header.dhPub.LowOrder? && w.header.dhPub != s.dhr
    ensures var r, count := Receive(s, w, ephemeral), w.header.prevChainCount;
      if count > s.recvNum + s.maxSkip then r == Reply(s, Failure(TooManySkipped))
      else r == Reply(if count < s.recvNum then s else SkipTo(s, count), Failure(LowOrderPoint))
  {
  }

  /** A message whose header is not the one it was sealed with is refused, by any session. */
  lemma TamperedRefused(s: Session, w: Wire, ephemeral: Scalar)
    requires w.Message? && (w.body.Sealed? ==> w.body.aad != w.header)
    ensures Receive(s, w, ephemeral).outcome.Failure?
  {
  }

  /** Why a message is refused; after a turn of the root ratchet the counter starts from zero. */
  lemma RefusedBecause(s: Session, w: Wire, ephemeral: Scalar)
    requires Receive(s, w, ephemeral).outcome.Failure?
    ensures var error := Receive(s, w, ephemeral).outcome.error;
      && (error.MessageTooShort? <==> w.Truncated?)
      && (w.Message? && w.header.dhPub == s.dhr ==>
            var n := w.header.msgNum;
            && (error.StaleOrReplayed? <==> n < s.recvNum && (s.dhr, n) !in s.skipped)
            && (error.TooManySkipped? <==> n > s.recvNum + s.maxSkip)
            && (error.BodyTooShort? ==> w.body.TooShort?) && !error.LowOrderPoint?)
      && (w.Message? && w.header.dhPub != s.dhr ==>
            && (error.LowOrderPoint? <==>
                  w.header.dhPub.LowOrder? && w.header.prevChainCount <= s.recvNum + s.maxSkip)
            && (error.TooManySkipped? <==>
                  || w.header.prevChainCount > s.recvNum + s.maxSkip
                  || (!w.header.dhPub.LowOrder? && w.header.msgNum > s.maxSkip)))
  {
    if w.Message? && w.header.dhPub != s.dhr && s.recvNum <= w.header.prevChainCount <= s.recvNum + s.maxSkip {
      SkipKeepsRest(s, w.header.prevChainCount);
    }
  }

  // --- any number of them ---

  datatype Forgery = Forgery(w: Wire, ephemeral: Scalar)

  function GivenAll(net: Net, role: Role, fs: seq<Forgery>): Net
    decreases |fs|
  {
    if |fs| == 0 then net else GivenAll(Given(net, role, fs[0].w, fs[0].ephemeral), role, fs[1..])
  }

  /** Each is refused and harmless when it arrives. */
  predicate AllHarmless(net: Net, role: Role, fs: seq<Forgery>)
    decreases |fs|
  {
    |fs| > 0 ==>
      && Refuses(net, role, fs[0].w, fs[0].ephemeral) && Harmless(net.Of(role).session, fs[0].w)
      && AllHarmless(Given(net, role, fs[0].w, fs[0].ephemeral), role, fs[1..])
  }

  lemma GivenKeeps(net: Net, role: Role, w: Wire, ephemeral: Scalar)
    requires InStep(net) && Refuses(net, role, w, ephemeral) && Harmless(net.Of(role).session, w)
    ensures var net1 := Given(net, role, w, ephemeral);
      && InStep(net1) && net1.eras == net.eras && net1.Of(role).gen == net.Of(role).gen
      && net.Of(role).session.recvNum <= net1.Of(role).session.recvNum
      && net1.Of(role).session.maxSkip == net.Of(role).session.maxSkip
  {
    hide Synced, Receive, Linked;
    ForgedKeepsExactly(net, role, w, ephemeral);
    HarmlessKeeps(net.eras, net.Of(role), w, ephemeral);
  }

  /** After any number of harmless forgeries the two peers are in step, and what was decryptable still is. */
  lemma {:induction false} ForgeriesKeep(net: Net, role: Role, fs: seq<Forgery>, g: nat, num: nat)
    requires InStep(net) && AllHarmless(net, role, fs) && g < |net.eras|
    ensures var net1 := GivenAll(net, role, fs);
      && InStep(net1) && net1.eras == net.eras && net1.Of(role).gen == net.Of(role).gen
      && (Decryptable(net.eras, net.Of(role), g, num) ==> Decryptable(net1.eras, net1.Of(role), g, num))
    decreases |fs|
  {
    hide InStep, Refuses, Harmless, Given;
    if |fs| > 0 {
      GivenKeeps(net, role, fs[0].w, fs[0].ephemeral);
      ForgeriesKeep(Given(net, role, fs[0].w, fs[0].ephemeral), role, fs[1..], g, num);
    }
  }

  /** So a genuine message that could be decrypted before them decrypts to its text after them. */
  lemma GenuineStillDecrypts(net: Net, fs: seq<Forgery>, e: Event)
    requires InStep(net) && AllHarmless(net, e.role, fs)
    requires e.Deliver? && Possible(net, e) && Decryptable(net.eras, net.Of(e.role), e.era, e.num)
    ensures var net1 := GivenAll(net, e.role, fs);
      && Possible(net1, e)
      && ReplyTo(net1.eras, net1.Of(e.role), e.era, e.num, e.ephemeral).outcome
           == Success(net.eras[e.era].texts[e.num])
  {
    hide InStep, AllHarmless, Decryptable, ReplyTo;
    ForgeriesKeep(net, e.role, fs, e.era, e.num);
    DecryptsExactly(GivenAll(net, e.role, fs), e);
  }

  // --- what a harmful one costs ---

  /**
  A refused message number n within reach on the current chain: of the chain's genuine messages
  exactly those before n that were not delivered can still be decrypted, and to their texts.
  */
  lemma SlippedHearsExactly(s: Session, chain: Key, delivered: set<nat>, header: Header, body: Body,
                            m: Uint32, text: Text)
    requires Tracks(s, chain, delivered) && !chain.NextChain? && header.dhPub == s.dhr
    requires s.recvNum <= header.msgNum <= s.recvNum + s.maxSkip
    requires ReceiveOnChain(s, header, body).outcome.Failure?
    ensures var t := ReceiveOnChain(s, header, body).next;
      var w := Authentic(s.dhr, chain, m, text);
      var outcome := ReceiveOnChain(t, w.header, w.body).outcome;
      && (outcome.Success? <==> m < header.msgNum && m !in delivered)
      && (outcome.Success? ==> outcome.value == text)
  {
    hide SkipTo, ReceiveOnChain;
    var n := header.msgNum;
    AheadSlips(s, chain, delivered, header, body);
    SkipTracks(s, chain, delivered, n);
    var t := SkipTo(s, n);
    if m >= n {
      SlippedPast(t.(recvChain := Advance(chain, n as nat + 1)), chain, m, text);
    } else {
      ReceiveBehind(t, chain, delivered, m, text);
      SlippedBehind(t, Advance(chain, n as nat + 1), Authentic(s.dhr, chain, m, text));
    }
  }

  /** Behind the counter the chain key plays no part. */
  lemma SlippedBehind(t: Session, chain: Key, w: Wire)
    requires w.Message? && w.header.msgNum < t.recvNum
    ensures ReceiveOnChain(t.(recvChain := chain), w.header, w.body).outcome
         == ReceiveOnChain(t, w.header, w.body).outcome
  {
  }

  lemma SlippedPast(t: Session, chain: Key, m: Uint32, text: Text)
    requires t.recvNum <= m && !chain.NextChain? && t.recvChain == Advance(chain, t.recvNum as nat + 1)
    ensures var w := Authentic(t.dhr, chain, m, text); ReceiveOnChain(t, w.header, w.body).outcome.Failure?
  {
    hide SkipTo;
    var n := t.recvNum as nat;
    if m - n <= t.maxSkip {
      SkipAdvances(t, m);
      AdvanceAdds(chain, n + 1, m - n);
      AdvanceUnique(chain, chain, m as nat + 1, m);
    }
  }

  lemma {:induction false} SkipAdvances(s: Session, until: Uint32)
    requires s.recvNum <= until
    ensures SkipTo(s, until).recvChain == Advance(s.recvChain, until - s.recvNum)
    decreases until - s.recvNum
  {
    if s.recvNum < until {
      SkipAdvances(SkipOne(s), until);
      AdvanceAdds(s.recvChain, 1, until - s.recvNum - 1);
    }
  }

  lemma {:induction false} AdvanceAdds(chain: Key, m: nat, n: nat)
    ensures Advance(Advance(chain, m), n) == Advance(chain, m + n)
  {
    if n > 0 {
      AdvanceAdds(chain, m, n - 1);
    }
  }

  // --- who can seal an accepted one ---

  lemma RootSecret(net: Net, g: nat, scalars: set<Scalar>)
    requires Guarded(net) && 1 <= g < |net.eras| && forall k <- scalars :: Unused(net.eras, k)
    ensures !Derivable(net.eras[g].root, scalars, {})
  {
    hide Synced, Recalls, Forgets;
    var eras := net.eras;
    assert eras[g] in eras && eras[g - 1] in eras;
    if g >= 2 {
      assert Follows(eras[g], eras[g - 1]);
    }
  }

  /** What decrypts on a tracked chain is sealed under that chain's key for its number. */
  lemma OpenedByChain(s: Session, chain: Key, delivered: set<nat>, header: Header, body: Body)
    requires Tracks(s, chain, delivered) && ReceiveOnChain(s, header, body).outcome.Success?
    ensures body.Sealed? && body.key == MessageKey(Advance(chain, header.msgNum))
  {
    if header.msgNum >= s.recvNum {
      SkipTracks(s, chain, delivered, header.msgNum);
    }
  }

  lemma OpenedOnBranch(s: Session, w: Wire, ephemeral: Scalar)
    requires w.Message? && w.header.dhPub != s.dhr && Receive(s, w, ephemeral).outcome.Success?
    ensures w.header.dhPub.Base?
    ensures SealedOn(w, RootOf(s.root, Agree(s.dhs, w.header.dhPub.scalar)))
  {
    var to := w.header.dhPub.scalar;
    if !SealedOn(w, RootOf(s.root, Agree(s.dhs, to))) {
      BranchesOff(s, w.header, w.body, to, ephemeral);
    }
  }

  lemma {:induction false} TwinDerivable(k: Key, scalars: set<Scalar>)
    requires Derivable(k, scalars, {})
    ensures Derivable(Twin(k), scalars, {})
  {
    match k
    case MessageKey(chain) => TwinDerivable(chain, scalars);
    case NextChain(chain) => TwinDerivable(chain, scalars);
    case _ =>
  }

  lemma {:induction false} ExtendsDerivable(k: Key, branch: Key, scalars: set<Scalar>)
    requires Derivable(k, scalars, {}) && Extends(k, branch)
    ensures Derivable(branch, scalars, {})
  {
    if k != branch {
      ExtendsDerivable(k.root, branch, scalars);
    }
  }

  /** Sealed under a key that can be derived from the wire alone, by someone who knows none of the peers' scalars. */
  ghost predicate SealedByOutsider(eras: seq<Era>, w: Wire, scalars: set<Scalar>) {
    && (forall k <- scalars :: Unused(eras, k))
    && w.Message? && w.body.Sealed? && Derivable(w.body.key, scalars, {})
  }

  lemma OutsiderOnlyOnZeroChain(net: Net, role: Role, w: Wire, ephemeral: Scalar, scalars: set<Scalar>)
    requires Guarded(net) && SealedByOutsider(net.eras, w, scalars)
    requires Receive(net.Of(role).session, w, ephemeral).outcome.Success?
    ensures net.Of(role).gen <= 2
  {
    hide Receive, Recalls, Forgets, OldKeysOnly, Linked, ReceiveOnChain, Tracks;
    var eras, p := net.eras, net.Of(role);
    var s := p.session;
    if w.header.dhPub == s.dhr {
      var era := eras[RecvGen(p.gen)];
      ReceivesDirectly(s, w, ephemeral);
      OpenedByChain(s, era.chain, era.delivered, w.header, w.body);
      if p.gen >= 2 {
        WireKeepsSecretsExactly(net, p.gen - 1, w.header.msgNum, scalars);
      }
    } else {
      OpenedOnBranch(s, w, ephemeral);
      var branch := RootOf(s.root, Agree(s.dhs, w.header.dhPub.scalar));
      TwinDerivable(w.body.key, scalars);
      ExtendsDerivable(Twin(w.body.key), branch, scalars);
      RootSecret(net, if p.gen == 0 then 1 else p.gen, scalars);
      assert false;
    }
  }

  /** The chain being received starts from the all-zero key. */
  lemma ZeroChainForges(net: Net, role: Role, ephemeral: Scalar, scalars: set<Scalar>) returns (w: Wire)
    requires InStep(net) && net.Of(role).gen <= 2 && forall k <- scalars :: Unused(net.eras, k)
    ensures SealedByOutsider(net.eras, w, scalars)
    ensures Receive(net.Of(role).session, w, ephemeral).outcome.Success?
  {
    hide Receive, OldKeysOnly, ReceiveOnChain;
    var p := net.Of(role);
    var s, era := p.session, net.eras[RecvGen(p.gen)];
    FirstChainIsZero(net.eras);
    w := Authentic(s.dhr, ZeroKey, s.recvNum, "forged");
    ReceiveTracked(s, era.chain, era.delivered, s.recvNum, "forged");
    ReceivesDirectly(s, w, ephemeral);
    AdvanceDerivable(ZeroKey, s.recvNum, scalars, {});
  }

  /**
   * Whether an outsider can seal a message a peer accepts: exactly as long as the chain it
   * receives on is one of the first two, which start from the all-zero key.
   */
  lemma AuthenticExactly(net: Net, role: Role, scalars: set<Scalar>)
    requires Guarded(net) && forall k <- scalars :: Unused(net.eras, k)
    ensures (exists w, ephemeral ::
              SealedByOutsider(net.eras, w, scalars) && Receive(net.Of(role).session, w, ephemeral).outcome.Success?)
       <==> net.Of(role).gen <= 2
  {
    hide Receive, Guarded, InStep, SealedByOutsider;
    GuardedInStep(net);
    if net.Of(role).gen <= 2 {
      var w := ZeroChainForges(net, role, 0, scalars);
    }
    if w, ephemeral :| SealedByOutsider(net.eras, w, scalars) &&
                       Receive(net.Of(role).session, w, ephemeral).outcome.Success? {
      OutsiderOnlyOnZeroChain(net, role, w, ephemeral, scalars);
    }
  }

  lemma ReceivesDirectly(s: Session, w: Wire, ephemeral: Scalar)
    requires w.Message? && w.header.dhPub == s.dhr
    ensures Receive(s, w, ephemeral) == ReceiveOnChain(s, w.header, w.body)
  {
  }

  lemma FirstChainIsZero(eras: seq<Era>)
    requires Linked(eras)
    ensures eras[0].chain == ZeroKey && eras[1].chain == ZeroKey
  {
  }
}
