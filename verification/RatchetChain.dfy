/**
One receiving chain of a ratchet session: what a session knows of a sender's chain,
and what the receive path does to that knowledge.
*/
module RatchetChain {
  import opened Common
  import opened RatchetState

  /** A message as its sender builds it: every header carries its own number twice. */
  function Authentic(point: Point, chain: Key, n: Uint32, text: Text): Wire {
    var header := Header(point, n, n);
    Message(header, Sealed(MessageKey(Advance(chain, n)), header, text))
  }

  /**
   * The session holds the sender's chain at the next expected number, and has kept
   * exactly the sender's message keys for the numbers below it that were not delivered.
   */
  ghost predicate Tracks(s: Session, chain: Key, delivered: set<nat>) {
    && s.recvChain == Advance(chain, s.recvNum)
    && (forall n <- delivered :: n < s.recvNum)
    && (forall n: Uint32 :: (s.dhr, n) in s.skipped <==> n < s.recvNum && n !in delivered)
    && (forall n: Uint32 :: (s.dhr, n) in s.skipped ==> s.skipped[(s.dhr, n)] == MessageKey(Advance(chain, n)))
  }

  /** The two sessions differ at most in the receiving chain whose remote key is s.dhr. */
  ghost predicate SameElsewhere(s: Session, t: Session) {
    && t == s.(recvChain := t.recvChain, recvNum := t.recvNum, skipped := t.skipped)
    && (forall k <- s.skipped :: k.0 != s.dhr ==> k in t.skipped)
    && (forall k <- t.skipped :: k.0 != s.dhr ==> k in s.skipped)
    && (forall k <- s.skipped :: k.0 != s.dhr ==> s.skipped[k] == t.skipped[k])
  }

  lemma {:induction false} AdvanceInjective(c: Key, d: Key, n: nat)
    requires Advance(c, n) == Advance(d, n)
    ensures c == d
  {
    if n > 0 {
      AdvanceInjective(c, d, n - 1);
    }
  }

  lemma SkipOneTracks(s: Session, chain: Key, delivered: set<nat>)
    requires Tracks(s, chain, delivered) && s.recvNum + 1 < UINT32_RANGE
    ensures Tracks(SkipOne(s), chain, delivered)
    ensures SameElsewhere(s, SkipOne(s))
  {
  }

  /** Skipping stores exactly the sender's keys for the numbers passed over, and touches no other chain. */
  lemma {:induction false} SkipTracks(s: Session, chain: Key, delivered: set<nat>, until: Uint32)
    requires Tracks(s, chain, delivered) && s.recvNum <= until
    ensures Tracks(SkipTo(s, until), chain, delivered)
    ensures SameElsewhere(s, SkipTo(s, until))
    decreases until - s.recvNum
  {
    if s.recvNum < until {
      SkipOneTracks(s, chain, delivered);
      hide Tracks;
      SkipTracks(SkipOne(s), chain, delivered, until);
    }
  }

  /** When a message of the chain being tracked decrypts: it is new and within the skip limit. */
  predicate Acceptable(s: Session, delivered: set<nat>, n: nat) {
    n !in delivered && n <= s.recvNum + s.maxSkip
  }

  /** What receiving message n of a tracked chain must achieve. */
  ghost predicate ReceivedAs(s: Session, chain: Key, delivered: set<nat>, n: nat, text: Text, r: Reply) {
    if Acceptable(s, delivered, n) then
      && r.outcome == Success(text)
      && Tracks(r.next, chain, delivered + {n})
      && SameElsewhere(s, r.next)
      && r.next.recvNum == if n < s.recvNum then s.recvNum else n + 1
    else r.outcome.Failure? && r.next == s
  }

  lemma ReceiveBehind(s: Session, chain: Key, delivered: set<nat>, n: Uint32, text: Text)
    requires Tracks(s, chain, delivered) && n < s.recvNum
    ensures var w := Authentic(s.dhr, chain, n, text);
      ReceivedAs(s, chain, delivered, n, text, ReceiveOnChain(s, w.header, w.body))
  {
    var idx := (s.dhr, n);
    if n !in delivered {
      var w := Authentic(s.dhr, chain, n, text);
      assert Open(s.skipped[idx], w.header, w.body) == Success(text);
    }
  }

  function Taken(s: Session): Session
    requires s.recvNum + 1 < UINT32_RANGE
  {
    s.(recvChain := NextChain(s.recvChain), recvNum := s.recvNum + 1)
  }

  lemma TakeNext(s0: Session, s: Session, chain: Key, delivered: set<nat>)
    requires Tracks(s, chain, delivered) && s.recvNum + 1 < UINT32_RANGE && SameElsewhere(s0, s)
    ensures Tracks(Taken(s), chain, delivered + {s.recvNum}) && SameElsewhere(s0, Taken(s))
  {
  }

  lemma AheadReply(s: Session, chain: Key, n: Uint32, text: Text)
    requires s.recvNum <= n && n + 1 < UINT32_RANGE
    requires SkipTo(s, n).recvChain == Advance(chain, n)
    ensures var w := Authentic(s.dhr, chain, n, text);
      ReceiveOnChain(s, w.header, w.body) ==
        if n <= s.recvNum + s.maxSkip then Reply(Taken(SkipTo(s, n)), Success(text))
        else Reply(s, Failure(TooManySkipped))
  {
    hide SkipTo, Advance;
  }

  lemma ReceiveAhead(s: Session, chain: Key, delivered: set<nat>, n: Uint32, text: Text)
    requires Tracks(s, chain, delivered) && s.recvNum <= n && n + 1 < UINT32_RANGE
    ensures var w := Authentic(s.dhr, chain, n, text);
      ReceivedAs(s, chain, delivered, n, text, ReceiveOnChain(s, w.header, w.body))
  {
    hide ReceiveOnChain, SkipTo, SameElsewhere;
    SkipTracks(s, chain, delivered, n);
    AheadReply(s, chain, n, text);
    if n <= s.recvNum + s.maxSkip {
      TakeNext(s, SkipTo(s, n), chain, delivered);
    }
  }

  /**
   * A message of the tracked chain decrypts to its text exactly when it is new and
   * within the skip limit; a refused one leaves the session as it was. Only the very last
   * number a header can hold ends the tracking, as the receiver's counter wraps.
   */
  lemma ReceiveTracked(s: Session, chain: Key, delivered: set<nat>, n: Uint32, text: Text)
    requires Tracks(s, chain, delivered)
    ensures var w := Authentic(s.dhr, chain, n, text);
      var r := ReceiveOnChain(s, w.header, w.body);
      && (if Acceptable(s, delivered, n) then r.outcome == Success(text) else r.outcome.Failure? && r.next == s)
      && (n + 1 < UINT32_RANGE ==> ReceivedAs(s, chain, delivered, n, text, r))
  {
    if n < s.recvNum {
      ReceiveBehind(s, chain, delivered, n, text);
    } else if n + 1 < UINT32_RANGE {
      ReceiveAhead(s, chain, delivered, n, text);
    } else {
      SkipTracks(s, chain, delivered, n);
    }
  }

  /** The very last number a header can hold still decrypts, but the receiver's counter starts over with it. */
  lemma CounterWraps(s: Session, chain: Key, delivered: set<nat>, text: Text)
    requires Tracks(s, chain, delivered) && Acceptable(s, delivered, UINT32_RANGE - 1)
    ensures var w := Authentic(s.dhr, chain, UINT32_RANGE - 1, text);
      var r := ReceiveOnChain(s, w.header, w.body);
      r.outcome == Success(text) && r.next.recvNum == 0
  {
    SkipTracks(s, chain, delivered, UINT32_RANGE - 1);
  }

  /**
   * Numbers must fit the header: the sender's counter wraps after 2^32 messages of one
   * chain, and the message that reuses number 0 is refused once the first one arrived.
   */
  lemma HeaderRangeIsTheLimit(s: Session, chain: Key, delivered: set<nat>, t: Session, text: Text, ephemeral: Scalar)
    requires Tracks(s, chain, delivered) && 0 in delivered
    requires t.sendNum == UINT32_RANGE - 1 && !t.needsStep && t.dhPub == s.dhr
    ensures var t1 := Transmit(t, text, ephemeral).next;
      var w := Transmit(t1, text, ephemeral).outcome.value;
      t1.sendNum == 0 && ReceiveOnChain(s, w.header, w.body) == Reply(s, Failure(StaleOrReplayed))
  {
    assert (s.dhr, 0) !in s.skipped;
  }

  /** Turning the root ratchet starts tracking the new chain from its first message. */
  lemma TurnTracks(s: Session, point: Scalar, ephemeral: Scalar)
    requires forall k <- s.skipped :: k.0 != Base(point)
    ensures var t := Turn(s, Base(point), ephemeral);
      t.Success? && Tracks(t.value, t.value.recvChain, {}) && t.value.skipped == s.skipped
  {
  }

  // --- a whole list of deliveries on one chain, in any order ---

  /** The reply to each arrival, the session of one reply taking the next arrival. */
  function ReceiveAll(s: Session, chain: Key, texts: seq<Text>, ns: seq<Uint32>): (r: seq<Reply>)
    requires forall i :: 0 <= i < |ns| ==> ns[i] < |texts|
    ensures |r| == |ns|
    decreases |ns|
  {
    if |ns| == 0 then []
    else
      var w := Authentic(s.dhr, chain, ns[0], texts[ns[0]]);
      var r := ReceiveOnChain(s, w.header, w.body);
      [r] + ReceiveAll(r.next, chain, texts, ns[1..])
  }

  function SessionBefore(s: Session, replies: seq<Reply>, i: nat): Session
    requires i <= |replies|
  {
    if i == 0 then s else replies[i - 1].next
  }

  predicate FirstArrival(delivered: set<nat>, ns: seq<Uint32>, i: nat)
    requires i < |ns|
  {
    ns[i] !in delivered && ns[i] !in ns[..i]
  }

  lemma FirstOfAll(delivered: set<nat>, ns: seq<Uint32>)
    requires |ns| > 0
    ensures FirstArrival(delivered, ns, 0) <==> ns[0] !in delivered
  {
  }

  lemma ArrivalShift(delivered: set<nat>, ns: seq<Uint32>)
    requires |ns| > 0
    ensures forall i :: 0 < i < |ns| ==>
      (FirstArrival(delivered, ns, i) <==> FirstArrival(delivered + {ns[0]}, ns[1..], i - 1))
    ensures delivered + {ns[0]} + (set n <- ns[1..]) == delivered + set n <- ns
  {
    assert ns == [ns[0]] + ns[1..];
    forall i | 0 < i < |ns|
      ensures FirstArrival(delivered, ns, i) <==> FirstArrival(delivered + {ns[0]}, ns[1..], i - 1)
    {
      assert ns[..i] == [ns[0]] + ns[1..][..i - 1];
    }
  }

  /** Every arrival is at most `limit` ahead of the number expected when it arrives. */
  predicate WithinGaps(expected: nat, limit: nat, ns: seq<nat>)
    decreases |ns|
  {
    |ns| > 0 ==>
      && ns[0] <= expected + limit
      && WithinGaps(if ns[0] < expected then expected else ns[0] + 1, limit, ns[1..])
  }

  /** A first arrival is decrypted; any other is refused without changing the session. */
  predicate ArrivesAs(before: Session, text: Text, first: bool, r: Reply) {
    if first then r.outcome == Success(text) else r.outcome.Failure? && r.next == before
  }

  ghost predicate ArriveOnce(s: Session, delivered: set<nat>, texts: seq<Text>, ns: seq<Uint32>, replies: seq<Reply>)
    requires |replies| == |ns| && forall i :: 0 <= i < |ns| ==> ns[i] < |texts|
  {
    forall i :: 0 <= i < |ns| ==>
      ArrivesAs(SessionBefore(s, replies, i), texts[ns[i]], FirstArrival(delivered, ns, i), replies[i])
  }

  lemma ArriveOnceStep(s: Session, delivered: set<nat>, texts: seq<Text>, ns: seq<Uint32>, r: Reply, rest: seq<Reply>)
    requires |ns| > 0 && |rest| == |ns| - 1 && forall i :: 0 <= i < |ns| ==> ns[i] < |texts|
    requires ArrivesAs(s, texts[ns[0]], ns[0] !in delivered, r)
    requires ArriveOnce(r.next, delivered + {ns[0]}, texts, ns[1..], rest)
    ensures ArriveOnce(s, delivered, texts, ns, [r] + rest)
  {
    hide ArrivesAs, FirstArrival;
    ArrivalShift(delivered, ns);
    var replies := [r] + rest;
    forall i | 0 <= i < |ns|
      ensures ArrivesAs(SessionBefore(s, replies, i), texts[ns[i]], FirstArrival(delivered, ns, i), replies[i])
    {
      if i > 0 {
        assert ns[1..][i - 1] == ns[i] && rest[i - 1] == replies[i];
        assert SessionBefore(s, replies, i) == SessionBefore(r.next, rest, i - 1);
        assert ArrivesAs(SessionBefore(r.next, rest, i - 1), texts[ns[1..][i - 1]],
                         FirstArrival(delivered + {ns[0]}, ns[1..], i - 1), rest[i - 1]);
      } else {
        FirstOfAll(delivered, ns);
      }
    }
  }

  /**
   * Messages of one chain arriving in any order and any number of times, none further
   * ahead than the skip limit when it arrives: each decrypts to its text the first time it
   * arrives, and every repeat is refused without changing the session.
   */
  lemma {:induction false} AnyOrderOnce(s: Session, chain: Key, delivered: set<nat>, texts: seq<Text>, ns: seq<Uint32>)
    requires Tracks(s, chain, delivered) && |texts| < UINT32_RANGE
    requires forall i :: 0 <= i < |ns| ==> ns[i] < |texts|
    requires WithinGaps(s.recvNum, s.maxSkip, ns)
    ensures var replies := ReceiveAll(s, chain, texts, ns);
      && ArriveOnce(s, delivered, texts, ns, replies)
      && Tracks(SessionBefore(s, replies, |ns|), chain, delivered + set n <- ns)
    decreases |ns|
  {
    hide Tracks, ReceiveOnChain, ArriveOnce;
    if |ns| == 0 {
      assert delivered + (set n <- ns) == delivered;
      NothingArrives(s, delivered, texts, ns);
    } else {
      var n := ns[0];
      var w := Authentic(s.dhr, chain, n, texts[n]);
      var r := ReceiveOnChain(s, w.header, w.body);
      ReceiveTracked(s, chain, delivered, n, texts[n]);
      assert n in delivered ==> delivered + {n} == delivered && n < s.recvNum by {
        DeliveredIsBehind(s, chain, delivered);
      }
      ArrivalShift(delivered, ns);
      AnyOrderOnce(r.next, chain, delivered + {n}, texts, ns[1..]);
      ArriveOnceStep(s, delivered, texts, ns, r, ReceiveAll(r.next, chain, texts, ns[1..]));
    }
  }

  lemma NothingArrives(s: Session, delivered: set<nat>, texts: seq<Text>, ns: seq<Uint32>)
    requires |ns| == 0
    ensures ArriveOnce(s, delivered, texts, ns, [])
  {
  }

  lemma DeliveredIsBehind(s: Session, chain: Key, delivered: set<nat>)
    requires Tracks(s, chain, delivered)
    ensures forall n <- delivered :: n < s.recvNum
  {
  }
}
