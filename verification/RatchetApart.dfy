/**
Sessions whose root keys have branched apart: a session decrypts only what is sealed under
keys of its own branch of root keys, and never leaves that branch.
*/
module RatchetApart {
  import opened RatchetState
  import opened RatchetProtocol

  /** How many root steps lie behind a root key. */
  function RootDepth(k: Key): nat {
    if k.RootOf? then 1 + RootDepth(k.root) else 0
  }

  /** The root key derived together with the chain that a chain or message key belongs to. */
  function Twin(k: Key): Key {
    match k
    case MessageKey(chain) => Twin(chain)
    case NextChain(chain) => Twin(chain)
    case ChainOf(root, dh) => RootOf(root, dh)
    case _ => ZeroKey
  }

  /** Root key k was reached from `branch` by root steps. */
  predicate Extends(k: Key, branch: Key) {
    k == branch || (k.RootOf? && Extends(k.root, branch))
  }

  predicate Apart(a: Key, b: Key) {
    !Extends(a, b) && !Extends(b, a)
  }

  lemma {:induction false} ExtendsDeeper(k: Key, branch: Key)
    requires Extends(k, branch)
    ensures RootDepth(k) >= RootDepth(branch) && (RootDepth(k) == RootDepth(branch) ==> k == branch)
  {
    if k != branch {
      ExtendsDeeper(k.root, branch);
    }
  }

  /** No root key lies on two branches that are apart. */
  lemma {:induction false} OneBranchOnly(k: Key, a: Key, b: Key)
    requires Apart(a, b) && Extends(k, a)
    ensures !Extends(k, b)
  {
    if k != a {
      OneBranchOnly(k.root, a, b);
    }
  }

  lemma {:induction false} TwinAdvance(chain: Key, n: nat)
    ensures Twin(Advance(chain, n)) == Twin(chain)
  {
    if n > 0 {
      TwinAdvance(chain, n - 1);
    }
  }

  /** Every key the session could seal or open with belongs to the branch. */
  ghost predicate On(s: Session, branch: Key) {
    && !s.needsStep
    && Extends(s.root, branch) && Extends(Twin(s.sendChain), branch) && Extends(Twin(s.recvChain), branch)
    && (forall n: Uint32 :: n < s.recvNum && (s.dhr, n) in s.skipped ==>
          Extends(Twin(s.skipped[(s.dhr, n)]), branch))
  }

  predicate SealedOn(w: Wire, branch: Key) {
    w.Message? && w.body.Sealed? && Extends(Twin(w.body.key), branch)
  }

  lemma {:induction false} SkipStaysOn(s: Session, until: Uint32, branch: Key)
    requires On(s, branch) && s.recvNum <= until
    ensures On(SkipTo(s, until), branch)
    decreases until - s.recvNum
  {
    if s.recvNum < until {
      SkipStaysOn(SkipOne(s), until, branch);
    }
  }

  lemma OnChainDeaf(s: Session, header: Header, body: Body, branch: Key)
    requires On(s, branch) && !SealedOn(Message(header, body), branch)
    ensures var r := ReceiveOnChain(s, header, body); r.outcome.Failure? && On(r.next, branch)
  {
    if s.recvNum <= header.msgNum <= s.recvNum + s.maxSkip {
      SkipStaysOn(s, header.msgNum, branch);
    }
  }

  /** Turning the root ratchet puts a session, wherever it was, on the branch that starts with that turn. */
  lemma TurnBranches(s: Session, scalar: Scalar, ephemeral: Scalar)
    ensures var t := Turn(s, Base(scalar), ephemeral);
      t.Success? && On(t.value, RootOf(s.root, Agree(s.dhs, scalar)))
  {
    var t := Turn(s, Base(scalar), ephemeral).value;
    var branch := RootOf(s.root, Agree(s.dhs, scalar));
    assert t.root.root == branch && Twin(t.recvChain) == branch && Twin(t.sendChain) == t.root;
  }

  lemma TurnStaysOn(s: Session, point: Point, ephemeral: Scalar, branch: Key)
    requires On(s, branch) && Turn(s, point, ephemeral).Success?
    ensures On(Turn(s, point, ephemeral).value, branch)
  {
    var t := Turn(s, point, ephemeral).value;
    assert t.root.root == Twin(t.recvChain) && t.root.root.root == s.root && Twin(t.sendChain) == t.root;
  }

  /** A session on a branch decrypts nothing sealed off that branch, and stays on it whatever it is given. */
  lemma Deaf(s: Session, w: Wire, ephemeral: Scalar, branch: Key)
    requires On(s, branch) && !SealedOn(w, branch)
    ensures var r := Receive(s, w, ephemeral); r.outcome.Failure? && On(r.next, branch)
  {
    hide On, ReceiveOnChain, Turn, SealedOn;
    if w.Message? {
      if w.header.dhPub == s.dhr {
        OnChainDeaf(s, w.header, w.body, branch);
      } else if Skip(s, w.header.prevChainCount).Success? {
        var s1 := Skip(s, w.header.prevChainCount).value;
        if s.recvNum <= w.header.prevChainCount {
          SkipStaysOn(s, w.header.prevChainCount, branch);
        }
        if Turn(s1, w.header.dhPub, ephemeral).Success? {
          TurnStaysOn(s1, w.header.dhPub, ephemeral, branch);
          OnChainDeaf(Turn(s1, w.header.dhPub, ephemeral).value, w.header, w.body, branch);
        }
      }
    }
  }

  /** What a session on a branch sends is sealed on that branch, under its announced key. */
  lemma Speaks(s: Session, text: Text, ephemeral: Scalar, branch: Key)
    requires On(s, branch)
    ensures var sent := Transmit(s, text, ephemeral);
      && On(sent.next, branch) && sent.next.dhs == s.dhs && sent.next.dhPub == s.dhPub
      && sent.outcome.Success? && SealedOn(sent.outcome.value, branch)
      && sent.outcome.value.header.dhPub == s.dhPub
  {
  }

  predicate SameButReceiving(s: Session, t: Session) {
    t == s.(recvChain := t.recvChain, recvNum := t.recvNum, skipped := t.skipped)
  }

  lemma {:induction false} SkipKeepsRest(s: Session, until: Uint32)
    requires s.recvNum <= until
    ensures SameButReceiving(s, SkipTo(s, until))
    decreases until - s.recvNum
  {
    if s.recvNum < until {
      SkipKeepsRest(SkipOne(s), until);
    }
  }

  /**
   * What taking up a message with another remote key does to any session, if the message is
   * not sealed on the branch this starts: it is refused, for its number without any change,
   * or with the session on the new branch.
   */
  lemma BranchesOff(s: Session, header: Header, body: Body, scalar: Scalar, ephemeral: Scalar)
    requires header.dhPub == Base(scalar) != s.dhr
    requires !SealedOn(Message(header, body), RootOf(s.root, Agree(s.dhs, scalar)))
    ensures var r := Receive(s, Message(header, body), ephemeral);
      && r.outcome.Failure?
      && (if header.prevChainCount > s.recvNum + s.maxSkip then r.next == s
          else On(r.next, RootOf(s.root, Agree(s.dhs, scalar))) && KeyFrom(r.next, ephemeral))
  {
    hide On, SealedOn;
    if header.prevChainCount <= s.recvNum + s.maxSkip {
      if s.recvNum <= header.prevChainCount {
        SkipKeepsRest(s, header.prevChainCount);
      }
      var s1 := Skip(s, header.prevChainCount).value;
      TurnBranches(s1, scalar, ephemeral);
      var t := Turn(s1, Base(scalar), ephemeral).value;
      hide ReceiveOnChain, Turn;
      OnChainDeaf(t, header, body, RootOf(s.root, Agree(s.dhs, scalar)));
      OnChainKeeps(t, header, body);
    }
  }

  predicate KeyFrom(s: Session, ephemeral: Scalar) {
    s.dhs == ephemeral && s.dhPub == Base(ephemeral)
  }

  lemma OnChainKeeps(s: Session, header: Header, body: Body)
    ensures SameButReceiving(s, ReceiveOnChain(s, header, body).next)
  {
    if s.recvNum <= header.msgNum {
      SkipKeepsRest(s, header.msgNum);
    }
  }

  // --- branches off the conversation ---

  lemma {:induction false} DepthOfEra(eras: seq<Era>, g: nat)
    requires Linked(eras) && 1 <= g < |eras|
    ensures RootDepth(eras[g].root) == g - 1
  {
    if g > 1 {
      DepthOfEra(eras, g - 1);
      assert Follows(eras[g], eras[g - 1]);
    }
  }

  /** The branch a peer of generation g starts by turning to the key of scalar `to`. */
  function BranchAt(eras: seq<Era>, g: nat, to: Scalar): Key
    requires g < |eras|
  {
    RootOf(eras[g].root, Agree(eras[g].secret, to))
  }

  /** That key is not the one the conversation went on with. */
  predicate Strays(eras: seq<Era>, g: nat, to: Scalar) {
    1 <= g < |eras| <= g + 2 && (g + 1 < |eras| ==> to != eras[g + 1].secret)
  }

  /** No message of the conversation is sealed on a branch that strays from it. */
  lemma WireOffBranch(eras: seq<Era>, g: nat, to: Scalar, h: nat, num: nat)
    requires Linked(eras) && Strays(eras, g, to) && 1 <= h < |eras| && num < |eras[h].texts| && num < UINT32_RANGE
    ensures !SealedOn(OnWire(eras, h, num), BranchAt(eras, g, to))
  {
    TwinAdvance(eras[h].chain, num);
    if h >= 2 {
      assert Follows(eras[h], eras[h - 1]);
      RootOffBranch(eras, g, to, h);
    }
  }

  lemma RootOffBranch(eras: seq<Era>, g: nat, to: Scalar, h: nat)
    requires Linked(eras) && Strays(eras, g, to) && 1 <= h < |eras|
    ensures !Extends(eras[h].root, BranchAt(eras, g, to))
  {
    DepthOfEra(eras, h);
    DepthOfEra(eras, g);
    assert g + 1 < |eras| ==> Follows(eras[g + 1], eras[g]);
    if Extends(eras[h].root, BranchAt(eras, g, to)) {
      ExtendsDeeper(eras[h].root, BranchAt(eras, g, to));
      assert false;
    }
  }

  /** Two peers of consecutive generations that both stray end on branches that are apart. */
  lemma BranchesApart(eras: seq<Era>, g: nat, a: Scalar, b: Scalar)
    requires Linked(eras) && Strays(eras, g, a) && Strays(eras, g + 1, b)
    ensures Apart(BranchAt(eras, g, a), BranchAt(eras, g + 1, b))
  {
    var x, y := BranchAt(eras, g, a), BranchAt(eras, g + 1, b);
    DepthOfEra(eras, g);
    DepthOfEra(eras, g + 1);
    if Extends(x, y) {
      ExtendsDeeper(x, y);
      assert false;
    }
    if Extends(y, x) {
      RootOffBranch(eras, g, a, g + 1);
      ExtendsDeeper(y, x);
      assert false;
    }
  }
}
