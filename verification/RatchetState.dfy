/**
The double ratchet of ratchet/ratchet.go: symbolic keys, the pure effect of each
operation on a session, and the class whose methods update a session in place.

Keys form a free term algebra: two keys are equal only when they are derived the
same way. X25519 is commutative because Shared holds its two scalars in order.
*/
module RatchetState {
  import opened Common

  const UINT32_RANGE := 0x1_0000_0000

  type Uint32 = n: nat | n < UINT32_RANGE
  type Scalar = nat
  type Text = string

  datatype Point = Base(scalar: Scalar) | LowOrder(id: nat)

  datatype Key =
    | ZeroKey
    | Shared(lo: Scalar, hi: Scalar)
    | InitRoot(dh1: Key, dh2: Key)
    | RootOf(root: Key, dh: Key)
    | ChainOf(root: Key, dh: Key)
    | NextChain(chain: Key)
    | MessageKey(chain: Key)

  datatype Header = Header(dhPub: Point, prevChainCount: Uint32, msgNum: Uint32)

  // TooShort has fewer than the 28 bytes of nonce and tag; Opaque was never sealed.
  datatype Body = TooShort | Opaque | Sealed(key: Key, aad: Header, text: Text)

  datatype Wire = Truncated | Message(header: Header, body: Body)

  datatype Error =
    | MessageTooShort
    | TooManySkipped
    | LowOrderPoint
    | BodyTooShort
    | StaleOrReplayed
    | AuthenticationFailed

  datatype Session = Session(
    dhs: Scalar,
    dhr: Point,
    dhPub: Point,
    root: Key,
    sendChain: Key,
    sendNum: Uint32,
    recvChain: Key,
    recvNum: Uint32,
    skipped: map<(Point, Uint32), Key>,
    maxSkip: Uint32,
    prevSendChain: Key,
    prevSendNum: Uint32,
    needsStep: bool)

  datatype Reply = Reply(next: Session, outcome: Result<Text, Error>)

  datatype Sent = Sent(next: Session, outcome: Result<Wire, Error>)

  // --- primitives ---

  function X25519(scalar: Scalar, point: Point): Result<Key, Error> {
    match point
    case LowOrder(_) => Failure(LowOrderPoint)
    case Base(other) => Success(if scalar <= other then Shared(scalar, other) else Shared(other, scalar))
  }

  function KdfRK(root: Key, dh: Key): (Key, Key) {
    (RootOf(root, dh), ChainOf(root, dh))
  }

  function KdfCK(chain: Key): (Key, Key) {
    (NextChain(chain), MessageKey(chain))
  }

  function Open(key: Key, header: Header, body: Body): Result<Text, Error> {
    if body.Sealed? && body.key == key && body.aad == header then Success(body.text)
    else Failure(AuthenticationFailed)
  }

  /** The chain key after `steps` turns of the symmetric ratchet. */
  function Advance(chain: Key, steps: nat): Key {
    if steps == 0 then chain else NextChain(Advance(chain, steps - 1))
  }

  // --- what one operation does to a session ---

  /** Deriving and storing the message key of the next expected number. */
  function SkipOne(s: Session): Session
    requires s.recvNum + 1 < UINT32_RANGE
  {
    var (chain, key) := KdfCK(s.recvChain);
    s.(recvChain := chain, skipped := s.skipped[(s.dhr, s.recvNum) := key], recvNum := s.recvNum + 1)
  }

  function SkipTo(s: Session, until: Uint32): (r: Session)
    requires s.recvNum <= until
    ensures r.recvNum == until
    decreases until - s.recvNum
  {
    if s.recvNum == until then s else SkipTo(SkipOne(s), until)
  }

  function Skip(s: Session, until: Uint32): Result<Session, Error> {
    if until < s.recvNum then Success(s)
    else if until - s.recvNum > s.maxSkip then Failure(TooManySkipped)
    else Success(SkipTo(s, until))
  }

  function Turn(s: Session, point: Point, ephemeral: Scalar): Result<Session, Error> {
    match (X25519(s.dhs, point), X25519(ephemeral, point))
    case (Success(dh1), Success(dh2)) =>
      var (root1, recvChain) := KdfRK(s.root, dh1);
      var (root2, sendChain) := KdfRK(root1, dh2);
      Success(s.(root := root2, recvChain := recvChain, sendChain := sendChain,
                 dhr := point, dhs := ephemeral, dhPub := Base(ephemeral),
                 recvNum := 0, sendNum := 0, needsStep := false))
    case _ => Failure(LowOrderPoint)
  }

  function ReceiveOnChain(s: Session, header: Header, body: Body): Reply {
    var idx := (s.dhr, header.msgNum);
    if idx in s.skipped && header.msgNum < s.recvNum then
      if body.TooShort? then Reply(s, Failure(BodyTooShort))
      else
        var plain := Open(s.skipped[idx], header, body);
        Reply(if plain.Success? then s.(skipped := s.skipped - {idx}) else s, plain)
    else if header.msgNum < s.recvNum then Reply(s, Failure(StaleOrReplayed))
    else
      match Skip(s, header.msgNum)
      case Failure(e) => Reply(s, Failure(e))
      case Success(s1) =>
        var (chain, key) := KdfCK(s1.recvChain);
        var s2 := s1.(recvChain := chain);
        if body.TooShort? then Reply(s2, Failure(BodyTooShort))
        else
          var plain := Open(key, header, body);
          Reply(if plain.Success? then s2.(recvNum := (s2.recvNum + 1) % UINT32_RANGE) else s2, plain)
  }

  function Receive(s: Session, w: Wire, ephemeral: Scalar): Reply {
    match w
    case Truncated => Reply(s, Failure(MessageTooShort))
    case Message(header, body) =>
      if header.dhPub == s.dhr then ReceiveOnChain(s, header, body)
      else
        match Skip(s, header.prevChainCount)
        case Failure(e) => Reply(s, Failure(e))
        case Success(s1) =>
          match Turn(s1, header.dhPub, ephemeral)
          case Failure(e) => Reply(s1, Failure(e))
          case Success(s2) => ReceiveOnChain(s2, header, body)
  }

  function Seal(s: Session, text: Text): Sent {
    var header := Header(s.dhPub, s.prevSendNum, s.sendNum);
    var (chain, key) := KdfCK(s.sendChain);
    Sent(s.(sendChain := chain, sendNum := (s.sendNum + 1) % UINT32_RANGE),
         Success(Message(header, Sealed(key, header, text))))
  }

  function Transmit(s0: Session, text: Text, ephemeral: Scalar): Sent {
    var s := s0.(prevSendChain := s0.sendChain, prevSendNum := s0.sendNum);
    if !s.needsStep then Seal(s, text)
    else
      match X25519(ephemeral, s.dhr)
      case Failure(e) => Sent(s, Failure(e))
      case Success(dh) =>
        var (root, chain) := KdfRK(s.root, dh);
        Seal(s.(root := root, sendChain := chain, dhs := ephemeral, dhPub := Base(ephemeral),
                sendNum := 0, needsStep := false), text)
  }

  // --- the two ways a session starts ---

  const DEFAULT_MAX_SKIP: Uint32 := 1000

  function FirstRoot(ephemeral: Scalar, remoteEphemeral: Point, identity: Scalar, remoteIdentity: Point)
    : Result<Key, Error>
  {
    match (X25519(ephemeral, remoteEphemeral), X25519(identity, remoteIdentity))
    case (Success(dh1), Success(dh2)) => Success(InitRoot(dh1, dh2))
    case _ => Failure(LowOrderPoint)
  }

  /** The initiator draws its ephemeral key itself; the responder brings the one it announced. */
  function Init(ephemeral: Scalar, remoteEphemeral: Point, identity: Scalar, remoteIdentity: Point, initiator: bool)
    : Result<Session, Error>
  {
    match FirstRoot(ephemeral, remoteEphemeral, identity, remoteIdentity)
    case Failure(e) => Failure(e)
    case Success(root) =>
      Success(Session(ephemeral, remoteEphemeral, Base(ephemeral), root, ZeroKey, 0, ZeroKey, 0,
                      map[], DEFAULT_MAX_SKIP, ZeroKey, 0, initiator))
  }

  // --- the session as an object updated in place ---

  class State {
    var dhs: Scalar
    var dhr: Point
    var dhPub: Point
    var root: Key
    var sendChain: Key
    var sendNum: Uint32
    var recvChain: Key
    var recvNum: Uint32
    var skipped: map<(Point, Uint32), Key>
    var maxSkip: Uint32
    var prevSendChain: Key
    var prevSendNum: Uint32
    var needsStep: bool

    ghost function View(): Session
      reads this
    {
      Session(dhs, dhr, dhPub, root, sendChain, sendNum, recvChain, recvNum,
              skipped, maxSkip, prevSendChain, prevSendNum, needsStep)
    }

    constructor (view: Session)
      ensures View() == view
    {
      dhs, dhr, dhPub, root := view.dhs, view.dhr, view.dhPub, view.root;
      sendChain, sendNum := view.sendChain, view.sendNum;
      recvChain, recvNum := view.recvChain, view.recvNum;
      skipped, maxSkip := view.skipped, view.maxSkip;
      prevSendChain, prevSendNum, needsStep := view.prevSendChain, view.prevSendNum, view.needsStep;
    }

    method SetMaxSkip(n: Uint32)
      modifies `maxSkip
      ensures View() == old(View()).(maxSkip := n)
    {
      maxSkip := n;
    }

    method Encrypt(text: Text, ephemeral: Scalar) returns (r: Result<Wire, Error>)
      modifies this
      ensures View() == Transmit(old(View()), text, ephemeral).next
      ensures r == Transmit(old(View()), text, ephemeral).outcome
    {
      hide X25519, KdfRK, KdfCK;
      prevSendChain := sendChain;
      prevSendNum := sendNum;
      if needsStep {
        var dh := X25519(ephemeral, dhr);
        if dh.Failure? {
          return Failure(dh.error);
        }
        var keys := KdfRK(root, dh.value);
        root, sendChain := keys.0, keys.1;
        dhs, dhPub := ephemeral, Base(ephemeral);
        sendNum := 0;
        needsStep := false;
      }
      var derived := KdfCK(sendChain);
      sendChain := derived.0;
      var header := Header(dhPub, prevSendNum, sendNum);
      sendNum := (sendNum + 1) % UINT32_RANGE;
      r := Success(Message(header, Sealed(derived.1, header, text)));
    }

    method SkipMessageKeys(until: Uint32) returns (ok: bool)
      modifies `recvChain, `recvNum, `skipped
      ensures ok == Skip(old(View()), until).Success?
      ensures View() == if ok then Skip(old(View()), until).value else old(View())
    {
      if until < recvNum {
        return true;
      }
      if until - recvNum > maxSkip {
        return false;
      }
      while recvNum < until
        invariant recvNum <= until
        invariant SkipTo(View(), until) == SkipTo(old(View()), until)
        decreases until - recvNum
      {
        var derived := KdfCK(recvChain);
        recvChain := derived.0;
        skipped := skipped[(dhr, recvNum) := derived.1];
        recvNum := recvNum + 1;
      }
      return true;
    }

    method DhRatchetStep(point: Point, ephemeral: Scalar) returns (ok: bool)
      modifies this
      ensures ok == Turn(old(View()), point, ephemeral).Success?
      ensures View() == if ok then Turn(old(View()), point, ephemeral).value else old(View())
    {
      hide KdfRK;
      var dh1 := X25519(dhs, point);
      if dh1.Failure? {
        return false;
      }
      var first := KdfRK(root, dh1.value);
      root, recvChain := first.0, first.1;
      var dh2 := X25519(ephemeral, point);
      if dh2.Failure? {
        return false;
      }
      var second := KdfRK(root, dh2.value);
      root, sendChain := second.0, second.1;
      dhr, dhs, dhPub := point, ephemeral, Base(ephemeral);
      recvNum, sendNum, needsStep := 0, 0, false;
      return true;
    }

    method Decrypt(w: Wire, ephemeral: Scalar) returns (r: Result<Text, Error>)
      modifies this
      ensures View() == Receive(old(View()), w, ephemeral).next
      ensures r == Receive(old(View()), w, ephemeral).outcome
      ensures r.Failure? && w.Message? && w.header.dhPub == old(dhr) && w.header.msgNum < old(recvNum) ==>
        View() == old(View())
    {
      if w.Truncated? {
        return Failure(MessageTooShort);
      }
      var header, body := w.header, w.body;
      if header.dhPub != dhr {
        var skippedOk := SkipMessageKeys(header.prevChainCount);
        if !skippedOk {
          return Failure(TooManySkipped);
        }
        var turned := DhRatchetStep(header.dhPub, ephemeral);
        if !turned {
          return Failure(LowOrderPoint);
        }
      }
      var idx := (dhr, header.msgNum);
      if idx in skipped && header.msgNum < recvNum {
        if body.TooShort? {
          return Failure(BodyTooShort);
        }
        r := Open(skipped[idx], header, body);
        if r.Success? {
          skipped := skipped - {idx};
        }
        return;
      }
      if header.msgNum < recvNum {
        if idx !in skipped {
          return Failure(StaleOrReplayed);
        }
      }
      var ok := SkipMessageKeys(header.msgNum);
      if !ok {
        return Failure(TooManySkipped);
      }
      var derived := KdfCK(recvChain);
      recvChain := derived.0;
      if body.TooShort? {
        return Failure(BodyTooShort);
      }
      r := Open(derived.1, header, body);
      if r.Success? {
        recvNum := (recvNum + 1) % UINT32_RANGE;
      }
    }
  }
}
