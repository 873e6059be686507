/**
Two region nodes with any number of interleaved local and cross-region transactions:
money is conserved, what a member has locked is what its transactions in flight need, and
both block chains stay hash-linked.
*/
module RegionNet {
  import opened Common
  import opened Sums
  import opened Region

  /** A cross-region transaction not settled yet; both parties may turn out to be members of one node. */
  datatype Flight = Flight(atFirst: bool, toFirst: bool, from: Id, to: Id, amount: nat)

  datatype Net = Net(first: Node, second: Node, flights: map<nat, Flight>, next: nat)

  datatype Event =
    | Local(atFirst: bool, from: Id, to: Id, amount: nat, now: int)
    | Initiate(flight: Flight)
    | Record(atFirst: bool, now: int)
    | Finalize(number: nat)

  /** The fee rates of the two kinds of transactions, and the block hash. */
  datatype Rates = Rates(local: nat, cross: nat, hash: BlockHash)

  function Side(net: Net, atFirst: bool): Node {
    if atFirst then net.first else net.second
  }

  function WithSide(net: Net, atFirst: bool, n: Node): Net {
    if atFirst then net.(first := n) else net.(second := n)
  }

  function WithBooks(net: Net, atFirst: bool, b: Books): Net {
    WithSide(net, atFirst, Side(net, atFirst).(books := b))
  }

  /**
  Amounts with their fees fit in 64 bits, recipients were checked to be members, and each
  transaction in flight is settled once.
  */
  predicate Allowed(rates: Rates, net: Net, e: Event) {
    match e
    case Local(atFirst, _, to, amount, _) => Fits(amount, rates.local) && to in Side(net, atFirst).books.members
    case Initiate(f) => Fits(f.amount, rates.cross)
    case Record(atFirst, _) => |Side(net, atFirst).queue| > 0
    case Finalize(n) => n in net.flights && AcceptsCross(Side(net, net.flights[n].toFirst).books, net.flights[n].to)
  }

  function Settled(rates: Rates, net: Net, f: Flight): Settlement {
    SettleCross(Side(net, f.atFirst).books, Side(net, f.toFirst).books, f.from, f.to, f.amount, rates.cross)
  }

  /** The nodes once the transaction in flight is settled. */
  function AfterSettling(rates: Rates, net: Net, f: Flight): Net {
    if f.atFirst == f.toFirst then
      WithBooks(net, f.atFirst, SettleHere(Side(net, f.atFirst).books, f.from, f.to, f.amount, rates.cross))
    else
      var x := Settled(rates, net, f);
      WithBooks(WithBooks(net, f.atFirst, x.sender), f.toFirst, x.receiver)
  }

  /** What is in flight is what the transaction queued last says. */
  function FlightOf(f: Flight, n: Node): Flight
    requires |n.queue| > 0
  {
    var tx := n.queue[|n.queue| - 1];
    Flight(f.atFirst, f.toFirst, tx.from, tx.to, tx.amount)
  }

  /** The transaction queued is the one asked for. */
  lemma QueuedAsAsked(f: Flight, n: Node, rate: nat)
    requires Locks(n.books.members, f.from, Charge(f.amount, rate))
    ensures var n1 := InitiateNode(n, f.from, f.to, f.amount, rate);
      |n1.queue| == |n.queue| + 1 && FlightOf(f, n1) == f
  {
  }

  function Step(rates: Rates, net: Net, e: Event): Net
    requires Allowed(rates, net, e)
  {
    match e
    case Local(atFirst, from, to, amount, now) =>
      WithSide(net, atFirst, LocalNode(Side(net, atFirst), from, to, amount, rates.local, now, rates.hash))
    case Initiate(f) =>
      var n := Side(net, f.atFirst);
      var net1 := WithSide(net, f.atFirst, InitiateNode(n, f.from, f.to, f.amount, rates.cross));
      if !Locks(n.books.members, f.from, Charge(f.amount, rates.cross)) then net1
      else net1.(flights := net.flights[net.next := FlightOf(f, Side(net1, f.atFirst))], next := net.next + 1)
    case Record(atFirst, now) => WithSide(net, atFirst, RecordNode(Side(net, atFirst), now, rates.hash))
    case Finalize(n) => AfterSettling(rates, net, net.flights[n]).(flights := net.flights - {n})
  }

  // --- what the transactions in flight need ---

  function Needs(rates: Rates, f: Flight, atFirst: bool, who: Id): int {
    if f.atFirst == atFirst && f.from == who then f.amount + Fee(f.amount, rates.cross) else 0
  }

  ghost function Need(rates: Rates, flights: map<nat, Flight>, atFirst: bool, who: Id): int {
    Sum(NeedColumn(rates, flights, atFirst, who))
  }

  ghost function NeedColumn(rates: Rates, flights: map<nat, Flight>, atFirst: bool, who: Id): map<nat, int> {
    map n <- flights :: Needs(rates, flights[n], atFirst, who)
  }

  lemma NeedAdds(rates: Rates, flights: map<nat, Flight>, n: nat, f: Flight, atFirst: bool, who: Id)
    requires n !in flights
    ensures Need(rates, flights[n := f], atFirst, who)
         == Need(rates, flights, atFirst, who) + Needs(rates, f, atFirst, who)
  {
    hide Sum, Needs;
    SumUpdate(NeedColumn(rates, flights, atFirst, who), n, Needs(rates, f, atFirst, who));
    assert NeedColumn(rates, flights[n := f], atFirst, who)
        == NeedColumn(rates, flights, atFirst, who)[n := Needs(rates, f, atFirst, who)];
  }

  lemma NeedRemoves(rates: Rates, flights: map<nat, Flight>, n: nat, atFirst: bool, who: Id)
    requires n in flights
    ensures Need(rates, flights - {n}, atFirst, who)
         == Need(rates, flights, atFirst, who) - Needs(rates, flights[n], atFirst, who)
    ensures Need(rates, flights, atFirst, who) >= Needs(rates, flights[n], atFirst, who) >= 0
  {
    hide Sum;
    var column := NeedColumn(rates, flights, atFirst, who);
    SumRemove(column, n);
    PartOfSum(column, n);
    assert NeedColumn(rates, flights - {n}, atFirst, who) == column - {n};
  }

  /** Every member's locked amount is the sum over its own transactions in flight, and nobody else has any. */
  ghost predicate LocksMatch(rates: Rates, b: Books, flights: map<nat, Flight>, atFirst: bool) {
    forall m <- b.members :: b.members[m].locked == Need(rates, flights, atFirst, m)
  }

  ghost predicate FlightsKnown(rates: Rates, net: Net) {
    forall n <- net.flights ::
      && n < net.next && Fits(net.flights[n].amount, rates.cross)
      && net.flights[n].from in Side(net, net.flights[n].atFirst).books.members
  }

  ghost function Money(net: Net): int {
    Wealth(net.first.books) + Wealth(net.second.books)
  }

  ghost predicate LocksInOrder(rates: Rates, net: Net) {
    && LocksMatch(rates, net.first.books, net.flights, true)
    && LocksMatch(rates, net.second.books, net.flights, false)
  }

  ghost predicate ChainsLinked(rates: Rates, net: Net) {
    HashLinked(net.first.log, rates.hash) && HashLinked(net.second.log, rates.hash)
  }

  ghost predicate InOrder(rates: Rates, net: Net) {
    Money(net) < UINT64_RANGE && FlightsKnown(rates, net) && LocksInOrder(rates, net) && ChainsLinked(rates, net)
  }

  lemma SidesWithin(net: Net)
    requires Money(net) < UINT64_RANGE
    ensures 0 <= Wealth(net.first.books) < UINT64_RANGE && 0 <= Wealth(net.second.books) < UINT64_RANGE
  {
    WealthNonNegative(net.first.books);
    WealthNonNegative(net.second.books);
  }

  lemma LocalLinked(n: Node, from: Id, to: Id, amount: nat, rate: nat, now: int, hash: BlockHash)
    requires HashLinked(n.log, hash)
    ensures HashLinked(LocalNode(n, from, to, amount, rate, now, hash).log, hash)
  {
    hide HashLinked, Appended, LocalBooks, LocalOutcome;
    var number := n.txSeq + 1;
    LinkOne(n.log, Tx(TxId(n.region, number), from, to, amount, number, TxConfirmed, None), now, hash);
  }

  lemma LocalKeeps(rates: Rates, net: Net, e: Event)
    requires InOrder(rates, net) && e.Local? && Allowed(rates, net, e)
    ensures InOrder(rates, Step(rates, net, e)) && Money(Step(rates, net, e)) == Money(net)
  {
    hide Wealth, LocalBooks, LocalOutcome, Need, Fee, HashLinked, Appended;
    SidesWithin(net);
    var n := Side(net, e.atFirst);
    LocalConserves(n.books, e.from, e.to, e.amount, rates.local);
    LocalLinked(n, e.from, e.to, e.amount, rates.local, e.now, rates.hash);
  }

  /** Recording a queued transaction moves no money. */
  lemma RecordKeeps(rates: Rates, net: Net, e: Event)
    requires InOrder(rates, net) && e.Record? && Allowed(rates, net, e)
    ensures InOrder(rates, Step(rates, net, e)) && Money(Step(rates, net, e)) == Money(net)
  {
    hide Wealth, Need, HashLinked, Appended;
    var n := Side(net, e.atFirst);
    LinkOne(n.log, n.queue[0].(number := n.txSeq + 1), e.now, rates.hash);
  }

  lemma LockOnly(b: Books, who: Id, total: nat)
    requires Wealth(b) < UINT64_RANGE && Locks(b.members, who, total)
    ensures Wealth(b.(members := Locked(b.members, who, total))) == Wealth(b)
    ensures Locked(b.members, who, total)
         == b.members[who := Member(b.members[who].balance - total, b.members[who].locked + total)]
  {
    hide Sum, Wealth;
    MemberWithin(b, who);
    var m := Member(b.members[who].balance - total, b.members[who].locked + total);
    ColumnUpdate(b.members, who, m);
    WealthOf(b);
    WealthOf(b.(members := b.members[who := m]));
  }

  /** The same books with more locked for one member. */
  function Raised(b: Books, who: Id, more: nat): Books
    requires who in b.members
  {
    b.(members := b.members[who := b.members[who].(locked := b.members[who].locked + more)])
  }

  lemma NeedNew(rates: Rates, b: Books, flights: map<nat, Flight>, n: nat, f: Flight, atFirst: bool)
    requires LocksMatch(rates, b, flights, atFirst) && n !in flights && f.from in b.members
    ensures LocksMatch(rates,
      if f.atFirst == atFirst then
        Raised(b, f.from, f.amount + Fee(f.amount, rates.cross))
      else b, flights[n := f], atFirst)
  {
    hide Need, Fee;
    forall m
      ensures Need(rates, flights[n := f], atFirst, m)
           == Need(rates, flights, atFirst, m) + Needs(rates, f, atFirst, m)
    {
      NeedAdds(rates, flights, n, f, atFirst, m);
    }
  }

  lemma NeedOther(rates: Rates, b: Books, flights: map<nat, Flight>, n: nat, f: Flight, atFirst: bool)
    requires LocksMatch(rates, b, flights, atFirst) && n !in flights && f.atFirst != atFirst
    ensures LocksMatch(rates, b, flights[n := f], atFirst)
  {
    hide Need;
    forall m ensures Need(rates, flights[n := f], atFirst, m) == Need(rates, flights, atFirst, m) {
      NeedAdds(rates, flights, n, f, atFirst, m);
    }
  }

  /** Only the locks matter, not the balances. */
  lemma LocksOnly(rates: Rates, b: Books, c: Books, flights: map<nat, Flight>, atFirst: bool)
    requires LocksMatch(rates, b, flights, atFirst) && c.members.Keys == b.members.Keys
    requires forall m <- c.members :: c.members[m].locked == b.members[m].locked
    ensures LocksMatch(rates, c, flights, atFirst)
  {
  }

  lemma InitiateKeeps(rates: Rates, net: Net, e: Event)
    requires InOrder(rates, net) && e.Initiate? && Allowed(rates, net, e)
    ensures InOrder(rates, Step(rates, net, e)) && Money(Step(rates, net, e)) == Money(net)
  {
    hide Wealth, Fee, Need, LocksMatch, HashLinked;
    var f := e.flight;
    var b, total := Side(net, f.atFirst).books, Charge(f.amount, rates.cross);
    assert total == f.amount + Fee(f.amount, rates.cross);
    SidesWithin(net);
    if Locks(b.members, f.from, total) {
      QueuedAsAsked(f, Side(net, f.atFirst), rates.cross);
      LockOnly(b, f.from, total);
      var raised := Raised(b, f.from, f.amount + Fee(f.amount, rates.cross));
      NeedNew(rates, b, net.flights, net.next, f, f.atFirst);
      LocksOnly(rates, raised, b.(members := Locked(b.members, f.from, total)), net.flights[net.next := f], f.atFirst);
      NeedOther(rates, Side(net, !f.atFirst).books, net.flights, net.next, f, !f.atFirst);
    }
  }

  lemma NeedGone(rates: Rates, b: Books, flights: map<nat, Flight>, n: nat, atFirst: bool)
    requires LocksMatch(rates, b, flights, atFirst) && n in flights
    requires flights[n].atFirst == atFirst ==> flights[n].from in b.members
    ensures flights[n].atFirst == atFirst ==>
      b.members[flights[n].from].locked >= flights[n].amount + Fee(flights[n].amount, rates.cross)
    ensures LocksMatch(rates,
      if flights[n].atFirst == atFirst then
        b.(members := Unlocked(b.members, flights[n].from, flights[n].amount + Fee(flights[n].amount, rates.cross)))
      else b, flights - {n}, atFirst)
  {
    hide Need, Fee;
    forall m
      ensures Need(rates, flights - {n}, atFirst, m)
           == Need(rates, flights, atFirst, m) - Needs(rates, flights[n], atFirst, m)
      ensures Need(rates, flights, atFirst, m) >= Needs(rates, flights[n], atFirst, m)
    {
      NeedRemoves(rates, flights, n, atFirst, m);
    }
  }

  /** Settling a transaction in flight never fails: the lock always covers the charge. */
  lemma FinalizeSucceeds(rates: Rates, net: Net, n: nat)
    requires InOrder(rates, net) && Allowed(rates, net, Finalize(n))
    ensures var f := net.flights[n];
      && Unlocks(Side(net, f.atFirst).books.members, f.from, f.amount + Fee(f.amount, rates.cross))
      && (f.atFirst != f.toFirst ==> Settled(rates, net, f).outcome.Done?)
  {
    hide Wealth, Fee, Need, HashLinked;
    var f := net.flights[n];
    NeedGone(rates, Side(net, f.atFirst).books, net.flights, n, f.atFirst);
  }

  lemma FinalizeAcross(rates: Rates, net: Net, n: nat)
    requires InOrder(rates, net) && Allowed(rates, net, Finalize(n)) && net.flights[n].atFirst != net.flights[n].toFirst
    ensures InOrder(rates, Step(rates, net, Finalize(n))) && Money(Step(rates, net, Finalize(n))) == Money(net)
  {
    hide Wealth, Fee, Need, LocksMatch, HashLinked;
    var f := net.flights[n];
    var s, r := Side(net, f.atFirst).books, Side(net, f.toFirst).books;
    var total := Charge(f.amount, rates.cross);
    assert total == f.amount + Fee(f.amount, rates.cross);
    FinalizeSucceeds(rates, net, n);
    SettleEffect(s, r, f.from, f.to, f.amount, rates.cross);
    var x := Settled(rates, net, f);
    NeedGone(rates, s, net.flights, n, f.atFirst);
    NeedGone(rates, r, net.flights, n, f.toFirst);
    LocksOnly(rates, s.(members := Unlocked(s.members, f.from, total)), x.sender, net.flights - {n}, f.atFirst);
    LocksOnly(rates, r, x.receiver, net.flights - {n}, f.toFirst);
  }

  lemma FinalizeWithin(rates: Rates, net: Net, n: nat)
    requires InOrder(rates, net) && Allowed(rates, net, Finalize(n)) && net.flights[n].atFirst == net.flights[n].toFirst
    ensures InOrder(rates, Step(rates, net, Finalize(n))) && Money(Step(rates, net, Finalize(n))) == Money(net)
  {
    hide Wealth, Fee, Need, LocksMatch, HashLinked;
    var f := net.flights[n];
    var b, other := Side(net, f.atFirst).books, Side(net, !f.atFirst).books;
    var total := Charge(f.amount, rates.cross);
    assert total == f.amount + Fee(f.amount, rates.cross);
    FinalizeSucceeds(rates, net, n);
    SidesWithin(net);
    SettleHereEffect(b, f.from, f.to, f.amount, rates.cross);
    NeedGone(rates, b, net.flights, n, f.atFirst);
    NeedGone(rates, other, net.flights, n, !f.atFirst);
    var b1 := SettleHere(b, f.from, f.to, f.amount, rates.cross);
    LocksOnly(rates, b.(members := Unlocked(b.members, f.from, total)), b1, net.flights - {n}, f.atFirst);
  }

  // --- whole runs ---

  predicate Runs(rates: Rates, net: Net, events: seq<Event>)
    decreases |events|
  {
    |events| == 0 || (Allowed(rates, net, events[0]) && Runs(rates, Step(rates, net, events[0]), events[1..]))
  }

  function After(rates: Rates, net: Net, events: seq<Event>): Net
    requires Runs(rates, net, events)
    decreases |events|
  {
    if |events| == 0 then net else After(rates, Step(rates, net, events[0]), events[1..])
  }

  predicate OneNode(net: Net, n: nat) {
    n in net.flights && net.flights[n].atFirst == net.flights[n].toFirst
  }

  /**
  Over every run the money on both nodes stays the same, locks match the transactions in flight, and the
  chains stay linked.
  */
  lemma {:induction false} RunConserves(rates: Rates, net: Net, events: seq<Event>)
    requires InOrder(rates, net) && Runs(rates, net, events)
    ensures InOrder(rates, After(rates, net, events)) && Money(After(rates, net, events)) == Money(net)
    decreases |events|
  {
    hide InOrder, Money, Step, FlightsKnown;
    if |events| > 0 {
      match events[0] {
        case Local(_, _, _, _, _) => LocalKeeps(rates, net, events[0]);
        case Initiate(_) => InitiateKeeps(rates, net, events[0]);
        case Record(_, _) => RecordKeeps(rates, net, events[0]);
        case Finalize(n) =>
          if OneNode(net, n) {
            FinalizeWithin(rates, net, n);
          } else {
            FinalizeAcross(rates, net, n);
          }
      }
      RunConserves(rates, Step(rates, net, events[0]), events[1..]);
    }
  }

  /** Two nodes with nothing locked and nothing in flight are in order, as long as their money fits in 64 bits. */
  lemma StartInOrder(rates: Rates, first: Node, second: Node)
    requires Wealth(first.books) + Wealth(second.books) < UINT64_RANGE
    requires first.log == second.log == Log([], ZERO)
    requires forall m <- first.books.members :: first.books.members[m].locked == 0
    requires forall m <- second.books.members :: second.books.members[m].locked == 0
    ensures InOrder(rates, Net(first, second, map[], 0))
  {
    forall atFirst, m ensures Need(rates, map[], atFirst, m) == 0 {
      assert NeedColumn(rates, map[], atFirst, m) == map[];
    }
  }

  /** When everything in flight has been settled, no member has anything locked. */
  lemma SettledAll(rates: Rates, net: Net, atFirst: bool, m: Id)
    requires InOrder(rates, net) && |net.flights| == 0 && m in Side(net, atFirst).books.members
    ensures Side(net, atFirst).books.members[m].locked == 0
  {
    assert net.flights == map[];
    assert NeedColumn(rates, net.flights, atFirst, m) == map[];
  }

  /** What starting and settling one transaction does to the members of both nodes. */
  lemma StartAndSettleMoves(s: Books, r: Books, from: Id, to: Id, amount: nat, rate: nat)
    requires Wealth(s) + Wealth(r) < UINT64_RANGE && Fits(amount, rate)
    requires Locks(s.members, from, amount + Fee(amount, rate)) && to in r.members
    ensures var s1 := s.(members := Locked(s.members, from, Charge(amount, rate)));
      var x := SettleCross(s1, r, from, to, amount, rate);
      && x.outcome.Done?
      && x.sender.members
           == s.members[from := s.members[from].(balance := s.members[from].balance - amount - Fee(amount, rate))]
      && x.receiver.members == r.members[to := r.members[to].(balance := r.members[to].balance + amount)]
      && x.sender.crossEarnings == s.crossEarnings + Fee(amount, rate) / 2
      && x.sender.crossEarnings + x.receiver.crossEarnings == s.crossEarnings + r.crossEarnings + Fee(amount, rate)
  {
    hide Wealth, Fee, SettleCross, Locked;
    var total := amount + Fee(amount, rate);
    assert Charge(amount, rate) == total;
    WealthNonNegative(s);
    WealthNonNegative(r);
    LockOnly(s, from, total);
    var s1 := s.(members := Locked(s.members, from, total));
    SettleEffect(s1, r, from, to, amount, rate);
    SettleMoves(s1, r, from, to, amount, rate);
  }

  /** The transaction that starting returns, given to settlement at the same rate, pays its recipient. */
  method StartAndSettle(sender: RegionNode, receiver: RegionNode, from: Id, to: Id, amount: nat, rate: nat)
    returns (ok: bool)
    requires sender.Valid() && receiver.Valid() && sender != receiver
    requires Wealth(sender.Money()) + Wealth(receiver.Money()) < UINT64_RANGE && Fits(amount, rate)
    requires AcceptsCross(receiver.Money(), to)
    modifies sender, receiver
    ensures sender.Valid() && receiver.Valid()
    ensures ok <==> Locks(old(sender.members), from, amount + Fee(amount, rate))
    ensures !ok ==> sender.members == old(sender.members) && receiver.members == old(receiver.members)
    ensures ok ==> sender.members == old(sender.members)[
      from := Member(old(sender.members)[from].balance - amount - Fee(amount, rate), old(sender.members)[from].locked)]
    ensures ok ==> receiver.members == old(receiver.members)[
      to := Member(old(receiver.members)[to].balance + amount, old(receiver.members)[to].locked)]
  {
    hide Wealth, Fee, SettleCross, Locked, HashLinked;
    assert Charge(amount, rate) == amount + Fee(amount, rate);
    ghost var s, r := sender.Money(), receiver.Money();
    var tx := sender.InitiateCrossRegion(from, to, amount, rate);
    ok := tx.Some?;
    if ok {
      StartAndSettleMoves(s, r, from, to, amount, rate);
      var settled;
      ok, settled := RegionNode.FinalizeCrossRegion(sender, receiver, tx.value, rate);
    }
  }
}
