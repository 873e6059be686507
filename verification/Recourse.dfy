/**
Deferred recourse (x/brightchain/keeper/recourse.go): a default is recovered step by step,
30, 70 and then 100 percent, with an appeal window and exemption for good behaviour.
*/
module Recourse {
  import opened Common
  import opened Sums

  type Node = nat
  type ProvisionId = nat

  datatype Status = Pending | Active | Appealed | Completed | Exempted | Cancelled

  /** `portion(i, debt)` is rate number i of the debt, in whatever arithmetic it is computed. */
  datatype Config = Config(blocksPerEpoch: nat, appealWindow: nat, goodBehavior: nat, portion: (nat, nat) -> nat)

  datatype Provision = Provision(
    defaulter: Node, debt: nat, remaining: nat, defaultEpoch: nat, currentEpoch: nat, step: nat,
    defaultedAt: nat, chain: seq<Node>, index: nat, appealSubmitted: bool, status: Status)

  datatype Action = Action(id: ProvisionId, target: Node, amount: nat, remaining: nat)

  datatype History = History(defaults: nat, cleanEpochs: nat, provisioned: nat)

  ghost predicate Sensible(c: Config) {
    && c.blocksPerEpoch > 0
    && forall debt: nat :: c.portion(0, debt) <= debt && c.portion(0, debt) <= c.portion(1, debt) <= c.portion(2, debt)
  }

  // --- the schedule ---

  /** At least one unit is taken at once. */
  function Initial(c: Config, debt: nat): nat {
    if c.portion(0, debt) == 0 && debt > 0 then 1 else c.portion(0, debt)
  }

  function Min(a: int, b: int): int {
    if a < b then a else b
  }

  function Max(a: int, b: int): int {
    if a < b then b else a
  }

  /** What has been recovered in all once a provision was processed `epochs` epochs after the default. */
  function Due(c: Config, debt: nat, epochs: nat): int {
    if epochs == 0 then Initial(c, debt) else Max(Initial(c, debt), Min(debt, c.portion(Min(epochs, 2), debt)))
  }

  ghost predicate Scheduled(c: Config, p: Provision) {
    p.defaultEpoch <= p.currentEpoch && p.remaining == p.debt - Due(c, p.debt, p.currentEpoch - p.defaultEpoch)
  }

  // --- one provision ---

  function Epoch(c: Config, height: nat): nat
    requires c.blocksPerEpoch > 0
  {
    height / c.blocksPerEpoch
  }

  function Initiated(c: Config, defaulter: Node, debt: nat, chain: seq<Node>, height: nat): Provision
    requires c.blocksPerEpoch > 0 && c.portion(0, debt) <= debt
  {
    var remaining := debt - Initial(c, debt);
    Provision(defaulter, debt, remaining, Epoch(c, height), Epoch(c, height), 1, height, chain, 0, false,
              if remaining == 0 then Completed else Pending)
  }

  lemma InitiatedScheduled(c: Config, defaulter: Node, debt: nat, chain: seq<Node>, height: nat)
    requires Sensible(c)
    ensures c.portion(0, debt) <= debt && Initial(c, debt) <= debt
    ensures Scheduled(c, Initiated(c, defaulter, debt, chain, height))
  {
    assert c.portion(0, debt) <= debt;
  }

  datatype Op = NewEpoch(height: nat, cleanEpochs: nat) | Submit(height: nat) | Resolve(upheld: bool)

  /** Still waiting: settled or appealed, already processed in this epoch, or inside the appeal window. */
  predicate Waits(c: Config, p: Provision, height: nat)
    requires c.blocksPerEpoch > 0
  {
    || (p.status != Active && p.status != Pending)
    || Epoch(c, height) <= p.currentEpoch
    || height - p.defaultedAt <= c.appealWindow
  }

  function Charged(p: Provision): Node {
    if p.index < |p.chain| then p.chain[p.index] else p.defaulter
  }

  /** What is taken in this epoch. */
  function Amount(c: Config, p: Provision, op: Op): nat
    requires c.blocksPerEpoch > 0
  {
    if !op.NewEpoch? || Waits(c, p, op.height) || op.cleanEpochs >= c.goodBehavior then 0
    else
      var owed := c.portion(Max(0, Min(Epoch(c, op.height) - p.defaultEpoch, 2)), p.debt);
      var taken := p.debt - p.remaining;
      if owed <= taken then 0 else Min(owed - taken, p.remaining)
  }

  /** With nothing remaining the provision moves on to the next guarantor, and completes after the last. */
  function Next(c: Config, p: Provision, op: Op): Provision
    requires c.blocksPerEpoch > 0
  {
    match op
    case NewEpoch(height, clean) =>
      if Waits(c, p, height) then p
      else if clean >= c.goodBehavior then p.(status := Exempted)
      else
        var amount := Amount(c, p, op);
        var p1 := p.(currentEpoch := Epoch(c, height), status := Active, remaining := p.remaining - amount,
                     step := if amount > 0 then p.step + 1 else p.step);
        if p1.remaining > 0 then p1
        else p1.(index := p.index + 1, status := if p.index + 1 < |p.chain| then Active else Completed)
    case Submit(height) =>
      if height - p.defaultedAt > c.appealWindow || p.appealSubmitted then p
      else p.(appealSubmitted := true, status := Appealed)
    case Resolve(upheld) =>
      if !p.appealSubmitted then p else p.(status := if upheld then Cancelled else Active)
  }

  /** Every operation keeps the cumulative recovery on schedule, and takes exactly what the remainder falls by. */
  lemma NextScheduled(c: Config, p: Provision, op: Op)
    requires Sensible(c) && Scheduled(c, p)
    ensures Scheduled(c, Next(c, p, op))
    ensures Next(c, p, op).remaining + Amount(c, p, op) == p.remaining && Next(c, p, op).debt == p.debt
    ensures p.currentEpoch <= Next(c, p, op).currentEpoch && Next(c, p, op).defaultEpoch == p.defaultEpoch
  {
    assert c.portion(0, p.debt) <= p.debt && c.portion(0, p.debt) <= c.portion(1, p.debt) <= c.portion(2, p.debt);
  }

  /** Nothing is taken inside the appeal window, twice in an epoch, from an exempt node or outside an active status. */
  lemma TakenOnlyWhenActive(c: Config, p: Provision, op: Op)
    requires Sensible(c) && Scheduled(c, p) && Amount(c, p, op) > 0
    ensures op.NewEpoch? && op.cleanEpochs < c.goodBehavior && p.status in {Active, Pending}
    ensures op.height > p.defaultedAt + c.appealWindow && Epoch(c, op.height) > p.currentEpoch
    ensures Next(c, p, op).currentEpoch == Epoch(c, op.height) && Next(c, p, op).step == p.step + 1
  {
  }

  /**
  What an epoch does: nothing unless it is due; otherwise an exempt defaulter ends the provision,
  and from anyone else all is taken that is due by then. What was taken in full passes to the
  next guarantor and is completed with the last.
  */
  lemma EpochExactly(c: Config, p: Provision, height: nat, clean: nat)
    requires Sensible(c) && Scheduled(c, p)
    ensures var due := && p.status in {Active, Pending} && height / c.blocksPerEpoch > p.currentEpoch
                       && height > p.defaultedAt + c.appealWindow;
      var op := NewEpoch(height, clean);
      var p1, epoch := Next(c, p, op), height / c.blocksPerEpoch;
      && p1.chain == p.chain && p1.defaultedAt == p.defaultedAt && p1.appealSubmitted == p.appealSubmitted
      && (!due ==> p1 == p && Amount(c, p, op) == 0)
      && (due && clean >= c.goodBehavior ==> p1 == p.(status := Exempted) && Amount(c, p, op) == 0)
      && (due && clean < c.goodBehavior ==>
            && p1.currentEpoch == epoch
            && Amount(c, p, op)
                 == Due(c, p.debt, epoch - p.defaultEpoch) - Due(c, p.debt, p.currentEpoch - p.defaultEpoch)
            && p1.index == (if p1.remaining == 0 then p.index + 1 else p.index)
            && p1.status == (if p1.remaining == 0 && p1.index >= |p.chain| then Completed else Active))
  {
    NextScheduled(c, p, NewEpoch(height, clean));
  }

  function After(c: Config, p: Provision, ops: seq<Op>): Provision
    requires c.blocksPerEpoch > 0
  {
    if |ops| == 0 then p else Next(c, After(c, p, ops[..|ops| - 1]), ops[|ops| - 1])
  }

  function TakenOver(c: Config, p: Provision, ops: seq<Op>): nat
    requires c.blocksPerEpoch > 0
  {
    if |ops| == 0 then 0
    else TakenOver(c, p, ops[..|ops| - 1]) + Amount(c, After(c, p, ops[..|ops| - 1]), ops[|ops| - 1])
  }

  /**
  Over every run the debt is the remainder plus the first deduction plus all later ones, and these are on
  schedule.
  */
  lemma {:induction false} RunScheduled(c: Config, defaulter: Node, debt: nat, chain: seq<Node>, height: nat,
                                        ops: seq<Op>)
    requires Sensible(c)
    ensures var p0 := Initiated(c, defaulter, debt, chain, height);
      var p := After(c, p0, ops);
      && p.debt == debt == p.remaining + Initial(c, debt) + TakenOver(c, p0, ops)
      && p.defaultEpoch == Epoch(c, height) <= p.currentEpoch
      && Initial(c, debt) + TakenOver(c, p0, ops) == Due(c, debt, p.currentEpoch - p.defaultEpoch)
  {
    hide Next, Amount, Due;
    InitiatedScheduled(c, defaulter, debt, chain, height);
    if |ops| > 0 {
      RunScheduled(c, defaulter, debt, chain, height, ops[..|ops| - 1]);
      NextScheduled(c, After(c, Initiated(c, defaulter, debt, chain, height), ops[..|ops| - 1]), ops[|ops| - 1]);
    }
  }

  /** Once processed two epochs after the default, nothing remains exactly if rate number 2 covers the whole debt. */
  lemma RecoveredExactly(c: Config, p: Provision)
    requires Sensible(c) && Scheduled(c, p) && p.currentEpoch >= p.defaultEpoch + 2
    ensures p.remaining == 0 <==> c.portion(2, p.debt) >= p.debt || Initial(c, p.debt) == p.debt
  {
  }

  // --- what an appeal does ---

  /** While an appeal waits for its decision nothing is taken. */
  lemma {:induction false} AppealSuspends(c: Config, p: Provision, ops: seq<Op>)
    requires c.blocksPerEpoch > 0 && p.appealSubmitted && p.status == Appealed
    requires forall i :: 0 <= i < |ops| ==> !ops[i].Resolve?
    ensures After(c, p, ops) == p && TakenOver(c, p, ops) == 0
  {
    if |ops| > 0 {
      AppealSuspends(c, p, ops[..|ops| - 1]);
    }
  }

  /** Whatever the status was, an appeal upheld ends the recovery for good, unless it is rejected later. */
  lemma {:induction false} UpheldStops(c: Config, p: Provision, ops: seq<Op>)
    requires c.blocksPerEpoch > 0 && p.appealSubmitted
    requires forall i :: 0 <= i < |ops| ==> ops[i] != Resolve(false)
    ensures var p1 := Next(c, p, Resolve(true));
      && p1.remaining == p.remaining && p1.status == Cancelled
      && After(c, p1, ops) == p1 && TakenOver(c, p1, ops) == 0
  {
    if |ops| > 0 {
      UpheldStops(c, p, ops[..|ops| - 1]);
    }
  }

  /** An appeal rejected lets the recovery go on: the next epoch that is due takes all that is due by then. */
  lemma RejectedResumes(c: Config, p: Provision, height: nat, clean: nat)
    requires Sensible(c) && Scheduled(c, p) && p.appealSubmitted
    requires clean < c.goodBehavior && height - p.defaultedAt > c.appealWindow && Epoch(c, height) > p.currentEpoch
    ensures var p1 := Next(c, p, Resolve(false));
      && p1.status == Active && p1.remaining == p.remaining
      && Amount(c, p1, NewEpoch(height, clean))
           == Due(c, p.debt, Epoch(c, height) - p.defaultEpoch) - Due(c, p.debt, p.currentEpoch - p.defaultEpoch)
  {
    NextScheduled(c, p, Resolve(false));
    NextScheduled(c, Next(c, p, Resolve(false)), NewEpoch(height, clean));
  }

  // --- rates in percent, and in binary floating point ---

  function Percent(i: nat, debt: nat): nat {
    (if i == 0 then 30 else if i == 1 then 70 else 100) * debt / 100
  }

  lemma PercentSchedule(blocksPerEpoch: nat, appealWindow: nat, goodBehavior: nat, debt: nat, epochs: nat)
    requires blocksPerEpoch > 0
    ensures var c := Config(blocksPerEpoch, appealWindow, goodBehavior, Percent);
      && Sensible(c)
      && Due(c, debt, epochs) ==
        if epochs >= 2 then debt
        else Max(if debt > 0 then 1 else 0, (if epochs == 0 then 30 else 70) * debt / 100)
  {
    var c := Config(blocksPerEpoch, appealWindow, goodBehavior, Percent);
    assert forall d: nat :: Percent(0, d) <= Percent(1, d) <= Percent(2, d) == d;
    assert Percent(0, debt) <= Percent(1, debt) <= Percent(2, debt) == debt;
    assert Sensible(c);
  }

  const TWO_53: nat := 0x20_0000_0000_0000

  /** Spacing of binary64 numbers around an integer n. */
  function Spacing(n: nat): (u: nat)
    ensures u > 0
  {
    if n < TWO_53 then 1 else 2 * Spacing(n / 2)
  }

  /** An integer converted to binary64, rounding to nearest and ties to even. */
  function ToBinary64(n: nat): nat {
    var u := Spacing(n);
    var q, r := n / u, n % u;
    if 2 * r < u || (2 * r == u && q % 2 == 0) then q * u else (q + 1) * u
  }

  /**
  The rates are multiplied in binary64, so the final 100 percent is the debt converted to
  binary64: the debt is recovered exactly if the conversion does not round it down, or the first
  deduction took all of it. Debts up to 2^53 are; the next one stays short by a unit for good.
  */
  lemma RecoveredInBinary64(c: Config, p: Provision)
    requires Sensible(c) && Scheduled(c, p) && p.currentEpoch >= p.defaultEpoch + 2
    requires c.portion(2, p.debt) == ToBinary64(p.debt)
    ensures p.remaining == 0 <==> ToBinary64(p.debt) >= p.debt || Initial(c, p.debt) == p.debt
    ensures p.debt <= TWO_53 ==> p.remaining == 0
    ensures p.debt == TWO_53 + 1 && Initial(c, p.debt) <= TWO_53 ==> p.remaining == 1
  {
    RecoveredExactly(c, p);
    assert Spacing(TWO_53 / 2) == 1;
    assert TWO_53 / 2 == (TWO_53 + 1) / 2;
    assert Spacing(TWO_53) == 2 && Spacing(TWO_53 + 1) == 2;
  }

  // --- attribution and revival ---

  /** The node a deduction is charged to once guarantor number `index` is reached. */
  function NextCharged(p: Provision): Node {
    if p.index + 1 < |p.chain| then p.chain[p.index + 1] else p.defaulter
  }

  /**
  A deduction is credited in the history of the node charged exactly if the rate reached
  does not cover the debt, or no guarantor is charged, or the next node is the same.
  */
  lemma CreditedExactly(c: Config, p: Provision, op: Op)
    requires Sensible(c) && Scheduled(c, p) && Amount(c, p, op) > 0
    ensures Charged(Next(c, p, op)) == Charged(p) <==>
      || c.portion(Min(Epoch(c, op.height) - p.defaultEpoch, 2), p.debt) < p.debt
      || p.index >= |p.chain|
      || NextCharged(p) == p.chain[p.index]
  {
  }

  /** A debt of 100 recovered in full from guarantor 7 is credited to guarantor 8. */
  lemma WrongNodeCredited() returns (c: Config, p: Provision, op: Op)
    ensures Sensible(c) && Scheduled(c, p) && Amount(c, p, op) == 70
    ensures Charged(p) == 7 && Charged(Next(c, p, op)) == 8
  {
    c, op := Config(14400, 10000, 50, Percent), NewEpoch(2 * 14400, 0);
    p := Initiated(c, 1, 100, [7, 8], 0);
    PercentSchedule(14400, 10000, 50, 100, 0);
  }

  predicate Settled(p: Provision) {
    p.status in {Completed, Exempted, Cancelled}
  }

  /** A settled provision can be reopened, but only through an appeal: even one already resolved. */
  lemma ReopenedExactly(c: Config, p: Provision, op: Op)
    requires Sensible(c) && Scheduled(c, p) && Settled(p)
    ensures !Settled(Next(c, p, op)) <==>
      || (op == Resolve(false) && p.appealSubmitted)
      || (op.Submit? && !p.appealSubmitted && op.height - p.defaultedAt <= c.appealWindow)
  {
  }

  /** A debt of 1 is recovered at once; an appeal and its rejection make the provision active again. */
  lemma CompletedReopened() returns (c: Config, p: Provision, ops: seq<Op>)
    ensures Sensible(c) && Scheduled(c, p) && p.status == Completed
    ensures !Settled(After(c, p, ops)) && After(c, p, ops).status == Active
  {
    c, ops := Config(14400, 10000, 50, Percent), [Submit(10), Resolve(false)];
    p := Initiated(c, 1, 1, [], 0);
    PercentSchedule(14400, 10000, 50, 1, 0);
    assert ops[..1][..0] == [] && ops[..1] == [Submit(10)];
    assert After(c, p, ops[..1]) == Next(c, p, Submit(10));
  }

  // --- the manager ---

  type Provisions = map<ProvisionId, Provision>
  type Histories = map<Node, History>

  function HistoryOf(histories: Histories, n: Node): History {
    if n in histories then histories[n] else History(0, 0, 0)
  }

  function CleanEpochs(histories: Histories, n: Node): nat {
    HistoryOf(histories, n).cleanEpochs
  }

  function WithProvisioned(histories: Histories, n: Node, amount: nat): Histories {
    var h := HistoryOf(histories, n);
    histories[n := h.(provisioned := (h.provisioned + amount) % UINT64_RANGE)]
  }

  ghost function Column(histories: Histories): map<Node, int> {
    map n <- histories :: histories[n].provisioned
  }

  ghost function TotalProvisioned(histories: Histories): int {
    Sum(Column(histories))
  }

  /** Entries are 64-bit words, so their sum follows the amounts up to wrap-around. */
  lemma ProvisionedAdds(histories: Histories, n: Node, amount: nat, so: int)
    requires TotalProvisioned(histories) % UINT64_RANGE == so % UINT64_RANGE
    ensures TotalProvisioned(WithProvisioned(histories, n, amount)) % UINT64_RANGE == (so + amount) % UINT64_RANGE
  {
    hide Sum;
    var was := HistoryOf(histories, n).provisioned;
    var k := (was + amount) / UINT64_RANGE;
    var updated := (was + amount) % UINT64_RANGE;
    SumUpdate(Column(histories), n, updated);
    assert Column(WithProvisioned(histories, n, amount)) == Column(histories)[n := updated];
    var total, total1 := Sum(Column(histories)), Sum(Column(WithProvisioned(histories, n, amount)));
    assert total1 == total - was + updated;
    var j := total / UINT64_RANGE - so / UINT64_RANGE;
    assert total == so + j * UINT64_RANGE;
    ModDifference(total1, so + amount, j - k);
  }

  ghost predicate SameConduct(before: Histories, histories: Histories) {
    forall n ::
      && CleanEpochs(histories, n) == CleanEpochs(before, n)
      && HistoryOf(histories, n).defaults == HistoryOf(before, n).defaults
  }

  ghost predicate AllScheduled(c: Config, ps: Provisions) {
    forall id <- ps :: Scheduled(c, ps[id])
  }

  function ActionsTotal(actions: seq<Action>): nat {
    if |actions| == 0 then 0 else ActionsTotal(actions[..|actions| - 1]) + actions[|actions| - 1].amount
  }

  /** The actions so far are those of the provisions no longer to do, one for each that had something taken. */
  ghost predicate Reports(c: Config, before: Provisions, histories: Histories, height: nat, todo: set<ProvisionId>,
                          actions: seq<Action>)
    requires c.blocksPerEpoch > 0
  {
    && (forall i :: 0 <= i < |actions| ==>
      && actions[i].id in before && actions[i].id !in todo && actions[i].amount > 0
      && actions[i] == ActionOf(c, actions[i].id, before[actions[i].id], histories, height))
    && (forall i, j :: 0 <= i < j < |actions| ==> actions[i].id != actions[j].id)
    && (forall id <- before :: id !in todo && Amount(c, before[id], EpochOp(before[id], histories, height)) > 0 ==>
        exists i :: 0 <= i < |actions| && actions[i].id == id)
  }

  function EpochOp(p: Provision, histories: Histories, height: nat): Op {
    NewEpoch(height, CleanEpochs(histories, p.defaulter))
  }

  function ActionOf(c: Config, id: ProvisionId, p: Provision, histories: Histories, height: nat): Action
    requires c.blocksPerEpoch > 0
  {
    var op := EpochOp(p, histories, height);
    Action(id, Charged(p), Amount(c, p, op), Next(c, p, op).remaining)
  }

  lemma ReportsOne(c: Config, before: Provisions, histories: Histories, height: nat, todo: set<ProvisionId>,
                   actions: seq<Action>, id: ProvisionId)
    requires c.blocksPerEpoch > 0 && Reports(c, before, histories, height, todo, actions) && id in todo && id in before
    ensures var a := ActionOf(c, id, before[id], histories, height);
      Reports(c, before, histories, height, todo - {id}, if a.amount > 0 then actions + [a] else actions)
  {
    hide Amount, Next;
    var a := ActionOf(c, id, before[id], histories, height);
    var actions1 := if a.amount > 0 then actions + [a] else actions;
    forall x | x in before && x !in todo - {id} && Amount(c, before[x], EpochOp(before[x], histories, height)) > 0
      ensures exists i :: 0 <= i < |actions1| && actions1[i].id == x
    {
      if x == id {
        assert actions1[|actions|].id == x;
      } else {
        var i :| 0 <= i < |actions| && actions[i].id == x;
        assert actions1[i].id == x;
      }
    }
  }

  /** The provisions still to do are as before, the others have made their step. */
  ghost predicate Stepped(c: Config, before: Provisions, histories: Histories, height: nat,
                          todo: set<ProvisionId>, ps: Provisions)
    requires c.blocksPerEpoch > 0
  {
    && ps.Keys == before.Keys
    && forall id <- before ::
      ps[id] == if id in todo then before[id] else Next(c, before[id], EpochOp(before[id], histories, height))
  }

  lemma SteppedOne(c: Config, before: Provisions, histories: Histories, height: nat, todo: set<ProvisionId>,
                   ps: Provisions, id: ProvisionId)
    requires c.blocksPerEpoch > 0 && Stepped(c, before, histories, height, todo, ps) && id in todo && id in before
    ensures id in ps && ps[id] == before[id]
    ensures var op := EpochOp(before[id], histories, height);
      Stepped(c, before, histories, height, todo - {id}, ps[id := Next(c, before[id], op)])
  {
    hide Next;
  }

  lemma SteppedAll(c: Config, before: Provisions, histories: Histories, height: nat, ps: Provisions)
    requires Sensible(c) && AllScheduled(c, before) && Stepped(c, before, histories, height, {}, ps)
    ensures AllScheduled(c, ps) && ps.Keys == before.Keys
    ensures forall id <- before :: ps[id] == Next(c, before[id], EpochOp(before[id], histories, height))
  {
    hide Next, Scheduled, Sensible;
    forall id | id in ps ensures Scheduled(c, ps[id]) {
      NextScheduled(c, before[id], EpochOp(before[id], histories, height));
    }
  }

  lemma EpochStart(c: Config, before: Provisions, histories: Histories, height: nat)
    requires c.blocksPerEpoch > 0
    ensures Stepped(c, before, histories, height, before.Keys, before)
    ensures Reports(c, before, histories, height, before.Keys, [])
    ensures SameConduct(histories, histories) && ActionsTotal([]) == 0
  {
  }

  lemma ConductKept(before: Histories, histories: Histories, n: Node, amount: nat)
    requires SameConduct(before, histories)
    ensures SameConduct(before, WithProvisioned(histories, n, amount))
  {
  }

  lemma SameOp(before: Histories, histories: Histories, p: Provision, height: nat)
    requires SameConduct(before, histories)
    ensures EpochOp(p, histories, height) == EpochOp(p, before, height)
  {
  }

  /** What the actions credit to node n: each amount goes to the node its provision charges afterwards. */
  function CreditedTo(c: Config, before: Provisions, histories: Histories, height: nat, actions: seq<Action>, n: Node)
    : nat
    requires c.blocksPerEpoch > 0 && forall i :: 0 <= i < |actions| ==> actions[i].id in before
  {
    if |actions| == 0 then 0
    else
      var a := actions[|actions| - 1];
      var p1 := Next(c, before[a.id], EpochOp(before[a.id], histories, height));
      var credited := if p1.index < |p1.chain| then p1.chain[p1.index] else p1.defaulter;
      CreditedTo(c, before, histories, height, actions[..|actions| - 1], n) + if credited == n then a.amount else 0
  }

  /** Every node's entry grew by what the actions credit to it, up to 64-bit wrap-around. */
  ghost predicate Credits(c: Config, before: Provisions, histories: Histories, height: nat, actions: seq<Action>,
                          histories1: Histories)
    requires c.blocksPerEpoch > 0
  {
    && (forall i :: 0 <= i < |actions| ==> actions[i].id in before)
    && forall n ::
         HistoryOf(histories1, n).provisioned % UINT64_RANGE
           == (HistoryOf(histories, n).provisioned
                 + CreditedTo(c, before, histories, height, actions, n)) % UINT64_RANGE
  }

  lemma CreditsNone(c: Config, before: Provisions, histories: Histories, height: nat)
    requires c.blocksPerEpoch > 0
    ensures Credits(c, before, histories, height, [], histories)
  {
  }

  lemma CreditsOne(c: Config, before: Provisions, histories: Histories, height: nat, actions: seq<Action>,
                   histories1: Histories, a: Action)
    requires c.blocksPerEpoch > 0 && Credits(c, before, histories, height, actions, histories1) && a.id in before
    ensures var p1 := Next(c, before[a.id], EpochOp(before[a.id], histories, height));
      Credits(c, before, histories, height, if a.amount > 0 then actions + [a] else actions,
              WithProvisioned(histories1, Charged(p1), a.amount))
  {
    hide Next, CreditedTo, WithProvisioned;
    var credited := Charged(Next(c, before[a.id], EpochOp(before[a.id], histories, height)));
    var actions1 := if a.amount > 0 then actions + [a] else actions;
    var after := WithProvisioned(histories1, credited, a.amount);
    forall n
      ensures HistoryOf(after, n).provisioned % UINT64_RANGE
           == (HistoryOf(histories, n).provisioned
                 + CreditedTo(c, before, histories, height, actions1, n)) % UINT64_RANGE
    {
      CreditedToOne(c, before, histories, height, actions, a, n);
      ProvisionedAt(histories1, credited, a.amount, n);
      AddBoth(HistoryOf(histories1, n).provisioned,
              HistoryOf(histories, n).provisioned + CreditedTo(c, before, histories, height, actions, n),
              if credited == n then a.amount else 0);
    }
  }

  lemma ProvisionedAt(histories: Histories, credited: Node, amount: nat, n: Node)
    ensures HistoryOf(WithProvisioned(histories, credited, amount), n).provisioned % UINT64_RANGE
         == (HistoryOf(histories, n).provisioned + if credited == n then amount else 0) % UINT64_RANGE
  {
    WrapAdd(HistoryOf(histories, n).provisioned + amount, 0);
  }

  lemma AddBoth(a: int, b: int, more: int)
    requires a % UINT64_RANGE == b % UINT64_RANGE
    ensures (a + more) % UINT64_RANGE == (b + more) % UINT64_RANGE
  {
    WrapAdd(a, more);
    WrapAdd(b, more);
  }

  lemma CreditedToOne(c: Config, before: Provisions, histories: Histories, height: nat, actions: seq<Action>, a: Action,
                      n: Node)
    requires c.blocksPerEpoch > 0 && a.id in before && forall i :: 0 <= i < |actions| ==> actions[i].id in before
    ensures CreditedTo(c, before, histories, height, actions + [a], n)
         == CreditedTo(c, before, histories, height, actions, n)
            + if Charged(Next(c, before[a.id], EpochOp(before[a.id], histories, height))) == n then a.amount else 0
  {
    hide Next;
    assert (actions + [a])[..|actions|] == actions;
  }

  /** What each action reports, in terms of the provision before and after. */
  ghost predicate Truthful(before: Provisions, actions: seq<Action>, c: Config, histories: Histories, height: nat)
    requires c.blocksPerEpoch > 0
  {
    forall i :: 0 <= i < |actions| ==>
      && actions[i].id in before
      && var p, a := before[actions[i].id], actions[i];
         && a.target == (if p.index < |p.chain| then p.chain[p.index] else p.defaulter)
         && a.remaining == Next(c, p, EpochOp(p, histories, height)).remaining == p.remaining - a.amount
  }

  lemma ReportsTruthfully(c: Config, before: Provisions, histories: Histories, height: nat, actions: seq<Action>)
    requires Sensible(c) && AllScheduled(c, before) && Reports(c, before, histories, height, {}, actions)
    ensures Truthful(before, actions, c, histories, height)
  {
    hide Next, Amount, Scheduled;
    forall i | 0 <= i < |actions|
      ensures var p := before[actions[i].id];
        Next(c, p, EpochOp(p, histories, height)).remaining == p.remaining - actions[i].amount
    {
      NextScheduled(c, before[actions[i].id], EpochOp(before[actions[i].id], histories, height));
    }
  }

  lemma ActionsTotalOne(actions: seq<Action>, a: Action)
    ensures ActionsTotal(actions + [a]) == ActionsTotal(actions) + a.amount
  {
    assert (actions + [a])[..|actions|] == actions;
  }

  class RecourseManager {
    const config: Config
    /** Names are short, so that two defaults can get the same one. */
    const name: (Node, nat, nat) -> ProvisionId
    var provisions: Provisions
    var nodeHistory: Histories

    ghost predicate Valid()
      reads this
    {
      Sensible(config) && AllScheduled(config, provisions)
    }

    constructor (config: Config, name: (Node, nat, nat) -> ProvisionId)
      requires Sensible(config)
      ensures Valid() && this.config == config && this.name == name && provisions == map[] && nodeHistory == map[]
    {
      this.config := config;
      this.name := name;
      provisions, nodeHistory := map[], map[];
    }

    method InitiateProvision(defaulter: Node, debt: nat, chain: seq<Node>, height: nat)
      returns (id: ProvisionId, initial: nat)
      requires Valid()
      modifies this
      ensures Valid()
      ensures id == name(defaulter, height, Epoch(config, height)) && initial == Initial(config, debt) <= debt
      ensures provisions == old(provisions)[id := Initiated(config, defaulter, debt, chain, height)]
      ensures provisions[id].remaining + initial == debt
      ensures var p := provisions[id];
        && p.defaulter == defaulter && p.debt == debt && p.chain == chain && p.index == 0 && p.step == 1
        && p.defaultedAt == height && p.defaultEpoch == p.currentEpoch == height / config.blocksPerEpoch
        && !p.appealSubmitted && p.status == (if initial == debt then Completed else Pending)
      ensures nodeHistory == old(nodeHistory)[defaulter :=
        HistoryOf(old(nodeHistory), defaulter).(defaults := HistoryOf(old(nodeHistory), defaulter).defaults + 1,
                                                cleanEpochs := 0)]
    {
      hide Scheduled;
      InitiatedScheduled(config, defaulter, debt, chain, height);
      var epoch := height / config.blocksPerEpoch;
      id := name(defaulter, height, epoch);
      initial := config.portion(0, debt);
      if initial == 0 && debt > 0 {
        initial := 1;
      }
      var p := Provision(defaulter, debt, debt - initial, epoch, epoch, 1, height, chain, 0, false, Pending);
      if p.remaining == 0 {
        p := p.(status := Completed);
      }
      provisions := provisions[id := p];
      var h := HistoryOf(nodeHistory, defaulter);
      nodeHistory := nodeHistory[defaulter := h.(defaults := h.defaults + 1, cleanEpochs := 0)];
    }

    /** The order in which the provisions are visited is left open. */
    method ProcessEpochProvision(height: nat) returns (actions: seq<Action>)
      requires Valid()
      modifies this
      ensures Valid()
      ensures forall id <- provisions ::
        && id in old(provisions)
        && provisions[id] == Next(config, old(provisions)[id], EpochOp(old(provisions)[id], old(nodeHistory), height))
      ensures forall id <- old(provisions) :: id !in provisions ==>
        && |old(provisions)| > 1000
        && Settled(Next(config, old(provisions)[id], EpochOp(old(provisions)[id], old(nodeHistory), height)))
      ensures Reports(config, old(provisions), old(nodeHistory), height, {}, actions)
      ensures Truthful(old(provisions), actions, config, old(nodeHistory), height)
      ensures Credits(config, old(provisions), old(nodeHistory), height, actions, nodeHistory)
      ensures SameConduct(old(nodeHistory), nodeHistory)
      ensures TotalProvisioned(nodeHistory) % UINT64_RANGE
           == (TotalProvisioned(old(nodeHistory)) + ActionsTotal(actions)) % UINT64_RANGE
    {
      hide Next, Amount, Reports, SameConduct, TotalProvisioned, ActionsTotal;
      hide Scheduled, WithProvisioned, Stepped, EpochOp, Credits, Truthful;
      ghost var before, histories := provisions, nodeHistory;
      EpochStart(config, before, histories, height);
      CreditsNone(config, before, histories, height);
      var todo := provisions.Keys;
      actions := [];
      while todo != {}
        invariant todo <= before.Keys
        invariant Stepped(config, before, histories, height, todo, provisions)
        invariant Reports(config, before, histories, height, todo, actions)
        invariant Credits(config, before, histories, height, actions, nodeHistory)
        invariant SameConduct(histories, nodeHistory)
        invariant TotalProvisioned(nodeHistory) % UINT64_RANGE
            == (TotalProvisioned(histories) + ActionsTotal(actions)) % UINT64_RANGE
        decreases |todo|
      {
        var id :| id in todo;
        SteppedOne(config, before, histories, height, todo, provisions, id);
        ReportsOne(config, before, histories, height, todo, actions, id);
        SameOp(histories, nodeHistory, before[id], height);
        todo := todo - {id};
        var p, amount, processed := ProcessOne(provisions[id], height);
        var action := Action(id, Charged(provisions[id]), amount, p.remaining);
        ActionsTotalOne(actions, action);
        if processed {
          CreditsOne(config, before, histories, height, actions, nodeHistory, action);
          ProvisionedAdds(nodeHistory, Charged(p), amount, TotalProvisioned(histories) + ActionsTotal(actions));
          ConductKept(histories, nodeHistory, Charged(p), amount);
          nodeHistory := WithProvisioned(nodeHistory, Charged(p), amount);
        }
        if amount > 0 {
          actions := actions + [action];
        }
        provisions := provisions[id := p];
      }
      SteppedAll(config, before, histories, height, provisions);
      ReportsTruthfully(config, before, histories, height, actions);
      if |provisions| > 1000 {
        PruneOldProvisions();
      }
    }

    method ProcessOne(p: Provision, height: nat) returns (r: Provision, amount: nat, processed: bool)
      requires Sensible(config) && Scheduled(config, p)
      ensures r == Next(config, p, EpochOp(p, nodeHistory, height))
      ensures amount == Amount(config, p, EpochOp(p, nodeHistory, height))
      ensures !processed ==> amount == 0
    {
      r, amount, processed := p, 0, false;
      if p.status != Active && p.status != Pending {
        return;
      }
      var epoch := height / config.blocksPerEpoch;
      if epoch <= p.currentEpoch {
        return;
      }
      if height - p.defaultedAt <= config.appealWindow {
        return;
      }
      if CleanEpochs(nodeHistory, p.defaulter) >= config.goodBehavior {
        r := p.(status := Exempted);
        return;
      }
      processed := true;
      r := p.(currentEpoch := epoch, status := Active);
      var rate := epoch - p.defaultEpoch;
      if rate >= 3 {
        rate := 2;
      }
      amount := config.portion(rate, p.debt);
      var already := p.debt - p.remaining;
      if amount <= already {
        amount := 0;
      } else {
        amount := amount - already;
      }
      if amount > p.remaining {
        amount := p.remaining;
      }
      if amount > 0 {
        r := r.(remaining := p.remaining - amount, step := p.step + 1);
      }
      if r.remaining == 0 {
        r := r.(status := Completed, index := p.index + 1);
        if r.index < |r.chain| {
          r := r.(status := Active);
        }
      }
    }

    /** Only settled provisions are dropped, and of these exactly one hundred are kept. */
    method PruneOldProvisions()
      requires Valid()
      modifies this`provisions
      ensures Valid()
      ensures forall id <- provisions :: id in old(provisions) && provisions[id] == old(provisions)[id]
      ensures forall id <- old(provisions) :: id !in provisions ==> Settled(old(provisions)[id])
      ensures |SettledIds(provisions)| == Min(100, |SettledIds(old(provisions))|)
    {
      var completed := SettledIds(provisions);
      while |completed| > 100
        invariant Valid() && completed == SettledIds(provisions)
        invariant |completed| >= Min(100, |SettledIds(old(provisions))|)
        invariant |completed| <= Max(100, |SettledIds(old(provisions))|)
        invariant |SettledIds(old(provisions))| <= 100 ==> provisions == old(provisions)
        invariant forall id <- provisions :: id in old(provisions) && provisions[id] == old(provisions)[id]
        invariant forall id <- old(provisions) :: id !in provisions ==> Settled(old(provisions)[id])
        decreases |completed|
      {
        var id :| id in completed;
        completed := completed - {id};
        assert SettledIds(provisions - {id}) == completed;
        provisions := provisions - {id};
      }
    }

    method SubmitAppeal(id: ProvisionId, height: nat) returns (ok: bool)
      requires Valid()
      modifies this`provisions
      ensures Valid()
      ensures ok <==>
        && id in old(provisions) && !old(provisions)[id].appealSubmitted
        && height - old(provisions)[id].defaultedAt <= config.appealWindow
      ensures provisions ==
        if id in old(provisions) then old(provisions)[id := Next(config, old(provisions)[id], Submit(height))]
        else old(provisions)
      ensures ok ==>
        provisions == old(provisions)[id := old(provisions)[id].(appealSubmitted := true, status := Appealed)]
      ensures !ok ==> provisions == old(provisions)
    {
      if id !in provisions {
        return false;
      }
      NextScheduled(config, provisions[id], Submit(height));
      if height - provisions[id].defaultedAt > config.appealWindow {
        return false;
      }
      if provisions[id].appealSubmitted {
        return false;
      }
      provisions := provisions[id := provisions[id].(appealSubmitted := true, status := Appealed)];
      return true;
    }

    method ResolveAppeal(id: ProvisionId, upheld: bool) returns (ok: bool)
      requires Valid()
      modifies this`provisions
      ensures Valid()
      ensures ok <==> id in old(provisions) && old(provisions)[id].appealSubmitted
      ensures provisions ==
        if id in old(provisions) then old(provisions)[id := Next(config, old(provisions)[id], Resolve(upheld))]
        else old(provisions)
      ensures ok && upheld ==> provisions == old(provisions)[id := old(provisions)[id].(status := Cancelled)]
      ensures ok && !upheld ==> provisions == old(provisions)[id := old(provisions)[id].(status := Active)]
      ensures !ok ==> provisions == old(provisions)
    {
      if id !in provisions {
        return false;
      }
      NextScheduled(config, provisions[id], Resolve(upheld));
      if !provisions[id].appealSubmitted {
        return false;
      }
      provisions := provisions[id := provisions[id].(status := if upheld then Cancelled else Active)];
      return true;
    }

    method RecordCleanEpoch(n: Node)
      modifies this`nodeHistory
      ensures HistoryOf(nodeHistory, n) ==
        HistoryOf(old(nodeHistory), n).(cleanEpochs := CleanEpochs(old(nodeHistory), n) + 1)
      ensures forall m :: m != n ==> HistoryOf(nodeHistory, m) == HistoryOf(old(nodeHistory), m)
    {
      var h := HistoryOf(nodeHistory, n);
      nodeHistory := nodeHistory[n := h.(cleanEpochs := h.cleanEpochs + 1)];
    }
  }

  function SettledIds(ps: Provisions): set<ProvisionId> {
    set id <- ps | Settled(ps[id])
  }
}
