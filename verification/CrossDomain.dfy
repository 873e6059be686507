/**
The cross-domain router of the settlement pool (inkwell/cross_domain.go): transfers are
locked, carried by a ferry, then released, refunded or marked failed.
*/
module CrossDomain {
  import opened Common
  import opened Sums
  import opened Inkwell

  datatype Status = InPool | InTransit | Released | Failed | Refunded

  /** The identifier is a hash of exactly these; hashes are taken to be collision-free. */
  datatype TransferId = TransferId(source: nat, user: nat, amount: nat, epoch: nat)

  datatype Transfer = Transfer(locked: nat, source: nat, target: nat, community: nat, fee: nat,
                               fragments: seq<int>, status: Status)

  type Transfers = map<TransferId, Transfer>
  type Index = map<nat, seq<TransferId>>

  datatype Op =
    | Lock(id: TransferId, target: nat, community: nat, fragments: seq<int>)
    | Assign(id: TransferId)
    | Release(id: TransferId, community: nat)
    | Refund(id: TransferId)
    | Fail(id: TransferId)

  predicate Accepts(ts: Transfers, op: Op) {
    match op
    case Lock(id, target, _, _) => id.source != target && id.amount > 0 && id !in ts
    case Assign(id) => id in ts && ts[id].status == InPool
    case Release(id, community) => id in ts && ts[id].status == InTransit && ts[id].community == community
    case Refund(id) => id in ts && ts[id].status != Released && ts[id].status != Refunded
    case Fail(id) => id in ts && ts[id].status != Released && ts[id].status != Refunded
  }

  /** Refused operations change nothing. */
  function Applied(ts: Transfers, op: Op): Transfers {
    if !Accepts(ts, op) then ts
    else
      match op
      case Lock(id, target, community, fragments) =>
        ts[id := Transfer(id.amount, id.source, target, community, id.amount / 200, fragments, InPool)]
      case Assign(id) => ts[id := ts[id].(status := InTransit)]
      case Release(id, _) => ts[id := ts[id].(status := Released)]
      case Refund(id) => ts[id := ts[id].(status := Refunded)]
      case Fail(id) => ts[id := ts[id].(status := Failed)]
  }

  // --- totals over all transfers ---

  function Locked(t: Transfer): int { t.locked }

  function Held(t: Transfer): int {
    if t.status == Released || t.status == Refunded then 0 else t.locked
  }

  function Fees(t: Transfer): int {
    if t.status == Released then t.fee else 0
  }

  function NetReleased(t: Transfer): int {
    if t.status == Released then t.locked - t.fee else 0
  }

  function GivenBack(t: Transfer): int {
    if t.status == Refunded then t.locked else 0
  }

  ghost function Column(ts: Transfers, f: Transfer -> int): map<TransferId, int> {
    map id <- ts :: f(ts[id])
  }

  ghost function Over(ts: Transfers, f: Transfer -> int): int {
    Sum(Column(ts, f))
  }

  lemma OverUpdate(ts: Transfers, f: Transfer -> int, id: TransferId, t: Transfer)
    ensures Over(ts[id := t], f) == Over(ts, f) - (if id in ts then f(ts[id]) else 0) + f(t)
  {
    SumUpdate(Column(ts, f), id, f(t));
    assert Column(ts[id := t], f) == Column(ts, f)[id := f(t)];
  }

  // --- the books of the router ---

  ghost predicate Books(ts: Transfers, pool: int, fees: int) {
    pool == Over(ts, Held) % UINT64_RANGE && fees == Over(ts, Fees) % UINT64_RANGE
  }

  ghost predicate FeesFixed(ts: Transfers) {
    forall id <- ts :: ts[id].locked > 0 && ts[id].fee == ts[id].locked / 200
  }

  /** Each transfer is filed once under its source and once under its target, and nowhere else. */
  ghost predicate Files(index: Index, ns: nat, ids: set<TransferId>) {
    var list := if ns in index then index[ns] else [];
    Distinct(list) && forall id :: id in list <==> id in ids
  }

  function FromSource(ts: Transfers, ns: nat): set<TransferId> {
    set id <- ts | ts[id].source == ns
  }

  function ToTarget(ts: Transfers, ns: nat): set<TransferId> {
    set id <- ts | ts[id].target == ns
  }

  ghost predicate FiledBySource(ts: Transfers, index: Index) {
    forall ns :: Files(index, ns, FromSource(ts, ns))
  }

  ghost predicate FiledByTarget(ts: Transfers, index: Index) {
    forall ns :: Files(index, ns, ToTarget(ts, ns))
  }

  function Filed(index: Index, ns: nat, id: TransferId): Index {
    index[ns := (if ns in index then index[ns] else []) + [id]]
  }

  lemma FileOne(index: Index, at: nat, id: TransferId, ns: nat, ids: set<TransferId>, ids1: set<TransferId>)
    requires Files(index, ns, ids) && ids1 == if ns == at then ids + {id} else ids
    requires ns == at ==> id !in ids
    ensures Files(Filed(index, at, id), ns, ids1)
  {
    var list := if ns in index then index[ns] else [];
    if ns == at {
      assert Filed(index, at, id)[ns] == list + [id];
    }
  }

  lemma FileNew(ts: Transfers, bySource: Index, byTarget: Index, id: TransferId, t: Transfer)
    requires FiledBySource(ts, bySource) && FiledByTarget(ts, byTarget) && id !in ts
    ensures FiledBySource(ts[id := t], Filed(bySource, t.source, id))
    ensures FiledByTarget(ts[id := t], Filed(byTarget, t.target, id))
  {
    var ts1 := ts[id := t];
    forall ns ensures Files(Filed(bySource, t.source, id), ns, FromSource(ts1, ns)) {
      FileOne(bySource, t.source, id, ns, FromSource(ts, ns), FromSource(ts1, ns));
    }
    forall ns ensures Files(Filed(byTarget, t.target, id), ns, ToTarget(ts1, ns)) {
      FileOne(byTarget, t.target, id, ns, ToTarget(ts, ns), ToTarget(ts1, ns));
    }
  }

  lemma FileSame(ts: Transfers, bySource: Index, byTarget: Index, id: TransferId, status: Status)
    requires FiledBySource(ts, bySource) && FiledByTarget(ts, byTarget) && id in ts
    ensures FiledBySource(ts[id := ts[id].(status := status)], bySource)
    ensures FiledByTarget(ts[id := ts[id].(status := status)], byTarget)
  {
    var ts1 := ts[id := ts[id].(status := status)];
    forall ns ensures Files(bySource, ns, FromSource(ts1, ns)) {
      assert FromSource(ts1, ns) == FromSource(ts, ns);
    }
    forall ns ensures Files(byTarget, ns, ToTarget(ts1, ns)) {
      assert ToTarget(ts1, ns) == ToTarget(ts, ns);
    }
  }

  ghost predicate InOrder(ts: Transfers, bySource: Index, byTarget: Index, pool: int, fees: int) {
    Books(ts, pool, fees) && FeesFixed(ts) && FiledBySource(ts, bySource) && FiledByTarget(ts, byTarget)
  }

  lemma BooksUpdate(ts: Transfers, pool: int, fees: int, id: TransferId, t: Transfer)
    requires Books(ts, pool, fees)
    ensures var was := if id in ts then Some(ts[id]) else None;
      Books(ts[id := t],
        (pool + (Held(t) - if was.Some? then Held(was.value) else 0)) % UINT64_RANGE,
        (fees + (Fees(t) - if was.Some? then Fees(was.value) else 0)) % UINT64_RANGE)
  {
    hide Over, Held, Fees;
    OverUpdate(ts, Held, id, t);
    OverUpdate(ts, Fees, id, t);
    WrapAdd(Over(ts, Held), Held(t) - if id in ts then Held(ts[id]) else 0);
    WrapAdd(Over(ts, Fees), Fees(t) - if id in ts then Fees(ts[id]) else 0);
  }

  lemma NewInOrder(ts: Transfers, bySource: Index, byTarget: Index, pool: int, fees: int, id: TransferId, t: Transfer)
    requires InOrder(ts, bySource, byTarget, pool, fees) && id !in ts
    requires t.locked > 0 && t.fee == t.locked / 200 && t.status == InPool
    ensures InOrder(ts[id := t], Filed(bySource, t.source, id), Filed(byTarget, t.target, id),
      (pool + t.locked) % UINT64_RANGE, fees)
  {
    hide Over, FiledBySource, FiledByTarget;
    BooksUpdate(ts, pool, fees, id, t);
    FileNew(ts, bySource, byTarget, id, t);
  }

  lemma StatusInOrder(ts: Transfers, bySource: Index, byTarget: Index, pool: int, fees: int, id: TransferId,
                      status: Status)
    requires InOrder(ts, bySource, byTarget, pool, fees) && id in ts
    ensures var t := ts[id].(status := status);
      InOrder(ts[id := t], bySource, byTarget,
        (pool + (Held(t) - Held(ts[id]))) % UINT64_RANGE, (fees + (Fees(t) - Fees(ts[id]))) % UINT64_RANGE)
  {
    hide Over, FiledBySource, FiledByTarget, Held, Fees;
    BooksUpdate(ts, pool, fees, id, ts[id].(status := status));
    FileSame(ts, bySource, byTarget, id, status);
  }

  /** The books hold 64-bit amounts. */
  lemma InOrderWords(ts: Transfers, bySource: Index, byTarget: Index, pool: int, fees: int)
    requires InOrder(ts, bySource, byTarget, pool, fees)
    ensures 0 <= pool < UINT64_RANGE && 0 <= fees < UINT64_RANGE && FeesFixed(ts)
  {
  }

  class CrossDomainRouter {
    var transfers: Transfers
    var bySource: Index
    var byTarget: Index
    var poolBalance: nat
    var feeCollected: nat

    ghost predicate Valid()
      reads this
    {
      InOrder(transfers, bySource, byTarget, poolBalance, feeCollected)
    }

    constructor ()
      ensures Valid() && transfers == map[]
    {
      transfers, bySource, byTarget := map[], map[], map[];
      poolBalance, feeCollected := 0, 0;
    }

    /** The net amount is split exactly, into non-empty fragments when there is enough. */
    method LockAndTransfer(source: nat, user: nat, amount: nat, target: nat, community: nat, epoch: nat,
                           seed: nat -> nat)
      returns (r: Option<Transfer>)
      requires Valid() && amount < UINT64_RANGE
      modifies this
      ensures Valid()
      ensures r.Some? <==> Accepts(old(transfers), Lock(TransferId(source, user, amount, epoch), target, community, []))
      ensures transfers == Applied(old(transfers),
        Lock(TransferId(source, user, amount, epoch), target, community, if r.Some? then r.value.fragments else []))
      ensures r.Some? <==> source != target && amount > 0 && TransferId(source, user, amount, epoch) !in old(transfers)
      ensures r.Some? ==>
        && transfers == old(transfers)[TransferId(source, user, amount, epoch) := r.value]
        && r.value.locked == amount && r.value.fee == amount / 200 && r.value.status == InPool
        && r.value.source == source && r.value.target == target && r.value.community == community
        && poolBalance == (old(poolBalance) + amount) % UINT64_RANGE && feeCollected == old(feeCollected)
        && Total(r.value.fragments) == amount - r.value.fee && |r.value.fragments| == 3 + seed(1) % 5
        && (r.value.locked - r.value.fee > 7 ==> Positive(r.value.fragments))
    {
      hide InOrder, Weights, Proportional, SplitOf, Total;
      if source == target {
        return None;
      }
      if amount == 0 {
        return None;
      }
      var id := TransferId(source, user, amount, epoch);
      if id in transfers {
        return None;
      }
      var fee := amount / 200;
      var rng := new Rng(seed);
      var count := rng.Below(5);
      var fragments := SplitAmount(amount - fee, 3 + count, rng);
      var t := Transfer(amount, source, target, community, fee, fragments, InPool);
      NewInOrder(transfers, bySource, byTarget, poolBalance, feeCollected, id, t);
      transfers := transfers[id := t];
      bySource := Filed(bySource, source, id);
      byTarget := Filed(byTarget, target, id);
      poolBalance := (poolBalance + amount) % UINT64_RANGE;
      return Some(t);
    }

    method AssignFerry(id: TransferId) returns (ok: bool)
      requires Valid()
      modifies this
      ensures Valid()
      ensures ok <==> Accepts(old(transfers), Assign(id))
      ensures transfers == Applied(old(transfers), Assign(id))
      ensures ok <==> id in old(transfers) && old(transfers)[id].status == InPool
      ensures ok ==> transfers == old(transfers)[id := old(transfers)[id].(status := InTransit)]
      ensures poolBalance == old(poolBalance) && feeCollected == old(feeCollected)
    {
      hide InOrder;
      InOrderWords(transfers, bySource, byTarget, poolBalance, feeCollected);
      if id !in transfers || transfers[id].status != InPool {
        return false;
      }
      var t := transfers[id].(status := InTransit);
      StatusInOrder(transfers, bySource, byTarget, poolBalance, feeCollected, id, InTransit);
      transfers := transfers[id := t];
      return true;
    }

    method ReleaseOnTarget(id: TransferId, community: nat) returns (net: Option<nat>)
      requires Valid()
      modifies this
      ensures Valid()
      ensures net.Some? <==> Accepts(old(transfers), Release(id, community))
      ensures transfers == Applied(old(transfers), Release(id, community))
      ensures net.Some? ==> net.value == PaidOut(old(transfers), Release(id, community))
      ensures net.Some? <==>
        id in old(transfers) && old(transfers)[id].status == InTransit && old(transfers)[id].community == community
      ensures net.Some? ==>
        var t := old(transfers)[id];
        && transfers == old(transfers)[id := t.(status := Released)] && net.value == t.locked - t.fee
        && poolBalance == (old(poolBalance) - t.locked) % UINT64_RANGE
        && feeCollected == (old(feeCollected) + t.fee) % UINT64_RANGE
    {
      hide InOrder;
      InOrderWords(transfers, bySource, byTarget, poolBalance, feeCollected);
      if id !in transfers || transfers[id].status != InTransit {
        return None;
      }
      var t := transfers[id];
      if t.community != community {
        return None;
      }
      StatusInOrder(transfers, bySource, byTarget, poolBalance, feeCollected, id, Released);
      transfers := transfers[id := t.(status := Released)];
      poolBalance := (poolBalance - t.locked) % UINT64_RANGE;
      feeCollected := (feeCollected + t.fee) % UINT64_RANGE;
      return Some(t.locked - t.fee);
    }

    method RefundOnSource(id: TransferId) returns (ok: bool)
      requires Valid()
      modifies this
      ensures Valid()
      ensures ok <==> Accepts(old(transfers), Refund(id))
      ensures transfers == Applied(old(transfers), Refund(id))
      ensures ok <==> id in old(transfers) && old(transfers)[id].status in {InPool, InTransit, Failed}
      ensures ok ==>
        && transfers == old(transfers)[id := old(transfers)[id].(status := Refunded)]
        && poolBalance == (old(poolBalance) - old(transfers)[id].locked) % UINT64_RANGE
        && feeCollected == old(feeCollected)
    {
      hide InOrder;
      InOrderWords(transfers, bySource, byTarget, poolBalance, feeCollected);
      if id !in transfers || transfers[id].status == Released || transfers[id].status == Refunded {
        return false;
      }
      var t := transfers[id];
      StatusInOrder(transfers, bySource, byTarget, poolBalance, feeCollected, id, Refunded);
      transfers := transfers[id := t.(status := Refunded)];
      poolBalance := (poolBalance - t.locked) % UINT64_RANGE;
      return true;
    }

    method MarkFailed(id: TransferId) returns (ok: bool)
      requires Valid()
      modifies this
      ensures Valid()
      ensures ok <==> Accepts(old(transfers), Fail(id))
      ensures transfers == Applied(old(transfers), Fail(id))
      ensures ok <==> id in old(transfers) && old(transfers)[id].status in {InPool, InTransit, Failed}
      ensures ok ==> transfers == old(transfers)[id := old(transfers)[id].(status := Failed)]
      ensures poolBalance == old(poolBalance) && feeCollected == old(feeCollected)
    {
      hide InOrder;
      InOrderWords(transfers, bySource, byTarget, poolBalance, feeCollected);
      if id !in transfers || transfers[id].status == Released || transfers[id].status == Refunded {
        return false;
      }
      var t := transfers[id].(status := Failed);
      StatusInOrder(transfers, bySource, byTarget, poolBalance, feeCollected, id, Failed);
      transfers := transfers[id := t];
      return true;
    }
  }

  // --- whole runs ---

  /** What an operation pays to the target, net of the fee. */
  function PaidOut(ts: Transfers, op: Op): int {
    if op.Release? && Accepts(ts, op) then ts[op.id].locked - ts[op.id].fee else 0
  }

  function PaidBack(ts: Transfers, op: Op): int {
    if op.Refund? && Accepts(ts, op) then ts[op.id].locked else 0
  }

  function TakenIn(ts: Transfers, op: Op): int {
    if op.Lock? && Accepts(ts, op) then op.id.amount else 0
  }

  function After(ops: seq<Op>): Transfers {
    if |ops| == 0 then map[] else Applied(After(ops[..|ops| - 1]), ops[|ops| - 1])
  }

  /** Adding up, over the run, what each operation moved when it was applied. */
  function Flow(ops: seq<Op>, f: (Transfers, Op) -> int): int {
    if |ops| == 0 then 0
    else Flow(ops[..|ops| - 1], f) + f(After(ops[..|ops| - 1]), ops[|ops| - 1])
  }

  lemma StepFlows(ts: Transfers, op: Op)
    requires FeesFixed(ts)
    ensures FeesFixed(Applied(ts, op))
    ensures Over(Applied(ts, op), Locked) == Over(ts, Locked) + TakenIn(ts, op)
    ensures Over(Applied(ts, op), NetReleased) == Over(ts, NetReleased) + PaidOut(ts, op)
    ensures Over(Applied(ts, op), GivenBack) == Over(ts, GivenBack) + PaidBack(ts, op)
  {
    hide Over;
    if Accepts(ts, op) {
      var t := Applied(ts, op)[op.id];
      assert Applied(ts, op) == ts[op.id := t];
      OverUpdate(ts, Locked, op.id, t);
      OverUpdate(ts, NetReleased, op.id, t);
      OverUpdate(ts, GivenBack, op.id, t);
    }
  }

  lemma {:induction false} RunFlows(ops: seq<Op>)
    ensures FeesFixed(After(ops))
    ensures Flow(ops, TakenIn) == Over(After(ops), Locked)
    ensures Flow(ops, PaidOut) == Over(After(ops), NetReleased)
    ensures Flow(ops, PaidBack) == Over(After(ops), GivenBack)
  {
    if |ops| > 0 {
      RunFlows(ops[..|ops| - 1]);
      StepFlows(After(ops[..|ops| - 1]), ops[|ops| - 1]);
    } else {
      assert After(ops) == map[];
    }
  }

  lemma {:induction false} OverSplits(ts: Transfers)
    ensures Over(ts, Locked) == Over(ts, Held) + Over(ts, NetReleased) + Over(ts, Fees) + Over(ts, GivenBack)
    decreases |ts|
  {
    if id :| id in ts {
      var rest := ts - {id};
      OverSplits(rest);
      assert ts == rest[id := ts[id]];
      OverUpdate(rest, Locked, id, ts[id]);
      OverUpdate(rest, Held, id, ts[id]);
      OverUpdate(rest, NetReleased, id, ts[id]);
      OverUpdate(rest, Fees, id, ts[id]);
      OverUpdate(rest, GivenBack, id, ts[id]);
    } else {
      assert ts == map[];
    }
  }

  /** Over every run, what was locked is what is still held, plus what was paid out, charged and paid back. */
  lemma Conserved(ops: seq<Op>, pool: int, fees: int)
    requires Books(After(ops), pool, fees)
    ensures (pool + Flow(ops, PaidOut) + fees + Flow(ops, PaidBack)) % UINT64_RANGE == Flow(ops, TakenIn) % UINT64_RANGE
    ensures Flow(ops, TakenIn) < UINT64_RANGE ==>
      pool + Flow(ops, PaidOut) + fees + Flow(ops, PaidBack) == Flow(ops, TakenIn)
  {
    hide Over, Flow;
    var ts := After(ops);
    RunFlows(ops);
    OverSplits(ts);
    AllNonNegative(ts);
    var paid := Over(ts, NetReleased) + Over(ts, GivenBack);
    WrapAdd(Over(ts, Held), fees + paid);
    WrapAdd(Over(ts, Fees), Over(ts, Held) + paid);
  }

  lemma AllNonNegative(ts: Transfers)
    requires FeesFixed(ts)
    ensures Over(ts, Held) >= 0 && Over(ts, Fees) >= 0 && Over(ts, NetReleased) >= 0 && Over(ts, GivenBack) >= 0
  {
    hide Sum;
    assert forall id <- ts :: 0 <= ts[id].fee <= ts[id].locked;
    SumNonNegative(Column(ts, Held));
    SumNonNegative(Column(ts, Fees));
    SumNonNegative(Column(ts, NetReleased));
    SumNonNegative(Column(ts, GivenBack));
  }

  /** The balance covers every transfer still held, so taking one out never underflows. */
  lemma NoUnderflow(ops: seq<Op>, pool: int, fees: int, id: TransferId)
    requires Books(After(ops), pool, fees) && Flow(ops, TakenIn) < UINT64_RANGE
    requires id in After(ops) && Held(After(ops)[id]) > 0
    ensures pool == Over(After(ops), Held) >= After(ops)[id].locked
  {
    hide Flow, Sum, After;
    var ts := After(ops);
    RunFlows(ops);
    OverSplits(ts);
    AllNonNegative(ts);
    PartOfSum(Column(ts, Held), id);
  }

  /** A released or refunded transfer stays so, and never pays anyone again. */
  lemma {:induction false} SettledForGood(ops: seq<Op>, n: nat, id: TransferId)
    requires n <= |ops| && id in After(ops[..n]) && After(ops[..n])[id].status in {Released, Refunded}
    ensures id in After(ops) && After(ops)[id] == After(ops[..n])[id]
    ensures forall m :: n <= m < |ops| && ops[m].id == id ==> !Accepts(After(ops[..m]), ops[m])
    decreases |ops|
  {
    if n == |ops| {
      assert ops[..n] == ops;
    } else {
      var front := ops[..|ops| - 1];
      assert forall m :: 0 <= m <= |front| ==> front[..m] == ops[..m];
      SettledForGood(front, n, id);
      assert ops[..|front|] == front;
    }
  }
}
