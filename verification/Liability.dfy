/**
The ledger form of deferred recourse (x/brightchain/keeper/keeper_v2.go): a tenth of the
remainder is deducted per epoch, from the defaulter first and from guarantors later. Over
every run each provision is charged in full, unless a later one takes over its name.
*/
module Liability {
  import opened Common
  import opened Sums

  type Addr = nat
  type ProvisionId = nat

  datatype Account = Account(creditLimit: nat, trustWeight: nat)

  datatype Bond = Bond(inviter: Addr, invitee: Addr, forfeited: bool)

  datatype Provision = Provision(defaulter: Addr, debt: nat, remaining: nat, chain: seq<Addr>, index: nat, active: bool)

  // --- one deduction ---

  function Product(a: nat, b: nat): nat {
    a * b % UINT64_RANGE
  }

  /** What credit does not cover costs trust weight, which never falls below 1. */
  function Deducted(a: Account, amount: nat): Account {
    if a.creditLimit >= amount then a.(creditLimit := a.creditLimit - amount)
    else
      var weight := if a.trustWeight < 1 then 1 else a.trustWeight;
      var penalty := Product(amount - a.creditLimit, 10) / weight;
      var kept := 100 - if penalty > 100 then 100 else penalty;
      var weight1 := Product(weight, kept) / 100;
      Account(0, if weight1 < 1 then 1 else weight1)
  }

  lemma DeductedEffect(a: Account, amount: nat)
    ensures var a1 := Deducted(a, amount);
      && a1.creditLimit == (if a.creditLimit >= amount then a.creditLimit - amount else 0)
      && (a.creditLimit >= amount ==> a1.trustWeight == a.trustWeight)
      && (a.creditLimit < amount ==> 1 <= a1.trustWeight && (a.trustWeight >= 1 ==> a1.trustWeight <= a.trustWeight))
  {
    if a.creditLimit < amount {
      var weight := if a.trustWeight < 1 then 1 else a.trustWeight;
      var penalty := Product(amount - a.creditLimit, 10) / weight;
      assert penalty >= 0;
      var kept := 100 - if penalty > 100 then 100 else penalty;
      WeightFalls(weight, kept);
    }
  }

  /** The share of trust weight lost is ten percent for every unit of weight the shortfall amounts to, at most all. */
  lemma WeightLost(a: Account, amount: nat)
    requires a.creditLimit < amount && (amount - a.creditLimit) * 10 < UINT64_RANGE
    requires 1 <= a.trustWeight && a.trustWeight * 100 < UINT64_RANGE
    ensures var percent := (amount - a.creditLimit) * 10 / a.trustWeight;
      var kept := if percent >= 100 then 0 else a.trustWeight * (100 - percent) / 100;
      Deducted(a, amount).trustWeight == if kept < 1 then 1 else kept
  {
    var percent := (amount - a.creditLimit) * 10 / a.trustWeight;
    QuotientNonNegative((amount - a.creditLimit) * 10, a.trustWeight);
    KeepsShare(a.trustWeight, if percent > 100 then 100 else percent);
    hide Product;
    assert Product(amount - a.creditLimit, 10) == (amount - a.creditLimit) * 10 by {
      NoWrap(amount - a.creditLimit, 10);
    }
  }

  lemma QuotientNonNegative(a: nat, b: nat)
    requires b > 0
    ensures a / b >= 0
  {
  }

  lemma NoWrap(a: nat, b: nat)
    requires a * b < UINT64_RANGE
    ensures Product(a, b) == a * b
  {
    assert a * b >= 0;
  }

  lemma KeepsShare(weight: nat, percent: nat)
    requires weight * 100 < UINT64_RANGE && percent <= 100
    ensures Product(weight, 100 - percent) == weight * (100 - percent)
    ensures percent == 100 ==> weight * (100 - percent) / 100 == 0
  {
    assert weight * (100 - percent) == weight * 100 - weight * percent;
    assert weight * percent >= 0;
    NoWrap(weight, 100 - percent);
  }

  lemma WeightFalls(weight: nat, kept: int)
    requires 0 <= kept <= 100
    ensures Product(weight, kept) / 100 <= weight
  {
    assert weight * kept <= weight * 100 by {
      assert weight * (100 - kept) >= 0;
    }
    assert Product(weight, kept) <= weight * kept;
  }

  // --- one provision, one epoch ---

  function Tenth(p: Provision): nat {
    var d := Product(p.remaining, 10) / 100;
    var d1 := if d == 0 then 1 else d;
    if d1 > p.remaining then p.remaining else d1
  }

  /** An epoch takes a tenth of the remainder, rounded down but at least one unit, from a target that has an account. */
  lemma TakesTenth(p: Provision, present: set<Addr>)
    requires Live(p) && p.remaining > 0 && p.remaining * 10 < UINT64_RANGE && Target(p) in present
    ensures Process(p, present).taken == (if p.remaining < 10 then 1 else p.remaining / 10)
    ensures Process(p, present).Gone? <==> p.remaining == 1
  {
    assert p.remaining * 10 / 100 == p.remaining / 10;
  }

  /** The defaulter is charged while more than 30 percent remain; from then on the guarantor reached, if any is left. */
  lemma ChargedWhom(p: Provision)
    requires p.debt * 30 < UINT64_RANGE
    ensures p.index < |p.chain| && 100 * p.remaining <= 30 * p.debt ==> Target(p) == p.chain[p.index]
    ensures p.index >= |p.chain| || 100 * p.remaining > 30 * p.debt ==> Target(p) == p.defaulter
  {
  }

  function Target(p: Provision): Addr {
    if p.index < |p.chain| && p.remaining <= Product(p.debt, 30) / 100 then p.chain[p.index] else p.defaulter
  }

  datatype Outcome = Gone(taken: nat, lost: nat) | Kept(provision: Provision, taken: nat)

  /** `present` holds the addresses that have an account. */
  function Process(p: Provision, present: set<Addr>): Outcome {
    if !p.active || p.remaining == 0 then Gone(0, p.remaining)
    else if Target(p) !in present then
      if p.index < |p.chain| then Kept(p.(index := p.index + 1), 0) else Gone(0, p.remaining)
    else if Tenth(p) == p.remaining then Gone(p.remaining, 0)
    else Kept(p.(remaining := p.remaining - Tenth(p)), Tenth(p))
  }

  ghost predicate Live(p: Provision) {
    p.active && p.index <= |p.chain| && p.remaining <= p.debt
  }

  function Measure(p: Provision): nat
    requires p.index <= |p.chain|
  {
    p.remaining + (|p.chain| - p.index)
  }

  /** An epoch removes the provision or brings it strictly closer to its end, and takes what the remainder falls by. */
  lemma ProcessProgress(p: Provision, present: set<Addr>)
    requires Live(p)
    ensures match Process(p, present)
      case Gone(taken, lost) => taken + lost == p.remaining
      case Kept(p1, taken) =>
        && Live(p1) && Measure(p1) < Measure(p) && p1.remaining + taken == p.remaining
        && p1.debt == p.debt && p1.chain == p.chain && p1.defaulter == p.defaulter
  {
  }

  // --- over the epochs ---

  datatype Progress = Settled(taken: nat, lost: nat) | Pending(provision: Provision, taken: nat)

  /** The accounts present may differ from epoch to epoch. */
  function Epochs(p: Provision, presents: seq<set<Addr>>): Progress
    decreases |presents|
  {
    if |presents| == 0 then Pending(p, 0)
    else
      match Process(p, presents[0])
      case Gone(taken, lost) => Settled(taken, lost)
      case Kept(p1, taken) =>
        match Epochs(p1, presents[1..])
        case Settled(t, lost) => Settled(taken + t, lost)
        case Pending(q, t) => Pending(q, taken + t)
  }

  /** Whatever accounts come and go, nothing is lost track of and the provision ends within its measure. */
  lemma {:induction false} SettlesInTime(p: Provision, presents: seq<set<Addr>>)
    requires Live(p)
    ensures match Epochs(p, presents)
      case Settled(taken, lost) => taken + lost == p.remaining
      case Pending(q, taken) => taken + q.remaining == p.remaining && Live(q) && Measure(q) + |presents| <= Measure(p)
    ensures |presents| > Measure(p) ==> Epochs(p, presents).Settled?
    decreases |presents|
  {
    if |presents| > 0 {
      ProcessProgress(p, presents[0]);
      match Process(p, presents[0])
      case Gone(_, _) =>
      case Kept(p1, _) => SettlesInTime(p1, presents[1..]);
    }
  }

  /**
  A hypothetical case, as no account is ever removed: if the defaulter's were gone while more
  than 30 percent remain, every guarantor would be passed over and the remainder written off.
  */
  lemma {:induction false} AbsentDefaulterWrittenOff(p: Provision, presents: seq<set<Addr>>)
    requires Live(p) && p.remaining > Product(p.debt, 30) / 100
    requires forall i :: 0 <= i < |presents| ==> p.defaulter !in presents[i]
    ensures Epochs(p, presents) ==
      if |presents| > |p.chain| - p.index then Settled(0, p.remaining)
      else Pending(p.(index := p.index + |presents|), 0)
    decreases |presents|
  {
    if |presents| > 0 && p.index < |p.chain| {
      AbsentDefaulterWrittenOff(p.(index := p.index + 1), presents[1..]);
    }
  }

  /** With the defaulter's account in place nothing is written off. */
  lemma NothingLost(p: Provision, present: set<Addr>)
    requires Live(p) && p.defaulter in present
    ensures Process(p, present).Gone? ==> Process(p, present) == Gone(p.remaining, 0)
    ensures Process(p, present).taken > 0 ==> Target(p) in present
  {
  }

  /** With the defaulter's account in place throughout, everything is recovered, whatever guarantors come and go. */
  lemma {:induction false} RecoveredWhenPresent(p: Provision, presents: seq<set<Addr>>)
    requires Live(p) && |presents| > Measure(p)
    requires forall i :: 0 <= i < |presents| ==> p.defaulter in presents[i]
    ensures Epochs(p, presents) == Settled(p.remaining, 0)
    decreases |presents|
  {
    ProcessProgress(p, presents[0]);
    match Process(p, presents[0])
    case Gone(_, _) => NothingLost(p, presents[0]);
    case Kept(p1, _) => RecoveredWhenPresent(p1, presents[1..]);
  }

  /** Someone is left who can be charged: the defaulter or, once at most 30 percent remain, a guarantor to come. */
  ghost predicate SomeonePays(p: Provision, accounts: set<Addr>) {
    || p.defaulter in accounts
    || (p.remaining <= Product(p.debt, 30) / 100 && exists k :: p.index <= k < |p.chain| && p.chain[k] in accounts)
  }

  /**
  While the accounts stay the same, everything is recovered exactly if there is someone to
  charge; otherwise nothing is. The keeper is always in the first case (RunChargesInFull).
  */
  lemma {:induction false} RecoveredExactly(p: Provision, accounts: set<Addr>, presents: seq<set<Addr>>)
    requires Live(p) && p.remaining > 0 && |presents| > Measure(p)
    requires forall i :: 0 <= i < |presents| ==> presents[i] == accounts
    ensures Epochs(p, presents) == if SomeonePays(p, accounts) then Settled(p.remaining, 0) else Settled(0, p.remaining)
    ensures Epochs(p, presents) == Settled(p.remaining, 0) <==> SomeonePays(p, accounts)
    decreases |presents|
  {
    ProcessProgress(p, presents[0]);
    match Process(p, presents[0])
    case Gone(_, _) =>
    case Kept(p1, _) =>
      RecoveredExactly(p1, accounts, presents[1..]);
      assert SomeonePays(p1, accounts) <==> SomeonePays(p, accounts);
  }

  // --- the keeper ---

  type Provisions = map<ProvisionId, Provision>

  function ChainOf(bonds: seq<Bond>, defaulter: Addr): seq<Addr> {
    if |bonds| == 0 then []
    else
      var b := bonds[|bonds| - 1];
      ChainOf(bonds[..|bonds| - 1], defaulter) + if !b.forfeited && b.invitee == defaulter then [b.inviter] else []
  }

  /** The guarantors are the inviters on the defaulter's bonds that are not forfeited. */
  lemma {:induction false} ChainExactly(bonds: seq<Bond>, defaulter: Addr)
    ensures forall g :: g in ChainOf(bonds, defaulter) <==> Bond(g, defaulter, false) in bonds
  {
    if |bonds| > 0 {
      ChainExactly(bonds[..|bonds| - 1], defaulter);
      assert bonds == bonds[..|bonds| - 1] + [bonds[|bonds| - 1]];
    }
  }

  predicate Vouches(b: Bond, defaulter: Addr) {
    b.invitee == defaulter && !b.forfeited
  }

  /** How many of the first i bonds vouch for the defaulter. */
  function Vouching(bonds: seq<Bond>, defaulter: Addr, i: nat): nat
    requires i <= |bonds|
  {
    if i == 0 then 0 else Vouching(bonds, defaulter, i - 1) + if Vouches(bonds[i - 1], defaulter) then 1 else 0
  }

  /** The guarantors stand in the order of their bonds, one for each. */
  lemma {:induction false} ChainInOrder(bonds: seq<Bond>, defaulter: Addr, i: nat)
    requires i <= |bonds|
    ensures |ChainOf(bonds, defaulter)| == Vouching(bonds, defaulter, |bonds|) >= Vouching(bonds, defaulter, i)
    ensures i < |bonds| && Vouches(bonds[i], defaulter) ==>
      && Vouching(bonds, defaulter, i) < |ChainOf(bonds, defaulter)|
      && ChainOf(bonds, defaulter)[Vouching(bonds, defaulter, i)] == bonds[i].inviter
    decreases |bonds|
  {
    if |bonds| > 0 {
      var front := bonds[..|bonds| - 1];
      ChainInOrder(front, defaulter, if i < |front| then i else |front|);
      VouchingPrefix(bonds, defaulter, |front|);
      VouchingPrefix(bonds, defaulter, if i < |front| then i else |front|);
    }
  }

  lemma {:induction false} VouchingPrefix(bonds: seq<Bond>, defaulter: Addr, i: nat)
    requires i < |bonds|
    ensures Vouching(bonds[..|bonds| - 1], defaulter, i) == Vouching(bonds, defaulter, i)
    decreases i
  {
    if i > 0 {
      VouchingPrefix(bonds, defaulter, i - 1);
    }
  }

  function FirstPart(debt: nat): (r: nat)
    ensures r <= debt
  {
    assert debt * 30 / 100 <= debt;
    assert Product(debt, 30) <= debt * 30;
    Product(debt, 30) / 100
  }

  /** Every provision is live, and its defaulter has an account. */
  ghost predicate Sound(ps: Provisions, present: set<Addr>) {
    forall id <- ps :: Live(ps[id]) && ps[id].defaulter in present
  }

  function NewProvision(defaulter: Addr, debt: nat, bonds: seq<Bond>): Provision {
    Provision(defaulter, debt, debt - FirstPart(debt), ChainOf(bonds, defaulter), 0, true)
  }

  function NextEpoch(ps: Provisions, present: set<Addr>): Provisions {
    map id <- ps | Process(ps[id], present).Kept? :: Process(ps[id], present).provision
  }

  // --- runs ---

  datatype Books = Books(provisions: Provisions, present: set<Addr>)

  datatype Act = Joins(who: Addr) | Defaults(defaulter: Addr, debt: nat, bonds: seq<Bond>) | Epoch

  predicate Opens(b: Books, a: Act) {
    a.Defaults? && a.defaulter in b.present
  }

  function Next(b: Books, a: Act, name: Addr -> ProvisionId): Books {
    match a
    case Joins(who) => b.(present := b.present + {who})
    case Defaults(defaulter, debt, bonds) =>
      if Opens(b, a) then b.(provisions := b.provisions[name(defaulter) := NewProvision(defaulter, debt, bonds)]) else b
    case Epoch => b.(provisions := NextEpoch(b.provisions, b.present))
  }

  ghost function Owed(ps: Provisions): map<ProvisionId, int> {
    map id <- ps :: ps[id].remaining
  }

  ghost function Taken(ps: Provisions, present: set<Addr>): map<ProvisionId, int> {
    map id <- ps :: Process(ps[id], present).taken
  }

  ghost function Outstanding(ps: Provisions): int {
    Sum(Owed(ps))
  }

  ghost function Takings(ps: Provisions, present: set<Addr>): int {
    Sum(Taken(ps, present))
  }

  function Incurred(b: Books, a: Act): nat {
    if Opens(b, a) then a.debt else 0
  }

  ghost function Charged(b: Books, a: Act): int {
    match a
    case Joins(_) => 0
    case Defaults(_, debt, _) => if Opens(b, a) then FirstPart(debt) else 0
    case Epoch => Takings(b.provisions, b.present)
  }

  /** What was still owed under the name of the new provision. */
  function Replaced(b: Books, a: Act, name: Addr -> ProvisionId): nat {
    if Opens(b, a) && name(a.defaulter) in b.provisions then b.provisions[name(a.defaulter)].remaining else 0
  }

  lemma {:induction false} EpochTakes(ps: Provisions, present: set<Addr>)
    requires Sound(ps, present)
    ensures Outstanding(NextEpoch(ps, present)) + Takings(ps, present) == Outstanding(ps)
    decreases |ps|
  {
    hide Process, Live, Sum;
    if ps == map[] {
      EmptyTakes(present);
    } else {
      var id :| id in ps;
      EpochTakes(ps - {id}, present);
      SumRemove(Owed(ps), id);
      SumRemove(Taken(ps, present), id);
      assert Owed(ps) - {id} == Owed(ps - {id});
      assert Taken(ps, present) - {id} == Taken(ps - {id}, present);
      OneLeaves(ps, present, id);
    }
  }

  lemma EmptyTakes(present: set<Addr>)
    ensures Outstanding(NextEpoch(map[], present)) == Takings(map[], present) == Outstanding(map[]) == 0
  {
  }

  lemma OneLeaves(ps: Provisions, present: set<Addr>, id: ProvisionId)
    requires Sound(ps, present) && id in ps
    ensures Outstanding(NextEpoch(ps, present)) ==
      Outstanding(NextEpoch(ps - {id}, present)) + ps[id].remaining - Process(ps[id], present).taken
  {
    hide Process, Live, Sum;
    ProcessProgress(ps[id], present);
    NothingLost(ps[id], present);
    var left := Owed(NextEpoch(ps, present));
    assert left - {id} == Owed(NextEpoch(ps - {id}, present));
    if id in left {
      SumRemove(left, id);
    } else {
      assert left - {id} == left;
    }
  }

  lemma EpochSound(ps: Provisions, present: set<Addr>)
    requires Sound(ps, present)
    ensures Sound(NextEpoch(ps, present), present)
  {
    hide Process, Live;
    forall id | id in NextEpoch(ps, present)
      ensures Live(NextEpoch(ps, present)[id]) && NextEpoch(ps, present)[id].defaulter in present
    {
      ProcessProgress(ps[id], present);
    }
  }

  /** Every act keeps the books sound, and no debt is lost but what a replaced provision still owed. */
  lemma ActBalances(b: Books, a: Act, name: Addr -> ProvisionId)
    requires Sound(b.provisions, b.present)
    ensures var b1 := Next(b, a, name);
      && Sound(b1.provisions, b1.present)
      && Outstanding(b1.provisions) + Charged(b, a) + Replaced(b, a, name) == Outstanding(b.provisions) + Incurred(b, a)
  {
    hide Process, Sum, ChainOf;
    if a.Epoch? {
      EpochTakes(b.provisions, b.present);
      EpochSound(b.provisions, b.present);
    } else if Opens(b, a) {
      var p := NewProvision(a.defaulter, a.debt, a.bonds);
      SumUpdate(Owed(b.provisions), name(a.defaulter), p.remaining);
      assert Owed(b.provisions)[name(a.defaulter) := p.remaining] == Owed(Next(b, a, name).provisions);
    }
  }

  function After(b: Books, acts: seq<Act>, name: Addr -> ProvisionId): Books
    decreases |acts|
  {
    if |acts| == 0 then b else After(Next(b, acts[0], name), acts[1..], name)
  }

  datatype Totals = Totals(incurred: int, charged: int, replaced: int)

  ghost function TotalsOf(b: Books, acts: seq<Act>, name: Addr -> ProvisionId): Totals
    decreases |acts|
  {
    if |acts| == 0 then Totals(0, 0, 0)
    else
      var t := TotalsOf(Next(b, acts[0], name), acts[1..], name);
      Totals(t.incurred + Incurred(b, acts[0]), t.charged + Charged(b, acts[0]),
             t.replaced + Replaced(b, acts[0], name))
  }

  /** No provision that still owes something gives up its name to a new one. */
  ghost predicate KeepsNames(b: Books, acts: seq<Act>, name: Addr -> ProvisionId)
    decreases |acts|
  {
    |acts| > 0 ==>
      && (Opens(b, acts[0]) && name(acts[0].defaulter) in b.provisions ==>
            b.provisions[name(acts[0].defaulter)].remaining == 0)
      && KeepsNames(Next(b, acts[0], name), acts[1..], name)
  }

  /**
  Over every run of joining, defaults and epochs, what was charged and what is still owed make
  up all debts exactly if no provision that still owes something lost its name to a new one.
  */
  lemma {:induction false} RunBalancesExactly(b: Books, acts: seq<Act>, name: Addr -> ProvisionId)
    requires Sound(b.provisions, b.present)
    ensures var b1, t := After(b, acts, name), TotalsOf(b, acts, name);
      && Sound(b1.provisions, b1.present)
      && t.replaced >= 0
      && Outstanding(b1.provisions) + t.charged + t.replaced == Outstanding(b.provisions) + t.incurred
      && (Outstanding(b1.provisions) + t.charged == Outstanding(b.provisions) + t.incurred <==>
            KeepsNames(b, acts, name))
    decreases |acts|
  {
    hide Sound, Outstanding, Charged, Incurred, Next;
    if |acts| > 0 {
      ActBalances(b, acts[0], name);
      RunBalancesExactly(Next(b, acts[0], name), acts[1..], name);
    }
  }

  /** No default in the run takes over the name of provision `id`. */
  ghost predicate Spares(b: Books, acts: seq<Act>, name: Addr -> ProvisionId, id: ProvisionId)
    decreases |acts|
  {
    |acts| > 0 ==>
      && (Opens(b, acts[0]) ==> name(acts[0].defaulter) != id)
      && Spares(Next(b, acts[0], name), acts[1..], name, id)
  }

  function TakenFrom(b: Books, acts: seq<Act>, name: Addr -> ProvisionId, id: ProvisionId): nat
    decreases |acts|
  {
    if |acts| == 0 then 0
    else
      var taken := if acts[0].Epoch? && id in b.provisions then Process(b.provisions[id], b.present).taken else 0;
      taken + TakenFrom(Next(b, acts[0], name), acts[1..], name, id)
  }

  function EpochCount(acts: seq<Act>): nat {
    if |acts| == 0 then 0 else EpochCount(acts[1..]) + if acts[0].Epoch? then 1 else 0
  }

  /**
  Over every run that leaves its name alone, what is taken from a provision and what it still
  owes make up what it owed, and after more epochs than its measure it is charged in full.
  */
  lemma {:induction false} RunChargesInFull(b: Books, acts: seq<Act>, name: Addr -> ProvisionId, id: ProvisionId)
    requires Sound(b.provisions, b.present) && Spares(b, acts, name, id)
    ensures var b1, taken := After(b, acts, name), TakenFrom(b, acts, name, id);
      if id !in b.provisions then id !in b1.provisions && taken == 0
      else
        && taken + (if id in b1.provisions then b1.provisions[id].remaining else 0) == b.provisions[id].remaining
        && (EpochCount(acts) > Measure(b.provisions[id]) ==>
              id !in b1.provisions && taken == b.provisions[id].remaining)
        && (id in b1.provisions ==>
              Live(b1.provisions[id]) && Measure(b1.provisions[id]) + EpochCount(acts) <= Measure(b.provisions[id]))
    decreases |acts|
  {
    hide Process;
    if |acts| > 0 {
      ActBalances(b, acts[0], name);
      RunChargesInFull(Next(b, acts[0], name), acts[1..], name, id);
      OneTaken(b, acts[0], name, id);
    }
  }

  lemma OneTaken(b: Books, a: Act, name: Addr -> ProvisionId, id: ProvisionId)
    requires Sound(b.provisions, b.present) && (Opens(b, a) ==> name(a.defaulter) != id)
    ensures id !in b.provisions ==> id !in Next(b, a, name).provisions
    ensures id in b.provisions && !a.Epoch? ==>
      id in Next(b, a, name).provisions && Next(b, a, name).provisions[id] == b.provisions[id]
    ensures id in b.provisions ==> Live(b.provisions[id])
    ensures id in b.provisions && a.Epoch? ==>
      var p, r := b.provisions[id], Process(b.provisions[id], b.present);
      if id in Next(b, a, name).provisions then
        var q := Next(b, a, name).provisions[id];
        Live(q) && r.taken + q.remaining == p.remaining && Measure(q) < Measure(p)
      else r.taken == p.remaining
  {
    if id in b.provisions {
      ProcessProgress(b.provisions[id], b.present);
      NothingLost(b.provisions[id], b.present);
    }
  }

  /** Two defaults under one name, the second before the first is recovered: 70 units are never charged. */
  lemma ReplacedHappens(name: Addr -> ProvisionId, accounts: set<Addr>, defaulter: Addr)
    requires defaulter in accounts
    ensures var acts := [Defaults(defaulter, 100, []), Defaults(defaulter, 10, [])];
      var b1, t := After(Books(map[], accounts), acts, name), TotalsOf(Books(map[], accounts), acts, name);
      && t == Totals(110, 33, 70)
      && b1.provisions.Keys == {name(defaulter)} && b1.provisions[name(defaulter)].remaining == 7
  {
    var b := Books(map[], accounts);
    var first, second := Defaults(defaulter, 100, []), Defaults(defaulter, 10, []);
    var acts := [first, second];
    assert acts[1..] == [second];
    var b1 := Next(b, first, name);
    var b2 := Next(b1, second, name);
    assert After(b1, [second], name) == After(b2, [], name) == b2;
    assert TotalsOf(b1, [second], name) == Totals(10, 3, 70);
  }

  // --- how often provisions are processed ---

  const BLOCKS_PER_EPOCH := 43200

  /** The height of the last epoch is only updated in a copy of the keeper, so it stays 0. */
  function EpochsBy(height: nat): nat {
    if height == 0 then 0 else EpochsBy(height - 1) + if height - 0 >= BLOCKS_PER_EPOCH then 1 else 0
  }

  /** Had it been kept: the epochs so far and the height of the last one. */
  function KeptEpochsBy(height: nat): (nat, nat) {
    if height == 0 then (0, 0)
    else
      var (epochs, last) := KeptEpochsBy(height - 1);
      if height - last >= BLOCKS_PER_EPOCH then (epochs + 1, height) else (epochs, last)
  }

  lemma {:induction false} EpochsInBlocks(height: nat)
    ensures EpochsBy(height) == if height < BLOCKS_PER_EPOCH then 0 else height - BLOCKS_PER_EPOCH + 1
    ensures KeptEpochsBy(height) == (height / BLOCKS_PER_EPOCH, height / BLOCKS_PER_EPOCH * BLOCKS_PER_EPOCH)
  {
    if height > 0 {
      EpochsInBlocks(height - 1);
    }
  }

  /** Provisions are processed once per epoch exactly up to the first epoch: from there on, in every block. */
  lemma OncePerEpochExactly(height: nat)
    ensures EpochsBy(height) == KeptEpochsBy(height).0 <==> height <= 43200
  {
    EpochsInBlocks(height);
  }

  // --- the keeper itself ---

  type Accounts = map<Addr, Account>

  /** The accounts after one provision was processed. */
  function Debited(accounts: Accounts, p: Provision): (r: Accounts)
    ensures r.Keys == accounts.Keys
  {
    var taken := Process(p, accounts.Keys).taken;
    if taken > 0 then accounts[Target(p) := Deducted(accounts[Target(p)], taken)] else accounts
  }

  /** The accounts after the provisions were processed in the given order. */
  function DebitedAll(accounts: Accounts, ps: Provisions, order: seq<ProvisionId>): (r: Accounts)
    requires forall id <- order :: id in ps
    ensures r.Keys == accounts.Keys
  {
    if |order| == 0 then accounts
    else Debited(DebitedAll(accounts, ps, order[..|order| - 1]), ps[order[|order| - 1]])
  }

  lemma DebitNone(accounts: Accounts, ps: Provisions)
    ensures DebitedAll(accounts, ps, []) == accounts
  {
  }

  lemma DebitOne(accounts: Accounts, ps: Provisions, order: seq<ProvisionId>, id: ProvisionId)
    requires id in ps && forall i <- order :: i in ps
    ensures DebitedAll(accounts, ps, order + [id]) == Debited(DebitedAll(accounts, ps, order), ps[id])
  {
    assert (order + [id])[..|order|] == order;
  }

  /** Each provision in `ps` stands in the order once. */
  ghost predicate Visits(order: seq<ProvisionId>, ps: Provisions) {
    Distinct(order) && forall id :: id in order <==> id in ps
  }

  /** The provisions in `order` have been processed; those among them that are gone are listed but still kept. */
  ghost predicate Underway(ps: Provisions, accounts: Accounts, ps1: Provisions, accounts1: Accounts,
                           order: seq<ProvisionId>, settled: seq<ProvisionId>)
  {
    && ps1.Keys == ps.Keys
    && Distinct(order) && (forall id <- order :: id in ps)
    && accounts1 == DebitedAll(accounts, ps, order)
    && Distinct(settled)
    && (forall id :: id in settled <==> id in order && Process(ps[id], accounts.Keys).Gone?)
    && (forall id <- ps :: id !in order ==> ps1[id] == ps[id])
    && (forall id <- ps :: id in order && Process(ps[id], accounts.Keys).Kept? ==>
          ps1[id] == Process(ps[id], accounts.Keys).provision)
  }

  lemma UnderwayStep(ps: Provisions, accounts: Accounts, ps1: Provisions, accounts1: Accounts,
                     order: seq<ProvisionId>, settled: seq<ProvisionId>, id: ProvisionId, p: Provision, gone: bool)
    requires Underway(ps, accounts, ps1, accounts1, order, settled) && id in ps && id !in order
    requires gone <==> Process(ps[id], accounts.Keys).Gone?
    requires !gone ==> p == Process(ps[id], accounts.Keys).provision
    ensures Underway(ps, accounts, ps1[id := p], Debited(accounts1, ps[id]),
                     order + [id], if gone then settled + [id] else settled)
  {
    hide Process, Debited, DebitedAll;
    DebitOne(accounts, ps, order, id);
  }

  lemma UnderwayStart(ps: Provisions, accounts: Accounts)
    ensures Underway(ps, accounts, ps, accounts, [], [])
  {
  }

  /** A provision not yet processed is as it was, and live. */
  lemma NotYet(ps: Provisions, accounts: Accounts, ps1: Provisions, accounts1: Accounts,
               order: seq<ProvisionId>, settled: seq<ProvisionId>, id: ProvisionId)
    requires Underway(ps, accounts, ps1, accounts1, order, settled) && id in ps && id !in order
    requires Sound(ps, accounts.Keys)
    ensures ps1[id] == ps[id] && Live(ps[id]) && accounts1.Keys == accounts.Keys
  {
    hide Process, DebitedAll;
  }

  lemma Passed(ps: Provisions, accounts: Accounts, ps1: Provisions, accounts1: Accounts, order: seq<ProvisionId>)
    requires EpochPassed(ps, accounts, ps1, accounts1, order)
    ensures ps1 == NextEpoch(ps, accounts.Keys) && accounts1.Keys == accounts.Keys
  {
    hide NextEpoch;
  }

  lemma UnderwayEnd(ps: Provisions, accounts: Accounts, ps1: Provisions, accounts1: Accounts,
                    order: seq<ProvisionId>, settled: seq<ProvisionId>)
    requires Underway(ps, accounts, ps1, accounts1, order, settled) && forall id <- ps :: id in order
    requires Sound(ps, accounts.Keys)
    ensures var left := map id <- ps1 | id !in settled :: ps1[id];
      EpochPassed(ps, accounts, left, accounts1, order)
    ensures Distinct(settled)
    ensures forall id :: id in settled <==> id in ps && Process(ps[id], accounts.Keys).Gone?
    ensures forall id :: id in settled ==> Process(ps[id], accounts.Keys) == Gone(ps[id].remaining, 0)
  {
    hide Process, Debited, DebitedAll, Live;
    forall id | id in settled ensures Process(ps[id], accounts.Keys) == Gone(ps[id].remaining, 0) {
      NothingLost(ps[id], accounts.Keys);
    }
  }

  /** Every provision made its step and was charged for once, in some order. */
  ghost predicate EpochPassed(ps: Provisions, accounts: Accounts, ps1: Provisions, accounts1: Accounts,
                              order: seq<ProvisionId>)
  {
    && ps1 == NextEpoch(ps, accounts.Keys)
    && Visits(order, ps)
    && accounts1 == DebitedAll(accounts, ps, order)
  }

  class Keeper {
    const name: Addr -> ProvisionId
    var provisions: Provisions
    var accounts: Accounts

    ghost predicate Valid()
      reads this
    {
      Sound(provisions, accounts.Keys)
    }

    /** A provision is named after its defaulter and the epoch, which never advances. */
    constructor (name: Addr -> ProvisionId, accounts: Accounts)
      ensures Valid() && this.name == name && this.accounts == accounts && provisions == map[]
    {
      this.name := name;
      this.accounts := accounts;
      provisions := map[];
    }

    ghost function View(): Books
      reads this
    {
      Books(provisions, accounts.Keys)
    }

    /** Accounts are added or overwritten, never removed. */
    method SetUser(who: Addr, account: Account)
      requires Valid()
      modifies this`accounts
      ensures Valid() && View() == Next(old(View()), Joins(who), name)
      ensures accounts == old(accounts)[who := account]
    {
      accounts := accounts[who := account];
    }

    method ApplyProvisionDeduction(target: Addr, amount: nat) returns (ok: bool)
      modifies this`accounts
      ensures ok <==> target in old(accounts)
      ensures accounts == if ok then old(accounts)[target := Deducted(old(accounts)[target], amount)] else old(accounts)
    {
      if target !in accounts {
        return false;
      }
      var a := accounts[target];
      if a.creditLimit >= amount {
        a := a.(creditLimit := a.creditLimit - amount);
      } else {
        var remaining := amount - a.creditLimit;
        a := a.(creditLimit := 0);
        if a.trustWeight < 1 {
          a := a.(trustWeight := 1);
        }
        var penalty := Product(remaining, 10) / a.trustWeight;
        if penalty > 100 {
          penalty := 100;
        }
        a := a.(trustWeight := Product(a.trustWeight, 100 - penalty) / 100);
        if a.trustWeight < 1 {
          a := a.(trustWeight := 1);
        }
      }
      accounts := accounts[target := a];
      return true;
    }

    /** Thirty percent are taken from the defaulter at once; a provision of the same name is replaced. */
    method ProcessRecursiveLiability(defaulter: Addr, debt: nat, bonds: seq<Bond>) returns (initial: Option<nat>)
      requires Valid()
      modifies this
      ensures Valid() && View() == Next(old(View()), Defaults(defaulter, debt, bonds), name)
      ensures initial.Some? <==> defaulter in old(accounts)
      ensures initial.None? ==> provisions == old(provisions) && accounts == old(accounts)
      ensures initial.Some? ==>
        && name(defaulter) in provisions
        && var p := provisions[name(defaulter)];
           && p.defaulter == defaulter && p.debt == debt && p.index == 0 && p.active
           && p.remaining + initial.value == debt && (debt * 30 < UINT64_RANGE ==> initial.value == debt * 30 / 100)
      ensures initial.Some? ==>
        && initial.value == FirstPart(debt)
        && provisions == old(provisions)[name(defaulter) := NewProvision(defaulter, debt, bonds)]
        && accounts == if FirstPart(debt) > 0 then
                         old(accounts)[defaulter := Deducted(old(accounts)[defaulter], FirstPart(debt))]
                       else old(accounts)
    {
      hide Deducted;
      if defaulter !in accounts {
        return None;
      }
      var chain: seq<Addr> := [];
      for i := 0 to |bonds|
        invariant chain == ChainOf(bonds[..i], defaulter)
      {
        assert bonds[..i + 1][..i] == bonds[..i];
        if !bonds[i].forfeited && bonds[i].invitee == defaulter {
          chain := chain + [bonds[i].inviter];
        }
      }
      assert bonds[..|bonds|] == bonds;
      var amount := FirstPart(debt);
      var p := Provision(defaulter, debt, debt, chain, 0, true);
      if amount > 0 {
        var ok := ApplyProvisionDeduction(defaulter, amount);
        p := p.(remaining := p.remaining - amount);
      }
      provisions := provisions[name(defaulter) := p];
      return Some(amount);
    }

    /** Every block from the first epoch on processes the provisions, as only a copy of the keeper advances. */
    method BeginBlocker(height: nat) returns (ghost order: seq<ProvisionId>)
      requires Valid()
      modifies this
      ensures Valid()
      ensures height < 43200 ==> provisions == old(provisions) && accounts == old(accounts)
      ensures height >= 43200 ==>
        && EpochPassed(old(provisions), old(accounts), provisions, accounts, order)
        && View() == Next(old(View()), Epoch, name)
    {
      order := [];
      var epochHeight := 0;
      if height - epochHeight >= BLOCKS_PER_EPOCH {
        epochHeight := height;
        var settled;
        settled, order := ProcessEpochProvisions();
      }
    }

    /**
    Every provision makes its step, whatever the order of processing. The ones dropped and reported are
    charged in full.
    */
    method ProcessEpochProvisions() returns (settled: seq<ProvisionId>, ghost order: seq<ProvisionId>)
      requires Valid()
      modifies this
      ensures Valid() && View() == Next(old(View()), Epoch, name)
      ensures EpochPassed(old(provisions), old(accounts), provisions, accounts, order)
      ensures Distinct(settled)
      ensures forall id :: id in settled <==> id in old(provisions) && id !in provisions
      ensures forall id <- settled ::
        Process(old(provisions)[id], old(accounts).Keys) == Gone(old(provisions)[id].remaining, 0)
    {
      hide Process, Live, Debited, DebitedAll, Sound, Underway, EpochPassed;
      ghost var before, accounts0 := provisions, accounts;
      EpochSound(before, accounts.Keys);
      var todo := provisions.Keys;
      settled, order := [], [];
      UnderwayStart(before, accounts0);
      while todo != {}
        invariant todo <= before.Keys == provisions.Keys && accounts.Keys == accounts0.Keys
        invariant forall id :: id in order <==> id in before && id !in todo
        invariant Underway(before, accounts0, provisions, accounts, order, settled)
        decreases |todo|
      {
        var id :| id in todo;
        todo := todo - {id};
        ghost var accounts1 := accounts;
        NotYet(before, accounts0, provisions, accounts, order, settled, id);
        var p, gone := ProcessOne(provisions[id]);
        UnderwayStep(before, accounts0, provisions, accounts1, order, settled, id, p, gone);
        provisions := provisions[id := p];
        order := order + [id];
        if gone {
          settled := settled + [id];
        }
      }
      UnderwayEnd(before, accounts0, provisions, accounts, order, settled);
      provisions := map id <- provisions | id !in settled :: provisions[id];
      Passed(before, accounts0, provisions, accounts, order);
    }

    method ProcessOne(p: Provision) returns (r: Provision, gone: bool)
      requires Live(p)
      modifies this`accounts
      ensures gone <==> Process(p, old(accounts).Keys).Gone?
      ensures !gone ==> r == Process(p, old(accounts).Keys).provision
      ensures accounts == Debited(old(accounts), p)
    {
      hide Deducted;
      r := p;
      if !p.active || p.remaining == 0 {
        return r, true;
      }
      var deduction := Product(p.remaining, 10) / 100;
      if deduction == 0 {
        deduction := 1;
      }
      if deduction > p.remaining {
        deduction := p.remaining;
      }
      var target := p.defaulter;
      if p.index < |p.chain| {
        if p.remaining <= Product(p.debt, 30) / 100 {
          target := p.chain[p.index];
        }
      }
      var ok := ApplyProvisionDeduction(target, deduction);
      if !ok {
        if p.index < |p.chain| {
          return p.(index := p.index + 1), false;
        }
        return p.(active := false), true;
      }
      r := p.(remaining := p.remaining - deduction);
      gone := r.remaining == 0;
      if gone {
        r := r.(active := false);
      }
    }
  }
}
