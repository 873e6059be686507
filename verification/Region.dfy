/**
Region nodes (region/node.go, region/protocol.go): member balances, local and cross-region
transactions with their fees, and the chain of blocks that records them.
*/
module Region {
  import opened Common
  import opened Sums

  type Id = nat
  type Digest = nat

  datatype Member = Member(balance: nat, locked: nat)

  type Members = map<Id, Member>

  /** The money of one node. */
  datatype Books = Books(members: Members, earnings: nat, crossEarnings: nat)

  // --- wealth ---

  ghost function Column(ms: Members): map<Id, int> {
    map m <- ms :: ms[m].balance + ms[m].locked
  }

  ghost function Wealth(b: Books): int {
    Sum(Column(b.members)) + b.earnings + b.crossEarnings
  }

  lemma ColumnUpdate(ms: Members, who: Id, m: Member)
    requires who in ms
    ensures Sum(Column(ms[who := m])) == Sum(Column(ms)) - ms[who].balance - ms[who].locked + m.balance + m.locked
  {
    hide Sum;
    SumUpdate(Column(ms), who, m.balance + m.locked);
    assert Column(ms[who := m]) == Column(ms)[who := m.balance + m.locked];
  }

  lemma MemberWithin(b: Books, who: Id)
    requires who in b.members
    ensures b.members[who].balance + b.members[who].locked + b.earnings + b.crossEarnings <= Wealth(b)
  {
    PartOfSum(Column(b.members), who);
  }

  lemma WealthNonNegative(b: Books)
    ensures Wealth(b) >= b.earnings + b.crossEarnings
  {
    SumNonNegative(Column(b.members));
  }

  // --- fees, locks and credits in 64-bit arithmetic ---

  function Fee(amount: nat, rate: nat): nat {
    amount * rate % UINT64_RANGE / 10000
  }

  function Charge(amount: nat, rate: nat): nat {
    (amount + Fee(amount, rate)) % UINT64_RANGE
  }

  /** Amount and fee together do not overflow. */
  predicate Fits(amount: nat, rate: nat) {
    amount + Fee(amount, rate) < UINT64_RANGE
  }

  predicate Locks(ms: Members, who: Id, total: nat) {
    who in ms && ms[who].balance >= total
  }

  function Locked(ms: Members, who: Id, total: nat): (r: Members)
    requires Locks(ms, who, total)
    ensures r.Keys == ms.Keys
  {
    ms[who := Member(ms[who].balance - total, (ms[who].locked + total) % UINT64_RANGE)]
  }

  predicate Unlocks(ms: Members, who: Id, total: nat) {
    who in ms && ms[who].locked >= total
  }

  function Unlocked(ms: Members, who: Id, total: nat): (r: Members)
    requires Unlocks(ms, who, total)
    ensures r.Keys == ms.Keys
  {
    ms[who := Member(ms[who].balance, ms[who].locked - total)]
  }

  function Credited(ms: Members, who: Id, amount: nat): (r: Members)
    requires who in ms
    ensures r.Keys == ms.Keys
  {
    ms[who := Member((ms[who].balance + amount) % UINT64_RANGE, ms[who].locked)]
  }

  // --- a local transaction ---

  datatype Outcome = Refused | Stuck | Lost | Done

  /** Refused before anything changed, failed when unlocking, failed when crediting, or completed. */
  function LocalOutcome(b: Books, from: Id, to: Id, amount: nat, rate: nat): Outcome {
    var total := Charge(amount, rate);
    if !Locks(b.members, from, total) then Refused
    else
      var ms := Locked(b.members, from, total);
      if !Unlocks(ms, from, total) then Stuck else if to !in ms then Lost else Done
  }

  function LocalBooks(b: Books, from: Id, to: Id, amount: nat, rate: nat): Books {
    var total := Charge(amount, rate);
    match LocalOutcome(b, from, to, amount, rate)
    case Refused => b
    case Stuck => b.(members := Locked(b.members, from, total))
    case Lost => b.(members := Unlocked(Locked(b.members, from, total), from, total))
    case Done => Books(Credited(Unlocked(Locked(b.members, from, total), from, total), to, amount),
                       (b.earnings + Fee(amount, rate)) % UINT64_RANGE, b.crossEarnings)
  }

  /** How often each of the three additions of a completed local transaction wraps around. */
  function ChargeWraps(amount: nat, rate: nat): nat {
    (amount + Fee(amount, rate)) / UINT64_RANGE
  }

  function CreditWraps(b: Books, from: Id, to: Id, amount: nat, rate: nat): nat
    requires LocalOutcome(b, from, to, amount, rate).Done?
  {
    var total := Charge(amount, rate);
    (Unlocked(Locked(b.members, from, total), from, total)[to].balance + amount) / UINT64_RANGE
  }

  function EarningWraps(b: Books, amount: nat, rate: nat): nat {
    (b.earnings + Fee(amount, rate)) / UINT64_RANGE
  }

  lemma LockAndUnlock(ms: Members, who: Id, total: nat)
    requires Locks(ms, who, total) && total < UINT64_RANGE
    ensures Sum(Column(Locked(ms, who, total)))
         == Sum(Column(ms)) - (ms[who].locked + total) / UINT64_RANGE * UINT64_RANGE
    ensures !Unlocks(Locked(ms, who, total), who, total) ==> (ms[who].locked + total) / UINT64_RANGE > 0
    ensures Unlocks(Locked(ms, who, total), who, total) ==>
      Sum(Column(Unlocked(Locked(ms, who, total), who, total)))
        == Sum(Column(ms)) - (ms[who].locked + total) / UINT64_RANGE * UINT64_RANGE - total
  {
    hide Sum, Column;
    var ms1 := Locked(ms, who, total);
    var locked := ms[who].locked + total;
    assert locked == locked / UINT64_RANGE * UINT64_RANGE + locked % UINT64_RANGE;
    ColumnUpdate(ms, who, ms1[who]);
    if Unlocks(ms1, who, total) {
      ColumnUpdate(ms1, who, Unlocked(ms1, who, total)[who]);
    }
  }

  lemma CreditAdds(ms: Members, who: Id, amount: nat)
    requires who in ms
    ensures Sum(Column(Credited(ms, who, amount)))
         == Sum(Column(ms)) + amount - (ms[who].balance + amount) / UINT64_RANGE * UINT64_RANGE
  {
    ColumnUpdate(ms, who, Credited(ms, who, amount)[who]);
    var sum := ms[who].balance + amount;
    assert sum == sum / UINT64_RANGE * UINT64_RANGE + sum % UINT64_RANGE;
  }

  /** Every entry is a 64-bit word. */
  ghost predicate Words(b: Books) {
    && b.earnings < UINT64_RANGE && b.crossEarnings < UINT64_RANGE
    && forall m <- b.members :: b.members[m].balance < UINT64_RANGE && b.members[m].locked < UINT64_RANGE
  }

  lemma DoneEffect(b: Books, from: Id, to: Id, amount: nat, rate: nat)
    requires Words(b) && LocalOutcome(b, from, to, amount, rate).Done?
    ensures Wealth(LocalBooks(b, from, to, amount, rate)) == Wealth(b)
      + (ChargeWraps(amount, rate) - CreditWraps(b, from, to, amount, rate)
          - EarningWraps(b, amount, rate)) * UINT64_RANGE
  {
    hide Sum, Column, Fee;
    var total, fee := Charge(amount, rate), Fee(amount, rate);
    assert amount + fee == ChargeWraps(amount, rate) * UINT64_RANGE + total;
    assert b.earnings + fee == EarningWraps(b, amount, rate) * UINT64_RANGE + (b.earnings + fee) % UINT64_RANGE;
    LockAndUnlock(b.members, from, total);
    NoWrapIfUnlocks(b.members[from].locked, total);
    CreditAdds(Unlocked(Locked(b.members, from, total), from, total), to, amount);
  }

  lemma FailedEffect(b: Books, from: Id, to: Id, amount: nat, rate: nat)
    requires Words(b) && LocalOutcome(b, from, to, amount, rate) in {Stuck, Lost}
    ensures LocalOutcome(b, from, to, amount, rate).Stuck? ==> Wealth(LocalBooks(b, from, to, amount, rate)) < Wealth(b)
    ensures LocalOutcome(b, from, to, amount, rate).Lost? ==>
      Wealth(LocalBooks(b, from, to, amount, rate)) == Wealth(b) - Charge(amount, rate)
  {
    hide Sum, Column, Fee;
    LockAndUnlock(b.members, from, Charge(amount, rate));
    if LocalOutcome(b, from, to, amount, rate).Lost? {
      NoWrapIfUnlocks(b.members[from].locked, Charge(amount, rate));
    }
  }

  /** What a member has left once the charge of `from` is debited. */
  function LeftAfter(b: Books, from: Id, to: Id, total: nat): int
    requires to in b.members
  {
    b.members[to].balance - if to == from then total else 0
  }

  /**
  The debit comes before the recipient is looked up. A local transaction keeps the node's
  wealth exactly if the sender cannot cover the charge, or its lock has room for the charge
  and the recipient is a member whose credit, with the fee, wraps as often as the charge
  did, or the recipient is unknown but the charge is zero.
  */
  lemma LocalConservesExactly(b: Books, from: Id, to: Id, amount: nat, rate: nat)
    requires Words(b)
    ensures var total := Charge(amount, rate);
      Wealth(LocalBooks(b, from, to, amount, rate)) == Wealth(b) <==>
        || !Locks(b.members, from, total)
        || (&& b.members[from].locked + total < UINT64_RANGE
            && if to in b.members then
                 ChargeWraps(amount, rate)
                   == (LeftAfter(b, from, to, total) + amount) / UINT64_RANGE + EarningWraps(b, amount, rate)
               else total == 0)
  {
    hide Wealth, Words, Charge, ChargeWraps, EarningWraps, CreditWraps, LocalOutcome, LocalBooks;
    OutcomeByGuards(b, from, to, amount, rate);
    match LocalOutcome(b, from, to, amount, rate)
    case Refused => RefusedKeeps(b, from, to, amount, rate);
    case Done =>
      DoneEffect(b, from, to, amount, rate);
      CreditWrapsIs(b, from, to, amount, rate);
    case _ => FailedEffect(b, from, to, amount, rate);
  }

  lemma OutcomeByGuards(b: Books, from: Id, to: Id, amount: nat, rate: nat)
    requires Words(b)
    ensures var total := Charge(amount, rate);
      LocalOutcome(b, from, to, amount, rate) ==
        if !Locks(b.members, from, total) then Refused
        else if b.members[from].locked + total >= UINT64_RANGE then Stuck
        else if to !in b.members then Lost else Done
  {
    hide Fee;
    if Locks(b.members, from, Charge(amount, rate)) {
      NoWrapIfUnlocks(b.members[from].locked, Charge(amount, rate));
    }
  }

  lemma RefusedKeeps(b: Books, from: Id, to: Id, amount: nat, rate: nat)
    requires LocalOutcome(b, from, to, amount, rate).Refused?
    ensures LocalBooks(b, from, to, amount, rate) == b
  {
  }

  lemma CreditWrapsIs(b: Books, from: Id, to: Id, amount: nat, rate: nat)
    requires LocalOutcome(b, from, to, amount, rate).Done? && to in b.members
    ensures CreditWraps(b, from, to, amount, rate)
         == (LeftAfter(b, from, to, Charge(amount, rate)) + amount) / UINT64_RANGE
  {
    hide Fee;
  }

  /** Where nothing overflows: exactly if it is refused, or the recipient is a member, or the charge is zero. */
  lemma LocalConservesInRange(b: Books, from: Id, to: Id, amount: nat, rate: nat)
    requires Wealth(b) < UINT64_RANGE && Fits(amount, rate)
    ensures Wealth(LocalBooks(b, from, to, amount, rate)) == Wealth(b) <==>
      || !Locks(b.members, from, amount + Fee(amount, rate))
      || to in b.members
      || amount + Fee(amount, rate) == 0
  {
    hide Wealth, Fee;
    assert Charge(amount, rate) == amount + Fee(amount, rate);
    WithinWords(b);
    if to in b.members {
      LocalConserves(b, from, to, amount, rate);
    } else if Locks(b.members, from, amount + Fee(amount, rate)) {
      DebitOnly(b, from, amount + Fee(amount, rate));
      FailedEffect(b, from, to, amount, rate);
    }
  }

  lemma WithinWords(b: Books)
    requires Wealth(b) < UINT64_RANGE
    ensures Words(b)
  {
    hide Wealth;
    WealthNonNegative(b);
    forall m | m in b.members ensures b.members[m].balance < UINT64_RANGE && b.members[m].locked < UINT64_RANGE {
      MemberWithin(b, m);
    }
  }

  /** Sending 1000 units to someone unknown loses them and the fee. */
  lemma UnknownRecipientLoses() returns (b: Books, from: Id, to: Id, amount: nat)
    ensures Wealth(b) == 5000 && amount == 1000
    ensures Wealth(LocalBooks(b, from, to, amount, 10)) == 5000 - 1000 - 1
  {
    hide Wealth, LocalBooks;
    b, from, to, amount := Books(map[1 := Member(5000, 0)], 0, 0), 1, 2, 1000;
    WealthOfOne(1, 5000);
    FailedEffect(b, from, to, amount, 10);
  }

  lemma WealthOfOne(who: Id, balance: nat)
    ensures Wealth(Books(map[who := Member(balance, 0)], 0, 0)) == balance
  {
    var column: map<Id, int> := map[who := balance];
    assert Column(map[who := Member(balance, 0)]) == column;
    SumRemove(column, who);
    assert |column - {who}| == 0;
  }

  lemma NoWrapIfUnlocks(locked: nat, total: nat)
    requires locked < UINT64_RANGE && total < UINT64_RANGE
    ensures (locked + total) % UINT64_RANGE >= total <==> locked + total < UINT64_RANGE
    ensures locked + total < UINT64_RANGE ==> (locked + total) / UINT64_RANGE == 0
  {
  }

  /** As long as a node's wealth and the charge fit in 64 bits, paying a member loses and creates nothing. */
  lemma LocalConserves(b: Books, from: Id, to: Id, amount: nat, rate: nat)
    requires Wealth(b) < UINT64_RANGE && Fits(amount, rate) && to in b.members
    ensures LocalOutcome(b, from, to, amount, rate) in {Refused, Done}
    ensures LocalOutcome(b, from, to, amount, rate).Done? <==> Locks(b.members, from, amount + Fee(amount, rate))
    ensures Wealth(LocalBooks(b, from, to, amount, rate)) == Wealth(b)
    ensures forall m <- b.members ::
      && m in LocalBooks(b, from, to, amount, rate).members
      && LocalBooks(b, from, to, amount, rate).members[m].locked == b.members[m].locked
    ensures LocalBooks(b, from, to, amount, rate).members.Keys == b.members.Keys
  {
    hide Sum, Column, Wealth, Fee;
    var total := Charge(amount, rate);
    assert total == amount + Fee(amount, rate);
    if Locks(b.members, from, total) {
      DebitOnly(b, from, total);
      var paid := b.(members := b.members[from := Member(b.members[from].balance - total, b.members[from].locked)]);
      CreditOnly(paid, to, amount, Fee(amount, rate));
    }
  }

  /** Who pays and who receives, when the charge is covered: everyone else keeps their balance. */
  lemma LocalMoves(b: Books, from: Id, to: Id, amount: nat, rate: nat)
    requires Wealth(b) < UINT64_RANGE && Fits(amount, rate) && to in b.members
    requires Locks(b.members, from, amount + Fee(amount, rate))
    ensures var b1 := LocalBooks(b, from, to, amount, rate);
      && b1.earnings == b.earnings + Fee(amount, rate) && b1.crossEarnings == b.crossEarnings
      && b1.members.Keys == b.members.Keys
      && forall m <- b.members :: b1.members[m].balance == b.members[m].balance
           - (if m == from then amount + Fee(amount, rate) else 0) + (if m == to then amount else 0)
  {
    hide Sum, Column, Wealth, Fee;
    var total := Charge(amount, rate);
    assert total == amount + Fee(amount, rate);
    DebitOnly(b, from, total);
    var paid := b.(members := b.members[from := Member(b.members[from].balance - total, b.members[from].locked)]);
    CreditOnly(paid, to, amount, Fee(amount, rate));
    MemberWithin(paid, to);
  }

  lemma DebitOnly(b: Books, from: Id, total: nat)
    requires Wealth(b) < UINT64_RANGE && Locks(b.members, from, total)
    ensures Unlocks(Locked(b.members, from, total), from, total)
    ensures var ms := Unlocked(Locked(b.members, from, total), from, total);
      && ms == b.members[from := Member(b.members[from].balance - total, b.members[from].locked)]
      && Wealth(b.(members := ms)) == Wealth(b) - total
  {
    hide Sum, Column, Wealth;
    MemberWithin(b, from);
    var m := Member(b.members[from].balance - total, b.members[from].locked);
    assert (b.members[from].locked + total) % UINT64_RANGE == b.members[from].locked + total;
    ColumnUpdate(b.members, from, m);
    WealthOf(b);
    WealthOf(b.(members := b.members[from := m]));
  }

  lemma CreditOnly(b: Books, to: Id, amount: nat, fee: nat)
    requires Wealth(b) + amount + fee < UINT64_RANGE && to in b.members
    ensures Wealth(Books(Credited(b.members, to, amount), (b.earnings + fee) % UINT64_RANGE, b.crossEarnings))
         == Wealth(b) + amount + fee
    ensures Credited(b.members, to, amount)
         == b.members[to := Member(b.members[to].balance + amount, b.members[to].locked)]
  {
    hide Sum, Column, Wealth;
    MemberWithin(b, to);
    CreditAdds(b.members, to, amount);
    WealthOf(b);
    WealthOf(Books(Credited(b.members, to, amount), b.earnings + fee, b.crossEarnings));
  }

  lemma WealthOf(b: Books)
    ensures Wealth(b) == Sum(Column(b.members)) + b.earnings + b.crossEarnings
  {
  }

  // --- a cross-region transaction ---

  datatype Settlement = Settlement(outcome: Outcome, sender: Books, receiver: Books)

  /** Settling between two different nodes: the sender's lock is released and the recipient credited elsewhere. */
  function SettleCross(s: Books, r: Books, from: Id, to: Id, amount: nat, rate: nat): Settlement {
    var fee, total := Fee(amount, rate), Charge(amount, rate);
    if !Unlocks(s.members, from, total) then Settlement(Refused, s, r)
    else
      var s1 := s.(members := Unlocked(s.members, from, total));
      if to !in r.members then Settlement(Lost, s1, r)
      else
        Settlement(Done, s1.(crossEarnings := (s.crossEarnings + fee / 2) % UINT64_RANGE),
          r.(members := Credited(r.members, to, amount),
             crossEarnings := (r.crossEarnings + (fee - fee / 2)) % UINT64_RANGE))
  }

  /** The same when sender and recipient turn out to be members of one node. */
  function SettleHere(b: Books, from: Id, to: Id, amount: nat, rate: nat): Books {
    var fee, total := Fee(amount, rate), Charge(amount, rate);
    if !Unlocks(b.members, from, total) then b
    else
      var ms := Unlocked(b.members, from, total);
      if to !in ms then b.(members := ms)
      else Books(Credited(ms, to, amount), b.earnings,
                 ((b.crossEarnings + fee / 2) % UINT64_RANGE + (fee - fee / 2)) % UINT64_RANGE)
  }

  /** Settling within one node loses the charge exactly if the recipient is unknown, too. */
  lemma SettleHereEffect(b: Books, from: Id, to: Id, amount: nat, rate: nat)
    requires Wealth(b) < UINT64_RANGE && Fits(amount, rate)
    ensures var total := amount + Fee(amount, rate);
      Wealth(SettleHere(b, from, to, amount, rate))
        == Wealth(b) - if Unlocks(b.members, from, total) && to !in b.members then total else 0
  {
    hide Sum, Column, Wealth, Fee, Unlocked, Credited;
    var fee, total := Fee(amount, rate), Charge(amount, rate);
    assert total == amount + fee;
    if Unlocks(b.members, from, total) {
      var b1 := b.(members := Unlocked(b.members, from, total));
      ReleaseOnly(b, from, total, 0);
      WealthNonNegative(b1);
      if to in b.members {
        MemberWithin(b1, to);
        CrossCreditOnly(b1, to, amount, fee);
      }
    }
  }

  /**
  Without overflow, settling moves wealth between the nodes and loses the charge exactly if the recipient is
  unknown.
  */
  lemma SettleEffect(s: Books, r: Books, from: Id, to: Id, amount: nat, rate: nat)
    requires Wealth(s) + Wealth(r) < UINT64_RANGE && Fits(amount, rate)
    ensures var x := SettleCross(s, r, from, to, amount, rate);
      && Wealth(x.sender) + Wealth(x.receiver)
          == Wealth(s) + Wealth(r) - (if x.outcome.Lost? then amount + Fee(amount, rate) else 0)
      && (x.outcome.Refused? <==> !Unlocks(s.members, from, amount + Fee(amount, rate)))
      && (!x.outcome.Refused? ==> (x.outcome.Done? <==> to in r.members))
  {
    hide Sum, Column, Wealth, Fee;
    var fee, total := Fee(amount, rate), Charge(amount, rate);
    assert total == amount + fee;
    WealthNonNegative(s);
    WealthNonNegative(r);
    if Unlocks(s.members, from, total) {
      var s1 := s.(members := Unlocked(s.members, from, total));
      ReleaseOnly(s, from, total, 0);
      if to in r.members {
        WealthNonNegative(s1);
        ReleaseOnly(s, from, total, fee / 2);
        CrossCreditOnly(r, to, amount, fee - fee / 2);
      }
    }
  }

  /** Who receives what when a cross-region transaction is settled: the nodes share the fee. */
  lemma SettleMoves(s: Books, r: Books, from: Id, to: Id, amount: nat, rate: nat)
    requires Wealth(s) + Wealth(r) < UINT64_RANGE && Fits(amount, rate)
    requires Unlocks(s.members, from, amount + Fee(amount, rate)) && to in r.members
    ensures var x := SettleCross(s, r, from, to, amount, rate);
      && x.sender.members
          == s.members[from := s.members[from].(locked := s.members[from].locked - amount - Fee(amount, rate))]
      && x.receiver.members == r.members[to := r.members[to].(balance := r.members[to].balance + amount)]
      && x.sender.earnings == s.earnings && x.receiver.earnings == r.earnings
      && x.sender.crossEarnings == s.crossEarnings + Fee(amount, rate) / 2
      && x.sender.crossEarnings + x.receiver.crossEarnings == s.crossEarnings + r.crossEarnings + Fee(amount, rate)
  {
    hide Sum, Column, Wealth, Fee, Unlocked, Credited;
    assert Charge(amount, rate) == amount + Fee(amount, rate);
    MemberWithin(s, from);
    MemberWithin(r, to);
    WealthNonNegative(s);
    WealthNonNegative(r);
    UnlockedIs(s.members, from, amount + Fee(amount, rate));
    CreditedIs(r.members, to, amount);
  }

  /** The same within one node, which keeps the whole fee. */
  lemma SettleHereMoves(b: Books, from: Id, to: Id, amount: nat, rate: nat)
    requires Wealth(b) < UINT64_RANGE && Fits(amount, rate)
    requires Unlocks(b.members, from, amount + Fee(amount, rate)) && to in b.members
    ensures var b1 := SettleHere(b, from, to, amount, rate);
      && b1.members.Keys == b.members.Keys
      && b1.earnings == b.earnings && b1.crossEarnings == b.crossEarnings + Fee(amount, rate)
      && forall m <- b.members ::
           && b1.members[m].balance == b.members[m].balance + (if m == to then amount else 0)
           && b1.members[m].locked
                == b.members[m].locked - (if m == from then amount + Fee(amount, rate) else 0)
  {
    hide Sum, Column, Wealth, Fee, Unlocked, Credited;
    var fee, total := Fee(amount, rate), Charge(amount, rate);
    assert total == amount + fee;
    MemberWithin(b, from);
    WealthNonNegative(b);
    UnlockedIs(b.members, from, total);
    var b1 := b.(members := Unlocked(b.members, from, total));
    ReleaseOnly(b, from, total, 0);
    WealthNonNegative(b1);
    MemberWithin(b1, to);
    CreditedIs(b1.members, to, amount);
  }

  lemma UnlockedIs(ms: Members, who: Id, total: nat)
    requires Unlocks(ms, who, total)
    ensures Unlocked(ms, who, total) == ms[who := ms[who].(locked := ms[who].locked - total)]
  {
  }

  lemma CreditedIs(ms: Members, who: Id, amount: nat)
    requires who in ms && ms[who].balance + amount < UINT64_RANGE
    ensures Credited(ms, who, amount) == ms[who := ms[who].(balance := ms[who].balance + amount)]
  {
  }

  lemma ReleaseOnly(b: Books, from: Id, total: nat, share: nat)
    requires Wealth(b) < UINT64_RANGE && Unlocks(b.members, from, total) && share <= total
    ensures var ms := Unlocked(b.members, from, total);
      Wealth(Books(ms, b.earnings, (b.crossEarnings + share) % UINT64_RANGE)) == Wealth(b) - total + share
    ensures Wealth(b.(members := Unlocked(b.members, from, total))) == Wealth(b) - total
  {
    hide Sum, Column, Wealth;
    var ms := Unlocked(b.members, from, total);
    MemberWithin(b, from);
    ColumnUpdate(b.members, from, ms[from]);
    WealthOf(b);
    WealthOf(b.(members := ms));
    WealthOf(Books(ms, b.earnings, b.crossEarnings + share));
  }

  lemma CrossCreditOnly(b: Books, to: Id, amount: nat, share: nat)
    requires Wealth(b) + amount + share < UINT64_RANGE && to in b.members
    ensures Wealth(b.(members := Credited(b.members, to, amount),
                      crossEarnings := (b.crossEarnings + share) % UINT64_RANGE))
         == Wealth(b) + amount + share
  {
    hide Sum, Column, Wealth;
    MemberWithin(b, to);
    CreditAdds(b.members, to, amount);
    WealthOf(b);
    WealthOf(b.(members := Credited(b.members, to, amount), crossEarnings := b.crossEarnings + share));
  }

  /** The recipient check of the receiving node. */
  predicate AcceptsCross(b: Books, to: Id) {
    to in b.members
  }

  // --- transactions and blocks ---

  datatype TxId = TxId(region: Id, number: nat)

  datatype TxStatus = TxLocked | TxConfirmed | TxFailed

  /** The regions and numbers a settled cross-region transaction refers to. */
  datatype CrossRef = CrossRef(sender: Id, receiver: Id, number: nat)

  datatype Tx = Tx(id: TxId, from: Id, to: Id, amount: nat, number: nat, status: TxStatus, crossRef: Option<CrossRef>)

  datatype Block = Block(height: nat, prev: Digest, tx: Tx, timestamp: int)

  /** The blocks of a node and its state root. */
  datatype Log = Log(chain: seq<Block>, root: Digest)

  /** Of height, previous hash, transaction name and time. */
  type BlockHash = (nat, Digest, TxId, int) -> Digest

  const ZERO: Digest := 0

  /** Heights count from 1, every block names its predecessor's hash, and the state root is the last hash. */
  ghost predicate HashLinked(log: Log, hash: BlockHash) {
    && (forall k {:trigger HashBefore(log.chain, k, hash)} :: 0 <= k < |log.chain| ==>
          log.chain[k].height == k + 1 && log.chain[k].prev == HashBefore(log.chain, k, hash))
    && log.root == HashBefore(log.chain, |log.chain|, hash)
  }

  function HashOf(b: Block, hash: BlockHash): Digest {
    hash(b.height, b.prev, b.tx.id, b.timestamp)
  }

  function HashBefore(chain: seq<Block>, k: nat, hash: BlockHash): Digest
    requires k <= |chain|
  {
    if k == 0 then ZERO else HashOf(chain[k - 1], hash)
  }

  function NextBlock(log: Log, tx: Tx, now: int, hash: BlockHash): Block {
    var prev := if |log.chain| > 0 then HashOf(log.chain[|log.chain| - 1], hash) else log.root;
    Block(|log.chain| + 1, prev, tx, now)
  }

  function Appended(log: Log, tx: Tx, now: int, hash: BlockHash): Log {
    var block := NextBlock(log, tx, now, hash);
    Log(log.chain + [block], HashOf(block, hash))
  }

  lemma LinkOne(log: Log, tx: Tx, now: int, hash: BlockHash)
    requires HashLinked(log, hash)
    ensures HashLinked(Appended(log, tx, now, hash), hash)
  {
    hide HashOf;
    var chain, chain1 := log.chain, Appended(log, tx, now, hash).chain;
    forall k | 0 <= k < |chain1|
      ensures chain1[k].height == k + 1 && chain1[k].prev == HashBefore(chain1, k, hash)
    {
      if k < |chain| {
        assert HashBefore(chain1, k, hash) == HashBefore(chain, k, hash);
      }
    }
  }

  // --- what an operation does to a node ---

  datatype Node = Node(region: Id, books: Books, log: Log, txSeq: nat, queue: seq<Tx>)

  /** The sequence number is used up even when the transaction then fails; only a completed one is recorded. */
  function LocalNode(n: Node, from: Id, to: Id, amount: nat, rate: nat, now: int, hash: BlockHash): Node {
    var outcome := LocalOutcome(n.books, from, to, amount, rate);
    var number := if outcome.Refused? then n.txSeq else n.txSeq + 1;
    var tx := Tx(TxId(n.region, number), from, to, amount, number, TxConfirmed, None);
    n.(books := LocalBooks(n.books, from, to, amount, rate), txSeq := number,
       log := if outcome.Done? then Appended(n.log, tx, now, hash) else n.log)
  }

  /** Amount and fee are locked and the transaction queued under a new number, if the balance covers them. */
  function InitiateNode(n: Node, from: Id, to: Id, amount: nat, rate: nat): Node {
    var total, number := Charge(amount, rate), n.txSeq + 1;
    if !Locks(n.books.members, from, total) then n
    else
      n.(books := n.books.(members := Locked(n.books.members, from, total)), txSeq := number,
         queue := n.queue + [Tx(TxId(n.region, number), from, to, amount, number, TxLocked, None)])
  }

  /** A queued transaction gets a second sequence number when it is recorded; its name keeps the first. */
  function RecordNode(n: Node, now: int, hash: BlockHash): Node
    requires |n.queue| > 0
  {
    var tx := n.queue[0].(number := n.txSeq + 1);
    n.(queue := n.queue[1..], txSeq := n.txSeq + 1, log := Appended(n.log, tx, now, hash))
  }

  /** One block more, of this transaction and time. */
  predicate Records(chain: seq<Block>, chain1: seq<Block>, tx: Tx, now: int) {
    && |chain1| == |chain| + 1 && chain1[..|chain|] == chain
    && chain1[|chain|].tx == tx && chain1[|chain|].timestamp == now && chain1[|chain|].height == |chain| + 1
  }

  class RegionNode {
    const region: Id
    const hash: BlockHash
    var members: Members
    var chain: seq<Block>
    var stateRoot: Digest
    var txSeq: nat
    var queue: seq<Tx>
    var earnings: nat
    var crossEarnings: nat

    ghost predicate Valid()
      reads this
    {
      HashLinked(Log(chain, stateRoot), hash)
    }

    function Money(): Books
      reads this
    {
      Books(members, earnings, crossEarnings)
    }

    function View(): Node
      reads this
    {
      Node(region, Money(), Log(chain, stateRoot), txSeq, queue)
    }

    constructor (region: Id, hash: BlockHash)
      ensures Valid() && this.hash == hash
      ensures View() == Node(region, Books(map[], 0, 0), Log([], ZERO), 0, [])
    {
      this.region, this.hash := region, hash;
      members, chain, stateRoot, txSeq, queue := map[], [], ZERO, 0, [];
      earnings, crossEarnings := 0, 0;
    }

    method AddMember(who: Id, balance: nat)
      requires Valid()
      modifies this`members
      ensures Valid() && members == old(members)[who := Member(balance, 0)]
    {
      members := members[who := Member(balance, 0)];
    }

    method LockBalance(who: Id, amount: nat) returns (ok: bool)
      modifies this`members
      ensures ok <==> Locks(old(members), who, amount)
      ensures members == if ok then Locked(old(members), who, amount) else old(members)
    {
      if who !in members || members[who].balance < amount {
        return false;
      }
      var m := members[who];
      members := members[who := Member(m.balance - amount, (m.locked + amount) % UINT64_RANGE)];
      return true;
    }

    method UnlockBalance(who: Id, amount: nat) returns (ok: bool)
      modifies this`members
      ensures ok <==> Unlocks(old(members), who, amount)
      ensures members == if ok then Unlocked(old(members), who, amount) else old(members)
    {
      if who !in members || members[who].locked < amount {
        return false;
      }
      var m := members[who];
      members := members[who := Member(m.balance, m.locked - amount)];
      return true;
    }

    method CreditBalance(who: Id, amount: nat) returns (ok: bool)
      modifies this`members
      ensures ok <==> who in old(members)
      ensures members == if ok then Credited(old(members), who, amount) else old(members)
    {
      if who !in members {
        return false;
      }
      var m := members[who];
      members := members[who := Member((m.balance + amount) % UINT64_RANGE, m.locked)];
      return true;
    }

    method WriteBlock(tx: Tx, now: int)
      requires Valid()
      modifies this`chain, this`stateRoot
      ensures Valid() && Log(chain, stateRoot) == Appended(old(Log(chain, stateRoot)), tx, now, hash)
      ensures Records(old(chain), chain, tx, now)
    {
      LinkOne(Log(chain, stateRoot), tx, now, hash);
      var prev := stateRoot;
      if |chain| > 0 {
        prev := HashOf(chain[|chain| - 1], hash);
      }
      var block := Block(|chain| + 1, prev, tx, now);
      chain := chain + [block];
      stateRoot := HashOf(block, hash);
    }

    method ExecuteLocalTx(from: Id, to: Id, amount: nat, rate: nat, now: int) returns (tx: Option<Tx>)
      requires Valid()
      modifies this
      ensures Valid() && View() == LocalNode(old(View()), from, to, amount, rate, now, hash)
      ensures tx.Some? <==> LocalOutcome(old(Money()), from, to, amount, rate).Done?
      ensures tx.Some? ==>
        && tx.value == Tx(TxId(region, txSeq), from, to, amount, txSeq, TxConfirmed, None)
        && Records(old(chain), chain, tx.value, now)
      ensures tx.None? ==> chain == old(chain) && stateRoot == old(stateRoot)
      ensures txSeq == old(txSeq) + if Locks(old(members), from, Charge(amount, rate)) then 1 else 0
      ensures queue == old(queue) && crossEarnings == old(crossEarnings)
    {
      hide HashLinked, Appended, Fee, Locks, Locked, Unlocks, Unlocked, Credited;
      var fee := Fee(amount, rate);
      var total := (amount + fee) % UINT64_RANGE;
      var locked := LockBalance(from, total);
      if !locked {
        return None;
      }
      txSeq := txSeq + 1;
      var unlocked := UnlockBalance(from, total);
      if !unlocked {
        return None;
      }
      var credited := CreditBalance(to, amount);
      if !credited {
        return None;
      }
      earnings := (earnings + fee) % UINT64_RANGE;
      tx := Some(Tx(TxId(region, txSeq), from, to, amount, txSeq, TxConfirmed, None));
      WriteBlock(tx.value, now);
    }

    method InitiateCrossRegion(from: Id, to: Id, amount: nat, rate: nat) returns (tx: Option<Tx>)
      requires Valid()
      modifies this
      ensures Valid() && View() == InitiateNode(old(View()), from, to, amount, rate)
      ensures tx.Some? <==> Locks(old(members), from, Charge(amount, rate))
      ensures tx.Some? ==>
        && tx.value.from == from && tx.value.to == to && tx.value.amount == amount
        && tx.value.id == TxId(region, txSeq) && tx.value.number == txSeq == old(txSeq) + 1
        && tx.value.status == TxLocked && tx.value.crossRef == None
        && queue == old(queue) + [tx.value]
        && members == Locked(old(members), from, Charge(amount, rate))
    {
      hide HashLinked, Fee, Locks, Locked;
      var fee := Fee(amount, rate);
      var total := (amount + fee) % UINT64_RANGE;
      var ok := LockBalance(from, total);
      if !ok {
        return None;
      }
      txSeq := txSeq + 1;
      tx := Some(Tx(TxId(region, txSeq), from, to, amount, txSeq, TxLocked, None));
      queue := queue + [tx.value];
    }

    method ProcessTx(now: int)
      requires Valid() && |queue| > 0
      modifies this
      ensures Valid() && View() == RecordNode(old(View()), now, hash)
      ensures queue == old(queue)[1..] && txSeq == old(txSeq) + 1 && Money() == old(Money())
      ensures Records(old(chain), chain, old(queue)[0].(number := txSeq), now)
    {
      hide HashLinked, Appended;
      var tx := queue[0];
      queue := queue[1..];
      txSeq := txSeq + 1;
      WriteBlock(tx.(number := txSeq), now);
    }

    /** The two nodes may be one and the same. The status of the transaction is set, but never looked at. */
    static method FinalizeCrossRegion(sender: RegionNode, receiver: RegionNode, tx: Tx, rate: nat)
      returns (ok: bool, settled: Tx)
      requires sender.Valid() && receiver.Valid()
      modifies sender`members, sender`crossEarnings, receiver`members, receiver`crossEarnings
      ensures sender.Valid() && receiver.Valid()
      ensures sender != receiver ==>
        var x := SettleCross(old(sender.Money()), old(receiver.Money()), tx.from, tx.to, tx.amount, rate);
        sender.Money() == x.sender && receiver.Money() == x.receiver && (ok <==> x.outcome.Done?)
      ensures sender == receiver ==> sender.Money() == SettleHere(old(sender.Money()), tx.from, tx.to, tx.amount, rate)
      ensures ok <==> Unlocks(old(sender.members), tx.from, Charge(tx.amount, rate)) && tx.to in old(receiver.members)
      ensures settled ==
        if ok then tx.(status := TxConfirmed, crossRef := Some(CrossRef(sender.region, receiver.region, tx.number)))
        else tx.(status := TxFailed)
    {
      hide HashLinked, Fee, Locks, Locked, Unlocks, Unlocked, Credited;
      settled := tx;
      var fee := Fee(tx.amount, rate);
      var half := fee / 2;
      var total := (tx.amount + fee) % UINT64_RANGE;
      var unlocked := sender.UnlockBalance(tx.from, total);
      if !unlocked {
        return false, tx.(status := TxFailed);
      }
      var credited := receiver.CreditBalance(tx.to, tx.amount);
      if !credited {
        return false, tx.(status := TxFailed);
      }
      sender.crossEarnings := (sender.crossEarnings + half) % UINT64_RANGE;
      receiver.crossEarnings := (receiver.crossEarnings + (fee - half)) % UINT64_RANGE;
      settled := settled.(status := TxConfirmed);
      settled := settled.(crossRef := Some(CrossRef(sender.region, receiver.region, tx.number)));
      return true, settled;
    }
  }
}
