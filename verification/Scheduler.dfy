/**
Which fragment of a loan is to be paid next, and how much remains (inkwell/scheduler.go).
*/
module Scheduler {
  import opened Common
  import opened Inkwell

  type LoanId = nat

  /** A fragment already due, the next one coming up, or nothing left to pay. */
  datatype NextDue = Overdue(fragment: FragmentPlan) | Upcoming(fragment: FragmentPlan) | AllPaid

  /** The first fragment not in `paid`, counting from i; the number of fragments if there is none. */
  ghost function FirstUnpaid(n: nat, paid: set<int>, i: nat): (k: nat)
    requires i <= n
    ensures i <= k <= n && (forall j :: i <= j < k ==> j in paid) && (k < n ==> k !in paid)
    decreases n - i
  {
    if i == n || i !in paid then i else FirstUnpaid(n, paid, i + 1)
  }

  ghost predicate NeverEarlier(plan: seq<FragmentPlan>) {
    forall i, j :: 0 <= i <= j < |plan| ==> plan[i].dueAfter <= plan[j].dueAfter
  }

  /** In any window that does not end before it starts, due times never run backwards. */
  lemma DueNeverEarlier(p: Params)
    requires |p.fragments| > 0 && p.windowEnd >= p.windowStart
    ensures NeverEarlier(PlanOf(p))
  {
    forall i, j | 0 <= i <= j < |p.fragments| ensures PlanOf(p)[i].dueAfter <= PlanOf(p)[j].dueAfter {
      if i < j && Interval(p) > 0 {
        DueApart(p, i, j);
      } else if i < j {
        QuotientPositive(p.windowEnd - p.windowStart, |p.fragments|);
        assert Interval(p) == 0;
      }
    }
  }

  /** The fragments not recorded as paid, added up. */
  ghost function Unpaid(fragments: seq<int>, paid: set<int>): int {
    if |fragments| == 0 then 0
    else Unpaid(fragments[..|fragments| - 1], paid) + if |fragments| - 1 in paid then 0 else fragments[|fragments| - 1]
  }

  ghost function Paid(fragments: seq<int>, paid: set<int>): int {
    if |fragments| == 0 then 0
    else Paid(fragments[..|fragments| - 1], paid) + if |fragments| - 1 in paid then fragments[|fragments| - 1] else 0
  }

  /** Paid and unpaid fragments make up the whole amount, however often each payment was recorded. */
  lemma {:induction false} PaidAndUnpaid(fragments: seq<int>, paid: set<int>)
    ensures Paid(fragments, paid) + Unpaid(fragments, paid) == Total(fragments)
  {
    if |fragments| > 0 {
      PaidAndUnpaid(fragments[..|fragments| - 1], paid);
    }
  }

  /**
  Recording one more index lowers what remains by that fragment if it is new and exists, and otherwise by
  nothing.
  */
  lemma {:induction false} UnpaidAfter(fragments: seq<int>, paid: set<int>, index: int)
    ensures Unpaid(fragments, paid + {index}) ==
      Unpaid(fragments, paid) - if 0 <= index < |fragments| && index !in paid then fragments[index] else 0
  {
    if |fragments| > 0 {
      UnpaidAfter(fragments[..|fragments| - 1], paid, index);
    }
  }

  lemma {:induction false} UnpaidBounds(fragments: seq<int>, paid: set<int>)
    requires forall i :: 0 <= i < |fragments| ==> fragments[i] >= 0
    ensures 0 <= Unpaid(fragments, paid) <= Total(fragments)
  {
    if |fragments| > 0 {
      UnpaidBounds(fragments[..|fragments| - 1], paid);
    }
  }

  /** When no fragment is empty, nothing remains exactly if every index was recorded. */
  lemma {:induction false} SettledExactly(fragments: seq<int>, paid: set<int>)
    requires Positive(fragments)
    ensures Unpaid(fragments, paid) == 0 <==> forall i :: 0 <= i < |fragments| ==> i in paid
  {
    if |fragments| > 0 {
      var front := fragments[..|fragments| - 1];
      SettledExactly(front, paid);
      UnpaidBounds(front, paid);
      assert (forall i :: 0 <= i < |fragments| ==> i in paid)
        <==> (forall i :: 0 <= i < |front| ==> i in paid) && |front| in paid;
    }
  }

  class Scheduler {
    var payments: map<LoanId, seq<int>>

    constructor ()
      ensures payments == map[]
    {
      payments := map[];
    }

    ghost function PaidSet(loan: LoanId): set<int>
      reads this
    {
      if loan in payments then set i <- payments[loan] else {}
    }

    method RecordPayment(loan: LoanId, index: int)
      modifies this
      ensures PaidSet(loan) == old(PaidSet(loan)) + {index}
      ensures forall l :: l != loan ==> PaidSet(l) == old(PaidSet(l))
      ensures loan in payments
           && payments[loan] == (if loan in old(payments) then old(payments)[loan] else []) + [index]
    {
      payments := payments[loan := (if loan in payments then payments[loan] else []) + [index]];
    }

    method BuildPaidSet(loan: LoanId) returns (paid: set<int>)
      ensures paid == PaidSet(loan)
    {
      paid := {};
      if loan in payments {
        for i := 0 to |payments[loan]|
          invariant paid == set k <- payments[loan][..i]
        {
          paid := paid + {payments[loan][i]};
        }
        assert payments[loan][..|payments[loan]|] == payments[loan];
      }
    }

    /**
    Whatever the clock reads, the answer is the unpaid fragment with the lowest index, as long
    as the window does not end before it starts.
    */
    method GetNextDue(loan: LoanId, p: Params, now: int) returns (r: NextDue)
      requires |p.fragments| > 0
      ensures r.AllPaid? <==> forall i :: 0 <= i < |p.fragments| ==> i in PaidSet(loan)
      ensures !r.AllPaid? ==> InPlan(PlanOf(p), PaidSet(loan), r.fragment)
      ensures !r.AllPaid? && p.windowEnd >= p.windowStart ==>
        var first := FirstUnpaid(|p.fragments|, PaidSet(loan), 0);
        first < |p.fragments| && r.fragment == PlanOf(p)[first] && (r.Overdue? <==> now > PlanOf(p)[first].dueAfter)
    {
      var plan := GeneratePlan(p);
      var paid := BuildPaidSet(loan);
      ghost var forward := p.windowEnd >= p.windowStart;
      ghost var first := FirstUnpaid(|plan|, paid, 0);
      if forward {
        DueNeverEarlier(p);
      }
      hide PlanOf;
      var overdue: seq<FragmentPlan> := [];
      for i := 0 to |plan|
        invariant forall k :: 0 <= k < |overdue| ==> InPlan(plan, paid, overdue[k]) && now > overdue[k].dueAfter
        invariant i <= first ==> overdue == []
        invariant first < i && now > plan[first].dueAfter ==> |overdue| > 0 && overdue[0] == plan[first]
        invariant forward && first < i && now <= plan[first].dueAfter ==> overdue == []
      {
        if plan[i].index !in paid && now > plan[i].dueAfter {
          overdue := overdue + [plan[i]];
        }
      }
      if |overdue| > 0 {
        var earliest := overdue[0];
        for k := 1 to |overdue|
          invariant InPlan(plan, paid, earliest)
          invariant forward ==> earliest == overdue[0]
        {
          if overdue[k].dueAfter < earliest.dueAfter {
            earliest := overdue[k];
          }
        }
        return Overdue(earliest);
      }
      var next: Option<FragmentPlan> := None;
      for i := 0 to |plan|
        invariant if first < i then next.Some? && InPlan(plan, paid, next.value) else next.None?
        invariant forward && first < i ==> next == Some(plan[first])
      {
        if plan[i].index !in paid {
          if next.None? || plan[i].dueAfter < next.value.dueAfter {
            next := Some(plan[i]);
          }
        }
      }
      if next.None? {
        return AllPaid;
      }
      return Upcoming(next.value);
    }

    /** Exact whenever the fragments add up to a 64-bit amount. */
    method RemainingAmount(loan: LoanId, p: Params) returns (remaining: int)
      ensures remaining == Unpaid(p.fragments, PaidSet(loan)) % UINT64_RANGE
      ensures Total(p.fragments) < UINT64_RANGE && (forall i :: 0 <= i < |p.fragments| ==> p.fragments[i] >= 0) ==>
        remaining + Paid(p.fragments, PaidSet(loan)) == Total(p.fragments)
    {
      var paid := BuildPaidSet(loan);
      remaining := 0;
      for i := 0 to |p.fragments|
        invariant remaining == Unpaid(p.fragments[..i], paid) % UINT64_RANGE
      {
        assert p.fragments[..i + 1][..i] == p.fragments[..i];
        if i !in paid {
          WrapAdd(Unpaid(p.fragments[..i], paid), p.fragments[i]);
          remaining := (remaining + p.fragments[i]) % UINT64_RANGE;
        }
      }
      assert p.fragments[..|p.fragments|] == p.fragments;
      PaidAndUnpaid(p.fragments, paid);
      if forall i :: 0 <= i < |p.fragments| ==> p.fragments[i] >= 0 {
        UnpaidBounds(p.fragments, paid);
      }
    }
  }

  ghost predicate InPlan(plan: seq<FragmentPlan>, paid: set<int>, f: FragmentPlan) {
    exists i :: 0 <= i < |plan| && i !in paid && f == plan[i]
  }
}
