/**
Splitting a loan into repayment fragments and spreading them over a window
(inkwell/inkwell.go). Amounts are 64-bit words; times are nanoseconds.
*/
module Inkwell {
  import opened Common

  const DAY: int := 24 * 3600 * 1_000_000_000

  // --- sums of amounts ---

  function Total(s: seq<int>): int {
    if |s| == 0 then 0 else Total(s[..|s| - 1]) + s[|s| - 1]
  }

  lemma TotalNext(s: seq<int>, i: nat)
    requires i < |s|
    ensures Total(s[..i + 1]) == Total(s[..i]) + s[i]
  {
    assert s[..i + 1][..i] == s[..i];
  }

  lemma {:induction false} TotalUpdate(s: seq<int>, i: nat, v: int)
    requires i < |s|
    ensures Total(s[i := v]) == Total(s) - s[i] + v
  {
    var front := s[..|s| - 1];
    if i == |s| - 1 {
      assert s[i := v][..|s| - 1] == front;
    } else {
      TotalUpdate(front, i, v);
      assert s[i := v][..|s| - 1] == front[i := v];
    }
  }

  lemma {:induction false} TotalAtMost(s: seq<int>, each: int)
    requires forall i :: 0 <= i < |s| ==> s[i] <= each
    ensures Total(s) <= |s| * each
  {
    if |s| > 0 {
      TotalAtMost(s[..|s| - 1], each);
      assert (|s| - 1) * each + each == |s| * each;
    }
  }

  lemma {:induction false} PrefixAtMost(s: seq<int>, i: nat)
    requires i <= |s| && forall k :: 0 <= k < |s| ==> s[k] >= 0
    ensures 0 <= Total(s[..i]) <= Total(s)
    decreases |s| - i, i
  {
    if i < |s| {
      PrefixAtMost(s, i + 1);
      TotalNext(s, i);
      NonNegative(s[..i]);
    } else {
      assert s[..i] == s;
      NonNegative(s);
    }
  }

  lemma {:induction false} NonNegative(s: seq<int>)
    requires forall k :: 0 <= k < |s| ==> s[k] >= 0
    ensures Total(s) >= 0
  {
    if |s| > 0 {
      NonNegative(s[..|s| - 1]);
    }
  }

  // --- the random source ---

  /** Draws are a fixed function of the seed and a counter. */
  class Rng {
    const stream: nat -> nat
    var counter: nat

    constructor (stream: nat -> nat)
      ensures this.stream == stream && counter == 0
    {
      this.stream := stream;
      counter := 0;
    }

    method Below(n: int) returns (r: nat)
      modifies this
      ensures n > 0 ==> counter == old(counter) + 1 && r == stream(counter) % n
      ensures n <= 0 ==> counter == old(counter) && r == 0
    {
      if n <= 0 {
        return 0;
      }
      counter := counter + 1;
      return stream(counter) % n;
    }
  }

  // --- splitting ---

  function Weights(stream: nat -> nat, counter: nat, count: nat): (w: seq<int>)
    ensures |w| == count && forall i :: 0 <= i < count ==> 1 <= w[i] <= 1000
  {
    seq(count, i requires 0 <= i < count => stream(counter + 1 + i) % 1000 + 1)
  }

  /** The product is a 64-bit one and may wrap. */
  function Share(total: nat, weight: nat, sum: nat): (r: nat)
    requires sum > 0
    ensures r * sum <= total * weight
  {
    ModShrinks(total * weight);
    total * weight % UINT64_RANGE / sum
  }

  lemma RoundedDown(a: nat, b: nat)
    requires b > 0
    ensures a / b * b <= a < (a / b + 1) * b
  {
    assert a == a / b * b + a % b;
  }

  /** Without wrap-around a share is the exact proportion, rounded down. */
  lemma ShareExactly(total: nat, weights: seq<int>, i: nat)
    requires Positive(weights) && i < |weights| && total * weights[i] < UINT64_RANGE
    ensures Total(weights) > 0
    ensures var share := Shares(total, weights)[i];
      share * Total(weights) <= total * weights[i] < (share + 1) * Total(weights)
  {
    hide Total;
    PositiveTotal(weights);
    var product, sum := total * weights[i], Total(weights);
    RoundedDown(product, sum);
    NotWrapped(product);
    assert Shares(total, weights)[i] == Share(total, weights[i], sum);
  }

  lemma NotWrapped(n: nat)
    requires n < UINT64_RANGE
    ensures n % UINT64_RANGE == n
  {
  }

  /** All but the last fragment get their shares. */
  lemma ProportionalShares(total: nat, weights: seq<int>, i: nat)
    requires Positive(weights) && i + 1 < |weights|
    ensures Proportional(total, weights)[i] == Shares(total, weights)[i]
  {
  }

  lemma ModShrinks(n: nat)
    ensures n % UINT64_RANGE <= n
  {
  }

  predicate Positive(s: seq<int>) {
    forall i :: 0 <= i < |s| ==> s[i] >= 1
  }

  lemma {:induction false} PositiveTotal(s: seq<int>)
    requires Positive(s)
    ensures Total(s) >= |s|
  {
    if |s| > 0 {
      PositiveTotal(s[..|s| - 1]);
    }
  }

  function Shares(total: nat, weights: seq<int>): (r: seq<int>)
    requires Positive(weights) && |weights| > 0
    ensures |r| == |weights| && forall i :: 0 <= i < |r| ==> r[i] >= 0
  {
    PositiveTotal(weights);
    seq(|weights|, i requires 0 <= i < |weights| => Share(total, weights[i], Total(weights)))
  }

  lemma AddScaled(a: int, b: int, sum: int, total: int, x: int, y: int)
    requires a * sum <= total * x && b * sum <= total * y
    ensures (a + b) * sum <= total * (x + y)
  {
  }

  lemma {:induction false} SharesScaled(total: nat, weights: seq<int>, i: nat)
    requires Positive(weights) && |weights| > 0 && i <= |weights|
    ensures Total(Shares(total, weights)[..i]) * Total(weights) <= total * Total(weights[..i])
  {
    var shares, sum := Shares(total, weights), Total(weights);
    PositiveTotal(weights);
    if i > 0 {
      SharesScaled(total, weights, i - 1);
      TotalNext(shares, i - 1);
      TotalNext(weights, i - 1);
      ShareScaled(total, weights, i - 1);
      AddScaled(Total(shares[..i - 1]), shares[i - 1], sum, total, Total(weights[..i - 1]), weights[i - 1]);
    }
  }

  lemma ShareScaled(total: nat, weights: seq<int>, i: nat)
    requires Positive(weights) && i < |weights|
    ensures Shares(total, weights)[i] * Total(weights) <= total * weights[i]
  {
    PositiveTotal(weights);
    assert Shares(total, weights)[i] == Share(total, weights[i], Total(weights));
  }

  lemma ProductGrows(a: int, b: int, c: int)
    requires c > 0 && a > b
    ensures a * c > b * c
  {
    assert a * c - b * c == (a - b) * c;
  }

  lemma ScaledFits(a: int, total: nat, part: int, sum: int)
    requires 0 <= part <= sum && sum > 0 && a * sum <= total * part
    ensures a <= total
  {
    assert total * sum - total * part == total * (sum - part) >= 0;
    if a > total {
      ProductGrows(a, total, sum);
    }
  }

  /** Rounding down, even with wrapped products, never hands out more than the total. */
  lemma SharesFit(total: nat, weights: seq<int>, i: nat)
    requires Positive(weights) && |weights| > 0 && i <= |weights|
    ensures 0 <= Total(Shares(total, weights)[..i]) <= total
  {
    hide Shares, Total;
    var shares, sum := Shares(total, weights), Total(weights);
    PositiveTotal(weights);
    SharesScaled(total, weights, i);
    PrefixAtMost(weights, i);
    ScaledFits(Total(shares[..i]), total, Total(weights[..i]), sum);
    NonNegative(shares[..i]);
  }

  /** The shares, with what rounding lost added to the last one. */
  function Proportional(total: nat, weights: seq<int>): (r: seq<int>)
    requires Positive(weights) && |weights| > 0
    ensures |r| == |weights| && forall i :: 0 <= i < |r| ==> r[i] >= 0
  {
    SharesFit(total, weights, |weights|);
    var shares := Shares(total, weights);
    assert shares[..|weights|] == shares;
    shares[|weights| - 1 := shares[|weights| - 1] + (total - Total(shares))]
  }

  lemma ProportionalTotal(total: nat, weights: seq<int>)
    requires Positive(weights) && |weights| > 0
    ensures Total(Proportional(total, weights)) == total
  {
    var shares := Shares(total, weights);
    TotalUpdate(shares, |weights| - 1, shares[|weights| - 1] + (total - Total(shares)));
  }

  /** A total above the number of fragments leaves some fragment with at least two units. */
  lemma SomeAtLeastTwo(s: seq<int>, most: nat)
    requires most < |s| && Total(s) > |s| && forall i :: 0 <= i < |s| ==> s[i] <= s[most]
    ensures s[most] >= 2
  {
    if s[most] < 2 {
      TotalAtMost(s, 1);
    }
  }

  /** Looking from index j on for something larger than what stands at `most`. */
  function LargestFrom(s: seq<int>, j: nat, most: nat): (r: nat)
    requires j <= |s| && most < |s|
    ensures r < |s| && s[r] >= s[most] && forall i :: j <= i < |s| ==> s[i] <= s[r]
    decreases |s| - j
  {
    if j == |s| then most else LargestFrom(s, j + 1, if s[j] > s[most] then j else most)
  }

  /** The last fragment if it is the largest, and otherwise the first of the largest ones. */
  lemma {:induction false} LargestTies(s: seq<int>, j: nat, most: nat)
    requires j <= |s| && most < |s|
    ensures var r := LargestFrom(s, j, most);
      r == most || (j <= r && s[r] > s[most] && forall i :: j <= i < r ==> s[i] < s[r])
    decreases |s| - j
  {
    if j < |s| {
      LargestTies(s, j + 1, if s[j] > s[most] then j else most);
    }
  }

  method IndexOfLargest(a: array<int>) returns (most: nat)
    requires a.Length > 0
    ensures most < a.Length && forall i :: 0 <= i < a.Length ==> a[i] <= a[most]
    ensures most == LargestFrom(a[..], 0, a.Length - 1)
    ensures most == a.Length - 1 || (a[most] > a[a.Length - 1] && forall i :: 0 <= i < most ==> a[i] < a[most])
  {
    LargestTies(a[..], 0, a.Length - 1);
    most := a.Length - 1;
    for j := 0 to a.Length
      invariant most < a.Length && LargestFrom(a[..], j, most) == LargestFrom(a[..], 0, a.Length - 1)
    {
      if a[j] > a[most] {
        most := j;
      }
    }
  }

  /** The i-th fragment, empty before, gets a unit from the largest. */
  function Borrowed(s: seq<int>, i: nat): (r: seq<int>)
    requires i < |s|
    ensures |r| == |s|
  {
    var s1 := s[i := 1];
    var most := LargestFrom(s1, 0, |s| - 1);
    if most != i && s1[most] > 1 then s1[most := s1[most] - 1] else s1
  }

  /** The split once every empty fragment from index i on had its turn. */
  function Filled(s: seq<int>, i: nat, total: int): (r: seq<int>)
    requires i <= |s|
    ensures |r| == |s|
    decreases |s| - i
  {
    if i == |s| then s else Filled(if s[i] == 0 && total > |s| then Borrowed(s, i) else s, i + 1, total)
  }

  lemma FilledStep(s: seq<int>, i: nat, total: int)
    requires i <= |s|
    ensures Filled(s, i, total) ==
      if i == |s| then s else Filled(if s[i] == 0 && total > |s| then Borrowed(s, i) else s, i + 1, total)
  {
  }

  /** What both parties compute from the agreed seed, from its draw number `counter` on. */
  function SplitOf(total: nat, count: int, stream: nat -> nat, counter: nat): seq<int> {
    if count <= 0 then []
    else if count == 1 then [total]
    else if total == 0 then seq(count, _ => 0)
    else Filled(Proportional(total, Weights(stream, counter, count)), 0, total)
  }

  /** An empty fragment gets one unit when there are enough; another one may lend some but keeps at least one. */
  predicate Adjusted(before: int, after: int, enough: bool) {
    if !enough then after == before else if before == 0 then after == 1 else 1 <= after <= before
  }

  /**
  Give a unit to every empty fragment, each time borrowed from the largest one. Nothing is
  lost, no fragment is emptied, and nothing changes unless there is enough to go round.
  */
  method FillEmpty(a: array<int>, total: int)
    requires a.Length > 0 && Total(a[..]) == total && forall i :: 0 <= i < a.Length ==> a[i] >= 0
    modifies a
    ensures Total(a[..]) == total
    ensures if total > a.Length then Positive(a[..]) else a[..] == old(a[..])
    ensures Positive(old(a[..])) ==> a[..] == old(a[..])
    ensures forall i :: 0 <= i < a.Length ==> Adjusted(old(a[i]), a[i], total > a.Length)
    ensures a[..] == Filled(old(a[..]), 0, total)
  {
    hide Total, Filled, Borrowed;
    ghost var before := a[..];
    for i := 0 to a.Length
      invariant Filled(a[..], i, total) == Filled(before, 0, total)
      invariant Total(a[..]) == total
      invariant total <= a.Length ==> a[..] == before
      invariant total > a.Length ==> forall k :: 0 <= k < i ==> a[k] >= 1
      invariant forall k :: 0 <= k < a.Length ==> a[k] >= 0
      invariant total > a.Length ==> forall k :: 0 <= k < i && before[k] == 0 ==> a[k] == 1
      invariant forall k :: i <= k < a.Length && before[k] == 0 ==> a[k] == 0
      invariant forall k :: 0 <= k < a.Length && before[k] > 0 ==> 0 < a[k] <= before[k]
      invariant Positive(before) ==> a[..] == before
    {
      FilledStep(a[..], i, total);
      if a[i] == 0 && total > a.Length {
        BorrowFor(a, i, total);
      }
    }
    FilledStep(a[..], a.Length, total);
  }

  /** The largest fragment always has a unit to spare, and it is not the empty one. */
  method BorrowFor(a: array<int>, i: nat, ghost total: int)
    requires i < a.Length && a[i] == 0 && Total(a[..]) == total > a.Length
    modifies a
    ensures Total(a[..]) == total && a[i] == 1 && a[..] == Borrowed(old(a[..]), i)
    ensures forall k :: 0 <= k < a.Length && k != i ==> a[k] == old(a[k]) || (old(a[k]) >= 2 && a[k] == old(a[k]) - 1)
  {
    hide Total;
    ghost var s := a[..];
    TotalUpdate(s, i, 1);
    a[i] := 1;
    assert a[..] == s[i := 1];
    var most := IndexOfLargest(a);
    ghost var s1 := a[..];
    SomeAtLeastTwo(s1, most);
    TotalUpdate(s1, most, s1[most] - 1);
    if most != i && a[most] > 1 {
      a[most] := a[most] - 1;
    }
    assert a[..] == s1[most := s1[most] - 1];
  }

  /** The fragments always add up to the total; with more units than fragments none is empty. */
  method SplitAmount(total: nat, count: int, rng: Rng) returns (r: seq<int>)
    requires total < UINT64_RANGE && count * 1000 < UINT64_RANGE
    modifies rng
    ensures |r| == (if count <= 0 then 0 else count) && forall i :: 0 <= i < |r| ==> r[i] >= 0
    ensures count > 0 ==> Total(r) == total
    ensures total > count > 0 ==> Positive(r)
    ensures r == SplitOf(total, count, rng.stream, old(rng.counter))
    ensures total > 0 && count > 1 ==>
      var even := Proportional(total, Weights(rng.stream, old(rng.counter), count));
      && ((total <= count || Positive(even)) ==> r == even)
      && forall i :: 0 <= i < count ==> Adjusted(even[i], r[i], total > count)
  {
    if count <= 0 {
      return [];
    }
    if count == 1 {
      assert Total([total]) == Total([]) + total;
      return [total];
    }
    if total == 0 {
      r := seq(count, _ => 0);
      TotalAtMost(r, 0);
      NonNegative(r);
      return;
    }
    ghost var drawn := Weights(rng.stream, rng.counter, count);
    var weights, sum := DrawWeights(rng, count);
    var fragments := Allocate(total, weights, sum);
    assert weights[..] == drawn;
    ProportionalTotal(total, drawn);
    FillEmpty(fragments, total);
    return fragments[..];
  }

  lemma WeightsBound(drawn: seq<int>, i: nat)
    requires i <= |drawn| && |drawn| * 1000 < UINT64_RANGE && forall k :: 0 <= k < |drawn| ==> 1 <= drawn[k] <= 1000
    ensures 0 <= Total(drawn[..i]) < UINT64_RANGE && Total(drawn[..0]) == 0
  {
    TotalAtMost(drawn[..i], 1000);
    NonNegative(drawn[..i]);
  }

  method DrawWeights(rng: Rng, count: nat) returns (weights: array<int>, sum: nat)
    requires count > 0 && count * 1000 < UINT64_RANGE
    modifies rng
    ensures fresh(weights) && weights[..] == Weights(rng.stream, old(rng.counter), count) && sum == Total(weights[..])
    ensures rng.counter == old(rng.counter) + count
    ensures forall i :: 0 <= i < count ==> weights[i] == rng.stream(old(rng.counter) + i + 1) % 1000 + 1
  {
    hide Total;
    ghost var drawn := Weights(rng.stream, rng.counter, count);
    WeightsBound(drawn, 0);
    weights := new int[count](_ => 0);
    sum := 0;
    for i := 0 to count
      invariant rng.counter == old(rng.counter) + i
      invariant weights[..i] == drawn[..i] && sum == Total(drawn[..i])
    {
      var w := rng.Below(1000);
      weights[i] := w + 1;
      TotalNext(drawn, i);
      WeightsBound(drawn, i + 1);
      sum := (sum + weights[i]) % UINT64_RANGE;
      assert weights[..i + 1] == weights[..i] + [weights[i]];
    }
    assert weights[..] == weights[..count] && drawn[..count] == drawn;
  }

  method Allocate(total: nat, weights: array<int>, sum: nat) returns (fragments: array<int>)
    requires 0 < total < UINT64_RANGE && weights.Length > 0 && Positive(weights[..]) && sum == Total(weights[..])
    ensures fresh(fragments) && fragments[..] == Proportional(total, weights[..])
  {
    hide Total;
    ghost var shares := Shares(total, weights[..]);
    assert Total(shares[..0]) == 0 by {
      TotalAtMost(shares[..0], 0);
      SharesFit(total, weights[..], 0);
    }
    PositiveTotal(weights[..]);
    var count := weights.Length;
    fragments := new int[count](_ => 0);
    var given := 0;
    for i := 0 to count
      invariant fragments[..i] == shares[..i] && given == Total(shares[..i])
    {
      fragments[i] := total * weights[i] % UINT64_RANGE / sum;
      assert weights[..][i] == weights[i];
      assert fragments[i] == shares[i];
      TotalNext(shares, i);
      SharesFit(total, weights[..], i + 1);
      given := (given + fragments[i]) % UINT64_RANGE;
      assert fragments[..i + 1] == fragments[..i] + [fragments[i]];
    }
    assert fragments[..] == fragments[..count] == shares == shares[..count];
    SharesFit(total, weights[..], count);
    if total > given {
      fragments[count - 1] := fragments[count - 1] + (total - given);
    }
    assert fragments[..] == Proportional(total, weights[..]);
  }

  /**
  The exact condition for a split without empty fragments: more units than fragments, or
  equally many and every share but the last is exactly one unit. With fewer, some are empty.
  */
  lemma NoEmptyExactly(total: nat, count: nat, weights: seq<int>, r: seq<int>)
    requires count > 1 && |weights| == count == |r| && Positive(weights)
    requires forall i :: 0 <= i < |r| ==> r[i] >= 0
    requires Total(r) == total && (total > count ==> Positive(r))
    requires 0 < total <= count ==> r == Proportional(total, weights)
    ensures Positive(r) <==>
      total > count || (total == count && forall i :: 0 <= i < count - 1 ==> Shares(total, weights)[i] == 1)
  {
    if Positive(r) && total <= count {
      PositiveTotal(r);
      AllOnes(r);
    }
    if total == count && forall i :: 0 <= i < count - 1 ==> Shares(total, weights)[i] == 1 {
      var front := r[..count - 1];
      TotalAtMost(front, 1);
      assert r == Proportional(total, weights);
      assert forall i :: 0 <= i < count - 1 ==> r[i] == Shares(total, weights)[i];
      assert r[count - 1] == total - Total(front) >= 1;
    }
  }

  /** Two units over three fragments of equal weight leave two of them empty. */
  lemma EmptyFragmentsHappen()
    ensures Proportional(2, [1, 1, 1]) == [0, 0, 2]
  {
    var weights: seq<int> := [1, 1, 1];
    assert weights[..2] == [1, 1] && weights[..2][..1] == [1] && [1][..0] == [];
    assert Total([1]) == 1 && Total([1, 1]) == 2 && Total(weights) == 3;
    var shares := Shares(2, weights);
    assert shares == [0, 0, 0];
    TotalAtMost(shares, 0);
    NonNegative(shares);
  }

  lemma {:induction false} AllOnes(s: seq<int>)
    requires Positive(s) && Total(s) <= |s|
    ensures forall i :: 0 <= i < |s| ==> s[i] == 1
  {
    if |s| > 0 {
      PositiveTotal(s[..|s| - 1]);
      AllOnes(s[..|s| - 1]);
    }
  }

  // --- the repayment plan ---

  /** `stream` stands for the draws of the agreed seed. */
  datatype Params = Params(totalAmount: nat, stream: nat -> nat, windowStart: int, windowEnd: int, fragments: seq<int>)

  datatype FragmentPlan = FragmentPlan(index: nat, amount: int, dueAfter: int)

  /** Integer division as in Go, truncating towards zero. */
  function Quotient(a: int, b: int): int
    requires b > 0
  {
    if a >= 0 then a / b else -(-a / b)
  }

  function Interval(p: Params): int
    requires |p.fragments| > 0
  {
    Quotient(p.windowEnd - p.windowStart, |p.fragments|)
  }

  function Jitter(p: Params, i: nat): (j: nat)
    requires |p.fragments| > 0
    ensures j < Quotient(Interval(p), 2) || (j == 0 && Interval(p) < 2)
  {
    var bound := Quotient(Interval(p), 2);
    if bound <= 0 then 0 else p.stream(i + 1) % bound
  }

  function PlanOf(p: Params): (plan: seq<FragmentPlan>)
    requires |p.fragments| > 0
    ensures |plan| == |p.fragments|
    ensures forall i :: 0 <= i < |plan| ==> plan[i].index == i && plan[i].amount == p.fragments[i]
  {
    seq(|p.fragments|, i requires 0 <= i < |p.fragments| =>
      FragmentPlan(i, p.fragments[i], p.windowStart + Interval(p) * i + Jitter(p, i)))
  }

  method GeneratePlan(p: Params) returns (plan: seq<FragmentPlan>)
    requires |p.fragments| > 0
    ensures plan == PlanOf(p)
    ensures var n := |p.fragments|;
      var interval := Quotient(p.windowEnd - p.windowStart, n);
      forall i :: 0 <= i < n ==> plan[i] == FragmentPlan(i, p.fragments[i], p.windowStart + interval * i +
        if interval < 2 then 0 else p.stream(i + 1) % (interval / 2))
  {
    var rng := new Rng(p.stream);
    var interval := Quotient(p.windowEnd - p.windowStart, |p.fragments|);
    plan := [];
    for i := 0 to |p.fragments|
      invariant plan == PlanOf(p)[..i]
      invariant rng.stream == p.stream && (Quotient(interval, 2) > 0 ==> rng.counter == i)
    {
      var jitter := rng.Below(Quotient(interval, 2));
      plan := plan + [FragmentPlan(i, p.fragments[i], p.windowStart + interval * i + jitter)];
    }
  }

  lemma DueStep(p: Params, i: nat)
    requires |p.fragments| > 0 && i + 1 < |p.fragments|
    ensures Interval(p) > 0 ==> PlanOf(p)[i].dueAfter < PlanOf(p)[i + 1].dueAfter
    ensures Interval(p) <= 0 ==> PlanOf(p)[i].dueAfter >= PlanOf(p)[i + 1].dueAfter
  {
    assert Interval(p) * (i + 1) == Interval(p) * i + Interval(p);
  }

  predicate Increasing(plan: seq<FragmentPlan>) {
    forall i, j :: 0 <= i < j < |plan| ==> plan[i].dueAfter < plan[j].dueAfter
  }

  lemma {:induction false} DueApart(p: Params, i: nat, j: nat)
    requires |p.fragments| > 0 && i < j < |p.fragments| && Interval(p) > 0
    ensures PlanOf(p)[i].dueAfter < PlanOf(p)[j].dueAfter
    decreases j
  {
    DueStep(p, j - 1);
    if i < j - 1 {
      DueApart(p, i, j - 1);
    }
  }

  /** Whatever the jitter, fragments fall due in order exactly when the window has a nanosecond for each. */
  lemma DueInOrderExactly(p: Params)
    requires |p.fragments| > 0
    ensures Increasing(PlanOf(p)) <==> |p.fragments| == 1 || p.windowEnd - p.windowStart >= |p.fragments|
  {
    var window, n := p.windowEnd - p.windowStart, |p.fragments|;
    assert Interval(p) > 0 <==> window >= n by {
      QuotientPositive(window, n);
    }
    if Interval(p) > 0 {
      forall i, j | 0 <= i < j < n ensures PlanOf(p)[i].dueAfter < PlanOf(p)[j].dueAfter {
        DueApart(p, i, j);
      }
    } else if n > 1 {
      DueStep(p, 0);
    }
  }

  lemma QuotientPositive(a: int, b: int)
    requires b > 0
    ensures Quotient(a, b) > 0 <==> a >= b
    ensures a >= 0 ==> 0 <= Quotient(a, b) * b <= a
  {
    if a >= b {
      assert a / b >= b / b == 1 by {
        assert a == a / b * b + a % b;
      }
    } else if a >= 0 {
      assert a / b == 0;
    } else {
      assert -a / b >= 0;
    }
    if a >= 0 {
      assert a == a / b * b + a % b;
    }
  }

  /** Every due time lies inside the window. */
  lemma DueInWindow(p: Params, i: nat)
    requires i < |p.fragments| && p.windowEnd - p.windowStart >= |p.fragments|
    ensures p.windowStart <= PlanOf(p)[i].dueAfter < p.windowEnd
  {
    hide Quotient;
    var window, n, interval := p.windowEnd - p.windowStart, |p.fragments|, Interval(p);
    QuotientPositive(window, n);
    QuotientPositive(interval, 2);
    SlotFits(window, n, interval, i, Jitter(p, i));
  }

  lemma SlotFits(window: int, n: nat, interval: int, i: nat, jitter: int)
    requires i < n && 0 < interval && interval * n <= window && 0 <= jitter < interval
    ensures 0 <= interval * i + jitter < window
  {
    var k := n - i - 1;
    ProductNonNegative(interval, i);
    ProductNonNegative(interval, k);
    assert interval * n == interval * (i + 1 + k) == interval * i + interval + interval * k;
  }

  lemma ProductNonNegative(a: nat, b: nat)
    ensures a * b >= 0
  {
  }

  /** What both parties compute from the agreed seed; relays are not modelled. */
  method GenerateParams(totalAmount: nat, stream: nat -> nat, now: int) returns (p: Params)
    requires totalAmount < UINT64_RANGE
    ensures p.totalAmount == totalAmount && p.stream == stream
    ensures p.windowStart == now + DAY && DAY <= p.windowEnd - p.windowStart <= 90 * DAY
    ensures p.windowEnd - p.windowStart == (1 + stream(1) % 90) * DAY && |p.fragments| == 3 + stream(2) % 5
    ensures 3 <= |p.fragments| <= 7 && Total(p.fragments) == totalAmount
    ensures forall i :: 0 <= i < |p.fragments| ==> p.fragments[i] >= 0
    ensures totalAmount > 7 ==> Positive(p.fragments)
    ensures p.fragments == SplitOf(totalAmount, 3 + stream(2) % 5, stream, 2)
    ensures Increasing(PlanOf(p))
    ensures forall i :: 0 <= i < |p.fragments| ==> now + DAY <= PlanOf(p)[i].dueAfter < p.windowEnd
  {
    hide PlanOf, Total, Weights, Proportional;
    var rng := new Rng(stream);
    var days := rng.Below(90);
    var windowStart := now + DAY;
    var windowEnd := windowStart + (1 + days) * DAY;
    var extra := rng.Below(5);
    var fragments := SplitAmount(totalAmount, 3 + extra, rng);
    p := Params(totalAmount, stream, windowStart, windowEnd, fragments);
    DueInOrderExactly(p);
    forall i | 0 <= i < |p.fragments| ensures now + DAY <= PlanOf(p)[i].dueAfter < p.windowEnd {
      DueInWindow(p, i);
    }
  }
}
