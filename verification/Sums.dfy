/**
Sums over finite maps and bags of amounts, whatever the order of summation.
*/
module Sums {

  ghost function SomeKey<K>(m: map<K, int>): (k: K)
    requires |m| > 0
    ensures k in m
  {
    var k :| k in m;
    k
  }

  ghost function Sum<K>(m: map<K, int>): int
    decreases |m|
  {
    if |m| == 0 then 0
    else
      var k := SomeKey(m);
      m[k] + Sum(m - {k})
  }

  lemma SumFirst<K>(m: map<K, int>)
    requires |m| > 0
    ensures Sum(m) == m[SomeKey(m)] + Sum(m - {SomeKey(m)})
  {
  }

  /** Any key may be summed first. */
  lemma {:induction false} SumRemove<K>(m: map<K, int>, k: K)
    requires k in m
    ensures Sum(m) == m[k] + Sum(m - {k})
    decreases |m|
  {
    hide Sum;
    var first := SomeKey(m);
    SumFirst(m);
    if first != k {
      SumRemove(m - {first}, k);
      SumRemove(m - {k}, first);
      assert m - {first} - {k} == m - {k} - {first};
    }
  }

  lemma SumUpdate<K>(m: map<K, int>, k: K, v: int)
    ensures Sum(m[k := v]) == Sum(m) - (if k in m then m[k] else 0) + v
  {
    hide Sum;
    SumRemove(m[k := v], k);
    if k in m {
      SumRemove(m, k);
      assert m[k := v] - {k} == m - {k};
    } else {
      assert m[k := v] - {k} == m;
    }
  }

  lemma {:induction false} SumNonNegative<K>(m: map<K, int>)
    requires forall k <- m :: m[k] >= 0
    ensures Sum(m) >= 0
    decreases |m|
  {
    if |m| > 0 {
      SumNonNegative(m - {SomeKey(m)});
    }
  }

  lemma PartOfSum<K>(m: map<K, int>, k: K)
    requires k in m && forall x <- m :: m[x] >= 0
    ensures m[k] <= Sum(m)
  {
    SumRemove(m, k);
    SumNonNegative(m - {k});
  }

  ghost function SomeOf<T>(bag: multiset<T>): (x: T)
    requires |bag| > 0
    ensures x in bag
  {
    var x :| x in bag;
    x
  }

  ghost function BagSum<T>(bag: multiset<T>, f: T -> int): int
    decreases |bag|
  {
    if |bag| == 0 then 0
    else
      var x := SomeOf(bag);
      f(x) + BagSum(bag - multiset{x}, f)
  }

  lemma BagFirst<T>(bag: multiset<T>, f: T -> int)
    requires |bag| > 0
    ensures BagSum(bag, f) == f(SomeOf(bag)) + BagSum(bag - multiset{SomeOf(bag)}, f)
  {
  }

  lemma {:induction false} BagRemove<T>(bag: multiset<T>, f: T -> int, x: T)
    requires x in bag
    ensures BagSum(bag, f) == f(x) + BagSum(bag - multiset{x}, f)
    decreases |bag|
  {
    hide BagSum;
    var first := SomeOf(bag);
    BagFirst(bag, f);
    if first != x {
      var without := bag - multiset{first};
      BagRemove(without, f, x);
      BagRemove(bag - multiset{x}, f, first);
      assert without - multiset{x} == bag - multiset{x} - multiset{first};
    }
  }
}
