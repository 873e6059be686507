/**
What several components share: optional values, results, lists without repetition and 64-bit words.
*/
module Common {

  datatype Option<+T> = None | Some(value: T)

  datatype Result<+T, +E> = Success(value: T) | Failure(error: E)

  ghost predicate Distinct<T>(s: seq<T>) {
    forall i, j :: 0 <= i < j < |s| ==> s[i] != s[j]
  }

  lemma DistinctConcat<T>(a: seq<T>, b: seq<T>)
    requires Distinct(a) && Distinct(b) && forall x :: x in a ==> x !in b
    ensures Distinct(a + b)
  {
    forall i, j | 0 <= i < j < |a + b| ensures (a + b)[i] != (a + b)[j] {
      assert i < |a| ==> (a + b)[i] in a;
      assert j >= |a| ==> (a + b)[j] in b;
    }
  }

  const UINT64_RANGE: int := 0x1_0000_0000_0000_0000

  lemma ModDifference(a: int, b: int, k: int)
    requires a == b + k * UINT64_RANGE
    ensures a % UINT64_RANGE == b % UINT64_RANGE
  {
    assert a == (b / UINT64_RANGE + k) * UINT64_RANGE + b % UINT64_RANGE;
  }

  /** Reducing a summand first makes no difference. */
  lemma WrapAdd(a: int, b: int)
    ensures (a % UINT64_RANGE + b) % UINT64_RANGE == (a + b) % UINT64_RANGE
  {
    ModDifference(a % UINT64_RANGE + b, a + b, -(a / UINT64_RANGE));
  }
}
