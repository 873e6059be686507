/**
Byte strings and the lexicographic order of Go's bytes.Compare.
*/
module ByteOrder {

  type Byte = n: int | 0 <= n < 256
  type Bytes = seq<Byte>

  /** a comes at or before b. */
  predicate Le(a: Bytes, b: Bytes) {
    |a| == 0 || (|b| > 0 && (a[0] < b[0] || (a[0] == b[0] && Le(a[1..], b[1..]))))
  }

  lemma {:induction false} LeReflexive(a: Bytes)
    ensures Le(a, a)
  {
    if |a| > 0 {
      LeReflexive(a[1..]);
    }
  }

  lemma {:induction false} LeTotal(a: Bytes, b: Bytes)
    ensures Le(a, b) || Le(b, a)
  {
    if |a| > 0 && |b| > 0 {
      LeTotal(a[1..], b[1..]);
    }
  }

  lemma {:induction false} LeAntisymmetric(a: Bytes, b: Bytes)
    requires Le(a, b) && Le(b, a)
    ensures a == b
  {
    if |a| > 0 && |b| > 0 {
      LeAntisymmetric(a[1..], b[1..]);
      assert a == [a[0]] + a[1..] && b == [b[0]] + b[1..];
    }
  }

  lemma {:induction false} LeTransitive(a: Bytes, b: Bytes, c: Bytes)
    requires Le(a, b) && Le(b, c)
    ensures Le(a, c)
  {
    if |a| > 0 && a[0] == b[0] && b[0] == c[0] {
      LeTransitive(a[1..], b[1..], c[1..]);
    }
  }

  ghost predicate Sorted(s: seq<Bytes>) {
    forall i, j :: 0 <= i < j < |s| ==> Le(s[i], s[j])
  }

  /** Where x belongs in a sorted list: everything before it is smaller, nothing from it on is. */
  ghost predicate SplitsAt(s: seq<Bytes>, x: Bytes, idx: nat) {
    && idx <= |s|
    && (forall i :: 0 <= i < idx ==> !Le(x, s[i]))
    && (forall i :: idx <= i < |s| ==> Le(x, s[i]))
  }

  /** Go's sort.Search for the first element not below x. */
  method Search(s: seq<Bytes>, x: Bytes) returns (idx: nat)
    requires Sorted(s)
    ensures SplitsAt(s, x, idx)
  {
    var i, j := 0, |s|;
    while i < j
      invariant 0 <= i <= j <= |s|
      invariant forall k :: 0 <= k < i ==> !Le(x, s[k])
      invariant forall k :: j <= k < |s| ==> Le(x, s[k])
    {
      var h := (i + j) / 2;
      if !Le(x, s[h]) {
        forall k | 0 <= k <= h ensures !Le(x, s[k]) {
          if k < h && Le(x, s[k]) {
            LeTransitive(x, s[k], s[h]);
          }
        }
        i := h + 1;
      } else {
        forall k | h <= k < |s| ensures Le(x, s[k]) {
          if h < k {
            LeTransitive(x, s[h], s[k]);
          }
        }
        j := h;
      }
    }
    idx := i;
  }

  /** The element sits at the split point if it is in the list at all. */
  lemma FoundAtSplit(s: seq<Bytes>, x: Bytes, idx: nat)
    requires Sorted(s) && SplitsAt(s, x, idx)
    ensures x in s <==> idx < |s| && s[idx] == x
  {
    LeReflexive(x);
    if x in s {
      var k :| 0 <= k < |s| && s[k] == x;
      if idx < k {
        LeAntisymmetric(x, s[idx]);
      }
    }
  }

  function InsertAt<T>(s: seq<T>, idx: nat, x: T): seq<T>
    requires idx <= |s|
  {
    s[..idx] + [x] + s[idx..]
  }

  lemma InsertSorted(s: seq<Bytes>, idx: nat, x: Bytes)
    requires Sorted(s) && SplitsAt(s, x, idx)
    ensures Sorted(InsertAt(s, idx, x))
  {
    var t := InsertAt(s, idx, x);
    forall i, j | 0 <= i < j < |t| ensures Le(t[i], t[j]) {
      if i < idx == j {
        LeTotal(x, s[i]);
      }
    }
  }

  lemma InsertMultiset<T>(s: seq<T>, idx: nat, x: T)
    requires idx <= |s|
    ensures multiset(InsertAt(s, idx, x)) == multiset(s) + multiset{x}
  {
    assert s == s[..idx] + s[idx..];
  }

  lemma FirstIsLeast(s: seq<Bytes>, x: Bytes)
    requires Sorted(s) && |s| > 0 && x in multiset(s)
    ensures Le(s[0], x)
  {
    var i :| 0 <= i < |s| && s[i] == x;
    LeReflexive(x);
  }

  lemma TailMultiset<T>(s: seq<T>)
    requires |s| > 0
    ensures multiset(s[1..]) == multiset(s) - multiset{s[0]}
  {
    assert s == [s[0]] + s[1..];
  }

  lemma SameFirst(a: seq<Bytes>, b: seq<Bytes>)
    requires Sorted(a) && Sorted(b) && multiset(a) == multiset(b) && |a| > 0
    ensures |b| > 0 && a[0] == b[0]
  {
    assert a[0] in multiset(b);
    assert b[0] in multiset(a);
    FirstIsLeast(a, b[0]);
    FirstIsLeast(b, a[0]);
    LeAntisymmetric(a[0], b[0]);
  }

  /** A sorted list is determined by its elements. */
  lemma {:induction false} SortedUnique(a: seq<Bytes>, b: seq<Bytes>)
    requires Sorted(a) && Sorted(b) && multiset(a) == multiset(b)
    ensures a == b
  {
    if |a| == 0 {
      assert |b| == |multiset(b)|;
    } else {
      SameFirst(a, b);
      TailMultiset(a);
      TailMultiset(b);
      SortedUnique(a[1..], b[1..]);
      assert a == [a[0]] + a[1..] && b == [b[0]] + b[1..];
    }
  }

  /** Go's sort.Slice by bytes.Compare. */
  method Sort(s: seq<Bytes>) returns (t: seq<Bytes>)
    ensures Sorted(t) && multiset(t) == multiset(s)
  {
    t := [];
    for i := 0 to |s|
      invariant Sorted(t) && multiset(t) == multiset(s[..i])
    {
      var idx := Search(t, s[i]);
      InsertSorted(t, idx, s[i]);
      InsertMultiset(t, idx, s[i]);
      t := InsertAt(t, idx, s[i]);
      assert s[..i + 1] == s[..i] + [s[i]];
    }
    assert s[..|s|] == s;
  }
}
