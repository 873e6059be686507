/**
Threshold signatures of a community (crypto/threshold_sign.go).
*/
module Threshold {
  import opened Common

  type Key = nat
  type Data = nat
  type Signature = nat

  datatype Entry = Entry(member: int, key: Key, signature: Signature)

  /** `verify` is the signature check of the underlying scheme. */
  datatype Avatar = Avatar(members: seq<Key>, verify: (Key, Data, Signature) -> bool)

  function Needed(n: nat): (t: nat)
    ensures t >= 1 && 3 * t >= 2 * n
    ensures t > 1 ==> 3 * (t - 1) < 2 * n
    ensures n > 0 ==> t <= n
  {
    var t := (2 * n + 2) / 3;
    if t < 1 then 1 else t
  }

  predicate Genuine(a: Avatar, data: Data, e: Entry) {
    0 <= e.member < |a.members| && e.key == a.members[e.member] && a.verify(e.key, data, e.signature)
  }

  /** The members with at least one genuine entry. */
  function Signers(a: Avatar, data: Data, entries: seq<Entry>): set<int> {
    set i | 0 <= i < |entries| && Genuine(a, data, entries[i]) :: entries[i].member
  }

  predicate Accepts(a: Avatar, data: Data, entries: seq<Entry>) {
    |Signers(a, data, entries)| >= Needed(|a.members|)
  }

  predicate SignedBy(a: Avatar, data: Data, e: Entry, m: int)
    requires 0 <= m < |a.members|
  {
    e.member == m && e.key == a.members[m] && a.verify(a.members[m], data, e.signature)
  }

  /** Everyone in the group has an entry with its own registered key and a signature valid under that key. */
  ghost predicate AllSigned(a: Avatar, data: Data, entries: seq<Entry>, group: set<int>) {
    forall m <- group :: 0 <= m < |a.members| && exists i :: 0 <= i < |entries| && SignedBy(a, data, entries[i], m)
  }

  /** Accepted are exactly the signatures behind which a group of the required size stands. */
  lemma AcceptedExactly(a: Avatar, data: Data, entries: seq<Entry>)
    ensures Accepts(a, data, entries) <==>
      exists group: set<int> :: |group| == Needed(|a.members|) && AllSigned(a, data, entries, group)
  {
    var signers := Signers(a, data, entries);
    if Accepts(a, data, entries) {
      var group := SubsetOf(signers, Needed(|a.members|));
      forall m | m in group
        ensures 0 <= m < |a.members| && exists i :: 0 <= i < |entries| && SignedBy(a, data, entries[i], m)
      {
        var i :| 0 <= i < |entries| && Genuine(a, data, entries[i]) && entries[i].member == m;
        assert SignedBy(a, data, entries[i], m);
      }
      assert AllSigned(a, data, entries, group);
    }
    if group: set<int> :| |group| == Needed(|a.members|) && AllSigned(a, data, entries, group) {
      forall m | m in group ensures m in signers {
        var i :| 0 <= i < |entries| && SignedBy(a, data, entries[i], m);
        assert Genuine(a, data, entries[i]) && entries[i].member == m;
      }
      SubsetSize(group, signers);
    }
  }

  ghost function Someone<T>(s: set<T>): (x: T)
    requires |s| > 0
    ensures x in s
  {
    var x :| x in s;
    x
  }

  lemma {:induction false} SubsetOf(s: set<int>, n: nat) returns (t: set<int>)
    requires n <= |s|
    ensures t <= s && |t| == n
  {
    if n == 0 {
      t := {};
    } else {
      var x := Someone(s);
      t := SubsetOf(s - {x}, n - 1);
      t := t + {x};
    }
  }

  lemma SubsetSize(s: set<int>, t: set<int>)
    requires s <= t
    ensures |s| <= |t|
  {
    assert t == s + (t - s);
  }

  lemma SignersNext(a: Avatar, data: Data, entries: seq<Entry>, i: nat)
    requires i < |entries|
    ensures Signers(a, data, entries[..i + 1])
         == Signers(a, data, entries[..i]) + if Genuine(a, data, entries[i]) then {entries[i].member} else {}
  {
    var before, after := Signers(a, data, entries[..i]), Signers(a, data, entries[..i + 1]);
    forall m | m in after ensures m in before || (Genuine(a, data, entries[i]) && m == entries[i].member) {
      var j :| 0 <= j < i + 1 && Genuine(a, data, entries[..i + 1][j]) && entries[..i + 1][j].member == m;
      if j < i {
        assert entries[..i][j] == entries[j];
      }
    }
    forall m | m in before ensures m in after {
      var j :| 0 <= j < i && Genuine(a, data, entries[..i][j]) && entries[..i][j].member == m;
      assert entries[..i + 1][j] == entries[j];
    }
    if Genuine(a, data, entries[i]) {
      assert entries[..i + 1][i] == entries[i];
    }
  }

  /** Each member counts once, however often it signs; entries of strangers and bad signatures do not count. */
  method VerifyThresholdSignature(a: Avatar, data: Data, entries: seq<Entry>, t: int) returns (r: Option<bool>)
    ensures r == if t == Needed(|a.members|) then Some(Accepts(a, data, entries)) else None
    ensures r.Some? <==> t == (if |a.members| == 0 then 1 else (2 * |a.members| + 2) / 3)
    ensures r == Some(true) <==>
      t == Needed(|a.members|) && exists group: set<int> :: |group| == t && AllSigned(a, data, entries, group)
  {
    if t != Needed(|a.members|) {
      return None;
    }
    var valid := 0;
    var seen: set<int> := {};
    for i := 0 to |entries|
      invariant seen == Signers(a, data, entries[..i]) && valid == |seen|
    {
      SignersNext(a, data, entries, i);
      var e := entries[i];
      if e.member < 0 || e.member >= |a.members| {
        continue;
      }
      if e.member in seen {
        continue;
      }
      if e.key != a.members[e.member] {
        continue;
      }
      if a.verify(e.key, data, e.signature) {
        valid := valid + 1;
        seen := seen + {e.member};
      }
    }
    assert entries[..|entries|] == entries;
    AcceptedExactly(a, data, entries);
    return Some(valid >= Needed(|a.members|));
  }

  lemma {:induction false} IndicesBelow(s: set<int>, n: nat)
    requires forall i :: i in s ==> 0 <= i < n
    ensures |s| <= n
  {
    if n > 0 {
      IndicesBelow(s - {n - 1}, n - 1);
    } else {
      assert forall i :: i !in s;
      assert s == {};
    }
  }

  /** Any two accepted signatures, even over different data, share at least a third of the members. */
  lemma AcceptedShareAThird(a: Avatar, data: Data, entries: seq<Entry>, data1: Data, entries1: seq<Entry>)
    requires Accepts(a, data, entries) && Accepts(a, data1, entries1)
    ensures 3 * |Signers(a, data, entries) * Signers(a, data1, entries1)| >= |a.members|
  {
    var s, s1 := Signers(a, data, entries), Signers(a, data1, entries1);
    IndicesBelow(s + s1, |a.members|);
    assert |s + s1| + |s * s1| == |s| + |s1| by {
      assert s + s1 == s + (s1 - s * s1);
      assert |s1 - s * s1| == |s1| - |s * s1|;
    }
  }

  /** All honest members together always suffice. */
  lemma EveryoneSuffices(a: Avatar, data: Data, entries: seq<Entry>)
    requires |a.members| > 0 && |entries| == |a.members|
    requires forall i :: 0 <= i < |entries| ==> entries[i].member == i && Genuine(a, data, entries[i])
    ensures Accepts(a, data, entries)
  {
    assert Signers(a, data, entries) == UpTo(|entries|) by {
      forall i | 0 <= i < |entries| ensures i in Signers(a, data, entries) {
        assert Genuine(a, data, entries[i]) && entries[i].member == i;
      }
    }
  }

  ghost function UpTo(n: nat): (s: set<int>)
    ensures |s| == n && forall i :: i in s <==> 0 <= i < n
  {
    if n == 0 then {} else UpTo(n - 1) + {n - 1}
  }
}
