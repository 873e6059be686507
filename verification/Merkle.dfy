/**
The credit tree of store/merkle.go: a sorted list of commitments with a cached Merkle
root, inclusion proofs, and what a root and an accepted proof determine.

Hashes are free constructors: leaves (BLAKE3 with a prefix) and pairs (SHA-256) never
collide with one another, with themselves, or with the zero root of the empty tree.
*/
module Merkle {
  import opened ByteOrder
  import opened Common

  datatype Digest = Zero | Leaf(data: Bytes) | Pair(left: Digest, right: Digest)

  datatype Proof = Proof(leafIndex: int, siblings: seq<Digest>, root: Digest)

  // --- the tree over a list of commitments ---

  function LeavesOf(commitments: seq<Bytes>): (r: seq<Digest>)
    ensures |r| == |commitments|
    ensures forall i :: 0 <= i < |r| ==> r[i] == Leaf(commitments[i])
  {
    seq(|commitments|, i requires 0 <= i < |commitments| => Leaf(commitments[i]))
  }

  /** The parent of nodes 2i and 2i + 1; a last node without a neighbour is paired with itself. */
  function ParentAt(level: seq<Digest>, i: nat): Digest
    requires 2 * i < |level|
  {
    Pair(level[2 * i], if 2 * i + 1 < |level| then level[2 * i + 1] else level[2 * i])
  }

  function Parents(level: seq<Digest>): (r: seq<Digest>)
    ensures |r| == (|level| + 1) / 2
    ensures forall i :: 0 <= i < |r| ==> r[i] == ParentAt(level, i)
  {
    seq((|level| + 1) / 2, i requires 0 <= i < (|level| + 1) / 2 => ParentAt(level, i))
  }

  function Top(level: seq<Digest>): Digest
    requires |level| > 0
    decreases |level|
  {
    if |level| == 1 then level[0] else Top(Parents(level))
  }

  function MerkleRoot(commitments: seq<Bytes>): Digest {
    if |commitments| == 0 then Zero else Top(LeavesOf(commitments))
  }

  // --- proofs ---

  function SiblingOf(level: seq<Digest>, idx: nat): Digest
    requires idx < |level|
  {
    if idx % 2 == 1 then level[idx - 1]
    else if idx + 1 < |level| then level[idx + 1]
    else level[idx]
  }

  function SiblingsOf(level: seq<Digest>, idx: nat): seq<Digest>
    requires idx < |level|
    decreases |level|
  {
    if |level| == 1 then [] else [SiblingOf(level, idx)] + SiblingsOf(Parents(level), idx / 2)
  }

  /** Go's integer division by two, which truncates toward zero. */
  function Half(idx: int): int {
    if idx >= 0 then idx / 2 else -((-idx) / 2)
  }

  function Fold(hash: Digest, idx: int, siblings: seq<Digest>): Digest
    decreases |siblings|
  {
    if |siblings| == 0 then hash
    else Fold(if idx % 2 == 0 then Pair(hash, siblings[0]) else Pair(siblings[0], hash), Half(idx), siblings[1..])
  }

  predicate Accepts(root: Digest, proof: Proof, commitment: Bytes) {
    Fold(Leaf(commitment), proof.leafIndex, proof.siblings) == root
  }

  /** As division truncates toward zero, a negative index stands for its absolute value. */
  lemma {:induction false} FoldNegative(hash: Digest, idx: nat, siblings: seq<Digest>)
    ensures Fold(hash, -(idx as int), siblings) == Fold(hash, idx, siblings)
    decreases |siblings|
  {
    if |siblings| > 0 {
      assert Half(-(idx as int)) == -Half(idx);
      var up := if idx % 2 == 0 then Pair(hash, siblings[0]) else Pair(siblings[0], hash);
      FoldNegative(up, Half(idx), siblings[1..]);
    }
  }

  /** Folding a node with its siblings rebuilds the root of its level. */
  lemma {:induction false} SiblingsRebuildTop(level: seq<Digest>, idx: nat)
    requires idx < |level|
    ensures Fold(level[idx], idx, SiblingsOf(level, idx)) == Top(level)
    decreases |level|
  {
    if |level| > 1 {
      assert Parents(level)[idx / 2] == ParentAt(level, idx / 2);
      SiblingsRebuildTop(Parents(level), idx / 2);
    }
  }

  // --- what a digest determines ---

  function DataIn(d: Digest): set<Bytes> {
    match d
    case Zero => {}
    case Leaf(data) => {data}
    case Pair(left, right) => DataIn(left) + DataIn(right)
  }

  /** Every leaf below d is exactly `height` steps down. */
  predicate Perfect(d: Digest, height: nat) {
    match d
    case Zero => false
    case Leaf(_) => height == 0
    case Pair(left, right) => height > 0 && Perfect(left, height - 1) && Perfect(right, height - 1)
  }

  function Height(size: nat): nat {
    if size <= 1 then 0 else 1 + Height((size + 1) / 2)
  }

  lemma {:induction false} PerfectOnce(d: Digest, h: nat, k: nat)
    requires Perfect(d, h) && Perfect(d, k)
    ensures h == k
  {
    if d.Pair? {
      PerfectOnce(d.left, h - 1, k - 1);
    }
  }

  lemma {:induction false} TopPerfect(level: seq<Digest>, h: nat)
    requires |level| > 0 && forall d <- level :: Perfect(d, h)
    ensures Perfect(Top(level), h + Height(|level|))
    decreases |level|
  {
    if |level| > 1 {
      TopPerfect(Parents(level), h + 1);
    }
  }

  lemma {:induction false} FoldPerfect(hash: Digest, idx: int, siblings: seq<Digest>, h: nat)
    requires Perfect(Fold(hash, idx, siblings), h)
    ensures |siblings| <= h && Perfect(hash, h - |siblings|)
    decreases |siblings|
  {
    if |siblings| > 0 {
      var up := if idx % 2 == 0 then Pair(hash, siblings[0]) else Pair(siblings[0], hash);
      FoldPerfect(up, Half(idx), siblings[1..], h);
    }
  }

  lemma {:induction false} FoldContains(hash: Digest, idx: int, siblings: seq<Digest>)
    ensures DataIn(hash) <= DataIn(Fold(hash, idx, siblings))
    decreases |siblings|
  {
    if |siblings| > 0 {
      var up := if idx % 2 == 0 then Pair(hash, siblings[0]) else Pair(siblings[0], hash);
      FoldContains(up, Half(idx), siblings[1..]);
    }
  }

  lemma {:induction false} TopData(level: seq<Digest>, x: Bytes)
    requires |level| > 0
    ensures x in DataIn(Top(level)) <==> exists i :: 0 <= i < |level| && x in DataIn(level[i])
    decreases |level|
  {
    if |level| > 1 {
      var up := Parents(level);
      TopData(up, x);
      if i :| 0 <= i < |level| && x in DataIn(level[i]) {
        assert up[i / 2] == ParentAt(level, i / 2);
      }
    }
  }

  /** The root determines exactly which commitments are in the tree, even with repetitions. */
  lemma RootData(commitments: seq<Bytes>, x: Bytes)
    ensures x in DataIn(MerkleRoot(commitments)) <==> x in commitments
  {
    if |commitments| > 0 {
      TopData(LeavesOf(commitments), x);
    }
  }

  lemma EqualRootsEqualSets(a: seq<Bytes>, b: seq<Bytes>)
    requires MerkleRoot(a) == MerkleRoot(b)
    ensures (set x <- a) == (set x <- b)
  {
    forall x ensures x in a <==> x in b {
      RootData(a, x);
      RootData(b, x);
    }
  }

  /** No proof, whatever its index and siblings, is accepted for anything outside the tree. */
  lemma AcceptedIsMember(commitments: seq<Bytes>, proof: Proof, x: Bytes)
    requires Accepts(MerkleRoot(commitments), proof, x)
    ensures x in commitments
  {
    FoldContains(Leaf(x), proof.leafIndex, proof.siblings);
    RootData(commitments, x);
  }

  lemma {:induction false} FoldReaches(level: seq<Digest>, hash: Digest, idx: nat, siblings: seq<Digest>, h: nat)
    requires idx < |level| && Perfect(hash, h) && forall d <- level :: Perfect(d, h)
    requires Fold(hash, idx, siblings) == Top(level)
    ensures |siblings| == Height(|level|) && hash == level[idx]
    decreases |level|
  {
    TopPerfect(level, h);
    FoldPerfect(hash, idx, siblings, h + Height(|level|));
    PerfectOnce(hash, h, h + Height(|level|) - |siblings|);
    if |level| > 1 {
      var up := if idx % 2 == 0 then Pair(hash, siblings[0]) else Pair(siblings[0], hash);
      FoldPerfect(up, idx / 2, siblings[1..], h + Height(|level|));
      assert Parents(level)[idx / 2] == ParentAt(level, idx / 2);
      FoldReaches(Parents(level), up, idx / 2, siblings[1..], h + 1);
    }
  }

  lemma LeavesPerfect(commitments: seq<Bytes>)
    ensures forall d <- LeavesOf(commitments) :: Perfect(d, 0)
    ensures forall x: Bytes :: Perfect(Leaf(x), 0)
  {
  }

  /** An accepted proof has one sibling per level, and its index, when in range, is where the commitment stands. */
  lemma AcceptedAtIndex(commitments: seq<Bytes>, proof: Proof, x: Bytes)
    requires Accepts(MerkleRoot(commitments), proof, x)
    ensures |proof.siblings| == Height(|commitments|)
    ensures 0 <= proof.leafIndex < |commitments| ==> commitments[proof.leafIndex] == x
  {
    hide Top, Fold, Perfect;
    AcceptedIsMember(commitments, proof, x);
    var level := LeavesOf(commitments);
    LeavesPerfect(commitments);
    TopPerfect(level, 0);
    FoldPerfect(Leaf(x), proof.leafIndex, proof.siblings, Height(|level|));
    if 0 <= proof.leafIndex < |commitments| {
      FoldReaches(level, Leaf(x), proof.leafIndex, proof.siblings, 0);
    }
  }

  /** Which commitments have a proof: exactly those in the tree. */
  lemma ProvableExactly(commitments: seq<Bytes>, x: Bytes)
    ensures x in commitments <==> exists proof :: Accepts(MerkleRoot(commitments), proof, x)
  {
    if i :| 0 <= i < |commitments| && commitments[i] == x {
      var level := LeavesOf(commitments);
      SiblingsRebuildTop(level, i);
      assert Accepts(MerkleRoot(commitments), Proof(i, SiblingsOf(level, i), Zero), x);
    }
    if proof :| Accepts(MerkleRoot(commitments), proof, x) {
      AcceptedIsMember(commitments, proof, x);
    }
  }

  // --- which lists share a root ---

  function Width(height: nat): (w: nat)
    ensures w > 0
  {
    if height == 0 then 1 else 2 * Width(height - 1)
  }

  lemma {:induction false} HeightFits(size: nat)
    ensures size <= Width(Height(size))
  {
    if size > 1 {
      HeightFits((size + 1) / 2);
    }
  }

  lemma {:induction false} WidthsDiffer(h: nat, k: nat)
    requires h < k
    ensures Width(h) < Width(k)
    decreases k
  {
    if h < k - 1 {
      WidthsDiffer(h, k - 1);
    }
  }

  /** The list filled up to a full width, from the top: a list that fits in half of it stands there twice. */
  function Fill(s: seq<Bytes>, height: nat): (r: seq<Bytes>)
    requires 0 < |s| <= Width(height)
    ensures |r| == Width(height)
  {
    if height == 0 then s
    else
      var half := Width(height - 1);
      if |s| <= half then Fill(s, height - 1) + Fill(s, height - 1)
      else Fill(s[..half], height - 1) + Fill(s[half..], height - 1)
  }

  function Padded(s: seq<Bytes>): seq<Bytes> {
    HeightFits(|s|);
    if |s| == 0 then [] else Fill(s, Height(|s|))
  }

  lemma {:induction false} FillExtends(s: seq<Bytes>, height: nat)
    requires 0 < |s| <= Width(height)
    ensures s <= Fill(s, height) && forall x :: x in Fill(s, height) ==> x in s
  {
    if height > 0 {
      var half := Width(height - 1);
      if |s| <= half {
        FillExtends(s, height - 1);
      } else {
        FillExtends(s[..half], height - 1);
        FillExtends(s[half..], height - 1);
        assert s == s[..half] + s[half..];
      }
    }
  }

  /** The same from the top, for nodes of a level. */
  function Build(level: seq<Digest>, height: nat): Digest
    requires 0 < |level| <= Width(height)
  {
    if height == 0 then level[0]
    else
      var half := Width(height - 1);
      if |level| <= half then Pair(Build(level, height - 1), Build(level, height - 1))
      else Pair(Build(level[..half], height - 1), Build(level[half..], height - 1))
  }

  lemma ParentsSplit(level: seq<Digest>, k: nat)
    requires 2 * k <= |level|
    ensures Parents(level)[..k] == Parents(level[..2 * k]) && Parents(level)[k..] == Parents(level[2 * k..])
  {
    forall i | 0 <= i < |Parents(level)| - k
      ensures ParentAt(level, k + i) == ParentAt(level[2 * k..], i)
    {
    }
  }

  lemma {:induction false} BuildParents(level: seq<Digest>, height: nat)
    requires 0 < |level| <= Width(height) && height > 0
    ensures Build(Parents(level), height - 1) == Build(level, height)
  {
    if height > 1 {
      var half := Width(height - 1);
      if |level| <= half {
        BuildParents(level, height - 1);
      } else {
        BuildParents(level[..half], height - 1);
        BuildParents(level[half..], height - 1);
        ParentsSplit(level, half / 2);
      }
    } else {
      assert Parents(level)[0] == ParentAt(level, 0);
    }
  }

  /** Level by level from the leaves, or by halves from the root: the same tree. */
  lemma {:induction false} TopIsBuild(level: seq<Digest>)
    requires |level| > 0
    ensures |level| <= Width(Height(|level|)) && Top(level) == Build(level, Height(|level|))
    decreases |level|
  {
    HeightFits(|level|);
    if |level| > 1 {
      TopIsBuild(Parents(level));
      BuildParents(level, Height(|level|));
    }
  }

  /** The leaves below a digest, from left to right. */
  function Leaves(d: Digest): seq<Bytes> {
    match d
    case Zero => []
    case Leaf(data) => [data]
    case Pair(left, right) => Leaves(left) + Leaves(right)
  }

  lemma {:induction false} BuildLeaves(s: seq<Bytes>, height: nat)
    requires 0 < |s| <= Width(height)
    ensures Leaves(Build(LeavesOf(s), height)) == Fill(s, height) && Perfect(Build(LeavesOf(s), height), height)
  {
    if height > 0 {
      var half := Width(height - 1);
      if |s| <= half {
        BuildLeaves(s, height - 1);
      } else {
        BuildLeaves(s[..half], height - 1);
        BuildLeaves(s[half..], height - 1);
        assert LeavesOf(s)[..half] == LeavesOf(s[..half]) && LeavesOf(s)[half..] == LeavesOf(s[half..]);
      }
    }
  }

  lemma {:induction false} PerfectWidth(d: Digest, height: nat)
    requires Perfect(d, height)
    ensures |Leaves(d)| == Width(height)
  {
    if d.Pair? {
      PerfectWidth(d.left, height - 1);
      PerfectWidth(d.right, height - 1);
    }
  }

  /** Perfect digests of one height are determined by their leaves. */
  lemma {:induction false} LeavesDetermine(d: Digest, e: Digest, height: nat)
    requires Perfect(d, height) && Perfect(e, height) && Leaves(d) == Leaves(e)
    ensures d == e
  {
    if height > 0 {
      PerfectWidth(d.left, height - 1);
      PerfectWidth(e.left, height - 1);
      assert Leaves(d)[..Width(height - 1)] == Leaves(d.left) && Leaves(d)[Width(height - 1)..] == Leaves(d.right);
      assert Leaves(e)[..Width(height - 1)] == Leaves(e.left) && Leaves(e)[Width(height - 1)..] == Leaves(e.right);
      LeavesDetermine(d.left, e.left, height - 1);
      LeavesDetermine(d.right, e.right, height - 1);
    }
  }

  /** The leaves below a root, read from left to right, are the commitments filled up to a full width. */
  lemma RootLeaves(s: seq<Bytes>)
    ensures Leaves(MerkleRoot(s)) == Padded(s)
    ensures |s| > 0 ==> Perfect(MerkleRoot(s), Height(|s|)) && |Padded(s)| == Width(Height(|s|))
    ensures s <= Padded(s) && forall x :: x in Padded(s) ==> x in s
  {
    if |s| > 0 {
      TopIsBuild(LeavesOf(s));
      BuildLeaves(s, Height(|s|));
      FillExtends(s, Height(|s|));
    }
  }

  /** Two lists of commitments share a root exactly if they fill up to the same list. */
  lemma SameRootExactly(a: seq<Bytes>, b: seq<Bytes>)
    ensures MerkleRoot(a) == MerkleRoot(b) <==> Padded(a) == Padded(b)
  {
    hide Padded, MerkleRoot, Perfect, Leaves;
    RootLeaves(a);
    RootLeaves(b);
    if Padded(a) == Padded(b) {
      if |a| == 0 || |b| == 0 {
        EmptyPadded(a);
        EmptyPadded(b);
      } else {
        SameWidth(Height(|a|), Height(|b|));
        LeavesDetermine(MerkleRoot(a), MerkleRoot(b), Height(|a|));
      }
    }
  }

  lemma EmptyPadded(s: seq<Bytes>)
    ensures Padded(s) == [] <==> s == []
  {
  }

  lemma SameWidth(h: nat, k: nat)
    requires Width(h) == Width(k)
    ensures h == k
  {
    if h < k {
      WidthsDiffer(h, k);
    } else if k < h {
      WidthsDiffer(k, h);
    }
  }

  /** Lists that share a root extend one another within one height; of equal length, they are the same. */
  lemma SameRootExtends(a: seq<Bytes>, b: seq<Bytes>)
    requires MerkleRoot(a) == MerkleRoot(b)
    ensures (a <= b || b <= a) && Height(|a|) == Height(|b|)
    ensures |a| == |b| ==> a == b
  {
    hide Padded, MerkleRoot, Height;
    RootLeaves(a);
    RootLeaves(b);
    SameRootExactly(a, b);
    var full := Padded(a);
    assert a == full[..|a|] && b == full[..|b|];
    if |a| == 0 || |b| == 0 {
      EmptyPadded(a);
      EmptyPadded(b);
    } else {
      SameWidth(Height(|a|), Height(|b|));
    }
  }

  /** What the longer of two lists with one root adds is repeated from the shorter. */
  lemma LongerRepeats(a: seq<Bytes>, b: seq<Bytes>)
    requires a <= b && |a| < |b| && MerkleRoot(a) == MerkleRoot(b)
    ensures !Distinct(b)
  {
    hide Padded, MerkleRoot, Leaves, Perfect;
    RootLeaves(a);
    RootLeaves(b);
    SameRootExactly(a, b);
    assert b[|a|] == Padded(b)[|a|] && Padded(b)[|a|] in Padded(a);
    var i :| 0 <= i < |a| && a[i] == b[|a|];
    assert b[i] == b[|a|];
  }

  /** Two lists without repetitions have the same root only if they are the same list. */
  lemma RootInjective(a: seq<Bytes>, b: seq<Bytes>)
    requires Distinct(a) && Distinct(b)
    ensures MerkleRoot(a) == MerkleRoot(b) <==> a == b
  {
    hide MerkleRoot, Distinct;
    if MerkleRoot(a) == MerkleRoot(b) {
      SameRootExtends(a, b);
      if |a| < |b| {
        LongerRepeats(a, b);
      } else if |b| < |a| {
        LongerRepeats(b, a);
      }
    }
  }

  /** Filling up starts by repeating the last of an odd number of commitments. */
  lemma {:induction false} OddTailPads(s: seq<Bytes>, height: nat)
    requires |s| % 2 == 1 && |s| + 1 <= Width(height)
    ensures Fill(s + [s[|s| - 1]], height) == Fill(s, height)
  {
    var longer := s + [s[|s| - 1]];
    if height > 1 {
      var half := Width(height - 1);
      assert half % 2 == 0;
      if |s| > half {
        assert longer[..half] == s[..half] && longer[half..] == s[half..] + [s[half..][|s| - half - 1]];
        OddTailPads(s[half..], height - 1);
      } else {
        OddTailPads(s, height - 1);
      }
    }
  }

  /** So with repetitions it fails: repeating the last of an odd number of commitments leaves the root as it was. */
  lemma OddTailCollides(commitments: seq<Bytes>)
    requires |commitments| >= 3 && |commitments| % 2 == 1
    ensures var longer := commitments + [commitments[|commitments| - 1]];
      MerkleRoot(longer) == MerkleRoot(commitments) && longer != commitments
  {
    var longer := commitments + [commitments[|commitments| - 1]];
    var height := Height(|commitments|);
    assert (|longer| + 1) / 2 == (|commitments| + 1) / 2;
    HeightFits(|longer|);
    OddTailPads(commitments, height);
    SameRootExactly(longer, commitments);
  }

  // --- the loops over levels ---

  method NextLevel(level: seq<Digest>) returns (next: array<Digest>)
    requires |level| > 1
    ensures next[..] == Parents(level)
  {
    next := new Digest[(|level| + 1) / 2];
    var i := 0;
    while i < |level|
      invariant 0 <= i <= |level| + 1 && i % 2 == 0
      invariant forall j :: 0 <= j < i / 2 ==> next[j] == ParentAt(level, j)
    {
      if i + 1 < |level| {
        next[i / 2] := Pair(level[i], level[i + 1]);
      } else {
        next[i / 2] := Pair(level[i], level[i]);
      }
      i := i + 2;
    }
  }

  method ComputeMerkleRoot(commitments: seq<Bytes>) returns (root: Digest)
    ensures root == MerkleRoot(commitments)
  {
    if |commitments| == 0 {
      return Zero;
    }
    var level := LeavesOf(commitments);
    while |level| > 1
      invariant |level| > 0 && Top(level) == MerkleRoot(commitments)
      decreases |level|
    {
      var next := NextLevel(level);
      level := next[..];
    }
    return level[0];
  }

  /** The loop of GenerateProof: collect the siblings on the way up to the root. */
  method ClimbTo(leaves: seq<Digest>, idx: nat) returns (siblings: seq<Digest>, top: Digest)
    requires idx < |leaves|
    ensures siblings == SiblingsOf(leaves, idx) && top == Top(leaves)
  {
    hide Top, SiblingsOf;
    siblings := [];
    var level, at := leaves, idx;
    while |level| > 1
      invariant 0 <= at < |level| && Top(level) == Top(leaves)
      invariant siblings + SiblingsOf(level, at) == SiblingsOf(leaves, idx)
      decreases |level|
    {
      ClimbStep(level, at, siblings);
      var other := if at % 2 == 0 then at + 1 else at - 1;
      if other < |level| {
        siblings := siblings + [level[other]];
      } else {
        siblings := siblings + [level[at]];
      }
      var next := NextLevel(level);
      level, at := next[..], at / 2;
    }
    ClimbDone(level, siblings);
    top := level[0];
  }

  lemma ClimbStep(level: seq<Digest>, at: nat, siblings: seq<Digest>)
    requires at < |level| && |level| > 1
    ensures var other := if at % 2 == 0 then at + 1 else at - 1;
      var sibling := if other < |level| then level[other] else level[at];
      && at / 2 < |Parents(level)| && Top(Parents(level)) == Top(level)
      && siblings + SiblingsOf(level, at) == siblings + [sibling] + SiblingsOf(Parents(level), at / 2)
  {
  }

  lemma ClimbDone(level: seq<Digest>, siblings: seq<Digest>)
    requires |level| == 1
    ensures Top(level) == level[0] && siblings + SiblingsOf(level, 0) == siblings
  {
  }

  method VerifyProof(root: Digest, proof: Option<Proof>, commitment: Bytes) returns (ok: bool)
    ensures ok <==> proof.Some? && Accepts(root, proof.value, commitment)
  {
    if proof.None? {
      return false;
    }
    var hash, idx := Leaf(commitment), proof.value.leafIndex;
    var siblings := proof.value.siblings;
    for k := 0 to |siblings|
      invariant Fold(hash, idx, siblings[k..]) == Fold(Leaf(commitment), proof.value.leafIndex, siblings)
    {
      if idx % 2 == 0 {
        hash := Pair(hash, siblings[k]);
      } else {
        hash := Pair(siblings[k], hash);
      }
      idx := Half(idx);
      assert siblings[k..][1..] == siblings[k + 1..];
    }
    return hash == root;
  }

  lemma RemovedOrder(s: seq<Bytes>, i: nat)
    requires Sorted(s) && i < |s|
    ensures Sorted(s[..i] + s[i + 1..]) && (Distinct(s) ==> Distinct(s[..i] + s[i + 1..]))
  {
    hide Le;
    var r := s[..i] + s[i + 1..];
    assert forall k :: 0 <= k < |r| ==> r[k] == s[if k < i then k else k + 1];
  }

  lemma RemovedMultiset<T>(s: seq<T>, i: nat)
    requires i < |s|
    ensures multiset(s[..i] + s[i + 1..]) == multiset(s) - multiset{s[i]}
  {
    assert s == s[..i] + [s[i]] + s[i + 1..];
  }

  // --- the tree as an object ---

  class CreditMerkleTree {
    var commitments: seq<Bytes>
    var root: Digest
    var dirty: bool

    /** The list is sorted and a clean cache holds the root of the current list. */
    ghost predicate Valid()
      reads this
    {
      Sorted(commitments) && (!dirty ==> root == MerkleRoot(commitments))
    }

    constructor ()
      ensures Valid() && commitments == []
    {
      commitments := [];
      root := Zero;
      dirty := true;
    }

    method AddCommitment(x: Bytes)
      requires Valid()
      modifies this
      ensures Valid()
      ensures multiset(commitments)
           == old(multiset(commitments)) + if x in old(commitments) then multiset{} else multiset{x}
      ensures old(Distinct(commitments)) ==> Distinct(commitments)
    {
      var idx := Search(commitments, x);
      FoundAtSplit(commitments, x, idx);
      if idx < |commitments| && commitments[idx] == x {
        return;
      }
      InsertSorted(commitments, idx, x);
      InsertMultiset(commitments, idx, x);
      commitments := InsertAt(commitments, idx, x);
      dirty := true;
    }

    method RemoveCommitment(x: Bytes) returns (found: bool)
      requires Valid()
      modifies this
      ensures Valid()
      ensures found <==> x in old(commitments)
      ensures multiset(commitments) == old(multiset(commitments)) - if found then multiset{x} else multiset{}
      ensures old(Distinct(commitments)) ==> Distinct(commitments)
    {
      hide Le, MerkleRoot;
      var idx := Search(commitments, x);
      FoundAtSplit(commitments, x, idx);
      if idx >= |commitments| || commitments[idx] != x {
        return false;
      }
      RemovedOrder(commitments, idx);
      RemovedMultiset(commitments, idx);
      commitments := commitments[..idx] + commitments[idx + 1..];
      dirty := true;
      return true;
    }

    method Root() returns (r: Digest)
      requires Valid()
      modifies this
      ensures Valid() && commitments == old(commitments) && !dirty
      ensures r == MerkleRoot(commitments)
    {
      if !dirty {
        return root;
      }
      root := ComputeMerkleRoot(commitments);
      dirty := false;
      return root;
    }

    method Restore(list: seq<Bytes>)
      modifies this
      ensures Valid() && multiset(commitments) == multiset(list)
    {
      commitments := Sort(list);
      dirty := true;
    }

    /** A member gets a proof with the current root; anything else gets none. */
    method GenerateProof(x: Bytes) returns (r: Option<Proof>)
      requires Valid()
      ensures r.Some? <==> x in commitments
      ensures r.Some? ==>
        && r.value.root == MerkleRoot(commitments)
        && Accepts(MerkleRoot(commitments), r.value, x)
        && 0 <= r.value.leafIndex < |commitments| && commitments[r.value.leafIndex] == x
        && (forall i :: 0 <= i < r.value.leafIndex ==> commitments[i] != x)
    {
      var idx := Search(commitments, x);
      FoundAtSplit(commitments, x, idx);
      LeReflexive(x);
      if idx >= |commitments| || commitments[idx] != x {
        return None;
      }
      var leaves := LeavesOf(commitments);
      SiblingsRebuildTop(leaves, idx);
      var siblings, top := ClimbTo(leaves, idx);
      return Some(Proof(idx, siblings, top));
    }
  }

  /** The root depends only on the commitments present, not on the history that put them there. */
  lemma SameContentsSameRoot(a: seq<Bytes>, b: seq<Bytes>)
    requires Sorted(a) && Sorted(b) && multiset(a) == multiset(b)
    ensures a == b && MerkleRoot(a) == MerkleRoot(b)
  {
    SortedUnique(a, b);
  }
}
