/**
The genesis tree of x/vrg/topology.go: communities invited one by one, lowest common
ancestors, and the distance between communities.
*/
module Topology {
  import opened Common

  type Id = nat

  datatype TreeNode = TreeNode(id: Id, parent: Id, depth: nat, children: seq<Id>, bond: nat)

  type Nodes = map<Id, TreeNode>

  /** Only the root has depth 0; every other community hangs one below its parent, which lists it once. */
  ghost predicate Tree(nodes: Nodes, root: Id) {
    && root in nodes
    && (forall x <- nodes :: nodes[x].id == x && (nodes[x].depth == 0 <==> x == root))
    && (forall x: Id {:trigger HangsBelow(nodes, x)} :: x in nodes && x != root ==> HangsBelow(nodes, x))
  }

  ghost predicate HangsBelow(nodes: Nodes, x: Id)
    requires x in nodes
  {
    nodes[x].parent in nodes && nodes[nodes[x].parent].depth + 1 == nodes[x].depth
  }

  /** The children of p are listed once each, and exactly they have p as their parent. */
  ghost predicate ListsChildren(nodes: Nodes, root: Id, p: Id)
    requires p in nodes
  {
    && Distinct(nodes[p].children)
    && forall c :: c in nodes[p].children <==> c in nodes && c != root && nodes[c].parent == p
  }

  ghost predicate ChildrenListed(nodes: Nodes, root: Id) {
    forall p: Id {:trigger ListsChildren(nodes, root, p)} :: p in nodes ==> ListsChildren(nodes, root, p)
  }

  /** x is y or one of the communities above y. */
  ghost predicate Above(nodes: Nodes, root: Id, x: Id, y: Id)
    requires Tree(nodes, root) && y in nodes
    decreases nodes[y].depth
  {
    x == y || (y != root && HangsBelow(nodes, y) && Above(nodes, root, x, nodes[y].parent))
  }

  lemma {:induction false} AboveIsShallower(nodes: Nodes, root: Id, x: Id, y: Id)
    requires Tree(nodes, root) && y in nodes && Above(nodes, root, x, y)
    ensures x in nodes && nodes[x].depth <= nodes[y].depth
    ensures nodes[x].depth == nodes[y].depth ==> x == y
    decreases nodes[y].depth
  {
    if x != y {
      AboveIsShallower(nodes, root, x, nodes[y].parent);
    }
  }

  lemma {:induction false} AboveTransitive(nodes: Nodes, root: Id, x: Id, y: Id, z: Id)
    requires Tree(nodes, root) && y in nodes && z in nodes
    requires Above(nodes, root, x, y) && Above(nodes, root, y, z)
    ensures Above(nodes, root, x, z)
    decreases nodes[z].depth
  {
    if y != z {
      AboveTransitive(nodes, root, x, y, nodes[z].parent);
    }
  }

  lemma {:induction false} AboveComparable(nodes: Nodes, root: Id, x: Id, y: Id, z: Id)
    requires Tree(nodes, root) && z in nodes && Above(nodes, root, x, z) && Above(nodes, root, y, z)
    requires x in nodes && y in nodes && nodes[x].depth <= nodes[y].depth
    ensures Above(nodes, root, x, y)
    decreases nodes[z].depth
  {
    if y != z {
      if x == z {
        AboveIsShallower(nodes, root, y, z);
      } else {
        AboveComparable(nodes, root, x, y, nodes[z].parent);
      }
    }
  }

  // --- lowest common ancestors ---

  /** Climb from the deeper of the two, or from both, until they meet. */
  function Meet(nodes: Nodes, root: Id, a: Id, b: Id): (m: Id)
    requires Tree(nodes, root) && a in nodes && b in nodes
    ensures m in nodes
    decreases nodes[a].depth + nodes[b].depth
  {
    assert a != root ==> HangsBelow(nodes, a);
    assert b != root ==> HangsBelow(nodes, b);
    if nodes[a].depth > nodes[b].depth then Meet(nodes, root, nodes[a].parent, b)
    else if nodes[b].depth > nodes[a].depth then Meet(nodes, root, a, nodes[b].parent)
    else if a == b then a
    else Meet(nodes, root, nodes[a].parent, nodes[b].parent)
  }

  /** The meeting point is a common ancestor, and below every common ancestor. */
  lemma {:induction false} MeetIsLowest(nodes: Nodes, root: Id, a: Id, b: Id)
    requires Tree(nodes, root) && a in nodes && b in nodes
    ensures var m := Meet(nodes, root, a, b);
      && m in nodes && Above(nodes, root, m, a) && Above(nodes, root, m, b)
      && forall z :: Above(nodes, root, z, a) && Above(nodes, root, z, b) ==> Above(nodes, root, z, m)
    decreases nodes[a].depth + nodes[b].depth
  {
    assert a != root ==> HangsBelow(nodes, a);
    assert b != root ==> HangsBelow(nodes, b);
    forall z | Above(nodes, root, z, a) && Above(nodes, root, z, b)
      ensures nodes[a].depth > nodes[b].depth ==> z != a
      ensures nodes[a].depth < nodes[b].depth ==> z != b
      ensures nodes[a].depth == nodes[b].depth && a != b ==> z != a && z != b
    {
      AboveIsShallower(nodes, root, z, a);
      AboveIsShallower(nodes, root, z, b);
    }
    if nodes[a].depth > nodes[b].depth {
      MeetIsLowest(nodes, root, nodes[a].parent, b);
    } else if nodes[b].depth > nodes[a].depth {
      MeetIsLowest(nodes, root, a, nodes[b].parent);
    } else if a != b {
      MeetIsLowest(nodes, root, nodes[a].parent, nodes[b].parent);
    }
  }

  // --- distance ---

  function Dist(nodes: Nodes, root: Id, a: Id, b: Id): int
    requires Tree(nodes, root) && a in nodes && b in nodes
  {
    nodes[a].depth + nodes[b].depth - 2 * nodes[Meet(nodes, root, a, b)].depth
  }

  lemma MeetDepth(nodes: Nodes, root: Id, a: Id, b: Id)
    requires Tree(nodes, root) && a in nodes && b in nodes
    ensures var m := Meet(nodes, root, a, b);
      m in nodes && nodes[m].depth <= nodes[a].depth && nodes[m].depth <= nodes[b].depth
  {
    MeetIsLowest(nodes, root, a, b);
    AboveIsShallower(nodes, root, Meet(nodes, root, a, b), a);
    AboveIsShallower(nodes, root, Meet(nodes, root, a, b), b);
  }

  lemma DistZero(nodes: Nodes, root: Id, a: Id, b: Id)
    requires Tree(nodes, root) && a in nodes && b in nodes
    ensures Dist(nodes, root, a, b) >= 0
    ensures Dist(nodes, root, a, b) == 0 <==> a == b
  {
    var m := Meet(nodes, root, a, b);
    MeetIsLowest(nodes, root, a, b);
    AboveIsShallower(nodes, root, m, a);
    AboveIsShallower(nodes, root, m, b);
  }

  lemma DistSymmetric(nodes: Nodes, root: Id, a: Id, b: Id)
    requires Tree(nodes, root) && a in nodes && b in nodes
    ensures Meet(nodes, root, a, b) == Meet(nodes, root, b, a)
    ensures Dist(nodes, root, a, b) == Dist(nodes, root, b, a)
  {
    var m, n := Meet(nodes, root, a, b), Meet(nodes, root, b, a);
    MeetIsLowest(nodes, root, a, b);
    MeetIsLowest(nodes, root, b, a);
    AboveIsShallower(nodes, root, m, n);
    AboveIsShallower(nodes, root, n, m);
  }

  lemma CommonAboveMeet(nodes: Nodes, root: Id, z: Id, a: Id, b: Id)
    requires Tree(nodes, root) && a in nodes && b in nodes
    requires Above(nodes, root, z, a) && Above(nodes, root, z, b)
    ensures z in nodes && nodes[z].depth <= nodes[Meet(nodes, root, a, b)].depth
  {
    MeetIsLowest(nodes, root, a, b);
    AboveIsShallower(nodes, root, z, Meet(nodes, root, a, b));
  }

  /** Of the two meeting points with b, the shallower one is above both a and c. */
  lemma MeetsNest(nodes: Nodes, root: Id, a: Id, b: Id, c: Id)
    requires Tree(nodes, root) && a in nodes && b in nodes && c in nodes
    requires nodes[Meet(nodes, root, a, b)].depth <= nodes[Meet(nodes, root, b, c)].depth
    ensures nodes[Meet(nodes, root, a, b)].depth <= nodes[Meet(nodes, root, a, c)].depth
  {
    var m, n := Meet(nodes, root, a, b), Meet(nodes, root, b, c);
    MeetIsLowest(nodes, root, a, b);
    MeetIsLowest(nodes, root, b, c);
    AboveComparable(nodes, root, m, n, b);
    AboveTransitive(nodes, root, m, n, c);
    CommonAboveMeet(nodes, root, m, a, c);
  }

  lemma DistTriangle(nodes: Nodes, root: Id, a: Id, b: Id, c: Id)
    requires Tree(nodes, root) && a in nodes && b in nodes && c in nodes
    ensures Dist(nodes, root, a, c) <= Dist(nodes, root, a, b) + Dist(nodes, root, b, c)
  {
    MeetDepth(nodes, root, a, b);
    MeetDepth(nodes, root, b, c);
    MeetDepth(nodes, root, a, c);
    if nodes[Meet(nodes, root, a, b)].depth <= nodes[Meet(nodes, root, b, c)].depth {
      MeetsNest(nodes, root, a, b, c);
    } else {
      DistSymmetric(nodes, root, a, b);
      DistSymmetric(nodes, root, b, c);
      DistSymmetric(nodes, root, a, c);
      MeetsNest(nodes, root, c, b, a);
    }
  }

  // --- distance is the length of a shortest walk ---

  predicate Linked(nodes: Nodes, root: Id, a: Id, b: Id)
    requires a in nodes && b in nodes
  {
    (b != root && nodes[b].parent == a) || (a != root && nodes[a].parent == b)
  }

  ghost predicate Walk(nodes: Nodes, root: Id, walk: seq<Id>) {
    && |walk| > 0
    && (forall i :: 0 <= i < |walk| ==> walk[i] in nodes)
    && (forall i :: 0 < i < |walk| ==> Linked(nodes, root, walk[i - 1], walk[i]))
  }

  lemma LinkedIsOne(nodes: Nodes, root: Id, a: Id, b: Id)
    requires Tree(nodes, root) && a in nodes && b in nodes && Linked(nodes, root, a, b)
    ensures Dist(nodes, root, a, b) == 1
  {
    if b != root && nodes[b].parent == a {
      assert HangsBelow(nodes, b);
      assert Meet(nodes, root, a, b) == Meet(nodes, root, a, a) == a;
    } else {
      assert HangsBelow(nodes, a);
      assert Meet(nodes, root, a, b) == Meet(nodes, root, b, b) == b;
    }
  }

  /** No walk along invitations is shorter than the distance. */
  lemma {:induction false} WalkAtLeastDist(nodes: Nodes, root: Id, walk: seq<Id>)
    requires Tree(nodes, root) && Walk(nodes, root, walk)
    ensures |walk| - 1 >= Dist(nodes, root, walk[0], walk[|walk| - 1])
    decreases |walk|
  {
    var last := walk[|walk| - 1];
    if |walk| == 1 {
      DistZero(nodes, root, last, last);
    } else {
      var front := walk[..|walk| - 1];
      WalkAtLeastDist(nodes, root, front);
      assert Linked(nodes, root, walk[|walk| - 2], last);
      LinkedIsOne(nodes, root, front[|front| - 1], last);
      DistTriangle(nodes, root, walk[0], front[|front| - 1], last);
    }
  }

  /** From y up to the community x above it. */
  function Climb(nodes: Nodes, root: Id, y: Id, x: Id): seq<Id>
    requires Tree(nodes, root) && y in nodes && Above(nodes, root, x, y)
    decreases nodes[y].depth
  {
    if x == y then [y] else [y] + Climb(nodes, root, nodes[y].parent, x)
  }

  lemma {:induction false} ClimbIsWalk(nodes: Nodes, root: Id, y: Id, x: Id)
    requires Tree(nodes, root) && y in nodes && Above(nodes, root, x, y)
    ensures x in nodes
    ensures var w := Climb(nodes, root, y, x);
      Walk(nodes, root, w) && w[0] == y && w[|w| - 1] == x && |w| - 1 == nodes[y].depth - nodes[x].depth
    decreases nodes[y].depth
  {
    if x != y {
      assert HangsBelow(nodes, y);
      ClimbIsWalk(nodes, root, nodes[y].parent, x);
      assert Linked(nodes, root, y, nodes[y].parent);
    }
  }

  function Reverse<T>(s: seq<T>): (r: seq<T>)
    ensures |r| == |s| && forall i :: 0 <= i < |s| ==> r[i] == s[|s| - 1 - i]
  {
    seq(|s|, i requires 0 <= i < |s| => s[|s| - 1 - i])
  }

  /** A walk of exactly that length exists: up to the meeting point and down again. */
  lemma ShortestWalkExists(nodes: Nodes, root: Id, a: Id, b: Id) returns (walk: seq<Id>)
    requires Tree(nodes, root) && a in nodes && b in nodes
    ensures Walk(nodes, root, walk) && walk[0] == a && walk[|walk| - 1] == b
    ensures |walk| - 1 == Dist(nodes, root, a, b)
  {
    hide Above, Tree, Meet, Climb;
    MeetIsLowest(nodes, root, a, b);
    var m := Meet(nodes, root, a, b);
    ClimbIsWalk(nodes, root, a, m);
    ClimbIsWalk(nodes, root, b, m);
    var up, down := Climb(nodes, root, a, m), Reverse(Climb(nodes, root, b, m));
    walk := up + down[1..];
    assert forall i :: |up| <= i < |walk| ==> walk[i] == down[i - |up| + 1];
    forall i | 0 < i < |walk| ensures Linked(nodes, root, walk[i - 1], walk[i]) {
      if i >= |up| {
        assert walk[i - 1] == down[i - |up|];
        var back := Climb(nodes, root, b, m);
        assert Linked(nodes, root, back[|back| - 2 - (i - |up|)], back[|back| - 1 - (i - |up|)]);
      }
    }
  }

  // --- the ancestor chain ---

  function PathTo(nodes: Nodes, root: Id, x: Id): (p: seq<Id>)
    requires Tree(nodes, root) && x in nodes
    ensures |p| == nodes[x].depth + 1
    decreases nodes[x].depth
  {
    assert x != root ==> HangsBelow(nodes, x);
    if x == root then [x] else PathTo(nodes, root, nodes[x].parent) + [x]
  }

  /** The community at depth i of the chain is the one at that depth above x. */
  lemma {:induction false} PathIsAbove(nodes: Nodes, root: Id, x: Id, i: nat)
    requires Tree(nodes, root) && x in nodes && i <= nodes[x].depth
    ensures var y := PathTo(nodes, root, x)[i]; Above(nodes, root, y, x) && y in nodes && nodes[y].depth == i
    decreases nodes[x].depth
  {
    if x != root && i < nodes[x].depth {
      assert HangsBelow(nodes, x);
      PathIsAbove(nodes, root, nodes[x].parent, i);
    }
  }

  lemma PathStep(nodes: Nodes, root: Id, at: Id, chain: seq<Id>)
    requires Tree(nodes, root) && at in nodes && nodes[at].depth != 0
    ensures nodes[at].parent in nodes && nodes[nodes[at].parent].depth < nodes[at].depth
    ensures PathTo(nodes, root, at) + Reverse(chain) == PathTo(nodes, root, nodes[at].parent) + Reverse(chain + [at])
  {
    assert HangsBelow(nodes, at);
    assert PathTo(nodes, root, at) == PathTo(nodes, root, nodes[at].parent) + [at];
    assert Reverse(chain + [at]) == [at] + Reverse(chain);
  }

  // --- growth ---

  function WithCommunity(nodes: Nodes, x: Id, parent: Id, bond: nat): Nodes
    requires parent in nodes
  {
    var p := nodes[parent];
    nodes[x := TreeNode(x, parent, p.depth + 1, [], bond)][parent := p.(children := p.children + [x])]
  }

  lemma GrowthKeepsTree(nodes: Nodes, root: Id, x: Id, parent: Id, bond: nat)
    requires Tree(nodes, root) && parent in nodes && x !in nodes
    ensures Tree(WithCommunity(nodes, x, parent, bond), root)
  {
    var nodes1 := WithCommunity(nodes, x, parent, bond);
    forall y | y in nodes1 && y != root ensures HangsBelow(nodes1, y) {
      if y != x {
        assert HangsBelow(nodes, y);
      }
    }
  }

  lemma NoChildYet(nodes: Nodes, root: Id, x: Id)
    requires Tree(nodes, root) && x !in nodes
    ensures forall c <- nodes :: c != root ==> nodes[c].parent != x
  {
    forall c | c in nodes && c != root ensures nodes[c].parent != x {
      assert HangsBelow(nodes, c);
    }
  }

  lemma GrowthChildrenAt(nodes: Nodes, root: Id, x: Id, parent: Id, bond: nat, p: Id)
    requires Tree(nodes, root) && parent in nodes && x !in nodes
    requires p == x || (p in nodes && ListsChildren(nodes, root, p))
    ensures ListsChildren(WithCommunity(nodes, x, parent, bond), root, p)
  {
    NoChildYet(nodes, root, x);
    var nodes1 := WithCommunity(nodes, x, parent, bond);
    var before := if p == x then [] else nodes[p].children;
    assert nodes1[p].children == if p == parent then before + [x] else before;
    assert x !in before;
    hide Tree;
    forall c ensures c in nodes1[p].children <==> c in nodes1 && c != root && nodes1[c].parent == p {
      assert c in nodes1[p].children <==> c in before || (p == parent && c == x);
    }
  }

  lemma GrowthKeepsChildren(nodes: Nodes, root: Id, x: Id, parent: Id, bond: nat)
    requires Tree(nodes, root) && ChildrenListed(nodes, root) && parent in nodes && x !in nodes
    ensures ChildrenListed(WithCommunity(nodes, x, parent, bond), root)
  {
    forall p | p in WithCommunity(nodes, x, parent, bond)
      ensures ListsChildren(WithCommunity(nodes, x, parent, bond), root, p)
    {
      GrowthChildrenAt(nodes, root, x, parent, bond, p);
    }
  }

  /** Two trees agree on everything the distance between old communities depends on. */
  ghost predicate SameShape(nodes: Nodes, nodes1: Nodes) {
    forall y <- nodes :: y in nodes1 && nodes1[y].parent == nodes[y].parent && nodes1[y].depth == nodes[y].depth
  }

  lemma ShapeItself(nodes: Nodes)
    ensures SameShape(nodes, nodes)
  {
  }

  lemma GrowthKeepsShape(nodes: Nodes, x: Id, parent: Id, bond: nat)
    requires parent in nodes && x !in nodes
    ensures SameShape(nodes, WithCommunity(nodes, x, parent, bond))
  {
  }

  /** Communities joining later never change where earlier ones meet or how far apart they are. */
  lemma {:induction false} MeetStable(nodes: Nodes, nodes1: Nodes, root: Id, a: Id, b: Id)
    requires Tree(nodes, root) && Tree(nodes1, root) && SameShape(nodes, nodes1) && a in nodes && b in nodes
    ensures Meet(nodes1, root, a, b) == Meet(nodes, root, a, b)
    ensures Dist(nodes1, root, a, b) == Dist(nodes, root, a, b)
    decreases nodes[a].depth + nodes[b].depth
  {
    assert a != root ==> HangsBelow(nodes, a);
    assert b != root ==> HangsBelow(nodes, b);
    if nodes[a].depth > nodes[b].depth {
      MeetStable(nodes, nodes1, root, nodes[a].parent, b);
    } else if nodes[b].depth > nodes[a].depth {
      MeetStable(nodes, nodes1, root, a, nodes[b].parent);
    } else if a != b {
      MeetStable(nodes, nodes1, root, nodes[a].parent, nodes[b].parent);
    }
  }

  // --- subtrees ---

  /** The order in which collectSubtree visits the communities below x; no depth exceeds `deepest`. */
  function Preorder(nodes: Nodes, root: Id, x: Id, deepest: nat): seq<Id>
    requires Tree(nodes, root) && ChildrenListed(nodes, root) && x in nodes && Deepest(nodes, deepest)
    decreases deepest - nodes[x].depth, 1, 0
  {
    assert ListsChildren(nodes, root, x);
    [x] + PreorderAll(nodes, root, x, nodes[x].children, deepest)
  }

  function PreorderAll(nodes: Nodes, root: Id, x: Id, some: seq<Id>, deepest: nat): seq<Id>
    requires Tree(nodes, root) && ChildrenListed(nodes, root) && x in nodes && Deepest(nodes, deepest)
    requires AreChildren(nodes, root, x, some)
    decreases deepest - nodes[x].depth, 0, |some|
  {
    if |some| == 0 then []
    else
      assert IsChild(nodes, root, x, some[0]);
      assert HangsBelow(nodes, some[0]);
      Preorder(nodes, root, some[0], deepest) + PreorderAll(nodes, root, x, some[1..], deepest)
  }

  ghost predicate Deepest(nodes: Nodes, deepest: nat) {
    forall y <- nodes :: nodes[y].depth <= deepest
  }

  ghost predicate IsChild(nodes: Nodes, root: Id, x: Id, c: Id) {
    c in nodes && c != root && nodes[c].parent == x
  }

  ghost predicate AreChildren(nodes: Nodes, root: Id, x: Id, some: seq<Id>) {
    forall i :: 0 <= i < |some| ==> IsChild(nodes, root, x, some[i])
  }

  /** Whatever lies strictly below x lies below exactly one child of x. */
  lemma {:induction false} BelowViaChild(nodes: Nodes, root: Id, x: Id, y: Id) returns (c: Id)
    requires Tree(nodes, root) && y in nodes && Above(nodes, root, x, y) && x != y
    ensures IsChild(nodes, root, x, c) && Above(nodes, root, c, y)
    decreases nodes[y].depth
  {
    assert HangsBelow(nodes, y);
    if nodes[y].parent == x {
      c := y;
    } else {
      c := BelowViaChild(nodes, root, x, nodes[y].parent);
    }
  }

  lemma ChildIsBelow(nodes: Nodes, root: Id, x: Id, c: Id, y: Id)
    requires Tree(nodes, root) && x in nodes && y in nodes && IsChild(nodes, root, x, c) && Above(nodes, root, c, y)
    ensures Above(nodes, root, x, y) && y != x
  {
    assert HangsBelow(nodes, c);
    assert Above(nodes, root, x, c);
    AboveTransitive(nodes, root, x, c, y);
    AboveIsShallower(nodes, root, c, y);
  }

  lemma ChildUnique(nodes: Nodes, root: Id, x: Id, c: Id, d: Id, y: Id)
    requires Tree(nodes, root) && y in nodes && IsChild(nodes, root, x, c) && IsChild(nodes, root, x, d)
    requires Above(nodes, root, c, y) && Above(nodes, root, d, y)
    ensures c == d
  {
    assert HangsBelow(nodes, c) && HangsBelow(nodes, d);
    AboveComparable(nodes, root, c, d, y);
    AboveIsShallower(nodes, root, c, d);
  }

  /** The subtree listing of x holds exactly the communities below x, each once. */
  lemma {:induction false} SubtreeExact(nodes: Nodes, root: Id, x: Id, deepest: nat)
    requires Tree(nodes, root) && ChildrenListed(nodes, root) && x in nodes && Deepest(nodes, deepest)
    ensures var p := Preorder(nodes, root, x, deepest);
      Distinct(p) && forall y :: y in p <==> y in nodes && Above(nodes, root, x, y)
    decreases deepest - nodes[x].depth, 1, 0
  {
    var children := nodes[x].children;
    assert ListsChildren(nodes, root, x);
    SubtreeAllExact(nodes, root, x, children, deepest);
    var below := PreorderAll(nodes, root, x, children, deepest);
    forall y ensures y in below <==> y in nodes && y != x && Above(nodes, root, x, y) {
      if y in below {
        var c :| c in children && Above(nodes, root, c, y);
        ChildIsBelow(nodes, root, x, c, y);
      }
      if y in nodes && y != x && Above(nodes, root, x, y) {
        var c := BelowViaChild(nodes, root, x, y);
        assert c in children;
      }
    }
    DistinctConcat([x], below);
  }

  lemma {:induction false} SubtreeAllExact(nodes: Nodes, root: Id, x: Id, some: seq<Id>, deepest: nat)
    requires Tree(nodes, root) && ChildrenListed(nodes, root) && x in nodes && Deepest(nodes, deepest)
    requires AreChildren(nodes, root, x, some) && Distinct(some)
    ensures var p := PreorderAll(nodes, root, x, some, deepest);
      Distinct(p) && forall y :: y in p <==> y in nodes && exists c :: c in some && Above(nodes, root, c, y)
    decreases deepest - nodes[x].depth, 0, |some|
  {
    if |some| > 0 {
      assert IsChild(nodes, root, x, some[0]);
      assert HangsBelow(nodes, some[0]);
      SubtreeExact(nodes, root, some[0], deepest);
      SubtreeAllExact(nodes, root, x, some[1..], deepest);
      var first, rest := Preorder(nodes, root, some[0], deepest), PreorderAll(nodes, root, x, some[1..], deepest);
      forall y | y in first ensures y !in rest {
        if y in rest {
          var c :| c in some[1..] && Above(nodes, root, c, y);
          var i :| 0 < i < |some| && some[i] == c;
          assert IsChild(nodes, root, x, some[i]);
          ChildUnique(nodes, root, x, some[0], c, y);
        }
      }
      DistinctConcat(first, rest);
      assert forall c :: c in some <==> c == some[0] || c in some[1..];
    }
  }

  lemma ListingStart(nodes: Nodes, root: Id, x: Id, deepest: nat)
    requires Tree(nodes, root) && ChildrenListed(nodes, root) && x in nodes && Deepest(nodes, deepest)
    ensures AreChildren(nodes, root, x, nodes[x].children)
    ensures Preorder(nodes, root, x, deepest) == [x] + PreorderAll(nodes, root, x, nodes[x].children[0..], deepest)
    ensures AreChildren(nodes, root, x, nodes[x].children[0..])
    ensures PreorderAll(nodes, root, x, [], deepest) == []
  {
    assert ListsChildren(nodes, root, x);
    assert nodes[x].children[0..] == nodes[x].children;
  }

  /** After the next child's subtree comes the listing of the children after it. */
  lemma ListingStep(nodes: Nodes, root: Id, x: Id, some: seq<Id>, i: nat, r: seq<Id>, deepest: nat)
    requires Tree(nodes, root) && ChildrenListed(nodes, root) && x in nodes && Deepest(nodes, deepest)
    requires AreChildren(nodes, root, x, some) && i < |some|
    ensures some[i] in nodes && nodes[x].depth < nodes[some[i]].depth <= deepest
    ensures AreChildren(nodes, root, x, some[i + 1..])
    ensures r + PreorderAll(nodes, root, x, some[i..], deepest)
         == (r + Preorder(nodes, root, some[i], deepest)) + PreorderAll(nodes, root, x, some[i + 1..], deepest)
  {
    assert IsChild(nodes, root, x, some[i]);
    assert HangsBelow(nodes, some[i]);
    assert some[i..][1..] == some[i + 1..];
  }

  // --- the tree as an object ---

  class GenesisTree {
    const root: Id
    var nodes: Nodes

    ghost predicate Valid()
      reads this
    {
      Tree(nodes, root) && ChildrenListed(nodes, root)
    }

    constructor (root: Id)
      ensures Valid() && this.root == root && nodes.Keys == {root} && nodes[root].bond == 0
    {
      this.root := root;
      nodes := map[root := TreeNode(root, 0, 0, [], 0)];
    }

    method AddCommunity(x: Id, parent: Id, bond: nat) returns (ok: bool)
      requires Valid()
      modifies this
      ensures Valid()
      ensures ok <==> parent in old(nodes) && x !in old(nodes)
      ensures nodes == if ok then WithCommunity(old(nodes), x, parent, bond) else old(nodes)
      ensures ok ==>
        && nodes.Keys == old(nodes).Keys + {x}
        && nodes[x] == TreeNode(x, parent, old(nodes)[parent].depth + 1, [], bond)
        && nodes[parent] == old(nodes)[parent].(children := old(nodes)[parent].children + [x])
        && forall y <- old(nodes) :: y != parent ==> nodes[y] == old(nodes)[y]
      ensures SameShape(old(nodes), nodes)
    {
      if parent !in nodes {
        ShapeItself(nodes);
        return false;
      }
      if x in nodes {
        ShapeItself(nodes);
        return false;
      }
      GrowthKeepsTree(nodes, root, x, parent, bond);
      GrowthKeepsChildren(nodes, root, x, parent, bond);
      GrowthKeepsShape(nodes, x, parent, bond);
      hide Tree, ChildrenListed, SameShape;
      nodes := WithCommunity(nodes, x, parent, bond);
      return true;
    }

    /** The climb never leaves the tree and ends at the deepest common ancestor. */
    method LCA(a: Id, b: Id) returns (r: Option<Id>)
      requires Valid()
      ensures r.Some? <==> a in nodes && b in nodes
      ensures r.Some? ==>
        && r.value == Meet(nodes, root, a, b)
        && Above(nodes, root, r.value, a) && Above(nodes, root, r.value, b)
        && forall z <- nodes :: Above(nodes, root, z, a) && Above(nodes, root, z, b) ==>
          nodes[z].depth <= nodes[r.value].depth
    {
      if a !in nodes || b !in nodes {
        return None;
      }
      MeetIsLowest(nodes, root, a, b);
      forall z | z in nodes && Above(nodes, root, z, a) && Above(nodes, root, z, b)
        ensures nodes[z].depth <= nodes[Meet(nodes, root, a, b)].depth
      {
        CommonAboveMeet(nodes, root, z, a, b);
      }
      var x, y := a, b;
      while nodes[x].depth > nodes[y].depth
        invariant x in nodes && Meet(nodes, root, x, y) == Meet(nodes, root, a, b)
        decreases nodes[x].depth
      {
        assert HangsBelow(nodes, x);
        x := nodes[x].parent;
      }
      while nodes[y].depth > nodes[x].depth
        invariant y in nodes && nodes[x].depth <= nodes[y].depth && Meet(nodes, root, x, y) == Meet(nodes, root, a, b)
        decreases nodes[y].depth
      {
        assert HangsBelow(nodes, y);
        y := nodes[y].parent;
      }
      while x != y
        invariant x in nodes && y in nodes && nodes[x].depth == nodes[y].depth
        invariant Meet(nodes, root, x, y) == Meet(nodes, root, a, b)
        decreases nodes[x].depth
      {
        assert HangsBelow(nodes, x) && HangsBelow(nodes, y);
        x, y := nodes[x].parent, nodes[y].parent;
      }
      return Some(x);
    }

    method Distance(a: Id, b: Id) returns (r: Option<int>)
      requires Valid()
      ensures r.Some? <==> a in nodes && b in nodes
      ensures r.Some? ==> r.value == Dist(nodes, root, a, b)
    {
      var m := LCA(a, b);
      if m.None? {
        return None;
      }
      return Some(nodes[a].depth + nodes[b].depth - 2 * nodes[m.value].depth);
    }

    method AncestorChain(x: Id) returns (chain: seq<Id>)
      requires Valid()
      ensures chain == if x in nodes then PathTo(nodes, root, x) else []
    {
      chain := [];
      if x !in nodes {
        return;
      }
      var at := x;
      while nodes[at].depth != 0
        invariant at in nodes
        invariant PathTo(nodes, root, x) == PathTo(nodes, root, at) + Reverse(chain)
        decreases nodes[at].depth
      {
        PathStep(nodes, root, at, chain);
        chain := chain + [at];
        at := nodes[at].parent;
      }
      assert PathTo(nodes, root, at) == [at];
      chain := chain + [at];
      assert PathTo(nodes, root, x) == Reverse(chain);
      chain := ReverseInPlace(chain);
    }

    static method ReverseInPlace(s: seq<Id>) returns (r: seq<Id>)
      ensures r == Reverse(s)
    {
      r := s;
      var i, j := 0, |s| - 1;
      while i < j
        invariant |r| == |s| && 0 <= i && i + j == |s| - 1 && i <= j + 1
        invariant forall k :: i <= k <= j ==> r[k] == s[k]
        invariant forall k :: 0 <= k < i ==> r[k] == s[i + j - k]
        invariant forall k :: j < k < |s| ==> r[k] == s[i + j - k]
      {
        ghost var before := r;
        r := r[i := r[j]][j := r[i]];
        assert r[i] == before[j] && r[j] == before[i];
        i, j := i + 1, j - 1;
      }
    }

    method CollectSubtree(x: Id, result: seq<Id>, ghost deepest: nat) returns (r: seq<Id>)
      requires Valid() && Deepest(nodes, deepest)
      ensures r == result + if x in nodes then Preorder(nodes, root, x, deepest) else []
      decreases if x in nodes then deepest - nodes[x].depth + 1 else 0
    {
      if x !in nodes {
        return result;
      }
      ListingStart(nodes, root, x, deepest);
      hide Tree, ChildrenListed, Preorder, PreorderAll, Deepest, AreChildren;
      r := result + [x];
      var children := nodes[x].children;
      ghost var whole := result + Preorder(nodes, root, x, deepest);
      for i := 0 to |children|
        invariant AreChildren(nodes, root, x, children[i..])
        invariant r + PreorderAll(nodes, root, x, children[i..], deepest) == whole
      {
        ListingStep(nodes, root, x, children, i, r, deepest);
        r := CollectSubtree(children[i], r, deepest);
      }
    }

    method SubtreeCommunities(x: Id) returns (r: seq<Id>)
      requires Valid()
      ensures Distinct(r)
      ensures forall y :: y in r <==> x in nodes && y in nodes && Above(nodes, root, x, y)
    {
      ghost var deepest := SomeDepthBound(nodes);
      r := CollectSubtree(x, [], deepest);
      if x in nodes {
        SubtreeExact(nodes, root, x, deepest);
      }
    }
  }

  lemma {:induction false} SomeDepthBound(nodes: Nodes) returns (deepest: nat)
    ensures Deepest(nodes, deepest)
    decreases |nodes|
  {
    if |nodes| == 0 {
      return 0;
    }
    var y :| y in nodes;
    deepest := SomeDepthBound(nodes - {y});
    if deepest < nodes[y].depth {
      deepest := nodes[y].depth;
    }
    assert forall z <- nodes :: z == y || z in nodes - {y};
  }
}
