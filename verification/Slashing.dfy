/**
Punishing a whole community (x/vrg/slashing.go): its bond is forfeited, bonds along its
chain of inviters are charged, and its active trust edges (x/vrg/namespace.go) are severed.
*/
module Slashing {
  import opened Common
  import opened Sums
  import opened Topology

  // --- trust edges ---

  datatype Status = Proposed | Active | Frozen | Severed

  datatype Edge = Edge(partyA: Id, partyB: Id, bondA: nat, bondB: nat, status: Status)

  /** Only the first eight bytes of each party and the second of the proposal go into an edge's name. */
  datatype EdgeId = EdgeId(a: nat, b: nat, at: int)

  type Edges = map<EdgeId, Edge>
  type Index = map<Id, seq<EdgeId>>

  predicate Touches(e: Edge, c: Id) {
    e.partyA == c || e.partyB == c
  }

  predicate Joins(e: Edge, a: Id, b: Id) {
    (e.partyA == a && e.partyB == b) || (e.partyA == b && e.partyB == a)
  }

  predicate Lists(index: Index, c: Id, id: EdgeId) {
    c in index && id in index[c]
  }

  ghost predicate IndexComplete(edges: Edges, index: Index) {
    forall id <- edges :: Lists(index, edges[id].partyA, id) && Lists(index, edges[id].partyB, id)
  }

  function SeveredBy(e: Edge, c: Id): Edge {
    if c == e.partyA then e.(status := Severed, bondA := 0) else e.(status := Severed, bondB := 0)
  }

  predicate MustSever(e: Edge, c: Id) {
    e.status == Active && Touches(e, c)
  }

  /** From e to e1 the edge was severed; the violator lost its whole stake and the other side kept its own. */
  predicate TakesStake(e: Edge, e1: Edge, violator: Id, taken: nat) {
    && e1.status == Severed && e1.partyA == e.partyA && e1.partyB == e.partyB
    && if violator == e.partyA then taken == e.bondA && e1.bondA == 0 && e1.bondB == e.bondB
       else violator == e.partyB && taken == e.bondB && e1.bondA == e.bondA && e1.bondB == 0
  }

  /** From e to e1: an active edge of c is severed, c lost its stake and the other side kept its own; others stay. */
  predicate FairlySevered(e: Edge, e1: Edge, c: Id) {
    if e.status != Active || (e.partyA != c && e.partyB != c) then e1 == e
    else
      && e1.status == Severed && e1.partyA == e.partyA && e1.partyB == e.partyB
      && e1.bondA == (if e.partyA == c then 0 else e.bondA)
      && e1.bondB == (if e.partyA != c then 0 else e.bondB)
  }

  lemma AllFairlySevered(edges: Edges, c: Id)
    ensures forall id <- edges :: id in SeverAll(edges, c) && FairlySevered(edges[id], SeverAll(edges, c)[id], c)
  {
  }

  function SeverAll(edges: Edges, c: Id): Edges {
    map id <- edges :: if MustSever(edges[id], c) then SeveredBy(edges[id], c) else edges[id]
  }

  function Listed(index: Index, c: Id): seq<EdgeId> {
    if c in index then index[c] else []
  }

  datatype EdgeOp =
    | Propose(a: Id, b: Id, bondA: nat, bondB: nat, at: int)
    | Activate(id: EdgeId)
    | Freeze(id: EdgeId)
    | Thaw(id: EdgeId)
    | Sever(id: EdgeId, violator: Id)

  predicate Allowed(edges: Edges, op: EdgeOp) {
    match op
    case Propose(a, b, _, _, _) => forall id <- edges :: Joins(edges[id], a, b) ==> edges[id].status != Active
    case Activate(id) => id in edges && edges[id].status == Proposed && edges[id].bondA > 0 && edges[id].bondB > 0
    case Freeze(id) => id in edges && edges[id].status == Active
    case Thaw(id) => id in edges && edges[id].status == Frozen
    case Sever(id, violator) => id in edges && edges[id].status in {Active, Frozen} && Touches(edges[id], violator)
  }

  /** What each operation makes of the edges; one that is not allowed changes nothing. */
  function Apply(edges: Edges, op: EdgeOp, short: Id -> nat): Edges {
    if !Allowed(edges, op) then edges
    else
      match op
      case Propose(a, b, bondA, bondB, at) =>
        edges[EdgeId(short(a), short(b), at) := Edge(a, b, bondA, bondB, Proposed)]
      case Activate(id) => edges[id := edges[id].(status := Active)]
      case Freeze(id) => edges[id := edges[id].(status := Frozen)]
      case Thaw(id) => edges[id := edges[id].(status := Active)]
      case Sever(id, violator) => edges[id := SeveredBy(edges[id], violator)]
  }

  class TrustEdgeManager {
    const short: Id -> nat
    var edges: Edges
    var byParty: Index

    ghost predicate Valid()
      reads this
    {
      IndexComplete(edges, byParty)
    }

    constructor (short: Id -> nat)
      ensures Valid() && this.short == short && edges == map[] && byParty == map[]
    {
      this.short := short;
      edges := map[];
      byParty := map[];
    }

    /**
    Names can clash: a later proposal then takes the place of the earlier edge, and the index still covers
    every edge.
    */
    method ProposeEdge(a: Id, b: Id, bondA: nat, bondB: nat, now: int) returns (ok: bool)
      requires Valid()
      modifies this
      ensures Valid()
      ensures ok <==> Allowed(old(edges), Propose(a, b, bondA, bondB, now))
      ensures edges == Apply(old(edges), Propose(a, b, bondA, bondB, now), short)
      ensures ok <==> forall id <- old(edges) :: Joins(old(edges)[id], a, b) ==> old(edges)[id].status != Active
      ensures ok ==> edges == old(edges)[EdgeId(short(a), short(b), now) := Edge(a, b, bondA, bondB, Proposed)]
      ensures !ok ==> edges == old(edges)
    {
      if exists id <- edges :: edges[id].status == Active && Joins(edges[id], a, b) {
        return false;
      }
      var id := EdgeId(short(a), short(b), now);
      edges := edges[id := Edge(a, b, bondA, bondB, Proposed)];
      byParty := byParty[a := Listed(byParty, a) + [id]];
      byParty := byParty[b := Listed(byParty, b) + [id]];
      return true;
    }

    method ActivateEdge(id: EdgeId) returns (ok: bool)
      requires Valid()
      modifies this`edges
      ensures Valid()
      ensures ok <==> Allowed(old(edges), Activate(id))
      ensures edges == Apply(old(edges), Activate(id), short)
      ensures ok <==>
        && id in old(edges) && old(edges)[id].status == Proposed
        && old(edges)[id].bondA > 0 && old(edges)[id].bondB > 0
      ensures edges == if ok then old(edges)[id := old(edges)[id].(status := Active)] else old(edges)
    {
      if id !in edges || edges[id].status != Proposed || edges[id].bondA == 0 || edges[id].bondB == 0 {
        return false;
      }
      edges := edges[id := edges[id].(status := Active)];
      return true;
    }

    method FreezeEdge(id: EdgeId) returns (ok: bool)
      requires Valid()
      modifies this`edges
      ensures Valid()
      ensures ok <==> Allowed(old(edges), Freeze(id))
      ensures edges == Apply(old(edges), Freeze(id), short)
      ensures ok <==> id in old(edges) && old(edges)[id].status == Active
      ensures edges == if ok then old(edges)[id := old(edges)[id].(status := Frozen)] else old(edges)
    {
      if id !in edges || edges[id].status != Active {
        return false;
      }
      edges := edges[id := edges[id].(status := Frozen)];
      return true;
    }

    method ThawEdge(id: EdgeId) returns (ok: bool)
      requires Valid()
      modifies this`edges
      ensures Valid()
      ensures ok <==> Allowed(old(edges), Thaw(id))
      ensures edges == Apply(old(edges), Thaw(id), short)
      ensures ok <==> id in old(edges) && old(edges)[id].status == Frozen
      ensures edges == if ok then old(edges)[id := old(edges)[id].(status := Active)] else old(edges)
    {
      if id !in edges || edges[id].status != Frozen {
        return false;
      }
      edges := edges[id := edges[id].(status := Active)];
      return true;
    }

    /** The violating side loses its stake in the edge; the other side keeps its own. */
    method SeverEdge(id: EdgeId, violator: Id) returns (taken: Option<nat>)
      requires Valid()
      modifies this`edges
      ensures Valid()
      ensures taken.Some? <==> Allowed(old(edges), Sever(id, violator))
      ensures taken.Some? <==>
        && id in old(edges) && old(edges)[id].status in {Active, Frozen}
        && (old(edges)[id].partyA == violator || old(edges)[id].partyB == violator)
      ensures edges == Apply(old(edges), Sever(id, violator), short)
      ensures taken.Some? ==> TakesStake(old(edges)[id], edges[id], violator, taken.value)
    {
      if id !in edges || (edges[id].status != Active && edges[id].status != Frozen) {
        return None;
      }
      var e := edges[id];
      if violator == e.partyA {
        taken := Some(e.bondA);
        e := e.(bondA := 0);
      } else if violator == e.partyB {
        taken := Some(e.bondB);
        e := e.(bondB := 0);
      } else {
        return None;
      }
      edges := edges[id := e.(status := Severed)];
    }
  }

  /** Since `before`, exactly the edges in `severed` were severed on behalf of c. */
  ghost predicate Severing(before: Edges, edges: Edges, c: Id, severed: seq<EdgeId>) {
    && edges.Keys == before.Keys
    && Distinct(severed)
    && (forall id <- edges :: edges[id] == if id in severed then SeveredBy(before[id], c) else before[id])
    && (forall i :: 0 <= i < |severed| ==> severed[i] in before && MustSever(before[severed[i]], c))
  }

  lemma SeverOne(before: Edges, edges: Edges, c: Id, severed: seq<EdgeId>, id: EdgeId)
    requires Severing(before, edges, c, severed) && id in edges && MustSever(edges[id], c)
    ensures id !in severed
    ensures Severing(before, edges[id := SeveredBy(edges[id], c)], c, severed + [id])
  {
  }

  lemma SeveringDone(before: Edges, edges: Edges, c: Id, severed: seq<EdgeId>, index: Index)
    requires Severing(before, edges, c, severed) && IndexComplete(edges, index)
    requires forall i :: 0 <= i < |Listed(index, c)| && Listed(index, c)[i] in edges ==>
      !MustSever(edges[Listed(index, c)[i]], c)
    ensures edges == SeverAll(before, c)
    ensures forall id <- edges :: Touches(edges[id], c) ==> edges[id].status != Active
    ensures forall id :: id in severed <==> id in before && MustSever(before[id], c)
  {
    forall id | id in before && MustSever(before[id], c) ensures id in severed {
      assert Touches(edges[id], c);
      assert Lists(index, c, id);
      var i :| 0 <= i < |Listed(index, c)| && Listed(index, c)[i] == id;
    }
  }

  // --- bonds ---

  /** What level 1, 2 or 3 forfeits of a bond; any rounding will do, as the result is capped by the bond. */
  type Share = (nat, nat) -> nat

  function Forfeit(share: Share, level: nat, bond: nat): (f: nat)
    ensures f <= bond && f <= share(level, bond) && (f == bond || f == share(level, bond))
  {
    if share(level, bond) > bond then bond else share(level, bond)
  }

  ghost function Bonds(nodes: Nodes): map<Id, int> {
    map x <- nodes :: nodes[x].bond
  }

  ghost function TotalBonds(nodes: Nodes): int {
    Sum(Bonds(nodes))
  }

  function WithBond(nodes: Nodes, x: Id, bond: nat): Nodes
    requires x in nodes
  {
    nodes[x := nodes[x].(bond := bond)]
  }

  lemma BondKeepsTree(nodes: Nodes, root: Id, x: Id, bond: nat)
    requires Tree(nodes, root) && ChildrenListed(nodes, root) && x in nodes
    ensures Tree(WithBond(nodes, x, bond), root) && ChildrenListed(WithBond(nodes, x, bond), root)
  {
    var nodes1 := WithBond(nodes, x, bond);
    forall y | y in nodes1 && y != root ensures HangsBelow(nodes1, y) {
      assert HangsBelow(nodes, y);
    }
    forall p | p in nodes1 ensures ListsChildren(nodes1, root, p) {
      assert ListsChildren(nodes, root, p);
    }
  }

  lemma BondChangesTotal(nodes: Nodes, x: Id, bond: nat)
    requires x in nodes
    ensures TotalBonds(WithBond(nodes, x, bond)) == TotalBonds(nodes) - nodes[x].bond + bond
  {
    SumUpdate(Bonds(nodes), x, bond);
    assert Bonds(WithBond(nodes, x, bond)) == Bonds(nodes)[x := bond];
  }

  function ChargeOne(nodes: Nodes, y: Id, level: nat, share: Share): Nodes
    requires y in nodes
  {
    WithBond(nodes, y, nodes[y].bond - Forfeit(share, level, nodes[y].bond))
  }

  ghost predicate ChainIn(nodes: Nodes, chain: seq<Id>) {
    forall i :: 0 <= i < |chain| ==> chain[i] in nodes
  }

  /** Charge the chain from position `level` on, up to position 3. */
  function Charge(nodes: Nodes, chain: seq<Id>, level: nat, share: Share): (r: Nodes)
    requires ChainIn(nodes, chain)
    ensures r.Keys == nodes.Keys
    decreases |chain| - level
  {
    if level >= |chain| || level > 3 then nodes
    else Charge(ChargeOne(nodes, chain[level], level, share), chain, level + 1, share)
  }

  lemma ChargeStep(nodes: Nodes, root: Id, chain: seq<Id>, level: nat, share: Share)
    requires Tree(nodes, root) && ChildrenListed(nodes, root) && ChainIn(nodes, chain) && level < |chain| && level <= 3
    ensures var nodes1 := ChargeOne(nodes, chain[level], level, share);
      && Tree(nodes1, root) && ChildrenListed(nodes1, root) && ChainIn(nodes1, chain)
      && Charge(nodes, chain, level, share) == Charge(nodes1, chain, level + 1, share)
      && TotalBonds(nodes1) == TotalBonds(nodes) - Forfeit(share, level, nodes[chain[level]].bond)
  {
    hide Tree, ChildrenListed, TotalBonds, Forfeit;
    var y := chain[level];
    var left := nodes[y].bond - Forfeit(share, level, nodes[y].bond);
    BondKeepsTree(nodes, root, y, left);
    BondChangesTotal(nodes, y, left);
    assert ChargeOne(nodes, y, level, share) == WithBond(nodes, y, left);
  }

  lemma ChargeEnd(nodes: Nodes, chain: seq<Id>, level: nat, share: Share)
    requires ChainIn(nodes, chain) && (level >= |chain| || level > 3)
    ensures Charge(nodes, chain, level, share) == nodes
  {
  }

  lemma ChainInTree(nodes: Nodes, root: Id, c: Id)
    requires Tree(nodes, root) && c in nodes
    ensures ChainIn(nodes, PathTo(nodes, root, c))
  {
    forall i | 0 <= i < |PathTo(nodes, root, c)| ensures PathTo(nodes, root, c)[i] in nodes {
      PathIsAbove(nodes, root, c, i);
    }
  }

  function Slashed(nodes: Nodes, root: Id, c: Id, share: Share): (r: Nodes)
    requires Tree(nodes, root) && ChildrenListed(nodes, root) && c in nodes
    ensures r.Keys == nodes.Keys
  {
    BondKeepsTree(nodes, root, c, 0);
    var cleared := WithBond(nodes, c, 0);
    ChainInTree(cleared, root, c);
    Charge(cleared, PathTo(cleared, root, c), 1, share)
  }

  /** Each position of the chain is charged at most once, with its position as the level. */
  lemma {:induction false} ChargedAt(nodes: Nodes, chain: seq<Id>, level: nat, share: Share, y: Id)
    requires ChainIn(nodes, chain) && Distinct(chain) && y in nodes
    ensures y in Charge(nodes, chain, level, share)
    ensures forall i :: level <= i < |chain| && i <= 3 && chain[i] == y ==>
      Charge(nodes, chain, level, share)[y].bond == nodes[y].bond - Forfeit(share, i, nodes[y].bond)
    ensures (forall i :: level <= i < |chain| && i <= 3 ==> chain[i] != y) ==>
      Charge(nodes, chain, level, share)[y] == nodes[y]
    decreases |chain| - level
  {
    if level < |chain| && level <= 3 {
      ChargedAt(ChargeOne(nodes, chain[level], level, share), chain, level + 1, share, y);
    }
  }

  lemma ChainDistinct(nodes: Nodes, root: Id, c: Id)
    requires Tree(nodes, root) && c in nodes
    ensures Distinct(PathTo(nodes, root, c))
  {
    var chain := PathTo(nodes, root, c);
    forall i, j | 0 <= i < j < |chain| ensures chain[i] != chain[j] {
      PathIsAbove(nodes, root, c, i);
      PathIsAbove(nodes, root, c, j);
    }
  }

  /** y stands on the chain of c exactly at the position given by its own depth. */
  lemma {:induction false} ChainPosition(nodes: Nodes, root: Id, c: Id, y: Id)
    requires Tree(nodes, root) && c in nodes && Above(nodes, root, y, c)
    ensures y in nodes && nodes[y].depth <= nodes[c].depth && PathTo(nodes, root, c)[nodes[y].depth] == y
    decreases nodes[c].depth
  {
    AboveIsShallower(nodes, root, y, c);
    if y != c {
      assert HangsBelow(nodes, c);
      ChainPosition(nodes, root, nodes[c].parent, y);
    } else if c != root {
      assert HangsBelow(nodes, c);
    }
  }

  /** What slashing c leaves community y with: the charge depends on the depth of y, not on how far above c it is. */
  ghost function BondAfter(nodes: Nodes, root: Id, c: Id, share: Share, y: Id): nat
    requires Tree(nodes, root) && c in nodes && y in nodes
  {
    if y == c then 0
    else if y != root && nodes[y].depth <= 3 && Above(nodes, root, y, c) then
      nodes[y].bond - Forfeit(share, nodes[y].depth, nodes[y].bond)
    else nodes[y].bond
  }

  lemma SlashedBonds(nodes: Nodes, root: Id, c: Id, share: Share, y: Id)
    requires Tree(nodes, root) && ChildrenListed(nodes, root) && c in nodes && y in nodes
    ensures y in Slashed(nodes, root, c, share)
    ensures Slashed(nodes, root, c, share)[y].bond == BondAfter(nodes, root, c, share, y)
  {
    hide Tree, ChildrenListed, Charge, PathTo, Above;
    BondKeepsTree(nodes, root, c, 0);
    var cleared := WithBond(nodes, c, 0);
    AboveSurvives(nodes, root, c, 0, y, c);
    SlashedFrom(cleared, root, c, share, y);
  }

  lemma SlashedFrom(cleared: Nodes, root: Id, c: Id, share: Share, y: Id)
    requires Tree(cleared, root) && c in cleared && y in cleared && cleared[c].bond == 0
    ensures ChainIn(cleared, PathTo(cleared, root, c))
    ensures y in Charge(cleared, PathTo(cleared, root, c), 1, share)
    ensures Charge(cleared, PathTo(cleared, root, c), 1, share)[y].bond == BondAfter(cleared, root, c, share, y)
  {
    var chain := PathTo(cleared, root, c);
    ChainInTree(cleared, root, c);
    ChainDistinct(cleared, root, c);
    ChargedAt(cleared, chain, 1, share, y);
    if Above(cleared, root, y, c) {
      ChainPosition(cleared, root, c, y);
      var d := cleared[y].depth;
      assert d < |chain| && chain[d] == y;
      forall i | 1 <= i < |chain| && i <= 3 && i != d ensures chain[i] != y {
        assert chain[i] != chain[d];
      }
    } else {
      forall i | 0 <= i < |chain| ensures chain[i] != y {
        PathIsAbove(cleared, root, c, i);
      }
    }
  }

  lemma {:induction false} AboveSurvives(nodes: Nodes, root: Id, x: Id, bond: nat, y: Id, z: Id)
    requires Tree(nodes, root) && ChildrenListed(nodes, root) && x in nodes && z in nodes
    ensures Tree(WithBond(nodes, x, bond), root)
    ensures Above(WithBond(nodes, x, bond), root, y, z) <==> Above(nodes, root, y, z)
    decreases nodes[z].depth
  {
    BondKeepsTree(nodes, root, x, bond);
    if z != root {
      assert HangsBelow(nodes, z);
      AboveSurvives(nodes, root, x, bond, y, nodes[z].parent);
    }
  }

  // --- promised and charged rates ---

  function Rate(level: int): nat {
    if level == 1 then 30 else if level == 2 then 15 else 5
  }

  function Percent(level: nat, bond: nat): nat {
    Rate(level) * bond / 100
  }

  /**
  The documented charge: by distance above the slashed community. Beyond the third level the
  documentation gives both 5 percent and nothing; `far` stands for either.
  */
  ghost function PromisedBond(nodes: Nodes, root: Id, c: Id, far: nat, y: Id): int
    requires Tree(nodes, root) && c in nodes && y in nodes
  {
    var above := nodes[c].depth - nodes[y].depth;
    if y == c then 0
    else if !Above(nodes, root, y, c) then nodes[y].bond
    else nodes[y].bond - (if above <= 3 then Rate(above) else far) * nodes[y].bond / 100
  }

  lemma RatesDiffer(bond: nat)
    requires bond >= 4
    ensures 30 * bond / 100 > 15 * bond / 100 >= 5 * bond / 100
  {
  }

  lemma ShallowAsPromised(nodes: Nodes, root: Id, c: Id, far: nat, y: Id)
    requires Tree(nodes, root) && c in nodes && y in nodes && nodes[root].bond == 0 && nodes[c].depth <= 2
    ensures BondAfter(nodes, root, c, Percent, y) == PromisedBond(nodes, root, c, far, y)
  {
    if y != c && Above(nodes, root, y, c) {
      AboveIsShallower(nodes, root, y, c);
      if y != root {
        assert nodes[y].depth == 1 && nodes[c].depth == 2;
        assert BondAfter(nodes, root, c, Percent, y) == nodes[y].bond - 30 * nodes[y].bond / 100;
      }
    }
  }

  lemma DeepNotAsPromised(nodes: Nodes, root: Id, c: Id, far: nat) returns (y: Id)
    requires Tree(nodes, root) && c in nodes && far in {0, 5} && nodes[c].depth > 2
    requires forall y <- nodes :: y != root && y != c && Above(nodes, root, y, c) ==> nodes[y].bond >= 4
    ensures y in nodes && BondAfter(nodes, root, c, Percent, y) < PromisedBond(nodes, root, c, far, y)
  {
    y := PathTo(nodes, root, c)[1];
    PathIsAbove(nodes, root, c, 1);
    RatesDiffer(nodes[y].bond);
    hide PathTo, Above, Tree;
    var bond := nodes[y].bond;
    assert BondAfter(nodes, root, c, Percent, y) == bond - 30 * bond / 100;
    var above := nodes[c].depth - 1;
    assert PromisedBond(nodes, root, c, far, y) == bond - (if above <= 3 then Rate(above) else far) * bond / 100;
  }

  /** What is charged in fact: 30, 15 or 5 percent at depth 1, 2 or 3 below the root, and nothing deeper. */
  lemma ChargedByDepth(nodes: Nodes, root: Id, c: Id, y: Id)
    requires Tree(nodes, root) && c in nodes && y in nodes && y != c && Above(nodes, root, y, c)
    ensures var bond, d := nodes[y].bond, nodes[y].depth;
      BondAfter(nodes, root, c, Percent, y) ==
        if d == 1 then bond - 30 * bond / 100 else if d == 2 then bond - 15 * bond / 100
        else if d == 3 then bond - 5 * bond / 100 else bond
  {
  }

  /**
  The charges are the documented ones exactly for communities at most two invitations below
  the root. (The root stakes nothing; bonds under 4 are too small to tell the rates apart.)
  */
  lemma ChargedAsPromisedExactly(nodes: Nodes, root: Id, c: Id, far: nat)
    requires Tree(nodes, root) && c in nodes && far in {0, 5}
    requires nodes[root].bond == 0
    requires forall y <- nodes :: y != root && y != c && Above(nodes, root, y, c) ==> nodes[y].bond >= 4
    ensures (forall y <- nodes :: BondAfter(nodes, root, c, Percent, y) == PromisedBond(nodes, root, c, far, y))
       <==> nodes[c].depth <= 2
  {
    if nodes[c].depth <= 2 {
      forall y | y in nodes ensures BondAfter(nodes, root, c, Percent, y) == PromisedBond(nodes, root, c, far, y) {
        ShallowAsPromised(nodes, root, c, far, y);
      }
    } else {
      var y := DeepNotAsPromised(nodes, root, c, far);
    }
  }

  // --- the manager ---

  datatype SlashRecord = SlashRecord(community: Id, forfeited: nat, ancestryForfeited: nat, severed: seq<EdgeId>)

  class SlashingManager {
    const topology: GenesisTree
    const diplomacy: TrustEdgeManager
    const share: Share
    var records: seq<SlashRecord>
    var blacklist: set<Id>
    var totalForfeited: nat

    ghost predicate Valid()
      reads this, topology, diplomacy
    {
      topology.Valid() && diplomacy.Valid()
    }

    constructor (topology: GenesisTree, diplomacy: TrustEdgeManager, share: Share)
      requires topology.Valid() && diplomacy.Valid()
      ensures Valid() && this.topology == topology && this.diplomacy == diplomacy && this.share == share
      ensures records == [] && blacklist == {} && totalForfeited == 0
    {
      this.topology := topology;
      this.diplomacy := diplomacy;
      this.share := share;
      records, blacklist, totalForfeited := [], {}, 0;
    }

    /** Sever the listed edges of `party` that are active and involve c. */
    method SeverListed(c: Id, party: Id, ghost before: Edges, severed: seq<EdgeId>) returns (r: seq<EdgeId>)
      requires diplomacy.Valid() && Severing(before, diplomacy.edges, c, severed)
      modifies diplomacy`edges
      ensures diplomacy.Valid() && Severing(before, diplomacy.edges, c, r)
      ensures var ids := Listed(diplomacy.byParty, party);
        forall i :: 0 <= i < |ids| && ids[i] in diplomacy.edges ==> !MustSever(diplomacy.edges[ids[i]], c)
    {
      hide TakesStake, IndexComplete;
      r := severed;
      var ids := Listed(diplomacy.byParty, party);
      for i := 0 to |ids|
        invariant diplomacy.Valid() && Severing(before, diplomacy.edges, c, r)
        invariant forall j :: 0 <= j < i && ids[j] in diplomacy.edges ==> !MustSever(diplomacy.edges[ids[j]], c)
      {
        if ids[i] in diplomacy.edges && diplomacy.edges[ids[i]].status == Active {
          ghost var edges := diplomacy.edges;
          var taken := diplomacy.SeverEdge(ids[i], c);
          if taken.Some? {
            SeverOne(before, edges, c, r, ids[i]);
            r := r + [ids[i]];
          }
        }
      }
    }

    /** The chain runs from the root down, so position 1 is the root's child and position 0 is skipped. */
    method SlashAncestry(c: Id, ghost before: Edges) returns (total: nat, severed: seq<EdgeId>, ghost taken: nat)
      requires Valid() && c in topology.nodes && before == diplomacy.edges
      modifies topology, diplomacy`edges
      ensures Valid() && Severing(before, diplomacy.edges, c, severed)
      ensures ChainIn(old(topology.nodes), PathTo(old(topology.nodes), topology.root, c))
      ensures topology.nodes == Charge(old(topology.nodes), PathTo(old(topology.nodes), topology.root, c), 1, share)
      ensures TotalBonds(topology.nodes) == TotalBonds(old(topology.nodes)) - taken && total == taken % UINT64_RANGE
    {
      hide Tree, ChildrenListed, IndexComplete, Charge, TotalBonds, PathTo, Forfeit, Severing;
      SeveringStart(before, c);
      var chain := topology.AncestorChain(c);
      ChainInTree(topology.nodes, topology.root, c);
      total, severed, taken := 0, [], 0;
      ghost var nodes0 := topology.nodes;
      var level := 1;
      while level < |chain| && level <= 3
        invariant 1 <= level && Valid() && Severing(before, diplomacy.edges, c, severed)
        invariant ChainIn(topology.nodes, chain)
        invariant Charge(topology.nodes, chain, level, share) == Charge(nodes0, chain, 1, share)
        invariant TotalBonds(topology.nodes) == TotalBonds(nodes0) - taken && total == taken % UINT64_RANGE
        decreases |chain| - level
      {
        var node := topology.nodes[chain[level]];
        var forfeit := Forfeit(share, level, node.bond);
        ChargeStep(topology.nodes, topology.root, chain, level, share);
        topology.nodes := WithBond(topology.nodes, chain[level], node.bond - forfeit);
        WrapAdd(taken, forfeit);
        total, taken := (total + forfeit) % UINT64_RANGE, taken + forfeit;
        severed := SeverListed(c, chain[level], before, severed);
        level := level + 1;
      }
      ChargeEnd(topology.nodes, chain, level, share);
    }

    /**
    Refused for blacklisted or unknown communities. Otherwise the bonds fall by exactly the reported total (up to
    64-bit wrap-around), and exactly the active edges of the community are severed: frozen ones stay as they are.
    */
    method SlashCommunity(c: Id) returns (total: Option<nat>)
      requires Valid()
      modifies this, topology, diplomacy`edges
      ensures Valid()
      ensures total.Some? <==> c !in old(blacklist) && c in old(topology.nodes)
      ensures blacklist == if total.Some? then old(blacklist) + {c} else old(blacklist)
      ensures topology.nodes ==
        if total.Some? then Slashed(old(topology.nodes), topology.root, c, share) else old(topology.nodes)
      ensures diplomacy.edges == if total.Some? then SeverAll(old(diplomacy.edges), c) else old(diplomacy.edges)
      ensures total.Some? ==>
        forall id <- diplomacy.edges :: Touches(diplomacy.edges[id], c) ==> diplomacy.edges[id].status != Active
      ensures total.Some? ==>
        forall id <- old(diplomacy.edges) :: id in diplomacy.edges && FairlySevered(old(diplomacy.edges)[id],
                                                                                    diplomacy.edges[id], c)
      ensures total.Some? ==>
        && total.value == (TotalBonds(old(topology.nodes)) - TotalBonds(topology.nodes)) % UINT64_RANGE
        && totalForfeited == (old(totalForfeited) + total.value) % UINT64_RANGE
        && |records| == |old(records)| + 1 && records[..|old(records)|] == old(records)
        && RecordsSlash(records[|old(records)|], c, old(topology.nodes), old(diplomacy.edges), total.value)
      ensures total.None? ==> records == old(records) && totalForfeited == old(totalForfeited)
    {
      hide Tree, ChildrenListed, IndexComplete, TotalBonds, Charge, SeverAll, PathTo, Severing, RecordsSlash;
      if c in blacklist {
        return None;
      }
      if c !in topology.nodes {
        return None;
      }
      ghost var nodes0, edges0 := topology.nodes, diplomacy.edges;
      var own := topology.nodes[c].bond;
      BondKeepsTree(topology.nodes, topology.root, c, 0);
      BondChangesTotal(topology.nodes, c, 0);
      topology.nodes := WithBond(topology.nodes, c, 0);
      var ancestry, severed, taken := SlashAncestry(c, edges0);
      severed := SeverListed(c, c, edges0, severed);
      SeveringDone(edges0, diplomacy.edges, c, severed, diplomacy.byParty);
      SeveringDistinct(edges0, diplomacy.edges, c, severed);
      AllFairlySevered(edges0, c);
      WrapAdd(taken, own);
      RecordIs(SlashRecord(c, own, ancestry, severed), c, nodes0, edges0);
      blacklist := blacklist + {c};
      records := records + [SlashRecord(c, own, ancestry, severed)];
      var sum := (own + ancestry) % UINT64_RANGE;
      totalForfeited := (totalForfeited + sum) % UINT64_RANGE;
      return Some(sum);
    }
  }

  ghost predicate RecordsSlash(r: SlashRecord, c: Id, nodes: Nodes, edges: Edges, total: nat) {
    && r.community == c && c in nodes && r.forfeited == nodes[c].bond
    && total == (r.forfeited + r.ancestryForfeited) % UINT64_RANGE
    && Distinct(r.severed) && forall id :: id in r.severed <==> id in edges && MustSever(edges[id], c)
  }

  lemma RecordIs(r: SlashRecord, c: Id, nodes: Nodes, edges: Edges)
    requires r.community == c && c in nodes && r.forfeited == nodes[c].bond && Distinct(r.severed)
    requires forall id :: id in r.severed <==> id in edges && MustSever(edges[id], c)
    ensures RecordsSlash(r, c, nodes, edges, (r.forfeited + r.ancestryForfeited) % UINT64_RANGE)
  {
  }

  lemma SeveringStart(edges: Edges, c: Id)
    ensures Severing(edges, edges, c, [])
  {
  }

  lemma SeveringDistinct(before: Edges, edges: Edges, c: Id, severed: seq<EdgeId>)
    requires Severing(before, edges, c, severed)
    ensures Distinct(severed)
  {
  }

  /** As long as all bonds together fit in 64 bits, slashing moves bonds into the reported total without loss. */
  lemma SlashConserves(nodes: Nodes, root: Id, c: Id, share: Share, total: nat)
    requires Tree(nodes, root) && ChildrenListed(nodes, root) && c in nodes && TotalBonds(nodes) < UINT64_RANGE
    requires total == (TotalBonds(nodes) - TotalBonds(Slashed(nodes, root, c, share))) % UINT64_RANGE
    ensures TotalBonds(Slashed(nodes, root, c, share)) + total == TotalBonds(nodes)
  {
    hide Tree, ChildrenListed, Slashed;
    var nodes1 := Slashed(nodes, root, c, share);
    forall y | y in nodes ensures nodes1[y].bond <= nodes[y].bond {
      SlashedBonds(nodes, root, c, share, y);
    }
    SumMonotone(Bonds(nodes1), Bonds(nodes));
    SumNonNegative(Bonds(nodes1));
  }

  lemma {:induction false} SumMonotone<K>(m: map<K, int>, n: map<K, int>)
    requires m.Keys == n.Keys && forall k <- m :: m[k] <= n[k]
    ensures Sum(m) <= Sum(n)
    decreases |m|
  {
    if |m| > 0 {
      var k := SomeKey(m);
      SumRemove(n, k);
      assert (m - {k}).Keys == (n - {k}).Keys;
      SumMonotone(m - {k}, n - {k});
    } else {
      assert |n.Keys| == |m.Keys|;
    }
  }
}
