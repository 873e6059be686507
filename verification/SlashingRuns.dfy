/**
What becomes of a slashed community's trust edges: exactly when one of them can be active
again, in runs of the trust edge operations (x/vrg/namespace.go) after the slashing
(x/vrg/slashing.go).
*/
module SlashingRuns {
  import opened Topology
  import opened Slashing

  function Run(edges: Edges, ops: seq<EdgeOp>, short: Id -> nat): Edges
    decreases |ops|
  {
    if |ops| == 0 then edges else Run(Apply(edges, ops[0], short), ops[1..], short)
  }

  ghost predicate NoneActive(edges: Edges, c: Id) {
    forall id <- edges :: Touches(edges[id], c) ==> edges[id].status != Active
  }

  /** Nobody proposes a new edge with c. */
  ghost predicate NoProposal(ops: seq<EdgeOp>, c: Id) {
    forall op <- ops :: op.Propose? ==> op.a != c && op.b != c
  }

  /** Frozen, or proposed with both stakes paid. */
  predicate CanBecomeActive(e: Edge) {
    e.status == Frozen || (e.status == Proposed && e.bondA > 0 && e.bondB > 0)
  }

  ghost predicate Lifeless(edges: Edges, c: Id) {
    forall id <- edges :: Touches(edges[id], c) ==> edges[id].status != Active && !CanBecomeActive(edges[id])
  }

  lemma OpKeepsLifeless(edges: Edges, op: EdgeOp, short: Id -> nat, c: Id)
    requires Lifeless(edges, c) && (op.Propose? ==> op.a != c && op.b != c)
    ensures Lifeless(Apply(edges, op, short), c)
  {
  }

  lemma {:induction false} RunKeepsLifeless(edges: Edges, ops: seq<EdgeOp>, short: Id -> nat, c: Id)
    requires Lifeless(edges, c) && NoProposal(ops, c)
    ensures Lifeless(Run(edges, ops, short), c)
    decreases |ops|
  {
    hide Lifeless, Apply;
    if |ops| > 0 {
      OpKeepsLifeless(edges, ops[0], short, c);
      RunKeepsLifeless(Apply(edges, ops[0], short), ops[1..], short, c);
    }
  }

  lemma RunOne(edges: Edges, op: EdgeOp, short: Id -> nat)
    ensures Run(edges, [op], short) == Apply(edges, op, short)
  {
    assert Run(Apply(edges, op, short), [], short) == Apply(edges, op, short);
  }

  /** One operation makes such an edge active. */
  lemma BecomesActive(edges: Edges, short: Id -> nat, c: Id, id: EdgeId) returns (op: EdgeOp)
    requires id in edges && Touches(edges[id], c) && CanBecomeActive(edges[id])
    ensures !op.Propose? && !NoneActive(Apply(edges, op, short), c)
  {
    op := if edges[id].status == Frozen then Thaw(id) else Activate(id);
    var edges1 := Apply(edges, op, short);
    assert id in edges1 && Touches(edges1[id], c) && edges1[id].status == Active;
  }

  /**
  Once c was slashed no edge of c is active after any run without a new proposal to or from
  c, exactly if none of its edges was frozen or proposed with both stakes paid.
  */
  lemma CutOffExactly(edges: Edges, short: Id -> nat, c: Id)
    ensures (forall ops :: NoProposal(ops, c) ==> NoneActive(Run(SeverAll(edges, c), ops, short), c))
       <==> forall id <- edges :: Touches(edges[id], c) ==> !CanBecomeActive(edges[id])
  {
    var severed := SeverAll(edges, c);
    if forall id <- edges :: Touches(edges[id], c) ==> !CanBecomeActive(edges[id]) {
      forall ops | NoProposal(ops, c) ensures NoneActive(Run(severed, ops, short), c) {
        RunKeepsLifeless(severed, ops, short, c);
      }
    } else {
      var id :| id in edges && Touches(edges[id], c) && CanBecomeActive(edges[id]);
      assert severed[id] == edges[id];
      var op := BecomesActive(severed, short, c, id);
      RunOne(severed, op, short);
      assert NoProposal([op], c);
    }
  }

  /** A new proposal makes an edge of c active whatever its edges were: the blacklist is not consulted. */
  lemma ProposalReturns(edges: Edges, short: Id -> nat, c: Id, other: Id, now: int)
    ensures var ops := [Propose(c, other, 1, 1, now), Activate(EdgeId(short(c), short(other), now))];
      !NoneActive(Run(SeverAll(edges, c), ops, short), c)
  {
    var id := EdgeId(short(c), short(other), now);
    var ops := [Propose(c, other, 1, 1, now), Activate(id)];
    assert ops[1..] == [Activate(id)];
    var severed := SeverAll(edges, c);
    assert NoneActive(severed, c);
    assert Allowed(severed, ops[0]);
    var edges1 := Apply(severed, ops[0], short);
    RunOne(edges1, Activate(id), short);
    var edges2 := Apply(edges1, Activate(id), short);
    assert id in edges2 && Touches(edges2[id], c) && edges2[id].status == Active;
  }

  /** The same with the managers themselves: a community that was just slashed is trusted again. */
  method SlashedAndTrusted(slashing: SlashingManager, c: Id, other: Id, now: int) returns (id: EdgeId)
    requires slashing.Valid() && c !in slashing.blacklist && c in slashing.topology.nodes
    modifies slashing, slashing.topology, slashing.diplomacy
    ensures c in slashing.blacklist
    ensures id in slashing.diplomacy.edges && slashing.diplomacy.edges[id] == Edge(c, other, 1, 1, Active)
  {
    var total := slashing.SlashCommunity(c);
    var trust := slashing.diplomacy;
    id := EdgeId(trust.short(c), trust.short(other), now);
    var proposed := trust.ProposeEdge(c, other, 1, 1, now);
    var activated := trust.ActivateEdge(id);
  }
}
