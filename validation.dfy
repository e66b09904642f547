/** Node-list validation of the shortest-path engine (ValidateNodes,
    CheckNeighborNodes, AddEdge): the first violation met in input order is
    reported; a list passes exactly when it is well formed and holds the
    primary id. */
module NodeValidation {
  import opened Common
  import opened Graph

  /** Reciprocal edge pairs declare equal costs. */
  predicate ReciprocalCostsAgree(nodes: seq<Node>)
  {
    forall i, j, a, b ::
      0 <= i < |nodes| && 0 <= j < |nodes| &&
      0 <= a < |nodes[i].neighbors| && 0 <= b < |nodes[j].neighbors| &&
      nodes[i].neighbors[a].nodeId == nodes[j].id && nodes[j].neighbors[b].nodeId == nodes[i].id
      ==> nodes[i].neighbors[a].cost == nodes[j].neighbors[b].cost
  }

  /** The node-list invariants the engine enforces. */
  predicate WellFormed(nodes: seq<Node>)
  {
    && (forall i :: 0 <= i < |nodes| ==> !IsBlank(nodes[i].id))
    && Distinct(Ids(nodes))
    && (forall i :: 0 <= i < |nodes| ==> Distinct(NeighborIds(nodes[i].neighbors)))
    && ReciprocalCostsAgree(nodes)
  }

  /** The first violation among the neighbours of `node` from position k on,
      given the nodes `prior` that precede it. */
  function NeighborError(prior: seq<Node>, node: Node, k: nat): Option<Error>
    requires k <= |node.neighbors|
    decreases |node.neighbors| - k
  {
    if k == |node.neighbors| then None
    else
      var nb := node.neighbors[k];
      if nb.nodeId in NeighborIds(node.neighbors[..k]) then Some(DuplicateNeighborId(nb.nodeId))
      else if EdgeCost(prior, nb.nodeId, node.id).Some? && EdgeCost(prior, nb.nodeId, node.id).value != nb.cost
      then Some(UnmatchingEdgeCosts)
      else NeighborError(prior, node, k + 1)
  }

  /** The first violation of the node at position i. */
  function NodeError(prior: seq<Node>, node: Node, i: nat): Option<Error>
  {
    if IsBlank(node.id) then Some(BlankId(i))
    else if node.id in Ids(prior) then Some(DuplicateNodeId(node.id))
    else NeighborError(prior, node, 0)
  }

  /** The first violation of any node from position i on. */
  function FirstNodeError(nodes: seq<Node>, i: nat): Option<Error>
    requires i <= |nodes|
    decreases |nodes| - i
  {
    if i == |nodes| then None
    else match NodeError(nodes[..i], nodes[i], i)
      case Some(e) => Some(e)
      case None => FirstNodeError(nodes, i + 1)
  }

  /** Reference definition of what ValidateNodes reports. */
  function Validation(nodes: seq<Node>, primaryNodeId: string): Outcome
  {
    match FirstNodeError(nodes, 0)
    case Some(e) => Fail(e)
    case None => if primaryNodeId in Ids(nodes) then Pass else Fail(NotFound(primaryNodeId))
  }

  // ---------------------------------------------------------------------
  // The implementation: a hash set of ids and the nested edge dictionary.

  /** edges[to][from] is the cost `from` declared for its edge to `to`. */
  type EdgeDictionary = map<string, map<string, int>>

  ghost predicate EdgesMatch(edges: EdgeDictionary, prior: seq<Node>)
  {
    && (forall t, f :: t in edges && f in edges[t] ==> EdgeCost(prior, f, t) == Some(edges[t][f]))
    && (forall t, f :: EdgeCost(prior, f, t).Some? ==> t in edges && f in edges[t])
  }

  /** Records the edge nodeId -> neighbor.nodeId; Dictionary.Add demands that
      the key is new. */
  function AddEdge(edges: EdgeDictionary, neighbor: Neighbor, nodeId: string): (r: EdgeDictionary)
    requires !(neighbor.nodeId in edges && nodeId in edges[neighbor.nodeId])
    ensures neighbor.nodeId in r && nodeId in r[neighbor.nodeId] && r[neighbor.nodeId][nodeId] == neighbor.cost
    ensures forall t, f :: t in edges && f in edges[t] ==> t in r && f in r[t] && r[t][f] == edges[t][f]
    ensures forall t, f :: t in r && f in r[t] ==> (t in edges && f in edges[t]) || (t == neighbor.nodeId && f == nodeId)
  {
    var inner := if neighbor.nodeId in edges then edges[neighbor.nodeId] else map[];
    edges[neighbor.nodeId := inner[nodeId := neighbor.cost]]
  }

  lemma {:induction false} CostToAppend(nbs: seq<Neighbor>, x: Neighbor, t: string)
    ensures CostTo(nbs + [x], t) == if CostTo(nbs, t).Some? then CostTo(nbs, t) else if x.nodeId == t then Some(x.cost) else None
  {
    if |nbs| > 0 {
      assert (nbs + [x])[1..] == nbs[1..] + [x];
      CostToAppend(nbs[1..], x, t);
    }
  }

  lemma {:induction false} EdgeCostAppend(prior: seq<Node>, x: Node, f: string, t: string)
    ensures EdgeCost(prior + [x], f, t) ==
      if f in Ids(prior) then EdgeCost(prior, f, t) else if x.id == f then CostTo(x.neighbors, t) else None
  {
    if |prior| > 0 {
      assert (prior + [x])[1..] == prior[1..] + [x];
      assert Ids(prior[1..]) == Ids(prior)[1..];
      EdgeCostAppend(prior[1..], x, f, t);
    }
  }

  lemma EdgeCostAbsent(prior: seq<Node>, f: string, t: string)
    ensures f !in Ids(prior) ==> EdgeCost(prior, f, t).None?
  {
    if EdgeCost(prior, f, t).Some? {
      var i, k := EdgeCostSome(prior, f, t);
      assert Ids(prior)[i] == f;
    }
  }

  /** Checks the neighbours of `node` against the edges recorded for the
      nodes before it, and records its own edges. */
  method CheckNeighborNodes(edges: EdgeDictionary, node: Node, ghost prior: seq<Node>)
    returns (edges': EdgeDictionary, o: Outcome)
    requires EdgesMatch(edges, prior)
    requires node.id !in Ids(prior)
    ensures o == match NeighborError(prior, node, 0) case None => Pass case Some(e) => Fail(e)
    ensures o.Pass? ==> EdgesMatch(edges', prior + [node])
  {
    var nbs := node.neighbors;
    var neighborNodeIds: set<string> := {};
    edges' := edges;
    assert nbs[..0] == [];
    assert prior + [Node(node.id, [])] == prior + [Node(node.id, nbs[..0])];
    EdgesAfterEmptyNode(edges, prior, node.id);
    for k := 0 to |nbs|
      invariant neighborNodeIds == set a | 0 <= a < k :: nbs[a].nodeId
      invariant NeighborError(prior, node, 0) == NeighborError(prior, node, k)
      invariant EdgesMatch(edges', prior + [Node(node.id, nbs[..k])])
    {
      var nb := nbs[k];
      var partial := Node(node.id, nbs[..k]);
      if nb.nodeId in neighborNodeIds {
        assert nb.nodeId in NeighborIds(nbs[..k]) by {
          var a :| 0 <= a < k && nbs[a].nodeId == nb.nodeId;
          assert NeighborIds(nbs[..k])[a] == nb.nodeId;
        }
        return edges', Fail(DuplicateNeighborId(nb.nodeId));
      }
      assert nb.nodeId !in NeighborIds(nbs[..k]);
      LookupMatchesPrior(edges', prior, node.id, nbs[..k], nb.nodeId);
      if node.id in edges' && nb.nodeId in edges'[node.id] && edges'[node.id][nb.nodeId] != nb.cost {
        return edges', Fail(UnmatchingEdgeCosts);
      }
      AddedEdgeIsNew(edges', prior, node.id, nbs[..k], nb.nodeId);
      var next := AddEdge(edges', nb, node.id);
      assert nbs[..k + 1] == nbs[..k] + [nb];
      EdgesAfterAdd(edges', next, prior, node.id, nbs[..k], nb);
      edges' := next;
      neighborNodeIds := neighborNodeIds + {nb.nodeId};
    }
    assert nbs[..|nbs|] == nbs;
    o := Pass;
  }

  lemma EdgesAfterEmptyNode(edges: EdgeDictionary, prior: seq<Node>, id: string)
    requires EdgesMatch(edges, prior)
    ensures EdgesMatch(edges, prior + [Node(id, [])])
  {
    forall f, t ensures EdgeCost(prior + [Node(id, [])], f, t) == EdgeCost(prior, f, t) {
      EdgeCostAppend(prior, Node(id, []), f, t);
      if f !in Ids(prior) { EdgeCostAbsent(prior, f, t); }
    }
  }

  /** The dictionary lookup edges[id][m] sees exactly the cost the earlier
      node m declared toward `id`. */
  lemma LookupMatchesPrior(edges: EdgeDictionary, prior: seq<Node>, id: string, done: seq<Neighbor>, m: string)
    requires EdgesMatch(edges, prior + [Node(id, done)])
    requires id !in Ids(prior) && m !in NeighborIds(done)
    ensures (id in edges && m in edges[id]) <==> EdgeCost(prior, m, id).Some?
    ensures id in edges && m in edges[id] ==> edges[id][m] == EdgeCost(prior, m, id).value
  {
    EdgeCostAppend(prior, Node(id, done), m, id);
    if m !in Ids(prior) {
      EdgeCostAbsent(prior, m, id);
      if m == id { CostToNone(done, id); }
    }
  }

  lemma AddedEdgeIsNew(edges: EdgeDictionary, prior: seq<Node>, id: string, done: seq<Neighbor>, m: string)
    requires EdgesMatch(edges, prior + [Node(id, done)])
    requires id !in Ids(prior) && m !in NeighborIds(done)
    ensures !(m in edges && id in edges[m])
  {
    EdgeCostAppend(prior, Node(id, done), id, m);
    CostToNone(done, m);
  }

  lemma EdgesAfterAdd(edges: EdgeDictionary, next: EdgeDictionary, prior: seq<Node>, id: string, done: seq<Neighbor>, nb: Neighbor)
    requires EdgesMatch(edges, prior + [Node(id, done)])
    requires id !in Ids(prior) && nb.nodeId !in NeighborIds(done)
    requires !(nb.nodeId in edges && id in edges[nb.nodeId])
    requires next == AddEdge(edges, nb, id)
    ensures EdgesMatch(next, prior + [Node(id, done + [nb])])
  {
    forall f, t
      ensures EdgeCost(prior + [Node(id, done + [nb])], f, t) ==
        if f == id && t == nb.nodeId then Some(nb.cost) else EdgeCost(prior + [Node(id, done)], f, t)
    {
      EdgeCostAppend(prior, Node(id, done + [nb]), f, t);
      EdgeCostAppend(prior, Node(id, done), f, t);
      CostToAppend(done, nb, t);
      if f == id && t == nb.nodeId { CostToNone(done, t); }
    }
  }

  /** ValidateNodes: the first violation in input order, else a missing
      primary id, else Pass. */
  method ValidateNodes(nodes: seq<Node>, primaryNodeId: string) returns (o: Outcome)
    ensures o == Validation(nodes, primaryNodeId)
  {
    var nodeIds: set<string> := {};
    var edgesToCheck: EdgeDictionary := map[];
    var foundPrimaryNodeId := false;
    for i := 0 to |nodes|
      invariant nodeIds == set j | 0 <= j < i :: nodes[j].id
      invariant FirstNodeError(nodes, 0) == FirstNodeError(nodes, i)
      invariant EdgesMatch(edgesToCheck, nodes[..i])
      invariant foundPrimaryNodeId == (primaryNodeId in Ids(nodes[..i]))
    {
      var node := nodes[i];
      assert Ids(nodes[..i]) == Ids(nodes)[..i];
      if IsBlank(node.id) {
        return Fail(BlankId(i));
      }
      if node.id in nodeIds {
        assert node.id in Ids(nodes[..i]) by {
          var j :| 0 <= j < i && nodes[j].id == node.id;
          assert Ids(nodes[..i])[j] == node.id;
        }
        return Fail(DuplicateNodeId(node.id));
      }
      assert node.id !in Ids(nodes[..i]);
      nodeIds := nodeIds + {node.id};
      var r;
      edgesToCheck, r := CheckNeighborNodes(edgesToCheck, node, nodes[..i]);
      if r.Fail? {
        return r;
      }
      assert nodes[..i + 1] == nodes[..i] + [node];
      assert Ids(nodes[..i + 1]) == Ids(nodes[..i]) + [node.id];
      foundPrimaryNodeId := foundPrimaryNodeId || primaryNodeId == node.id;
    }
    assert nodes[..|nodes|] == nodes;
    if !foundPrimaryNodeId {
      return Fail(NotFound(primaryNodeId));
    }
    o := Pass;
  }
}

/** What the reference validation means: it passes exactly on well-formed
    node lists that hold the primary id, and each error names a real
    violation. */
module ValidationProperties {
  import opened Common
  import opened Graph
  import opened NodeValidation

  /** The cost the earlier nodes declared toward `node` agrees with the
      neighbour entry a of `node`. */
  predicate Consistent(prior: seq<Node>, node: Node, a: nat)
    requires a < |node.neighbors|
  {
    var back := EdgeCost(prior, node.neighbors[a].nodeId, node.id);
    back.None? || back.value == node.neighbors[a].cost
  }

  lemma {:induction false} NeighborScan(prior: seq<Node>, node: Node, k: nat)
    requires k <= |node.neighbors|
    requires Distinct(NeighborIds(node.neighbors[..k]))
    requires forall a :: 0 <= a < k ==> Consistent(prior, node, a)
    ensures NeighborError(prior, node, k).None? <==>
      Distinct(NeighborIds(node.neighbors)) && forall a :: 0 <= a < |node.neighbors| ==> Consistent(prior, node, a)
    decreases |node.neighbors| - k
  {
    var nbs := node.neighbors;
    if k == |nbs| {
      assert nbs[..k] == nbs;
    } else {
      var nb := nbs[k];
      if nb.nodeId in NeighborIds(nbs[..k]) {
        var a :| 0 <= a < k && NeighborIds(nbs[..k])[a] == nb.nodeId;
        assert NeighborIds(nbs)[a] == NeighborIds(nbs)[k];
      } else if !Consistent(prior, node, k) {
      } else {
        assert NeighborIds(nbs[..k + 1]) == NeighborIds(nbs[..k]) + [nb.nodeId];
        NeighborScan(prior, node, k + 1);
      }
    }
  }

  lemma WellFormedPrefix(nodes: seq<Node>, i: nat)
    requires i <= |nodes| && WellFormed(nodes)
    ensures WellFormed(nodes[..i])
  {
    var p := nodes[..i];
    assert Ids(p) == Ids(nodes)[..i];
    forall x, y, a, b |
      0 <= x < |p| && 0 <= y < |p| && 0 <= a < |p[x].neighbors| && 0 <= b < |p[y].neighbors| &&
      p[x].neighbors[a].nodeId == p[y].id && p[y].neighbors[b].nodeId == p[x].id
      ensures p[x].neighbors[a].cost == p[y].neighbors[b].cost
    {
      assert nodes[x] == p[x] && nodes[y] == p[y];
    }
  }

  /** Appending one node to a well-formed list keeps it well formed exactly
      when the node passes the per-node checks. */
  lemma WellFormedSnoc(prior: seq<Node>, x: Node)
    requires WellFormed(prior)
    ensures WellFormed(prior + [x]) <==>
      && !IsBlank(x.id) && x.id !in Ids(prior)
      && Distinct(NeighborIds(x.neighbors))
      && forall a :: 0 <= a < |x.neighbors| ==> Consistent(prior, x, a)
  {
    var s := prior + [x];
    var n := |prior|;
    assert Ids(s) == Ids(prior) + [x.id];
    if WellFormed(s) {
      forall j | 0 <= j < n ensures Ids(prior)[j] != x.id {
        assert Ids(s)[j] == Ids(prior)[j] && Ids(s)[n] == x.id;
      }
      forall a | 0 <= a < |x.neighbors| ensures Consistent(prior, x, a) {
        var back := EdgeCost(prior, x.neighbors[a].nodeId, x.id);
        if back.Some? {
          var j, b := EdgeCostSome(prior, x.neighbors[a].nodeId, x.id);
          assert s[j] == prior[j] && s[n] == x;
          assert s[n].neighbors[a].nodeId == s[j].id && s[j].neighbors[b].nodeId == s[n].id;
        }
      }
    }
    if && !IsBlank(x.id) && x.id !in Ids(prior)
       && Distinct(NeighborIds(x.neighbors))
       && forall a :: 0 <= a < |x.neighbors| ==> Consistent(prior, x, a)
    {
      forall i | 0 <= i < |s| ensures !IsBlank(s[i].id) && Distinct(NeighborIds(s[i].neighbors)) {
        if i < n { assert s[i] == prior[i]; }
      }
      forall i, j | 0 <= i < j < |s| ensures Ids(s)[i] != Ids(s)[j] {
        if j == n { assert Ids(prior)[i] == Ids(s)[i]; }
      }
      forall i, j, a, b |
        0 <= i < |s| && 0 <= j < |s| && 0 <= a < |s[i].neighbors| && 0 <= b < |s[j].neighbors| &&
        s[i].neighbors[a].nodeId == s[j].id && s[j].neighbors[b].nodeId == s[i].id
        ensures s[i].neighbors[a].cost == s[j].neighbors[b].cost
      {
        if i < n && j < n {
          assert s[i] == prior[i] && s[j] == prior[j];
        } else if i == n && j == n {
          assert NeighborIds(x.neighbors)[a] == NeighborIds(x.neighbors)[b];
        } else if i == n {
          ReciprocalFromPrior(prior, x, j, a, b);
        } else {
          ReciprocalFromPrior(prior, x, i, b, a);
        }
      }
    }
  }

  lemma ReciprocalFromPrior(prior: seq<Node>, x: Node, j: nat, a: nat, b: nat)
    requires WellFormed(prior)
    requires j < |prior| && a < |x.neighbors| && b < |prior[j].neighbors|
    requires x.neighbors[a].nodeId == prior[j].id && prior[j].neighbors[b].nodeId == x.id
    requires Consistent(prior, x, a)
    ensures x.neighbors[a].cost == prior[j].neighbors[b].cost
  {
    EdgeCostOfNode(prior, j, x.id);
    CostToAt(prior[j].neighbors, b);
  }

  lemma NodeErrorNone(prior: seq<Node>, x: Node, i: nat)
    requires WellFormed(prior)
    ensures NodeError(prior, x, i).None? <==> WellFormed(prior + [x])
  {
    WellFormedSnoc(prior, x);
    if !IsBlank(x.id) && x.id !in Ids(prior) {
      assert x.neighbors[..0] == [];
      NeighborScan(prior, x, 0);
    }
  }

  lemma {:induction false} FirstScan(nodes: seq<Node>, i: nat)
    requires i <= |nodes| && WellFormed(nodes[..i])
    ensures FirstNodeError(nodes, i).None? <==> WellFormed(nodes)
    decreases |nodes| - i
  {
    if i == |nodes| {
      assert nodes[..i] == nodes;
    } else {
      NodeErrorNone(nodes[..i], nodes[i], i);
      assert nodes[..i + 1] == nodes[..i] + [nodes[i]];
      if WellFormed(nodes[..i + 1]) {
        FirstScan(nodes, i + 1);
      } else if WellFormed(nodes) {
        WellFormedPrefix(nodes, i + 1);
      }
    }
  }

  /** Every edge of the list costs 1, as in a graph converted from a maze. */
  predicate UnitCosts(nodes: seq<Node>)
  {
    forall i, k :: 0 <= i < |nodes| && 0 <= k < |nodes[i].neighbors| ==> nodes[i].neighbors[k].cost == 1
  }

  /** With unit costs no reverse edge can disagree, so the only neighbour
      error left is a repeated neighbour id. */
  lemma {:induction false} UnitNeighborError(prior: seq<Node>, node: Node, k: nat)
    requires k <= |node.neighbors| && UnitCosts(prior) && UnitCosts([node])
    ensures NeighborError(prior, node, k).None? || NeighborError(prior, node, k).value.DuplicateNeighborId?
    decreases |node.neighbors| - k
  {
    if k < |node.neighbors| {
      var nb := node.neighbors[k];
      assert [node][0] == node;
      if EdgeCost(prior, nb.nodeId, node.id).Some? {
        var j, b := EdgeCostSome(prior, nb.nodeId, node.id);
      }
      UnitNeighborError(prior, node, k + 1);
    }
  }

  /** With non-blank distinct ids and unit costs, the scan from node i on
      finds nothing or a repeated neighbour id. */
  lemma {:induction false} UnitFirstNodeError(nodes: seq<Node>, i: nat)
    requires i <= |nodes| && UnitCosts(nodes) && Distinct(Ids(nodes))
    requires forall j :: 0 <= j < |nodes| ==> !IsBlank(nodes[j].id)
    ensures FirstNodeError(nodes, i).None? || FirstNodeError(nodes, i).value.DuplicateNeighborId?
    decreases |nodes| - i
  {
    if i < |nodes| {
      var prior := nodes[..i];
      assert nodes[i].id !in Ids(prior) by {
        forall j | 0 <= j < i
          ensures Ids(prior)[j] != nodes[i].id
        {
          assert Ids(prior)[j] == Ids(nodes)[j] && Ids(nodes)[i] == nodes[i].id;
        }
      }
      assert forall j :: 0 <= j < |prior| ==> prior[j] == nodes[j];
      UnitNeighborError(prior, nodes[i], 0);
      UnitFirstNodeError(nodes, i + 1);
    }
  }

  /** What validation reports on a list with non-blank distinct ids and unit
      costs: a repeated neighbour id when the list is not well formed, else
      a missing primary id or nothing. */
  lemma UnitValidation(nodes: seq<Node>, primaryNodeId: string)
    requires UnitCosts(nodes) && Distinct(Ids(nodes))
    requires forall j :: 0 <= j < |nodes| ==> !IsBlank(nodes[j].id)
    ensures !WellFormed(nodes) ==>
      Validation(nodes, primaryNodeId).Fail? && Validation(nodes, primaryNodeId).error.DuplicateNeighborId?
    ensures WellFormed(nodes) && primaryNodeId !in Ids(nodes) ==>
      Validation(nodes, primaryNodeId) == Fail(NotFound(primaryNodeId))
  {
    assert nodes[..0] == [];
    FirstScan(nodes, 0);
    UnitFirstNodeError(nodes, 0);
  }

  /** Validation passes exactly on well-formed lists holding the primary id. */
  lemma ValidationPassIff(nodes: seq<Node>, primaryNodeId: string)
    ensures Validation(nodes, primaryNodeId) == Pass <==> WellFormed(nodes) && primaryNodeId in Ids(nodes)
  {
    assert nodes[..0] == [];
    FirstScan(nodes, 0);
  }
}
