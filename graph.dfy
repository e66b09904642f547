/** The graph model the shortest-path engine works on: nodes with declared,
    weighted, outgoing neighbour edges, and the fastest-path table it builds. */
module Graph {
  import opened Common

  /** A declared edge to the node `nodeId`. */
  datatype Neighbor = Neighbor(nodeId: string, cost: int)

  /** A vertex and its declared neighbours, in declaration order. */
  datatype Node = Node(id: string, neighbors: seq<Neighbor>)

  /** One row of the fastest-path table: the lowest known cost between the
      node and the primary node, and the next hop toward the primary node. */
  datatype FastestPathRow = FastestPathRow(nodeId: string, lowestCost: int, neighborNodeId: Option<string>)

  datatype FastestPathTable = FastestPathTable(primaryNodeId: string, rows: seq<FastestPathRow>)

  function Ids(nodes: seq<Node>): (ids: seq<string>)
    ensures |ids| == |nodes|
    ensures forall i :: 0 <= i < |nodes| ==> ids[i] == nodes[i].id
  {
    seq(|nodes|, i requires 0 <= i < |nodes| => nodes[i].id)
  }

  function NeighborIds(nbs: seq<Neighbor>): (ids: seq<string>)
    ensures |ids| == |nbs|
    ensures forall i :: 0 <= i < |nbs| ==> ids[i] == nbs[i].nodeId
  {
    seq(|nbs|, i requires 0 <= i < |nbs| => nbs[i].nodeId)
  }

  function RowIds(rows: seq<FastestPathRow>): (ids: seq<string>)
    ensures |ids| == |rows|
    ensures forall i :: 0 <= i < |rows| ==> ids[i] == rows[i].nodeId
  {
    seq(|rows|, i requires 0 <= i < |rows| => rows[i].nodeId)
  }

  predicate Distinct(s: seq<string>)
  {
    forall i, j :: 0 <= i < j < |s| ==> s[i] != s[j]
  }

  /** The id-to-position dictionary built by ToDictionary over distinct keys. */
  function IndexById(ids: seq<string>): (m: map<string, nat>)
    requires Distinct(ids)
    ensures forall x :: x in m <==> x in ids
    ensures forall i :: 0 <= i < |ids| ==> ids[i] in m && m[ids[i]] == i
    ensures forall x :: x in m ==> m[x] < |ids| && ids[m[x]] == x
  {
    map i | 0 <= i < |ids| :: ids[i] := i
  }

  /** The cost of the first neighbour entry for `to`, if any. */
  function CostTo(nbs: seq<Neighbor>, to: string): Option<int>
  {
    if |nbs| == 0 then None
    else if nbs[0].nodeId == to then Some(nbs[0].cost)
    else CostTo(nbs[1..], to)
  }

  /** The declared cost of the edge from the node `from` to the node `to`. */
  function EdgeCost(nodes: seq<Node>, from: string, to: string): Option<int>
  {
    if |nodes| == 0 then None
    else if nodes[0].id == from then CostTo(nodes[0].neighbors, to)
    else EdgeCost(nodes[1..], from, to)
  }

  lemma {:induction false} CostToAt(nbs: seq<Neighbor>, k: nat)
    requires k < |nbs| && Distinct(NeighborIds(nbs))
    ensures CostTo(nbs, nbs[k].nodeId) == Some(nbs[k].cost)
  {
    if k > 0 {
      assert NeighborIds(nbs)[0] != NeighborIds(nbs)[k];
      assert NeighborIds(nbs[1..]) == NeighborIds(nbs)[1..];
      CostToAt(nbs[1..], k - 1);
    }
  }

  lemma {:induction false} CostToSome(nbs: seq<Neighbor>, to: string) returns (k: nat)
    requires CostTo(nbs, to).Some?
    ensures k < |nbs| && nbs[k] == Neighbor(to, CostTo(nbs, to).value)
  {
    if nbs[0].nodeId == to {
      k := 0;
    } else {
      k := CostToSome(nbs[1..], to);
      k := k + 1;
    }
  }

  lemma {:induction false} CostToNone(nbs: seq<Neighbor>, to: string)
    requires to !in NeighborIds(nbs)
    ensures CostTo(nbs, to).None?
  {
    if |nbs| > 0 {
      assert NeighborIds(nbs[1..]) == NeighborIds(nbs)[1..];
      CostToNone(nbs[1..], to);
    }
  }

  /** With distinct ids, the edge cost from node i is its own neighbour lookup. */
  lemma {:induction false} EdgeCostOfNode(nodes: seq<Node>, i: nat, to: string)
    requires i < |nodes| && Distinct(Ids(nodes))
    ensures EdgeCost(nodes, nodes[i].id, to) == CostTo(nodes[i].neighbors, to)
  {
    if i > 0 {
      assert Ids(nodes)[0] != Ids(nodes)[i];
      assert Ids(nodes[1..]) == Ids(nodes)[1..];
      EdgeCostOfNode(nodes[1..], i - 1, to);
    }
  }

  lemma {:induction false} EdgeCostSome(nodes: seq<Node>, from: string, to: string) returns (i: nat, k: nat)
    requires EdgeCost(nodes, from, to).Some?
    ensures i < |nodes| && nodes[i].id == from
    ensures k < |nodes[i].neighbors| && nodes[i].neighbors[k] == Neighbor(to, EdgeCost(nodes, from, to).value)
  {
    if nodes[0].id == from {
      i := 0;
      k := CostToSome(nodes[0].neighbors, to);
    } else {
      i, k := EdgeCostSome(nodes[1..], from, to);
      i := i + 1;
    }
  }

  /** A sequence of node ids each of which declares the next as a neighbour. */
  predicate IsWalk(nodes: seq<Node>, w: seq<string>)
  {
    && |w| >= 1
    && (forall i :: 0 <= i < |w| ==> w[i] in Ids(nodes))
    && (forall i :: 0 <= i < |w| - 1 ==> EdgeCost(nodes, w[i], w[i + 1]).Some?)
  }

  /** The sum of the declared costs along a walk. */
  function WalkCost(nodes: seq<Node>, w: seq<string>): int
    requires IsWalk(nodes, w)
    decreases |w|
  {
    if |w| == 1 then 0
    else
      assert IsWalk(nodes, w[..|w| - 1]);
      WalkCost(nodes, w[..|w| - 1]) + EdgeCost(nodes, w[|w| - 2], w[|w| - 1]).value
  }

  /** `to` can be reached from `from` along declared edges. */
  ghost predicate Reachable(nodes: seq<Node>, from: string, to: string)
  {
    exists w :: IsWalk(nodes, w) && w[0] == from && w[|w| - 1] == to
  }

  /** Every declared neighbour id names a node of the graph. */
  predicate Closed(nodes: seq<Node>)
  {
    forall i, k :: 0 <= i < |nodes| && 0 <= k < |nodes[i].neighbors| ==> nodes[i].neighbors[k].nodeId in Ids(nodes)
  }

  predicate NonNegativeCosts(nodes: seq<Node>)
  {
    forall i, k :: 0 <= i < |nodes| && 0 <= k < |nodes[i].neighbors| ==> nodes[i].neighbors[k].cost >= 0
  }

  predicate SelfLoopsNonNegative(node: Node)
  {
    forall k :: 0 <= k < |node.neighbors| && node.neighbors[k].nodeId == node.id ==> node.neighbors[k].cost >= 0
  }

  /** No node declares an edge to itself with a negative cost. */
  predicate NoNegativeSelfLoops(nodes: seq<Node>)
  {
    forall i :: 0 <= i < |nodes| ==> SelfLoopsNonNegative(nodes[i])
  }
}
