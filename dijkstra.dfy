/** The engine: fastest-path table construction, lowest-cost selection,
    neighbour relaxation, the main loop and the walk back along the
    predecessor links. */
module Dijkstra {
  import opened Common
  import opened Graph
  import opened NodeValidation
  import opened FastestPaths
  import ValidationProperties

  // ---------------------------------------------------------------------
  // The initial table

  /** Every node gets a row: cost 0 for the primary node, int.MaxValue for
      the others, no predecessor. */
  method CreateFastestPathTable(nodes: seq<Node>, primaryNodeId: string) returns (t: FastestPathTable)
    ensures IsTableFor(nodes, primaryNodeId, t)
    ensures forall i :: 0 <= i < |nodes| ==>
      t.rows[i].neighborNodeId.None? && t.rows[i].lowestCost == (if nodes[i].id == primaryNodeId then 0 else INF)
  {
    var rows: seq<FastestPathRow> := [];
    for i := 0 to |nodes|
      invariant |rows| == i
      invariant forall j :: 0 <= j < i ==>
        rows[j] == FastestPathRow(nodes[j].id, if nodes[j].id == primaryNodeId then 0 else INF, None)
    {
      var node := nodes[i];
      rows := rows + [FastestPathRow(node.id, if node.id == primaryNodeId then 0 else INF, None)];
    }
    t := FastestPathTable(primaryNodeId, rows);
  }

  /** The initial table already satisfies the table invariants. */
  lemma InitialTableInvariants(nodes: seq<Node>, primaryNodeId: string, t: FastestPathTable)
    requires IsTableFor(nodes, primaryNodeId, t)
    requires forall i :: 0 <= i < |nodes| ==>
      t.rows[i].neighborNodeId.None? && t.rows[i].lowestCost == (if nodes[i].id == primaryNodeId then 0 else INF)
    ensures CostsBounded(t) && ReachMarks(t) && PrimaryRowFixed(t) && Ranked(t, map[])
  {
  }

  // ---------------------------------------------------------------------
  // Selection

  /** Row `i` is the one the scan picks: unvisited, finite, no costlier than
      any unvisited row, and strictly cheaper than every unvisited row before
      it (ties go to the first row). */
  predicate IsSelection(rows: seq<FastestPathRow>, visited: set<string>, i: nat)
  {
    && i < |rows|
    && rows[i].nodeId !in visited
    && rows[i].lowestCost < INF
    && (forall j :: 0 <= j < |rows| && rows[j].nodeId !in visited ==> rows[i].lowestCost <= rows[j].lowestCost)
    && (forall j :: 0 <= j < i && rows[j].nodeId !in visited ==> rows[i].lowestCost < rows[j].lowestCost)
  }

  /** No unvisited row has a cost below int.MaxValue. */
  predicate NothingSelectable(rows: seq<FastestPathRow>, visited: set<string>)
  {
    forall j :: 0 <= j < |rows| && rows[j].nodeId !in visited ==> rows[j].lowestCost >= INF
  }

  method FindLowestCostNodeId(t: FastestPathTable, visited: set<string>) returns (id: Option<string>, ghost index: nat)
    ensures id.None? <==> NothingSelectable(t.rows, visited)
    ensures id.Some? ==> IsSelection(t.rows, visited, index) && id.value == t.rows[index].nodeId
  {
    var lowestCost := INF;
    id := None;
    index := 0;
    for i := 0 to |t.rows|
      invariant id.None? ==> lowestCost == INF && forall j :: 0 <= j < i && t.rows[j].nodeId !in visited ==> t.rows[j].lowestCost >= INF
      invariant id.Some? ==>
        && index < i && id.value == t.rows[index].nodeId && t.rows[index].nodeId !in visited
        && t.rows[index].lowestCost == lowestCost < INF
        && (forall j :: 0 <= j < i && t.rows[j].nodeId !in visited ==> lowestCost <= t.rows[j].lowestCost)
        && (forall j :: 0 <= j < index && t.rows[j].nodeId !in visited ==> lowestCost < t.rows[j].lowestCost)
    {
      var row := t.rows[i];
      if row.nodeId !in visited && row.lowestCost < lowestCost {
        lowestCost := row.lowestCost;
        id := Some(row.nodeId);
        index := i;
      }
    }
  }

  // ---------------------------------------------------------------------
  // Relaxation

  /** Some unvisited neighbour of `node` has no row: the rowsById lookup
      throws. */
  predicate HasMissingNeighbor(node: Node, visited: set<string>, rowsById: map<string, nat>)
  {
    exists k :: 0 <= k < |node.neighbors| && node.neighbors[k].nodeId !in visited && node.neighbors[k].nodeId !in rowsById
  }

  /** What relaxing the first `k` neighbours of `node` has done to `rows`,
      with `s` the row of `node` itself. */
  predicate RelaxedUpTo(rows: seq<FastestPathRow>, rows': seq<FastestPathRow>, rowsById: map<string, nat>,
                        visited: set<string>, node: Node, s: nat, k: nat)
    requires s < |rows| && k <= |node.neighbors|
  {
    && |rows'| == |rows|
    && (forall i :: 0 <= i < |rows| ==> rows'[i].nodeId == rows[i].nodeId)
    && (forall i :: 0 <= i < |rows| && rows[i].nodeId in visited ==> rows'[i] == rows[i])
    && (forall i :: 0 <= i < |rows| ==>
          rows'[i] == rows[i] || (rows'[i].lowestCost < rows[i].lowestCost && rows'[i].neighborNodeId == Some(node.id)))
    && (forall a :: 0 <= a < k ==> node.neighbors[a].nodeId in visited || node.neighbors[a].nodeId in rowsById)
    && (SelfLoopsNonNegative(node) ==> rows'[s] == rows[s])
    && (SelfLoopsNonNegative(node) ==>
          forall a :: 0 <= a < k && node.neighbors[a].nodeId !in visited ==>
            && node.neighbors[a].nodeId in rowsById && rowsById[node.neighbors[a].nodeId] < |rows|
            && rows'[rowsById[node.neighbors[a].nodeId]].lowestCost <= rows[s].lowestCost + node.neighbors[a].cost)
    && (SelfLoopsNonNegative(node) && Distinct(NeighborIds(node.neighbors)) ==>
          forall i :: 0 <= i < |rows| && rows'[i] != rows[i] ==>
            CostTo(node.neighbors, rows[i].nodeId) == Some(rows'[i].lowestCost - rows[s].lowestCost))
  }

  /** rowsById maps each id to the position of its row. */
  predicate IndexesRows(rowsById: map<string, nat>, rows: seq<FastestPathRow>)
  {
    forall x :: x in rowsById ==> rowsById[x] < |rows| && rows[rowsById[x]].nodeId == x
  }

  /** One step of the relaxation loop keeps RelaxedUpTo. */
  lemma RelaxStep(rows: seq<FastestPathRow>, rows': seq<FastestPathRow>, rows'': seq<FastestPathRow>,
                  rowsById: map<string, nat>, visited: set<string>, node: Node, s: nat, k: nat)
    requires IndexesRows(rowsById, rows)
    requires node.id in rowsById && s == rowsById[node.id] && k < |node.neighbors|
    requires RelaxedUpTo(rows, rows', rowsById, visited, node, s, k)
    requires node.neighbors[k].nodeId in visited || node.neighbors[k].nodeId in rowsById
    requires rows'' == (
      var nb := node.neighbors[k];
      if nb.nodeId in visited then rows'
      else
        var j := rowsById[nb.nodeId];
        var newCost := nb.cost + rows'[s].lowestCost;
        if newCost < rows'[j].lowestCost
        then rows'[j := rows'[j].(lowestCost := newCost, neighborNodeId := Some(node.id))]
        else rows')
    ensures RelaxedUpTo(rows, rows'', rowsById, visited, node, s, k + 1)
  {
    var nb := node.neighbors[k];
    if nb.nodeId in visited {
      RelaxKept(rows, rows', rowsById, visited, node, s, k);
    } else {
      var j := rowsById[nb.nodeId];
      var newCost := nb.cost + rows'[s].lowestCost;
      if newCost < rows'[j].lowestCost {
        RelaxImproved(rows, rows', rowsById, visited, node, s, k);
      } else {
        RelaxKept(rows, rows', rowsById, visited, node, s, k);
      }
    }
  }

  /** A visited neighbour, or one the node does not improve, leaves the rows
      as they are. */
  lemma RelaxKept(rows: seq<FastestPathRow>, rows': seq<FastestPathRow>,
                  rowsById: map<string, nat>, visited: set<string>, node: Node, s: nat, k: nat)
    requires IndexesRows(rowsById, rows)
    requires node.id in rowsById && s == rowsById[node.id] && k < |node.neighbors|
    requires RelaxedUpTo(rows, rows', rowsById, visited, node, s, k)
    requires var nb := node.neighbors[k];
      nb.nodeId in visited || (nb.nodeId in rowsById && nb.cost + rows'[s].lowestCost >= rows'[rowsById[nb.nodeId]].lowestCost)
    ensures RelaxedUpTo(rows, rows', rowsById, visited, node, s, k + 1)
  {
  }

  /** An unvisited neighbour that the node improves takes the node's cost plus
      the edge, and the node as predecessor. */
  lemma RelaxImproved(rows: seq<FastestPathRow>, rows': seq<FastestPathRow>,
                      rowsById: map<string, nat>, visited: set<string>, node: Node, s: nat, k: nat)
    requires IndexesRows(rowsById, rows)
    requires node.id in rowsById && s == rowsById[node.id] && k < |node.neighbors|
    requires RelaxedUpTo(rows, rows', rowsById, visited, node, s, k)
    requires var nb := node.neighbors[k];
      nb.nodeId !in visited && nb.nodeId in rowsById && nb.cost + rows'[s].lowestCost < rows'[rowsById[nb.nodeId]].lowestCost
    ensures var nb := node.neighbors[k]; var j := rowsById[nb.nodeId];
      RelaxedUpTo(rows, rows'[j := rows'[j].(lowestCost := nb.cost + rows'[s].lowestCost, neighborNodeId := Some(node.id))],
                  rowsById, visited, node, s, k + 1)
  {
    if SelfLoopsNonNegative(node) && Distinct(NeighborIds(node.neighbors)) {
      CostToAt(node.neighbors, k);
    }
  }

  /** Relaxes every unvisited neighbour of `node`: a neighbour's row takes the
      cost of `node`'s row plus the edge cost, and `node` as predecessor, when
      that is strictly lower. The node's own cost is read afresh for every
      neighbour. */
  method UpdateNeighborCosts(rows: seq<FastestPathRow>, rowsById: map<string, nat>, visited: set<string>, node: Node)
    returns (rows': seq<FastestPathRow>, o: Outcome)
    requires IndexesRows(rowsById, rows) && node.id in rowsById
    ensures o.Fail? <==> HasMissingNeighbor(node, visited, rowsById)
    ensures o.Fail? ==>
      o.error.KeyNotFound? && o.error.id in NeighborIds(node.neighbors) && o.error.id !in visited && o.error.id !in rowsById
    ensures o.Pass? ==> RelaxedUpTo(rows, rows', rowsById, visited, node, rowsById[node.id], |node.neighbors|)
  {
    var nbs := node.neighbors;
    var s := rowsById[node.id];
    rows' := rows;
    o := Pass;
    for k := 0 to |nbs|
      invariant RelaxedUpTo(rows, rows', rowsById, visited, node, s, k)
    {
      var neighbor := nbs[k];
      if neighbor.nodeId !in visited && neighbor.nodeId !in rowsById {
        o := Fail(KeyNotFound(neighbor.nodeId));
        return;
      }
      var before := rows';
      if neighbor.nodeId !in visited {
        var neighborRow := rowsById[neighbor.nodeId];
        var newCost := neighbor.cost + rows'[s].lowestCost;
        if newCost < rows'[neighborRow].lowestCost {
          rows' := rows'[neighborRow := rows'[neighborRow].(lowestCost := newCost, neighborNodeId := Some(node.id))];
        }
      }
      RelaxStep(rows, before, rows', rowsById, visited, node, s, k);
    }
  }

  // ---------------------------------------------------------------------
  // The main loop's invariant, in five parts

  /** Rows stay aligned with the nodes; every visited id is a node id. */
  predicate LoopShape(nodes: seq<Node>, rows: seq<FastestPathRow>, visited: set<string>, index: map<string, nat>)
  {
    && |rows| == |nodes|
    && (forall i :: 0 <= i < |nodes| ==> rows[i].nodeId == nodes[i].id)
    && (forall x :: x in visited ==> x in index)
  }

  /** Costs never exceed int.MaxValue, a finite cost marks the primary row or
      a row with a predecessor, and visited rows are finite. */
  predicate LoopMarks(nodes: seq<Node>, primary: string, rows: seq<FastestPathRow>, visited: set<string>)
    requires |rows| == |nodes|
  {
    && (forall i :: 0 <= i < |rows| ==> rows[i].lowestCost <= INF)
    && (forall i :: 0 <= i < |rows| ==>
          ((rows[i].neighborNodeId.Some? || nodes[i].id == primary) <==> rows[i].lowestCost < INF))
    && (forall i :: 0 <= i < |rows| && nodes[i].id in visited ==> rows[i].lowestCost < INF)
  }

  /** The primary node is the first one visited; before that the table is the
      initial one. */
  predicate LoopStart(nodes: seq<Node>, primary: string, rows: seq<FastestPathRow>, visited: set<string>)
    requires |rows| == |nodes|
  {
    && (primary !in visited ==> visited == {})
    && (visited == {} ==>
          forall i :: 0 <= i < |rows| ==>
            rows[i].neighborNodeId.None? && rows[i].lowestCost == (if nodes[i].id == primary then 0 else INF))
  }

  /** A ghost rank numbers the visited nodes in visiting order; unvisited
      nodes rank last. */
  predicate LoopRanks(nodes: seq<Node>, visited: set<string>, rank: map<string, nat>)
  {
    forall i :: 0 <= i < |nodes| ==>
      && nodes[i].id in rank
      && (nodes[i].id in visited ==> rank[nodes[i].id] < |visited|)
      && (nodes[i].id !in visited ==> rank[nodes[i].id] == |nodes|)
  }

  /** Row i's predecessor is a visited, earlier-ranked, finite node whose
      declared edge to row i accounts for the cost. */
  predicate PredecessorOk(nodes: seq<Node>, rows: seq<FastestPathRow>, visited: set<string>,
                          rank: map<string, nat>, index: map<string, nat>, i: nat)
    requires |rows| == |nodes| && i < |rows| && rows[i].neighborNodeId.Some?
  {
    var p := rows[i].neighborNodeId.value;
    && p in visited && p in index && index[p] < |rows| && p in rank && nodes[i].id in rank
    && rank[p] < rank[nodes[i].id]
    && rows[index[p]].lowestCost < INF
    && EdgeCost(nodes, p, nodes[i].id) == Some(rows[i].lowestCost - rows[index[p]].lowestCost)
  }

  /** The primary row keeps (0, null) and every predecessor link is sound. */
  predicate LoopPredecessors(nodes: seq<Node>, primary: string, rows: seq<FastestPathRow>, visited: set<string>,
                             rank: map<string, nat>, index: map<string, nat>)
    requires |rows| == |nodes|
  {
    && primary in index && index[primary] < |rows|
    && rows[index[primary]].lowestCost == 0 && rows[index[primary]].neighborNodeId.None?
    && forall i :: 0 <= i < |rows| && rows[i].neighborNodeId.Some? ==> PredecessorOk(nodes, rows, visited, rank, index, i)
  }

  /** What selecting row `si` and relaxing its node has produced. */
  predicate Step(nodes: seq<Node>, rows: seq<FastestPathRow>, rows': seq<FastestPathRow>, visited: set<string>,
                 index: map<string, nat>, si: nat)
  {
    && Distinct(Ids(nodes)) && index == IndexById(Ids(nodes))
    && LoopShape(nodes, rows, visited, index)
    && si < |nodes| && IsSelection(rows, visited, si)
    && RelaxedUpTo(rows, rows', index, visited, nodes[si], si, |nodes[si].neighbors|)
  }

  /** The position dictionary read per node: each node's id maps to its
      position, and every key is the id at its position. */
  predicate Indexed(nodes: seq<Node>, index: map<string, nat>)
  {
    && (forall i :: 0 <= i < |nodes| ==> nodes[i].id in index && index[nodes[i].id] == i)
    && (forall x :: x in index ==> index[x] < |nodes| && nodes[index[x]].id == x)
  }

  /** Step without the dictionary's construction: what the settling lemmas
      need to know. */
  predicate LightStep(nodes: seq<Node>, rows: seq<FastestPathRow>, rows': seq<FastestPathRow>, visited: set<string>,
                      index: map<string, nat>, si: nat)
  {
    && Indexed(nodes, index)
    && LoopShape(nodes, rows, visited, index)
    && si < |nodes| && IsSelection(rows, visited, si)
    && RelaxedUpTo(rows, rows', index, visited, nodes[si], si, |nodes[si].neighbors|)
  }

  lemma IndexByIdIndexed(nodes: seq<Node>, index: map<string, nat>)
    requires Distinct(Ids(nodes)) && index == IndexById(Ids(nodes))
    ensures Indexed(nodes, index)
  {
    forall i | 0 <= i < |nodes| ensures nodes[i].id in index && index[nodes[i].id] == i {
      assert Ids(nodes)[i] == nodes[i].id;
    }
  }

  lemma StepIsLight(nodes: seq<Node>, rows: seq<FastestPathRow>, rows': seq<FastestPathRow>, visited: set<string>,
                    index: map<string, nat>, si: nat)
    requires Step(nodes, rows, rows', visited, index, si)
    ensures LightStep(nodes, rows, rows', visited, index, si)
  {
    IndexByIdIndexed(nodes, index);
  }

  lemma StepShapeMarks(nodes: seq<Node>, primary: string, rows: seq<FastestPathRow>, rows': seq<FastestPathRow>,
                       visited: set<string>, index: map<string, nat>, si: nat)
    requires Step(nodes, rows, rows', visited, index, si)
    requires LoopMarks(nodes, primary, rows, visited) && LoopStart(nodes, primary, rows, visited)
    ensures LoopShape(nodes, rows', visited + {nodes[si].id}, index)
    ensures LoopMarks(nodes, primary, rows', visited + {nodes[si].id})
    ensures LoopStart(nodes, primary, rows', visited + {nodes[si].id})
  {
    StepIsLight(nodes, rows, rows', visited, index, si);
    LightShapeMarks(nodes, primary, rows, rows', visited, index, si);
  }

  lemma LightShapeMarks(nodes: seq<Node>, primary: string, rows: seq<FastestPathRow>, rows': seq<FastestPathRow>,
                        visited: set<string>, index: map<string, nat>, si: nat)
    requires LightStep(nodes, rows, rows', visited, index, si)
    requires LoopMarks(nodes, primary, rows, visited) && LoopStart(nodes, primary, rows, visited)
    ensures LoopShape(nodes, rows', visited + {nodes[si].id}, index)
    ensures LoopMarks(nodes, primary, rows', visited + {nodes[si].id})
    ensures LoopStart(nodes, primary, rows', visited + {nodes[si].id})
  {
  }

  lemma StepRanks(nodes: seq<Node>, rows: seq<FastestPathRow>, rows': seq<FastestPathRow>, visited: set<string>,
                  index: map<string, nat>, si: nat, rank: map<string, nat>)
    requires Step(nodes, rows, rows', visited, index, si)
    requires LoopRanks(nodes, visited, rank)
    ensures LoopRanks(nodes, visited + {nodes[si].id}, rank[nodes[si].id := |visited|])
  {
    forall i | 0 <= i < |nodes| && i != si
      ensures nodes[i].id != nodes[si].id
    {
      assert Ids(nodes)[i] == nodes[i].id && Ids(nodes)[si] == nodes[si].id;
    }
  }

  /** A row the step left alone keeps a sound predecessor link. */
  lemma StepKeepsLink(nodes: seq<Node>, rows: seq<FastestPathRow>, rows': seq<FastestPathRow>, visited: set<string>,
                      index: map<string, nat>, rank: map<string, nat>, sel: string, i: nat)
    requires |rows| == |nodes| && |rows'| == |rows| && sel !in visited
    requires i < |rows| && rows'[i] == rows[i] && rows[i].neighborNodeId.Some?
    requires PredecessorOk(nodes, rows, visited, rank, index, i)
    requires var p := rows[i].neighborNodeId.value; rows'[index[p]] == rows[index[p]] && rank[p] < |visited|
    ensures PredecessorOk(nodes, rows', visited + {sel}, rank[sel := |visited|], index, i)
  {
  }

  /** A row the step improved gets the selected node as a sound predecessor. */
  lemma StepNewLink(nodes: seq<Node>, rows: seq<FastestPathRow>, rows': seq<FastestPathRow>, visited: set<string>,
                    index: map<string, nat>, rank: map<string, nat>, si: nat, i: nat)
    requires |rows| == |nodes| && |rows'| == |rows| && Distinct(Ids(nodes))
    requires si < |nodes| && i < |nodes| && i != si && |visited| < |nodes| - 1
    requires nodes[si].id in index && index[nodes[si].id] == si && nodes[si].id !in visited
    requires rows'[i].neighborNodeId == Some(nodes[si].id)
    requires rows'[si] == rows[si] && rows[si].lowestCost < INF
    requires CostTo(nodes[si].neighbors, nodes[i].id) == Some(rows'[i].lowestCost - rows[si].lowestCost)
    requires nodes[i].id in rank && rank[nodes[i].id] == |nodes|
    ensures PredecessorOk(nodes, rows', visited + {nodes[si].id}, rank[nodes[si].id := |visited|], index, i)
  {
    assert nodes[i].id != nodes[si].id by { assert Ids(nodes)[i] == nodes[i].id && Ids(nodes)[si] == nodes[si].id; }
    EdgeCostOfNode(nodes, si, nodes[i].id);
  }

  lemma StepPredecessors(nodes: seq<Node>, primary: string, rows: seq<FastestPathRow>, rows': seq<FastestPathRow>,
                         visited: set<string>, index: map<string, nat>, si: nat, rank: map<string, nat>)
    requires Step(nodes, rows, rows', visited, index, si)
    requires WellFormed(nodes) && NoNegativeSelfLoops(nodes) && |visited| < |nodes| - 1
    requires LoopMarks(nodes, primary, rows, visited) && LoopStart(nodes, primary, rows, visited)
    requires LoopRanks(nodes, visited, rank)
    requires LoopPredecessors(nodes, primary, rows, visited, rank, index)
    ensures LoopPredecessors(nodes, primary, rows', visited + {nodes[si].id}, rank[nodes[si].id := |visited|], index)
  {
    StepIsLight(nodes, rows, rows', visited, index, si);
    assert SelfLoopsNonNegative(nodes[si]) && Distinct(NeighborIds(nodes[si].neighbors));
    LightPredecessors(nodes, primary, rows, rows', visited, index, si, rank);
  }

  lemma LightPredecessors(nodes: seq<Node>, primary: string, rows: seq<FastestPathRow>, rows': seq<FastestPathRow>,
                          visited: set<string>, index: map<string, nat>, si: nat, rank: map<string, nat>)
    requires LightStep(nodes, rows, rows', visited, index, si) && Distinct(Ids(nodes)) && |visited| < |nodes| - 1
    requires SelfLoopsNonNegative(nodes[si]) && Distinct(NeighborIds(nodes[si].neighbors))
    requires LoopMarks(nodes, primary, rows, visited) && LoopStart(nodes, primary, rows, visited)
    requires LoopRanks(nodes, visited, rank)
    requires LoopPredecessors(nodes, primary, rows, visited, rank, index)
    ensures LoopPredecessors(nodes, primary, rows', visited + {nodes[si].id}, rank[nodes[si].id := |visited|], index)
  {
    var sel := nodes[si].id;
    if primary !in visited {
      assert rows[si].neighborNodeId.None?;
      assert sel == primary;
    }
    forall i | 0 <= i < |rows'| && rows'[i].neighborNodeId.Some?
      ensures PredecessorOk(nodes, rows', visited + {sel}, rank[sel := |visited|], index, i)
    {
      if rows'[i] == rows[i] {
        var p := rows[i].neighborNodeId.value;
        assert rows[index[p]].nodeId == p && nodes[index[p]].id == p;
        StepKeepsLink(nodes, rows, rows', visited, index, rank, sel, i);
      } else {
        assert nodes[i].id !in visited && i != si;
        StepNewLink(nodes, rows, rows', visited, index, rank, si, i);
      }
    }
  }

  /** After the step every visited row, the selected one included, is no
      costlier than any row left unvisited. */
  lemma StepVisitedFirst(nodes: seq<Node>, rows: seq<FastestPathRow>, rows': seq<FastestPathRow>,
                         visited: set<string>, index: map<string, nat>, si: nat)
    requires LightStep(nodes, rows, rows', visited, index, si)
    requires NonNegativeCosts(nodes) && Distinct(NeighborIds(nodes[si].neighbors))
    requires VisitedFirst(nodes, rows, visited)
    ensures VisitedFirst(nodes, rows', visited + {nodes[si].id})
  {
    var sel := nodes[si].id;
    var visited' := visited + {sel};
    var c := rows[si].lowestCost;
    assert SelfLoopsNonNegative(nodes[si]);
    forall j | 0 <= j < |nodes| && nodes[j].id !in visited'
      ensures c <= rows'[j].lowestCost
    {
      if rows'[j] != rows[j] {
        var k := CostToSome(nodes[si].neighbors, rows[j].nodeId);
        assert nodes[si].neighbors[k].cost >= 0;
      }
    }
    assert forall i :: 0 <= i < |nodes| && nodes[i].id in visited ==> rows'[i] == rows[i];
  }

  /** After the step every edge out of a visited node, the selected one
      included, is relaxed. */
  lemma StepVisitedRelaxed(nodes: seq<Node>, rows: seq<FastestPathRow>, rows': seq<FastestPathRow>,
                           visited: set<string>, index: map<string, nat>, si: nat)
    requires LightStep(nodes, rows, rows', visited, index, si) && NonNegativeCosts(nodes)
    requires VisitedFirst(nodes, rows, visited) && VisitedRelaxed(nodes, rows, visited, index)
    ensures VisitedRelaxed(nodes, rows', visited + {nodes[si].id}, index)
  {
    var sel := nodes[si].id;
    var visited' := visited + {sel};
    var c := rows[si].lowestCost;
    assert SelfLoopsNonNegative(nodes[si]);
    forall i, k | 0 <= i < |nodes| && nodes[i].id in visited' && 0 <= k < |nodes[i].neighbors|
      ensures var u := nodes[i].neighbors[k].nodeId;
        u in index && index[u] < |rows'| && rows'[index[u]].lowestCost <= rows'[i].lowestCost + nodes[i].neighbors[k].cost
    {
      var u := nodes[i].neighbors[k].nodeId;
      if nodes[i].id in visited {
        assert rows'[i] == rows[i];
        assert rows'[index[u]].lowestCost <= rows[index[u]].lowestCost;
      } else {
        assert i == si;
        if u in visited {
          assert rows[index[u]].nodeId == u;
          assert rows[index[u]].lowestCost <= c;
        }
      }
    }
  }

  lemma StepSettled(nodes: seq<Node>, rows: seq<FastestPathRow>, rows': seq<FastestPathRow>,
                    visited: set<string>, index: map<string, nat>, si: nat)
    requires Step(nodes, rows, rows', visited, index, si)
    requires NonNegativeCosts(nodes) && Distinct(NeighborIds(nodes[si].neighbors))
    requires VisitedFirst(nodes, rows, visited) && VisitedRelaxed(nodes, rows, visited, index)
    ensures VisitedFirst(nodes, rows', visited + {nodes[si].id})
    ensures VisitedRelaxed(nodes, rows', visited + {nodes[si].id}, index)
  {
    StepIsLight(nodes, rows, rows', visited, index, si);
    StepVisitedFirst(nodes, rows, rows', visited, index, si);
    StepVisitedRelaxed(nodes, rows, rows', visited, index, si);
  }

  // ---------------------------------------------------------------------
  // From the loop's invariant to the table's properties

  lemma RowOfIsIndexed(nodes: seq<Node>, rows: seq<FastestPathRow>, primary: string, index: map<string, nat>, x: string)
    requires Distinct(Ids(nodes)) && index == IndexById(Ids(nodes)) && x in index
    requires |rows| == |nodes| && forall i :: 0 <= i < |nodes| ==> rows[i].nodeId == nodes[i].id
    ensures x in RowIds(rows) && RowOf(FastestPathTable(primary, rows), x) == rows[index[x]]
  {
    IndexByIdIndexed(nodes, index);
    RowOfIndexed(nodes, rows, primary, index, x);
  }

  lemma RowOfIndexed(nodes: seq<Node>, rows: seq<FastestPathRow>, primary: string, index: map<string, nat>, x: string)
    requires Indexed(nodes, index) && x in index
    requires |rows| == |nodes| && forall i :: 0 <= i < |nodes| ==> rows[i].nodeId == nodes[i].id
    ensures x in RowIds(rows) && RowOf(FastestPathTable(primary, rows), x) == rows[index[x]]
  {
    assert RowIds(rows)[index[x]] == x;
    var r := IndexOf(RowIds(rows), x);
    assert nodes[r].id == x;
  }

  lemma AlignedIds(nodes: seq<Node>, rows: seq<FastestPathRow>)
    requires |rows| == |nodes| && forall i :: 0 <= i < |nodes| ==> rows[i].nodeId == nodes[i].id
    ensures RowIds(rows) == Ids(nodes)
  {
  }

  lemma AlignedIndex(nodes: seq<Node>, rows: seq<FastestPathRow>, index: map<string, nat>)
    requires Distinct(Ids(nodes)) && index == IndexById(Ids(nodes))
    requires |rows| == |nodes| && forall i :: 0 <= i < |nodes| ==> rows[i].nodeId == nodes[i].id
    ensures IndexesRows(index, rows)
  {
  }

  /** Either way out of the main loop leaves it done. */
  lemma ExitDone(nodes: seq<Node>, rows: seq<FastestPathRow>, visited: set<string>, index: map<string, nat>)
    requires Distinct(Ids(nodes)) && index == IndexById(Ids(nodes)) && LoopShape(nodes, rows, visited, index)
    requires |visited| >= |nodes| - 1 || NothingSelectable(rows, visited)
    ensures LoopDone(nodes, rows, visited)
  {
    if |visited| >= |nodes| - 1 {
      AtMostOneUnvisited(nodes, visited);
    }
  }

  lemma FinishShape(nodes: seq<Node>, primary: string, rows: seq<FastestPathRow>, visited: set<string>, index: map<string, nat>)
    requires LoopShape(nodes, rows, visited, index) && LoopMarks(nodes, primary, rows, visited)
    ensures IsTableFor(nodes, primary, FastestPathTable(primary, rows))
    ensures CostsBounded(FastestPathTable(primary, rows)) && ReachMarks(FastestPathTable(primary, rows))
  {
  }

  lemma FinishLinks(nodes: seq<Node>, primary: string, rows: seq<FastestPathRow>, visited: set<string>,
                    rank: map<string, nat>, index: map<string, nat>)
    requires Distinct(Ids(nodes)) && index == IndexById(Ids(nodes))
    requires LoopShape(nodes, rows, visited, index)
    requires LoopPredecessors(nodes, primary, rows, visited, rank, index)
    ensures PrimaryRowFixed(FastestPathTable(primary, rows))
    ensures PredecessorsConsistent(nodes, FastestPathTable(primary, rows))
    ensures Ranked(FastestPathTable(primary, rows), rank)
  {
    IndexByIdIndexed(nodes, index);
    forall i | 0 <= i < |rows| && rows[i].nodeId == primary
      ensures rows[i].lowestCost == 0 && rows[i].neighborNodeId.None?
    {
      assert Ids(nodes)[i] == primary;
    }
    forall i | 0 <= i < |rows| && rows[i].neighborNodeId.Some?
      ensures LinkConsistent(nodes, FastestPathTable(primary, rows), i)
    {
      FinishLink(nodes, primary, rows, visited, rank, index, i);
    }
  }

  predicate LinkConsistent(nodes: seq<Node>, t: FastestPathTable, i: nat)
    requires i < |t.rows| && t.rows[i].neighborNodeId.Some?
  {
    var p := t.rows[i].neighborNodeId.value;
    && p in RowIds(t.rows)
    && RowOf(t, p).lowestCost < INF
    && EdgeCost(nodes, p, t.rows[i].nodeId) == Some(t.rows[i].lowestCost - RowOf(t, p).lowestCost)
  }

  lemma FinishLink(nodes: seq<Node>, primary: string, rows: seq<FastestPathRow>, visited: set<string>,
                   rank: map<string, nat>, index: map<string, nat>, i: nat)
    requires Indexed(nodes, index)
    requires |rows| == |nodes| && forall j :: 0 <= j < |nodes| ==> rows[j].nodeId == nodes[j].id
    requires i < |rows| && rows[i].neighborNodeId.Some?
    requires PredecessorOk(nodes, rows, visited, rank, index, i)
    ensures LinkConsistent(nodes, FastestPathTable(primary, rows), i)
  {
    var p := rows[i].neighborNodeId.value;
    RowOfIndexed(nodes, rows, primary, index, p);
    var pr := rows[index[p]];
    assert RowOf(FastestPathTable(primary, rows), p) == pr;
    assert pr.lowestCost < INF && rows[i].nodeId == nodes[i].id;
    assert EdgeCost(nodes, p, rows[i].nodeId) == Some(rows[i].lowestCost - pr.lowestCost);
  }

  lemma FinishLowest(nodes: seq<Node>, primary: string, rows: seq<FastestPathRow>, visited: set<string>, index: map<string, nat>)
    requires Distinct(Ids(nodes)) && index == IndexById(Ids(nodes)) && NonNegativeCosts(nodes)
    requires LoopShape(nodes, rows, visited, index) && LoopMarks(nodes, primary, rows, visited)
    requires primary in index && rows[index[primary]].lowestCost == 0
    requires VisitedFirst(nodes, rows, visited) && VisitedRelaxed(nodes, rows, visited, index)
    requires LoopDone(nodes, rows, visited)
    ensures LowestCosts(nodes, FastestPathTable(primary, rows))
  {
    var t := FastestPathTable(primary, rows);
    forall w | IsWalk(nodes, w) && w[0] == primary && w[|w| - 1] in RowIds(rows)
      ensures RowOf(t, w[|w| - 1]).lowestCost <= WalkCost(nodes, w)
    {
      WalkLowerBound(nodes, rows, visited, index, primary, w);
      RowOfIsIndexed(nodes, rows, primary, index, w[|w| - 1]);
    }
  }

  // ---------------------------------------------------------------------
  // The engine

  /** The main loop's invariant. */
  ghost predicate LoopInvariant(nodes: seq<Node>, primary: string, rows: seq<FastestPathRow>, visited: set<string>,
                                rank: map<string, nat>, index: map<string, nat>)
  {
    && LoopShape(nodes, rows, visited, index)
    && LoopMarks(nodes, primary, rows, visited)
    && LoopStart(nodes, primary, rows, visited)
    && LoopRanks(nodes, visited, rank)
    && (NoNegativeSelfLoops(nodes) ==> LoopPredecessors(nodes, primary, rows, visited, rank, index))
    && (NonNegativeCosts(nodes) ==> VisitedFirst(nodes, rows, visited) && VisitedRelaxed(nodes, rows, visited, index))
  }

  lemma LoopEntry(nodes: seq<Node>, primary: string, initial: FastestPathTable, index: map<string, nat>)
    requires Distinct(Ids(nodes)) && primary in Ids(nodes) && index == IndexById(Ids(nodes))
    requires IsTableFor(nodes, primary, initial)
    requires forall i :: 0 <= i < |nodes| ==>
      initial.rows[i].neighborNodeId.None? && initial.rows[i].lowestCost == (if nodes[i].id == primary then 0 else INF)
    ensures LoopInvariant(nodes, primary, initial.rows, {}, map x | x in Ids(nodes) :: |nodes|, index)
  {
    assert forall i :: 0 <= i < |nodes| ==> Ids(nodes)[i] == nodes[i].id;
  }

  lemma LoopStep(nodes: seq<Node>, primary: string, rows: seq<FastestPathRow>, rows': seq<FastestPathRow>,
                 visited: set<string>, rank: map<string, nat>, index: map<string, nat>, si: nat)
    requires WellFormed(nodes) && index == IndexById(Ids(nodes)) && |visited| < |nodes| - 1
    requires LoopInvariant(nodes, primary, rows, visited, rank, index)
    requires si < |rows| && IsSelection(rows, visited, si)
    requires RelaxedUpTo(rows, rows', index, visited, nodes[si], si, |nodes[si].neighbors|)
    ensures LoopInvariant(nodes, primary, rows', visited + {nodes[si].id}, rank[nodes[si].id := |visited|], index)
  {
    assert Step(nodes, rows, rows', visited, index, si);
    StepShapeMarks(nodes, primary, rows, rows', visited, index, si);
    StepRanks(nodes, rows, rows', visited, index, si, rank);
    if NoNegativeSelfLoops(nodes) {
      StepPredecessors(nodes, primary, rows, rows', visited, index, si, rank);
    }
    if NonNegativeCosts(nodes) {
      StepSettled(nodes, rows, rows', visited, index, si);
    }
  }

  lemma LoopExit(nodes: seq<Node>, primary: string, rows: seq<FastestPathRow>, visited: set<string>,
                 rank: map<string, nat>, index: map<string, nat>)
    requires Distinct(Ids(nodes)) && index == IndexById(Ids(nodes))
    requires LoopInvariant(nodes, primary, rows, visited, rank, index)
    requires |visited| >= |nodes| - 1 || NothingSelectable(rows, visited)
    ensures IsTableFor(nodes, primary, FastestPathTable(primary, rows))
    ensures CostsBounded(FastestPathTable(primary, rows)) && ReachMarks(FastestPathTable(primary, rows))
    ensures NoNegativeSelfLoops(nodes) ==>
      && PrimaryRowFixed(FastestPathTable(primary, rows))
      && PredecessorsConsistent(nodes, FastestPathTable(primary, rows))
      && AcyclicPredecessors(FastestPathTable(primary, rows))
    ensures NonNegativeCosts(nodes) ==> LowestCosts(nodes, FastestPathTable(primary, rows))
  {
    ExitDone(nodes, rows, visited, index);
    FinishShape(nodes, primary, rows, visited, index);
    if NoNegativeSelfLoops(nodes) {
      FinishLinks(nodes, primary, rows, visited, rank, index);
    }
    if NonNegativeCosts(nodes) {
      assert NoNegativeSelfLoops(nodes);
      FinishLowest(nodes, primary, rows, visited, index);
    }
  }

  /** The selected row's id maps back to its own position. */
  lemma SelectedPosition(nodes: seq<Node>, primary: string, rows: seq<FastestPathRow>, visited: set<string>,
                         rank: map<string, nat>, index: map<string, nat>, si: nat)
    requires Distinct(Ids(nodes)) && index == IndexById(Ids(nodes))
    requires LoopInvariant(nodes, primary, rows, visited, rank, index) && si < |rows|
    ensures si < |nodes| && rows[si].nodeId == nodes[si].id && rows[si].nodeId in index && index[rows[si].nodeId] == si
    ensures IndexesRows(index, rows)
  {
    assert Ids(nodes)[si] == nodes[si].id;
    AlignedIndex(nodes, rows, index);
  }

  /** A neighbour id without a row names no node: the graph is not closed. */
  lemma MissingNeighborDangles(nodes: seq<Node>, index: map<string, nat>, visited: set<string>, si: nat, id: string)
    requires Distinct(Ids(nodes)) && index == IndexById(Ids(nodes)) && si < |nodes|
    requires id in NeighborIds(nodes[si].neighbors) && id !in index
    ensures id !in Ids(nodes) && !Closed(nodes)
    ensures exists i :: 0 <= i < |nodes| && id in NeighborIds(nodes[i].neighbors)
  {
    var k :| 0 <= k < |nodes[si].neighbors| && NeighborIds(nodes[si].neighbors)[k] == id;
    assert nodes[si].neighbors[k].nodeId == id;
  }

  /** The main loop: repeatedly selects the cheapest unvisited row, relaxes
      its node's neighbours and marks it visited, until all but one node are
      visited or no unvisited row is reachable. */
  method VisitNodes(nodes: seq<Node>, primaryNodeId: string, initial: FastestPathTable, rowsById: map<string, nat>)
    returns (r: Result<FastestPathTable>)
    requires WellFormed(nodes) && primaryNodeId in Ids(nodes) && rowsById == IndexById(Ids(nodes))
    requires IsTableFor(nodes, primaryNodeId, initial)
    requires forall i :: 0 <= i < |nodes| ==>
      initial.rows[i].neighborNodeId.None? && initial.rows[i].lowestCost == (if nodes[i].id == primaryNodeId then 0 else INF)
    ensures r.Failure? ==>
      r.error.KeyNotFound? && r.error.id !in Ids(nodes) &&
      exists i :: 0 <= i < |nodes| && r.error.id in NeighborIds(nodes[i].neighbors)
    ensures Closed(nodes) ==> r.Ok?
    ensures r.Ok? ==> IsTableFor(nodes, primaryNodeId, r.value) && CostsBounded(r.value) && ReachMarks(r.value)
    ensures r.Ok? && NoNegativeSelfLoops(nodes) ==>
      PrimaryRowFixed(r.value) && PredecessorsConsistent(nodes, r.value) && AcyclicPredecessors(r.value)
    ensures r.Ok? && NonNegativeCosts(nodes) ==> LowestCosts(nodes, r.value)
  {
    var rows := initial.rows;
    var visited: set<string> := {};
    ghost var rank: map<string, nat> := map x | x in Ids(nodes) :: |nodes|;
    LoopEntry(nodes, primaryNodeId, initial, rowsById);
    while |visited| < |nodes| - 1
      invariant LoopInvariant(nodes, primaryNodeId, rows, visited, rank, rowsById)
      decreases |nodes| - |visited|
    {
      var lowestCostNodeId, si := FindLowestCostNodeId(FastestPathTable(primaryNodeId, rows), visited);
      if lowestCostNodeId.None? {
        break;
      }
      var sel := lowestCostNodeId.value;
      SelectedPosition(nodes, primaryNodeId, rows, visited, rank, rowsById, si);
      // the source's nodesById and rowsById hold the same positions
      var node := nodes[rowsById[sel]];
      var rows', outcome := UpdateNeighborCosts(rows, rowsById, visited, node);
      if outcome.Fail? {
        MissingNeighborDangles(nodes, rowsById, visited, si, outcome.error.id);
        return Failure(outcome.error);
      }
      LoopStep(nodes, primaryNodeId, rows, rows', visited, rank, rowsById, si);
      rank := rank[sel := |visited|];
      rows := rows';
      visited := visited + {sel};
    }
    LoopExit(nodes, primaryNodeId, rows, visited, rank, rowsById);
    r := Ok(FastestPathTable(primaryNodeId, rows));
  }

  /** Builds the fastest-path table from the primary node to every node. */
  method FindShortestPaths(nodes: seq<Node>, primaryNodeId: string) returns (r: Result<FastestPathTable>)
    ensures IsBlank(primaryNodeId) ==> r == Failure(ValidationFailed("PrimaryNodeId"))
    ensures !IsBlank(primaryNodeId) && Validation(nodes, primaryNodeId).Fail? ==>
      r == Failure(Validation(nodes, primaryNodeId).error)
    ensures !IsBlank(primaryNodeId) && Validation(nodes, primaryNodeId).Pass? && r.Failure? ==>
      r.error.KeyNotFound? && r.error.id !in Ids(nodes) &&
      exists i :: 0 <= i < |nodes| && r.error.id in NeighborIds(nodes[i].neighbors)
    ensures !IsBlank(primaryNodeId) && Validation(nodes, primaryNodeId).Pass? && Closed(nodes) ==> r.Ok?
    ensures r.Ok? ==>
      && !IsBlank(primaryNodeId) && Validation(nodes, primaryNodeId).Pass?
      && IsTableFor(nodes, primaryNodeId, r.value) && CostsBounded(r.value) && ReachMarks(r.value)
    ensures r.Ok? && NoNegativeSelfLoops(nodes) ==>
      PrimaryRowFixed(r.value) && PredecessorsConsistent(nodes, r.value) && AcyclicPredecessors(r.value)
    ensures r.Ok? && NonNegativeCosts(nodes) ==> LowestCosts(nodes, r.value)
  {
    if IsBlank(primaryNodeId) {
      return Failure(ValidationFailed("PrimaryNodeId"));
    }
    var validation := ValidateNodes(nodes, primaryNodeId);
    if validation.Fail? {
      return Failure(validation.error);
    }
    ValidationProperties.ValidationPassIff(nodes, primaryNodeId);
    var initial := CreateFastestPathTable(nodes, primaryNodeId);
    AlignedIds(nodes, initial.rows);
    var rowsById := IndexById(RowIds(initial.rows));
    r := VisitNodes(nodes, primaryNodeId, initial, rowsById);
  }

  /** A link chain that has not reached `end` extends by the predecessor of
      its last row. */
  lemma ChainGrows(t: FastestPathTable, p: seq<string>, start: string, end: string)
    requires LinksInTable(t) && LinkChain(t, p, start, end) && p[|p| - 1] != end
    requires RowOf(t, p[|p| - 1]).neighborNodeId.Some?
    ensures LinkChain(t, p + [RowOf(t, p[|p| - 1]).neighborNodeId.value], start, end)
  {
    var last := IndexOf(RowIds(t.rows), p[|p| - 1]);
    assert t.rows[last].neighborNodeId.value in RowIds(t.rows);
    var q := p + [RowOf(t, p[|p| - 1]).neighborNodeId.value];
    assert forall k :: 0 <= k < |p| ==> q[k] == p[k];
  }

  /** Walks the predecessor links from the start row until the end node or a
      row without a predecessor; the latter yields no path. */
  method FindPath(t: FastestPathTable, startNodeId: string, endNodeId: string) returns (path: Option<seq<string>>)
    requires Distinct(RowIds(t.rows)) && startNodeId in RowIds(t.rows)
    requires LinksInTable(t) && AcyclicPredecessors(t)
    ensures path.Some? ==> IsLinkPath(t, path.value, startNodeId, endNodeId)
    ensures path.None? ==> exists p :: IsDeadEndChain(t, p, startNodeId, endNodeId)
    ensures startNodeId == endNodeId ==> path == Some([startNodeId])
  {
    var rowsByNodeId := IndexById(RowIds(t.rows));
    var p := [startNodeId];
    var currentNodeId := Some(startNodeId);
    ghost var rank :| Ranked(t, rank);
    while currentNodeId.Some? && currentNodeId.value != endNodeId
      invariant LinkChain(t, p, startNodeId, endNodeId)
      invariant currentNodeId.Some? ==> currentNodeId.value == p[|p| - 1]
      invariant currentNodeId.None? ==> p[|p| - 1] != endNodeId && RowOf(t, p[|p| - 1]).neighborNodeId.None?
      invariant startNodeId == endNodeId ==> p == [startNodeId] && currentNodeId == Some(startNodeId)
      decreases if currentNodeId.None? then 0 else if currentNodeId.value in rank then rank[currentNodeId.value] + 2 else 1
    {
      var current := currentNodeId.value;
      IndexOfById(RowIds(t.rows), current);
      var row := t.rows[rowsByNodeId[current]];
      assert row == RowOf(t, current);
      currentNodeId := row.neighborNodeId;
      if currentNodeId.Some? {
        ChainGrows(t, p, startNodeId, endNodeId);
        p := p + [currentNodeId.value];
      }
    }
    if currentNodeId.None? {
      assert IsDeadEndChain(t, p, startNodeId, endNodeId);
      path := None;
    } else {
      path := Some(p);
    }
  }

  /** The path of node ids from the start node to the end node, following the
      fastest-path table rooted at the end node; None when the end node cannot
      be reached from the start node. */
  method FindShortestPath(nodes: seq<Node>, startNodeId: string, endNodeId: string) returns (r: Result<Option<seq<string>>>)
    requires NoNegativeSelfLoops(nodes)
    ensures IsBlank(startNodeId) ==> r == Failure(ValidationFailed("StartNodeId"))
    ensures !IsBlank(startNodeId) && IsBlank(endNodeId) ==> r == Failure(ValidationFailed("EndNodeId"))
    ensures !IsBlank(startNodeId) && !IsBlank(endNodeId) && startNodeId !in Ids(nodes) ==>
      r == Failure(NotFound(startNodeId))
    ensures !IsBlank(startNodeId) && !IsBlank(endNodeId) && startNodeId in Ids(nodes) && Validation(nodes, endNodeId).Fail? ==>
      r == Failure(Validation(nodes, endNodeId).error)
    ensures (!IsBlank(startNodeId) && !IsBlank(endNodeId) && startNodeId in Ids(nodes) &&
             Validation(nodes, endNodeId).Pass? && Closed(nodes)) ==> r.Ok?
    ensures (!IsBlank(startNodeId) && !IsBlank(endNodeId) && startNodeId in Ids(nodes) &&
             Validation(nodes, endNodeId).Pass? && r.Failure?) ==>
      r.error.KeyNotFound? && r.error.id !in Ids(nodes) &&
      exists i :: 0 <= i < |nodes| && r.error.id in NeighborIds(nodes[i].neighbors)
    ensures r.Ok? ==> startNodeId in Ids(nodes) && endNodeId in Ids(nodes) && WellFormed(nodes)
    ensures r.Ok? ==> AnswersQuery(nodes, startNodeId, endNodeId, r.value)
  {
    if IsBlank(startNodeId) {
      return Failure(ValidationFailed("StartNodeId"));
    }
    if IsBlank(endNodeId) {
      return Failure(ValidationFailed("EndNodeId"));
    }
    if startNodeId !in Ids(nodes) {
      return Failure(NotFound(startNodeId));
    }
    var fastestPathTable :- FindShortestPaths(nodes, endNodeId);
    ValidationProperties.ValidationPassIff(nodes, endNodeId);
    var t := fastestPathTable;
    AlignedIds(nodes, t.rows);
    var path := FindPath(t, startNodeId, endNodeId);
    PathProperties(nodes, t, startNodeId, path);
    r := Ok(path);
  }

  /** What FindShortestPath promises about the path it answers: it runs from
      the start node to the end node along predecessor links, read backwards
      it is a walk of the graph, it is no dearer than any other walk when no
      cost is negative, and it is missing exactly when the start node cannot
      be reached from the end node below the sentinel cost. */
  ghost predicate AnswersQuery(nodes: seq<Node>, start: string, end: string, path: Option<seq<string>>)
  {
    && (start == end ==> path == Some([start]))
    && (path.Some? ==>
         var p := path.value;
         && |p| >= 1 && p[0] == start && p[|p| - 1] == end
         && (forall k :: 0 <= k < |p| - 1 ==> p[k] != end)
         && IsWalk(nodes, Reversed(p)))
    && (path.Some? && NonNegativeCosts(nodes) ==>
         forall w :: IsWalk(nodes, w) && w[0] == end && w[|w| - 1] == start ==>
           WalkCost(nodes, Reversed(path.value)) <= WalkCost(nodes, w))
    && (NonNegativeCosts(nodes) ==> (path.None? <==> !ReachableBelow(nodes, end, start, INF)))
  }

  /** What the walk back along the links means for the graph. */
  lemma PathProperties(nodes: seq<Node>, t: FastestPathTable, start: string, path: Option<seq<string>>)
    requires IsTableFor(nodes, t.primaryNodeId, t) && CostsBounded(t) && ReachMarks(t)
    requires PrimaryRowFixed(t) && PredecessorsConsistent(nodes, t)
    requires path.Some? ==> IsLinkPath(t, path.value, start, t.primaryNodeId)
    requires path.None? ==> exists p :: IsDeadEndChain(t, p, start, t.primaryNodeId)
    requires start == t.primaryNodeId ==> path == Some([start])
    requires NonNegativeCosts(nodes) ==> LowestCosts(nodes, t)
    ensures AnswersQuery(nodes, start, t.primaryNodeId, path)
  {
    assert RowIds(t.rows) == Ids(nodes);
    if path.Some? {
      var p := path.value;
      LinkPathIsWalk(nodes, t, p, start);
      var w := Reversed(p);
      var i := IndexOf(RowIds(t.rows), start);
      assert RowOf(t, start).lowestCost < INF by {
        if |p| > 1 {
          assert t.rows[i].neighborNodeId.Some?;
        } else {
          assert start == t.primaryNodeId;
        }
      }
      assert w[0] == t.primaryNodeId && w[|w| - 1] == start;
      assert ReachableBelow(nodes, t.primaryNodeId, start, INF);
    } else {
      var p :| IsDeadEndChain(t, p, start, t.primaryNodeId);
      DeadEndStart(nodes, t, p, start);
      if LowestCosts(nodes, t) {
        forall w | IsWalk(nodes, w) && w[0] == t.primaryNodeId && w[|w| - 1] == start
          ensures WalkCost(nodes, w) >= INF
        {
        }
      }
    }
  }
}
