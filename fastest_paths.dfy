/** What a fastest-path table promises, and the facts about tables that the
    engine's main loop establishes: shape, the int.MaxValue marks, the
    predecessor links, their acyclicity and the lowest-cost bound. */
module FastestPaths {
  import opened Common
  import opened Graph

  function IndexOf(s: seq<string>, x: string): (r: nat)
    requires x in s
    ensures r < |s| && s[r] == x
    ensures forall j :: 0 <= j < r ==> s[j] != x
  {
    if s[0] == x then 0 else 1 + IndexOf(s[1..], x)
  }

  /** Over distinct ids, the first position of `x` is the one the
      dictionary holds. */
  lemma IndexOfById(ids: seq<string>, x: string)
    requires Distinct(ids) && x in ids
    ensures x in IndexById(ids) && IndexOf(ids, x) == IndexById(ids)[x]
  {
  }

  /** The row of `id`, found the way rowsByNodeId finds it. */
  function RowOf(t: FastestPathTable, id: string): FastestPathRow
    requires id in RowIds(t.rows)
  {
    t.rows[IndexOf(RowIds(t.rows), id)]
  }

  /** One row per node, in input order, rooted at `primary`. */
  predicate IsTableFor(nodes: seq<Node>, primary: string, t: FastestPathTable)
  {
    t.primaryNodeId == primary && |t.rows| == |nodes| &&
    forall i :: 0 <= i < |nodes| ==> t.rows[i].nodeId == nodes[i].id
  }

  predicate CostsBounded(t: FastestPathTable)
  {
    forall i :: 0 <= i < |t.rows| ==> t.rows[i].lowestCost <= INF
  }

  /** A row has a finite cost exactly when it is the primary row or has a
      predecessor. */
  predicate ReachMarks(t: FastestPathTable)
  {
    forall i :: 0 <= i < |t.rows| ==>
      ((t.rows[i].neighborNodeId.Some? || t.rows[i].nodeId == t.primaryNodeId) <==> t.rows[i].lowestCost < INF)
  }

  predicate PrimaryRowFixed(t: FastestPathTable)
  {
    forall i :: 0 <= i < |t.rows| && t.rows[i].nodeId == t.primaryNodeId ==>
      t.rows[i].lowestCost == 0 && t.rows[i].neighborNodeId.None?
  }

  /** Every predecessor p of a row is a finite row, and the row's cost is p's
      cost plus the cost p declares for its edge to the row. */
  predicate PredecessorsConsistent(nodes: seq<Node>, t: FastestPathTable)
  {
    forall i :: 0 <= i < |t.rows| && t.rows[i].neighborNodeId.Some? ==>
      var p := t.rows[i].neighborNodeId.value;
      && p in RowIds(t.rows)
      && RowOf(t, p).lowestCost < INF
      && EdgeCost(nodes, p, t.rows[i].nodeId) == Some(t.rows[i].lowestCost - RowOf(t, p).lowestCost)
  }

  /** A rank that strictly decreases along every predecessor link. */
  predicate Ranked(t: FastestPathTable, rank: map<string, nat>)
  {
    forall i :: 0 <= i < |t.rows| && t.rows[i].neighborNodeId.Some? ==>
      && t.rows[i].nodeId in rank
      && t.rows[i].neighborNodeId.value in rank
      && rank[t.rows[i].neighborNodeId.value] < rank[t.rows[i].nodeId]
  }

  ghost predicate AcyclicPredecessors(t: FastestPathTable)
  {
    exists rank :: Ranked(t, rank)
  }

  /** No walk from the primary node is cheaper than the row of its end. */
  ghost predicate LowestCosts(nodes: seq<Node>, t: FastestPathTable)
  {
    forall w :: IsWalk(nodes, w) && w[0] == t.primaryNodeId && w[|w| - 1] in RowIds(t.rows) ==>
      RowOf(t, w[|w| - 1]).lowestCost <= WalkCost(nodes, w)
  }

  // ---------------------------------------------------------------------
  // Facts about the main loop's state: rows indexed like the nodes.

  /** Every visited row is no costlier than every unvisited row. */
  predicate VisitedFirst(nodes: seq<Node>, rows: seq<FastestPathRow>, visited: set<string>)
    requires |rows| == |nodes|
  {
    forall i, j :: 0 <= i < |nodes| && 0 <= j < |nodes| && nodes[i].id in visited && nodes[j].id !in visited ==>
      rows[i].lowestCost <= rows[j].lowestCost
  }

  /** Every edge out of a visited node is relaxed. */
  predicate VisitedRelaxed(nodes: seq<Node>, rows: seq<FastestPathRow>, visited: set<string>, index: map<string, nat>)
    requires |rows| == |nodes|
  {
    forall i, k :: 0 <= i < |nodes| && nodes[i].id in visited && 0 <= k < |nodes[i].neighbors| ==>
      && nodes[i].neighbors[k].nodeId in index
      && index[nodes[i].neighbors[k].nodeId] < |rows|
      && rows[index[nodes[i].neighbors[k].nodeId]].lowestCost <= rows[i].lowestCost + nodes[i].neighbors[k].cost
  }

  /** How the main loop can end: at most one node left unvisited, or no
      unvisited row with a finite cost. */
  predicate LoopDone(nodes: seq<Node>, rows: seq<FastestPathRow>, visited: set<string>)
    requires |rows| == |nodes|
  {
    || (forall i, j :: 0 <= i < |nodes| && 0 <= j < |nodes| && nodes[i].id !in visited && nodes[j].id !in visited ==> i == j)
    || (forall j :: 0 <= j < |nodes| && nodes[j].id !in visited ==> rows[j].lowestCost >= INF)
  }

  lemma WalkPrefix(nodes: seq<Node>, w: seq<string>, m: nat)
    requires IsWalk(nodes, w) && 1 <= m <= |w|
    ensures IsWalk(nodes, w[..m])
  {
  }

  /** Extending a walk by one node adds the cost of the edge to it. */
  lemma WalkLastEdge(nodes: seq<Node>, w: seq<string>, x: string)
    requires |w| >= 1 && IsWalk(nodes, w + [x])
    ensures IsWalk(nodes, w) && EdgeCost(nodes, w[|w| - 1], x).Some?
    ensures WalkCost(nodes, w + [x]) == WalkCost(nodes, w) + EdgeCost(nodes, w[|w| - 1], x).value
  {
    var v := w + [x];
    assert v[..|v| - 1] == w;
    assert v[|v| - 2] == w[|w| - 1] && v[|v| - 1] == x;
  }

  lemma WalkConcat(nodes: seq<Node>, w: seq<string>, x: string)
    requires IsWalk(nodes, w) && x in Ids(nodes) && EdgeCost(nodes, w[|w| - 1], x).Some?
    ensures IsWalk(nodes, w + [x])
  {
    var v := w + [x];
    forall i | 0 <= i < |v| ensures v[i] in Ids(nodes) {
      if i < |w| {
        assert v[i] == w[i];
      }
    }
    forall i | 0 <= i < |v| - 1 ensures EdgeCost(nodes, v[i], v[i + 1]).Some? {
      if i < |w| - 1 {
        assert v[i] == w[i] && v[i + 1] == w[i + 1];
      } else {
        assert v[i] == w[|w| - 1] && v[i + 1] == x;
      }
    }
  }

  /** A walk extended by one declared edge costs that edge more. */
  lemma WalkExtend(nodes: seq<Node>, w: seq<string>, x: string)
    requires IsWalk(nodes, w) && x in Ids(nodes) && EdgeCost(nodes, w[|w| - 1], x).Some?
    ensures IsWalk(nodes, w + [x])
    ensures WalkCost(nodes, w + [x]) == WalkCost(nodes, w) + EdgeCost(nodes, w[|w| - 1], x).value
  {
    WalkConcat(nodes, w, x);
    WalkLastEdge(nodes, w, x);
  }

  /** Dijkstra's bound: when the loop is done, no walk from the primary node
      costs less than the row of its end. */
  lemma {:induction false} WalkLowerBound(nodes: seq<Node>, rows: seq<FastestPathRow>, visited: set<string>,
                                          index: map<string, nat>, primary: string, w: seq<string>)
    requires |rows| == |nodes| && Distinct(Ids(nodes)) && index == IndexById(Ids(nodes)) && NonNegativeCosts(nodes)
    requires forall i :: 0 <= i < |rows| ==> rows[i].lowestCost <= INF
    requires primary in index && rows[index[primary]].lowestCost == 0
    requires VisitedFirst(nodes, rows, visited) && VisitedRelaxed(nodes, rows, visited, index)
    requires LoopDone(nodes, rows, visited)
    requires IsWalk(nodes, w) && w[0] == primary
    ensures rows[index[w[|w| - 1]]].lowestCost <= WalkCost(nodes, w)
    decreases |w|
  {
    if |w| > 1 {
      var n := |w|;
      var w' := w[..n - 1];
      WalkPrefix(nodes, w, n - 1);
      WalkLowerBound(nodes, rows, visited, index, primary, w');
      var x, y := w[n - 2], w[n - 1];
      assert w'[|w'| - 1] == x;
      var c := EdgeCost(nodes, x, y).value;
      assert WalkCost(nodes, w) == WalkCost(nodes, w') + c;
      var i, k := EdgeCostSome(nodes, x, y);
      assert c >= 0;
      var ix, iy := index[x], index[y];
      assert ix == i;
      if x in visited {
        assert nodes[i].neighbors[k].nodeId == y;
      } else if nodes[iy].id !in visited && iy != ix {
        assert rows[ix].lowestCost >= INF;
      } else if iy != ix {
        assert rows[ix].lowestCost >= INF || rows[iy].lowestCost <= rows[ix].lowestCost;
      }
    }
  }

  lemma DistinctCard(ids: seq<string>)
    requires Distinct(ids)
    ensures |set x | x in ids| == |ids|
  {
    if |ids| > 0 {
      var tail := ids[1..];
      DistinctCard(tail);
      assert (set x | x in ids) == (set x | x in tail) + {ids[0]};
      assert ids[0] !in tail;
    }
  }

  /** Two distinct unvisited ids leave room for at most n - 2 visited ones. */
  lemma TwoUnvisited(nodes: seq<Node>, visited: set<string>, i: nat, j: nat)
    requires Distinct(Ids(nodes)) && i < |nodes| && j < |nodes|
    requires forall x :: x in visited ==> x in Ids(nodes)
    ensures i != j && nodes[i].id !in visited && nodes[j].id !in visited ==> |visited| <= |nodes| - 2
  {
    if i != j && nodes[i].id !in visited && nodes[j].id !in visited {
      DistinctCard(Ids(nodes));
      var all := set x | x in Ids(nodes);
      assert Ids(nodes)[i] != Ids(nodes)[j];
      var rest := all - {nodes[i].id, nodes[j].id};
      assert visited <= rest;
      SubsetCard(visited, rest);
      assert all == rest + {nodes[i].id, nodes[j].id};
    }
  }

  lemma AtMostOneUnvisited(nodes: seq<Node>, visited: set<string>)
    requires Distinct(Ids(nodes))
    requires forall x :: x in visited ==> x in Ids(nodes)
    requires |visited| >= |nodes| - 1
    ensures forall i, j :: 0 <= i < |nodes| && 0 <= j < |nodes| && nodes[i].id !in visited && nodes[j].id !in visited ==> i == j
  {
    forall i, j | 0 <= i < |nodes| && 0 <= j < |nodes| && nodes[i].id !in visited && nodes[j].id !in visited
      ensures i == j
    {
      TwoUnvisited(nodes, visited, i, j);
    }
  }

  // ---------------------------------------------------------------------
  // Following predecessor links

  /** `p` starts at `start` and follows predecessor links, passing `end`
      nowhere before its last element. */
  predicate LinkChain(t: FastestPathTable, p: seq<string>, start: string, end: string)
  {
    && |p| >= 1 && p[0] == start
    && (forall k :: 0 <= k < |p| ==> p[k] in RowIds(t.rows))
    && (forall k :: 0 <= k < |p| - 1 ==> p[k] != end && RowOf(t, p[k]).neighborNodeId == Some(p[k + 1]))
  }

  /** The links lead from `start` to `end`. */
  predicate IsLinkPath(t: FastestPathTable, p: seq<string>, start: string, end: string)
  {
    LinkChain(t, p, start, end) && p[|p| - 1] == end
  }

  /** The links from `start` stop at a row without a predecessor before
      reaching `end`. */
  predicate IsDeadEndChain(t: FastestPathTable, p: seq<string>, start: string, end: string)
  {
    LinkChain(t, p, start, end) && p[|p| - 1] != end && RowOf(t, p[|p| - 1]).neighborNodeId.None?
  }

  /** Every predecessor names a row of the table. */
  predicate LinksInTable(t: FastestPathTable)
  {
    forall i :: 0 <= i < |t.rows| && t.rows[i].neighborNodeId.Some? ==> t.rows[i].neighborNodeId.value in RowIds(t.rows)
  }

  /** `to` is reachable from `from` along a walk cheaper than `bound`. */
  ghost predicate ReachableBelow(nodes: seq<Node>, from: string, to: string, bound: int)
  {
    exists w :: IsWalk(nodes, w) && w[0] == from && w[|w| - 1] == to && WalkCost(nodes, w) < bound
  }

  lemma PredecessorEdge(nodes: seq<Node>, t: FastestPathTable, i: nat)
    requires PredecessorsConsistent(nodes, t) && i < |t.rows| && t.rows[i].neighborNodeId.Some?
    ensures var p := t.rows[i].neighborNodeId.value;
      p in RowIds(t.rows) && EdgeCost(nodes, p, t.rows[i].nodeId) == Some(t.rows[i].lowestCost - RowOf(t, p).lowestCost)
  {
  }

  /** Read backwards, a link path to the primary node is a walk from it whose
      cost is the cost recorded for its start. */
  lemma {:induction false} LinkPathIsWalk(nodes: seq<Node>, t: FastestPathTable, p: seq<string>, start: string)
    requires IsTableFor(nodes, t.primaryNodeId, t) && PredecessorsConsistent(nodes, t) && PrimaryRowFixed(t)
    requires IsLinkPath(t, p, start, t.primaryNodeId)
    ensures IsWalk(nodes, Reversed(p)) && WalkCost(nodes, Reversed(p)) == RowOf(t, start).lowestCost
    decreases |p|
  {
    assert RowIds(t.rows) == Ids(nodes);
    if |p| == 1 {
      assert Reversed(p) == [t.primaryNodeId];
    } else {
      var p' := p[1..];
      assert IsLinkPath(t, p', p[1], t.primaryNodeId);
      LinkPathIsWalk(nodes, t, p', p[1]);
      var w, w' := Reversed(p), Reversed(p');
      assert w == w' + [start];
      var i := IndexOf(RowIds(t.rows), start);
      assert t.rows[i] == RowOf(t, start) && t.rows[i].neighborNodeId == Some(p[1]);
      PredecessorEdge(nodes, t, i);
      WalkExtend(nodes, w', start);
    }
  }

  /** The last element of a link chain of two or more is some row's
      predecessor, so it is finite. */
  lemma ChainEndFinite(nodes: seq<Node>, t: FastestPathTable, p: seq<string>, start: string, end: string)
    requires PredecessorsConsistent(nodes, t) && LinkChain(t, p, start, end)
    ensures |p| >= 2 ==> RowOf(t, p[|p| - 1]).lowestCost < INF
  {
    if |p| >= 2 {
      var i := IndexOf(RowIds(t.rows), p[|p| - 2]);
      assert t.rows[i].neighborNodeId == Some(p[|p| - 1]);
    }
  }

  /** A dead-end chain to the primary node is its start alone, and that row
      was never reached. */
  lemma DeadEndStart(nodes: seq<Node>, t: FastestPathTable, p: seq<string>, start: string)
    requires PredecessorsConsistent(nodes, t) && ReachMarks(t) && CostsBounded(t)
    requires IsDeadEndChain(t, p, start, t.primaryNodeId)
    ensures |p| == 1 && start != t.primaryNodeId && RowOf(t, start).lowestCost == INF
  {
    ChainEndFinite(nodes, t, p, start, t.primaryNodeId);
    var last := IndexOf(RowIds(t.rows), p[|p| - 1]);
    assert t.rows[last].lowestCost >= INF;
  }
}
