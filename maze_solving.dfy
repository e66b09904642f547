/** What solving a generated maze gives: the maze converts exactly when its
    cell numbering is unique, its passages become cost-1 edges, and since
    every cell is reachable from the top-left cell, the shortest-path
    engine finds a path between any two cells. */
module MazeSolving {
  import opened Common
  import opened Graph
  import opened Mazes
  import opened MazeGeneration
  import opened MazeGraph
  import FastestPaths
  import Dijkstra

  /** The maze's list lays out `rows` row by row. */
  predicate LaidOut(m: Maze, rows: Rows)
  {
    && Laid(m) && Shaped(rows, m.height, m.width)
    && forall h, w :: 0 <= h < m.height && 0 <= w < m.width ==> CellAt(m, h, w) == rows[h][w]
  }

  lemma GeneratedLaidOut(m: Maze, rows: Rows)
    requires IsGeneratedMaze(m, rows)
    ensures LaidOut(m, rows)
  {
    FlattenLength(rows, m.height, m.width);
    forall h, w | 0 <= h < m.height && 0 <= w < m.width
      ensures CellAt(m, h, w) == rows[h][w]
    {
      FlattenAt(rows, m.height, m.width, h, w);
    }
  }

  /** The cell at list index i is the one at row i / width, column i % width. */
  lemma CellOfIndex(m: Maze, i: int)
    requires Laid(m) && 0 <= i < |m.cells|
    ensures 0 <= i / m.width < m.height && 0 <= i % m.width < m.width
    ensures (i / m.width) * m.width + i % m.width == i
    ensures CellAt(m, i / m.width, i % m.width) == m.cells[i]
  {
    IndexCell(i, m.height, m.width);
  }

  /** Every cell carries the id the grid layout gives it. */
  predicate Numbered(m: Maze)
    requires Laid(m)
  {
    forall h, w :: 0 <= h < m.height && 0 <= w < m.width ==>
      CellAt(m, h, w).id == NatToString(CellNumber(h, w, m.height))
  }

  lemma GeneratedNumbered(m: Maze, rows: Rows)
    requires IsGeneratedMaze(m, rows)
    ensures LaidOut(m, rows) && Numbered(m)
  {
    GeneratedLaidOut(m, rows);
  }

  /** The layout's ids are distinct exactly when the grid is no wider than
      it is high, or has one row. */
  lemma NumberedIdsDistinct(m: Maze)
    requires Laid(m) && Numbered(m)
    ensures Distinct(CellIds(m.cells)) <==> (m.width <= m.height || m.height <= 1)
  {
    if m.width <= m.height || m.height <= 1 {
      NumberedDistinct(m);
    } else {
      NumberedCollision(m);
    }
  }

  lemma NumberedDistinct(m: Maze)
    requires Laid(m) && Numbered(m) && (m.width <= m.height || m.height <= 1)
    ensures Distinct(CellIds(m.cells))
  {
    forall i, j | 0 <= i < j < |m.cells|
      ensures CellIds(m.cells)[i] != CellIds(m.cells)[j]
    {
      IndexIdsDiffer(m, i, j);
    }
  }

  lemma IndexIdsDiffer(m: Maze, i: int, j: int)
    requires Laid(m) && Numbered(m) && (m.width <= m.height || m.height <= 1)
    requires 0 <= i < j < |m.cells|
    ensures m.cells[i].id != m.cells[j].id
  {
    CellOfIndex(m, i);
    CellOfIndex(m, j);
    var p, q := Pos(i / m.width, i % m.width), Pos(j / m.width, j % m.width);
    NumbersDiffer(p, q, m.height, m.width);
    if m.cells[i].id == m.cells[j].id {
      NatToStringInjective(CellNumber(p.row, p.col, m.height), CellNumber(q.row, q.col, m.height));
    }
  }

  /** On a grid with more columns than rows and more than one row, the cell
      in row 0, column height and the cell in row 1, column 0 share an id. */
  lemma NumberedCollision(m: Maze)
    requires Laid(m) && Numbered(m) && m.width > m.height > 1
    ensures m.height < m.width < |m.cells| && m.cells[m.height].id == m.cells[m.width].id
  {
    CellIndexBound(1, 0, m.height, m.width);
    assert CellAt(m, 0, m.height).id == CellAt(m, 1, 0).id;
  }

  /** A generated maze converts exactly when its ids are distinct; otherwise
      the conversion reports a duplicate cell id. Its cells never list a
      direction twice. */
  lemma GeneratedConversion(m: Maze, rows: Rows)
    requires IsGeneratedMaze(m, rows)
    ensures Laid(m) && CellPassagesDistinct(m)
    ensures Conversion(m).Ok? <==> (m.width <= m.height || m.height <= 1)
    ensures Conversion(m).Failure? ==> Conversion(m).error.DuplicateCellId?
  {
    GeneratedNumbered(m, rows);
    NumberedIdsDistinct(m);
    forall i | 0 <= i < |m.cells|
      ensures !IsBlank(m.cells[i].id)
      ensures forall a, b :: 0 <= a < b < |m.cells[i].passages| ==> m.cells[i].passages[a] != m.cells[i].passages[b]
    {
      CellOfIndex(m, i);
      NatToStringNotBlank(CellNumber(i / m.width, i % m.width, m.height));
    }
    ConversionOkIff(m);
    CellIndexBound(0, 0, m.height, m.width);
    assert MazeRules(m).None?;
  }

  // ---------------------------------------------------------------------
  // Passages become edges

  /** A passage from a to b is a cost-1 edge of the converted graph. */
  lemma LinkedEdge(m: Maze, rows: Rows, a: Pos, b: Pos)
    requires LaidOut(m, rows) && Distinct(CellIds(m.cells))
    requires Linked(rows, m.height, m.width, a, b) && InGrid(b, m.height, m.width)
    ensures EdgeCost(ConvertedNodes(m), CellAt(m, a.row, a.col).id, CellAt(m, b.row, b.col).id) == Some(1)
  {
    var i := a.row * m.width + a.col;
    CellIndexBound(a.row, a.col, m.height, m.width);
    CellIndex(a.row, a.col, m.width);
    var d :| d in rows[a.row][a.col].passages && Step(a, d) == b;
    assert m.cells[i] == rows[a.row][a.col];
    ConvertedEdgeCost(m, i, CellAt(m, b.row, b.col).id);
  }

  /** The ids of the cells along a sequence of positions. */
  function PathIds(m: Maze, p: seq<Pos>): (ids: seq<string>)
    requires Laid(m) && forall i :: 0 <= i < |p| ==> InGrid(p[i], m.height, m.width)
    ensures |ids| == |p|
  {
    seq(|p|, i requires 0 <= i < |p| && InGrid(p[i], m.height, m.width) => CellAt(m, p[i].row, p[i].col).id)
  }

  /** A path of passages is a walk of the converted graph whose cost is its
      number of steps. */
  lemma {:induction false} PathWalk(m: Maze, rows: Rows, p: seq<Pos>)
    requires LaidOut(m, rows) && Distinct(CellIds(m.cells)) && PassagePath(rows, m.height, m.width, p)
    ensures IsWalk(ConvertedNodes(m), PathIds(m, p))
    ensures WalkCost(ConvertedNodes(m), PathIds(m, p)) == |p| - 1
    decreases |p|
  {
    var nodes := ConvertedNodes(m);
    var last := p[|p| - 1];
    CellIndexBound(last.row, last.col, m.height, m.width);
    var x := CellAt(m, last.row, last.col).id;
    assert x == Ids(nodes)[last.row * m.width + last.col];
    if |p| == 1 {
      assert PathIds(m, p) == [x];
    } else {
      var init := p[..|p| - 1];
      assert PassagePath(rows, m.height, m.width, init) by {
        forall i | 0 <= i < |init| - 1
          ensures Linked(rows, m.height, m.width, init[i], init[i + 1])
        {
          assert init[i] == p[i] && init[i + 1] == p[i + 1];
        }
      }
      PathWalk(m, rows, init);
      var w := PathIds(m, init);
      PathIdsSnoc(m, p);
      var y := CellAt(m, p[|p| - 2].row, p[|p| - 2].col).id;
      assert w[|w| - 1] == y;
      LinkedEdge(m, rows, p[|p| - 2], last);
      FastestPaths.WalkExtend(nodes, w, x);
    }
  }

  lemma PathIdsSnoc(m: Maze, p: seq<Pos>)
    requires Laid(m) && |p| > 0 && forall i :: 0 <= i < |p| ==> InGrid(p[i], m.height, m.width)
    ensures PathIds(m, p) == PathIds(m, p[..|p| - 1]) + [CellAt(m, p[|p| - 1].row, p[|p| - 1].col).id]
  {
  }

  // ---------------------------------------------------------------------
  // Generated mazes are solvable

  /** Any two cells of a generated maze are joined by a path of passages
      through at most 2 * height * width + 1 cells: back to the top-left
      cell and out again. */
  lemma GeneratedPath(m: Maze, rows: Rows, a: Pos, b: Pos) returns (path: seq<Pos>)
    requires IsGeneratedMaze(m, rows) && InGrid(a, m.height, m.width) && InGrid(b, m.height, m.width)
    ensures PassagePath(rows, m.height, m.width, path) && path[0] == a && path[|path| - 1] == b
    ensures |path| <= 2 * (m.height * m.width) + 1
  {
    var origin := Pos(0, 0);
    assert ReachedFrom(rows, m.height, m.width, origin, a, m.height * m.width + 1);
    assert ReachedFrom(rows, m.height, m.width, origin, b, m.height * m.width + 1);
    var pa :| PassagePath(rows, m.height, m.width, pa) && pa[0] == origin && pa[|pa| - 1] == a && |pa| <= m.height * m.width + 1;
    var pb :| PassagePath(rows, m.height, m.width, pb) && pb[0] == origin && pb[|pb| - 1] == b && |pb| <= m.height * m.width + 1;
    ReversedPassagePath(rows, m.height, m.width, pa);
    var ra := Reversed(pa);
    JoinedPassagePath(rows, m.height, m.width, ra, pb);
    path := ra + pb[1..];
  }

  /** On a generated maze with distinct ids and at most 100 x 100 cells,
      every cell reaches every other cell along edges costing less than
      int.MaxValue in total. */
  lemma GeneratedWalk(m: Maze, rows: Rows, a: Pos, b: Pos)
    requires IsGeneratedMaze(m, rows) && m.height <= 100 && m.width <= 100 && Distinct(CellIds(m.cells))
    requires InGrid(a, m.height, m.width) && InGrid(b, m.height, m.width)
    ensures Laid(m)
    ensures FastestPaths.ReachableBelow(ConvertedNodes(m), CellAt(m, a.row, a.col).id, CellAt(m, b.row, b.col).id, INF)
  {
    GeneratedNumbered(m, rows);
    var nodes := ConvertedNodes(m);
    var path := GeneratedPath(m, rows, a, b);
    PathWalk(m, rows, path);
    var w := PathIds(m, path);
    MulMonotone(m.height, 100, m.width);
    assert IsWalk(nodes, w) && w[0] == CellAt(m, a.row, a.col).id && w[|w| - 1] == CellAt(m, b.row, b.col).id;
  }

  /** The same, for two cells named by their ids. */
  lemma GeneratedReach(m: Maze, rows: Rows, start: string, end: string)
    requires IsGeneratedMaze(m, rows) && m.height <= 100 && m.width <= 100 && Distinct(CellIds(m.cells))
    requires start in CellIds(m.cells) && end in CellIds(m.cells)
    ensures Laid(m) && FastestPaths.ReachableBelow(ConvertedNodes(m), end, start, INF)
  {
    GeneratedNumbered(m, rows);
    var i :| 0 <= i < |m.cells| && CellIds(m.cells)[i] == start;
    var j :| 0 <= j < |m.cells| && CellIds(m.cells)[j] == end;
    CellOfIndex(m, i);
    CellOfIndex(m, j);
    GeneratedWalk(m, rows, Pos(j / m.width, j % m.width), Pos(i / m.width, i % m.width));
  }

  /** With non-negative costs, an answer to a query whose start the end
      reaches is a path. */
  lemma AnswerIsPath(nodes: seq<Node>, start: string, end: string, answer: Option<seq<string>>)
    requires NonNegativeCosts(nodes) && FastestPaths.ReachableBelow(nodes, end, start, INF)
    requires Dijkstra.AnswersQuery(nodes, start, end, answer)
    ensures answer.Some?
  {
  }

  /** On a generated maze no wider than it is high (or with one row), of at
      most 100 x 100 cells, every answer the shortest-path engine can give
      between two cells is a path. */
  lemma GeneratedMazeSolvable(m: Maze, rows: Rows, start: string, end: string)
    requires IsGeneratedMaze(m, rows) && m.height <= 100 && m.width <= 100
    requires m.width <= m.height || m.height <= 1
    requires start in CellIds(m.cells) && end in CellIds(m.cells)
    ensures Conversion(m).Ok? && CellPassagesDistinct(m)
    ensures FastestPaths.ReachableBelow(Conversion(m).value, end, start, INF)
    ensures forall answer :: Dijkstra.AnswersQuery(Conversion(m).value, start, end, answer) ==> answer.Some?
  {
    GeneratedConversion(m, rows);
    GeneratedNumbered(m, rows);
    NumberedIdsDistinct(m);
    var nodes := ConvertedNodes(m);
    assert Conversion(m).value == nodes;
    ConvertedGraphShape(m);
    GeneratedReach(m, rows, start, end);
    forall answer | Dijkstra.AnswersQuery(nodes, start, end, answer)
      ensures answer.Some?
    {
      AnswerIsPath(nodes, start, end, answer);
    }
  }
}
