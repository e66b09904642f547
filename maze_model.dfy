/** The maze vocabulary: directions, cells, mazes, grid positions, the pure
    direction helpers of the maze service, and the value-level view of a
    grid (rows of cells) that the carving proofs reason about. */
module Mazes {
  import opened Common

  datatype Direction = North | South | East | West

  /** A cell and the directions in which a passage leaves it, in the order
      they were added. */
  datatype MazeCell = MazeCell(id: string, passages: seq<Direction>)

  /** Cells are listed row by row: top to bottom, left to right. */
  datatype Maze = Maze(cells: seq<MazeCell>, height: int, width: int)

  datatype SolveMazeRequest = SolveMazeRequest(maze: Maze, startPointId: string, endPointId: string)

  // ---------------------------------------------------------------------
  // The pure helpers of the service

  function CalculateNextX(currentX: int, direction: Direction): int
  {
    match direction
    case East => currentX + 1
    case West => currentX - 1
    case _ => currentX
  }

  function CalculateNextY(currentY: int, direction: Direction): int
  {
    match direction
    case North => currentY - 1
    case South => currentY + 1
    case _ => currentY
  }

  function FindOppositeDirection(direction: Direction): Direction
  {
    match direction
    case North => South
    case South => North
    case East => West
    case West => East
  }

  function PickNeighborCell(northCell: Option<MazeCell>, southCell: Option<MazeCell>, eastCell: Option<MazeCell>,
                            westCell: Option<MazeCell>, direction: Direction): Option<MazeCell>
  {
    match direction
    case North => northCell
    case South => southCell
    case East => eastCell
    case West => westCell
  }

  // ---------------------------------------------------------------------
  // Positions and steps

  /** A grid position: row (the y of the service) and column (its x). */
  datatype Pos = Pos(row: int, col: int)

  function Step(p: Pos, d: Direction): Pos
  {
    Pos(CalculateNextY(p.row, d), CalculateNextX(p.col, d))
  }

  predicate InGrid(p: Pos, height: int, width: int)
  {
    0 <= p.row < height && 0 <= p.col < width
  }

  /** Two positions that share a side. */
  predicate Adjacent(p: Pos, q: Pos)
  {
    (p.row == q.row && (q.col == p.col + 1 || q.col == p.col - 1))
    || (p.col == q.col && (q.row == p.row + 1 || q.row == p.row - 1))
  }

  /** FindOppositeDirection is an involution without fixed points. */
  lemma OppositeInvolution(d: Direction)
    ensures FindOppositeDirection(FindOppositeDirection(d)) == d
    ensures FindOppositeDirection(d) != d
  {
  }

  /** A step moves to a side-sharing position, and stepping in the opposite
      direction comes back. */
  lemma StepBack(p: Pos, d: Direction)
    ensures Adjacent(p, Step(p, d))
    ensures Step(Step(p, d), FindOppositeDirection(d)) == p
  {
  }

  /** Every side-sharing position is one step away, in exactly one direction. */
  lemma StepTo(p: Pos, q: Pos) returns (d: Direction)
    requires Adjacent(p, q)
    ensures Step(p, d) == q
    ensures forall e :: Step(p, e) == q ==> e == d
  {
    if q.row == p.row - 1 {
      d := North;
    } else if q.row == p.row + 1 {
      d := South;
    } else if q.col == p.col + 1 {
      d := East;
    } else {
      d := West;
    }
  }

  /** Different directions lead to different positions. */
  lemma StepInjective(p: Pos, d: Direction, e: Direction)
    requires Step(p, d) == Step(p, e)
    ensures d == e
  {
  }

  // ---------------------------------------------------------------------
  // A grid as rows of cells

  /** The contents of a grid: `g[r][c]` is the cell at row r, column c. */
  type Rows = seq<seq<MazeCell>>

  predicate Shaped(g: Rows, height: int, width: int)
  {
    |g| == height && forall r :: 0 <= r < |g| ==> |g[r]| == width
  }

  function At(g: Rows, p: Pos): MazeCell
    requires 0 <= p.row < |g| && 0 <= p.col < |g[p.row]|
  {
    g[p.row][p.col]
  }

  /** Every passage leads to a cell of the grid, which has the opposite
      passage back. */
  predicate Reciprocal(g: Rows, height: int, width: int)
    requires Shaped(g, height, width)
  {
    forall r, c :: 0 <= r < height && 0 <= c < width ==> CellReciprocal(g, height, width, r, c)
  }

  /** Every passage of the cell at row r, column c leads to a cell of the
      grid, which has the opposite passage back. */
  predicate CellReciprocal(g: Rows, height: int, width: int, r: int, c: int)
    requires Shaped(g, height, width) && 0 <= r < height && 0 <= c < width
  {
    forall k :: 0 <= k < |g[r][c].passages| ==>
      var q := Step(Pos(r, c), g[r][c].passages[k]);
      InGrid(q, height, width) && FindOppositeDirection(g[r][c].passages[k]) in g[q.row][q.col].passages
  }

  /** No cell lists the same direction twice. */
  predicate NoRepeatedPassages(g: Rows, height: int, width: int)
    requires Shaped(g, height, width)
  {
    forall r, c, i, j :: 0 <= r < height && 0 <= c < width && 0 <= i < j < |g[r][c].passages| ==>
      g[r][c].passages[i] != g[r][c].passages[j]
  }

  /** `g` is `g0` with passages appended to some cells: ids are kept and the
      old passages are a prefix of the new ones. */
  predicate Grows(g0: Rows, g: Rows, height: int, width: int)
  {
    && Shaped(g0, height, width) && Shaped(g, height, width)
    && forall r, c :: 0 <= r < height && 0 <= c < width ==>
         g[r][c].id == g0[r][c].id && g0[r][c].passages <= g[r][c].passages
  }

  /** All positions of a grid. */
  function Positions(height: int, width: int): (ps: set<Pos>)
    ensures forall p :: p in ps <==> InGrid(p, height, width)
  {
    var ps := set r, c | 0 <= r < height && 0 <= c < width :: Pos(r, c);
    assert forall p :: InGrid(p, height, width) ==> Pos(p.row, p.col) in ps;
    ps
  }

  /** The first `n` positions of row `r`. */
  function RowPositions(r: int, n: int): (ps: set<Pos>)
    requires n >= 0
    ensures forall p :: p in ps <==> p.row == r && 0 <= p.col < n
    ensures |ps| == n
  {
    if n == 0 then {} else RowPositions(r, n - 1) + {Pos(r, n - 1)}
  }

  /** A grid has height * width positions. */
  lemma {:induction false} PositionsCard(height: nat, width: nat)
    ensures |Positions(height, width)| == height * width
  {
    if height > 0 {
      PositionsCard(height - 1, width);
      PositionsSplit(height, width);
      var top, last := Positions(height - 1, width), RowPositions(height - 1, width);
      assert |top + last| == |top| + |last|;
      MulPred(height, width);
    }
  }

  lemma MulPred(a: int, b: int)
    ensures (a - 1) * b + b == a * b
  {
  }

  /** The positions of a grid are those above its last row and those of
      its last row. */
  lemma PositionsSplit(height: nat, width: nat)
    requires height > 0
    ensures Positions(height, width) == Positions(height - 1, width) + RowPositions(height - 1, width)
    ensures Positions(height - 1, width) * RowPositions(height - 1, width) == {}
  {
  }

  /** The positions whose cell has no passage yet. */
  function EmptyCells(g: Rows, height: int, width: int): (e: set<Pos>)
    requires Shaped(g, height, width)
    ensures forall p :: p in e <==> InGrid(p, height, width) && g[p.row][p.col].passages == []
  {
    set p | p in Positions(height, width) && g[p.row][p.col].passages == []
  }

  /** A passage of the cell at `a` leads to `b`. */
  predicate Linked(g: Rows, height: int, width: int, a: Pos, b: Pos)
    requires Shaped(g, height, width)
  {
    InGrid(a, height, width) && exists d :: d in g[a.row][a.col].passages && Step(a, d) == b
  }

  /** A sequence of grid positions, each linked to the next by a passage. */
  predicate PassagePath(g: Rows, height: int, width: int, p: seq<Pos>)
    requires Shaped(g, height, width)
  {
    && |p| >= 1
    && (forall i :: 0 <= i < |p| ==> InGrid(p[i], height, width))
    && (forall i :: 0 <= i < |p| - 1 ==> Linked(g, height, width, p[i], p[i + 1]))
  }

  lemma GrowsTransitive(g0: Rows, g1: Rows, g2: Rows, height: int, width: int)
    requires Grows(g0, g1, height, width) && Grows(g1, g2, height, width)
    ensures Grows(g0, g2, height, width)
  {
    forall r, c | 0 <= r < height && 0 <= c < width
      ensures g0[r][c].passages <= g2[r][c].passages
    {
      var a, b, e := g0[r][c].passages, g1[r][c].passages, g2[r][c].passages;
      assert a == b[..|a|] && b == e[..|b|];
      assert a == e[..|a|];
    }
  }

  /** Growing only empties fewer cells. */
  lemma GrowsEmptyCells(g0: Rows, g: Rows, height: int, width: int)
    requires Grows(g0, g, height, width)
    ensures EmptyCells(g, height, width) <= EmptyCells(g0, height, width)
  {
    forall p | p in EmptyCells(g, height, width)
      ensures p in EmptyCells(g0, height, width)
    {
      assert g0[p.row][p.col].passages <= g[p.row][p.col].passages;
    }
  }

  /** Paths made of passages survive growth. */
  lemma GrowsPassagePath(g0: Rows, g: Rows, height: int, width: int, p: seq<Pos>)
    requires Grows(g0, g, height, width) && PassagePath(g0, height, width, p)
    ensures PassagePath(g, height, width, p)
  {
    forall i | 0 <= i < |p| - 1
      ensures Linked(g, height, width, p[i], p[i + 1])
    {
      var a := p[i];
      var d :| d in g0[a.row][a.col].passages && Step(a, d) == p[i + 1];
      assert g0[a.row][a.col].passages <= g[a.row][a.col].passages;
    }
  }

  /** The reciprocity of one passage. */
  lemma ReciprocalAt(g: Rows, height: int, width: int, r: int, c: int, k: int)
    requires Shaped(g, height, width) && Reciprocal(g, height, width)
    requires 0 <= r < height && 0 <= c < width && 0 <= k < |g[r][c].passages|
    ensures var q := Step(Pos(r, c), g[r][c].passages[k]);
      InGrid(q, height, width) && FindOppositeDirection(g[r][c].passages[k]) in g[q.row][q.col].passages
  {
    assert CellReciprocal(g, height, width, r, c);
  }

  /** In a reciprocal grid every passage can be taken backwards. */
  lemma LinkedBack(g: Rows, height: int, width: int, a: Pos, b: Pos)
    requires Shaped(g, height, width) && Reciprocal(g, height, width) && Linked(g, height, width, a, b)
    ensures Linked(g, height, width, b, a)
  {
    var ps := g[a.row][a.col].passages;
    var d :| d in ps && Step(a, d) == b;
    var k :| 0 <= k < |ps| && ps[k] == d;
    ReciprocalAt(g, height, width, a.row, a.col, k);
    StepBack(a, d);
    assert FindOppositeDirection(d) in g[b.row][b.col].passages && Step(b, FindOppositeDirection(d)) == a;
  }

  /** In a reciprocal grid every path of passages can be walked backwards. */
  lemma ReversedPassagePath(g: Rows, height: int, width: int, p: seq<Pos>)
    requires Shaped(g, height, width) && Reciprocal(g, height, width) && PassagePath(g, height, width, p)
    ensures PassagePath(g, height, width, Reversed(p))
  {
    var q := Reversed(p);
    forall i | 0 <= i < |q| - 1
      ensures Linked(g, height, width, q[i], q[i + 1])
    {
      var j := |p| - 2 - i;
      assert q[i] == p[j + 1] && q[i + 1] == p[j];
      LinkedBack(g, height, width, p[j], p[j + 1]);
    }
  }

  /** Two paths that meet can be joined. */
  lemma JoinedPassagePath(g: Rows, height: int, width: int, p: seq<Pos>, q: seq<Pos>)
    requires Shaped(g, height, width)
    requires PassagePath(g, height, width, p) && PassagePath(g, height, width, q)
    requires p[|p| - 1] == q[0]
    ensures PassagePath(g, height, width, p + q[1..])
  {
    var j := p + q[1..];
    forall i | 0 <= i < |j| - 1
      ensures Linked(g, height, width, j[i], j[i + 1])
    {
      if i < |p| - 1 {
        assert j[i] == p[i] && j[i + 1] == p[i + 1];
      } else {
        assert j[i] == q[i - |p| + 1] && j[i + 1] == q[i - |p| + 2];
      }
    }
  }
}
