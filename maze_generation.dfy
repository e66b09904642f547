/** Maze generation by recursive backtracking over a two-dimensional grid of
    cells: the grid is laid out with numbered cells, passages are carved from
    the top-left cell, and the grid is flattened row by row into a maze. */
module MazeGeneration {
  import opened Common
  import opened Mazes

  // ---------------------------------------------------------------------
  // Reading the grid as rows

  /** The first `n` cells of row `h` of the grid. */
  function GridRow(grid: array2<MazeCell>, h: int, n: int): (row: seq<MazeCell>)
    reads grid
    requires 0 <= h < grid.Length0 && 0 <= n <= grid.Length1
    ensures |row| == n && forall w :: 0 <= w < n ==> row[w] == grid[h, w]
  {
    if n == 0 then [] else GridRow(grid, h, n - 1) + [grid[h, n - 1]]
  }

  /** The first `n` rows of the grid. */
  function GridRows(grid: array2<MazeCell>, n: int): (g: Rows)
    reads grid
    requires 0 <= n <= grid.Length0
    ensures |g| == n
    ensures forall h :: 0 <= h < n ==> |g[h]| == grid.Length1
    ensures forall h, w :: 0 <= h < n && 0 <= w < grid.Length1 ==> g[h][w] == grid[h, w]
  {
    if n == 0 then [] else GridRows(grid, n - 1) + [GridRow(grid, n - 1, grid.Length1)]
  }

  /** The whole grid, row by row. */
  function Snapshot(grid: array2<MazeCell>): (g: Rows)
    reads grid
    ensures Shaped(g, grid.Length0, grid.Length1)
    ensures forall h, w :: 0 <= h < grid.Length0 && 0 <= w < grid.Length1 ==> g[h][w] == grid[h, w]
  {
    GridRows(grid, grid.Length0)
  }

  /** The rows laid end to end: top to bottom, left to right. */
  function Flatten(g: Rows): seq<MazeCell>
  {
    if g == [] then [] else Flatten(g[..|g| - 1]) + g[|g| - 1]
  }

  lemma MulMonotone(a: int, b: int, k: int)
    requires 0 <= a <= b && 0 <= k
    ensures a * k <= b * k
  {
  }

  lemma {:induction false} FlattenLength(g: Rows, height: nat, width: nat)
    requires Shaped(g, height, width)
    ensures |Flatten(g)| == height * width
  {
    if height > 0 {
      FlattenLength(g[..height - 1], height - 1, width);
      assert (height - 1) * width + width == height * width;
    }
  }

  /** Row-major indexing: the cell at row h, column w sits at h * width + w. */
  lemma {:induction false} FlattenAt(g: Rows, height: nat, width: nat, h: nat, w: nat)
    requires Shaped(g, height, width) && h < height && w < width
    ensures |Flatten(g)| == height * width
    ensures h * width + w < height * width && Flatten(g)[h * width + w] == g[h][w]
  {
    FlattenLength(g, height, width);
    var init := g[..height - 1];
    FlattenLength(init, height - 1, width);
    assert Flatten(g) == Flatten(init) + g[height - 1];
    if h < height - 1 {
      FlattenAt(init, height - 1, width, h, w);
      MulMonotone(height - 1, height, width);
    } else {
      assert (height - 1) * width + width == height * width;
    }
  }

  // ---------------------------------------------------------------------
  // Laying out the grid

  /** The number the grid layout writes into the cell at row h, column w. */
  function CellNumber(h: nat, w: nat, height: nat): nat
  {
    h * height + w
  }

  method InitializeGrid(height: nat, width: nat) returns (grid: array2<MazeCell>)
    ensures fresh(grid) && grid.Length0 == height && grid.Length1 == width
    ensures forall h, w :: 0 <= h < height && 0 <= w < width ==>
      grid[h, w] == MazeCell(NatToString(CellNumber(h, w, height)), [])
  {
    grid := new MazeCell[height, width]((h, w) => MazeCell("", []));
    for h := 0 to height
      invariant forall i, j :: 0 <= i < h && 0 <= j < width ==>
        grid[i, j] == MazeCell(NatToString(CellNumber(i, j, height)), [])
    {
      InitializeRow(grid, h, height);
    }
  }

  /** The inner loop of InitializeGrid: numbers the cells of row h. */
  method InitializeRow(grid: array2<MazeCell>, h: nat, height: nat)
    requires h < grid.Length0
    modifies grid
    ensures forall i, j :: 0 <= i < grid.Length0 && 0 <= j < grid.Length1 ==>
      grid[i, j] == if i == h then MazeCell(NatToString(CellNumber(i, j, height)), []) else old(grid[i, j])
  {
    for w := 0 to grid.Length1
      invariant forall i, j :: 0 <= i < grid.Length0 && 0 <= j < grid.Length1 && (i != h || w <= j) ==>
        grid[i, j] == old(grid[i, j])
      invariant forall j :: 0 <= j < w ==> grid[h, j] == MazeCell(NatToString(CellNumber(h, j, height)), [])
    {
      var id := h * height + w;
      grid[h, w] := MazeCell(NatToString(id), []);
    }
  }

  /** The layout numbers cells uniquely exactly when the grid is no wider
      than it is high, or has at most one row: otherwise the cell in row 0,
      column `height` and the cell in row 1, column 0 both get `height`. */
  lemma CellIdsUnique(height: nat, width: nat)
    ensures (forall p, q :: InGrid(p, height, width) && InGrid(q, height, width) && p != q ==>
              NatToString(CellNumber(p.row, p.col, height)) != NatToString(CellNumber(q.row, q.col, height)))
            <==> (width <= height || height <= 1)
  {
    if width <= height || height <= 1 {
      forall p, q | InGrid(p, height, width) && InGrid(q, height, width) && p != q
        ensures NatToString(CellNumber(p.row, p.col, height)) != NatToString(CellNumber(q.row, q.col, height))
      {
        if NatToString(CellNumber(p.row, p.col, height)) == NatToString(CellNumber(q.row, q.col, height)) {
          NatToStringInjective(CellNumber(p.row, p.col, height), CellNumber(q.row, q.col, height));
          NumbersDiffer(p, q, height, width);
        }
      }
    } else {
      var p, q := Pos(0, height), Pos(1, 0);
      assert InGrid(p, height, width) && InGrid(q, height, width) && p != q;
      assert CellNumber(p.row, p.col, height) == CellNumber(q.row, q.col, height);
    }
  }

  lemma NumbersDiffer(p: Pos, q: Pos, height: nat, width: nat)
    requires InGrid(p, height, width) && InGrid(q, height, width) && p != q
    requires width <= height || height <= 1
    ensures CellNumber(p.row, p.col, height) != CellNumber(q.row, q.col, height)
  {
    if p.row == q.row {
    } else if height <= 1 {
    } else if p.row < q.row {
      MulMonotone(p.row + 1, q.row, height);
      assert (p.row + 1) * height == p.row * height + height;
    } else {
      MulMonotone(q.row + 1, p.row, height);
      assert (q.row + 1) * height == q.row * height + height;
    }
  }

  /** A 2 x 3 grid (two rows, three columns) numbers two cells "2". */
  lemma TwoByThreeCollision()
    ensures NatToString(CellNumber(0, 2, 2)) == NatToString(CellNumber(1, 0, 2)) == "2"
  {
  }

  // ---------------------------------------------------------------------
  // Carving passages

  /** A shuffled list of the four directions. */
  predicate IsShuffle(ds: seq<Direction>)
  {
    |ds| == 4 && North in ds && South in ds && East in ds && West in ds
  }

  /** The shuffle, as an oracle: the order in which the carver tries the
      directions from the cell at column x, row y. The carver enters every
      cell at most once, so one order per cell is one order per call. */
  ghost predicate ShuffleOrders(order: (int, int) -> seq<Direction>)
  {
    forall x, y :: IsShuffle(order(x, y))
  }

  /** The cells that gained their first passage between `g0` and `g`. */
  function Filled(g0: Rows, g: Rows, height: int, width: int): set<Pos>
    requires Shaped(g0, height, width) && Shaped(g, height, width)
  {
    EmptyCells(g0, height, width) - EmptyCells(g, height, width)
  }

  /** Every cell next to `p` on the grid has a passage. */
  predicate Saturated(g: Rows, height: int, width: int, p: Pos)
    requires Shaped(g, height, width)
  {
    forall d :: InGrid(Step(p, d), height, width) ==> g[Step(p, d).row][Step(p, d).col].passages != []
  }

  /** `b` can be reached from `a` along at most `bound` cells joined by passages. */
  ghost predicate ReachedFrom(g: Rows, height: int, width: int, a: Pos, b: Pos, bound: int)
    requires Shaped(g, height, width)
  {
    exists path :: PassagePath(g, height, width, path) && path[0] == a && path[|path| - 1] == b && |path| <= bound
  }

  /** Only the cell at `p` and cells that had no passage changed. */
  predicate ChangesOnlyFresh(g0: Rows, g: Rows, height: int, width: int, p: Pos)
    requires Shaped(g0, height, width) && Shaped(g, height, width)
  {
    forall r, c :: 0 <= r < height && 0 <= c < width && g[r][c] != g0[r][c] ==>
      Pos(r, c) == p || g0[r][c].passages == []
  }

  /** `g1` is `g` with a passage carved from `p` in direction `d`: `d` added
      to the cell at `p` and the opposite direction to the cell it leads to. */
  predicate CarvedPair(g: Rows, g1: Rows, height: int, width: int, p: Pos, d: Direction)
    requires Shaped(g, height, width) && Shaped(g1, height, width)
  {
    forall r, c :: 0 <= r < height && 0 <= c < width ==>
      g1[r][c] == if Pos(r, c) == p then g[r][c].(passages := g[r][c].passages + [d])
                  else if Pos(r, c) == Step(p, d) then g[r][c].(passages := g[r][c].passages + [FindOppositeDirection(d)])
                  else g[r][c]
  }

  /** Every cell filled since `g0`, other than `p`, has passages on all its
      grid neighbours and is reachable from `p` through at most
      |empty cells of g0| + 1 cells. */
  ghost predicate FilledReached(g0: Rows, g: Rows, height: int, width: int, p: Pos)
    requires Shaped(g0, height, width) && Shaped(g, height, width)
  {
    forall q :: q in Filled(g0, g, height, width) && q != p ==>
      Saturated(g, height, width, q) && ReachedFrom(g, height, width, p, q, |EmptyCells(g0, height, width)| + 1)
  }

  /** What one call of the carver from `p` achieves, from grid `g0` to `g`:
      passages only grow and stay reciprocal and unrepeated, only `p` and
      cells without passages are touched, every neighbour of `p` and of every
      newly filled cell has a passage, and every newly filled cell is
      reachable from `p` through at most |empty cells of g0| + 1 cells. */
  ghost predicate CarvedFrom(g0: Rows, g: Rows, height: int, width: int, p: Pos)
  {
    && Grows(g0, g, height, width)
    && Reciprocal(g, height, width) && NoRepeatedPassages(g, height, width)
    && ChangesOnlyFresh(g0, g, height, width, p)
    && Saturated(g, height, width, p)
    && FilledReached(g0, g, height, width, p)
  }

  /** The carver's loop invariant after trying the directions `tried`. */
  ghost predicate CarveLoop(g0: Rows, g: Rows, height: int, width: int, p: Pos, tried: seq<Direction>)
  {
    && Grows(g0, g, height, width)
    && Reciprocal(g, height, width) && NoRepeatedPassages(g, height, width)
    && ChangesOnlyFresh(g0, g, height, width, p)
    && (forall d :: d in tried && InGrid(Step(p, d), height, width) ==>
          g[Step(p, d).row][Step(p, d).col].passages != [])
    && FilledReached(g0, g, height, width, p)
  }

  lemma GrowsReflexive(g: Rows, height: int, width: int)
    requires Shaped(g, height, width)
    ensures Grows(g, g, height, width)
  {
  }

  /** Carving one passage into an empty neighbour keeps the grid reciprocal
      and unrepeated and empties exactly the two cells involved. */
  lemma CarveOne(g: Rows, g1: Rows, height: int, width: int, p: Pos, d: Direction)
    requires Shaped(g, height, width) && Shaped(g1, height, width)
    requires InGrid(p, height, width) && InGrid(Step(p, d), height, width)
    requires Reciprocal(g, height, width) && NoRepeatedPassages(g, height, width)
    requires g[Step(p, d).row][Step(p, d).col].passages == []
    requires CarvedPair(g, g1, height, width, p, d)
    ensures Grows(g, g1, height, width)
    ensures Reciprocal(g1, height, width) && NoRepeatedPassages(g1, height, width)
    ensures EmptyCells(g1, height, width) == EmptyCells(g, height, width) - {p, Step(p, d)}
    ensures Linked(g1, height, width, p, Step(p, d))
  {
    var n := Step(p, d);
    StepBack(p, d);
    PassageLeadsToPassage(g, height, width, p, d);
    CarveOneShape(g, g1, height, width, p, d);
    forall r, c | 0 <= r < height && 0 <= c < width
      ensures CellReciprocal(g1, height, width, r, c)
    {
      forall k | 0 <= k < |g1[r][c].passages|
        ensures var q := Step(Pos(r, c), g1[r][c].passages[k]);
          InGrid(q, height, width) && FindOppositeDirection(g1[r][c].passages[k]) in g1[q.row][q.col].passages
      {
        CarveOneReciprocal(g, g1, height, width, p, d, r, c, k);
      }
    }
    assert Linked(g1, height, width, p, n) by {
      assert d in g1[p.row][p.col].passages;
    }
  }

  lemma CarveOneShape(g: Rows, g1: Rows, height: int, width: int, p: Pos, d: Direction)
    requires Shaped(g, height, width) && Shaped(g1, height, width)
    requires InGrid(p, height, width) && InGrid(Step(p, d), height, width)
    requires NoRepeatedPassages(g, height, width)
    requires g[Step(p, d).row][Step(p, d).col].passages == [] && d !in g[p.row][p.col].passages
    requires CarvedPair(g, g1, height, width, p, d)
    ensures Grows(g, g1, height, width) && NoRepeatedPassages(g1, height, width)
    ensures EmptyCells(g1, height, width) == EmptyCells(g, height, width) - {p, Step(p, d)}
  {
    StepBack(p, d);
    forall r, c | 0 <= r < height && 0 <= c < width
      ensures g[r][c].passages <= g1[r][c].passages
    {
    }
  }

  /** In a reciprocal grid a passage leads to a cell with a passage. */
  lemma PassageLeadsToPassage(g: Rows, height: int, width: int, p: Pos, d: Direction)
    requires Shaped(g, height, width) && Reciprocal(g, height, width) && InGrid(p, height, width)
    ensures d in g[p.row][p.col].passages ==>
      InGrid(Step(p, d), height, width) && g[Step(p, d).row][Step(p, d).col].passages != []
  {
    if d in g[p.row][p.col].passages {
      var k :| 0 <= k < |g[p.row][p.col].passages| && g[p.row][p.col].passages[k] == d;
      ReciprocalAt(g, height, width, p.row, p.col, k);
      var n := Step(p, d);
      assert FindOppositeDirection(d) in g[n.row][n.col].passages;
    }
  }

  /** The passages of one cell after a carve. */
  lemma CarvedCell(g: Rows, g1: Rows, height: int, width: int, p: Pos, d: Direction, q: Pos)
    requires Shaped(g, height, width) && Shaped(g1, height, width)
    requires CarvedPair(g, g1, height, width, p, d) && InGrid(q, height, width)
    ensures g1[q.row][q.col].passages ==
      if q == p then g[q.row][q.col].passages + [d]
      else if q == Step(p, d) then g[q.row][q.col].passages + [FindOppositeDirection(d)]
      else g[q.row][q.col].passages
  {
    assert q == Pos(q.row, q.col);
  }

  /** One passage of the carved grid has its opposite passage back. */
  lemma CarveOneReciprocal(g: Rows, g1: Rows, height: int, width: int, p: Pos, d: Direction, r: int, c: int, k: int)
    requires Shaped(g, height, width) && Shaped(g1, height, width)
    requires InGrid(p, height, width) && InGrid(Step(p, d), height, width)
    requires Reciprocal(g, height, width)
    requires CarvedPair(g, g1, height, width, p, d)
    requires 0 <= r < height && 0 <= c < width && 0 <= k < |g1[r][c].passages|
    ensures var q := Step(Pos(r, c), g1[r][c].passages[k]);
      InGrid(q, height, width) && FindOppositeDirection(g1[r][c].passages[k]) in g1[q.row][q.col].passages
  {
    var n := Step(p, d);
    StepBack(p, d);
    OppositeInvolution(d);
    var e := g1[r][c].passages[k];
    CarvedCell(g, g1, height, width, p, d, Pos(r, c));
    if Pos(r, c) == p && k == |g[r][c].passages| {
      CarvedCell(g, g1, height, width, p, d, n);
    } else if Pos(r, c) == n && k == |g[r][c].passages| {
      CarvedCell(g, g1, height, width, p, d, p);
    } else {
      assert e == g[r][c].passages[k];
      ReciprocalAt(g, height, width, r, c, k);
      var q := Step(Pos(r, c), e);
      assert InGrid(q, height, width) && FindOppositeDirection(e) in g[q.row][q.col].passages;
      CarvedCell(g, g1, height, width, p, d, q);
    }
  }

  lemma EnterCarve(g: Rows, height: int, width: int, p: Pos)
    requires Shaped(g, height, width) && Reciprocal(g, height, width) && NoRepeatedPassages(g, height, width)
    ensures CarveLoop(g, g, height, width, p, [])
  {
    GrowsReflexive(g, height, width);
  }

  lemma LeaveCarve(g0: Rows, g: Rows, height: int, width: int, p: Pos, tried: seq<Direction>)
    requires CarveLoop(g0, g, height, width, p, tried) && IsShuffle(tried)
    ensures CarvedFrom(g0, g, height, width, p)
  {
    forall d | InGrid(Step(p, d), height, width)
      ensures g[Step(p, d).row][Step(p, d).col].passages != []
    {
      assert d in tried;
    }
  }

  /** A direction that leads off the grid or to a cell with passages is
      skipped. */
  lemma SkipDirection(g0: Rows, g: Rows, height: int, width: int, p: Pos, tried: seq<Direction>, d: Direction)
    requires CarveLoop(g0, g, height, width, p, tried)
    requires InGrid(Step(p, d), height, width) ==> g[Step(p, d).row][Step(p, d).col].passages != []
    ensures CarveLoop(g0, g, height, width, p, tried + [d])
  {
  }

  /** Before the recursive call: the carved grid is still reciprocal and
      unrepeated, and has strictly fewer empty cells than at the start of
      the enclosing call, which is what makes the recursion terminate. */
  lemma CarveShrinks(g0: Rows, g: Rows, g1: Rows, height: int, width: int, p: Pos, d: Direction)
    requires Grows(g0, g, height, width) && Shaped(g1, height, width)
    requires InGrid(p, height, width) && InGrid(Step(p, d), height, width)
    requires Reciprocal(g, height, width) && NoRepeatedPassages(g, height, width)
    requires g[Step(p, d).row][Step(p, d).col].passages == []
    requires CarvedPair(g, g1, height, width, p, d)
    ensures Reciprocal(g1, height, width) && NoRepeatedPassages(g1, height, width)
    ensures Grows(g0, g1, height, width) && Grows(g, g1, height, width)
    ensures Linked(g1, height, width, p, Step(p, d))
    ensures EmptyCells(g1, height, width) == EmptyCells(g, height, width) - {p, Step(p, d)}
    ensures EmptyCells(g1, height, width) < EmptyCells(g0, height, width)
  {
    CarveOne(g, g1, height, width, p, d);
    GrowsTransitive(g0, g, g1, height, width);
    GrowsEmptyCells(g0, g, height, width);
    assert Step(p, d) in EmptyCells(g, height, width);
  }

  /** After the recursive call: the loop invariant holds with `d` tried. */
  lemma AfterCarve(g0: Rows, g: Rows, g1: Rows, g2: Rows, height: int, width: int, p: Pos, tried: seq<Direction>, d: Direction)
    requires CarveLoop(g0, g, height, width, p, tried)
    requires InGrid(p, height, width) && InGrid(Step(p, d), height, width)
    requires g[Step(p, d).row][Step(p, d).col].passages == []
    requires Grows(g, g1, height, width) && CarvedPair(g, g1, height, width, p, d)
    requires Linked(g1, height, width, p, Step(p, d))
    requires EmptyCells(g1, height, width) == EmptyCells(g, height, width) - {p, Step(p, d)}
    requires CarvedFrom(g1, g2, height, width, Step(p, d))
    ensures CarveLoop(g0, g2, height, width, p, tried + [d])
  {
    var n := Step(p, d);
    GrowsTransitive(g0, g, g1, height, width);
    GrowsTransitive(g0, g1, g2, height, width);
    GrowsTransitive(g, g1, g2, height, width);
    AfterCarveChanges(g0, g, g1, g2, height, width, p, d);
    CarvedCell(g, g1, height, width, p, d, n);
    AfterCarveTried(g, g1, g2, height, width, p, tried, d);
    AfterCarveFilled(g0, g, g1, g2, height, width, p, d);
  }

  lemma AfterCarveTried(g: Rows, g1: Rows, g2: Rows, height: int, width: int, p: Pos, tried: seq<Direction>, d: Direction)
    requires Grows(g, g2, height, width) && Grows(g1, g2, height, width)
    requires forall e :: e in tried && InGrid(Step(p, e), height, width) ==>
      g[Step(p, e).row][Step(p, e).col].passages != []
    requires InGrid(Step(p, d), height, width) && g1[Step(p, d).row][Step(p, d).col].passages != []
    ensures forall e :: e in tried + [d] && InGrid(Step(p, e), height, width) ==>
      g2[Step(p, e).row][Step(p, e).col].passages != []
  {
    forall e | e in tried + [d] && InGrid(Step(p, e), height, width)
      ensures g2[Step(p, e).row][Step(p, e).col].passages != []
    {
      var m := Step(p, e);
      assert g[m.row][m.col].passages <= g2[m.row][m.col].passages;
      assert g1[m.row][m.col].passages <= g2[m.row][m.col].passages;
    }
  }

  lemma AfterCarveChanges(g0: Rows, g: Rows, g1: Rows, g2: Rows, height: int, width: int, p: Pos, d: Direction)
    requires Grows(g0, g, height, width) && Grows(g, g1, height, width) && Grows(g1, g2, height, width)
    requires ChangesOnlyFresh(g0, g, height, width, p)
    requires ChangesOnlyFresh(g1, g2, height, width, Step(p, d))
    requires InGrid(Step(p, d), height, width) && g[Step(p, d).row][Step(p, d).col].passages == []
    requires CarvedPair(g, g1, height, width, p, d)
    ensures ChangesOnlyFresh(g0, g2, height, width, p)
  {
    var n := Step(p, d);
    assert g0[n.row][n.col].passages <= g[n.row][n.col].passages;
    forall r, c | 0 <= r < height && 0 <= c < width && g2[r][c] != g0[r][c]
      ensures Pos(r, c) == p || g0[r][c].passages == []
    {
      assert g0[r][c].passages <= g[r][c].passages <= g1[r][c].passages;
      if g2[r][c] != g1[r][c] {
        assert Pos(r, c) == n || g1[r][c].passages == [];
      } else if g1[r][c] != g[r][c] {
        assert Pos(r, c) == p || Pos(r, c) == n;
      }
    }
  }

  lemma AfterCarveFilled(g0: Rows, g: Rows, g1: Rows, g2: Rows, height: int, width: int, p: Pos, d: Direction)
    requires Grows(g0, g, height, width) && Grows(g, g1, height, width) && Grows(g1, g2, height, width)
    requires Grows(g, g2, height, width)
    requires FilledReached(g0, g, height, width, p)
    requires InGrid(p, height, width) && InGrid(Step(p, d), height, width)
    requires g[Step(p, d).row][Step(p, d).col].passages == []
    requires Linked(g1, height, width, p, Step(p, d))
    requires EmptyCells(g1, height, width) == EmptyCells(g, height, width) - {p, Step(p, d)}
    requires Saturated(g2, height, width, Step(p, d)) && FilledReached(g1, g2, height, width, Step(p, d))
    ensures FilledReached(g0, g2, height, width, p)
  {
    var n := Step(p, d);
    var bound := |EmptyCells(g0, height, width)| + 1;
    FewerEmptyCells(g0, g, g1, height, width, p, n);
    SinglePassage(g1, height, width, p, n);
    GrowsPassagePath(g1, g2, height, width, [p, n]);
    forall q | q in Filled(g0, g2, height, width) && q != p
      ensures Saturated(g2, height, width, q) && ReachedFrom(g2, height, width, p, q, bound)
    {
      SetStep(EmptyCells(g0, height, width), EmptyCells(g, height, width), EmptyCells(g1, height, width),
              EmptyCells(g2, height, width), p, n, q);
      FilledOne(g, g2, height, width, p, n, q, |EmptyCells(g1, height, width)| + 1, bound);
    }
  }

  lemma SinglePassage(g: Rows, height: int, width: int, p: Pos, n: Pos)
    requires Shaped(g, height, width) && InGrid(n, height, width) && Linked(g, height, width, p, n)
    ensures PassagePath(g, height, width, [p, n])
  {
  }

  /** The bookkeeping of empty-cell sets across one carve and the call after it. */
  lemma SetStep(e0: set<Pos>, e: set<Pos>, e1: set<Pos>, e2: set<Pos>, p: Pos, n: Pos, q: Pos)
    requires e1 == e - {p, n} && q in e0 - e2 && q != p
    ensures q in e && q != n ==> q in e1 - e2
    ensures q !in e ==> q in e0 - e
  {
  }

  /** One cell filled during the current call, by whichever step filled it. */
  lemma FilledOne(g: Rows, g2: Rows, height: int, width: int, p: Pos, n: Pos, q: Pos, childBound: int, bound: int)
    requires Grows(g, g2, height, width) && InGrid(q, height, width)
    requires g[q.row][q.col].passages != [] ==> Saturated(g, height, width, q) && ReachedFrom(g, height, width, p, q, bound)
    requires PassagePath(g2, height, width, [p, n]) && Saturated(g2, height, width, n) && 2 <= bound
    requires g[q.row][q.col].passages == [] && q != n ==>
      Saturated(g2, height, width, q) && ReachedFrom(g2, height, width, n, q, childBound)
    requires childBound + 1 <= bound
    ensures Saturated(g2, height, width, q) && ReachedFrom(g2, height, width, p, q, bound)
  {
    if g[q.row][q.col].passages != [] {
      FilledEarlier(g, g2, height, width, p, q, bound);
    } else if q == n {
      assert PassagePath(g2, height, width, [p, n]);
    } else {
      FilledByChild(g2, height, width, p, n, q, childBound, bound);
    }
  }

  /** Carving into `n` leaves fewer empty cells than there were at `g0`. */
  lemma FewerEmptyCells(g0: Rows, g: Rows, g1: Rows, height: int, width: int, p: Pos, n: Pos)
    requires Grows(g0, g, height, width) && Shaped(g1, height, width)
    requires InGrid(n, height, width) && g[n.row][n.col].passages == []
    requires EmptyCells(g1, height, width) == EmptyCells(g, height, width) - {p, n}
    ensures n in EmptyCells(g0, height, width) - EmptyCells(g1, height, width)
    ensures |EmptyCells(g1, height, width)| + 1 <= |EmptyCells(g0, height, width)|
  {
    GrowsEmptyCells(g0, g, height, width);
    SubsetCard(EmptyCells(g1, height, width), EmptyCells(g0, height, width) - {n});
  }

  /** Saturation and reachability survive growth. */
  lemma FilledEarlier(g: Rows, g2: Rows, height: int, width: int, p: Pos, q: Pos, bound: int)
    requires Grows(g, g2, height, width)
    requires Saturated(g, height, width, q) && ReachedFrom(g, height, width, p, q, bound)
    ensures Saturated(g2, height, width, q) && ReachedFrom(g2, height, width, p, q, bound)
  {
    var path :| PassagePath(g, height, width, path) && path[0] == p && path[|path| - 1] == q && |path| <= bound;
    GrowsPassagePath(g, g2, height, width, path);
    forall e | InGrid(Step(q, e), height, width)
      ensures g2[Step(q, e).row][Step(q, e).col].passages != []
    {
      var m := Step(q, e);
      assert g[m.row][m.col].passages <= g2[m.row][m.col].passages;
    }
  }

  /** A cell reached from `n` is reached from `p` one cell later when a
      passage leads from `p` to `n`. */
  lemma FilledByChild(g2: Rows, height: int, width: int, p: Pos, n: Pos, q: Pos, childBound: int, bound: int)
    requires Shaped(g2, height, width) && PassagePath(g2, height, width, [p, n])
    requires ReachedFrom(g2, height, width, n, q, childBound) && childBound + 1 <= bound
    ensures ReachedFrom(g2, height, width, p, q, bound)
  {
    var path :| PassagePath(g2, height, width, path) && path[0] == n && path[|path| - 1] == q && |path| <= childBound;
    JoinedPassagePath(g2, height, width, [p, n], path);
    assert ([p, n] + path[1..])[|path|] == q;
  }

  /** Recursive backtracking: try the four directions from the current cell
      in the shuffled order; carve into every grid neighbour that has no
      passage yet and continue from there. */
  method CarvePassage(currentX: int, currentY: int, grid: array2<MazeCell>, order: (int, int) -> seq<Direction>)
    requires 0 <= currentY < grid.Length0 && 0 <= currentX < grid.Length1
    requires ShuffleOrders(order)
    requires Reciprocal(Snapshot(grid), grid.Length0, grid.Length1)
    requires NoRepeatedPassages(Snapshot(grid), grid.Length0, grid.Length1)
    modifies grid
    ensures CarvedFrom(old(Snapshot(grid)), Snapshot(grid), grid.Length0, grid.Length1, Pos(currentY, currentX))
    decreases EmptyCells(Snapshot(grid), grid.Length0, grid.Length1)
  {
    var height := grid.Length0;
    var width := grid.Length1;
    var current := Pos(currentY, currentX);
    ghost var g0 := Snapshot(grid);
    var directions := order(currentX, currentY);
    EnterCarve(g0, height, width, current);
    for i := 0 to |directions|
      invariant CarveLoop(g0, Snapshot(grid), height, width, current, directions[..i])
    {
      var direction := directions[i];
      var nextX := CalculateNextX(currentX, direction);
      var nextY := CalculateNextY(currentY, direction);
      ghost var g := Snapshot(grid);
      assert directions[..i + 1] == directions[..i] + [direction];
      if nextY >= 0 && nextY < height && nextX >= 0 && nextX < width {
        var nextCell := grid[nextY, nextX];
        if |nextCell.passages| == 0 {
          grid[currentY, currentX] := grid[currentY, currentX].(passages := grid[currentY, currentX].passages + [direction]);
          grid[nextY, nextX] := nextCell.(passages := nextCell.passages + [FindOppositeDirection(direction)]);
          ghost var g1 := Snapshot(grid);
          assert CarvedPair(g, g1, height, width, current, direction);
          CarveShrinks(g0, g, g1, height, width, current, direction);
          CarvePassage(nextX, nextY, grid, order);
          AfterCarve(g0, g, g1, Snapshot(grid), height, width, current, directions[..i], direction);
        } else {
          SkipDirection(g0, g, height, width, current, directions[..i], direction);
        }
      } else {
        SkipDirection(g0, g, height, width, current, directions[..i], direction);
      }
    }
    assert directions[..|directions|] == directions;
    LeaveCarve(g0, Snapshot(grid), height, width, current, directions);
  }

  // ---------------------------------------------------------------------
  // Generating a maze

  /** What a generated maze is: the given dimensions, the laid-out rows
      flattened row by row, the layout's cell numbers, reciprocal and
      unrepeated passages, every cell reachable from the top-left cell
      through at most height * width + 1 cells, and (on any grid with more
      than one cell) a passage in every cell. */
  ghost predicate IsGeneratedMaze(m: Maze, rows: Rows)
  {
    && m.height >= 1 && m.width >= 1
    && Shaped(rows, m.height, m.width)
    && m.cells == Flatten(rows)
    && (forall h, w :: 0 <= h < m.height && 0 <= w < m.width ==>
          rows[h][w].id == NatToString(CellNumber(h, w, m.height)))
    && Reciprocal(rows, m.height, m.width) && NoRepeatedPassages(rows, m.height, m.width)
    && (forall q :: InGrid(q, m.height, m.width) ==>
          ReachedFrom(rows, m.height, m.width, Pos(0, 0), q, m.height * m.width + 1))
    && (m.height * m.width > 1 ==>
          forall q :: InGrid(q, m.height, m.width) ==> rows[q.row][q.col].passages != [])
  }

  method GenerateMaze(height: int, width: int, order: (int, int) -> seq<Direction>) returns (r: Result<Maze>, ghost rows: Rows)
    requires ShuffleOrders(order)
    ensures !(1 <= height <= 100) ==> r == Failure(OutOfRange("height"))
    ensures 1 <= height <= 100 && !(1 <= width <= 100) ==> r == Failure(OutOfRange("width"))
    ensures 1 <= height <= 100 && 1 <= width <= 100 ==> r.Ok?
    ensures r.Ok? ==> r.value.height == height && r.value.width == width && |r.value.cells| == height * width
    ensures r.Ok? ==> IsGeneratedMaze(r.value, rows)
  {
    rows := [];
    if height < 1 || height > 100 {
      r := Failure(OutOfRange("height"));
      return;
    }
    if width < 1 || width > 100 {
      r := Failure(OutOfRange("width"));
      return;
    }
    var grid := InitializeGrid(height, width);
    ghost var g0 := Snapshot(grid);
    EmptyGrid(g0, height, width);
    CarvePassage(0, 0, grid, order);
    rows := Snapshot(grid);
    r := Ok(Maze(Flatten(Snapshot(grid)), height, width));
    FlattenLength(rows, height, width);
    GeneratedFromEmpty(g0, rows, height, width);
  }

  /** A grid without passages is trivially reciprocal and unrepeated. */
  lemma EmptyGrid(g0: Rows, height: nat, width: nat)
    requires Shaped(g0, height, width)
    requires forall h, w :: 0 <= h < height && 0 <= w < width ==> g0[h][w].passages == []
    ensures Reciprocal(g0, height, width) && NoRepeatedPassages(g0, height, width)
    ensures EmptyCells(g0, height, width) == Positions(height, width)
    ensures |EmptyCells(g0, height, width)| == height * width
  {
    PositionsCard(height, width);
  }

  /** Carving from the top-left cell of a grid without passages reaches and
      fills the whole grid, keeping the layout's cell ids. */
  lemma GeneratedFromEmpty(g0: Rows, g: Rows, height: nat, width: nat)
    requires 1 <= height && 1 <= width && Shaped(g0, height, width)
    requires forall h, w :: 0 <= h < height && 0 <= w < width ==>
      g0[h][w] == MazeCell(NatToString(CellNumber(h, w, height)), [])
    requires CarvedFrom(g0, g, height, width, Pos(0, 0))
    ensures IsGeneratedMaze(Maze(Flatten(g), height, width), g)
  {
    EmptyGrid(g0, height, width);
    ReachesAll(g0, g, height, width);
    if height * width > 1 {
      FillsAll(g0, g, height, width);
    }
  }

  lemma ReachesAll(g0: Rows, g: Rows, height: nat, width: nat)
    requires Shaped(g0, height, width)
    requires forall h, w :: 0 <= h < height && 0 <= w < width ==> g0[h][w].passages == []
    requires |EmptyCells(g0, height, width)| == height * width
    requires Shaped(g, height, width) && Saturated(g, height, width, Pos(0, 0))
    requires FilledReached(g0, g, height, width, Pos(0, 0))
    ensures forall q :: InGrid(q, height, width) ==> ReachedFrom(g, height, width, Pos(0, 0), q, height * width + 1)
  {
    var root := Pos(0, 0);
    forall q | InGrid(q, height, width)
      ensures ReachedFrom(g, height, width, root, q, height * width + 1)
    {
      if q == root {
        assert PassagePath(g, height, width, [root]);
      } else {
        FilledAt(g0, g, height, width, q);
        assert q in Filled(g0, g, height, width);
      }
    }
  }

  /** On a grid of more than one cell the top-left cell gets a passage too. */
  lemma FillsAll(g0: Rows, g: Rows, height: nat, width: nat)
    requires Shaped(g0, height, width) && height * width > 1
    requires forall h, w :: 0 <= h < height && 0 <= w < width ==> g0[h][w].passages == []
    requires Shaped(g, height, width) && Saturated(g, height, width, Pos(0, 0))
    requires FilledReached(g0, g, height, width, Pos(0, 0))
    requires forall q :: InGrid(q, height, width) ==> ReachedFrom(g, height, width, Pos(0, 0), q, height * width + 1)
    ensures forall q :: InGrid(q, height, width) ==> g[q.row][q.col].passages != []
  {
    var q := SecondCell(height, width);
    RootFilled(g, height, width, q, height * width + 1);
    forall p | InGrid(p, height, width)
      ensures g[p.row][p.col].passages != []
    {
      if p != Pos(0, 0) {
        FilledAt(g0, g, height, width, p);
      }
    }
  }

  /** A grid of more than one cell has a cell other than the top-left one. */
  lemma SecondCell(height: nat, width: nat) returns (q: Pos)
    requires height * width > 1
    ensures InGrid(q, height, width) && q != Pos(0, 0)
  {
    if width > 1 {
      q := Pos(0, 1);
    } else {
      assert height * width == height * 1 || width == 0;
      q := Pos(1, 0);
    }
  }

  /** A cell reached from the top-left cell by a path of passages of two or
      more cells means the top-left cell has a passage. */
  lemma RootFilled(g: Rows, height: nat, width: nat, q: Pos, bound: int)
    requires Shaped(g, height, width) && q != Pos(0, 0)
    requires ReachedFrom(g, height, width, Pos(0, 0), q, bound)
    ensures g[0][0].passages != []
  {
    var path :| PassagePath(g, height, width, path) && path[0] == Pos(0, 0) && path[|path| - 1] == q && |path| <= bound;
    assert Linked(g, height, width, path[0], path[1]);
  }

  /** Every cell other than the top-left one gets a passage: its left
      neighbour (or, in column 0, its upper neighbour) is the top-left cell
      or filled, hence saturated. */
  lemma {:induction false} FilledAt(g0: Rows, g: Rows, height: nat, width: nat, q: Pos)
    requires Shaped(g0, height, width)
    requires forall h, w :: 0 <= h < height && 0 <= w < width ==> g0[h][w].passages == []
    requires Shaped(g, height, width) && Saturated(g, height, width, Pos(0, 0))
    requires FilledReached(g0, g, height, width, Pos(0, 0))
    requires InGrid(q, height, width) && q != Pos(0, 0)
    ensures g[q.row][q.col].passages != []
    decreases q.row + q.col
  {
    var prev := if q.col > 0 then Pos(q.row, q.col - 1) else Pos(q.row - 1, q.col);
    var d := if q.col > 0 then East else South;
    assert Step(prev, d) == q;
    if prev != Pos(0, 0) {
      FilledAt(g0, g, height, width, prev);
      assert prev in Filled(g0, g, height, width);
    }
    assert Saturated(g, height, width, prev);
  }
}
