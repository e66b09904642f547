/** The graph side of the maze service: checking a submitted maze, turning
    its cells into graph nodes joined by their passages, and solving it with
    the shortest-path engine. */
module MazeGraph {
  import opened Common
  import opened Graph
  import opened Mazes
  import NodeValidation
  import ValidationProperties
  import Dijkstra
  import MazeGeneration

  // ---------------------------------------------------------------------
  // Validation

  /** The maze validator's rules, the first one that fails reported:
      a positive height, a positive width, at least one cell. */
  function MazeRules(m: Maze): (r: Option<Error>)
    ensures r.None? <==> m.height > 0 && m.width > 0 && |m.cells| > 0
    ensures r.Some? ==> r.value in {ValidationFailed("Height"), ValidationFailed("Width"), ValidationFailed("Cells")}
  {
    if m.height <= 0 then Some(ValidationFailed("Height"))
    else if m.width <= 0 then Some(ValidationFailed("Width"))
    else if |m.cells| == 0 then Some(ValidationFailed("Cells"))
    else None
  }

  function CellIds(cells: seq<MazeCell>): (ids: seq<string>)
    ensures |ids| == |cells|
    ensures forall i :: 0 <= i < |cells| ==> ids[i] == cells[i].id
  {
    seq(|cells|, i requires 0 <= i < |cells| => cells[i].id)
  }

  /** The first cell-id violation in list order: a blank id, reported with
      its position, or an id already used by an earlier cell. */
  function CellIdError(cells: seq<MazeCell>): (r: Option<Error>)
    ensures r.Some? && r.value.BlankCellId? ==> r.value.position < |cells| && IsBlank(cells[r.value.position].id)
    ensures r.Some? && r.value.DuplicateCellId? ==>
      exists i, j :: 0 <= i < j < |cells| && cells[i].id == cells[j].id == r.value.id
    ensures r.Some? ==> r.value.BlankCellId? || r.value.DuplicateCellId?
    decreases |cells|
  {
    if |cells| == 0 then None
    else
      var prior := cells[..|cells| - 1];
      var last := cells[|cells| - 1];
      var e := CellIdError(prior);
      if e.Some? then
        assert e.value.DuplicateCellId? ==>
          exists i, j :: 0 <= i < j < |cells| && cells[i].id == cells[j].id == e.value.id by {
          if e.value.DuplicateCellId? {
            var i, j :| 0 <= i < j < |prior| && prior[i].id == prior[j].id == e.value.id;
            assert cells[i] == prior[i] && cells[j] == prior[j];
          }
        }
        e
      else if IsBlank(last.id) then Some(BlankCellId(|cells| - 1))
      else if last.id in CellIds(prior) then
        var i :| 0 <= i < |prior| && CellIds(prior)[i] == last.id;
        assert cells[i] == prior[i];
        Some(DuplicateCellId(last.id))
      else None
  }

  /** What ValidateMaze decides: the cell count must be height * width, then
      every id must be non-blank and new. */
  function MazeValidation(m: Maze): Outcome
  {
    if |m.cells| != m.height * m.width then Fail(InvalidDimensions)
    else
      match CellIdError(m.cells)
      case Some(e) => Fail(e)
      case None => Pass
  }

  /** Once a prefix of the cells has a violation, it is the one reported. */
  lemma {:induction false} CellIdErrorPersists(cells: seq<MazeCell>, n: nat)
    requires n <= |cells| && CellIdError(cells[..n]).Some?
    ensures CellIdError(cells) == CellIdError(cells[..n])
    decreases |cells| - n
  {
    if n < |cells| {
      var next := cells[..n + 1];
      assert next[..n] == cells[..n];
      assert CellIdError(next) == CellIdError(cells[..n]);
      CellIdErrorPersists(cells, n + 1);
    } else {
      assert cells[..n] == cells;
    }
  }

  /** The cell ids pass exactly when none is blank and no two are equal. */
  lemma {:induction false} CellIdErrorNoneIff(cells: seq<MazeCell>)
    ensures CellIdError(cells).None? <==>
      (forall i :: 0 <= i < |cells| ==> !IsBlank(cells[i].id)) && Distinct(CellIds(cells))
    decreases |cells|
  {
    if |cells| > 0 {
      var prior := cells[..|cells| - 1];
      CellIdErrorNoneIff(prior);
      assert forall i :: 0 <= i < |prior| ==> prior[i] == cells[i];
      if CellIdError(cells).None? {
        forall i, j | 0 <= i < j < |cells|
          ensures CellIds(cells)[i] != CellIds(cells)[j]
        {
          if j < |prior| {
            assert CellIds(prior)[i] != CellIds(prior)[j];
          } else {
            assert CellIds(prior)[i] == cells[i].id;
          }
        }
      } else if CellIdError(prior).None? && !IsBlank(cells[|cells| - 1].id) {
        var i :| 0 <= i < |prior| && CellIds(prior)[i] == cells[|cells| - 1].id;
        assert CellIds(cells)[i] == CellIds(cells)[|cells| - 1];
      }
    }
  }

  /** A maze passes validation exactly when it has height * width cells whose
      ids are non-blank and distinct. */
  lemma MazeValidationPassIff(m: Maze)
    ensures MazeValidation(m).Pass? <==>
      && |m.cells| == m.height * m.width
      && (forall i :: 0 <= i < |m.cells| ==> !IsBlank(m.cells[i].id))
      && Distinct(CellIds(m.cells))
  {
    CellIdErrorNoneIff(m.cells);
  }

  /** Checks the cell count, then scans the cells in order, remembering the
      ids seen so far. */
  method ValidateMaze(m: Maze) returns (o: Outcome)
    ensures o == MazeValidation(m)
  {
    var mazeCellCount := |m.cells|;
    var expectedCellCount := m.height * m.width;
    if mazeCellCount != expectedCellCount {
      return Fail(InvalidDimensions);
    }
    var cellIds: set<string> := {};
    for i := 0 to mazeCellCount
      invariant CellIdError(m.cells[..i]).None?
      invariant forall x :: x in cellIds <==> x in CellIds(m.cells[..i])
    {
      var cell := m.cells[i];
      var prefix := m.cells[..i + 1];
      assert prefix[..i] == m.cells[..i] && prefix[i] == cell;
      if IsBlank(cell.id) {
        CellIdErrorPersists(m.cells, i + 1);
        return Fail(BlankCellId(i));
      }
      if cell.id in cellIds {
        CellIdErrorPersists(m.cells, i + 1);
        return Fail(DuplicateCellId(cell.id));
      }
      cellIds := cellIds + {cell.id};
      assert CellIds(prefix) == CellIds(m.cells[..i]) + [cell.id];
    }
    assert m.cells[..mazeCellCount] == m.cells;
    return Pass;
  }

  // ---------------------------------------------------------------------
  // Cells and their neighbours

  /** The cells are laid out row by row: a positive height and width and
      height * width cells. */
  predicate Laid(m: Maze)
  {
    m.height > 0 && m.width > 0 && |m.cells| == m.height * m.width
  }

  lemma CellIndexBound(h: int, w: int, height: int, width: int)
    requires 0 <= h < height && 0 <= w < width
    ensures 0 <= h * width + w < height * width
  {
    MazeGeneration.MulMonotone(h + 1, height, width);
    assert h * width + width == (h + 1) * width;
  }

  /** The position of list index i. */
  lemma IndexCell(i: int, height: int, width: int)
    requires width > 0 && 0 <= i < height * width
    ensures 0 <= i / width < height && 0 <= i % width < width
    ensures (i / width) * width + i % width == i
  {
    if i / width >= height {
      MazeGeneration.MulMonotone(height, i / width, width);
    }
  }

  /** The list index of row h, column w is read back as that row and column. */
  lemma CellIndex(h: int, w: int, width: int)
    requires h >= 0 && 0 <= w < width
    ensures (h * width + w) / width == h && (h * width + w) % width == w
  {
    var i := h * width + w;
    var q, r := i / width, i % width;
    assert (h - q) * width == r - w;
    MulSmall(h - q, width);
  }

  /** A multiple of width strictly between -width and width is 0. */
  lemma MulSmall(k: int, width: int)
    requires width > 0 && -width < k * width < width
    ensures k == 0
  {
    if k >= 1 {
      MazeGeneration.MulMonotone(1, k, width);
    } else if k <= -1 {
      MazeGeneration.MulMonotone(1, -k, width);
    }
  }

  /** The cell at row h, column w. */
  function CellAt(m: Maze, h: int, w: int): MazeCell
    requires Laid(m) && 0 <= h < m.height && 0 <= w < m.width
  {
    CellIndexBound(h, w, m.height, m.width);
    m.cells[h * m.width + w]
  }

  /** The neighbour a passage from the cell at row h, column w leads to:
      the cell one row up, one row down, one column right or one column
      left, or none at the edge of the grid. */
  function NeighborCell(m: Maze, h: int, w: int, direction: Direction): Option<MazeCell>
    requires Laid(m) && 0 <= h < m.height && 0 <= w < m.width
  {
    var northCell := if h > 0 then Some(CellAt(m, h - 1, w)) else None;
    var southCell := if h < m.height - 1 then Some(CellAt(m, h + 1, w)) else None;
    var eastCell := if w < m.width - 1 then Some(CellAt(m, h, w + 1)) else None;
    var westCell := if w > 0 then Some(CellAt(m, h, w - 1)) else None;
    PickNeighborCell(northCell, southCell, eastCell, westCell, direction)
  }

  /** The neighbour picked for a direction is the cell one step that way,
      and there is none exactly when the step leaves the grid. */
  lemma NeighborCellIsStep(m: Maze, h: int, w: int, direction: Direction)
    requires Laid(m) && 0 <= h < m.height && 0 <= w < m.width
    ensures var q := Step(Pos(h, w), direction);
      NeighborCell(m, h, w, direction) == if InGrid(q, m.height, m.width) then Some(CellAt(m, q.row, q.col)) else None
  {
  }

  /** The neighbour entries the conversion adds for the passages `ps` of the
      cell at row h, column w: one of cost 1 per passage that stays on the
      grid, in passage order. */
  function PassageNeighbors(m: Maze, h: int, w: int, ps: seq<Direction>): seq<Neighbor>
    requires Laid(m) && 0 <= h < m.height && 0 <= w < m.width
  {
    if ps == [] then []
    else PassageNeighbors(m, h, w, ps[..|ps| - 1]) + NeighborEntry(m, h, w, ps[|ps| - 1])
  }

  /** The entry one passage adds: a cost-1 neighbour, or nothing at the edge. */
  function NeighborEntry(m: Maze, h: int, w: int, direction: Direction): seq<Neighbor>
    requires Laid(m) && 0 <= h < m.height && 0 <= w < m.width
  {
    match NeighborCell(m, h, w, direction)
    case Some(c) => [Neighbor(c.id, 1)]
    case None => []
  }

  lemma PassageNeighborsSnoc(m: Maze, h: int, w: int, ps: seq<Direction>, j: int)
    requires Laid(m) && 0 <= h < m.height && 0 <= w < m.width && 0 <= j < |ps|
    ensures PassageNeighbors(m, h, w, ps[..j + 1]) == PassageNeighbors(m, h, w, ps[..j]) + NeighborEntry(m, h, w, ps[j])
  {
    var done := ps[..j + 1];
    assert done[..j] == ps[..j] && done[j] == ps[j];
  }

  /** Every entry is a cost-1 edge to the cell one passage away, every
      passage that stays on the grid has its entry, and there are no more
      entries than passages. */
  lemma {:induction false} PassageNeighborsSpec(m: Maze, h: int, w: int, ps: seq<Direction>)
    requires Laid(m) && 0 <= h < m.height && 0 <= w < m.width
    ensures |PassageNeighbors(m, h, w, ps)| <= |ps|
    ensures forall nb :: nb in PassageNeighbors(m, h, w, ps) <==>
      exists d :: d in ps && InGrid(Step(Pos(h, w), d), m.height, m.width) &&
        nb == Neighbor(CellAt(m, Step(Pos(h, w), d).row, Step(Pos(h, w), d).col).id, 1)
    decreases |ps|
  {
    if ps != [] {
      var init, d := ps[..|ps| - 1], ps[|ps| - 1];
      PassageNeighborsSpec(m, h, w, init);
      NeighborCellIsStep(m, h, w, d);
      assert ps == init + [d];
    }
  }

  // ---------------------------------------------------------------------
  // Conversion to a graph

  /** One node per cell, keyed by the cell id, with no neighbours yet. */
  method InitializeNodes(cells: seq<MazeCell>) returns (nodesById: map<string, Node>)
    requires Distinct(CellIds(cells))
    ensures forall x :: x in nodesById <==> x in CellIds(cells)
    ensures forall i :: 0 <= i < |cells| ==> cells[i].id in nodesById && nodesById[cells[i].id] == Node(cells[i].id, [])
  {
    nodesById := map[];
    for i := 0 to |cells|
      invariant forall x :: x in nodesById <==> exists j :: 0 <= j < i && cells[j].id == x
      invariant forall j :: 0 <= j < i ==> cells[j].id in nodesById && nodesById[cells[j].id] == Node(cells[j].id, [])
    {
      var cell := cells[i];
      assert CellIds(cells)[i] == cell.id;
      nodesById := nodesById[cell.id := Node(cell.id, [])];
    }
  }

  /** The node the conversion builds for the cell at list index i: its id and
      one cost-1 neighbour per passage that stays on the grid. */
  function ConvertedNode(m: Maze, i: int): Node
    requires Laid(m) && 0 <= i < |m.cells|
  {
    IndexCell(i, m.height, m.width);
    Node(m.cells[i].id, PassageNeighbors(m, i / m.width, i % m.width, m.cells[i].passages))
  }

  /** The converted graph, its nodes in cell order. */
  function ConvertedNodes(m: Maze): (nodes: seq<Node>)
    requires Laid(m)
    ensures |nodes| == |m.cells| && Ids(nodes) == CellIds(m.cells)
  {
    seq(|m.cells|, i requires 0 <= i < |m.cells| => ConvertedNode(m, i))
  }

  /** What ConvertToGraph returns: the validator's error, then ValidateMaze's,
      else the converted nodes. */
  function Conversion(m: Maze): Result<seq<Node>>
  {
    if MazeRules(m).Some? then Failure(MazeRules(m).value)
    else if MazeValidation(m).Fail? then Failure(MazeValidation(m).error)
    else
      MazeValidationPassIff(m);
      Ok(ConvertedNodes(m))
  }

  /** The dictionary after the first k cells (in list order) have had their
      passages added. */
  ghost predicate Converted(m: Maze, nodesById: map<string, Node>, k: int)
    requires Laid(m)
  {
    forall i :: 0 <= i < |m.cells| ==>
      m.cells[i].id in nodesById &&
      nodesById[m.cells[i].id] == if i < k then ConvertedNode(m, i) else Node(m.cells[i].id, [])
  }

  /** Completing the cell at row h, column w advances the dictionary by one
      cell; distinct ids keep the other entries untouched. */
  lemma CellConverted(m: Maze, nodesById: map<string, Node>, h: int, w: int)
    requires Laid(m) && Distinct(CellIds(m.cells)) && 0 <= h < m.height && 0 <= w < m.width
    requires Converted(m, nodesById, h * m.width + w)
    ensures var k := h * m.width + w;
      k < |m.cells| &&
      Converted(m, nodesById[m.cells[k].id := Node(m.cells[k].id, PassageNeighbors(m, h, w, m.cells[k].passages))], k + 1)
  {
    var k := h * m.width + w;
    CellIndexBound(h, w, m.height, m.width);
    CellIndex(h, w, m.width);
    forall i | 0 <= i < |m.cells| && i != k
      ensures m.cells[i].id != m.cells[k].id
    {
      if i < k {
        assert CellIds(m.cells)[i] != CellIds(m.cells)[k];
      } else {
        assert CellIds(m.cells)[k] != CellIds(m.cells)[i];
      }
    }
  }

  /** The cells above, below, right of and left of row h, column w, none
      where the grid ends: picking one by direction gives the cell one step
      that way. */
  method AdjacentCells(m: Maze, h: int, w: int) returns (northCell: Option<MazeCell>, southCell: Option<MazeCell>,
                                                         eastCell: Option<MazeCell>, westCell: Option<MazeCell>)
    requires Laid(m) && 0 <= h < m.height && 0 <= w < m.width
    ensures forall d :: PickNeighborCell(northCell, southCell, eastCell, westCell, d) == NeighborCell(m, h, w, d)
    ensures forall d :: var q := Step(Pos(h, w), d);
      PickNeighborCell(northCell, southCell, eastCell, westCell, d) ==
        if InGrid(q, m.height, m.width) then Some(CellAt(m, q.row, q.col)) else None
  {
    northCell := if h > 0 then Some(CellAt(m, h - 1, w)) else None;
    southCell := if h < m.height - 1 then Some(CellAt(m, h + 1, w)) else None;
    eastCell := if w < m.width - 1 then Some(CellAt(m, h, w + 1)) else None;
    westCell := if w > 0 then Some(CellAt(m, h, w - 1)) else None;
  }

  /** The passage loop for the cell at row h, column w: its neighbours as
      seen from this cell, one cost-1 entry per passage that leads to a
      cell on the grid, appended to the cell's node. */
  method AddPassageNeighbors(m: Maze, h: int, w: int, nodesById: map<string, Node>) returns (result: map<string, Node>)
    requires Laid(m) && 0 <= h < m.height && 0 <= w < m.width
    requires var k := h * m.width + w; 0 <= k < |m.cells| && m.cells[k].id in nodesById && nodesById[m.cells[k].id] == Node(m.cells[k].id, [])
    ensures var cell := m.cells[h * m.width + w];
      result == nodesById[cell.id := Node(cell.id, PassageNeighbors(m, h, w, cell.passages))]
  {
    var cellIndex := h * m.width + w;
    var cell := m.cells[cellIndex];
    var northCell, southCell, eastCell, westCell := AdjacentCells(m, h, w);
    result := nodesById;
    for j := 0 to |cell.passages|
      invariant result == nodesById[cell.id := Node(cell.id, PassageNeighbors(m, h, w, cell.passages[..j]))]
    {
      var direction := cell.passages[j];
      var neighbor := PickNeighborCell(northCell, southCell, eastCell, westCell, direction);
      PassageNeighborsSnoc(m, h, w, cell.passages, j);
      if neighbor.Some? {
        assert NeighborEntry(m, h, w, direction) == [Neighbor(neighbor.value.id, 1)];
        var node := result[cell.id];
        result := result[cell.id := Node(node.id, node.neighbors + [Neighbor(neighbor.value.id, 1)])];
      } else {
        assert NeighborEntry(m, h, w, direction) == [];
        assert PassageNeighbors(m, h, w, cell.passages[..j + 1]) == PassageNeighbors(m, h, w, cell.passages[..j]);
      }
    }
    assert cell.passages[..|cell.passages|] == cell.passages;
  }

  /** Dictionary.Values of a dictionary filled in cell order: the entries of
      the cells' ids, in cell order. */
  function ValuesInCellOrder(cells: seq<MazeCell>, nodesById: map<string, Node>): (nodes: seq<Node>)
    requires forall i :: 0 <= i < |cells| ==> cells[i].id in nodesById
    ensures |nodes| == |cells| && forall i :: 0 <= i < |cells| ==> nodes[i] == nodesById[cells[i].id]
  {
    seq(|cells|, i requires 0 <= i < |cells| => nodesById[cells[i].id])
  }

  /** Once every cell is done, the dictionary's values are the converted graph. */
  lemma ConvertedInCellOrder(m: Maze, nodesById: map<string, Node>)
    requires Laid(m) && Converted(m, nodesById, |m.cells|)
    ensures forall i :: 0 <= i < |m.cells| ==> m.cells[i].id in nodesById
    ensures ValuesInCellOrder(m.cells, nodesById) == ConvertedNodes(m)
  {
  }

  /** The end of row h is the start of row h + 1. */
  lemma NextRow(m: Maze, nodesById: map<string, Node>, h: int)
    requires Laid(m) && Converted(m, nodesById, h * m.width + m.width)
    ensures Converted(m, nodesById, (h + 1) * m.width)
  {
    RowEnd(h, m.width);
  }

  lemma RowEnd(h: int, width: int)
    ensures h * width + width == (h + 1) * width
  {
  }

  /** The inner loop of the conversion: the cells of row h, west to east. */
  method ConvertRow(m: Maze, h: int, nodesById: map<string, Node>) returns (result: map<string, Node>)
    requires Laid(m) && Distinct(CellIds(m.cells)) && 0 <= h < m.height
    requires Converted(m, nodesById, h * m.width)
    ensures Converted(m, result, (h + 1) * m.width)
  {
    result := nodesById;
    for w := 0 to m.width
      invariant Converted(m, result, h * m.width + w)
    {
      CellIndexBound(h, w, m.height, m.width);
      ghost var before := result;
      result := AddPassageNeighbors(m, h, w, result);
      CellConverted(m, before, h, w);
    }
    NextRow(m, result, h);
  }

  /** The conversion of a validated maze: one node per cell, then the
      passage neighbours of every cell in row-major order, then the
      dictionary's values. */
  method BuildNodes(m: Maze) returns (nodes: seq<Node>)
    requires Laid(m) && Distinct(CellIds(m.cells))
    ensures nodes == ConvertedNodes(m)
  {
    var nodesById := InitializeNodes(m.cells);
    for h := 0 to m.height
      invariant Converted(m, nodesById, h * m.width)
    {
      nodesById := ConvertRow(m, h, nodesById);
    }
    ConvertedInCellOrder(m, nodesById);
    nodes := ValuesInCellOrder(m.cells, nodesById);
  }

  /** Adds, for every cell in row-major order, a cost-1 neighbour entry per
      passage that leads to a cell on the grid. */
  method ConvertToGraph(m: Maze) returns (r: Result<seq<Node>>)
    ensures r == Conversion(m)
  {
    var rules := MazeRules(m);
    if rules.Some? {
      return Failure(rules.value);
    }
    var validation := ValidateMaze(m);
    if validation.Fail? {
      return Failure(validation.error);
    }
    MazeValidationPassIff(m);
    var nodes := BuildNodes(m);
    return Ok(nodes);
  }

  // ---------------------------------------------------------------------
  // What the converted graph is

  /** No cell lists the same direction twice. */
  predicate CellPassagesDistinct(m: Maze)
  {
    forall i, a, b :: 0 <= i < |m.cells| && 0 <= a < b < |m.cells[i].passages| ==>
      m.cells[i].passages[a] != m.cells[i].passages[b]
  }

  /** With distinct ids, a cell id names one position. */
  lemma CellAtInjective(m: Maze, a: int, b: int, c: int, d: int)
    requires Laid(m) && Distinct(CellIds(m.cells))
    requires 0 <= a < m.height && 0 <= b < m.width && 0 <= c < m.height && 0 <= d < m.width
    requires CellAt(m, a, b).id == CellAt(m, c, d).id
    ensures a == c && b == d
  {
    CellIndexBound(a, b, m.height, m.width);
    CellIndexBound(c, d, m.height, m.width);
    CellIndex(a, b, m.width);
    CellIndex(c, d, m.width);
  }

  /** Every entry has cost 1 and names a cell of the maze. */
  lemma PassageNeighborsUnit(m: Maze, h: int, w: int, ps: seq<Direction>)
    requires Laid(m) && 0 <= h < m.height && 0 <= w < m.width
    ensures forall k :: 0 <= k < |PassageNeighbors(m, h, w, ps)| ==>
      PassageNeighbors(m, h, w, ps)[k].cost == 1 && PassageNeighbors(m, h, w, ps)[k].nodeId in CellIds(m.cells)
  {
    var nbs := PassageNeighbors(m, h, w, ps);
    PassageNeighborsSpec(m, h, w, ps);
    forall k | 0 <= k < |nbs|
      ensures nbs[k].cost == 1 && nbs[k].nodeId in CellIds(m.cells)
    {
      assert nbs[k] in nbs;
      var d :| d in ps && InGrid(Step(Pos(h, w), d), m.height, m.width) &&
        nbs[k] == Neighbor(CellAt(m, Step(Pos(h, w), d).row, Step(Pos(h, w), d).col).id, 1);
      var q := Step(Pos(h, w), d);
      CellIndexBound(q.row, q.col, m.height, m.width);
      assert CellIds(m.cells)[q.row * m.width + q.col] == nbs[k].nodeId;
    }
  }

  /** Distinct directions from one cell reach distinct cells, so the entries
      name distinct neighbours. */
  lemma {:induction false} PassageNeighborIdsDistinct(m: Maze, h: int, w: int, ps: seq<Direction>)
    requires Laid(m) && Distinct(CellIds(m.cells)) && 0 <= h < m.height && 0 <= w < m.width
    requires forall a, b :: 0 <= a < b < |ps| ==> ps[a] != ps[b]
    ensures Distinct(NeighborIds(PassageNeighbors(m, h, w, ps)))
    decreases |ps|
  {
    if ps != [] {
      var init, d := ps[..|ps| - 1], ps[|ps| - 1];
      PassageNeighborIdsDistinct(m, h, w, init);
      var before := PassageNeighbors(m, h, w, init);
      var q := Step(Pos(h, w), d);
      NeighborCellIsStep(m, h, w, d);
      if InGrid(q, m.height, m.width) {
        var x := CellAt(m, q.row, q.col).id;
        assert x !in NeighborIds(before) by {
          if x in NeighborIds(before) {
            var k :| 0 <= k < |before| && NeighborIds(before)[k] == x;
            assert before[k] in before;
            PassageNeighborsSpec(m, h, w, init);
            var e :| e in init && InGrid(Step(Pos(h, w), e), m.height, m.width) &&
              before[k] == Neighbor(CellAt(m, Step(Pos(h, w), e).row, Step(Pos(h, w), e).col).id, 1);
            CellAtInjective(m, Step(Pos(h, w), e).row, Step(Pos(h, w), e).col, q.row, q.col);
            StepInjective(Pos(h, w), e, d);
          }
        }
        DistinctSnoc(NeighborIds(before), x);
        assert NeighborIds(PassageNeighbors(m, h, w, ps)) == NeighborIds(before) + [x];
      } else {
        assert PassageNeighbors(m, h, w, ps) == before;
      }
    }
  }

  lemma DistinctSnoc(s: seq<string>, x: string)
    requires Distinct(s) && x !in s
    ensures Distinct(s + [x])
  {
    var t := s + [x];
    forall i, j | 0 <= i < j < |t|
      ensures t[i] != t[j]
    {
      if j < |s| {
        assert t[i] == s[i] && t[j] == s[j];
      } else {
        assert t[i] == s[i];
      }
    }
  }

  lemma {:induction false} CostToPresent(nbs: seq<Neighbor>, to: string)
    requires to in NeighborIds(nbs)
    ensures CostTo(nbs, to).Some?
    decreases |nbs|
  {
    if nbs[0].nodeId != to {
      assert NeighborIds(nbs[1..]) == NeighborIds(nbs)[1..];
      CostToPresent(nbs[1..], to);
    }
  }

  /** The converted graph has an edge from cell i to the cell `to` exactly
      when one of cell i's passages leads to that cell on the grid, and
      every edge costs 1. */
  lemma ConvertedEdgeCost(m: Maze, i: int, to: string)
    requires Laid(m) && Distinct(CellIds(m.cells)) && 0 <= i < |m.cells|
    ensures 0 <= i / m.width < m.height && 0 <= i % m.width < m.width
    ensures var p := Pos(i / m.width, i % m.width);
      EdgeCost(ConvertedNodes(m), m.cells[i].id, to) ==
        if exists d :: d in m.cells[i].passages && InGrid(Step(p, d), m.height, m.width) &&
             CellAt(m, Step(p, d).row, Step(p, d).col).id == to
        then Some(1) else None
  {
    IndexCell(i, m.height, m.width);
    var h, w := i / m.width, i % m.width;
    var nodes := ConvertedNodes(m);
    EdgeCostOfNode(nodes, i, to);
    var nbs := nodes[i].neighbors;
    assert nbs == PassageNeighbors(m, h, w, m.cells[i].passages);
    PassageNeighborsUnit(m, h, w, m.cells[i].passages);
    CostToUnit(nbs, to);
    PassageNeighborsSpec(m, h, w, m.cells[i].passages);
  }

  /** In a list of cost-1 entries, the lookup finds cost 1 exactly when the
      entry is present. */
  lemma CostToUnit(nbs: seq<Neighbor>, to: string)
    requires forall k :: 0 <= k < |nbs| ==> nbs[k].cost == 1
    ensures CostTo(nbs, to) == if Neighbor(to, 1) in nbs then Some(1) else None
  {
    if Neighbor(to, 1) in nbs {
      var k :| 0 <= k < |nbs| && nbs[k] == Neighbor(to, 1);
      assert NeighborIds(nbs)[k] == to;
      CostToPresent(nbs, to);
      var j := CostToSome(nbs, to);
    } else {
      forall k | 0 <= k < |nbs|
        ensures NeighborIds(nbs)[k] != to
      {
        assert nbs[k] in nbs;
      }
      CostToNone(nbs, to);
    }
  }

  /** Every neighbour entry names a node, costs 1, and so every edge cost is
      non-negative and reciprocal edges agree. */
  lemma ConvertedGraphShape(m: Maze)
    requires Laid(m)
    ensures var nodes := ConvertedNodes(m);
      && Closed(nodes) && NonNegativeCosts(nodes) && NoNegativeSelfLoops(nodes)
      && NodeValidation.ReciprocalCostsAgree(nodes)
      && forall i, k :: 0 <= i < |nodes| && 0 <= k < |nodes[i].neighbors| ==> nodes[i].neighbors[k].cost == 1
  {
    var nodes := ConvertedNodes(m);
    forall i | 0 <= i < |nodes|
      ensures forall k :: 0 <= k < |nodes[i].neighbors| ==>
        nodes[i].neighbors[k].cost == 1 && nodes[i].neighbors[k].nodeId in Ids(nodes)
    {
      IndexCell(i, m.height, m.width);
      PassageNeighborsUnit(m, i / m.width, i % m.width, m.cells[i].passages);
    }
  }

  /** A maze that converts, and whose cells list no direction twice, yields
      a graph the shortest-path engine accepts. */
  lemma ConvertedWellFormed(m: Maze)
    requires Conversion(m).Ok? && CellPassagesDistinct(m)
    ensures Laid(m) && NodeValidation.WellFormed(Conversion(m).value)
  {
    MazeValidationPassIff(m);
    var nodes := ConvertedNodes(m);
    ConvertedGraphShape(m);
    forall i | 0 <= i < |nodes|
      ensures !IsBlank(nodes[i].id) && Distinct(NeighborIds(nodes[i].neighbors))
    {
      IndexCell(i, m.height, m.width);
      assert Ids(nodes)[i] == CellIds(m.cells)[i];
      PassageNeighborIdsDistinct(m, i / m.width, i % m.width, m.cells[i].passages);
    }
  }

  /** Conversion succeeds exactly on mazes with a positive height and width,
      height * width cells, and non-blank distinct cell ids. */
  lemma ConversionOkIff(m: Maze)
    ensures Conversion(m).Ok? <==>
      && m.height > 0 && m.width > 0 && |m.cells| == m.height * m.width
      && (forall i :: 0 <= i < |m.cells| ==> !IsBlank(m.cells[i].id))
      && Distinct(CellIds(m.cells))
  {
    MazeValidationPassIff(m);
    if m.height > 0 && m.width > 0 && |m.cells| == m.height * m.width {
      CellIndexBound(0, 0, m.height, m.width);
    }
  }

  /** What the engine's validation reports on a converted maze: a repeated
      neighbour id when the graph is not well formed, and otherwise a
      missing primary id or nothing. */
  lemma ConvertedValidation(m: Maze, primaryNodeId: string)
    requires Conversion(m).Ok?
    ensures !NodeValidation.WellFormed(Conversion(m).value) ==>
      NodeValidation.Validation(Conversion(m).value, primaryNodeId).Fail? &&
      NodeValidation.Validation(Conversion(m).value, primaryNodeId).error.DuplicateNeighborId?
    ensures NodeValidation.WellFormed(Conversion(m).value) && primaryNodeId !in CellIds(m.cells) ==>
      NodeValidation.Validation(Conversion(m).value, primaryNodeId) == Fail(NotFound(primaryNodeId))
  {
    ConversionOkIff(m);
    var nodes := ConvertedNodes(m);
    ConvertedGraphShape(m);
    forall j | 0 <= j < |nodes|
      ensures !IsBlank(nodes[j].id)
    {
      assert Ids(nodes)[j] == CellIds(m.cells)[j];
    }
    ValidationProperties.UnitValidation(nodes, primaryNodeId);
  }

  // ---------------------------------------------------------------------
  // Solving

  /** Converts the request's maze and asks the shortest-path engine for a
      path from the start cell to the end cell. */
  method FindSolution(request: Option<SolveMazeRequest>) returns (r: Result<Option<seq<string>>>)
    ensures request.None? ==> r == Failure(NullValue("request"))
    ensures request.Some? && Conversion(request.value.maze).Failure? ==>
      r == Failure(Conversion(request.value.maze).error)
    ensures request.Some? && Conversion(request.value.maze).Ok? && IsBlank(request.value.startPointId) ==>
      r == Failure(ValidationFailed("StartNodeId"))
    ensures (request.Some? && Conversion(request.value.maze).Ok? && !IsBlank(request.value.startPointId) &&
             request.value.startPointId !in CellIds(request.value.maze.cells) && !IsBlank(request.value.endPointId))
      ==> r == Failure(NotFound(request.value.startPointId))
    ensures request.Some? && Conversion(request.value.maze).Ok? && !IsBlank(request.value.startPointId) &&
            IsBlank(request.value.endPointId) ==>
      r == Failure(ValidationFailed("EndNodeId"))
    ensures (request.Some? && Conversion(request.value.maze).Ok? &&
             request.value.startPointId in CellIds(request.value.maze.cells) && !IsBlank(request.value.endPointId) &&
             !NodeValidation.WellFormed(Conversion(request.value.maze).value))
      ==> r.Failure? && r.error.DuplicateNeighborId?
    ensures (request.Some? && Conversion(request.value.maze).Ok? &&
             request.value.startPointId in CellIds(request.value.maze.cells) && !IsBlank(request.value.endPointId) &&
             NodeValidation.WellFormed(Conversion(request.value.maze).value) &&
             request.value.endPointId !in CellIds(request.value.maze.cells))
      ==> r == Failure(NotFound(request.value.endPointId))
    ensures r.Ok? ==>
      && request.Some? && Conversion(request.value.maze).Ok?
      && request.value.startPointId in CellIds(request.value.maze.cells)
      && request.value.endPointId in CellIds(request.value.maze.cells)
      && Dijkstra.AnswersQuery(Conversion(request.value.maze).value, request.value.startPointId, request.value.endPointId, r.value)
    ensures (request.Some? && Conversion(request.value.maze).Ok? && NodeValidation.WellFormed(Conversion(request.value.maze).value) &&
             request.value.startPointId in CellIds(request.value.maze.cells) &&
             request.value.endPointId in CellIds(request.value.maze.cells))
      ==> r.Ok?
  {
    if request.None? {
      return Failure(NullValue("request"));
    }
    var maze := request.value.maze;
    var start, end := request.value.startPointId, request.value.endPointId;
    var nodes :- ConvertToGraph(maze);
    ConversionOkIff(maze);
    ConvertedGraphShape(maze);
    ConvertedValidation(maze, end);
    ValidationProperties.ValidationPassIff(nodes, end);
    if start in CellIds(maze.cells) {
      var i :| 0 <= i < |maze.cells| && CellIds(maze.cells)[i] == start;
    }
    r := Dijkstra.FindShortestPath(nodes, start, end);
  }
}
