/**
 * The 4x4 block simulator of Advance4x4Block: a bool[4, 4] grid indexed
 * [y, x], stepped by B3/S23 with every cell outside the grid counted as dead.
 */
module Grid {
  import opened Life

  predicate InGrid(c: Cell) {
    0 <= c.x < 4 && 0 <= c.y < 4
  }

  /** The cells of s inside the grid. */
  ghost function Window(s: set<Cell>): set<Cell> {
    set c | c in s && InGrid(c)
  }

  /** One generation on the grid, for a board inside the grid: B3/S23, then
      everything born outside the grid is dropped. */
  ghost function GridStep(s: set<Cell>): set<Cell> {
    Window(Step(s))
  }

  /** n generations on the grid. */
  ghost function GridIterate(s: set<Cell>, n: nat): set<Cell> {
    if n == 0 then s else GridStep(GridIterate(s, n - 1))
  }

  /** A cell is live after a grid step iff it is in the grid and the B3/S23
      rule keeps or makes it live. */
  lemma GridStepMember(s: set<Cell>, c: Cell)
    ensures c in GridStep(s) <==> InGrid(c) && Survives(s, c)
  {
    StepMembership(s, c);
  }

  /** An empty grid stays empty. */
  lemma {:induction false} GridIterateEmpty(n: nat)
    ensures GridIterate({}, n) == {}
  {
    if n > 0 {
      GridIterateEmpty(n - 1);
      IterateEmpty(1);
      assert Step({}) == Iterate({}, 1);
    }
  }

  /** Every generation after the first lies inside the grid. */
  lemma GridIterateInside(s: set<Cell>, n: nat, c: Cell)
    requires n > 0 && c in GridIterate(s, n)
    ensures InGrid(c)
  {
  }

  // ---------------------------------------------------------------------
  // The grid itself

  predicate IsGrid(grid: array2<bool>) {
    grid.Length0 == 4 && grid.Length1 == 4
  }

  /** The live cells a grid holds: (x, y) for every true grid[y, x]. */
  ghost function GridCells(grid: array2<bool>): set<Cell>
    requires IsGrid(grid)
    reads grid
  {
    set x: int, y: int | 0 <= x < 4 && 0 <= y < 4 && grid[y, x] :: Cell(x, y)
  }

  lemma GridCellsMember(grid: array2<bool>, c: Cell)
    requires IsGrid(grid)
    ensures c in GridCells(grid) <==> InGrid(c) && grid[c.y, c.x]
  {
    if InGrid(c) && grid[c.y, c.x] {
      assert c == Cell(c.x, c.y);
    }
  }

  // ---------------------------------------------------------------------
  // CountNeighbors4x4

  /** The neighbour position with scan index j: CountNeighbors4x4 visits dy
      in the outer loop and dx in the inner one, so j = (dy + 1) * 3 + (dx + 1). */
  function ScanOffset(j: nat): Cell
    requires j < 9
  {
    Cell(j % 3 - 1, j / 3 - 1)
  }

  /** The live cells of s among the first j positions of the scan around c,
      the centre (index 4) skipped. */
  function ScanCount(s: set<Cell>, c: Cell, j: nat): nat
    requires j <= 9
  {
    if j == 0 then 0
    else ScanCount(s, c, j - 1) + (if j - 1 != 4 && Shift(c, ScanOffset(j - 1)) in s then 1 else 0)
  }

  /** The whole scan counts the live neighbours. */
  lemma ScanCountIsLiveNeighbours(s: set<Cell>, c: Cell)
    ensures ScanCount(s, c, 9) == LiveNeighbours(s, c)
  {
    NeighboursUnfolded(s, c);
    assert ScanCount(s, c, 9) == ScanCount(s, c, 8) + (if Cell(c.x + 1, c.y + 1) in s then 1 else 0);
    assert ScanCount(s, c, 8) == ScanCount(s, c, 7) + (if Cell(c.x, c.y + 1) in s then 1 else 0);
    assert ScanCount(s, c, 7) == ScanCount(s, c, 6) + (if Cell(c.x - 1, c.y + 1) in s then 1 else 0);
    assert ScanCount(s, c, 6) == ScanCount(s, c, 5) + (if Cell(c.x + 1, c.y) in s then 1 else 0);
    assert ScanCount(s, c, 5) == ScanCount(s, c, 4);
    assert ScanCount(s, c, 4) == ScanCount(s, c, 3) + (if Cell(c.x - 1, c.y) in s then 1 else 0);
    assert ScanCount(s, c, 3) == ScanCount(s, c, 2) + (if Cell(c.x + 1, c.y - 1) in s then 1 else 0);
    assert ScanCount(s, c, 2) == ScanCount(s, c, 1) + (if Cell(c.x, c.y - 1) in s then 1 else 0);
    assert ScanCount(s, c, 1) == (if Cell(c.x - 1, c.y - 1) in s then 1 else 0);
  }

  lemma ScanIndex(dx: int, dy: int)
    requires -1 <= dx <= 1 && -1 <= dy <= 1
    ensures 0 <= (dy + 1) * 3 + (dx + 1) < 9
    ensures ScanOffset((dy + 1) * 3 + (dx + 1)) == Cell(dx, dy)
    ensures ((dy + 1) * 3 + (dx + 1) == 4) <==> (dx == 0 && dy == 0)
  {
    if dy == -1 {
      assert (dy + 1) * 3 + (dx + 1) == dx + 1;
    } else if dy == 0 {
      assert (dy + 1) * 3 + (dx + 1) == 3 + dx + 1;
    } else {
      assert (dy + 1) * 3 + (dx + 1) == 6 + dx + 1;
    }
  }

  /** One position of the scan: the grid test of CountNeighbors4x4 adds what
      ScanCount adds. */
  lemma ScanStep(grid: array2<bool>, c: Cell, dx: int, dy: int)
    requires IsGrid(grid) && -1 <= dx <= 1 && -1 <= dy <= 1
    ensures var j := (dy + 1) * 3 + (dx + 1);
      var nx, ny := c.x + dx, c.y + dy;
      && 0 <= j < 9
      && ScanCount(GridCells(grid), c, j + 1) == ScanCount(GridCells(grid), c, j) +
           (if !(dx == 0 && dy == 0) && nx >= 0 && nx < 4 && ny >= 0 && ny < 4 && grid[ny, nx] then 1 else 0)
  {
    ScanIndex(dx, dy);
    GridCellsMember(grid, Cell(c.x + dx, c.y + dy));
  }

  /** CountNeighbors4x4: the number of live neighbours of (x, y) among the
      grid's cells, cells off the grid counting as dead; never more than 8. */
  method CountNeighbors4x4(grid: array2<bool>, x: int, y: int) returns (count: int)
    requires IsGrid(grid)
    ensures count == LiveNeighbours(GridCells(grid), Cell(x, y))
    ensures 0 <= count <= 8
  {
    ghost var cells := GridCells(grid);
    ghost var c := Cell(x, y);
    count := 0;
    for dy := -1 to 2
      invariant count == ScanCount(cells, c, (dy + 1) * 3)
    {
      for dx := -1 to 2
        invariant count == ScanCount(cells, c, (dy + 1) * 3 + (dx + 1))
      {
        ScanStep(grid, c, dx, dy);
        if dx == 0 && dy == 0 {
          continue;
        }
        var nx, ny := x + dx, y + dy;
        if nx >= 0 && nx < 4 && ny >= 0 && ny < 4 && grid[ny, nx] {
          count := count + 1;
        }
      }
    }
    ScanCountIsLiveNeighbours(cells, c);
    LiveNeighboursBound(cells, c);
  }

  /** The rule Advance4x4Block applies to one grid entry is B3/S23. */
  lemma CellRule(grid: array2<bool>, x: int, y: int, neighbors: int)
    requires IsGrid(grid) && 0 <= x < 4 && 0 <= y < 4
    requires neighbors == LiveNeighbours(GridCells(grid), Cell(x, y))
    ensures (if grid[y, x] then neighbors == 2 || neighbors == 3 else neighbors == 3) == Survives(GridCells(grid), Cell(x, y))
  {
    GridCellsMember(grid, Cell(x, y));
  }

  /** The inner loop of Advance4x4Block's generation step: row y of the new
      grid gets the next generation of the old grid's cells; the other rows
      keep their values. */
  method FillRow(grid: array2<bool>, newGrid: array2<bool>, y: int)
    requires IsGrid(grid) && IsGrid(newGrid) && grid != newGrid && 0 <= y < 4
    modifies newGrid
    ensures forall j, i :: 0 <= j < 4 && j != y && 0 <= i < 4 ==> newGrid[j, i] == old(newGrid[j, i])
    ensures forall i :: 0 <= i < 4 ==> newGrid[y, i] == Survives(GridCells(grid), Cell(i, y))
  {
    for x := 0 to 4
      invariant forall j, i :: 0 <= j < 4 && j != y && 0 <= i < 4 ==> newGrid[j, i] == old(newGrid[j, i])
      invariant forall i :: 0 <= i < x ==> newGrid[y, i] == Survives(GridCells(grid), Cell(i, y))
    {
      var neighbors := CountNeighbors4x4(grid, x, y);
      var isAlive := grid[y, x];
      CellRule(grid, x, y, neighbors);
      newGrid[y, x] := if isAlive then neighbors == 2 || neighbors == 3 else neighbors == 3;
    }
  }

  /** One pass of Advance4x4Block's generation loop: a new grid holding the
      next generation of the old one's cells. */
  method NextGrid(grid: array2<bool>) returns (newGrid: array2<bool>)
    requires IsGrid(grid)
    ensures fresh(newGrid) && IsGrid(newGrid)
    ensures GridCells(newGrid) == GridStep(GridCells(grid))
  {
    ghost var cells := GridCells(grid);
    newGrid := new bool[4, 4]((_, _) => false);
    for y := 0 to 4
      invariant forall j, i :: 0 <= j < y && 0 <= i < 4 ==> newGrid[j, i] == Survives(cells, Cell(i, j))
    {
      FillRow(grid, newGrid, y);
    }
    forall c ensures c in GridCells(newGrid) <==> c in GridStep(cells) {
      GridCellsMember(newGrid, c);
      GridStepMember(cells, c);
    }
  }
}
