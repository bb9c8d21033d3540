/**
 * HashlifeGameOfLifeService: the simulation service. It keeps the shared
 * alive and dead leaves, the canonical-node table and the advance-result
 * cache, and answers a request either by direct simulation or through the
 * quadtree.
 */
module Hashlife {
  import opened Wrappers
  import opened Life
  import opened Powers
  import opened QuadTree
  import opened Levels
  import opened Caches
  import opened Board
  import opened Grid
  import opened Outcome
  import opened DirectSimulation
  import opened StateKey
  import opened DirectStep

  /** The 2x2 block of a grid with top-left entry grid[row, col], as the
      union of one cell per true entry, is the grid's cells in that square. */
  lemma BlockOfGrid(grid: array2<bool>, row: int, col: int, block: set<Cell>)
    requires IsGrid(grid) && 0 <= row <= 2 && 0 <= col <= 2
    requires block ==
      (if grid[row, col] then {Cell(col, row)} else {}) + (if grid[row, col + 1] then {Cell(col + 1, row)} else {}) +
      (if grid[row + 1, col] then {Cell(col, row + 1)} else {}) + (if grid[row + 1, col + 1] then {Cell(col + 1, row + 1)} else {})
    ensures forall c :: c in block <==> InSquare(c, col, row, 2) && c in GridCells(grid)
  {
    forall c ensures c in block <==> InSquare(c, col, row, 2) && c in GridCells(grid) {
      GridCellsMember(grid, c);
      if InSquare(c, col, row, 2) {
        assert c == Cell(col, row) || c == Cell(col + 1, row) || c == Cell(col, row + 1) || c == Cell(col + 1, row + 1);
      }
    }
  }

  /** The four 2x2 blocks of a grid together hold all its cells. */
  lemma FourBlocksOfGrid(grid: array2<bool>, all: set<Cell>, b0: set<Cell>, b1: set<Cell>, b2: set<Cell>, b3: set<Cell>)
    requires IsGrid(grid) && all == b0 + b1 + b2 + b3
    requires forall c :: c in b0 <==> InSquare(c, 0, 0, 2) && c in GridCells(grid)
    requires forall c :: c in b1 <==> InSquare(c, 2, 0, 2) && c in GridCells(grid)
    requires forall c :: c in b2 <==> InSquare(c, 0, 2, 2) && c in GridCells(grid)
    requires forall c :: c in b3 <==> InSquare(c, 2, 2, 2) && c in GridCells(grid)
    ensures all == GridCells(grid)
  {
    forall c ensures c in all <==> c in GridCells(grid) {
      GridCellsMember(grid, c);
    }
  }

  /** A level-1 node whose four leaves follow the 2x2 block of a grid at
      grid[row, col] holds that block's cells. */
  lemma LeafBlockCells(nodes: Arena, q: NodeRef, grid: array2<bool>, row: int, col: int)
    requires ArenaOk(nodes) && q in nodes && IsGrid(grid) && 0 <= row <= 2 && 0 <= col <= 2
    requires var k := KeyOf(nodes[q]);
      && k.InternalKey? && k.level == 1
      && k.nw in nodes && nodes[k.nw].level == 0 && nodes[k.nw].isAlive == grid[row, col]
      && k.ne in nodes && nodes[k.ne].level == 0 && nodes[k.ne].isAlive == grid[row, col + 1]
      && k.sw in nodes && nodes[k.sw].level == 0 && nodes[k.sw].isAlive == grid[row + 1, col]
      && k.se in nodes && nodes[k.se].level == 0 && nodes[k.se].isAlive == grid[row + 1, col + 1]
    ensures forall c :: c in CellsAt(nodes, q, col, row) <==> InSquare(c, col, row, 2) && c in GridCells(grid)
  {
    var k := KeyOf(nodes[q]);
    assert Pow2(0) == 1;
    CellsOfKey(nodes, q, col, row);
    LeafCells(nodes, k.nw, col, row);
    LeafCells(nodes, k.ne, col + 1, row);
    LeafCells(nodes, k.sw, col, row + 1);
    LeafCells(nodes, k.se, col + 1, row + 1);
    BlockOfGrid(grid, row, col, CellsAt(nodes, q, col, row));
  }

  /** A level-2 node whose quadrants hold the four 2x2 blocks of a grid holds the grid's cells. */
  lemma BlocksNodeCells(nodes: Arena, r: NodeRef, grid: array2<bool>)
    requires ArenaOk(nodes) && r in nodes && IsGrid(grid)
    requires var k := KeyOf(nodes[r]);
      && k.InternalKey? && k.level == 2
      && k.nw in nodes && k.ne in nodes && k.sw in nodes && k.se in nodes
      && (forall c :: c in CellsAt(nodes, k.nw, 0, 0) <==> InSquare(c, 0, 0, 2) && c in GridCells(grid))
      && (forall c :: c in CellsAt(nodes, k.ne, 2, 0) <==> InSquare(c, 2, 0, 2) && c in GridCells(grid))
      && (forall c :: c in CellsAt(nodes, k.sw, 0, 2) <==> InSquare(c, 0, 2, 2) && c in GridCells(grid))
      && (forall c :: c in CellsAt(nodes, k.se, 2, 2) <==> InSquare(c, 2, 2, 2) && c in GridCells(grid))
    ensures CellsAt(nodes, r, 0, 0) == GridCells(grid)
  {
    var k := KeyOf(nodes[r]);
    assert Pow2(1) == 2;
    CellsOfKey(nodes, r, 0, 0);
    FourBlocksOfGrid(grid, CellsAt(nodes, r, 0, 0), CellsAt(nodes, k.nw, 0, 0),
      CellsAt(nodes, k.ne, 2, 0), CellsAt(nodes, k.sw, 0, 2), CellsAt(nodes, k.se, 2, 2));
  }

  /** The nine overlapping sub-squares of a node, by row and column: the
      corners are its quadrants, the other five are built across them. */
  datatype Nine = Nine(n00: NodeRef, n01: NodeRef, n02: NodeRef,
                       n10: NodeRef, n11: NodeRef, n12: NodeRef,
                       n20: NodeRef, n21: NodeRef, n22: NodeRef)

  /** All nine are stored and of the given level. */
  ghost predicate NineAt(nodes: Arena, s: Nine, level: nat) {
    && s.n00 in nodes && nodes[s.n00].level == level
    && s.n01 in nodes && nodes[s.n01].level == level
    && s.n02 in nodes && nodes[s.n02].level == level
    && s.n10 in nodes && nodes[s.n10].level == level
    && s.n11 in nodes && nodes[s.n11].level == level
    && s.n12 in nodes && nodes[s.n12].level == level
    && s.n20 in nodes && nodes[s.n20].level == level
    && s.n21 in nodes && nodes[s.n21].level == level
    && s.n22 in nodes && nodes[s.n22].level == level
  }

  /** id is stored with the four given children. */
  ghost predicate ChildrenAre(nodes: Arena, id: NodeRef, nw: NodeRef, ne: NodeRef, sw: NodeRef, se: NodeRef) {
    id in nodes && nodes[id].nw == nw && nodes[id].ne == ne && nodes[id].sw == sw && nodes[id].se == se
  }

  /** The five nodes built across a node's quadrants, as the grandchildren
      they take: north, west, centre, east and south. */
  ghost predicate OverlapChildren(before: Arena, node: NodeRef, s: Nine, after: Arena) {
    && node in before
    && before[node].nw in before && before[node].ne in before
    && before[node].sw in before && before[node].se in before
    && var n := before[node];
       var nw, ne, sw, se := before[n.nw], before[n.ne], before[n.sw], before[n.se];
       && ChildrenAre(after, s.n01, nw.ne, ne.nw, nw.se, ne.sw)
       && ChildrenAre(after, s.n10, nw.sw, nw.se, sw.nw, sw.ne)
       && ChildrenAre(after, s.n11, nw.se, ne.sw, sw.ne, se.nw)
       && ChildrenAre(after, s.n12, ne.sw, ne.se, se.nw, se.ne)
       && ChildrenAre(after, s.n21, sw.ne, se.nw, sw.se, se.sw)
  }

  /** All nine are empty. */
  ghost predicate NineEmpty(nodes: Arena, deadNode: NodeRef, s: Nine, level: nat)
    requires ArenaOk(nodes) && NineAt(nodes, s, level)
  {
    && IsEmptyNode(nodes, deadNode, s.n00) && IsEmptyNode(nodes, deadNode, s.n01) && IsEmptyNode(nodes, deadNode, s.n02)
    && IsEmptyNode(nodes, deadNode, s.n10) && IsEmptyNode(nodes, deadNode, s.n11) && IsEmptyNode(nodes, deadNode, s.n12)
    && IsEmptyNode(nodes, deadNode, s.n20) && IsEmptyNode(nodes, deadNode, s.n21) && IsEmptyNode(nodes, deadNode, s.n22)
  }

  /** Three nodes of one row of the nine, stored with the given level, and
      all empty when empty holds. */
  ghost predicate AdvancedRow(nodes: Arena, deadNode: NodeRef, x0: NodeRef, x1: NodeRef, x2: NodeRef, level: nat, empty: bool)
    requires ArenaOk(nodes)
  {
    && x0 in nodes && nodes[x0].level == level
    && x1 in nodes && nodes[x1].level == level
    && x2 in nodes && nodes[x2].level == level
    && (empty ==> IsEmptyNode(nodes, deadNode, x0) && IsEmptyNode(nodes, deadNode, x1) && IsEmptyNode(nodes, deadNode, x2))
  }

  /** A row of the nine keeps its levels and emptiness as the arena grows. */
  lemma RowStable(before: Arena, after: Arena, deadNode: NodeRef, x0: NodeRef, x1: NodeRef, x2: NodeRef, level: nat, empty: bool)
    requires ArenaOk(before) && ArenaOk(after) && Extends(before, after)
    requires AdvancedRow(before, deadNode, x0, x1, x2, level, empty)
    ensures AdvancedRow(after, deadNode, x0, x1, x2, level, empty)
  {
    IsEmptyStable(before, after, deadNode, x0);
    IsEmptyStable(before, after, deadNode, x1);
    IsEmptyStable(before, after, deadNode, x2);
  }

  lemma NineStable(before: Arena, after: Arena, deadNode: NodeRef, s: Nine, level: nat)
    requires ArenaOk(before) && ArenaOk(after) && Extends(before, after) && NineAt(before, s, level)
    ensures NineAt(after, s, level)
    ensures NineEmpty(after, deadNode, s, level) == NineEmpty(before, deadNode, s, level)
  {
    IsEmptyStable(before, after, deadNode, s.n00);
    IsEmptyStable(before, after, deadNode, s.n01);
    IsEmptyStable(before, after, deadNode, s.n02);
    IsEmptyStable(before, after, deadNode, s.n10);
    IsEmptyStable(before, after, deadNode, s.n11);
    IsEmptyStable(before, after, deadNode, s.n12);
    IsEmptyStable(before, after, deadNode, s.n20);
    IsEmptyStable(before, after, deadNode, s.n21);
    IsEmptyStable(before, after, deadNode, s.n22);
  }

  /** A level-2 node advanced by the grid simulator stays empty when it is empty. */
  lemma EmptyBlockStaysEmpty(nodes: Arena, deadNode: NodeRef, node: NodeRef, result: NodeRef, generations: nat)
    requires ArenaOk(nodes) && node in nodes && result in nodes
    requires deadNode in nodes && nodes[deadNode].level == 0 && !nodes[deadNode].isAlive
    requires CellsAt(nodes, result, 0, 0) == GridIterate(CellsAt(nodes, node, 0, 0), generations)
    ensures IsEmptyNode(nodes, deadNode, node) ==> IsEmptyNode(nodes, deadNode, result)
  {
    IsEmptyIffNoCells(nodes, deadNode, node, 0, 0);
    IsEmptyIffNoCells(nodes, deadNode, result, 0, 0);
    GridIterateEmpty(generations);
  }

  /** The 1x1 square at (x, y) holds that cell when the board does, and nothing else. */
  lemma UnitSquare(cells: set<Cell>, x: int, y: int)
    ensures Square(cells, x, y, 1) == if Cell(x, y) in cells then {Cell(x, y)} else {}
  {
    forall c | c in Square(cells, x, y, 1) ensures c == Cell(x, y) {
      assert InSquare(c, x, y, 1);
    }
  }

  /** A node whose quadrants hold the four quadrants of a square of the board
      holds the square. */
  lemma SquareNodeCells(nodes: Arena, r: NodeRef, cells: set<Cell>, x: int, y: int, h: nat)
    requires ArenaOk(nodes) && r in nodes && nodes[r].level >= 1 && Pow2(nodes[r].level - 1) == h
    requires var n := nodes[r];
      && n.nw in nodes && n.ne in nodes && n.sw in nodes && n.se in nodes
      && CellsAt(nodes, n.nw, x, y) == Square(cells, x, y, h)
      && CellsAt(nodes, n.ne, x + h, y) == Square(cells, x + h, y, h)
      && CellsAt(nodes, n.sw, x, y + h) == Square(cells, x, y + h, h)
      && CellsAt(nodes, n.se, x + h, y + h) == Square(cells, x + h, y + h, h)
    ensures CellsAt(nodes, r, x, y) == Square(cells, x, y, 2 * h)
  {
    Lookup(nodes, r);
    var n := nodes[r];
    assert CellsAt(nodes, r, x, y) ==
      Square(cells, x, y, h) + Square(cells, x + h, y, h) + Square(cells, x, y + h, h) + Square(cells, x + h, y + h, h);
    forall c ensures c in Square(cells, x, y, 2 * h) <==>
      c in Square(cells, x, y, h) + Square(cells, x + h, y, h) + Square(cells, x, y + h, h) + Square(cells, x + h, y + h, h)
    {
      SquareQuadrants(cells, x, y, h, c);
    }
  }

  /** The tree BuildQuadNode builds for the square of the board with
      north-west corner (x, y) and side 2^level: a leaf alive exactly when
      the board holds its cell, and above that four such quadrants. */
  ghost predicate Built(nodes: Arena, r: NodeRef, cells: set<Cell>, x: int, y: int, level: nat)
    decreases level
  {
    && r in nodes && nodes[r].level == level
    && if level == 0 then nodes[r].isAlive == (Cell(x, y) in cells)
       else
         var n := nodes[r];
         var h := Pow2(level - 1);
         && Built(nodes, n.nw, cells, x, y, level - 1) && Built(nodes, n.ne, cells, x + h, y, level - 1)
         && Built(nodes, n.sw, cells, x, y + h, level - 1) && Built(nodes, n.se, cells, x + h, y + h, level - 1)
  }

  /** A built tree stays built as the arena grows. */
  lemma {:induction false} BuiltStable(before: Arena, after: Arena, r: NodeRef, cells: set<Cell>, x: int, y: int, level: nat)
    requires Extends(before, after) && Built(before, r, cells, x, y, level)
    ensures Built(after, r, cells, x, y, level)
    decreases level
  {
    if level > 0 {
      var n := before[r];
      var h := Pow2(level - 1);
      BuiltStable(before, after, n.nw, cells, x, y, level - 1);
      BuiltStable(before, after, n.ne, cells, x + h, y, level - 1);
      BuiltStable(before, after, n.sw, cells, x, y + h, level - 1);
      BuiltStable(before, after, n.se, cells, x + h, y + h, level - 1);
    }
  }

  /** A built tree holds exactly the board's cells inside its square. */
  lemma {:induction false} BuiltCells(nodes: Arena, r: NodeRef, cells: set<Cell>, x: int, y: int, level: nat)
    requires ArenaOk(nodes) && Built(nodes, r, cells, x, y, level)
    ensures CellsAt(nodes, r, x, y) == Square(cells, x, y, Pow2(level))
    decreases level
  {
    if level == 0 {
      LeafCells(nodes, r, x, y);
      UnitSquare(cells, x, y);
    } else {
      var n := nodes[r];
      var h := Pow2(level - 1);
      assert && Built(nodes, n.nw, cells, x, y, level - 1) && Built(nodes, n.ne, cells, x + h, y, level - 1)
             && Built(nodes, n.sw, cells, x, y + h, level - 1) && Built(nodes, n.se, cells, x + h, y + h, level - 1);
      BuiltCells(nodes, n.nw, cells, x, y, level - 1);
      BuiltCells(nodes, n.ne, cells, x + h, y, level - 1);
      BuiltCells(nodes, n.sw, cells, x, y + h, level - 1);
      BuiltCells(nodes, n.se, cells, x + h, y + h, level - 1);
      SquareNodeCells(nodes, r, cells, x, y, h);
    }
  }

  /** Read back from the origin, as ConvertToHashSet does, a built tree
      holds c exactly when the board holds c moved by (x, y) inside the
      square: the board is translated by (-x, -y), and the original
      coordinates are not restored. */
  lemma ConvertedIsTranslation(nodes: Arena, r: NodeRef, cells: set<Cell>, x: int, y: int, level: nat, c: Cell)
    requires ArenaOk(nodes) && Built(nodes, r, cells, x, y, level)
    ensures c in CellsAt(nodes, r, 0, 0) <==>
      Cell(c.x + x, c.y + y) in cells && InSquare(Cell(c.x + x, c.y + y), x, y, Pow2(level))
  {
    BuiltCells(nodes, r, cells, x, y, level);
    CellsAtRelative(nodes, r, x, y, Cell(c.x + x, c.y + y), 0, 0, c);
  }

  /** A node joined from four built quadrants, each built in an arena the
      final one extends, is built. */
  lemma JoinedBuilt(a1: Arena, a2: Arena, a3: Arena, a4: Arena, nodes: Arena, r: NodeRef,
                    cells: set<Cell>, x: int, y: int, level: nat, h: int)
    requires ArenaOk(nodes) && level > 0 && h == Pow2(level - 1)
    requires Extends(a1, a2) && Extends(a2, a3) && Extends(a3, a4) && Extends(a4, nodes)
    requires r in nodes && nodes[r].level == level && !nodes[r].IsLeaf()
    requires Built(a1, nodes[r].nw, cells, x, y, level - 1) && Built(a2, nodes[r].ne, cells, x + h, y, level - 1)
    requires Built(a3, nodes[r].sw, cells, x, y + h, level - 1) && Built(a4, nodes[r].se, cells, x + h, y + h, level - 1)
    ensures Built(nodes, r, cells, x, y, level)
  {
    var n := nodes[r];
    BuiltStable(a1, nodes, n.nw, cells, x, y, level - 1);
    BuiltStable(a2, nodes, n.ne, cells, x + h, y, level - 1);
    BuiltStable(a3, nodes, n.sw, cells, x, y + h, level - 1);
    BuiltStable(a4, nodes, n.se, cells, x + h, y + h, level - 1);
  }

  /** The level ConvertToQuadNodeWithPadding picks for a padded box of the
      given side: the least covering level, but at least 3 and at most 15. */
  function PaddedLevel(side: nat): nat {
    Min(Max(CeilLog2(side), 3), 15)
  }

  /** A side that fits in level 15 fits in the level picked for it. */
  lemma PaddedLevelCovers(side: nat)
    requires side <= Pow2(15)
    ensures side <= Pow2(PaddedLevel(side))
  {
    CeilLog2AtMost(side, 15);
    Pow2Monotone(CeilLog2(side), PaddedLevel(side));
  }

  /** r is a node of the given level holding the board's cells inside its
      square placed at (x, y). */
  ghost predicate HoldsSquare(nodes: Arena, r: NodeRef, cells: set<Cell>, x: int, y: int, level: nat) {
    r in nodes && nodes[r].level == level && CellsAt(nodes, r, x, y) == Square(cells, x, y, Pow2(level))
  }

  /** r is the node ConvertToQuadNodeWithPadding builds for a non-empty
      board: the bounding box is widened by Padding on every side, and r has
      level PaddedLevel of the padded box's side and holds the board's cells
      inside its square placed at the padded box's corner; so it holds the
      whole board when the padded box fits in level 15. */
  ghost predicate HoldsPadded(nodes: Arena, r: NodeRef, cells: set<Cell>, generations: int)
    requires cells != {}
  {
    exists x: int, y: int, level: nat {:trigger HoldsSquare(nodes, r, cells, x, y, level)} ::
      && x == MinX(cells) - Padding(cells, generations) && y == MinY(cells) - Padding(cells, generations)
      && level == PaddedLevel(Extent(cells) + 2 * Padding(cells, generations))
      && HoldsSquare(nodes, r, cells, x, y, level)
      && (Extent(cells) + 2 * Padding(cells, generations) <= Pow2(15) ==> CellsAt(nodes, r, x, y) == cells)
  }

  /** A node of the picked level built over the padded box's square holds the padded board. */
  lemma PaddedNodeHolds(nodes: Arena, r: NodeRef, cells: set<Cell>, generations: int, x: int, y: int, level: nat)
    requires cells != {} && generations >= 0
    requires x == MinX(cells) - Padding(cells, generations) && y == MinY(cells) - Padding(cells, generations)
    requires level == PaddedLevel(Extent(cells) + 2 * Padding(cells, generations))
    requires HoldsSquare(nodes, r, cells, x, y, level)
    ensures HoldsPadded(nodes, r, cells, generations)
  {
    if Extent(cells) + 2 * Padding(cells, generations) <= Pow2(15) {
      PaddingBounds(cells, generations);
      PaddedLevelCovers(Extent(cells) + 2 * Padding(cells, generations));
      PaddedSquareCovers(cells, Padding(cells, generations), x, y, Pow2(level));
    }
  }

  /** The arithmetic of ConvertToQuadNodeWithPadding for a non-empty board:
      the corner of the bounding box widened by Padding on every side, and
      the level of the node, found by doubling from 1 until the padded box's
      side fits and then clamped to [3, 15]. */
  method PaddedBox(liveCells: set<Cell>, generations: int) returns (minX: int, minY: int, level: nat)
    requires liveCells != {} && generations >= 0
    ensures minX == MinX(liveCells) - Padding(liveCells, generations)
    ensures minY == MinY(liveCells) - Padding(liveCells, generations)
    ensures level == PaddedLevel(Extent(liveCells) + 2 * Padding(liveCells, generations))
    ensures 3 <= level <= 15
  {
    var maxX, maxY;
    minX, maxX, minY, maxY := MinX(liveCells), MaxX(liveCells), MinY(liveCells), MaxY(liveCells);
    var patternWidth := maxX - minX + 1;
    var patternHeight := maxY - minY + 1;
    var maxDimension := Max(patternWidth, patternHeight);
    var padding := Max(generations + 4, maxDimension / 4);
    padding := Min(padding, 1000);
    minX := minX - padding;
    minY := minY - padding;
    var size := Max(patternWidth, patternHeight) + 2 * padding;
    level := 0;
    var nodeSize := 1;
    while nodeSize < size
      invariant nodeSize == Pow2(level)
      invariant level == 0 || Pow2(level - 1) < size
      decreases size - nodeSize
    {
      nodeSize := nodeSize * 2;
      level := level + 1;
    }
    CeilLog2Unique(size, level);
    level := Max(level, 3);
    level := Min(level, 15);
  }

  /** collected is the set result with the live cells of node id, placed
      with its north-west corner at (x, y), added. */
  ghost predicate Collects(nodes: Arena, id: NodeRef, x: int, y: int, result: set<Cell>, collected: set<Cell>)
    requires id in nodes
  {
    collected == result + CellsAt(nodes, id, x, y)
  }

  /** ConvertToHashSetRecursive's four recursive calls add the four
      quadrants in turn to the set; together they add the node's cells. */
  lemma CollectedQuadrants(nodes: Arena, id: NodeRef, x: int, y: int, h: int,
                           result: set<Cell>, afterNw: set<Cell>, afterNe: set<Cell>, afterSw: set<Cell>, collected: set<Cell>)
    requires ArenaOk(nodes) && id in nodes && nodes[id].level > 0 && h == Pow2(nodes[id].level - 1)
    requires var n := nodes[id];
      && n.nw in nodes && n.ne in nodes && n.sw in nodes && n.se in nodes
      && Collects(nodes, n.nw, x, y, result, afterNw)
      && Collects(nodes, n.ne, x + h, y, afterNw, afterNe)
      && Collects(nodes, n.sw, x, y + h, afterNe, afterSw)
      && Collects(nodes, n.se, x + h, y + h, afterSw, collected)
    ensures Collects(nodes, id, x, y, result, collected)
  {
    Lookup(nodes, id);
  }

  /** A board within 10000 of the origin, normalized and padded, fits in a
      node of level 15. */
  lemma NormalizedFits(liveCells: set<Cell>, generations: int)
    requires liveCells != {} && InRange(liveCells) && generations >= 0
    ensures NormalizeCells(liveCells) != {}
    ensures Extent(NormalizeCells(liveCells)) + 2 * Padding(NormalizeCells(liveCells), generations) <= Pow2(15)
  {
    ExtentInRange(liveCells);
    NormalizeExtent(liveCells);
    PaddingBounds(NormalizeCells(liveCells), generations);
    assert Pow2(15) == 32768;
  }

  /** A non-empty board within range: its normalized padded box fits in
      level 15, so the node built for it holds the whole normalized board and
      is not empty. */
  lemma PaddedRootNotEmpty(nodes: Arena, deadNode: NodeRef, r: NodeRef, liveCells: set<Cell>, generations: int)
    requires ArenaOk(nodes) && deadNode in nodes && nodes[deadNode].level == 0 && !nodes[deadNode].isAlive
    requires liveCells != {} && InRange(liveCells) && generations >= 0
    requires NormalizeCells(liveCells) != {} && HoldsPadded(nodes, r, NormalizeCells(liveCells), generations)
    ensures r in nodes && !IsEmptyNode(nodes, deadNode, r)
  {
    var n := NormalizeCells(liveCells);
    NormalizedFits(liveCells, generations);
    var x: int, y: int, level: nat :| HoldsSquare(nodes, r, n, x, y, level) && CellsAt(nodes, r, x, y) == n;
    IsEmptyIffNoCells(nodes, deadNode, r, x, y);
  }

  class HashlifeEngine {
    /** Every QuadNode constructed; the NodeId counter lives here. */
    const heap: NodeArena
    const aliveNode: NodeRef
    const deadNode: NodeRef
    var nodeCache: NodeCache
    var resultCache: ResultCache
    var currentStepNum: int
    var cacheCleanupCounter: int

    ghost predicate Valid()
      reads this, heap
    {
      && heap.Valid()
      && aliveNode in heap.nodes && heap.nodes[aliveNode] == QuadNode(aliveNode, 0, true, Null, Null, Null, Null)
      && deadNode in heap.nodes && heap.nodes[deadNode] == QuadNode(deadNode, 0, false, Null, Null, Null, Null)
      && NodeCacheOk(heap.nodes, nodeCache)
      && ResultCacheOk(heap.nodes, deadNode, resultCache)
    }

    /** Both caches are within MAX_CACHE_SIZE. */
    ghost predicate WithinCap()
      reads this
    {
      |nodeCache| <= MAX_CACHE_SIZE && |resultCache| <= MAX_CACHE_SIZE
    }

    /** What every step of the quadtree machinery keeps: stored nodes never
        change, the caches stay within their cap, and the counters are untouched. */
    twostate predicate Grows()
      reads this, heap
    {
      && Extends(old(heap.nodes), heap.nodes)
      && (old(WithinCap()) ==> WithinCap())
      && currentStepNum == old(currentStepNum)
      && cacheCleanupCounter == old(cacheCleanupCounter)
    }

    /** Nothing the engine holds has changed: the arena, its NodeId counter,
        both caches and both counters. */
    twostate predicate Unchanged()
      reads this, heap
    {
      && heap.nodes == old(heap.nodes) && heap.nextNodeId == old(heap.nextNodeId)
      && nodeCache == old(nodeCache) && resultCache == old(resultCache)
      && currentStepNum == old(currentStepNum) && cacheCleanupCounter == old(cacheCleanupCounter)
    }

    /** The constructor: the two shared leaves, each recorded as its own canonical node. */
    constructor ()
      ensures Valid() && WithinCap() && fresh(heap)
      ensures heap.nodes[aliveNode].isAlive && !heap.nodes[deadNode].isAlive
      ensures nodeCache == map[LeafKey(true) := aliveNode, LeafKey(false) := deadNode]
      ensures resultCache == map[] && currentStepNum == 0 && cacheCleanupCounter == 0
    {
      var arena := new NodeArena();
      var alive := arena.NewLeaf(true);
      var dead := arena.NewLeaf(false);
      heap := arena;
      aliveNode := alive.nodeId;
      deadNode := dead.nodeId;
      nodeCache := map[LeafKey(true) := alive.nodeId, LeafKey(false) := dead.nodeId];
      resultCache := map[];
      currentStepNum := 0;
      cacheCleanupCounter := 0;
    }

    // -------------------------------------------------------------------
    // The node table

    /** GetCanonical: the node recorded under the new node's key, or the new
        node itself, recorded while the table is below its cap. */
    method GetCanonical(n: QuadNode) returns (canonical: NodeRef)
      requires Valid() && InArena(heap.nodes, n)
      modifies this
      ensures Valid() && Grows() && heap.nodes == old(heap.nodes) && resultCache == old(resultCache)
      ensures (canonical, nodeCache) == Canonicalize(old(nodeCache), KeyOf(n), n.nodeId)
      ensures canonical in heap.nodes && KeyOf(heap.nodes[canonical]) == KeyOf(n)
    {
      var key := KeyOf(n);
      CanonicalizeKeepsKey(heap.nodes, nodeCache, n.nodeId);
      if |nodeCache| <= MAX_CACHE_SIZE {
        CanonicalizeBounded(nodeCache, key, n.nodeId);
      }
      if key in nodeCache {
        return nodeCache[key];
      }
      if |nodeCache| < MAX_CACHE_SIZE {
        nodeCache := nodeCache[key := n.nodeId];
      }
      return n.nodeId;
    }

    /** CreateNode: construct an internal node and canonicalize it. It fails
        exactly as the constructor does; on success the node is one level
        above its children, has them as quadrants, and is empty exactly when
        all four are. */
    method CreateNode(nw: NodeRef, ne: NodeRef, sw: NodeRef, se: NodeRef) returns (r: Result<NodeRef>)
      requires Valid()
      requires nw == Null || nw in heap.nodes
      requires ne == Null || ne in heap.nodes
      requires sw == Null || sw in heap.nodes
      requires se == Null || se in heap.nodes
      modifies this, heap
      ensures Valid() && Grows() && resultCache == old(resultCache)
      ensures r.Err? <==> ConstructorCheck(old(heap.nodes), nw, ne, sw, se).Some?
      ensures r.Err? ==> r.error == ConstructorCheck(old(heap.nodes), nw, ne, sw, se).value
      ensures r.Ok? ==>
        && r.value in heap.nodes
        && heap.nodes[r.value].level == old(heap.nodes)[nw].level + 1
        && KeyOf(heap.nodes[r.value]) == InternalKey(old(heap.nodes)[nw].level + 1, nw, ne, sw, se)
        && (IsEmptyNode(heap.nodes, deadNode, r.value) <==>
            IsEmptyNode(heap.nodes, deadNode, nw) && IsEmptyNode(heap.nodes, deadNode, ne) &&
            IsEmptyNode(heap.nodes, deadNode, sw) && IsEmptyNode(heap.nodes, deadNode, se))
    {
      var created := heap.NewInternal(nw, ne, sw, se);
      if created.Err? {
        return Err(created.error);
      }
      CachesStable(old(heap.nodes), heap.nodes, deadNode, nodeCache, resultCache);
      var canonical := GetCanonical(created.value);
      Lookup(heap.nodes, canonical);
      r := Ok(canonical);
    }

    /** CreateEmpty: the empty node of a level, built from the dead leaf. */
    method CreateEmpty(level: nat) returns (r: NodeRef)
      requires Valid()
      modifies this, heap
      ensures Valid() && Grows() && resultCache == old(resultCache)
      ensures r in heap.nodes && heap.nodes[r].level == level && IsEmptyNode(heap.nodes, deadNode, r)
      decreases level
    {
      if level == 0 {
        return deadNode;
      }
      var empty := CreateEmpty(level - 1);
      ghost var before := heap.nodes;
      ConstructorCheckPasses(heap.nodes, empty, empty, empty, empty);
      var created := CreateNode(empty, empty, empty, empty);
      IsEmptyStable(before, heap.nodes, deadNode, empty);
      r := created.value;
    }

    /** ExpandNode. Its first step, CreateNode(emptyQuad, emptyQuad, emptyQuad,
        node.NW), pairs three quadrants of the node's own level with a child one
        level lower, so it always throws: a NullReferenceException for a leaf
        (NW is null) and an ArgumentException otherwise. Nothing after it runs. */
    method ExpandNode(node: NodeRef) returns (r: Result<NodeRef>)
      requires Valid() && node in heap.nodes
      modifies this, heap
      ensures Valid() && Grows() && resultCache == old(resultCache)
      ensures r.Err?
      ensures old(heap.nodes)[node].IsLeaf() <==> r.error == NullReference
      ensures !old(heap.nodes)[node].IsLeaf() ==> r.error == ArgumentError("All quadrants must have the same level")
    {
      var n := heap.nodes[node];
      Lookup(heap.nodes, node);
      if !n.IsLeaf() {
        Lookup(heap.nodes, n.nw);
      }
      var emptyQuad := CreateEmpty(n.level);
      Lookup(heap.nodes, emptyQuad);
      var first := CreateNode(emptyQuad, emptyQuad, emptyQuad, n.nw);
      r := Err(first.error);
    }

    /** ExpandAndAdvance: expand, then advance. The expansion always throws,
        so the advance is never reached and the exception is passed on. */
    method ExpandAndAdvance(node: NodeRef, generations: nat) returns (r: Result<NodeRef>)
      requires Valid() && node in heap.nodes
      modifies this, heap
      ensures Valid() && Grows() && resultCache == old(resultCache)
      ensures r.Err?
      ensures old(heap.nodes)[node].IsLeaf() <==> r.error == NullReference
    {
      var expanded := ExpandNode(node);
      r := Err(expanded.error);
    }
    /** GetCached: the recorded result of advancing node by generations, or
        Null. A hit is a stored node of the level that advance produces, and
        is empty when the node is. */
    function GetCached(node: NodeRef, generations: int): (cached: NodeRef)
      reads this, heap
      requires Valid() && node in heap.nodes
      ensures cached == Null <==> (node, generations) !in resultCache
      ensures cached != Null ==>
        && cached in heap.nodes && generations >= 1 && heap.nodes[node].level >= 2
        && heap.nodes[cached].level == AdvanceLevel(heap.nodes[node].level, generations)
        && (IsEmptyNode(heap.nodes, deadNode, node) ==> IsEmptyNode(heap.nodes, deadNode, cached))
    {
      if (node, generations) in resultCache then
        assert Cached(resultCache, (node, generations));
        Lookup(heap.nodes, resultCache[(node, generations)]);
        resultCache[(node, generations)]
      else Null
    }

    /** SetCached: record a result while the cache is below its cap. */
    method SetCached(node: NodeRef, generations: int, result: NodeRef)
      requires Valid() && ResultEntryOk(heap.nodes, deadNode, (node, generations), result)
      modifies this
      ensures Valid() && Grows() && heap.nodes == old(heap.nodes) && nodeCache == old(nodeCache)
      ensures resultCache == StoreResult(old(resultCache), (node, generations), result)
    {
      StoreResultOk(heap.nodes, deadNode, resultCache, (node, generations), result);
      if |resultCache| < MAX_CACHE_SIZE {
        resultCache := resultCache[(node, generations) := result];
      }
    }

    /** CleanupCaches: each cache above MAX_CACHE_SIZE is cut down to half of
        it. Since the caches only grow while below the cap, a cache within the
        cap is never cut: the cleanup changes nothing. */
    method CleanupCaches()
      requires Valid()
      modifies this
      ensures Valid() && WithinCap() && heap.nodes == old(heap.nodes)
      ensures currentStepNum == old(currentStepNum) && cacheCleanupCounter == old(cacheCleanupCounter)
      ensures SubMap(nodeCache, old(nodeCache)) && SubMap(resultCache, old(resultCache))
      ensures |old(nodeCache)| > MAX_CACHE_SIZE ==> |nodeCache| == MAX_CACHE_SIZE / 2
      ensures |old(resultCache)| > MAX_CACHE_SIZE ==> |resultCache| == MAX_CACHE_SIZE / 2
      ensures old(WithinCap()) ==> nodeCache == old(nodeCache) && resultCache == old(resultCache)
    {
      nodeCache := TrimCache(nodeCache);
      resultCache := TrimCache(resultCache);
      SubMapKeepsOk(heap.nodes, deadNode, nodeCache, old(nodeCache), resultCache, old(resultCache));
    }

    // -------------------------------------------------------------------
    // Emptiness

    /** HasActivityNearBorder: despite its name, whether the node holds any live cell. */
    function HasActivityNearBorder(node: NodeRef): (active: bool)
      reads this, heap
      requires Valid() && node in heap.nodes
      ensures active <==> !IsEmptyNode(heap.nodes, deadNode, node)
    {
      Lookup(heap.nodes, node);
      var n := heap.nodes[node];
      if n.IsLeaf() then n.isAlive
      else if n.level <= 1 then !IsEmptyNode(heap.nodes, deadNode, node)
      else
        !IsEmptyNode(heap.nodes, deadNode, n.nw) || !IsEmptyNode(heap.nodes, deadNode, n.ne) ||
        !IsEmptyNode(heap.nodes, deadNode, n.sw) || !IsEmptyNode(heap.nodes, deadNode, n.se)
    }

    /** NeedsExpansion: whether any quadrant has activity, that is whether
        the node holds any live cell. A leaf has no quadrants to look at, and
        the call would dereference null. */
    function NeedsExpansion(node: NodeRef): (needs: bool)
      reads this, heap
      requires Valid() && node in heap.nodes && heap.nodes[node].level >= 1
      ensures needs <==> !IsEmptyNode(heap.nodes, deadNode, node)
    {
      Lookup(heap.nodes, node);
      var n := heap.nodes[node];
      HasActivityNearBorder(n.nw) || HasActivityNearBorder(n.ne) ||
      HasActivityNearBorder(n.sw) || HasActivityNearBorder(n.se)
    }
    // -------------------------------------------------------------------
    // The 4x4 block

    /** ExtractGrid: write the cells of a node placed at (x, y) into the grid
        entries its square covers; entries outside the square keep their value. */
    method ExtractGrid(node: NodeRef, grid: array2<bool>, x: int, y: int)
      requires Valid() && node in heap.nodes && IsGrid(grid) && 0 <= x && 0 <= y
      modifies grid
      ensures forall j, i :: 0 <= j < 4 && 0 <= i < 4 ==>
        grid[j, i] == Written(heap.nodes, node, x, y, Cell(i, j), old(grid[j, i]))
      decreases heap.nodes[node].level
    {
      Lookup(heap.nodes, node);
      var n := heap.nodes[node];
      if n.IsLeaf() {
        if y < grid.Length0 && x < grid.Length1 {
          grid[y, x] := n.isAlive;
        }
        forall j, i | 0 <= j < 4 && 0 <= i < 4
          ensures grid[j, i] == Written(heap.nodes, node, x, y, Cell(i, j), old(grid[j, i]))
        {
          LeafCells(heap.nodes, node, x, y);
        }
        return;
      }
      var size := Pow2(n.level - 1);
      ExtractGrid(n.nw, grid, x, y);
      label NW:
      ExtractGrid(n.ne, grid, x + size, y);
      label NE:
      ExtractGrid(n.sw, grid, x, y + size);
      label SW:
      ExtractGrid(n.se, grid, x + size, y + size);
      forall j, i | 0 <= j < 4 && 0 <= i < 4
        ensures grid[j, i] == Written(heap.nodes, node, x, y, Cell(i, j), old(grid[j, i]))
      {
        QuadrantWrites(heap.nodes, node, x, y, Cell(i, j),
          old(grid[j, i]), old@NW(grid[j, i]), old@NE(grid[j, i]), old@SW(grid[j, i]), grid[j, i]);
      }
    }

    /** The shared leaf for a grid entry: _aliveNode or _deadNode. */
    function LeafFor(alive: bool): (leaf: NodeRef)
      reads this, heap
      requires Valid()
      ensures leaf in heap.nodes && heap.nodes[leaf].level == 0 && heap.nodes[leaf].isAlive == alive
    {
      if alive then aliveNode else deadNode
    }

    /** One of the four inner CreateNode calls that end Advance4x4Block: the
        level-1 node of the 2x2 block of the grid whose top-left entry is
        grid[row, col]. */
    method GridQuadrant(grid: array2<bool>, row: int, col: int) returns (q: NodeRef)
      requires Valid() && IsGrid(grid) && (row == 0 || row == 2) && (col == 0 || col == 2)
      modifies this, heap
      ensures Valid() && Grows() && resultCache == old(resultCache)
      ensures q in heap.nodes && heap.nodes[q].level == 1
      ensures forall c :: c in CellsAt(heap.nodes, q, col, row) <==> InSquare(c, col, row, 2) && c in GridCells(grid)
    {
      var nw, ne, sw, se := LeafFor(grid[row, col]), LeafFor(grid[row, col + 1]),
                            LeafFor(grid[row + 1, col]), LeafFor(grid[row + 1, col + 1]);
      ConstructorCheckPasses(heap.nodes, nw, ne, sw, se);
      var created := CreateNode(nw, ne, sw, se);
      q := created.value;
      LeafBlockCells(heap.nodes, q, grid, row, col);
    }

    /** The node Advance4x4Block returns for its final grid: the level-2 node
        holding exactly the grid's cells. */
    method GridToNode(grid: array2<bool>) returns (r: NodeRef)
      requires Valid() && IsGrid(grid)
      modifies this, heap
      ensures Valid() && Grows() && resultCache == old(resultCache)
      ensures r in heap.nodes && heap.nodes[r].level == 2
      ensures CellsAt(heap.nodes, r, 0, 0) == GridCells(grid)
    {
      var q0 := GridQuadrant(grid, 0, 0);
      ghost var a1 := heap.nodes;
      var q1 := GridQuadrant(grid, 0, 2);
      ghost var a2 := heap.nodes;
      var q2 := GridQuadrant(grid, 2, 0);
      ghost var a3 := heap.nodes;
      var q3 := GridQuadrant(grid, 2, 2);
      ghost var a4 := heap.nodes;
      ConstructorCheckPasses(heap.nodes, q0, q1, q2, q3);
      var created := CreateNode(q0, q1, q2, q3);
      r := created.value;
      CellsAtStable(a1, heap.nodes, q0, 0, 0);
      CellsAtStable(a2, heap.nodes, q1, 2, 0);
      CellsAtStable(a3, heap.nodes, q2, 0, 2);
      CellsAtStable(a4, heap.nodes, q3, 2, 2);
      BlocksNodeCells(heap.nodes, r, grid);
    }

    /** Advance4x4Block: a level-2 node advanced by the grid simulator. The
        result is the level-2 node of the grid after that many generations,
        so it holds GridIterate of the node's cells; any other level is refused. */
    method Advance4x4Block(node: NodeRef, generations: nat) returns (r: Result<NodeRef>)
      requires Valid() && node in heap.nodes
      modifies this, heap
      ensures Valid() && Grows() && resultCache == old(resultCache)
      ensures old(heap.nodes)[node].level != 2 ==>
        r == Err(ArgumentError("Node must be level 2")) && heap.nodes == old(heap.nodes) && nodeCache == old(nodeCache)
      ensures old(heap.nodes)[node].level == 2 ==>
        && r.Ok? && r.value in heap.nodes && heap.nodes[r.value].level == 2
        && CellsAt(heap.nodes, r.value, 0, 0) == GridIterate(CellsAt(heap.nodes, node, 0, 0), generations)
    {
      if heap.nodes[node].level != 2 {
        return Err(ArgumentError("Node must be level 2"));
      }
      ghost var start := heap.nodes;
      ghost var cells := CellsAt(heap.nodes, node, 0, 0);
      var grid := new bool[4, 4]((_, _) => false);
      ExtractGrid(node, grid, 0, 0);
      GridHoldsNode(grid, node);
      for gen := 0 to generations
        invariant IsGrid(grid) && GridCells(grid) == GridIterate(cells, gen)
        modifies {}
      {
        grid := NextGrid(grid);
      }
      var result := GridToNode(grid);
      CellsAtStable(start, heap.nodes, node, 0, 0);
      assert CellsAt(heap.nodes, node, 0, 0) == cells;
      assert CellsAt(heap.nodes, result, 0, 0) == GridIterate(cells, generations);
      r := Ok(result);
    }

    /** After ExtractGrid on a fresh grid, the grid holds the level-2 node's cells. */
    lemma GridHoldsNode(grid: array2<bool>, node: NodeRef)
      requires Valid() && node in heap.nodes && heap.nodes[node].level == 2 && IsGrid(grid)
      requires forall j, i :: 0 <= j < 4 && 0 <= i < 4 ==> grid[j, i] == Written(heap.nodes, node, 0, 0, Cell(i, j), false)
      ensures GridCells(grid) == CellsAt(heap.nodes, node, 0, 0)
    {
      assert Pow2(2) == 4;
      forall c ensures c in GridCells(grid) <==> c in CellsAt(heap.nodes, node, 0, 0) {
        GridCellsMember(grid, c);
        if c in CellsAt(heap.nodes, node, 0, 0) {
          CellsAtInSquare(heap.nodes, node, 0, 0, c);
        }
      }
    }
    // -------------------------------------------------------------------
    // Advancing

    /** CreateNode where the constructor's checks pass: four stored quadrants
        of one level, given as nodes of a base arena the current one extends.
        The node is empty exactly when the four were empty there. */
    method Join(ghost base: Arena, nw: NodeRef, ne: NodeRef, sw: NodeRef, se: NodeRef) returns (id: NodeRef)
      requires Valid() && ArenaOk(base) && Extends(base, heap.nodes)
      requires nw in base && ne in base && sw in base && se in base
      requires base[nw].level == base[ne].level == base[sw].level == base[se].level
      modifies this, heap
      ensures Valid() && Grows() && resultCache == old(resultCache) && Extends(base, heap.nodes)
      ensures id in heap.nodes && heap.nodes[id].level == base[nw].level + 1
      ensures KeyOf(heap.nodes[id]) == InternalKey(base[nw].level + 1, nw, ne, sw, se)
      ensures heap.nodes[id].nw == nw && heap.nodes[id].ne == ne && heap.nodes[id].sw == sw && heap.nodes[id].se == se
      ensures IsEmptyNode(heap.nodes, deadNode, id) <==>
        IsEmptyNode(base, deadNode, nw) && IsEmptyNode(base, deadNode, ne) &&
        IsEmptyNode(base, deadNode, sw) && IsEmptyNode(base, deadNode, se)
    {
      ConstructorCheckPasses(heap.nodes, nw, ne, sw, se);
      var created := CreateNode(nw, ne, sw, se);
      id := created.value;
      IsEmptyStable(base, heap.nodes, deadNode, nw);
      IsEmptyStable(base, heap.nodes, deadNode, ne);
      IsEmptyStable(base, heap.nodes, deadNode, sw);
      IsEmptyStable(base, heap.nodes, deadNode, se);
    }

    /** The nine overlapping sub-squares AdvanceSingleGeneration starts from:
        the four quadrants and the five nodes built across them, all one level
        below the node; empty when it is. */
    method Overlaps(node: NodeRef) returns (s: Nine)
      requires Valid() && node in heap.nodes && heap.nodes[node].level >= 2
      modifies this, heap
      ensures Valid() && Grows() && resultCache == old(resultCache)
      ensures NineAt(heap.nodes, s, old(heap.nodes)[node].level - 1)
      ensures var n := old(heap.nodes)[node]; s.n00 == n.nw && s.n02 == n.ne && s.n20 == n.sw && s.n22 == n.se
      ensures OverlapChildren(old(heap.nodes), node, s, heap.nodes)
      ensures IsEmptyNode(heap.nodes, deadNode, node) ==>
        NineEmpty(heap.nodes, deadNode, s, old(heap.nodes)[node].level - 1)
    {
      ghost var base := heap.nodes;
      Lookup(base, node);
      var n := heap.nodes[node];
      Lookup(base, n.nw);
      Lookup(base, n.ne);
      Lookup(base, n.sw);
      Lookup(base, n.se);
      var nw, ne, sw, se := heap.nodes[n.nw], heap.nodes[n.ne], heap.nodes[n.sw], heap.nodes[n.se];
      if IsEmptyNode(base, deadNode, node) {
        GrandchildrenEmpty(base, deadNode, node);
      }
      var north := Join(base, nw.ne, ne.nw, nw.se, ne.sw);
      ghost var a1 := heap.nodes;
      var west := Join(base, nw.sw, nw.se, sw.nw, sw.ne);
      ghost var a2 := heap.nodes;
      var center := Join(base, nw.se, ne.sw, sw.ne, se.nw);
      ghost var a3 := heap.nodes;
      var east := Join(base, ne.sw, ne.se, se.nw, se.ne);
      ghost var a4 := heap.nodes;
      var south := Join(base, sw.ne, se.nw, sw.se, se.sw);
      s := Nine(n.nw, north, n.ne, west, center, east, n.sw, south, n.se);
      ExtendsTrans(a3, a4, heap.nodes);
      ExtendsTrans(a2, a3, heap.nodes);
      ExtendsTrans(a1, a2, heap.nodes);
      IsEmptyStable(a1, heap.nodes, deadNode, north);
      IsEmptyStable(a2, heap.nodes, deadNode, west);
      IsEmptyStable(a3, heap.nodes, deadNode, center);
      IsEmptyStable(a4, heap.nodes, deadNode, east);
      IsEmptyStable(base, heap.nodes, deadNode, node);
      IsEmptyStable(base, heap.nodes, deadNode, n.nw);
      IsEmptyStable(base, heap.nodes, deadNode, n.ne);
      IsEmptyStable(base, heap.nodes, deadNode, n.sw);
      IsEmptyStable(base, heap.nodes, deadNode, n.se);
    }
    /** The four CreateNode calls over overlapping 2x2 groups of nine nodes
        that end AdvanceSingleGeneration: rows and columns
        0-1 and 1-2, each one level above the nine, and empty when they are. */
    method Quarters(s: Nine, ghost level: nat) returns (q0: NodeRef, q1: NodeRef, q2: NodeRef, q3: NodeRef)
      requires Valid() && NineAt(heap.nodes, s, level)
      modifies this, heap
      ensures Valid() && Grows() && resultCache == old(resultCache)
      ensures q0 in heap.nodes && q1 in heap.nodes && q2 in heap.nodes && q3 in heap.nodes
      ensures heap.nodes[q0].level == heap.nodes[q1].level == heap.nodes[q2].level == heap.nodes[q3].level == level + 1
      ensures ChildrenAre(heap.nodes, q0, s.n00, s.n01, s.n10, s.n11) && ChildrenAre(heap.nodes, q1, s.n01, s.n02, s.n11, s.n12)
      ensures ChildrenAre(heap.nodes, q2, s.n10, s.n11, s.n20, s.n21) && ChildrenAre(heap.nodes, q3, s.n11, s.n12, s.n21, s.n22)
      ensures NineEmpty(old(heap.nodes), deadNode, s, level) ==>
        && IsEmptyNode(heap.nodes, deadNode, q0) && IsEmptyNode(heap.nodes, deadNode, q1)
        && IsEmptyNode(heap.nodes, deadNode, q2) && IsEmptyNode(heap.nodes, deadNode, q3)
    {
      ghost var base := heap.nodes;
      q0 := Join(base, s.n00, s.n01, s.n10, s.n11);
      ghost var a1 := heap.nodes;
      q1 := Join(base, s.n01, s.n02, s.n11, s.n12);
      ghost var a2 := heap.nodes;
      q2 := Join(base, s.n10, s.n11, s.n20, s.n21);
      ghost var a3 := heap.nodes;
      q3 := Join(base, s.n11, s.n12, s.n21, s.n22);
      IsEmptyStable(a1, heap.nodes, deadNode, q0);
      IsEmptyStable(a2, heap.nodes, deadNode, q1);
      IsEmptyStable(a3, heap.nodes, deadNode, q2);
    }

    /** AdvanceHashlife(x, generations) for a node of level >= 2 given in a
        base arena the current one extends. */
    method AdvanceFrom(ghost base: Arena, x: NodeRef, generations: nat) returns (y: NodeRef)
      requires Valid() && ArenaOk(base) && Extends(base, heap.nodes) && x in base && base[x].level >= 2
      modifies this, heap
      ensures Valid() && Grows() && Extends(base, heap.nodes)
      ensures y in heap.nodes && heap.nodes[y].level == AdvanceLevel(base[x].level, generations)
      ensures IsEmptyNode(base, deadNode, x) ==> IsEmptyNode(heap.nodes, deadNode, y)
      decreases generations, base[x].level + 1, 0
    {
      IsEmptyStable(base, heap.nodes, deadNode, x);
      var r := AdvanceHashlife(x, generations);
      y := r.value;
      IsEmptyStable(base, heap.nodes, deadNode, x);
    }

    /** The nine AdvanceHashlife calls of AdvanceSingleGeneration, one per
        overlapping sub-square. */
    method AdvanceNine(s: Nine, ghost level: nat, generations: nat) returns (t: Nine)
      requires Valid() && level >= 2 && NineAt(heap.nodes, s, level)
      modifies this, heap
      ensures Valid() && Grows()
      ensures NineAt(heap.nodes, t, AdvanceLevel(level, generations))
      ensures NineEmpty(old(heap.nodes), deadNode, s, level) ==>
        NineEmpty(heap.nodes, deadNode, t, AdvanceLevel(level, generations))
      decreases generations, level + 1, 1
    {
      ghost var base := heap.nodes;
      var t00 := AdvanceFrom(base, s.n00, generations);
      ghost var a1 := heap.nodes;
      var t01 := AdvanceFrom(base, s.n01, generations);
      ghost var a2 := heap.nodes;
      var t02 := AdvanceFrom(base, s.n02, generations);
      ghost var a3 := heap.nodes;
      var t10 := AdvanceFrom(base, s.n10, generations);
      ghost var a4 := heap.nodes;
      var t11 := AdvanceFrom(base, s.n11, generations);
      ghost var a5 := heap.nodes;
      var t12 := AdvanceFrom(base, s.n12, generations);
      ghost var a6 := heap.nodes;
      var t20 := AdvanceFrom(base, s.n20, generations);
      ghost var a7 := heap.nodes;
      var t21 := AdvanceFrom(base, s.n21, generations);
      ghost var a8 := heap.nodes;
      var t22 := AdvanceFrom(base, s.n22, generations);
      t := Nine(t00, t01, t02, t10, t11, t12, t20, t21, t22);
      IsEmptyStable(a1, heap.nodes, deadNode, t00);
      IsEmptyStable(a2, heap.nodes, deadNode, t01);
      IsEmptyStable(a3, heap.nodes, deadNode, t02);
      IsEmptyStable(a4, heap.nodes, deadNode, t10);
      IsEmptyStable(a5, heap.nodes, deadNode, t11);
      IsEmptyStable(a6, heap.nodes, deadNode, t12);
      IsEmptyStable(a7, heap.nodes, deadNode, t20);
      IsEmptyStable(a8, heap.nodes, deadNode, t21);
    }

    /** AdvanceSingleGeneration: one generation of a node of level >= 2.
        Level 2 goes to the grid simulator; above it the nine overlapping
        sub-squares are advanced by one and put together two levels up, so
        the result has level OneStepLevel (2k - 2), not k - 1. An empty node
        stays empty. */
    method AdvanceSingleGeneration(node: NodeRef) returns (r: Result<NodeRef>)
      requires Valid() && node in heap.nodes
      modifies this, heap
      ensures Valid() && Grows()
      ensures old(heap.nodes)[node].level < 2 ==> r == Err(ArgumentError("Node must be at least level 2"))
      ensures old(heap.nodes)[node].level >= 2 ==>
        && r.Ok? && r.value in heap.nodes
        && heap.nodes[r.value].level == OneStepLevel(old(heap.nodes)[node].level)
        && (IsEmptyNode(heap.nodes, deadNode, node) ==> IsEmptyNode(heap.nodes, deadNode, r.value))
      decreases 1, heap.nodes[node].level, 2
    {
      var level := heap.nodes[node].level;
      if level < 2 {
        return Err(ArgumentError("Node must be at least level 2"));
      }
      if level == 2 {
        r := Advance4x4Block(node, 1);
        EmptyBlockStaysEmpty(heap.nodes, deadNode, node, r.value, 1);
        return;
      }
      var s := Overlaps(node);
      ghost var a1 := heap.nodes;
      var t := AdvanceNine(s, level - 1, 1);
      AdvanceLevelOne(level - 1);
      var q0, q1, q2, q3 := Quarters(t, OneStepLevel(level - 1));
      var top := Join(heap.nodes, q0, q1, q2, q3);
      IsEmptyStable(a1, heap.nodes, deadNode, node);
      r := Ok(top);
    }

    /** CreateNode over four quadrants of a base arena, then at once
        AdvanceHashlife of the new node: the step AdvanceMaximal takes for
        every node it builds. */
    method JoinAdvance(ghost base: Arena, nw: NodeRef, ne: NodeRef, sw: NodeRef, se: NodeRef, generations: nat) returns (y: NodeRef)
      requires Valid() && ArenaOk(base) && Extends(base, heap.nodes)
      requires nw in base && ne in base && sw in base && se in base
      requires base[nw].level == base[ne].level == base[sw].level == base[se].level >= 1
      modifies this, heap
      ensures Valid() && Grows() && Extends(base, heap.nodes)
      ensures y in heap.nodes && heap.nodes[y].level == AdvanceLevel(base[nw].level + 1, generations)
      ensures && IsEmptyNode(base, deadNode, nw) && IsEmptyNode(base, deadNode, ne)
              && IsEmptyNode(base, deadNode, sw) && IsEmptyNode(base, deadNode, se)
              ==> IsEmptyNode(heap.nodes, deadNode, y)
      decreases generations, base[nw].level + 2, 1
    {
      var joined := Join(base, nw, ne, sw, se);
      y := AdvanceFrom(heap.nodes, joined, generations);
    }

    /** The top row of AdvanceMaximal's nine (n00, n01, n02 at lines
        512-514): advance the NW quadrant, create the north overlap node and
        advance it, advance the NE quadrant. */
    method AdvanceTopRow(ghost base: Arena, node: NodeRef, generations: nat) returns (x0: NodeRef, x1: NodeRef, x2: NodeRef)
      requires Valid() && ArenaOk(base) && Extends(base, heap.nodes) && node in base && base[node].level >= 3
      modifies this, heap
      ensures Valid() && Grows() && Extends(base, heap.nodes)
      ensures AdvancedRow(heap.nodes, deadNode, x0, x1, x2, AdvanceLevel(base[node].level - 1, generations), IsEmptyNode(base, deadNode, node))
      decreases generations, base[node].level, 2
    {
      ghost var start := heap.nodes;
      Lookup(base, node);
      var n := heap.nodes[node];
      Lookup(base, n.nw);
      Lookup(base, n.ne);
      var nw, ne := heap.nodes[n.nw], heap.nodes[n.ne];
      if IsEmptyNode(base, deadNode, node) {
        GrandchildrenEmpty(base, deadNode, node);
      }
      x0 := AdvanceFrom(base, n.nw, generations);
      ghost var a1 := heap.nodes;
      x1 := JoinAdvance(base, nw.ne, ne.nw, nw.se, ne.sw, generations);
      ghost var a2 := heap.nodes;
      x2 := AdvanceFrom(base, n.ne, generations);
      IsEmptyStable(a1, heap.nodes, deadNode, x0);
      IsEmptyStable(a2, heap.nodes, deadNode, x1);
      ExtendsTrans(a1, a2, heap.nodes);
      ExtendsTrans(start, a1, a2);
      ExtendsTrans(start, a2, heap.nodes);
    }

    /** The middle row of AdvanceMaximal's nine (n10, n11, n12 at lines
        515-517): the west, centre and east overlap nodes, each created and
        at once advanced. */
    method AdvanceMiddleRow(ghost base: Arena, node: NodeRef, generations: nat) returns (x0: NodeRef, x1: NodeRef, x2: NodeRef)
      requires Valid() && ArenaOk(base) && Extends(base, heap.nodes) && node in base && base[node].level >= 3
      modifies this, heap
      ensures Valid() && Grows() && Extends(base, heap.nodes)
      ensures AdvancedRow(heap.nodes, deadNode, x0, x1, x2, AdvanceLevel(base[node].level - 1, generations), IsEmptyNode(base, deadNode, node))
      decreases generations, base[node].level, 2
    {
      ghost var start := heap.nodes;
      Lookup(base, node);
      var n := heap.nodes[node];
      Lookup(base, n.nw);
      Lookup(base, n.ne);
      Lookup(base, n.sw);
      Lookup(base, n.se);
      var nw, ne, sw, se := heap.nodes[n.nw], heap.nodes[n.ne], heap.nodes[n.sw], heap.nodes[n.se];
      if IsEmptyNode(base, deadNode, node) {
        GrandchildrenEmpty(base, deadNode, node);
      }
      x0 := JoinAdvance(base, nw.sw, nw.se, sw.nw, sw.ne, generations);
      ghost var a1 := heap.nodes;
      x1 := JoinAdvance(base, nw.se, ne.sw, sw.ne, se.nw, generations);
      ghost var a2 := heap.nodes;
      x2 := JoinAdvance(base, ne.sw, ne.se, se.nw, se.ne, generations);
      IsEmptyStable(a1, heap.nodes, deadNode, x0);
      IsEmptyStable(a2, heap.nodes, deadNode, x1);
      ExtendsTrans(a1, a2, heap.nodes);
      ExtendsTrans(start, a1, a2);
      ExtendsTrans(start, a2, heap.nodes);
    }

    /** The bottom row of AdvanceMaximal's nine (n20, n21, n22 at lines
        518-520): advance the SW quadrant, create the south overlap node and
        advance it, advance the SE quadrant. */
    method AdvanceBottomRow(ghost base: Arena, node: NodeRef, generations: nat) returns (x0: NodeRef, x1: NodeRef, x2: NodeRef)
      requires Valid() && ArenaOk(base) && Extends(base, heap.nodes) && node in base && base[node].level >= 3
      modifies this, heap
      ensures Valid() && Grows() && Extends(base, heap.nodes)
      ensures AdvancedRow(heap.nodes, deadNode, x0, x1, x2, AdvanceLevel(base[node].level - 1, generations), IsEmptyNode(base, deadNode, node))
      decreases generations, base[node].level, 2
    {
      ghost var start := heap.nodes;
      Lookup(base, node);
      var n := heap.nodes[node];
      Lookup(base, n.sw);
      Lookup(base, n.se);
      var sw, se := heap.nodes[n.sw], heap.nodes[n.se];
      if IsEmptyNode(base, deadNode, node) {
        GrandchildrenEmpty(base, deadNode, node);
      }
      x0 := AdvanceFrom(base, n.sw, generations);
      ghost var a1 := heap.nodes;
      x1 := JoinAdvance(base, sw.ne, se.nw, sw.se, se.sw, generations);
      ghost var a2 := heap.nodes;
      x2 := AdvanceFrom(base, n.se, generations);
      IsEmptyStable(a1, heap.nodes, deadNode, x0);
      IsEmptyStable(a2, heap.nodes, deadNode, x1);
      ExtendsTrans(a1, a2, heap.nodes);
      ExtendsTrans(start, a1, a2);
      ExtendsTrans(start, a2, heap.nodes);
    }

    /** The first half of AdvanceMaximal, in the source's order: the nine
        overlapping sub-squares of the node row by row, each advanced by the
        same count, and each of the five built across the quadrants created
        just before it is advanced. An empty node gives nine empty results. */
    method AdvanceOverlaps(node: NodeRef, generations: nat) returns (t: Nine)
      requires Valid() && node in heap.nodes && heap.nodes[node].level >= 3
      modifies this, heap
      ensures Valid() && Grows()
      ensures NineAt(heap.nodes, t, AdvanceLevel(old(heap.nodes)[node].level - 1, generations))
      ensures IsEmptyNode(old(heap.nodes), deadNode, node) ==>
        NineEmpty(heap.nodes, deadNode, t, AdvanceLevel(old(heap.nodes)[node].level - 1, generations))
      decreases generations, heap.nodes[node].level, 3
    {
      ghost var base := heap.nodes;
      ghost var level := AdvanceLevel(base[node].level - 1, generations);
      ghost var empty := IsEmptyNode(base, deadNode, node);
      var n00, n01, n02 := AdvanceTopRow(base, node, generations);
      ghost var a1 := heap.nodes;
      var n10, n11, n12 := AdvanceMiddleRow(base, node, generations);
      ghost var a2 := heap.nodes;
      var n20, n21, n22 := AdvanceBottomRow(base, node, generations);
      RowStable(a1, a2, deadNode, n00, n01, n02, level, empty);
      RowStable(a2, heap.nodes, deadNode, n00, n01, n02, level, empty);
      RowStable(a2, heap.nodes, deadNode, n10, n11, n12, level, empty);
      t := Nine(n00, n01, n02, n10, n11, n12, n20, n21, n22);
    }

    /** The second half of AdvanceMaximal, in the source's order: each of the
        four nodes over overlapping 2x2 groups of the nine is created and at
        once advanced by the same count, and the node above the four results
        is created last. Nine empty nodes give an empty result. */
    method AdvanceQuarters(t: Nine, ghost level: nat, generations: nat) returns (top: NodeRef)
      requires Valid() && level >= 2 && NineAt(heap.nodes, t, level)
      modifies this, heap
      ensures Valid() && Grows()
      ensures top in heap.nodes && heap.nodes[top].level == AdvanceLevel(level + 1, generations) + 1
      ensures NineEmpty(old(heap.nodes), deadNode, t, level) ==> IsEmptyNode(heap.nodes, deadNode, top)
      decreases generations, level + 2, 2
    {
      ghost var base := heap.nodes;
      var p0 := JoinAdvance(base, t.n00, t.n01, t.n10, t.n11, generations);
      ghost var a1 := heap.nodes;
      var p1 := JoinAdvance(base, t.n01, t.n02, t.n11, t.n12, generations);
      ghost var a2 := heap.nodes;
      var p2 := JoinAdvance(base, t.n10, t.n11, t.n20, t.n21, generations);
      ghost var a3 := heap.nodes;
      var p3 := JoinAdvance(base, t.n11, t.n12, t.n21, t.n22, generations);
      IsEmptyStable(a1, heap.nodes, deadNode, p0);
      IsEmptyStable(a2, heap.nodes, deadNode, p1);
      IsEmptyStable(a3, heap.nodes, deadNode, p2);
      top := Join(heap.nodes, p0, p1, p2, p3);
    }

    /** AdvanceMaximal: 2^(k-2) generations of a node of level k >= 3: the
        nine overlapping sub-squares advanced by 2^(k-3), the four nodes built
        from them advanced by 2^(k-3) again, and the node above those, with
        every node created and advanced in the source's order. The result has
        level MaximalLevel(k); an empty node stays empty. */
    method AdvanceMaximal(node: NodeRef) returns (r: Result<NodeRef>)
      requires Valid() && node in heap.nodes
      modifies this, heap
      ensures Valid() && Grows()
      ensures old(heap.nodes)[node].level < 3 ==> r == Err(ArgumentError("Node must be at least level 3"))
      ensures old(heap.nodes)[node].level >= 3 ==>
        && r.Ok? && r.value in heap.nodes
        && heap.nodes[r.value].level == MaximalLevel(old(heap.nodes)[node].level)
        && (IsEmptyNode(heap.nodes, deadNode, node) ==> IsEmptyNode(heap.nodes, deadNode, r.value))
      decreases (if heap.nodes[node].level >= 2 then Pow2(heap.nodes[node].level - 2) else 0), heap.nodes[node].level, 2
    {
      var level := heap.nodes[node].level;
      if level < 3 {
        return Err(ArgumentError("Node must be at least level 3"));
      }
      var halfAdvance := Pow2(level - 3);
      assert Pow2(level - 2) == 2 * halfAdvance;
      ghost var base := heap.nodes;
      var t := AdvanceOverlaps(node, halfAdvance);
      ghost var inner := AdvanceLevel(level - 1, halfAdvance);
      AdvanceLevelAtLeast2(level - 1, halfAdvance);
      var top := AdvanceQuarters(t, inner, halfAdvance);
      IsEmptyStable(base, heap.nodes, deadNode, node);
      r := Ok(top);
    }

    /** The step-by-step branch of AdvanceHashlife: advance one generation at
        a time, as many times as asked. The result has level StepLevels and an
        empty node stays empty. */
    method AdvanceStepByStep(node: NodeRef, generations: nat) returns (result: NodeRef)
      requires Valid() && node in heap.nodes && heap.nodes[node].level >= 2 && generations >= 2
      modifies this, heap
      ensures Valid() && Grows()
      ensures result in heap.nodes && heap.nodes[result].level == StepLevels(old(heap.nodes)[node].level, generations)
      ensures IsEmptyNode(old(heap.nodes), deadNode, node) ==> IsEmptyNode(heap.nodes, deadNode, result)
      decreases generations, heap.nodes[node].level, 2
    {
      ghost var base := heap.nodes;
      var level := heap.nodes[node].level;
      result := node;
      var remaining := generations;
      while remaining > 0
        invariant 0 <= remaining <= generations
        invariant Valid() && Grows() && Extends(base, heap.nodes)
        invariant result in heap.nodes && heap.nodes[result].level == StepLevels(level, generations - remaining)
        invariant IsEmptyNode(base, deadNode, node) ==> IsEmptyNode(heap.nodes, deadNode, result)
        decreases remaining
      {
        var step := Min(remaining, 1);
        StepLevelsAtLeast2(level, generations - remaining);
        AdvanceLevelOne(heap.nodes[result].level);
        ghost var before := heap.nodes;
        var next := AdvanceHashlife(result, step);
        IsEmptyStable(before, heap.nodes, deadNode, result);
        result := next.value;
        remaining := remaining - step;
      }
    }

    /** AdvanceHashlife: advance a node by a number of generations. Zero
        returns the node; a node below level 2 goes to ExpandAndAdvance, which
        always fails; otherwise a recorded result is reused, or the result is
        computed by the 4x4 block, a single generation, the maximal advance
        followed by the rest, or single steps, and then recorded. The result
        has level AdvanceLevel and an empty node stays empty. */
    method AdvanceHashlife(node: NodeRef, generations: nat) returns (r: Result<NodeRef>)
      requires Valid() && node in heap.nodes
      modifies this, heap
      ensures Valid() && Grows()
      ensures generations == 0 ==> r == Ok(node) && heap.nodes == old(heap.nodes) && nodeCache == old(nodeCache) && resultCache == old(resultCache)
      ensures generations > 0 && old(heap.nodes)[node].level < 2 ==>
        r.Err? && (old(heap.nodes)[node].IsLeaf() <==> r.error == NullReference)
      ensures generations == 0 || old(heap.nodes)[node].level >= 2 ==>
        && r.Ok? && r.value in heap.nodes
        && heap.nodes[r.value].level == AdvanceLevel(old(heap.nodes)[node].level, generations)
        && (IsEmptyNode(heap.nodes, deadNode, node) ==> IsEmptyNode(heap.nodes, deadNode, r.value))
      decreases generations, heap.nodes[node].level, 3
    {
      if generations == 0 {
        return Ok(node);
      }
      var level := heap.nodes[node].level;
      if level < 2 {
        r := ExpandAndAdvance(node, generations);
        return;
      }
      var cached := GetCached(node, generations);
      if cached != Null {
        return Ok(cached);
      }
      ghost var base := heap.nodes;
      var result: NodeRef;
      if level == 2 {
        var block := Advance4x4Block(node, generations);
        result := block.value;
        EmptyBlockStaysEmpty(heap.nodes, deadNode, node, result, generations);
      } else if generations == 1 {
        var single := AdvanceSingleGeneration(node);
        result := single.value;
      } else {
        var maxAdvance := Pow2(level - 2);
        if generations >= maxAdvance && level >= 3 {
          var maximal := AdvanceMaximal(node);
          var intermediate := maximal.value;
          MaximalLevelAtLeast3(level);
          if generations > maxAdvance {
            ghost var a1 := heap.nodes;
            var rest := AdvanceHashlife(intermediate, generations - maxAdvance);
            result := rest.value;
            IsEmptyStable(a1, heap.nodes, deadNode, node);
            IsEmptyStable(a1, heap.nodes, deadNode, intermediate);
          } else {
            result := intermediate;
          }
        } else {
          result := AdvanceStepByStep(node, generations);
        }
      }
      IsEmptyStable(base, heap.nodes, deadNode, node);
      SetCached(node, generations, result);
      r := Ok(result);
    }
    // -------------------------------------------------------------------
    // Between boards and quadtrees

    /** BuildQuadNode: the tree Built describes for the square of the given
        level with north-west corner (x, y); by BuiltCells it holds exactly the
        board's cells inside that square. */
    method BuildQuadNode(liveCells: set<Cell>, x: int, y: int, size: int, level: nat) returns (r: NodeRef)
      requires Valid() && size == Pow2(level)
      modifies this, heap
      ensures Valid() && Grows()
      ensures r in heap.nodes && heap.nodes[r].level == level
      ensures Built(heap.nodes, r, liveCells, x, y, level)
      decreases level
    {
      if level == 0 {
        r := if Cell(x, y) in liveCells then aliveNode else deadNode;
        return;
      }
      var halfSize := size / 2;
      assert halfSize == Pow2(level - 1);
      var nw := BuildQuadNode(liveCells, x, y, halfSize, level - 1);
      ghost var a1 := heap.nodes;
      var ne := BuildQuadNode(liveCells, x + halfSize, y, halfSize, level - 1);
      ghost var a2 := heap.nodes;
      var sw := BuildQuadNode(liveCells, x, y + halfSize, halfSize, level - 1);
      ghost var a3 := heap.nodes;
      var se := BuildQuadNode(liveCells, x + halfSize, y + halfSize, halfSize, level - 1);
      ghost var a4 := heap.nodes;
      r := Join(a4, nw, ne, sw, se);
      JoinedBuilt(a1, a2, a3, a4, heap.nodes, r, liveCells, x, y, level, halfSize);
    }

    /** ConvertToHashSetRecursive: add to the set the live cells of the node
        placed with its north-west corner at (x, y). The set the source fills
        in place is passed in and returned. */
    method ConvertToHashSetRecursive(node: NodeRef, result: set<Cell>, x: int, y: int, size: int) returns (collected: set<Cell>)
      requires Valid() && node in heap.nodes && size == Pow2(heap.nodes[node].level)
      ensures Collects(heap.nodes, node, x, y, result, collected)
      decreases heap.nodes[node].level
    {
      var n := heap.nodes[node];
      if n.IsLeaf() {
        LeafCells(heap.nodes, node, x, y);
        if n.isAlive {
          return result + {Cell(x, y)};
        }
        return result;
      }
      Lookup(heap.nodes, node);
      var halfSize := size / 2;
      assert halfSize == Pow2(n.level - 1);
      var afterNw := ConvertToHashSetRecursive(n.nw, result, x, y, halfSize);
      var afterNe := ConvertToHashSetRecursive(n.ne, afterNw, x + halfSize, y, halfSize);
      var afterSw := ConvertToHashSetRecursive(n.sw, afterNe, x, y + halfSize, halfSize);
      collected := ConvertToHashSetRecursive(n.se, afterSw, x + halfSize, y + halfSize, halfSize);
      CollectedQuadrants(heap.nodes, node, x, y, halfSize, result, afterNw, afterNe, afterSw, collected);
    }

    /** ConvertToHashSet: the live cells of a node placed at the origin; none for null. */
    method ConvertToHashSet(node: NodeRef) returns (result: set<Cell>)
      requires Valid() && (node == Null || node in heap.nodes)
      ensures node == Null ==> result == {}
      ensures node != Null ==> result == CellsAt(heap.nodes, node, 0, 0)
    {
      result := {};
      if node != Null {
        result := ConvertToHashSetRecursive(node, result, 0, 0, Pow2(heap.nodes[node].level));
      }
    }

    /** ConvertToQuadNodeWithPadding. An empty board gives an empty node of
        level max(3, ceil(log2(generations + 8))). Otherwise the board's
        bounding box is widened by Padding on every side, the level is
        PaddedLevel of the padded box's side, and the node holds the board's
        cells inside its square: the whole board when the padded box fits in
        level 15. */
    method ConvertToQuadNodeWithPadding(liveCells: set<Cell>, generations: int) returns (r: NodeRef)
      requires Valid() && generations >= 0
      modifies this, heap
      ensures Valid() && Grows() && r in heap.nodes
      ensures liveCells == {} ==>
        heap.nodes[r].level == Max(3, CeilLog2(generations + 8)) && IsEmptyNode(heap.nodes, deadNode, r)
      ensures liveCells != {} ==> HoldsPadded(heap.nodes, r, liveCells, generations)
    {
      if |liveCells| == 0 {
        assert liveCells == {};
        r := CreateEmpty(Max(3, CeilLog2(generations + 8)));
        return;
      }
      var minX, minY, level := PaddedBox(liveCells, generations);
      var nodeSize := Pow2(level);
      r := BuildQuadNode(liveCells, minX, minY, nodeSize, level);
      BuiltCells(heap.nodes, r, liveCells, minX, minY, level);
      PaddedNodeHolds(heap.nodes, r, liveCells, generations, minX, minY, level);
    }

    // -------------------------------------------------------------------
    // The simulation driver

    /** SimulateDirect: SimulateDirectCells' board and period, with the step
        counter moved on by the generations simulated. */
    method SimulateDirect(liveCells: set<Cell>, generations: nat, isFinal: bool) returns (result: GenerationResult)
      modifies this
      ensures DirectOutcome(liveCells, generations, isFinal, result.liveCells, result.periodic)
      ensures currentStepNum == old(currentStepNum) + generations && result.nextStepNum == currentStepNum
      ensures nodeCache == old(nodeCache) && resultCache == old(resultCache)
      ensures cacheCleanupCounter == old(cacheCleanupCounter)
    {
      var cells, periodic := SimulateDirectCells(liveCells, generations, isFinal);
      currentStepNum := currentStepNum + generations;
      result := GenerationResult(cells, currentStepNum, periodic);
    }

    /** The fast-forward loop of SimulateHashlife: advance the node one
        generation at a time, count times. */
    method AdvanceOneByOne(node: NodeRef, count: nat) returns (r: NodeRef)
      requires Valid() && node in heap.nodes && heap.nodes[node].level >= 2
      modifies this, heap
      ensures Valid() && Grows() && r in heap.nodes && heap.nodes[r].level >= 2
      ensures IsEmptyNode(old(heap.nodes), deadNode, node) ==> IsEmptyNode(heap.nodes, deadNode, r)
    {
      r := node;
      for i := 0 to count
        invariant Valid() && Grows() && r in heap.nodes && heap.nodes[r].level >= 2
        invariant IsEmptyNode(old(heap.nodes), deadNode, node) ==> IsEmptyNode(heap.nodes, deadNode, r)
      {
        ghost var before := heap.nodes;
        AdvanceLevelAtLeast2(heap.nodes[r].level, 1);
        IsEmptyStable(before, heap.nodes, deadNode, r);
        var advanced := AdvanceHashlife(r, 1);
        IsEmptyStable(before, heap.nodes, deadNode, r);
        r := advanced.value;
      }
    }

    /** The generation loop of SimulateHashlife, from the padded root: while
        generations remain, a root below level 3 or holding a live cell is
        expanded, which always throws (failed); otherwise the root is looked
        up among the roots seen (when isFinal), and on a repeat the remainder
        modulo the gap is stepped one generation at a time and the loop ends;
        otherwise the root advances by the largest step its level allows, cut
        to a power of two when more than twice that remains. An empty root
        stays empty, and a root holding a live cell always fails. */
    method AdvanceRoot(root: NodeRef, generations: nat, isFinal: bool)
      returns (rootNode: NodeRef, periodDetected: bool, periodicLength: int, failed: bool)
      requires Valid() && root in heap.nodes
      modifies this, heap
      ensures Valid() && Grows() && rootNode in heap.nodes
      ensures IsEmptyNode(old(heap.nodes), deadNode, root) ==> IsEmptyNode(heap.nodes, deadNode, rootNode)
      ensures generations > 0 && !IsEmptyNode(old(heap.nodes), deadNode, root) ==> failed
    {
      rootNode := root;
      periodDetected := false;
      periodicLength := 0;
      failed := false;
      var visitedStates: map<NodeRef, (int, NodeRef)> := map[];
      var remainingGenerations := generations;
      while remainingGenerations > 0
        invariant Valid() && Grows() && rootNode in heap.nodes && 0 <= remainingGenerations <= generations
        invariant IsEmptyNode(old(heap.nodes), deadNode, root) ==> IsEmptyNode(heap.nodes, deadNode, rootNode)
        invariant !IsEmptyNode(old(heap.nodes), deadNode, root) ==>
          remainingGenerations == generations && rootNode == root && heap.nodes == old(heap.nodes)
        invariant forall k {:trigger visitedStates[k]} :: k in visitedStates ==>
          0 <= visitedStates[k].0 < generations - remainingGenerations
      {
        if heap.nodes[rootNode].level < 3 || NeedsExpansion(rootNode) {
          ghost var before := heap.nodes;
          var expanded := ExpandNode(rootNode);
          IsEmptyStable(before, heap.nodes, deadNode, rootNode);
          failed := true;
          return;
        }
        if isFinal && rootNode in visitedStates {
          periodicLength := generations - remainingGenerations - visitedStates[rootNode].0;
          periodDetected := true;
          var finalSteps := remainingGenerations % periodicLength;
          rootNode := AdvanceOneByOne(rootNode, finalSteps);
          return;
        } else if isFinal {
          visitedStates := visitedStates[rootNode := (generations - remainingGenerations, rootNode)];
        }
        var level := heap.nodes[rootNode].level;
        var maxPossibleAdvance := if level >= 2 then Pow2(level - 2) else 1;
        var stepsToAdvance := Min(maxPossibleAdvance, remainingGenerations);
        if remainingGenerations > stepsToAdvance * 2 {
          var largest := GetLargestPowerOf2(remainingGenerations);
          stepsToAdvance := Min(stepsToAdvance, largest);
        }
        ghost var before := heap.nodes;
        var advanced := AdvanceHashlife(rootNode, stepsToAdvance);
        IsEmptyStable(before, heap.nodes, deadNode, rootNode);
        rootNode := advanced.value;
        remainingGenerations := remainingGenerations - stepsToAdvance;
      }
    }

    /** SimulateHashlife. The board is normalized, put into a padded node and
        advanced by AdvanceRoot; when that fails, the catch falls back to
        SimulateDirect on the original board. A non-empty board within range
        always ends up simulated directly, and an empty board gives an empty
        board. Either way the step counter moves on by the generations. */
    method SimulateHashlife(liveCells: set<Cell>, generations: nat, isFinal: bool) returns (result: GenerationResult)
      requires Valid()
      modifies this, heap
      ensures Valid() && Extends(old(heap.nodes), heap.nodes) && (old(WithinCap()) ==> WithinCap())
      ensures currentStepNum == old(currentStepNum) + generations && result.nextStepNum == currentStepNum
      ensures cacheCleanupCounter == old(cacheCleanupCounter)
      ensures liveCells == {} ==> result.liveCells == {}
      ensures generations > 0 && liveCells != {} && InRange(liveCells) ==>
        DirectOutcome(liveCells, generations, isFinal, result.liveCells, result.periodic)
    {
      var normalizedCells := NormalizeCells(liveCells);
      if liveCells != {} {
        NormalizeBox(liveCells);
      }
      var rootNode := ConvertToQuadNodeWithPadding(normalizedCells, generations);
      Lookup(heap.nodes, deadNode);
      if liveCells != {} && InRange(liveCells) {
        PaddedRootNotEmpty(heap.nodes, deadNode, rootNode, liveCells, generations);
      }
      var periodDetected, periodicLength, failed;
      rootNode, periodDetected, periodicLength, failed := AdvanceRoot(rootNode, generations, isFinal);
      if failed {
        result := SimulateDirect(liveCells, generations, isFinal);
        IterateEmpty(generations);
        return;
      }
      var resultCells := ConvertToHashSet(rootNode);
      if liveCells == {} {
        IsEmptyIffNoCells(heap.nodes, deadNode, rootNode, 0, 0);
      }
      currentStepNum := currentStepNum + generations;
      result := GenerationResult(resultCells, currentStepNum, if periodDetected then periodicLength else 0);
    }

    /** Simulate. No generations: a copy of the board, nothing changes.
        Otherwise the cleanup counter moves on, every thousandth call cleans
        the caches, and small runs, small boards and boards ShouldUseDirect
        picks are simulated directly, the rest by SimulateHashlife. Either
        way the result is the board after the generations, with the period
        of its first repeat when asked for one, and the step counter moves on
        by the generations. */
    method Simulate(liveCells: set<Cell>, generations: nat, isFinal: bool) returns (result: GenerationResult)
      requires Valid()
      modifies this, heap
      ensures Valid() && Extends(old(heap.nodes), heap.nodes)
      ensures DirectOutcome(liveCells, generations, isFinal, result.liveCells, result.periodic)
      ensures result.nextStepNum == currentStepNum
      ensures old(WithinCap()) ==> WithinCap()
      ensures generations == 0 ==> currentStepNum == old(currentStepNum) && cacheCleanupCounter == old(cacheCleanupCounter)
      ensures generations == 0 ==> Unchanged()
      ensures generations > 0 ==>
        currentStepNum == old(currentStepNum) + generations && cacheCleanupCounter == old(cacheCleanupCounter) + 1
    {
      if generations == 0 {
        return GenerationResult(liveCells, currentStepNum, 0);
      }
      cacheCleanupCounter := cacheCleanupCounter + 1;
      if cacheCleanupCounter % 1000 == 0 {
        CleanupCaches();
      }
      if generations <= 5 || |liveCells| < 20 || ShouldUseDirect(liveCells) {
        result := SimulateDirect(liveCells, generations, isFinal);
      } else {
        ShouldUseDirectIff(liveCells);
        result := SimulateHashlife(liveCells, generations, isFinal);
      }
    }

    /** SimulateAsync: a missing board and a negative generation count are
        refused with the exceptions the source throws; otherwise the result
        of Simulate. */
    method SimulateAsync(liveCells: Option<set<Cell>>, generations: int, isFinal: bool) returns (r: Result<GenerationResult>)
      requires Valid()
      modifies this, heap
      ensures Valid() && Extends(old(heap.nodes), heap.nodes)
      ensures old(WithinCap()) ==> WithinCap()
      ensures liveCells.None? ==> r == Err(ArgumentNull("liveCells")) && Unchanged()
      ensures liveCells.Some? && generations < 0 ==>
        r == Err(ArgumentOutOfRange("generations", "Generations must be non-negative.")) && Unchanged()
      ensures liveCells.Some? && generations >= 0 ==>
        && r.Ok? && r.value.nextStepNum == currentStepNum
        && currentStepNum == old(currentStepNum) + generations
        && DirectOutcome(liveCells.value, generations, isFinal, r.value.liveCells, r.value.periodic)
    {
      if liveCells.None? {
        return Err(ArgumentNull("liveCells"));
      }
      if generations < 0 {
        return Err(ArgumentOutOfRange("generations", "Generations must be non-negative."));
      }
      var result := Simulate(liveCells.value, generations, isFinal);
      r := Ok(result);
    }
  }
}
