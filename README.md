# Conway Hashlife engine — a Dafny model

This project models the Game of Life engine of the conwaygame backend:
`HashlifeGameOfLifeService` together with the `QuadNode` class it is built
on. It covers the direct simulator with its every-100-generations period
detection, the hash-consed quadtree with its canonical-node table and
result cache, the conversions between boards and quadtrees, the Advance
routines and the top-level driver.

The key result is `Hashlife.HashlifeEngine.Simulate`. On every path, it
returns the board after the requested number of B3/S23 generations. When a
final run finds a repeat, it also returns the period of the first repeating
snapshot. The proof rests on the following pieces:

- the period fast-forward lemma (`Life.PeriodFastForward`);
- injectivity of the state key (`StateKey.KeyInjective`, through a decoding
  round trip);
- the loop invariant of the direct simulator (`DirectSimulation`);
- the cache invariants (`Caches`);
- the quadtree build and convert lemmas (`Hashlife.BuiltCells`,
  `Hashlife.ConvertedIsTranslation`);
- the proof that the Hashlife path, as written, always falls back to the
  direct simulator on a non-empty board. `ExpandNode` pairs a level-k empty
  quadrant with a level k-1 child, which the `QuadNode` constructor rejects,
  and the root of a non-empty board always needs expansion.

Layout, one module per file:

| file | module | contents |
|---|---|---|
| wrappers.dfy | Wrappers | `Option`, `Result`, and `Fault`: the exceptions the code throws |
| life.dfy | Life | cells, the B3/S23 step `Step`, `Iterate`, period lemmas |
| powers.dfy | Powers | `Pow2`, the integer `CeilLog2`, `GetLargestPowerOf2` |
| statekey.dfy | StateKey | `ComputeHashSetHash` and its decoding round trip |
| direct.dfy | DirectStep | `NextGenerationDirect` with its neighbour dictionary |
| outcome.dfy | Outcome | `GenerationResult` and `DirectOutcome`, the promised result |
| directsim.dfy | DirectSimulation | the loop of `SimulateDirect` and its invariant |
| board.dfy | Board | bounding boxes, `ShouldUseDirect`, `NormalizeCells`, padding |
| quadnode.dfy | QuadTree | `QuadNode` in an arena, the `_nextNodeId` counter (`NodeArena`), `Equals`, `GetHashCode`, `IsEmpty`, the cells a node holds |
| levels.dfy | Levels | the level each Advance routine returns |
| caches.dfy | Caches | `_nodeCache`, `_resultCache` and their invariants |
| grid.dfy | Grid | the `bool[4, 4]` grid of `Advance4x4Block` |
| engine.dfy | Hashlife | the `HashlifeEngine` class, with every method of the service |

The nodes live in an arena: a map from `NodeId` to an immutable node record.
A reference is its id, with 0 standing for null, so reference equality is id
equality. The cells a node holds are `QuadTree.CellsAt`: the absolute live
cells with its north-west corner placed at (x, y), which is exactly what
`ConvertToHashSetRecursive` collects. The engine is a class whose fields are
the two caches, `_currentStepNum` and `_cacheCleanupCounter`. Its methods
change them in place. A thrown exception is an `Err` carrying the
exception's kind and message.

Where the code departs from textbook Hashlife, the model follows the code:

- Expansion does not preserve the board: `ExpandNode` always throws (see
  above), so every non-empty board on the Hashlife path is answered by
  `SimulateDirect` through the catch.
- The Advance routines do not return the classic level k-1 centre.
  - `Advance4x4Block` returns a level-2 node holding the whole 4x4 grid
    stepped on its own, with every cell outside it dead.
  - `AdvanceSingleGeneration` on level k >= 3 returns level 2k-2. That
    equals k+1 only for k = 3 (`Levels.OneStepLevelIsDouble`).
  - `AdvanceMaximal` recomposes nodes of mixed origin.
  - The model therefore proves levels, arena membership and emptiness for
    these routines, not Life content.
- Cache cleanup never evicts anything. Both caches insert only while
  `Count < MAX_CACHE_SIZE` (lines 360 and 370), so neither ever exceeds the
  cap and the over-cap branch of `CleanupCaches` is unreachable. The model
  still states what that branch would do: keep an arbitrary `MAX_CACHE_SIZE/2`
  of the keys, since `Keys.Take` follows dictionary order.
- The driver's step is `min(2^(level-2), remaining)`, then cut to the
  largest power of two not above `remaining` only when more than twice the
  step remains.

## Model

| member | source | states |
|---|---|---|
| QuadTree.LeafHasNoChildren | backend/ConwayGameOfLife.Core/Helper/ConwayHashLife.cs:20-41 | a stored node is a leaf (level 0) exactly when its NW child is null; a leaf has no children; an internal node has all four children and is never alive |
| QuadTree.NodeArena.constructor | backend/ConwayGameOfLife.Core/Helper/ConwayHashLife.cs:17 | no node has been constructed and the NodeId counter starts at 0 |
| QuadTree.NodeArena.NewLeaf | backend/ConwayGameOfLife.Core/Helper/ConwayHashLife.cs:20-25 | the leaf constructor: level 0, the given IsAlive, no children, and a NodeId one above the old counter that no earlier node has; the arena gains exactly that node |
| QuadTree.NodeArena.NewInternal | backend/ConwayGameOfLife.Core/Helper/ConwayHashLife.cs:28-39 | the internal constructor fails exactly when a child is null (NullReferenceException) or the four levels differ (ArgumentException "All quadrants must have the same level"), and then nothing changes; otherwise the node has a fresh NodeId, level one above its children and the given children |
| QuadTree.ConstructorCheck | backend/ConwayGameOfLife.Core/Helper/ConwayHashLife.cs:30-31 | the internal constructor's checks in C#'s evaluation order: success only with four non-null children of one level; otherwise NullReferenceException or ArgumentException "All quadrants must have the same level" |
| QuadTree.ConstructorCheckPasses | backend/ConwayGameOfLife.Core/Helper/ConwayHashLife.cs:30-31 | for stored children the constructor's check passes exactly when all four are present and have the same level |
| QuadTree.NodeArena.Add | backend/ConwayGameOfLife.Core/Helper/ConwayHashLife.cs:17-38 | recording a node takes the next NodeId, which no earlier node holds, and moves the counter on by one |
| QuadTree.Equals | backend/ConwayGameOfLife.Core/Helper/ConwayHashLife.cs:43-54 | QuadNode.Equals: every node equals itself, and two distinct references are equal only with the same level and the same key (IsAlive for leaves, child references otherwise) |
| QuadTree.EqualsIffSameKey | backend/ConwayGameOfLife.Core/Helper/ConwayHashLife.cs:43-54 | Equals holds exactly when the two nodes have the same key: same level and IsAlive for leaves, same level and the same four child references for internal nodes |
| QuadTree.EqualsIsEquivalence | backend/ConwayGameOfLife.Core/Helper/ConwayHashLife.cs:43-54 | Equals is reflexive, symmetric and transitive |
| QuadTree.GetHashCode | backend/ConwayGameOfLife.Core/Helper/ConwayHashLife.cs:56-62 | QuadNode.GetHashCode: Combine(Level, IsAlive) for a leaf, Combine(Level, the four child NodeIds) otherwise, with Combine a parameter; no ensures of its own, its property is HashConsistentWithEquals |
| QuadTree.HashConsistentWithEquals | backend/ConwayGameOfLife.Core/Helper/ConwayHashLife.cs:56-62 | equal nodes have equal GetHashCode, whatever the combining functions are |
| QuadTree.CellsOfKey | backend/ConwayGameOfLife.Infrastructure/Services/HashlifeGameOfLifeService.cs:632-646 | the cells a node holds depend only on its key: a live leaf holds its own cell, a dead leaf none, and an internal node holds its four quadrants placed at offsets 0 and half its side |
| QuadTree.SameKeySameCells | backend/ConwayGameOfLife.Infrastructure/Services/HashlifeGameOfLifeService.cs:365-375 | two nodes with the same key have the same level and hold the same cells, so replacing a node by its canonical copy never changes the board |
| QuadTree.LeafCells | backend/ConwayGameOfLife.Infrastructure/Services/HashlifeGameOfLifeService.cs:634-638 | a leaf contributes its own cell exactly when it is alive |
| QuadTree.CellsAtInSquare | backend/ConwayGameOfLife.Infrastructure/Services/HashlifeGameOfLifeService.cs:632-646 | every cell collected from a node lies inside its square of side 2^level |
| QuadTree.QuadrantCells | backend/ConwayGameOfLife.Infrastructure/Services/HashlifeGameOfLifeService.cs:641-645 | the node's square is the union of its four quadrant squares, and inside each quadrant the node holds a cell exactly when that quadrant's child does |
| QuadTree.QuadrantWrites | backend/ConwayGameOfLife.Infrastructure/Services/HashlifeGameOfLifeService.cs:585-589 | the four recursive writes into one grid cell (NW, NE, SW, SE in that order) leave the value the whole node writes: its own cell value inside its square, the old value elsewhere |
| QuadTree.CellsAtRelative | backend/ConwayGameOfLife.Infrastructure/Services/HashlifeGameOfLifeService.cs:627-646 | whether a node holds a cell depends only on the cell's offset from the corner the node is placed at |
| QuadTree.CellsAtStable | backend/ConwayGameOfLife.Infrastructure/Services/HashlifeGameOfLifeService.cs:377-381 | creating further nodes never changes the cells an existing node holds |
| QuadTree.IsEmptyNode | backend/ConwayGameOfLife.Infrastructure/Services/HashlifeGameOfLifeService.cs:305-310 | IsEmpty: the shared dead leaf, a dead leaf, or four empty quadrants; no ensures of its own, its meaning is IsEmptyIffNoCells |
| QuadTree.IsEmptyIffNoCells | backend/ConwayGameOfLife.Infrastructure/Services/HashlifeGameOfLifeService.cs:305-310 | IsEmpty holds exactly when the node holds no live cell |
| QuadTree.IsEmptyStable | backend/ConwayGameOfLife.Infrastructure/Services/HashlifeGameOfLifeService.cs:305-310 | creating further nodes never changes whether an existing node is empty |
| Caches.Canonicalize | backend/ConwayGameOfLife.Infrastructure/Services/HashlifeGameOfLifeService.cs:365-375 | GetCanonical on the table: existing entries never change, only the given key can be added and only below the cap, the node returned is the one recorded under the key whenever the key is recorded, and on a miss it is the given node |
| Caches.CanonicalizeKeepsKey | backend/ConwayGameOfLife.Infrastructure/Services/HashlifeGameOfLifeService.cs:365-375 | the node GetCanonical returns is stored and has the key of the node given; when the key is already recorded the recorded node comes back and the table is unchanged; the table stays well formed |
| Caches.CanonicalizeIdempotent | backend/ConwayGameOfLife.Infrastructure/Services/HashlifeGameOfLifeService.cs:365-375 | canonicalising the canonical node again returns it and leaves the table as it is |
| Caches.CanonicalizeShares | backend/ConwayGameOfLife.Infrastructure/Services/HashlifeGameOfLifeService.cs:370-374 | below the cap the first node with a key is recorded and returned, and a later equal node is mapped to that first one |
| Caches.CanonicalizeBounded | backend/ConwayGameOfLife.Infrastructure/Services/HashlifeGameOfLifeService.cs:370-373 | GetCanonical never takes the table above MAX_CACHE_SIZE and never drops a key |
| Caches.StoreResultOk | backend/ConwayGameOfLife.Infrastructure/Services/HashlifeGameOfLifeService.cs:357-363 | SetCached keeps the result cache well formed and never takes it above MAX_CACHE_SIZE |
| Caches.CachesStable | backend/ConwayGameOfLife.Infrastructure/Services/HashlifeGameOfLifeService.cs:9-10 | both caches stay well formed as further nodes are created |
| Caches.SubMapKeepsOk | backend/ConwayGameOfLife.Infrastructure/Services/HashlifeGameOfLifeService.cs:91-113 | removing entries from either cache keeps it well formed |
| Caches.TrimCache | backend/ConwayGameOfLife.Infrastructure/Services/HashlifeGameOfLifeService.cs:93-112 | the trimmed cache is a sub-map of the old one; an over-cap cache keeps exactly MAX_CACHE_SIZE / 2 entries; a cache within the cap is unchanged |
| Hashlife.HashlifeEngine.constructor | backend/ConwayGameOfLife.Infrastructure/Services/HashlifeGameOfLifeService.cs:19-25 | the alive and dead leaves exist and are each recorded as their own canonical node; the result cache, step number and cleanup counter start empty or zero |
| Hashlife.HashlifeEngine.GetCanonical | backend/ConwayGameOfLife.Infrastructure/Services/HashlifeGameOfLifeService.cs:365-375 | returns and records exactly what Canonicalize gives; the returned node is stored with the same key; no node is created |
| Hashlife.HashlifeEngine.CreateNode | backend/ConwayGameOfLife.Infrastructure/Services/HashlifeGameOfLifeService.cs:377-381 | fails exactly when the constructor's check fails, with its exception; otherwise a stored node one level above nw with key (level, nw, ne, sw, se), empty exactly when all four children are empty |
| Hashlife.HashlifeEngine.CreateEmpty | backend/ConwayGameOfLife.Infrastructure/Services/HashlifeGameOfLifeService.cs:383-388 | an empty node of the requested level |
| Hashlife.HashlifeEngine.ExpandNode | backend/ConwayGameOfLife.Infrastructure/Services/HashlifeGameOfLifeService.cs:390-399 | always fails: a NullReferenceException exactly for a leaf, and otherwise an ArgumentException "All quadrants must have the same level", because a level-k empty quadrant is paired with a level k-1 child |
| Hashlife.HashlifeEngine.ExpandAndAdvance | backend/ConwayGameOfLife.Infrastructure/Services/HashlifeGameOfLifeService.cs:455-459 | always fails, with a NullReferenceException exactly for a leaf |
| Hashlife.HashlifeEngine.GetCached | backend/ConwayGameOfLife.Infrastructure/Services/HashlifeGameOfLifeService.cs:352-355 | null exactly when (NodeId, generations) is not cached; a cached result is stored, has the level AdvanceHashlife gives, and is empty when the node is |
| Hashlife.HashlifeEngine.SetCached | backend/ConwayGameOfLife.Infrastructure/Services/HashlifeGameOfLifeService.cs:357-363 | the result cache becomes the old one with the entry added while below the cap; nothing else changes |
| Hashlife.HashlifeEngine.CleanupCaches | backend/ConwayGameOfLife.Infrastructure/Services/HashlifeGameOfLifeService.cs:91-113 | each cache becomes a sub-map of its old value, exactly MAX_CACHE_SIZE / 2 entries when it was over the cap, and unchanged when both were within it; the node arena and counters are untouched |
| Hashlife.HashlifeEngine.HasActivityNearBorder | backend/ConwayGameOfLife.Infrastructure/Services/HashlifeGameOfLifeService.cs:296-303 | true exactly when the node holds a live cell |
| Hashlife.HashlifeEngine.NeedsExpansion | backend/ConwayGameOfLife.Infrastructure/Services/HashlifeGameOfLifeService.cs:289-294 | for a node of level at least 1: true exactly when it holds a live cell |
| Hashlife.HashlifeEngine.ExtractGrid | backend/ConwayGameOfLife.Infrastructure/Services/HashlifeGameOfLifeService.cs:576-590 | every grid cell inside the node's square gets the node's value for that cell, and every other grid cell keeps its old value |
| Hashlife.HashlifeEngine.LeafFor | backend/ConwayGameOfLife.Infrastructure/Services/HashlifeGameOfLifeService.cs:562-572 | the alive leaf for true, the dead leaf for false |
| Hashlife.HashlifeEngine.GridQuadrant | backend/ConwayGameOfLife.Infrastructure/Services/HashlifeGameOfLifeService.cs:561-572 | a level-1 node holding exactly the grid's live cells in the 2x2 block at the given row and column |
| Hashlife.HashlifeEngine.GridToNode | backend/ConwayGameOfLife.Infrastructure/Services/HashlifeGameOfLifeService.cs:560-573 | a level-2 node holding exactly the grid's live cells |
| Hashlife.HashlifeEngine.GridHoldsNode | backend/ConwayGameOfLife.Infrastructure/Services/HashlifeGameOfLifeService.cs:542-543 | after ExtractGrid into a fresh all-false grid, the grid's live cells are exactly the level-2 node's cells |
| Hashlife.HashlifeEngine.Advance4x4Block | backend/ConwayGameOfLife.Infrastructure/Services/HashlifeGameOfLifeService.cs:538-574 | a node not of level 2 is refused with ArgumentException "Node must be level 2" and nothing changes; a level-2 node gives a level-2 node holding g B3/S23 generations of its 4x4 grid, with every cell outside the grid dead |
| Hashlife.EmptyBlockStaysEmpty | backend/ConwayGameOfLife.Infrastructure/Services/HashlifeGameOfLifeService.cs:538-574 | the 4x4 simulation of an empty block is empty |
| Hashlife.BlocksNodeCells | backend/ConwayGameOfLife.Infrastructure/Services/HashlifeGameOfLifeService.cs:560-573 | four level-1 quadrants holding the grid's four 2x2 blocks make a node holding the whole grid |
| Hashlife.HashlifeEngine.Join | backend/ConwayGameOfLife.Infrastructure/Services/HashlifeGameOfLifeService.cs:377-381 | creating a node from four same-level children: one level up, the given children, key (level, nw, ne, sw, se), empty exactly when all four children are |
| Hashlife.HashlifeEngine.Overlaps | backend/ConwayGameOfLife.Infrastructure/Services/HashlifeGameOfLifeService.cs:471-479 | the nine overlapping sub-squares of a node: its four quadrants at the corners, and north, west, centre, east and south built from the grandchildren lines 472-478 name (`OverlapChildren`); all nine one level down, all empty when the node is |
| Hashlife.HashlifeEngine.Quarters | backend/ConwayGameOfLife.Infrastructure/Services/HashlifeGameOfLifeService.cs:491-496 | the four nodes joined from the nine results have children (n00, n01, n10, n11), (n01, n02, n11, n12), (n10, n11, n20, n21) and (n11, n12, n21, n22) as lines 492-495 build them, are one level above the nine and are empty when all nine are |
| Hashlife.HashlifeEngine.AdvanceNine | backend/ConwayGameOfLife.Infrastructure/Services/HashlifeGameOfLifeService.cs:481-489 | the nine sub-squares advanced by one generation each, in order, have the level AdvanceHashlife gives and stay empty when they were |
| Hashlife.HashlifeEngine.AdvanceFrom | backend/ConwayGameOfLife.Infrastructure/Services/HashlifeGameOfLifeService.cs:481 | one recursive advance: the level AdvanceHashlife gives, and an empty node gives an empty node |
| Hashlife.HashlifeEngine.JoinAdvance | backend/ConwayGameOfLife.Infrastructure/Services/HashlifeGameOfLifeService.cs:513 | CreateNode over four same-level nodes immediately followed by AdvanceHashlife of the new node: the level AdvanceHashlife gives one level up, and empty when all four were |
| Hashlife.HashlifeEngine.AdvanceTopRow | backend/ConwayGameOfLife.Infrastructure/Services/HashlifeGameOfLifeService.cs:512-514 | n00, n01, n02 in source order (advance NW; create and advance the north overlap; advance NE), all at level AdvanceLevel(k-1, half), empty when the node is |
| Hashlife.HashlifeEngine.AdvanceMiddleRow | backend/ConwayGameOfLife.Infrastructure/Services/HashlifeGameOfLifeService.cs:515-517 | n10, n11, n12 in source order (the west, centre and east overlaps, each created and at once advanced), at level AdvanceLevel(k-1, half), empty when the node is |
| Hashlife.HashlifeEngine.AdvanceBottomRow | backend/ConwayGameOfLife.Infrastructure/Services/HashlifeGameOfLifeService.cs:518-520 | n20, n21, n22 in source order (advance SW; create and advance the south overlap; advance SE), at level AdvanceLevel(k-1, half), empty when the node is |
| Hashlife.HashlifeEngine.AdvanceOverlaps | backend/ConwayGameOfLife.Infrastructure/Services/HashlifeGameOfLifeService.cs:512-520 | the nine advanced sub-squares, row by row in source order, all at level AdvanceLevel(k-1, half) and all empty when the node is |
| Hashlife.HashlifeEngine.AdvanceQuarters | backend/ConwayGameOfLife.Infrastructure/Services/HashlifeGameOfLifeService.cs:522-527 | each of the four nodes over 2x2 groups of the nine is created and at once advanced, then the node above them is created: level AdvanceLevel(level+1, half)+1, empty when all nine are |
| Hashlife.HashlifeEngine.AdvanceSingleGeneration | backend/ConwayGameOfLife.Infrastructure/Services/HashlifeGameOfLifeService.cs:464-502 | below level 2 an ArgumentException "Node must be at least level 2"; from level 2 a result of level OneStepLevel(k) that is empty when the node is |
| Hashlife.HashlifeEngine.AdvanceMaximal | backend/ConwayGameOfLife.Infrastructure/Services/HashlifeGameOfLifeService.cs:504-533 | below level 3 an ArgumentException "Node must be at least level 3"; from level 3 a result of level MaximalLevel(k) that is empty when the node is |
| Hashlife.HashlifeEngine.AdvanceStepByStep | backend/ConwayGameOfLife.Infrastructure/Services/HashlifeGameOfLifeService.cs:433-441 | the step-by-step branch: g single advances, ending at level StepLevels(k, g), empty when the node was |
| Hashlife.HashlifeEngine.AdvanceHashlife | backend/ConwayGameOfLife.Infrastructure/Services/HashlifeGameOfLifeService.cs:402-453 | 0 generations returns the node itself and changes nothing; below level 2 it fails, with a NullReferenceException exactly for a leaf; from level 2 it succeeds with level AdvanceLevel(k, g), and an empty node gives an empty node |
| Levels.OneStepLevelIsDouble | backend/ConwayGameOfLife.Infrastructure/Services/HashlifeGameOfLifeService.cs:464-496 | one generation of a level-k node (k at least 2) has level 2k-2, which is k+1 only for k = 3 |
| Levels.AdvanceLevelOne | backend/ConwayGameOfLife.Infrastructure/Services/HashlifeGameOfLifeService.cs:417-419 | advancing by one generation has the level of AdvanceSingleGeneration |
| Levels.StepLevelsAtLeast2 | backend/ConwayGameOfLife.Infrastructure/Services/HashlifeGameOfLifeService.cs:434-441 | single steps from level 2 or more never go below level 2 |
| Levels.AdvanceLevelAtLeast2 | backend/ConwayGameOfLife.Infrastructure/Services/HashlifeGameOfLifeService.cs:402-443 | an advance by a positive count, or of a node of level 2 or more, has level at least 2, so every recursive advance in the Advance routines is on a node of level 2 or more |
| Levels.MaximalLevelAtLeast3 | backend/ConwayGameOfLife.Infrastructure/Services/HashlifeGameOfLifeService.cs:504-527 | AdvanceMaximal from level 3 or more gives level 3 or more |
| Grid.CountNeighbors4x4 | backend/ConwayGameOfLife.Infrastructure/Services/HashlifeGameOfLifeService.cs:592-606 | the count is the number of live neighbours inside the grid, every cell outside counting as dead, and lies in 0 .. 8 |
| Grid.ScanCountIsLiveNeighbours | backend/ConwayGameOfLife.Infrastructure/Services/HashlifeGameOfLifeService.cs:595-604 | the dy/dx scan skipping the centre counts exactly the live neighbours |
| Grid.CellRule | backend/ConwayGameOfLife.Infrastructure/Services/HashlifeGameOfLifeService.cs:553-554 | the grid's update expression is the B3/S23 rule for that cell |
| Grid.FillRow | backend/ConwayGameOfLife.Infrastructure/Services/HashlifeGameOfLifeService.cs:550-555 | row y of the new grid gets the B3/S23 value of each of its cells, the other rows are untouched |
| Grid.NextGrid | backend/ConwayGameOfLife.Infrastructure/Services/HashlifeGameOfLifeService.cs:547-557 | the new grid's live cells are one grid generation of the old grid's cells |
| Grid.GridStepMember | backend/ConwayGameOfLife.Infrastructure/Services/HashlifeGameOfLifeService.cs:548-556 | a cell is live after a grid generation exactly when it is inside the grid and B3/S23 keeps or makes it live |
| Grid.GridIterateEmpty | backend/ConwayGameOfLife.Infrastructure/Services/HashlifeGameOfLifeService.cs:545-558 | an empty grid stays empty for any number of generations |
| Grid.GridIterateInside | backend/ConwayGameOfLife.Infrastructure/Services/HashlifeGameOfLifeService.cs:545-558 | after at least one generation every live cell is inside the grid |
| Grid.GridCellsMember | backend/ConwayGameOfLife.Infrastructure/Services/HashlifeGameOfLifeService.cs:553 | a cell is a live grid cell exactly when it is inside the grid and grid[y, x] is true |
| Hashlife.HashlifeEngine.BuildQuadNode | backend/ConwayGameOfLife.Infrastructure/Services/HashlifeGameOfLifeService.cs:608-620 | the node has the requested level and is the tree of the square at (x, y): a leaf alive exactly when the board holds its cell, and four such quadrants above |
| Hashlife.BuiltCells | backend/ConwayGameOfLife.Infrastructure/Services/HashlifeGameOfLifeService.cs:608-620 | a built tree holds exactly the board's cells inside its square |
| Hashlife.ConvertedIsTranslation | backend/ConwayGameOfLife.Infrastructure/Services/HashlifeGameOfLifeService.cs:622-646 | read back from the origin, a built tree holds c exactly when the board holds c moved by (x, y) inside the square: the board comes back translated, and the original coordinates are not restored |
| Hashlife.BuiltStable | backend/ConwayGameOfLife.Infrastructure/Services/HashlifeGameOfLifeService.cs:614-619 | a built tree stays built as further nodes are created |
| Hashlife.JoinedBuilt | backend/ConwayGameOfLife.Infrastructure/Services/HashlifeGameOfLifeService.cs:613-619 | a node joined from four built quadrants is built |
| Hashlife.SquareNodeCells | backend/ConwayGameOfLife.Infrastructure/Services/HashlifeGameOfLifeService.cs:613-619 | four quadrants holding the four quarter squares make a node holding the whole square |
| Hashlife.UnitSquare | backend/ConwayGameOfLife.Infrastructure/Services/HashlifeGameOfLifeService.cs:610-611 | the square of side 1 at (x, y) holds that cell exactly when the board does |
| Hashlife.HashlifeEngine.ConvertToHashSetRecursive | backend/ConwayGameOfLife.Infrastructure/Services/HashlifeGameOfLifeService.cs:632-646 | the set after the call is the set before with the node's live cells, placed at (x, y), added |
| Hashlife.CollectedQuadrants | backend/ConwayGameOfLife.Infrastructure/Services/HashlifeGameOfLifeService.cs:641-645 | the four recursive calls together add exactly the node's cells |
| Hashlife.HashlifeEngine.ConvertToHashSet | backend/ConwayGameOfLife.Infrastructure/Services/HashlifeGameOfLifeService.cs:622-630 | null gives the empty set; a node gives its live cells placed at the origin |
| Hashlife.HashlifeEngine.ConvertToQuadNodeWithPadding | backend/ConwayGameOfLife.Infrastructure/Services/HashlifeGameOfLifeService.cs:312-349 | an empty board gives an empty node of level max(3, ceil log2(generations + 8)); a non-empty board gives a node of level in 3 .. 15 holding the board inside the padded square, and the whole board when the padded box fits level 15 |
| Hashlife.PaddedBox | backend/ConwayGameOfLife.Infrastructure/Services/HashlifeGameOfLifeService.cs:317-346 | the corner is the bounding box widened by the padding, and the level is the least covering the padded side, clamped to 3 .. 15 |
| Hashlife.PaddedLevelCovers | backend/ConwayGameOfLife.Infrastructure/Services/HashlifeGameOfLifeService.cs:336-346 | a padded side of at most 2^15 fits in the level picked for it |
| Hashlife.PaddedNodeHolds | backend/ConwayGameOfLife.Infrastructure/Services/HashlifeGameOfLifeService.cs:331-348 | a node of the picked level built over the padded square holds the whole board when the padded side fits level 15 |
| Hashlife.NormalizedFits | backend/ConwayGameOfLife.Infrastructure/Services/HashlifeGameOfLifeService.cs:193-194 | a normalized board within range is non-empty and its padded box fits level 15 |
| Hashlife.PaddedRootNotEmpty | backend/ConwayGameOfLife.Infrastructure/Services/HashlifeGameOfLifeService.cs:193-214 | the padded root of a non-empty board within range is not empty, so NeedsExpansion holds for it |
| Board.Padding | backend/ConwayGameOfLife.Infrastructure/Services/HashlifeGameOfLifeService.cs:327-329 | padding = min(max(generations + 4, maxDimension / 4), 1000): never above 1000, and at least generations + 4 unless capped at 1000 |
| Board.PaddingBounds | backend/ConwayGameOfLife.Infrastructure/Services/HashlifeGameOfLifeService.cs:328-329 | the padding lies in 4 .. 1000 for a non-negative count |
| Board.PaddedSquareCovers | backend/ConwayGameOfLife.Infrastructure/Services/HashlifeGameOfLifeService.cs:331-333 | a square at the bounding box's corner widened by the padding, with a side at least the extent plus twice the padding, holds the whole board |
| Board.Extent | backend/ConwayGameOfLife.Infrastructure/Services/HashlifeGameOfLifeService.cs:323-325 | the larger side of the bounding box is at least 1 |
| Board.ExtentInRange | backend/ConwayGameOfLife.Infrastructure/Services/HashlifeGameOfLifeService.cs:86-88 | a board within range has extent at most 20001 |
| Board.NormalizeExtent | backend/ConwayGameOfLife.Infrastructure/Services/HashlifeGameOfLifeService.cs:269-279 | normalizing keeps the board non-empty and keeps its extent |
| Board.MinX | backend/ConwayGameOfLife.Infrastructure/Services/HashlifeGameOfLifeService.cs:76 | the least x of a non-empty board: no cell is below it and some cell has it |
| Board.MaxX | backend/ConwayGameOfLife.Infrastructure/Services/HashlifeGameOfLifeService.cs:77 | the greatest x of a non-empty board: no cell is above it and some cell has it |
| Board.MinY | backend/ConwayGameOfLife.Infrastructure/Services/HashlifeGameOfLifeService.cs:78 | the least y of a non-empty board: no cell is below it and some cell has it |
| Board.MaxY | backend/ConwayGameOfLife.Infrastructure/Services/HashlifeGameOfLifeService.cs:79 | the greatest y of a non-empty board: no cell is above it and some cell has it |
| Board.ShouldUseDirect | backend/ConwayGameOfLife.Infrastructure/Services/HashlifeGameOfLifeService.cs:71-89 | the empty board always goes to the direct simulator, and any board it lets through has every cell within -10000 .. 10000 |
| Board.ShouldUseDirectIff | backend/ConwayGameOfLife.Infrastructure/Services/HashlifeGameOfLifeService.cs:71-89 | ShouldUseDirect holds exactly for the empty board, a board with a cell outside -10000 .. 10000, or a board filling less than a tenth of its bounding box |
| Board.NormalizeCells | backend/ConwayGameOfLife.Infrastructure/Services/HashlifeGameOfLifeService.cs:269-279 | the normalized board is empty exactly when the board is (its translation is NormalizeBox) |
| Board.NormalizeBox | backend/ConwayGameOfLife.Infrastructure/Services/HashlifeGameOfLifeService.cs:269-279 | the normalized board has least x and y 0 and the same width and height |
| Board.NormalizeIdempotent | backend/ConwayGameOfLife.Infrastructure/Services/HashlifeGameOfLifeService.cs:269-279 | normalizing twice is normalizing once |
| Board.NormalizeInRange | backend/ConwayGameOfLife.Infrastructure/Services/HashlifeGameOfLifeService.cs:269-279 | a board within range normalizes into 0 .. 20000 on both axes |
| Board.BoxTranslate | backend/ConwayGameOfLife.Infrastructure/Services/HashlifeGameOfLifeService.cs:276-278 | translating a board moves its bounding box by the same offset |
| Board.SquareQuadrants | backend/ConwayGameOfLife.Infrastructure/Services/HashlifeGameOfLifeService.cs:613-617 | a square of side 2h is the union of its four quadrants of side h |
| Powers.CeilLog2 | backend/ConwayGameOfLife.Infrastructure/Services/HashlifeGameOfLifeService.cs:336-342 | the least level whose side 2^level covers n |
| Powers.CeilLog2Unique | backend/ConwayGameOfLife.Infrastructure/Services/HashlifeGameOfLifeService.cs:336-342 | the level the doubling loop stops at is CeilLog2 of the side |
| Powers.CeilLog2AtMost | backend/ConwayGameOfLife.Infrastructure/Services/HashlifeGameOfLifeService.cs:336-345 | a side that fits level k has CeilLog2 at most k |
| Powers.GetLargestPowerOf2 | backend/ConwayGameOfLife.Infrastructure/Services/HashlifeGameOfLifeService.cs:281-287 | the result is a power of two; for n at least 1 it is the largest one not above n, and for smaller n it is 1 |
| Life.StepMembership | backend/ConwayGameOfLife.Infrastructure/Services/HashlifeGameOfLifeService.cs:157-186 | a cell is in the next generation exactly when it has three live neighbours, or two and is live |
| Life.IterateEmpty | backend/ConwayGameOfLife.Infrastructure/Services/HashlifeGameOfLifeService.cs:157-186 | the empty board stays empty for any number of generations |
| Life.LiveNeighboursBound | backend/ConwayGameOfLife.Infrastructure/Services/HashlifeGameOfLifeService.cs:163-171 | a cell has between 0 and 8 live neighbours |
| Life.NeighboursUnfolded | backend/ConwayGameOfLife.Infrastructure/Services/HashlifeGameOfLifeService.cs:163-169 | the neighbour count is the sum over the eight offsets around the cell |
| Life.IterateAdd | backend/ConwayGameOfLife.Infrastructure/Services/HashlifeGameOfLifeService.cs:122-146 | a generations followed by b generations is a + b generations |
| Life.RepeatShift | backend/ConwayGameOfLife.Infrastructure/Services/HashlifeGameOfLifeService.cs:129-136 | once a board repeats after a period, every later board repeats after that period too |
| Life.RepeatFrom | backend/ConwayGameOfLife.Infrastructure/Services/HashlifeGameOfLifeService.cs:129-136 | once generation q repeats after a period, generation t equals generation q + (t - q) mod period |
| Life.PeriodFastForward | backend/ConwayGameOfLife.Infrastructure/Services/HashlifeGameOfLifeService.cs:129-136 | if generation p equals generation q (p < q), generation t equals generation q + (t - q) mod (q - p), the fast-forward SimulateDirect takes |
| Outcome.FirstRepeatUnique | backend/ConwayGameOfLife.Infrastructure/Services/HashlifeGameOfLifeService.cs:124-137 | the first snapshot that repeats, and its gap, are unique, so the reported period is determined by the board and the count |
| Outcome.ReportedPeriod | backend/ConwayGameOfLife.Infrastructure/Services/HashlifeGameOfLifeService.cs:129-153 | a reported period is only given when isFinal, is a positive multiple of 100, and the board comes back after it |
| StateKey.SortedCells | backend/ConwayGameOfLife.Infrastructure/Services/HashlifeGameOfLifeService.cs:650 | the cells listed once each, in strictly increasing order by x, then y |
| StateKey.NatTextRoundTrip | backend/ConwayGameOfLife.Infrastructure/Services/HashlifeGameOfLifeService.cs:651 | reading back the decimal digits of n gives n |
| StateKey.IntTextRoundTrip | backend/ConwayGameOfLife.Infrastructure/Services/HashlifeGameOfLifeService.cs:651 | reading back the text of an integer, with its minus sign, gives the integer |
| StateKey.CellTextRoundTrip | backend/ConwayGameOfLife.Infrastructure/Services/HashlifeGameOfLifeService.cs:651 | reading back "x,y" gives the cell |
| StateKey.SplitJoin | backend/ConwayGameOfLife.Infrastructure/Services/HashlifeGameOfLifeService.cs:651 | splitting a join on ';' gives back the parts when no part contains ';' |
| StateKey.ParseCellTexts | backend/ConwayGameOfLife.Infrastructure/Services/HashlifeGameOfLifeService.cs:651 | reading back a list of cell texts gives the cells |
| StateKey.ComputeHashSetHash | backend/ConwayGameOfLife.Infrastructure/Services/HashlifeGameOfLifeService.cs:648-652 | the cells sorted by x then y, each as "x,y", joined by ';'; no ensures of its own, its properties are KeyRoundTrip and KeyInjective |
| StateKey.KeyRoundTrip | backend/ConwayGameOfLife.Infrastructure/Services/HashlifeGameOfLifeService.cs:648-652 | decoding ComputeHashSetHash gives the board's cells in sorted order |
| StateKey.KeyInjective | backend/ConwayGameOfLife.Infrastructure/Services/HashlifeGameOfLifeService.cs:648-652 | two boards with the same key are equal |
| DirectStep.BumpTallies | backend/ConwayGameOfLife.Infrastructure/Services/HashlifeGameOfLifeService.cs:166-168 | incrementing the neighbour at offset (dx, dy), or skipping the zero offset, adds exactly that offset's contribution to every cell's tally and keeps the counts positive |
| DirectStep.TallyRow | backend/ConwayGameOfLife.Infrastructure/Services/HashlifeGameOfLifeService.cs:164-169 | after the dy loop for one dx, every count has gained the contributions of that column's offsets, and all entries are positive |
| DirectStep.TallyNeighbours | backend/ConwayGameOfLife.Infrastructure/Services/HashlifeGameOfLifeService.cs:162-170 | after one cell's eight increments, each count is the old count plus one for every neighbour of that cell, and all entries are positive |
| DirectStep.CountNeighbours | backend/ConwayGameOfLife.Infrastructure/Services/HashlifeGameOfLifeService.cs:159-172 | the dictionary holds, for every cell, its number of live neighbours, and only positive counts |
| DirectStep.NextGenerationDirect | backend/ConwayGameOfLife.Infrastructure/Services/HashlifeGameOfLifeService.cs:157-186 | the result is exactly one B3/S23 generation of the board |
| DirectSimulation.RepeatSeen | backend/ConwayGameOfLife.Infrastructure/Services/HashlifeGameOfLifeService.cs:124-142 | a snapshot board that repeats an earlier snapshot board finds its key recorded |
| DirectSimulation.StoredSound | backend/ConwayGameOfLife.Infrastructure/Services/HashlifeGameOfLifeService.cs:139-142 | recording the current board under its key keeps every record true: the key's board is the board at the recorded generation |
| DirectSimulation.UnseenNoRepeat | backend/ConwayGameOfLife.Infrastructure/Services/HashlifeGameOfLifeService.cs:127-142 | when the current key is new, no snapshot up to now repeats an earlier one |
| DirectSimulation.SnapshotStored | backend/ConwayGameOfLife.Infrastructure/Services/HashlifeGameOfLifeService.cs:139-142 | recording a new key keeps the loop invariant |
| DirectSimulation.NoSnapshotTaken | backend/ConwayGameOfLife.Infrastructure/Services/HashlifeGameOfLifeService.cs:124-145 | a generation without a snapshot keeps the loop invariant |
| DirectSimulation.NoRepeatOutcome | backend/ConwayGameOfLife.Infrastructure/Services/HashlifeGameOfLifeService.cs:145-154 | when the loop runs to the end, the board is the count's generation and the period is 0 |
| DirectSimulation.FirstRepeatOutcome | backend/ConwayGameOfLife.Infrastructure/Services/HashlifeGameOfLifeService.cs:127-137 | stopping at the first repeat with the full board reports that repeat's gap as the period |
| DirectSimulation.SeenKeyRepeats | backend/ConwayGameOfLife.Infrastructure/Services/HashlifeGameOfLifeService.cs:126-129 | a recorded key was recorded at an earlier snapshot with the same board |
| DirectSimulation.RepeatIsFirst | backend/ConwayGameOfLife.Infrastructure/Services/HashlifeGameOfLifeService.cs:124-129 | with no earlier repeat, the current repeat is the first |
| DirectSimulation.SeenKeyIsFirstRepeat | backend/ConwayGameOfLife.Infrastructure/Services/HashlifeGameOfLifeService.cs:127-132 | a seen key marks the first repeat, its gap is gen minus the recorded generation, and stepping the remaining generations modulo the gap reaches the full board |
| DirectSimulation.SeenKeyOutcome | backend/ConwayGameOfLife.Infrastructure/Services/HashlifeGameOfLifeService.cs:127-137 | the seen-key branch returns the board after all generations and the first repeat's gap |
| DirectSimulation.StepGenerations | backend/ConwayGameOfLife.Infrastructure/Services/HashlifeGameOfLifeService.cs:133-136 | count further generations from the board at generation start give the board at start + count |
| DirectSimulation.SkipPeriods | backend/ConwayGameOfLife.Infrastructure/Services/HashlifeGameOfLifeService.cs:127-137 | the fast-forward branch returns the board after all generations and the first repeat's period |
| DirectSimulation.SimulateDirectCells | backend/ConwayGameOfLife.Infrastructure/Services/HashlifeGameOfLifeService.cs:117-147 | the board after the generations, and the first repeat's period when isFinal and one exists, otherwise 0 |
| Hashlife.HashlifeEngine.SimulateDirect | backend/ConwayGameOfLife.Infrastructure/Services/HashlifeGameOfLifeService.cs:115-155 | the board after the generations and the period as above; the step number moves on by the generations and is returned; the caches are untouched |
| Hashlife.HashlifeEngine.AdvanceOneByOne | backend/ConwayGameOfLife.Infrastructure/Services/HashlifeGameOfLifeService.cs:226-230 | single-generation advances keep the root at level 2 or more, and an empty root stays empty |
| Hashlife.HashlifeEngine.AdvanceRoot | backend/ConwayGameOfLife.Infrastructure/Services/HashlifeGameOfLifeService.cs:209-250 | an empty root stays empty, and a root holding a live cell always fails at the first expansion when any generations remain |
| Hashlife.HashlifeEngine.SimulateHashlife | backend/ConwayGameOfLife.Infrastructure/Services/HashlifeGameOfLifeService.cs:188-267 | the step number moves on by the generations; an empty board gives an empty board; a non-empty board within range gives exactly SimulateDirect's outcome, through the catch |
| Hashlife.HashlifeEngine.Simulate | backend/ConwayGameOfLife.Infrastructure/Services/HashlifeGameOfLifeService.cs:36-69 | every path returns the board after the generations with the first repeat's period when asked; 0 generations changes nothing in the engine; a run that starts with both caches within the cap leaves them within it; otherwise the step number moves on by the generations and the cleanup counter by one |
| Hashlife.HashlifeEngine.SimulateAsync | backend/ConwayGameOfLife.Infrastructure/Services/HashlifeGameOfLifeService.cs:27-34 | a null board gives ArgumentNullException("liveCells"), a negative count ArgumentOutOfRangeException("generations", "Generations must be non-negative."), both leaving the arena, the NodeId counter, both caches and both counters unchanged; caches within the cap stay within it; otherwise Simulate's result |

## Left out

- Concurrency: `Task.Run` in `SimulateAsync` and `Interlocked.Increment` in the `QuadNode` constructors are plain sequential steps here.
- The static `_nextNodeId` counter is modelled as one `NodeArena` object owned by the engine. Engines sharing one counter are not modelled.
- `HashCode.Combine`: its values are library hashing. `GetHashCode` takes the combining functions as parameters, and only its consistency with `Equals` is proved.
- 32-bit integers are not modelled. Integers are unbounded, so the overflow of `width * height` in `ShouldUseDirect` and the growth of NodeIds, `_currentStepNum` and `_cacheCleanupCounter` past `int.MaxValue` are out.
- `1 << n` is modelled as the unbounded `Pow2(n)`. C# masks an `int` shift count to its low 5 bits, and `1 << 31` is negative, so the two agree only for n <= 30. Padded roots stay at level 15 or below, so the shifts at lines 346 and 585 are exact. The advance routines, however, raise levels quickly: an empty level-5 root advanced by 10 generations reaches level 291 (`AdvanceLevel(5, 8) == 291`).
- Hashlife.HashlifeEngine.AdvanceHashlife, Hashlife.HashlifeEngine.AdvanceMaximal, Hashlife.HashlifeEngine.AdvanceRoot, Hashlife.HashlifeEngine.ConvertToHashSet, Levels.AdvanceLevel and Levels.MaximalLevel: they follow the unmasked `Pow2`. They differ from the C# branch tests and step sizes from level 33 (lines 239 and 423: `1 << (Level - 2)`) and from level 34 (line 510: `1 << (Level - 3)`), and the C# read-back size at line 627 is wrong from level 31. At those levels the C# code takes other branches than the model, so its node levels, NodeIds and cache contents differ from the model's. When such a root holds live cells, the returned board can differ as well.
- Culture-specific number formatting is not modelled: `$"{c.X},{c.Y}"` in `ComputeHashSetHash` uses the current culture's negative sign, and `IntText` always writes '-'. The key stays injective for any fixed sign.
- `Math.Ceiling(Math.Log2(generations + 8))` is modelled by the integer `CeilLog2`. Floating-point rounding for huge counts is out.
- `CleanupCaches` evicts the first keys of `Keys.Take` in dictionary order. That order is unspecified, so `Caches.TrimCache` removes an arbitrary set of keys of the right size.
- Hashlife.HashlifeEngine.AdvanceHashlife: states the level, arena membership and emptiness of the result, not its cells. As written, the results mix levels and are not Life generations of the node. The same holds for AdvanceSingleGeneration, AdvanceMaximal, AdvanceNine, AdvanceFrom, JoinAdvance, AdvanceTopRow, AdvanceMiddleRow, AdvanceBottomRow, AdvanceOverlaps, AdvanceQuarters, AdvanceStepByStep, AdvanceOneByOne and AdvanceRoot.
- Hashlife.HashlifeEngine.SimulateHashlife: states the result only for an empty board and for a non-empty board within -10000 .. 10000. `Simulate` only reaches it for such boards, because `ShouldUseDirect` sends every other board to the direct simulator.
- Hashlife.HashlifeEngine.AdvanceRoot: does not state which period is found when the node-id lookup hits, or what the root then holds. It is reached only for empty roots, whose result is empty whatever happens.
- Hashlife.HashlifeEngine.ExtractGrid: requires non-negative x and y, which every call has (it starts at 0, 0 and adds positive offsets). A negative offset would make the C# indexer throw, and that path is not modelled.
- The catch blocks at lines 448-452, 498-501 and 529-532 of HashlifeGameOfLifeService.cs are not modelled. Every recursive advance is on a node of level 2 or more (`Levels.AdvanceLevelAtLeast2`), so they cannot fire.
- The catch in `Simulate` (lines 64-68) is not modelled. Only `SimulateHashlife` can fail, and it catches its own failure.
- The `rootNode == null` check in `SimulateHashlife` (line 196) is not modelled, because `ConvertToQuadNodeWithPadding` never returns null.
- The expansion `while` of `SimulateHashlife` (lines 214-218) is modelled as an `if` that fails. The first `ExpandNode` always throws, so the loop never repeats, and the `Level > 10` break is unreachable.
- `Simulate` takes the generation count as a `nat`. The negative count is refused one level up, in `SimulateAsync`.
- The `HashSet` passed by reference through `ConvertToHashSetRecursive` is modelled as a set value passed in and returned. The copies made with `new HashSet(...)` are plain set values.
- Loops are split into helper methods with their own contracts. The split does not change what the code does:
  - the `gen` loop of `SimulateDirect` is `SimulateDirectCells`, `StepGenerations` and `SkipPeriods`;
  - the tally loops of `NextGenerationDirect` are `CountNeighbours`, `TallyNeighbours` and `TallyRow`;
  - the row loop of `Advance4x4Block` is `FillRow`;
  - the level loop of `ConvertToQuadNodeWithPadding` is `PaddedBox`;
  - the driver loop of `SimulateHashlife` is `AdvanceRoot` and `AdvanceOneByOne`;
  - the step loop of `AdvanceHashlife` is `AdvanceStepByStep`;
  - the straight-line body of `AdvanceMaximal` is `AdvanceOverlaps` (itself `AdvanceTopRow`, `AdvanceMiddleRow` and `AdvanceBottomRow`) and `AdvanceQuarters`, which create and advance every node in the source's order, so NodeIds and cache entries come out in the same order.
- Hashlife.HashlifeEngine.BuildQuadNode: its contract is the tree shape `Built`. The cells the tree holds follow from `Hashlife.BuiltCells`, and the translation seen by `ConvertToHashSet` from `Hashlife.ConvertedIsTranslation`.
- Everything outside the engine is out: the HTTP controller, persistence, DTOs and the frontend.
