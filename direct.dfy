/**
 * One generation of the direct (cell-by-cell) simulator: tally, for every
 * live cell, each of its eight neighbours, then keep the tallied cells whose
 * tally is 3, or 2 for a cell that is live now.
 */
module DirectStep {
  import opened Life

  /** GetValueOrDefault(key, 0). */
  function CountOf(counts: map<Cell, nat>, n: Cell): nat {
    if n in counts then counts[n] else 0
  }

  lemma OffsetOfLoopIndex(dx: int, dy: int)
    requires -1 <= dx <= 1 && -1 <= dy <= 1
    ensures 0 <= (dx + 1) * 3 + (dy + 1) < 9
    ensures Offset((dx + 1) * 3 + (dy + 1)) == Cell(dx, dy)
    ensures ((dx + 1) * 3 + (dy + 1) == 4) <==> (dx == 0 && dy == 0)
  {
    if dx == -1 {
      assert (dx + 1) * 3 + (dy + 1) == dy + 1;
    } else if dx == 0 {
      assert (dx + 1) * 3 + (dy + 1) == 3 + dy + 1;
    } else {
      assert (dx + 1) * 3 + (dy + 1) == 6 + dy + 1;
    }
  }

  /** The tally of the single cell {cell} gains one at offset k exactly for
      the cell that offset leads to. */
  lemma TallyStep(cell: Cell, k: nat, n: Cell)
    requires k < 9
    ensures CountUpTo({cell}, n, k + 1) ==
      CountUpTo({cell}, n, k) + (if k == 4 || n != Shift(cell, Offset(k)) then 0 else 1)
  {
  }

  /** The counts after the offset (dx, dy) of cell, bumped unless it is the
      zero offset. */
  function Bumped(counts: map<Cell, nat>, cell: Cell, dx: int, dy: int): map<Cell, nat> {
    if dx == 0 && dy == 0 then counts
    else counts[Cell(cell.x + dx, cell.y + dy) := CountOf(counts, Cell(cell.x + dx, cell.y + dy)) + 1]
  }

  /** The counts hold the live neighbours among done plus the first k
      offsets of cell, and every stored count is positive. */
  ghost predicate Tallied(counts: map<Cell, nat>, done: set<Cell>, cell: Cell, k: nat)
    requires k <= 9
  {
    && (forall n :: n in counts ==> counts[n] > 0)
    && (forall n :: CountOf(counts, n) == LiveNeighbours(done, n) + CountUpTo({cell}, n, k))
  }

  /** Bumping the neighbour at loop offset (dx, dy), offset number k,
      extends the tally of cell by that one offset. */
  lemma BumpTallies(counts: map<Cell, nat>, done: set<Cell>, cell: Cell, dx: int, dy: int, k: nat)
    requires -1 <= dx <= 1 && -1 <= dy <= 1 && k == (dx + 1) * 3 + (dy + 1)
    requires Tallied(counts, done, cell, k)
    ensures k < 9 && Tallied(Bumped(counts, cell, dx, dy), done, cell, k + 1)
  {
    OffsetOfLoopIndex(dx, dy);
    forall n ensures CountOf(Bumped(counts, cell, dx, dy), n) == LiveNeighbours(done, n) + CountUpTo({cell}, n, k + 1) {
      TallyStep(cell, k, n);
    }
  }

  /** The inner loop of NextGenerationDirect's tally for one dx: bump the
      three neighbours of cell in that column (skipping cell itself). */
  method TallyRow(counts: map<Cell, nat>, ghost done: set<Cell>, cell: Cell, dx: int) returns (neighborCounts: map<Cell, nat>)
    requires -1 <= dx <= 1 && Tallied(counts, done, cell, (dx + 1) * 3)
    ensures Tallied(neighborCounts, done, cell, (dx + 1) * 3 + 3)
  {
    neighborCounts := counts;
    for dy := -1 to 2
      invariant Tallied(neighborCounts, done, cell, (dx + 1) * 3 + (dy + 1))
    {
      ghost var k := (dx + 1) * 3 + (dy + 1);
      BumpTallies(neighborCounts, done, cell, dx, dy, k);
      if dx == 0 && dy == 0 {
        continue;
      }
      ghost var before := neighborCounts;
      var neighbor := Cell(cell.x + dx, cell.y + dy);
      neighborCounts := neighborCounts[neighbor := CountOf(neighborCounts, neighbor) + 1];
      assert neighborCounts == Bumped(before, cell, dx, dy);
    }
  }

  /** One pass of NextGenerationDirect's inner loops: tally the eight
      neighbours of cell on top of the counts for the cells done. */
  method TallyNeighbours(counts: map<Cell, nat>, ghost done: set<Cell>, cell: Cell) returns (neighborCounts: map<Cell, nat>)
    requires forall n :: n in counts ==> counts[n] > 0
    requires forall n :: CountOf(counts, n) == LiveNeighbours(done, n)
    ensures forall n :: n in neighborCounts ==> neighborCounts[n] > 0
    ensures forall n :: CountOf(neighborCounts, n) == LiveNeighbours(done, n) + CountUpTo({cell}, n, 9)
  {
    neighborCounts := counts;
    for dx := -1 to 2
      invariant Tallied(neighborCounts, done, cell, (dx + 1) * 3)
    {
      neighborCounts := TallyRow(neighborCounts, done, cell, dx);
    }
  }

  /** The first loop of NextGenerationDirect: neighborCounts maps exactly
      the cells with a live neighbour to their number of live neighbours. */
  method CountNeighbours(current: set<Cell>) returns (neighborCounts: map<Cell, nat>)
    ensures forall n :: n in neighborCounts ==> neighborCounts[n] > 0
    ensures forall n :: CountOf(neighborCounts, n) == LiveNeighbours(current, n)
  {
    neighborCounts := map[];
    var remaining := current;
    ghost var done: set<Cell> := {};
    forall n ensures LiveNeighbours(done, n) == 0 {
      NeighboursUnfolded(done, n);
    }
    while remaining != {}
      invariant done + remaining == current && done !! remaining
      invariant forall n :: n in neighborCounts ==> neighborCounts[n] > 0
      invariant forall n :: CountOf(neighborCounts, n) == LiveNeighbours(done, n)
      decreases remaining
    {
      var cell :| cell in remaining;
      neighborCounts := TallyNeighbours(neighborCounts, done, cell);
      forall n ensures LiveNeighbours(done + {cell}, n) == LiveNeighbours(done, n) + CountUpTo({cell}, n, 9) {
        CountUpToUnion(done, {cell}, n, 9);
      }
      done := done + {cell};
      remaining := remaining - {cell};
    }
  }

  /** NextGenerationDirect: the result is exactly one B3/S23 generation. */
  method NextGenerationDirect(current: set<Cell>) returns (nextGen: set<Cell>)
    ensures nextGen == Step(current)
  {
    var neighborCounts := CountNeighbours(current);

    nextGen := {};
    var keys := neighborCounts.Keys;
    while keys != {}
      invariant keys <= neighborCounts.Keys
      invariant forall n :: n in nextGen <==> n in neighborCounts && n !in keys && Survives(current, n)
      decreases keys
    {
      var cell :| cell in keys;
      var count := neighborCounts[cell];
      if count == 3 || (count == 2 && cell in current) {
        nextGen := nextGen + {cell};
      }
      keys := keys - {cell};
    }

    forall n ensures n in nextGen <==> n in Step(current) {
      StepMembership(current, n);
    }
  }
}
