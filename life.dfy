/**
 * The reference semantics of Conway's Game of Life (rule B3/S23) on an
 * unbounded board given as the finite set of its live cells.
 */
module Life {

  datatype Cell = Cell(x: int, y: int)

  /** The offset with index k = (dx + 1) * 3 + (dy + 1), for dx, dy in -1..1.
      Index 4 is the zero offset; the other eight reach the eight neighbours.
      The order is the order of the nested dx/dy loops of the direct simulator. */
  function Offset(k: nat): Cell
    requires k < 9
  {
    Cell(k / 3 - 1, k % 3 - 1)
  }

  function Shift(c: Cell, d: Cell): Cell {
    Cell(c.x + d.x, c.y + d.y)
  }

  /** The board s moved by (dx, dy). */
  function Translate(s: set<Cell>, dx: int, dy: int): set<Cell> {
    set c | c in s :: Cell(c.x + dx, c.y + dy)
  }

  lemma TranslateMember(s: set<Cell>, dx: int, dy: int, c: Cell)
    ensures c in Translate(s, dx, dy) <==> Cell(c.x - dx, c.y - dy) in s
  {
    if Cell(c.x - dx, c.y - dy) in s {
      assert c == Cell(Cell(c.x - dx, c.y - dy).x + dx, Cell(c.x - dx, c.y - dy).y + dy);
    }
  }

  lemma TranslateEmpty(s: set<Cell>, dx: int, dy: int)
    ensures Translate(s, dx, dy) == {} <==> s == {}
  {
    if s != {} {
      var c :| c in s;
      assert Cell(c.x + dx, c.y + dy) in Translate(s, dx, dy);
    }
  }

  lemma TranslateSmall(c: Cell, dx: int, dy: int)
    ensures Translate({c}, dx, dy) == {Cell(c.x + dx, c.y + dy)}
    ensures Translate({}, dx, dy) == {}
  {
    TranslateMember({c}, dx, dy, Cell(c.x + dx, c.y + dy));
  }

  lemma TranslateUnion(a: set<Cell>, b: set<Cell>, c: set<Cell>, d: set<Cell>, dx: int, dy: int)
    ensures Translate(a + b + c + d, dx, dy) ==
      Translate(a, dx, dy) + Translate(b, dx, dy) + Translate(c, dx, dy) + Translate(d, dx, dy)
  {
  }

  /** The cell from which offset k reaches n. */
  function Around(n: Cell, k: nat): Cell
    requires k < 9
  {
    Cell(n.x - Offset(k).x, n.y - Offset(k).y)
  }

  /** How many of the offsets 0 .. k-1 other than the zero offset lead from a
      live cell of s to n. */
  function CountUpTo(s: set<Cell>, n: Cell, k: nat): nat
    requires k <= 9
  {
    if k == 0 then 0
    else CountUpTo(s, n, k - 1) + (if k - 1 != 4 && Around(n, k - 1) in s then 1 else 0)
  }

  /** The number of live cells among the eight neighbours of n. */
  function LiveNeighbours(s: set<Cell>, n: Cell): nat {
    CountUpTo(s, n, 9)
  }

  /** A cell is live in the next generation iff it has exactly three live
      neighbours, or exactly two and is live now. */
  predicate Survives(s: set<Cell>, n: Cell) {
    var count := LiveNeighbours(s, n);
    count == 3 || (count == 2 && n in s)
  }

  /** Every cell that is a neighbour of some live cell. */
  function Candidates(s: set<Cell>): set<Cell> {
    set c, k | c in s && 0 <= k < 9 && k != 4 :: Shift(c, Offset(k))
  }

  /** One generation of B3/S23. */
  function Step(s: set<Cell>): set<Cell> {
    set n | n in Candidates(s) && Survives(s, n)
  }

  /** n generations of B3/S23. */
  function Iterate(s: set<Cell>, n: nat): set<Cell> {
    if n == 0 then s else Step(Iterate(s, n - 1))
  }

  // ---------------------------------------------------------------------
  // Neighbour counts

  lemma {:induction false} CountUpToBound(s: set<Cell>, n: Cell, k: nat)
    requires k <= 9
    ensures CountUpTo(s, n, k) <= (if k <= 4 then k else k - 1)
  {
    if k > 0 {
      CountUpToBound(s, n, k - 1);
    }
  }

  /** A cell never has more than eight live neighbours. */
  lemma LiveNeighboursBound(s: set<Cell>, n: Cell)
    ensures 0 <= LiveNeighbours(s, n) <= 8
  {
    CountUpToBound(s, n, 9);
  }

  /** A positive count names a live neighbour. */
  lemma {:induction false} CountUpToWitness(s: set<Cell>, n: Cell, k: nat)
    requires k <= 9
    requires CountUpTo(s, n, k) > 0
    ensures exists j :: 0 <= j < k && j != 4 && Around(n, j) in s
  {
    if !(k - 1 != 4 && Around(n, k - 1) in s) {
      CountUpToWitness(s, n, k - 1);
    }
  }

  /** Counting over a disjoint union adds the counts. */
  lemma {:induction false} CountUpToUnion(a: set<Cell>, b: set<Cell>, n: Cell, k: nat)
    requires k <= 9
    requires a !! b
    ensures CountUpTo(a + b, n, k) == CountUpTo(a, n, k) + CountUpTo(b, n, k)
  {
    if k > 0 {
      CountUpToUnion(a, b, n, k - 1);
    }
  }

  /** The eight terms of the neighbour count, written out. */
  lemma NeighboursUnfolded(s: set<Cell>, n: Cell)
    ensures LiveNeighbours(s, n) ==
      (if Cell(n.x + 1, n.y + 1) in s then 1 else 0) + (if Cell(n.x + 1, n.y) in s then 1 else 0) +
      (if Cell(n.x + 1, n.y - 1) in s then 1 else 0) + (if Cell(n.x, n.y + 1) in s then 1 else 0) +
      (if Cell(n.x, n.y - 1) in s then 1 else 0) + (if Cell(n.x - 1, n.y + 1) in s then 1 else 0) +
      (if Cell(n.x - 1, n.y) in s then 1 else 0) + (if Cell(n.x - 1, n.y - 1) in s then 1 else 0)
  {
    assert CountUpTo(s, n, 9) == CountUpTo(s, n, 8) + (if Around(n, 8) in s then 1 else 0);
    assert CountUpTo(s, n, 8) == CountUpTo(s, n, 7) + (if Around(n, 7) in s then 1 else 0);
    assert CountUpTo(s, n, 7) == CountUpTo(s, n, 6) + (if Around(n, 6) in s then 1 else 0);
    assert CountUpTo(s, n, 6) == CountUpTo(s, n, 5) + (if Around(n, 5) in s then 1 else 0);
    assert CountUpTo(s, n, 5) == CountUpTo(s, n, 4);
    assert CountUpTo(s, n, 4) == CountUpTo(s, n, 3) + (if Around(n, 3) in s then 1 else 0);
    assert CountUpTo(s, n, 3) == CountUpTo(s, n, 2) + (if Around(n, 2) in s then 1 else 0);
    assert CountUpTo(s, n, 2) == CountUpTo(s, n, 1) + (if Around(n, 1) in s then 1 else 0);
    assert CountUpTo(s, n, 1) == (if Around(n, 0) in s then 1 else 0);
  }

  // ---------------------------------------------------------------------
  // The step rule

  /** The rule of NextGenerationDirect: n is live after one step iff its live
      neighbour count is 3, or 2 and n is live now. */
  lemma StepMembership(s: set<Cell>, n: Cell)
    ensures n in Step(s) <==> Survives(s, n)
  {
    if Survives(s, n) {
      CountUpToWitness(s, n, 9);
      var j :| 0 <= j < 9 && j != 4 && Around(n, j) in s;
      assert n == Shift(Around(n, j), Offset(j));
      assert n in Candidates(s);
    }
  }

  /** The empty board stays empty. */
  lemma {:induction false} IterateEmpty(n: nat)
    ensures Iterate({}, n) == {}
  {
    if n > 0 {
      IterateEmpty(n - 1);
      assert Candidates({}) == {};
    }
  }

  // ---------------------------------------------------------------------
  // Iteration and periods

  lemma {:induction false} IterateAdd(s: set<Cell>, a: nat, b: nat)
    ensures Iterate(s, a + b) == Iterate(Iterate(s, a), b)
  {
    if b > 0 {
      IterateAdd(s, a, b - 1);
    }
  }

  /** Once generation q repeats after period steps, every generation from q
      on repeats after period steps as well. */
  lemma RepeatShift(s: set<Cell>, q: nat, period: nat, j: nat)
    requires Iterate(s, q) == Iterate(s, q + period)
    ensures Iterate(s, q + period + j) == Iterate(s, q + j)
  {
    IterateAdd(s, q + period, j);
    IterateAdd(s, q, j);
  }

  /** Adding one period does not change the remainder modulo the period. */
  lemma ModAfterPeriod(x: nat, period: nat)
    requires period > 0
    ensures (x + period) % period == x % period
  {
    var k, r := x / period, x % period;
    assert x + period == (k + 1) * period + r;
    RemainderUnique(x + period, period, k + 1, r);
  }

  /** A remainder in [0, d) that leaves a multiple of d is the remainder. */
  lemma RemainderUnique(x: int, d: int, k: int, r: int)
    requires d > 0 && 0 <= r < d && x == k * d + r
    ensures x % d == r
  {
    var diff := k - x / d;
    assert diff * d == x % d - r;
  }

  /** Once generation q repeats after period steps, every generation t from
      q on equals generation q + (t - q) mod period. */
  lemma {:induction false} RepeatFrom(s: set<Cell>, q: nat, period: nat, t: nat)
    requires period > 0 && q <= t
    requires Iterate(s, q) == Iterate(s, q + period)
    ensures Iterate(s, t) == Iterate(s, q + (t - q) % period)
    decreases t
  {
    if t - q >= period {
      var earlier := t - period;
      RepeatFrom(s, q, period, earlier);
      RepeatShift(s, q, period, earlier - q);
      assert q + period + (earlier - q) == t;
      ModAfterPeriod(earlier - q, period);
    } else {
      assert (t - q) % period == t - q;
    }
  }

  /** If generation q repeats generation p (p < q), then every later
      generation t equals generation q + (t - q) mod (q - p): stepping the
      remainder from q reaches the same board as simulating in full. */
  lemma PeriodFastForward(s: set<Cell>, p: nat, q: nat, t: nat)
    requires p < q <= t
    requires Iterate(s, p) == Iterate(s, q)
    ensures Iterate(s, t) == Iterate(s, q + (t - q) % (q - p))
  {
    var period := q - p;
    RepeatShift(s, p, period, period);
    RepeatFrom(s, q, period, t);
  }
}
