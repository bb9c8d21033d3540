/**
 * What the driver looks at before it builds a quadtree: the bounding box of
 * the live cells, the density test that sends a board to the direct
 * simulator, the move to non-negative coordinates, and the padded square the
 * quadtree covers.
 */
module Board {
  import opened Life
  import opened QuadTree

  // ---------------------------------------------------------------------
  // Enumerable.Min / Enumerable.Max over the live cells

  datatype Axis = X | Y

  function Along(c: Cell, a: Axis): int {
    if a == X then c.x else c.y
  }

  predicate Lowest(m: Cell, s: set<Cell>, a: Axis) {
    m in s && forall c :: c in s ==> Along(m, a) <= Along(c, a)
  }

  predicate Highest(m: Cell, s: set<Cell>, a: Axis) {
    m in s && forall c :: c in s ==> Along(c, a) <= Along(m, a)
  }

  lemma {:induction false} ExtremesExist(s: set<Cell>, a: Axis)
    requires s != {}
    ensures exists m :: Lowest(m, s, a)
    ensures exists m :: Highest(m, s, a)
    decreases |s|
  {
    var c :| c in s;
    if s != {c} {
      ExtremesExist(s - {c}, a);
      var lo :| Lowest(lo, s - {c}, a);
      var hi :| Highest(hi, s - {c}, a);
      if Along(lo, a) <= Along(c, a) {
        assert Lowest(lo, s, a);
      } else {
        assert Lowest(c, s, a);
      }
      if Along(c, a) <= Along(hi, a) {
        assert Highest(hi, s, a);
      } else {
        assert Highest(c, s, a);
      }
    } else {
      assert Lowest(c, s, a) && Highest(c, s, a);
    }
  }

  /** The least coordinate along an axis: a value some live cell has and none is below. */
  function Least(s: set<Cell>, a: Axis): (m: int)
    requires s != {}
    ensures forall c :: c in s ==> m <= Along(c, a)
    ensures exists c :: c in s && Along(c, a) == m
  {
    ExtremesExist(s, a);
    var c :| Lowest(c, s, a);
    Along(c, a)
  }

  /** The greatest coordinate along an axis: a value some live cell has and none is above. */
  function Greatest(s: set<Cell>, a: Axis): (m: int)
    requires s != {}
    ensures forall c :: c in s ==> Along(c, a) <= m
    ensures exists c :: c in s && Along(c, a) == m
  {
    ExtremesExist(s, a);
    var c :| Highest(c, s, a);
    Along(c, a)
  }

  /** liveCells.Min(c => c.X): the least x of a live cell. */
  function MinX(s: set<Cell>): (m: int)
    requires s != {}
    ensures forall c :: c in s ==> m <= c.x
    ensures exists c :: c in s && c.x == m
  {
    Least(s, X)
  }

  /** liveCells.Max(c => c.X): the greatest x of a live cell. */
  function MaxX(s: set<Cell>): (m: int)
    requires s != {}
    ensures forall c :: c in s ==> c.x <= m
    ensures exists c :: c in s && c.x == m
  {
    Greatest(s, X)
  }

  /** liveCells.Min(c => c.Y): the least y of a live cell. */
  function MinY(s: set<Cell>): (m: int)
    requires s != {}
    ensures forall c :: c in s ==> m <= c.y
    ensures exists c :: c in s && c.y == m
  {
    Least(s, Y)
  }

  /** liveCells.Max(c => c.Y): the greatest y of a live cell. */
  function MaxY(s: set<Cell>): (m: int)
    requires s != {}
    ensures forall c :: c in s ==> c.y <= m
    ensures exists c :: c in s && c.y == m
  {
    Greatest(s, Y)
  }

  // ---------------------------------------------------------------------
  // ShouldUseDirect

  function Abs(v: int): int {
    if v < 0 then -v else v
  }

  /** Width times height of the bounding box. */
  function Area(s: set<Cell>): int
    requires s != {}
  {
    (MaxX(s) - MinX(s) + 1) * (MaxY(s) - MinY(s) + 1)
  }

  /** Every live cell has both coordinates in -10000 .. 10000. */
  predicate InRange(s: set<Cell>) {
    forall c :: c in s ==> -10000 <= c.x <= 10000 && -10000 <= c.y <= 10000
  }

  /** ShouldUseDirect: an empty board, a board that fills less than a tenth of
      its bounding box, or one with a bounding-box edge beyond 10000 in
      absolute value. */
  function ShouldUseDirect(s: set<Cell>): (r: bool)
    ensures s == {} ==> r
    ensures !r ==> forall c :: c in s ==> -10000 <= c.x <= 10000 && -10000 <= c.y <= 10000
  {
    if |s| == 0 then true
    else
      var minX, maxX, minY, maxY := MinX(s), MaxX(s), MinY(s), MaxY(s);
      var width := maxX - minX + 1;
      var height := maxY - minY + 1;
      var area := width * height;
      (|s| * 10 < area) ||
      (Abs(minX) > 10000 || Abs(maxX) > 10000 || Abs(minY) > 10000 || Abs(maxY) > 10000)
  }

  /** The direct simulator is chosen exactly for the empty board, a board with a
      cell out of range, or a sparse board; so the quadtree path only ever sees
      non-empty boards within range. */
  lemma ShouldUseDirectIff(s: set<Cell>)
    ensures ShouldUseDirect(s) <==> s == {} || !InRange(s) || |s| * 10 < Area(s)
  {
    if s != {} {
      var a :| a in s && a.x == MinX(s);
      var b :| b in s && b.x == MaxX(s);
      var c :| c in s && c.y == MinY(s);
      var d :| d in s && d.y == MaxY(s);
      if !InRange(s) {
        var e :| e in s && !(-10000 <= e.x <= 10000 && -10000 <= e.y <= 10000);
        assert MinX(s) <= e.x <= MaxX(s) && MinY(s) <= e.y <= MaxY(s);
      }
    }
  }

  // ---------------------------------------------------------------------
  // NormalizeCells

  /** NormalizeCells: the board moved so that its least x and least y are 0. */
  function NormalizeCells(s: set<Cell>): (r: set<Cell>)
    ensures r == {} <==> s == {}
  {
    if |s| == 0 then s
    else
      TranslateEmpty(s, -MinX(s), -MinY(s));
      Translate(s, -MinX(s), -MinY(s))
  }

  function Offset(a: Axis, dx: int, dy: int): int {
    if a == X then dx else dy
  }

  lemma LeastTranslate(s: set<Cell>, dx: int, dy: int, a: Axis)
    requires s != {} && Translate(s, dx, dy) != {}
    ensures Least(Translate(s, dx, dy), a) == Least(s, a) + Offset(a, dx, dy)
  {
    var t := Translate(s, dx, dy);
    var lo :| lo in s && Along(lo, a) == Least(s, a);
    var moved := Cell(lo.x + dx, lo.y + dy);
    TranslateMember(s, dx, dy, moved);
    assert Least(t, a) <= Along(moved, a);
    var tlo :| tlo in t && Along(tlo, a) == Least(t, a);
    TranslateMember(s, dx, dy, tlo);
    assert Least(s, a) <= Along(Cell(tlo.x - dx, tlo.y - dy), a);
  }

  lemma GreatestTranslate(s: set<Cell>, dx: int, dy: int, a: Axis)
    requires s != {} && Translate(s, dx, dy) != {}
    ensures Greatest(Translate(s, dx, dy), a) == Greatest(s, a) + Offset(a, dx, dy)
  {
    var t := Translate(s, dx, dy);
    var hi :| hi in s && Along(hi, a) == Greatest(s, a);
    var moved := Cell(hi.x + dx, hi.y + dy);
    TranslateMember(s, dx, dy, moved);
    assert Along(moved, a) <= Greatest(t, a);
    var thi :| thi in t && Along(thi, a) == Greatest(t, a);
    TranslateMember(s, dx, dy, thi);
    assert Along(Cell(thi.x - dx, thi.y - dy), a) <= Greatest(s, a);
  }

  /** Moving a board moves its bounding box. */
  lemma BoxTranslate(s: set<Cell>, dx: int, dy: int)
    requires s != {}
    ensures Translate(s, dx, dy) != {}
    ensures MinX(Translate(s, dx, dy)) == MinX(s) + dx && MaxX(Translate(s, dx, dy)) == MaxX(s) + dx
    ensures MinY(Translate(s, dx, dy)) == MinY(s) + dy && MaxY(Translate(s, dx, dy)) == MaxY(s) + dy
  {
    TranslateEmpty(s, dx, dy);
    LeastTranslate(s, dx, dy, X);
    LeastTranslate(s, dx, dy, Y);
    GreatestTranslate(s, dx, dy, X);
    GreatestTranslate(s, dx, dy, Y);
  }

  /** A normalized non-empty board has its bounding box at the origin, of the
      same width and height. */
  lemma NormalizeBox(s: set<Cell>)
    requires s != {}
    ensures NormalizeCells(s) != {}
    ensures MinX(NormalizeCells(s)) == 0 && MinY(NormalizeCells(s)) == 0
    ensures MaxX(NormalizeCells(s)) == MaxX(s) - MinX(s) && MaxY(NormalizeCells(s)) == MaxY(s) - MinY(s)
  {
    assert |s| != 0;
    var dx, dy := -MinX(s), -MinY(s);
    assert NormalizeCells(s) == Translate(s, dx, dy);
    BoxTranslate(s, dx, dy);
  }

  /** Normalizing twice is normalizing once. */
  lemma NormalizeIdempotent(s: set<Cell>)
    ensures NormalizeCells(NormalizeCells(s)) == NormalizeCells(s)
  {
    if s != {} {
      NormalizeBox(s);
      var n := NormalizeCells(s);
      forall c ensures c in Translate(n, 0, 0) <==> c in n {
        TranslateMember(n, 0, 0, c);
      }
    }
  }

  /** A board within range normalizes into 0 .. 20000 on both axes. */
  lemma NormalizeInRange(s: set<Cell>)
    requires InRange(s)
    ensures forall c :: c in NormalizeCells(s) ==> 0 <= c.x <= 20000 && 0 <= c.y <= 20000
  {
    if s != {} {
      NormalizeBox(s);
      var a :| a in s && a.x == MinX(s);
      var b :| b in s && b.x == MaxX(s);
      var c :| c in s && c.y == MinY(s);
      var d :| d in s && d.y == MaxY(s);
      var n := NormalizeCells(s);
      forall e | e in n ensures 0 <= e.x <= 20000 && 0 <= e.y <= 20000 {
        assert MinX(n) <= e.x <= MaxX(n) && MinY(n) <= e.y <= MaxY(n);
      }
    }
  }

  // ---------------------------------------------------------------------
  // The padded square of ConvertToQuadNodeWithPadding

  function Max(a: int, b: int): int {
    if a >= b then a else b
  }

  function Min(a: int, b: int): int {
    if a <= b then a else b
  }

  /** maxDimension: the larger of the bounding box's width and height. */
  function Extent(s: set<Cell>): (extent: int)
    requires s != {}
    ensures extent >= 1
  {
    Max(MaxX(s) - MinX(s) + 1, MaxY(s) - MinY(s) + 1)
  }

  /** A board within 10000 of the origin spans at most 20001 cells. */
  lemma ExtentInRange(s: set<Cell>)
    requires s != {} && InRange(s)
    ensures Extent(s) <= 20001
  {
    var a :| a in s && a.x == MinX(s);
    var b :| b in s && b.x == MaxX(s);
    var c :| c in s && c.y == MinY(s);
    var d :| d in s && d.y == MaxY(s);
  }

  /** Normalizing keeps the extent. */
  lemma NormalizeExtent(s: set<Cell>)
    requires s != {}
    ensures NormalizeCells(s) != {} && Extent(NormalizeCells(s)) == Extent(s)
  {
    NormalizeBox(s);
  }

  /** padding: generations + 4 or a quarter of maxDimension, whichever is more,
      but never more than 1000. */
  function Padding(s: set<Cell>, generations: int): (r: int)
    requires s != {}
    ensures r <= 1000 && (r == 1000 || r >= generations + 4)
  {
    Min(Max(generations + 4, Extent(s) / 4), 1000)
  }

  /** The padding is at most 1000, and at least 4 for a non-negative count. */
  lemma PaddingBounds(s: set<Cell>, generations: int)
    requires s != {} && generations >= 0
    ensures 4 <= Padding(s, generations) <= 1000
  {
  }

  /** The live cells of s inside the square with north-west corner (x, y). */
  ghost function Square(s: set<Cell>, x: int, y: int, side: int): set<Cell> {
    set c | c in s && InSquare(c, x, y, side)
  }

  /** A square of side 2h is its four quadrants of side h. */
  lemma SquareQuadrants(s: set<Cell>, x: int, y: int, h: int, c: Cell)
    ensures c in Square(s, x, y, 2 * h) <==>
      c in Square(s, x, y, h) || c in Square(s, x + h, y, h) ||
      c in Square(s, x, y + h, h) || c in Square(s, x + h, y + h, h)
  {
  }

  /** A square whose side covers the extent plus the padding on both sides,
      placed at the bounding box less the padding, holds the whole board. */
  lemma PaddedSquareCovers(s: set<Cell>, pad: int, x: int, y: int, side: int)
    requires s != {} && pad >= 0 && x == MinX(s) - pad && y == MinY(s) - pad && Extent(s) + 2 * pad <= side
    ensures Square(s, x, y, side) == s
  {
    forall c | c in s ensures InSquare(c, x, y, side) {
      assert MinX(s) <= c.x <= MaxX(s) && MinY(s) <= c.y <= MaxY(s);
    }
  }
}
