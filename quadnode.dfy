/**
 * QuadNode: a node of the Hashlife quadtree. Nodes live in an arena indexed
 * by their NodeId, so a reference to a node is its id (0 is the null
 * reference) and reference equality is id equality.
 */
module QuadTree {
  import opened Wrappers
  import opened Life
  import opened Powers

  /** A reference to a node: its NodeId, or Null. */
  type NodeRef = int
  const Null: NodeRef := 0

  /** The fields of a QuadNode. A leaf (level 0) has IsAlive and no children;
      an internal node has four children one level lower and IsAlive false. */
  datatype QuadNode = QuadNode(nodeId: NodeRef, level: nat, isAlive: bool,
                               nw: NodeRef, ne: NodeRef, sw: NodeRef, se: NodeRef)
  {
    predicate IsLeaf() {
      level == 0
    }
  }

  /** Every node ever constructed, by NodeId. */
  type Arena = map<NodeRef, QuadNode>

  ghost predicate WellFormed(nodes: Arena, n: QuadNode) {
    if n.level == 0 then
      n.nw == Null && n.ne == Null && n.sw == Null && n.se == Null
    else
      && !n.isAlive
      && n.nw in nodes && n.ne in nodes && n.sw in nodes && n.se in nodes
      && nodes[n.nw].level == n.level - 1 && nodes[n.ne].level == n.level - 1
      && nodes[n.sw].level == n.level - 1 && nodes[n.se].level == n.level - 1
  }

  /** Membership, spelled as a predicate of its own so that the quantifier of
      ArenaOk is only instantiated where a proof asks for it (Lookup). */
  predicate Stored(nodes: Arena, id: NodeRef) {
    id in nodes
  }

  ghost predicate NodeOk(nodes: Arena, id: NodeRef)
    requires id in nodes
  {
    id != Null && nodes[id].nodeId == id && WellFormed(nodes, nodes[id])
  }

  /** Every stored node sits under its own id, which is never Null, and refers only to stored nodes. */
  ghost predicate ArenaOk(nodes: Arena) {
    forall id {:trigger Stored(nodes, id)} :: Stored(nodes, id) ==> NodeOk(nodes, id)
  }

  lemma Lookup(nodes: Arena, id: NodeRef)
    requires ArenaOk(nodes) && id in nodes
    ensures id != Null && nodes[id].nodeId == id && WellFormed(nodes, nodes[id])
  {
    assert Stored(nodes, id);
  }

  /** A node whose children are stored with the right levels may be added under a fresh id. */
  lemma ArenaAdd(nodes: Arena, n: QuadNode)
    requires ArenaOk(nodes) && n.nodeId !in nodes && n.nodeId != Null && WellFormed(nodes, n)
    ensures ArenaOk(nodes[n.nodeId := n]) && Extends(nodes, nodes[n.nodeId := n])
  {
    var after := nodes[n.nodeId := n];
    forall id | Stored(after, id) ensures NodeOk(after, id) {
      if id != n.nodeId {
        Lookup(nodes, id);
      }
    }
  }

  /** The arena only ever grows: stored nodes never change. */
  ghost predicate Extends(before: Arena, after: Arena) {
    forall id :: id in before ==> id in after && after[id] == before[id]
  }

  /** Growing the arena twice is growing it once. */
  lemma ExtendsTrans(a: Arena, b: Arena, c: Arena)
    requires Extends(a, b) && Extends(b, c)
    ensures Extends(a, c)
  {
  }

  predicate InArena(nodes: Arena, n: QuadNode) {
    n.nodeId in nodes && nodes[n.nodeId] == n
  }

  // ---------------------------------------------------------------------
  // Equality and hashing

  /** The structural content that Equals and GetHashCode look at. */
  datatype NodeKey =
    | LeafKey(alive: bool)
    | InternalKey(level: nat, nw: NodeRef, ne: NodeRef, sw: NodeRef, se: NodeRef)

  function KeyOf(n: QuadNode): NodeKey {
    if n.IsLeaf() then LeafKey(n.isAlive) else InternalKey(n.level, n.nw, n.ne, n.sw, n.se)
  }

  /** QuadNode.Equals: the same reference, or the same level and then equal
      IsAlive for leaves and reference-identical children for internal nodes. */
  function Equals(a: QuadNode, b: QuadNode): (r: bool)
    ensures a == b ==> r
    ensures r && a.nodeId != b.nodeId ==> a.level == b.level && KeyOf(a) == KeyOf(b)
  {
    if a.nodeId == b.nodeId then true
    else if a.level != b.level then false
    else if a.IsLeaf() then a.isAlive == b.isAlive
    else a.nw == b.nw && a.ne == b.ne && a.sw == b.sw && a.se == b.se
  }

  /** QuadNode.GetHashCode, over the two HashCode.Combine overloads it calls,
      which are left as parameters. */
  function GetHashCode(n: QuadNode, combineLeaf: (int, bool) -> int,
                       combineInternal: (int, int, int, int, int) -> int): int
  {
    if n.IsLeaf() then combineLeaf(n.level, n.isAlive)
    else combineInternal(n.level, n.nw, n.ne, n.sw, n.se)
  }

  /** A leaf is exactly a node without children. */
  lemma LeafHasNoChildren(nodes: Arena, n: QuadNode)
    requires ArenaOk(nodes) && InArena(nodes, n)
    ensures n.IsLeaf() <==> n.nw == Null
    ensures n.IsLeaf() ==> n.ne == Null && n.sw == Null && n.se == Null
    ensures !n.IsLeaf() ==> n.ne != Null && n.sw != Null && n.se != Null && !n.isAlive
  {
    Lookup(nodes, n.nodeId);
    if !n.IsLeaf() {
      Lookup(nodes, n.nw);
      Lookup(nodes, n.ne);
      Lookup(nodes, n.sw);
      Lookup(nodes, n.se);
    }
  }

  /** For nodes of one arena, Equals holds exactly when the structural keys agree;
      so a dictionary keyed by QuadNode is a map keyed by NodeKey. */
  lemma EqualsIffSameKey(nodes: Arena, a: QuadNode, b: QuadNode)
    requires ArenaOk(nodes) && InArena(nodes, a) && InArena(nodes, b)
    ensures Equals(a, b) <==> KeyOf(a) == KeyOf(b)
  {
    if a.nodeId == b.nodeId {
      assert a == b;
    }
  }

  /** Equals is an equivalence relation on the nodes of an arena. */
  lemma EqualsIsEquivalence(nodes: Arena, a: QuadNode, b: QuadNode, c: QuadNode)
    requires ArenaOk(nodes) && InArena(nodes, a) && InArena(nodes, b) && InArena(nodes, c)
    ensures Equals(a, a)
    ensures Equals(a, b) ==> Equals(b, a)
    ensures Equals(a, b) && Equals(b, c) ==> Equals(a, c)
  {
    EqualsIffSameKey(nodes, a, b);
    EqualsIffSameKey(nodes, b, a);
    EqualsIffSameKey(nodes, b, c);
    EqualsIffSameKey(nodes, a, c);
  }

  /** Equal nodes hash equally, whatever HashCode.Combine computes. */
  lemma HashConsistentWithEquals(nodes: Arena, a: QuadNode, b: QuadNode,
                                 combineLeaf: (int, bool) -> int,
                                 combineInternal: (int, int, int, int, int) -> int)
    requires ArenaOk(nodes) && InArena(nodes, a) && InArena(nodes, b)
    requires Equals(a, b)
    ensures GetHashCode(a, combineLeaf, combineInternal) == GetHashCode(b, combineLeaf, combineInternal)
  {
    EqualsIffSameKey(nodes, a, b);
  }

  // ---------------------------------------------------------------------
  // Construction

  /** The checks of the internal-node constructor, in C#'s evaluation order:
      reading .Level through a null child raises NullReference, and differing
      levels raise ArgumentException. None means the constructor succeeds. */
  function ConstructorCheck(nodes: Arena, nw: NodeRef, ne: NodeRef, sw: NodeRef, se: NodeRef): (r: Option<Fault>)
    requires nw == Null || nw in nodes
    requires ne == Null || ne in nodes
    requires sw == Null || sw in nodes
    requires se == Null || se in nodes
    ensures r.None? ==> && nw != Null && ne != Null && sw != Null && se != Null
                        && nodes[nw].level == nodes[ne].level == nodes[sw].level == nodes[se].level
    ensures r.Some? ==> r.value == NullReference || r.value == ArgumentError("All quadrants must have the same level")
  {
    if nw == Null || ne == Null then Some(NullReference)
    else if nodes[nw].level != nodes[ne].level then Some(ArgumentError("All quadrants must have the same level"))
    else if sw == Null then Some(NullReference)
    else if nodes[ne].level != nodes[sw].level then Some(ArgumentError("All quadrants must have the same level"))
    else if se == Null then Some(NullReference)
    else if nodes[sw].level != nodes[se].level then Some(ArgumentError("All quadrants must have the same level"))
    else None
  }

  /** The constructor succeeds exactly when all four children exist and share one level. */
  lemma ConstructorCheckPasses(nodes: Arena, nw: NodeRef, ne: NodeRef, sw: NodeRef, se: NodeRef)
    requires ArenaOk(nodes)
    requires nw == Null || nw in nodes
    requires ne == Null || ne in nodes
    requires sw == Null || sw in nodes
    requires se == Null || se in nodes
    ensures ConstructorCheck(nodes, nw, ne, sw, se) == None <==>
      (nw in nodes && ne in nodes && sw in nodes && se in nodes &&
       nodes[nw].level == nodes[ne].level == nodes[sw].level == nodes[se].level)
  {
    if nw in nodes { Lookup(nodes, nw); }
    if ne in nodes { Lookup(nodes, ne); }
    if sw in nodes { Lookup(nodes, sw); }
    if se in nodes { Lookup(nodes, se); }
  }

  /** The nodes constructed so far, and the NodeId counter (_nextNodeId). */
  class NodeArena {
    var nodes: Arena
    var nextNodeId: int

    ghost predicate Valid()
      reads this
    {
      && ArenaOk(nodes)
      && nextNodeId >= 0
      && (forall id {:trigger Stored(nodes, id)} :: Stored(nodes, id) ==> 0 < id <= nextNodeId)
    }

    constructor ()
      ensures Valid() && nodes == map[] && nextNodeId == 0
    {
      nodes := map[];
      nextNodeId := 0;
    }

    /** new QuadNode(isAlive): a leaf with a fresh NodeId. */
    method NewLeaf(isAlive: bool) returns (n: QuadNode)
      requires Valid()
      modifies this
      ensures Valid()
      ensures n.nodeId == old(nextNodeId) + 1 == nextNodeId && n.nodeId !in old(nodes)
      ensures n == QuadNode(n.nodeId, 0, isAlive, Null, Null, Null, Null)
      ensures nodes == old(nodes)[n.nodeId := n]
    {
      assert !Stored(nodes, nextNodeId + 1);
      n := QuadNode(nextNodeId + 1, 0, isAlive, Null, Null, Null, Null);
      Add(n);
    }

    /** new QuadNode(nw, ne, sw, se): an internal node one level above its
        children with a fresh NodeId, or the exception the checks raise. */
    method NewInternal(nw: NodeRef, ne: NodeRef, sw: NodeRef, se: NodeRef) returns (r: Result<QuadNode>)
      requires Valid()
      requires nw == Null || nw in nodes
      requires ne == Null || ne in nodes
      requires sw == Null || sw in nodes
      requires se == Null || se in nodes
      modifies this
      ensures Valid()
      ensures r.Err? <==> ConstructorCheck(old(nodes), nw, ne, sw, se).Some?
      ensures r.Err? ==>
        && r.error == ConstructorCheck(old(nodes), nw, ne, sw, se).value
        && nodes == old(nodes) && nextNodeId == old(nextNodeId)
      ensures r.Ok? ==>
        && r.value.nodeId == old(nextNodeId) + 1 == nextNodeId && r.value.nodeId !in old(nodes)
        && r.value == QuadNode(r.value.nodeId, old(nodes)[nw].level + 1, false, nw, ne, sw, se)
        && nodes == old(nodes)[r.value.nodeId := r.value]
    {
      var check := ConstructorCheck(nodes, nw, ne, sw, se);
      if check.Some? {
        return Err(check.value);
      }
      assert !Stored(nodes, nextNodeId + 1);
      var n := QuadNode(nextNodeId + 1, nodes[nw].level + 1, false, nw, ne, sw, se);
      Add(n);
      r := Ok(n);
    }

    /** Store a well-formed node under the next NodeId. */
    method Add(n: QuadNode)
      requires Valid() && n.nodeId == nextNodeId + 1 && WellFormed(nodes, n)
      modifies this
      ensures Valid() && nextNodeId == old(nextNodeId) + 1 && n.nodeId !in old(nodes)
      ensures nodes == old(nodes)[n.nodeId := n]
    {
      assert !Stored(nodes, n.nodeId);
      ArenaAdd(nodes, n);
      ghost var before := nodes;
      nextNodeId := nextNodeId + 1;
      nodes := nodes[n.nodeId := n];
      forall id | Stored(nodes, id) ensures 0 < id <= nextNodeId {
        if id != n.nodeId {
          assert Stored(before, id);
        }
      }
    }
  }

  // ---------------------------------------------------------------------
  // What a node means: its live cells when its north-west corner is at (x, y)

  /** The live cells of a node placed with its north-west corner at (x, y), x
      growing east and y south: a live leaf is the one cell (x, y), and an
      internal node of level k is its quadrants, NE moved east, SW south and SE
      both ways by 2^(k-1). This is the set ConvertToHashSetRecursive collects. */
  ghost function CellsAt(nodes: Arena, id: NodeRef, x: int, y: int): set<Cell>
    requires id in nodes
    decreases nodes[id].level
  {
    var n := nodes[id];
    if n.level == 0 || !ChildrenBelow(nodes, n) then
      (if n.isAlive then {Cell(x, y)} else {})
    else
      var h := Pow2(n.level - 1);
      CellsAt(nodes, n.nw, x, y) + CellsAt(nodes, n.ne, x + h, y) +
      CellsAt(nodes, n.sw, x, y + h) + CellsAt(nodes, n.se, x + h, y + h)
  }

  /** The children are stored one level lower; WellFormed guarantees this in a valid arena. */
  predicate ChildrenBelow(nodes: Arena, n: QuadNode) {
    && n.nw in nodes && n.ne in nodes && n.sw in nodes && n.se in nodes
    && nodes[n.nw].level < n.level && nodes[n.ne].level < n.level
    && nodes[n.sw].level < n.level && nodes[n.se].level < n.level
  }

  /** The 2^side square with north-west corner (x, y). */
  predicate InSquare(c: Cell, x: int, y: int, side: int) {
    x <= c.x < x + side && y <= c.y < y + side
  }

  /** One unfolding of CellsAt in a valid arena, for a node known by its key. */
  lemma CellsOfKey(nodes: Arena, id: NodeRef, x: int, y: int)
    requires ArenaOk(nodes) && id in nodes
    ensures KeyOf(nodes[id]).LeafKey? ==>
      CellsAt(nodes, id, x, y) == if KeyOf(nodes[id]).alive then {Cell(x, y)} else {}
    ensures KeyOf(nodes[id]).InternalKey? ==>
      var k := KeyOf(nodes[id]);
      var h := Pow2(k.level - 1);
      && k.nw in nodes && k.ne in nodes && k.sw in nodes && k.se in nodes
      && CellsAt(nodes, id, x, y) ==
         CellsAt(nodes, k.nw, x, y) + CellsAt(nodes, k.ne, x + h, y) +
         CellsAt(nodes, k.sw, x, y + h) + CellsAt(nodes, k.se, x + h, y + h)
  {
    Lookup(nodes, id);
  }

  /** A leaf placed at (x, y) is the one cell (x, y) when alive, and nothing otherwise. */
  lemma LeafCells(nodes: Arena, id: NodeRef, x: int, y: int)
    requires id in nodes && nodes[id].level == 0
    ensures CellsAt(nodes, id, x, y) == if nodes[id].isAlive then {Cell(x, y)} else {}
  {
  }

  /** What ExtractGrid leaves in the grid entry for cell c, given the entry
      before (prev): whether c is live in the node placed at (x, y) when c
      lies in its square, else prev. */
  ghost function Written(nodes: Arena, id: NodeRef, x: int, y: int, c: Cell, prev: bool): bool
    requires id in nodes
  {
    if InSquare(c, x, y, Pow2(nodes[id].level)) then c in CellsAt(nodes, id, x, y) else prev
  }

  /** ExtractGrid's four recursive calls write the four quadrants in turn
      (v0 the entry before, v1 to v4 after each call); together they write
      the node's cell into every entry of its square. */
  lemma QuadrantWrites(nodes: Arena, id: NodeRef, x: int, y: int, c: Cell, v0: bool, v1: bool, v2: bool, v3: bool, v4: bool)
    requires ArenaOk(nodes) && id in nodes && nodes[id].level > 0
    requires var n := nodes[id];
      var h := Pow2(n.level - 1);
      && n.nw in nodes && n.ne in nodes && n.sw in nodes && n.se in nodes
      && v1 == Written(nodes, n.nw, x, y, c, v0)
      && v2 == Written(nodes, n.ne, x + h, y, c, v1)
      && v3 == Written(nodes, n.sw, x, y + h, c, v2)
      && v4 == Written(nodes, n.se, x + h, y + h, c, v3)
    ensures v4 == Written(nodes, id, x, y, c, v0)
  {
    Lookup(nodes, id);
    QuadrantCells(nodes, id, x, y, c);
  }

  /** Every live cell of a node lies inside its square. */
  lemma {:induction false} CellsAtInSquare(nodes: Arena, id: NodeRef, x: int, y: int, c: Cell)
    requires ArenaOk(nodes) && id in nodes
    requires c in CellsAt(nodes, id, x, y)
    ensures InSquare(c, x, y, Pow2(nodes[id].level))
    decreases nodes[id].level
  {
    Lookup(nodes, id);
    var n := nodes[id];
    if n.level > 0 {
      var h := Pow2(n.level - 1);
      assert Pow2(n.level) == 2 * h;
      if c in CellsAt(nodes, n.nw, x, y) {
        CellsAtInSquare(nodes, n.nw, x, y, c);
      } else if c in CellsAt(nodes, n.ne, x + h, y) {
        CellsAtInSquare(nodes, n.ne, x + h, y, c);
      } else if c in CellsAt(nodes, n.sw, x, y + h) {
        CellsAtInSquare(nodes, n.sw, x, y + h, c);
      } else {
        CellsAtInSquare(nodes, n.se, x + h, y + h, c);
      }
    }
  }

  /** A square of side 2h is the union of its four quadrants of side h. */
  lemma InSquareQuadrants(c: Cell, x: int, y: int, h: int)
    requires h >= 0
    ensures InSquare(c, x, y, 2 * h) <==>
      InSquare(c, x, y, h) || InSquare(c, x + h, y, h) || InSquare(c, x, y + h, h) || InSquare(c, x + h, y + h, h)
  {
  }

  /** The square of a node is the union of its quadrants' squares, and
      inside a quadrant's square the node's cells are that quadrant's cells. */
  lemma QuadrantCells(nodes: Arena, id: NodeRef, x: int, y: int, c: Cell)
    requires ArenaOk(nodes) && id in nodes && nodes[id].level > 0
    ensures var n := nodes[id];
      var h := Pow2(n.level - 1);
      && n.nw in nodes && n.ne in nodes && n.sw in nodes && n.se in nodes
      && (InSquare(c, x, y, Pow2(n.level)) <==>
          InSquare(c, x, y, h) || InSquare(c, x + h, y, h) || InSquare(c, x, y + h, h) || InSquare(c, x + h, y + h, h))
      && (InSquare(c, x, y, h) ==> (c in CellsAt(nodes, id, x, y) <==> c in CellsAt(nodes, n.nw, x, y)))
      && (InSquare(c, x + h, y, h) ==> (c in CellsAt(nodes, id, x, y) <==> c in CellsAt(nodes, n.ne, x + h, y)))
      && (InSquare(c, x, y + h, h) ==> (c in CellsAt(nodes, id, x, y) <==> c in CellsAt(nodes, n.sw, x, y + h)))
      && (InSquare(c, x + h, y + h, h) ==> (c in CellsAt(nodes, id, x, y) <==> c in CellsAt(nodes, n.se, x + h, y + h)))
  {
    Lookup(nodes, id);
    var n := nodes[id];
    var h := Pow2(n.level - 1);
    assert Pow2(n.level) == 2 * h;
    InSquareQuadrants(c, x, y, h);
    if c in CellsAt(nodes, n.nw, x, y) {
      CellsAtInSquare(nodes, n.nw, x, y, c);
    }
    if c in CellsAt(nodes, n.ne, x + h, y) {
      CellsAtInSquare(nodes, n.ne, x + h, y, c);
    }
    if c in CellsAt(nodes, n.sw, x, y + h) {
      CellsAtInSquare(nodes, n.sw, x, y + h, c);
    }
    if c in CellsAt(nodes, n.se, x + h, y + h) {
      CellsAtInSquare(nodes, n.se, x + h, y + h, c);
    }
  }

  /** A node placed at (x, y) holds cell c exactly when the same node placed
      at (u, v) holds the cell c' at the same place relative to the corner. */
  lemma {:induction false} CellsAtRelative(nodes: Arena, id: NodeRef, x: int, y: int, c: Cell, u: int, v: int, c': Cell)
    requires ArenaOk(nodes) && id in nodes
    requires c.x - x == c'.x - u && c.y - y == c'.y - v
    ensures c in CellsAt(nodes, id, x, y) <==> c' in CellsAt(nodes, id, u, v)
    decreases nodes[id].level
  {
    Lookup(nodes, id);
    var n := nodes[id];
    if n.level > 0 {
      var h := Pow2(n.level - 1);
      CellsAtRelative(nodes, n.nw, x, y, c, u, v, c');
      CellsAtRelative(nodes, n.ne, x + h, y, c, u + h, v, c');
      CellsAtRelative(nodes, n.sw, x, y + h, c, u, v + h, c');
      CellsAtRelative(nodes, n.se, x + h, y + h, c, u + h, v + h, c');
    } else {
      LeafCells(nodes, id, x, y);
      LeafCells(nodes, id, u, v);
      assert c == Cell(x, y) <==> c' == Cell(u, v);
    }
  }

  /** Adding nodes to the arena does not change what the existing ones mean. */
  lemma {:induction false} CellsAtStable(before: Arena, after: Arena, id: NodeRef, x: int, y: int)
    requires ArenaOk(before) && ArenaOk(after) && Extends(before, after) && id in before
    ensures CellsAt(after, id, x, y) == CellsAt(before, id, x, y)
    decreases before[id].level
  {
    Lookup(before, id);
    Lookup(after, id);
    var n := before[id];
    if n.level > 0 {
      var h := Pow2(n.level - 1);
      CellsAtStable(before, after, n.nw, x, y);
      CellsAtStable(before, after, n.ne, x + h, y);
      CellsAtStable(before, after, n.sw, x, y + h);
      CellsAtStable(before, after, n.se, x + h, y + h);
    }
  }

  /** Nodes with the same key (the nodes Equals identifies) are as large and hold the same cells. */
  lemma SameKeySameCells(nodes: Arena, a: NodeRef, b: NodeRef, x: int, y: int)
    requires ArenaOk(nodes) && a in nodes && b in nodes
    requires KeyOf(nodes[a]) == KeyOf(nodes[b])
    ensures nodes[a].level == nodes[b].level
    ensures CellsAt(nodes, a, x, y) == CellsAt(nodes, b, x, y)
  {
    Lookup(nodes, a);
    Lookup(nodes, b);
    var n, m := nodes[a], nodes[b];
    if n.level > 0 {
      assert n.level == m.level && n.nw == m.nw && n.ne == m.ne && n.sw == m.sw && n.se == m.se;
    }
  }

  // ---------------------------------------------------------------------
  // Emptiness

  /** IsEmpty: the shared dead leaf, a dead leaf, or four empty quadrants. */
  function IsEmptyNode(nodes: Arena, deadNode: NodeRef, id: NodeRef): bool
    requires ArenaOk(nodes) && id in nodes
    decreases nodes[id].level
  {
    Lookup(nodes, id);
    if id == deadNode then true
    else if nodes[id].IsLeaf() then !nodes[id].isAlive
    else
      var n := nodes[id];
      IsEmptyNode(nodes, deadNode, n.nw) && IsEmptyNode(nodes, deadNode, n.ne) &&
      IsEmptyNode(nodes, deadNode, n.sw) && IsEmptyNode(nodes, deadNode, n.se)
  }

  /** The four quadrants of node id are stored and empty. */
  ghost predicate QuadrantsAllEmpty(nodes: Arena, deadNode: NodeRef, id: NodeRef)
    requires ArenaOk(nodes) && id in nodes
  {
    var n := nodes[id];
    && n.nw in nodes && n.ne in nodes && n.sw in nodes && n.se in nodes
    && IsEmptyNode(nodes, deadNode, n.nw) && IsEmptyNode(nodes, deadNode, n.ne)
    && IsEmptyNode(nodes, deadNode, n.sw) && IsEmptyNode(nodes, deadNode, n.se)
  }

  /** The quadrants of an empty internal node other than the shared dead leaf are empty. */
  lemma QuadrantsEmpty(nodes: Arena, deadNode: NodeRef, id: NodeRef)
    requires ArenaOk(nodes) && id in nodes && nodes[id].level >= 1 && id != deadNode
    requires IsEmptyNode(nodes, deadNode, id)
    ensures QuadrantsAllEmpty(nodes, deadNode, id)
  {
    Lookup(nodes, id);
  }

  /** In an empty node of level >= 2 the quadrants and the quadrants' own
      quadrants are empty, the dead leaf being the only empty leaf-level shortcut. */
  lemma GrandchildrenEmpty(nodes: Arena, deadNode: NodeRef, id: NodeRef)
    requires ArenaOk(nodes) && id in nodes && nodes[id].level >= 2
    requires deadNode in nodes ==> nodes[deadNode].level == 0
    requires IsEmptyNode(nodes, deadNode, id)
    ensures QuadrantsAllEmpty(nodes, deadNode, id)
    ensures var n := nodes[id];
      && QuadrantsAllEmpty(nodes, deadNode, n.nw) && QuadrantsAllEmpty(nodes, deadNode, n.ne)
      && QuadrantsAllEmpty(nodes, deadNode, n.sw) && QuadrantsAllEmpty(nodes, deadNode, n.se)
  {
    Lookup(nodes, id);
    var n := nodes[id];
    QuadrantsEmpty(nodes, deadNode, id);
    QuadrantsEmpty(nodes, deadNode, n.nw);
    QuadrantsEmpty(nodes, deadNode, n.ne);
    QuadrantsEmpty(nodes, deadNode, n.sw);
    QuadrantsEmpty(nodes, deadNode, n.se);
  }

  /** Four sets have an empty union exactly when all four are empty. */
  lemma UnionEmpty(a: set<Cell>, b: set<Cell>, c: set<Cell>, d: set<Cell>)
    ensures a + b + c + d == {} <==> a == {} && b == {} && c == {} && d == {}
  {
    if a != {} {
      var e :| e in a;
      assert e in a + b + c + d;
    } else if b != {} {
      var e :| e in b;
      assert e in a + b + c + d;
    } else if c != {} {
      var e :| e in c;
      assert e in a + b + c + d;
    } else if d != {} {
      var e :| e in d;
      assert e in a + b + c + d;
    }
  }

  /** IsEmpty holds exactly of the nodes without live cells, wherever they are placed. */
  lemma {:induction false} IsEmptyIffNoCells(nodes: Arena, deadNode: NodeRef, id: NodeRef, x: int, y: int)
    requires ArenaOk(nodes) && id in nodes
    requires deadNode in nodes ==> nodes[deadNode].level == 0 && !nodes[deadNode].isAlive
    ensures IsEmptyNode(nodes, deadNode, id) <==> CellsAt(nodes, id, x, y) == {}
    decreases nodes[id].level
  {
    Lookup(nodes, id);
    var n := nodes[id];
    if n.level > 0 {
      var h := Pow2(n.level - 1);
      var a, b, c, d := CellsAt(nodes, n.nw, x, y), CellsAt(nodes, n.ne, x + h, y),
                        CellsAt(nodes, n.sw, x, y + h), CellsAt(nodes, n.se, x + h, y + h);
      assert CellsAt(nodes, id, x, y) == a + b + c + d;
      assert IsEmptyNode(nodes, deadNode, id) ==
        (IsEmptyNode(nodes, deadNode, n.nw) && IsEmptyNode(nodes, deadNode, n.ne) &&
         IsEmptyNode(nodes, deadNode, n.sw) && IsEmptyNode(nodes, deadNode, n.se));
      IsEmptyIffNoCells(nodes, deadNode, n.nw, x, y);
      IsEmptyIffNoCells(nodes, deadNode, n.ne, x + h, y);
      IsEmptyIffNoCells(nodes, deadNode, n.sw, x, y + h);
      IsEmptyIffNoCells(nodes, deadNode, n.se, x + h, y + h);
      UnionEmpty(a, b, c, d);
    }
  }

  /** Adding nodes to the arena does not change which existing nodes are empty. */
  lemma {:induction false} IsEmptyStable(before: Arena, after: Arena, deadNode: NodeRef, id: NodeRef)
    requires ArenaOk(before) && ArenaOk(after) && Extends(before, after) && id in before
    ensures IsEmptyNode(after, deadNode, id) == IsEmptyNode(before, deadNode, id)
    decreases before[id].level
  {
    Lookup(before, id);
    var n := before[id];
    if n.level > 0 && id != deadNode {
      IsEmptyStable(before, after, deadNode, n.nw);
      IsEmptyStable(before, after, deadNode, n.ne);
      IsEmptyStable(before, after, deadNode, n.sw);
      IsEmptyStable(before, after, deadNode, n.se);
    }
  }
}
