/**
 * The value view of a QuadTree node: its bound, its stored node and its four
 * optional children, with insert and search as functions. The class in
 * QuadTrees keeps one of these as its abstract state.
 */
module QuadSpec {
  import opened Outcomes
  import opened Geometry

  /**
   * A corner of a node's bound. Children's corners are obtained by halving,
   * so they are dyadic rationals; they are held exactly.
   */
  datatype Corner = Corner(x: real, y: real)

  /** What the tree stores: a position with its tile colour. */
  datatype Node = Node(pos: Point, data: int)

  datatype Quadrant = TopLeft | TopRight | BotLeft | BotRight

  /** inBoundary: p lies in the closed box from topLeft to botRight. */
  predicate InBox(topLeft: Corner, botRight: Corner, p: Point)
  {
    && p.x as real >= topLeft.x && p.x as real <= botRight.x
    && p.y as real >= topLeft.y && p.y as real <= botRight.y
  }

  function RealAbs(r: real): real
  {
    if r < 0.0 then -r else r
  }

  /** A bound of width and height at most 1, which is never subdivided. */
  predicate IsUnitBox(topLeft: Corner, botRight: Corner)
  {
    RealAbs(topLeft.x - botRight.x) <= 1.0 && RealAbs(topLeft.y - botRight.y) <= 1.0
  }

  function Mid(topLeft: Corner, botRight: Corner): (m: Corner)
    ensures topLeft.x <= botRight.x ==> topLeft.x <= m.x <= botRight.x
    ensures topLeft.y <= botRight.y ==> topLeft.y <= m.y <= botRight.y
  {
    Corner((topLeft.x + botRight.x) / 2.0, (topLeft.y + botRight.y) / 2.0)
  }

  /**
   * The quadrant a position descends into, by comparison with the midpoint;
   * a position on a midpoint line goes to the top or left side.
   */
  function Which(topLeft: Corner, botRight: Corner, p: Point): Quadrant
  {
    var m := Mid(topLeft, botRight);
    if m.x >= p.x as real then
      if m.y >= p.y as real then TopLeft else BotLeft
    else
      if m.y >= p.y as real then TopRight else BotRight
  }

  /** The bound given to a newly created child in quadrant q. */
  function ChildBox(topLeft: Corner, botRight: Corner, q: Quadrant): (Corner, Corner)
  {
    var m := Mid(topLeft, botRight);
    match q
    case TopLeft => (topLeft, m)
    case BotLeft => (Corner(topLeft.x, m.y), Corner(m.x, botRight.y))
    case TopRight => (Corner(m.x, topLeft.y), Corner(botRight.x, m.y))
    case BotRight => (m, botRight)
  }

  /**
   * A position inside a bound is inside the bound of the quadrant it
   * descends into, and that bound has half the width and half the height.
   */
  lemma DescentStaysInside(topLeft: Corner, botRight: Corner, p: Point)
    requires InBox(topLeft, botRight, p)
    ensures var (lo, hi) := ChildBox(topLeft, botRight, Which(topLeft, botRight, p));
      && InBox(lo, hi, p)
      && hi.x - lo.x == (botRight.x - topLeft.x) / 2.0
      && hi.y - lo.y == (botRight.y - topLeft.y) / 2.0
  {
  }

  datatype Quad = Quad(
    topLeft: Corner, botRight: Corner,
    n: Option<Node>,
    topLeftTree: Option<Quad>, topRightTree: Option<Quad>,
    botLeftTree: Option<Quad>, botRightTree: Option<Quad>)
  {
    predicate InBoundary(p: Point)
    {
      InBox(topLeft, botRight, p)
    }

    predicate IsUnit()
    {
      IsUnitBox(topLeft, botRight)
    }

    predicate NoChildren()
    {
      topLeftTree.None? && topRightTree.None? && botLeftTree.None? && botRightTree.None?
    }

    function Child(q: Quadrant): Option<Quad>
    {
      match q
      case TopLeft => topLeftTree
      case TopRight => topRightTree
      case BotLeft => botLeftTree
      case BotRight => botRightTree
    }

    function WithChild(q: Quadrant, c: Quad): Quad
    {
      match q
      case TopLeft => this.(topLeftTree := Some(c))
      case TopRight => this.(topRightTree := Some(c))
      case BotLeft => this.(botLeftTree := Some(c))
      case BotRight => this.(botRightTree := Some(c))
    }

    /** c has the bound this node gives its child in quadrant q. */
    predicate Fits(q: Quadrant, c: Quad)
    {
      (c.topLeft, c.botRight) == ChildBox(topLeft, botRight, q)
    }

    /** Twice the half-perimeter; a descent halves it, so it bounds the depth. */
    function Measure(): real
    {
      2.0 * ((botRight.x - topLeft.x) + (botRight.y - topLeft.y))
    }

    /**
     * The shape insert builds: only unit leaves hold a node, and inside
     * their bound; unit leaves have no children; every child has the bound
     * of its quadrant.
     */
    ghost predicate WellFormed()
    {
      && (n.Some? ==> IsUnit() && InBoundary(n.value.pos))
      && (IsUnit() ==> NoChildren())
      && (topLeftTree.Some? ==> Fits(TopLeft, topLeftTree.value) && topLeftTree.value.WellFormed())
      && (topRightTree.Some? ==> Fits(TopRight, topRightTree.value) && topRightTree.value.WellFormed())
      && (botLeftTree.Some? ==> Fits(BotLeft, botLeftTree.value) && botLeftTree.value.WellFormed())
      && (botRightTree.Some? ==> Fits(BotRight, botRightTree.value) && botRightTree.value.WellFormed())
    }

    /** The child in quadrant q, or the empty node insert would create there. */
    function ChildOrNew(q: Quadrant): (c: Quad)
      requires WellFormed()
      ensures Fits(q, c) && c.WellFormed()
      ensures Child(q).Some? ==> c == Child(q).value
      ensures Child(q).None? ==> c.n.None? && c.NoChildren()
    {
      match Child(q)
      case Some(c) => c
      case None => var (lo, hi) := ChildBox(topLeft, botRight, q); Empty(lo, hi)
    }

    /**
     * insert: out of bound, nothing changes; at a unit leaf, the node is
     * stored if the leaf is empty or holds the same position, and dropped
     * otherwise; elsewhere it goes down into its quadrant, whose child is
     * created on first use.
     */
    function Insert(e: Node): (r: Quad)
      requires WellFormed()
      ensures r.WellFormed()
      ensures r.topLeft == topLeft && r.botRight == botRight
      decreases Measure()
    {
      if !InBoundary(e.pos) then this
      else if IsUnit() then
        if n.None? || n.value.pos == e.pos then this.(n := Some(e)) else this
      else
        var q := Which(topLeft, botRight, e.pos);
        DescentStaysInside(topLeft, botRight, e.pos);
        WithChild(q, ChildOrNew(q).Insert(e))
    }

    /**
     * search: out of bound, not found; a node that holds something answers
     * with it whatever its position; otherwise the query goes down into its
     * quadrant, and a missing child means not found.
     */
    function Search(p: Point): (r: Option<Node>)
      ensures r.Some? ==> InBoundary(p)
    {
      if !InBoundary(p) then None
      else if n.Some? then n
      else
        match Which(topLeft, botRight, p)
        case TopLeft => if topLeftTree.None? then None else topLeftTree.value.Search(p)
        case BotLeft => if botLeftTree.None? then None else botLeftTree.value.Search(p)
        case TopRight => if topRightTree.None? then None else topRightTree.value.Search(p)
        case BotRight => if botRightTree.None? then None else botRightTree.value.Search(p)
    }

    /** _totalPointsCount: the number of stored nodes in this subtree. */
    function Count(): nat
    {
      (if n.Some? then 1 else 0)
      + (if topLeftTree.Some? then topLeftTree.value.Count() else 0)
      + (if topRightTree.Some? then topRightTree.value.Count() else 0)
      + (if botLeftTree.Some? then botLeftTree.value.Count() else 0)
      + (if botRightTree.Some? then botRightTree.value.Count() else 0)
    }
  }

  /** A freshly constructed node: the given bound, nothing stored, no children. */
  function Empty(topLeft: Corner, botRight: Corner): (q: Quad)
    ensures q.WellFormed() && q.Count() == 0
  {
    Quad(topLeft, botRight, None, None, None, None, None)
  }

  /** search seen through Child: below an empty in-bound node it asks the quadrant's child. */
  lemma SearchDescends(t: Quad, p: Point)
    requires t.InBoundary(p) && t.n.None?
    ensures var c := t.Child(Which(t.topLeft, t.botRight, p));
      t.Search(p) == if c.None? then None else c.value.Search(p)
  {
  }

  /** A node aimed outside a node's bound: insert changes nothing. */
  lemma InsertOutsideBound(t: Quad, e: Node)
    requires t.WellFormed() && !t.InBoundary(e.pos)
    ensures t.Insert(e) == t
  {
  }

  /** A position outside a node's bound: search finds nothing. */
  lemma SearchOutsideBound(t: Quad, p: Point)
    requires !t.InBoundary(p)
    ensures t.Search(p) == None
  {
  }

  /**
   * Searching for the inserted position right after insert: the new node
   * is found, unless its leaf already held a different position, in which
   * case that earlier occupant is found and the new node was dropped.
   */
  lemma {:induction false} SearchAfterInsert(t: Quad, e: Node)
    requires t.WellFormed() && t.InBoundary(e.pos)
    ensures var before := t.Search(e.pos);
      t.Insert(e).Search(e.pos) ==
        if before.None? || before.value.pos == e.pos then Some(e) else before
    decreases t.Measure()
  {
    if !t.IsUnit() {
      var q := Which(t.topLeft, t.botRight, e.pos);
      InsertDescends(t, e);
      var c := t.ChildOrNew(q);
      ChildShrinks(t, e.pos, q);
      SearchAfterInsert(c, e);
      var r := t.WithChild(q, c.Insert(e));
      WithChildShape(t, q, c.Insert(e));
      SearchDescends(r, e.pos);
      assert r.Search(e.pos) == c.Insert(e).Search(e.pos);
    }
  }

  /** Replacing one child leaves the bound, the stored node and the other children alone. */
  lemma WithChildShape(t: Quad, q: Quadrant, c: Quad)
    ensures var r := t.WithChild(q, c);
      && r.topLeft == t.topLeft && r.botRight == t.botRight && r.n == t.n
      && (forall q' :: r.Child(q') == if q' == q then Some(c) else t.Child(q'))
  {
  }

  /** Replacing one child changes the count by the difference between the new and the old child's. */
  lemma WithChildCount(t: Quad, q: Quadrant, c: Quad)
    ensures t.WithChild(q, c).Count() == t.Count() - (if t.Child(q).Some? then t.Child(q).value.Count() else 0) + c.Count()
  {
  }

  /** Where insert goes below a node that is neither out of bound nor a unit leaf. */
  lemma InsertDescends(t: Quad, e: Node)
    requires t.WellFormed() && t.InBoundary(e.pos) && !t.IsUnit()
    ensures var q := Which(t.topLeft, t.botRight, e.pos);
      && t.n.None?
      && t.ChildOrNew(q).InBoundary(e.pos)
      && t.ChildOrNew(q).Search(e.pos) == t.Search(e.pos)
      && t.Insert(e) == t.WithChild(q, t.ChildOrNew(q).Insert(e))
  {
    DescentStaysInside(t.topLeft, t.botRight, e.pos);
    SearchDescends(t, e.pos);
  }

  /** Every child of a node that holds an in-bound position and is not a unit leaf is smaller by at least one. */
  lemma ChildShrinks(t: Quad, p: Point, q: Quadrant)
    requires t.WellFormed() && t.InBoundary(p) && !t.IsUnit()
    ensures t.ChildOrNew(q).Measure() <= t.Measure() - 1.0
  {
  }

  /** The insert equation below a node that is neither out of bound nor a unit leaf. */
  lemma InsertGoesDown(t: Quad, e: Node, q: Quadrant)
    requires t.WellFormed() && t.InBoundary(e.pos) && !t.IsUnit()
    requires q == Which(t.topLeft, t.botRight, e.pos)
    ensures t.Insert(e) == t.WithChild(q, t.ChildOrNew(q).Insert(e))
  {
  }

  /**
   * A position that search finds stays found after any insert: leaves are
   * never emptied, and an insert only rebuilds the path to its own leaf.
   */
  lemma {:induction false} InsertKeepsFound(t: Quad, e: Node, p: Point)
    requires t.WellFormed() && t.Search(p).Some?
    ensures t.Insert(e).Search(p).Some?
    decreases t.Measure()
  {
    if t.InBoundary(e.pos) && !t.IsUnit() {
      var q := Which(t.topLeft, t.botRight, e.pos);
      var qp := Which(t.topLeft, t.botRight, p);
      InsertDescends(t, e);
      var c := t.ChildOrNew(q);
      var r := t.WithChild(q, c.Insert(e));
      WithChildShape(t, q, c.Insert(e));
      SearchDescends(t, p);
      SearchDescends(r, p);
      if q == qp {
        ChildShrinks(t, e.pos, q);
        InsertKeepsFound(c, e, p);
      }
    }
  }

  /**
   * insert adds one to the stored count exactly when it stores into an empty
   * leaf, that is, when the position is in bound and search did not find it.
   */
  lemma {:induction false} InsertCount(t: Quad, e: Node)
    requires t.WellFormed()
    ensures t.Insert(e).Count() == t.Count() + if t.InBoundary(e.pos) && t.Search(e.pos).None? then 1 else 0
    decreases t.Measure()
  {
    if t.InBoundary(e.pos) && !t.IsUnit() {
      var q := Which(t.topLeft, t.botRight, e.pos);
      InsertDescends(t, e);
      var c := t.ChildOrNew(q);
      ChildShrinks(t, e.pos, q);
      InsertCount(c, e);
      WithChildCount(t, q, c.Insert(e));
      assert (if t.Child(q).Some? then t.Child(q).value.Count() else 0) == c.Count();
      assert t.Insert(e).Count() == t.Count() - c.Count() + c.Insert(e).Count();
    }
  }

  /** Inserting a sequence of nodes one after another, in order. */
  function InsertAll(t: Quad, nodes: seq<Node>): (r: Quad)
    requires t.WellFormed()
    ensures r.WellFormed()
    ensures r.topLeft == t.topLeft && r.botRight == t.botRight
  {
    if nodes == [] then t else InsertAll(t, nodes[..|nodes| - 1]).Insert(nodes[|nodes| - 1])
  }

  /** A run of inserts split in two is the second run applied to the result of the first. */
  lemma {:induction false} InsertAllAppend(t: Quad, a: seq<Node>, b: seq<Node>)
    requires t.WellFormed()
    ensures InsertAll(t, a + b) == InsertAll(InsertAll(t, a), b)
    decreases |b|
  {
    if b == [] {
      assert a + b == a;
    } else {
      assert (a + b)[..|a + b| - 1] == a + b[..|b| - 1];
      InsertAllAppend(t, a, b[..|b| - 1]);
    }
  }

  /** What search found before a run of inserts it still finds afterwards. */
  lemma {:induction false} InsertAllKeepsFound(t: Quad, nodes: seq<Node>, p: Point)
    requires t.WellFormed() && t.Search(p).Some?
    ensures InsertAll(t, nodes).Search(p).Some?
  {
    if nodes != [] {
      InsertAllKeepsFound(t, nodes[..|nodes| - 1], p);
      InsertKeepsFound(InsertAll(t, nodes[..|nodes| - 1]), nodes[|nodes| - 1], p);
    }
  }

  /** After a run of inserts, every inserted position inside the bound is found. */
  lemma {:induction false} InsertAllFinds(t: Quad, nodes: seq<Node>)
    requires t.WellFormed()
    ensures forall k :: 0 <= k < |nodes| && t.InBoundary(nodes[k].pos) ==>
      InsertAll(t, nodes).Search(nodes[k].pos).Some?
  {
    if nodes != [] {
      var init := nodes[..|nodes| - 1];
      var last := nodes[|nodes| - 1];
      var mid := InsertAll(t, init);
      InsertAllFinds(t, init);
      forall k | 0 <= k < |nodes| && t.InBoundary(nodes[k].pos)
        ensures InsertAll(t, nodes).Search(nodes[k].pos).Some?
      {
        if k < |nodes| - 1 {
          assert nodes[k] == init[k];
          InsertKeepsFound(mid, last, nodes[k].pos);
        } else if mid.InBoundary(last.pos) {
          SearchAfterInsert(mid, last);
        }
      }
    }
  }

  /**
   * A unit leaf keeps the first position inserted into it: a second,
   * different position in the same cell is dropped, and searching for it
   * answers with the first one's record.
   */
  lemma LeafKeepsFirstOccupant()
    ensures var leaf := Empty(Corner(0.0, 0.0), Corner(1.0, 1.0));
      var t := leaf.Insert(Node(Point(0, 0), 1)).Insert(Node(Point(1, 1), 2));
      t.Search(Point(1, 1)) == Some(Node(Point(0, 0), 1))
  {
  }
}
