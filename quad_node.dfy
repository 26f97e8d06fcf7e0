/**
 * The point-region quadtree node of `src/utils.js` (class `Node`): a region
 * of the plane that is empty, holds one point, or is split at its midpoint
 * into four children.  The source mutates a node from empty to leaf to
 * internal; here a node is a value and `Add` returns the node after the
 * insertion.
 */
module QuadNode {

  /** The closed region [x0, x1] x [y0, y1] of a node. */
  datatype Box = Box(x0: real, y0: real, x1: real, y1: real) {
    /** The split abscissa `xm`. */
    function Xm(): real { (x0 + x1) / 2.0 }

    /** The split ordinate `ym`. */
    function Ym(): real { (y0 + y1) / 2.0 }

    predicate WellFormed() { x0 <= x1 && y0 <= y1 }

    predicate Contains(x: real, y: real) {
      x0 <= x <= x1 && y0 <= y <= y1
    }

    /** The longer side. */
    function Extent(): real {
      if x1 - x0 >= y1 - y0 then x1 - x0 else y1 - y0
    }
  }

  datatype Quadrant = NW | NE | SW | SE

  /**
   * The region of a child, cut from its parent at the midpoint: for a well
   * formed parent, a well formed box inside it, half as wide and half as
   * tall.
   */
  function SubBox(b: Box, q: Quadrant): (c: Box)
    ensures b.WellFormed() ==> c.WellFormed()
    ensures b.WellFormed() ==> b.x0 <= c.x0 && c.x1 <= b.x1 && b.y0 <= c.y0 && c.y1 <= b.y1
    ensures c.x1 - c.x0 == (b.x1 - b.x0) / 2.0 && c.y1 - c.y0 == (b.y1 - b.y0) / 2.0
  {
    match q
    case NW => Box(b.x0, b.y0, b.Xm(), b.Ym())
    case NE => Box(b.Xm(), b.y0, b.x1, b.Ym())
    case SW => Box(b.x0, b.Ym(), b.Xm(), b.y1)
    case SE => Box(b.Xm(), b.Ym(), b.x1, b.y1)
  }

  /**
   * The child a point is sent to: west when x < xm, north when y < ym.  A
   * point of the parent lies in the child it is sent to.
   */
  function QuadrantOf(b: Box, x: real, y: real): (q: Quadrant)
    ensures b.Contains(x, y) ==> SubBox(b, q).Contains(x, y)
  {
    if x < b.Xm() then (if y < b.Ym() then NW else SW)
    else (if y < b.Ym() then NE else SE)
  }

  /**
   * The four children cover their parent: a point of the parent lies in the
   * child it is sent to, and a point of any child lies in the parent.
   */
  lemma Partition(b: Box, x: real, y: real)
    requires b.WellFormed()
    ensures b.Contains(x, y) ==> SubBox(b, QuadrantOf(b, x, y)).Contains(x, y)
    ensures forall q :: SubBox(b, q).Contains(x, y) ==> b.Contains(x, y)
    ensures forall q :: SubBox(b, q).WellFormed()
  {
  }

  /** Each side of a child is half that of its parent. */
  lemma SubBoxHalves(b: Box, q: Quadrant)
    requires b.WellFormed()
    ensures SubBox(b, q).Extent() == b.Extent() / 2.0
  {
  }

  /** A stored point: the datum with its projected coordinates. */
  datatype Point<T> = Point(d: T, x: real, y: real)

  predicate SameSpot<T>(p: Point<T>, q: Point<T>) {
    p.x == q.x && p.y == q.y
  }

  /** A node is exactly one of empty, leaf or internal. */
  datatype Node<T> =
    | Empty(box: Box)
    | Leaf(box: Box, leaf: Point<T>)
    | Internal(box: Box, nw: Node<T>, ne: Node<T>, sw: Node<T>, se: Node<T>)

  /** A freshly subdivided node: four empty children. */
  function Subdivide<T>(b: Box): (n: Node<T>)
    ensures n.Internal? && n.box == b && Points(n) == {}
    ensures b.WellFormed() ==> Valid(n)
  {
    Internal(b, Empty(SubBox(b, NW)), Empty(SubBox(b, NE)), Empty(SubBox(b, SW)), Empty(SubBox(b, SE)))
  }

  /** The points stored in the leaves below a node. */
  ghost function Points<T>(n: Node<T>): set<Point<T>> {
    match n
    case Empty(_) => {}
    case Leaf(_, p) => {p}
    case Internal(_, nw, ne, sw, se) => Points(nw) + Points(ne) + Points(sw) + Points(se)
  }

  /** A child sits in its quadrant and holds only points routed to it. */
  ghost predicate Placed<T>(b: Box, q: Quadrant, c: Node<T>) {
    && c.box == SubBox(b, q)
    && forall p :: p in Points(c) ==> QuadrantOf(b, p.x, p.y) == q
  }

  /**
   * The shape `add` maintains: boxes are well formed, a leaf lies in its box,
   * and the children of an internal node are its four quadrants, each
   * holding exactly the points routed to it.
   */
  ghost predicate Valid<T>(n: Node<T>) {
    n.box.WellFormed() &&
    match n
    case Empty(_) => true
    case Leaf(b, p) => b.Contains(p.x, p.y)
    case Internal(b, nw, ne, sw, se) =>
      && Valid(nw) && Valid(ne) && Valid(sw) && Valid(se)
      && Placed(b, NW, nw) && Placed(b, NE, ne) && Placed(b, SW, sw) && Placed(b, SE, se)
  }

  /** Some stored point sits at (x, y). */
  ghost predicate HasSpot<T>(n: Node<T>, x: real, y: real) {
    exists q :: q in Points(n) && q.x == x && q.y == y
  }

  /** No two stored points share a spot. */
  ghost predicate Distinct<T>(n: Node<T>) {
    forall p, q :: p in Points(n) && q in Points(n) && SameSpot(p, q) ==> p == q
  }

  /** Every stored point lies in the box of its node. */
  lemma {:induction false} ValidContains<T>(n: Node<T>, p: Point<T>)
    requires Valid(n) && p in Points(n)
    ensures n.box.Contains(p.x, p.y)
  {
    match n
    case Leaf(_, _) =>
    case Internal(b, nw, ne, sw, se) =>
      var c := if p in Points(nw) then nw else if p in Points(ne) then ne
               else if p in Points(sw) then sw else se;
      ValidContains(c, p);
      Partition(b, p.x, p.y);
  }

  /** A valid tree never stores two points at the same spot. */
  lemma {:induction false} ValidDistinct<T>(n: Node<T>)
    requires Valid(n)
    ensures Distinct(n)
  {
    match n
    case Empty(_) =>
    case Leaf(_, _) =>
    case Internal(b, nw, ne, sw, se) =>
      ValidDistinct(nw);
      ValidDistinct(ne);
      ValidDistinct(sw);
      ValidDistinct(se);
  }

  /** The node `this.add(leaf)` leaves after subdividing: q alone in its quadrant. */
  function Seeded<T>(b: Box, q: Point<T>): (n: Node<T>)
    requires b.WellFormed() && b.Contains(q.x, q.y)
    ensures Valid(n) && n.box == b && Points(n) == {q}
  {
    Partition(b, q.x, q.y);
    var e := Subdivide(b);
    match QuadrantOf(b, q.x, q.y)
    case NW => e.(nw := Leaf(SubBox(b, NW), q))
    case NE => e.(ne := Leaf(SubBox(b, NE), q))
    case SW => e.(sw := Leaf(SubBox(b, SW), q))
    case SE => e.(se := Leaf(SubBox(b, SE), q))
  }

  /** How far apart two points are, along the axis where they differ most. */
  function Gap<T>(q: Point<T>, p: Point<T>): real {
    var dx := if q.x >= p.x then q.x - p.x else p.x - q.x;
    var dy := if q.y >= p.y then q.y - p.y else p.y - q.y;
    if dx >= dy then dx else dy
  }

  /** How many halvings of b two distinct points can still share a quadrant. */
  function Steps<T>(b: Box, q: Point<T>, p: Point<T>): nat
    requires !SameSpot(q, p)
  {
    var k := (b.Extent() / Gap(q, p)).Floor;
    if k >= 0 then k else 0
  }

  /** The termination measure of `Add`: the subdivisions it may still make. */
  function Measure<T>(n: Node<T>, p: Point<T>): nat {
    match n
    case Empty(_) => 0
    case Leaf(b, q) => if SameSpot(q, p) then 0 else 3 + 3 * Steps(b, q, p)
    case Internal(b, nw, ne, sw, se) =>
      1 + match QuadrantOf(b, p.x, p.y)
          case NW => Measure(nw, p)
          case NE => Measure(ne, p)
          case SW => Measure(sw, p)
          case SE => Measure(se, p)
  }

  /** floor(a / 2) < floor(a) once a >= 1. */
  lemma HalfFloor(a: real)
    requires a >= 1.0
    ensures (a / 2.0).Floor < a.Floor
  {
  }

  /** Two distinct points of a box are a positive gap apart, at most its extent. */
  lemma GapWithin<T>(b: Box, q: Point<T>, p: Point<T>)
    requires b.Contains(q.x, q.y) && b.Contains(p.x, p.y) && !SameSpot(q, p)
    ensures 0.0 < Gap(q, p) <= b.Extent()
  {
  }

  /** Halving the extent halves its ratio to the gap, which is at least one. */
  lemma Ratio(e: real, g: real)
    requires 0.0 < g <= e
    ensures e / g >= 1.0
    ensures (e / 2.0) / g == (e / g) / 2.0
  {
    assert (e / g) * g == e;
  }

  /** Two points that stay together in a child need one subdivision fewer. */
  lemma StepsShrink<T>(b: Box, q: Point<T>, p: Point<T>)
    requires b.WellFormed() && b.Contains(q.x, q.y) && b.Contains(p.x, p.y)
    requires !SameSpot(q, p)
    requires QuadrantOf(b, q.x, q.y) == QuadrantOf(b, p.x, p.y)
    ensures Steps(SubBox(b, QuadrantOf(b, p.x, p.y)), q, p) < Steps(b, q, p)
  {
    GapWithin(b, q, p);
    SubBoxHalves(b, QuadrantOf(b, p.x, p.y));
    Ratio(b.Extent(), Gap(q, p));
    HalfFloor(b.Extent() / Gap(q, p));
  }

  /** Within a seeded node, p needs fewer subdivisions than next to the leaf q. */
  lemma SeededMeasure<T>(b: Box, q: Point<T>, p: Point<T>)
    requires b.WellFormed() && b.Contains(q.x, q.y) && b.Contains(p.x, p.y)
    requires !SameSpot(q, p)
    ensures Measure(Seeded(b, q), p) < Measure(Leaf(b, q), p)
  {
    if QuadrantOf(b, q.x, q.y) == QuadrantOf(b, p.x, p.y) {
      StepsShrink(b, q, p);
    }
  }

  /**
   * `node.add(p)` for a point inside the node's box.  An empty node becomes
   * a leaf; a leaf at the same spot is left as it is (the first datum is
   * kept); a leaf elsewhere is subdivided, its point re-added, and then p
   * added; an internal node passes p to the child chosen by xm and ym.
   */
  function Add<T>(n: Node<T>, p: Point<T>): (r: Node<T>)
    requires Valid(n) && n.box.Contains(p.x, p.y)
    ensures Valid(r) && r.box == n.box
    ensures HasSpot(n, p.x, p.y) ==> r == n
    ensures !HasSpot(n, p.x, p.y) ==> Points(r) == Points(n) + {p}
    decreases Measure(n, p), 1
  {
    match n
    case Empty(b) => Leaf(b, p)
    case Leaf(b, q) =>
      if SameSpot(q, p) then n
      else
        SeededMeasure(b, q, p);
        Add(Seeded(b, q), p)
    case Internal(_, _, _, _, _) => AddBelow(n, p)
  }

  /** The internal-node case of `Add`: p goes to the child chosen by xm and ym. */
  function AddBelow<T>(n: Node<T>, p: Point<T>): (r: Node<T>)
    requires Valid(n) && n.Internal? && n.box.Contains(p.x, p.y)
    ensures Valid(r) && r.box == n.box
    ensures HasSpot(n, p.x, p.y) ==> r == n
    ensures !HasSpot(n, p.x, p.y) ==> Points(r) == Points(n) + {p}
    decreases Measure(n, p), 0
  {
    var k := QuadrantOf(n.box, p.x, p.y);
    Partition(n.box, p.x, p.y);
    RoutedSpot(n, p);
    var c := Add(Child(n, k), p);
    ReplaceChild(n, k, c, p);
    Replace(n, k, c)
  }

  /** The child of an internal node in a quadrant. */
  function Child<T>(n: Node<T>, q: Quadrant): Node<T>
    requires n.Internal?
  {
    match q
    case NW => n.nw
    case NE => n.ne
    case SW => n.sw
    case SE => n.se
  }

  /** An internal node with its child in quadrant q replaced by c. */
  function Replace<T>(n: Node<T>, q: Quadrant, c: Node<T>): (r: Node<T>)
    requires n.Internal?
    ensures r.Internal? && r.box == n.box && Child(r, q) == c
    ensures forall o :: o != q ==> Child(r, o) == Child(n, o)
  {
    match q
    case NW => n.(nw := c)
    case NE => n.(ne := c)
    case SW => n.(sw := c)
    case SE => n.(se := c)
  }

  /**
   * Replacing the child that p routes to by that child with p added keeps
   * the node valid and adds p to it, or keeps it when the child is unchanged.
   */
  lemma ReplaceChild<T>(n: Node<T>, q: Quadrant, c: Node<T>, p: Point<T>)
    requires Valid(n) && n.Internal? && Valid(c)
    requires q == QuadrantOf(n.box, p.x, p.y) && c.box == Child(n, q).box
    requires c == Child(n, q) || Points(c) == Points(Child(n, q)) + {p}
    ensures Valid(Replace(n, q, c))
    ensures c == Child(n, q) ==> Replace(n, q, c) == n
    ensures c != Child(n, q) ==> Points(Replace(n, q, c)) == Points(n) + {p}
  {
    assert Placed(n.box, q, c);
    ReplaceValid(n, q, c);
    if c == Child(n, q) {
      ReplaceSame(n, q);
    } else {
      ReplaceGrows(n, q, c, p);
    }
  }

  /** A valid child placed in its quadrant keeps the node valid. */
  lemma ReplaceValid<T>(n: Node<T>, q: Quadrant, c: Node<T>)
    requires Valid(n) && n.Internal? && Valid(c) && Placed(n.box, q, c)
    ensures Valid(Replace(n, q, c))
  {
    var r := Replace(n, q, c);
    assert Child(r, NW) == r.nw && Child(r, NE) == r.ne && Child(r, SW) == r.sw && Child(r, SE) == r.se;
  }

  /** Putting back the same child gives the same node. */
  lemma ReplaceSame<T>(n: Node<T>, q: Quadrant)
    requires n.Internal?
    ensures Replace(n, q, Child(n, q)) == n
  {
  }

  /** A child that gained p makes its parent gain p. */
  lemma ReplaceGrows<T>(n: Node<T>, q: Quadrant, c: Node<T>, p: Point<T>)
    requires n.Internal? && Points(c) == Points(Child(n, q)) + {p}
    ensures Points(Replace(n, q, c)) == Points(n) + {p}
  {
  }

  /** A spot of an internal node can only be stored in the child it routes to. */
  lemma RoutedSpot<T>(n: Node<T>, p: Point<T>)
    requires Valid(n) && n.Internal?
    ensures HasSpot(n, p.x, p.y) <==> HasSpot(Child(n, QuadrantOf(n.box, p.x, p.y)), p.x, p.y)
  {
    if HasSpot(n, p.x, p.y) {
      var q :| q in Points(n) && q.x == p.x && q.y == p.y;
      assert q in Points(Child(n, QuadrantOf(n.box, q.x, q.y)));
    }
  }

  /** `this.add(leaf)` on a freshly subdivided node is what `Seeded` builds. */
  lemma SeededIsReinsertion<T>(b: Box, q: Point<T>)
    requires b.WellFormed() && b.Contains(q.x, q.y)
    ensures Add(Subdivide(b), q) == Seeded(b, q)
  {
    Partition(b, q.x, q.y);
    var e: Node<T> := Subdivide(b);
    var k := QuadrantOf(b, q.x, q.y);
    assert Add(e, q) == AddBelow(e, q);
    assert Add(Empty(SubBox(b, k)), q) == Leaf(SubBox(b, k), q);
  }
}
