/**
 * `buildTree` and the class `Quadtree` of `src/utils.js`: the data are
 * projected through accessors and scales, the non-NaN points are inserted
 * into a quadtree over their bounding box, and `find` walks the tree with a
 * stack to return the datum closest to a pointer position, within a radius.
 */
module SpatialIndex {
  import opened Wrappers
  import opened QuadNode
  import LinearScale

  /* ---------------------------------------------------------------------- */
  /* Projection                                                              */
  /* ---------------------------------------------------------------------- */

  /** A coordinate as the source computes it: a number, or NaN. */
  datatype Coord = NaN | Num(v: real)

  /** An accessor `x(d, i)` or `y(d, i)`. */
  type Accessor<!T> = (T, nat) -> Coord

  /** A scale `xScale` or `yScale`. */
  type ScaleFn = real -> Coord

  /** The datum shape the default accessors read. */
  datatype Datum = Datum(x: real, y: real)

  /** `defaultX`: the datum's `x` field, whatever its index. */
  function DefaultX(d: Datum, i: nat): (c: Coord)
    ensures c.Num? && c.v == d.x
  {
    Num(d.x)
  }

  /** `defaultY`: the datum's `y` field, whatever its index. */
  function DefaultY(d: Datum, i: nat): (c: Coord)
    ensures c.Num? && c.v == d.y
  {
    Num(d.y)
  }

  /** The default accessors read the x and y fields of a datum. */
  lemma DefaultAccessors()
    ensures DefaultX(Datum(1.0, 2.0), 0) == Num(1.0)
    ensures DefaultY(Datum(1.0, 2.0), 0) == Num(2.0)
  {
  }

  /** A `linearScale` used as a quadtree scale; NaN where its slope is not finite. */
  function Scaled(s: LinearScale.Scale): ScaleFn {
    v => match LinearScale.Apply(s, v)
         case Some(r) => Num(r)
         case None => NaN
  }

  /** A scale applied to a coordinate; NaN stays NaN. */
  function Through(c: Coord, s: ScaleFn): Coord {
    match c
    case NaN => NaN
    case Num(v) => s(v)
  }

  /** A projected datum `{ d, x, y }`. */
  datatype Projected<T> = Projected(d: T, x: Coord, y: Coord)

  /** `data.map((d, i) => ({ d, x: xScale(x(d, i)), y: yScale(y(d, i)) }))`. */
  function Project<T>(data: seq<T>, x: Accessor<T>, y: Accessor<T>, xs: ScaleFn, ys: ScaleFn)
    : (ps: seq<Projected<T>>)
    ensures |ps| == |data|
    ensures forall i :: 0 <= i < |data| ==>
              && ps[i].d == data[i]
              && ps[i].x == Through(x(data[i], i), xs)
              && ps[i].y == Through(y(data[i], i), ys)
  {
    seq(|data|, i requires 0 <= i < |data| =>
      Projected(data[i], Through(x(data[i], i), xs), Through(y(data[i], i), ys)))
  }

  /** Both coordinates are numbers: the point is inserted. */
  predicate Plotted<T>(p: Projected<T>) {
    p.x.Num? && p.y.Num?
  }

  function PointOf<T>(p: Projected<T>): Point<T>
    requires Plotted(p)
  {
    Point(p.d, p.x.v, p.y.v)
  }

  /* ---------------------------------------------------------------------- */
  /* Bounding box                                                            */
  /* ---------------------------------------------------------------------- */

  function Xs<T>(ps: seq<Projected<T>>): (cs: seq<Coord>)
    ensures |cs| == |ps| && forall i :: 0 <= i < |ps| ==> cs[i] == ps[i].x
  {
    seq(|ps|, i requires 0 <= i < |ps| => ps[i].x)
  }

  function Ys<T>(ps: seq<Projected<T>>): (cs: seq<Coord>)
    ensures |cs| == |ps| && forall i :: 0 <= i < |ps| ==> cs[i] == ps[i].y
  {
    seq(|ps|, i requires 0 <= i < |ps| => ps[i].y)
  }

  /** One step of the bounds loop for `x0`: `if (c < x0) x0 = c`; None is +Infinity. */
  function LowerStep(m: Option<real>, c: Coord): Option<real> {
    if c.Num? && (m.None? || c.v < m.value) then Some(c.v) else m
  }

  /** One step of the bounds loop for `x1`: `if (c > x1) x1 = c`; None is -Infinity. */
  function UpperStep(m: Option<real>, c: Coord): Option<real> {
    if c.Num? && (m.None? || c.v > m.value) then Some(c.v) else m
  }

  /** The least number among cs; None (Infinity) when there is none. */
  function Lower(cs: seq<Coord>): (m: Option<real>)
    ensures m.Some? <==> exists i :: 0 <= i < |cs| && cs[i].Num?
    ensures m.Some? ==> exists i :: 0 <= i < |cs| && cs[i] == Num(m.value)
    ensures m.Some? ==> forall i :: 0 <= i < |cs| && cs[i].Num? ==> m.value <= cs[i].v
  {
    if cs == [] then None else LowerStep(Lower(cs[..|cs| - 1]), cs[|cs| - 1])
  }

  /** The greatest number among cs; None (-Infinity) when there is none. */
  function Upper(cs: seq<Coord>): (m: Option<real>)
    ensures m.Some? <==> exists i :: 0 <= i < |cs| && cs[i].Num?
    ensures m.Some? ==> exists i :: 0 <= i < |cs| && cs[i] == Num(m.value)
    ensures m.Some? ==> forall i :: 0 <= i < |cs| && cs[i].Num? ==> cs[i].v <= m.value
  {
    if cs == [] then None else UpperStep(Upper(cs[..|cs| - 1]), cs[|cs| - 1])
  }

  /** One more coordinate updates the bounds by one step of the loop. */
  lemma BoundsStep(cs: seq<Coord>, i: nat)
    requires i < |cs|
    ensures Lower(cs[..i + 1]) == LowerStep(Lower(cs[..i]), cs[i])
    ensures Upper(cs[..i + 1]) == UpperStep(Upper(cs[..i]), cs[i])
  {
    assert cs[..i + 1][..i] == cs[..i];
  }

  /** Every inserted point of ps lies in b. */
  ghost predicate Inside<T>(b: Box, ps: seq<Projected<T>>) {
    forall i :: 0 <= i < |ps| && Plotted(ps[i]) ==> b.Contains(ps[i].x.v, ps[i].y.v)
  }

  /**
   * The root box `new Node(x0, y0, x1, y1)`.  A bound that is still infinite
   * (no number on that axis, so nothing is inserted) is taken as 0.
   */
  function RootBox<T>(ps: seq<Projected<T>>): (b: Box)
    ensures b.WellFormed() && Inside(b, ps)
  {
    Box(Lower(Xs(ps)).GetOr(0.0), Lower(Ys(ps)).GetOr(0.0),
        Upper(Xs(ps)).GetOr(0.0), Upper(Ys(ps)).GetOr(0.0))
  }

  /* ---------------------------------------------------------------------- */
  /* buildTree                                                               */
  /* ---------------------------------------------------------------------- */

  /** The tree after the insertion loop has visited ps, skipping NaN points. */
  function InsertAll<T>(b: Box, ps: seq<Projected<T>>): (n: Node<T>)
    requires b.WellFormed() && Inside(b, ps)
    ensures Valid(n) && n.box == b
  {
    if ps == [] then Empty(b)
    else
      var n := InsertAll(b, ps[..|ps| - 1]);
      var p := ps[|ps| - 1];
      if Plotted(p) then Add(n, PointOf(p)) else n
  }

  /** The tree `buildTree(data, x, y, xScale, yScale)` returns. */
  function Built<T>(data: seq<T>, x: Accessor<T>, y: Accessor<T>, xs: ScaleFn, ys: ScaleFn): (n: Node<T>)
    ensures Valid(n)
  {
    var ps := Project(data, x, y, xs, ys);
    InsertAll(RootBox(ps), ps)
  }

  /** One more visited point: the loop inserts it unless a coordinate is NaN. */
  lemma InsertStep<T>(b: Box, ps: seq<Projected<T>>, i: nat)
    requires b.WellFormed() && Inside(b, ps) && i < |ps|
    ensures Inside(b, ps[..i]) && Inside(b, ps[..i + 1])
    ensures InsertAll(b, ps[..i + 1]) ==
              if Plotted(ps[i]) then Add(InsertAll(b, ps[..i]), PointOf(ps[i])) else InsertAll(b, ps[..i])
  {
    assert ps[..i + 1][..i] == ps[..i];
    assert ps[..i + 1][i] == ps[i];
  }

  /** The i-th point is inserted and no earlier inserted point sits at its spot. */
  ghost predicate Stored<T>(ps: seq<Projected<T>>, i: int)
    requires 0 <= i < |ps|
  {
    && Plotted(ps[i])
    && forall j :: 0 <= j < i && Plotted(ps[j]) ==> !SameSpot(PointOf(ps[j]), PointOf(ps[i]))
  }

  /**
   * The tree stores exactly the first point at each spot among the non-NaN
   * points, and every non-NaN point's spot is occupied.
   */
  lemma {:induction false} InsertAllPoints<T>(b: Box, ps: seq<Projected<T>>)
    requires b.WellFormed() && Inside(b, ps)
    ensures forall q :: q in Points(InsertAll(b, ps)) <==>
              exists i :: 0 <= i < |ps| && Stored(ps, i) && q == PointOf(ps[i])
    ensures forall i :: 0 <= i < |ps| && Plotted(ps[i]) ==>
              HasSpot(InsertAll(b, ps), ps[i].x.v, ps[i].y.v)
  {
    if ps == [] {
      return;
    }
    var k := |ps| - 1;
    var pre := ps[..k];
    InsertStep(b, ps, k);
    assert ps[..k + 1] == ps;
    var n := InsertAll(b, pre);
    var p := ps[k];
    InsertAllPoints(b, pre);
    assert forall i :: 0 <= i < k ==> pre[i] == ps[i];
    assert forall i :: 0 <= i < k ==> Stored(pre, i) == Stored(ps, i);
    if !Plotted(p) {
      assert InsertAll(b, ps) == n;
    } else if HasSpot(n, p.x.v, p.y.v) {
      assert InsertAll(b, ps) == n;
      var q :| q in Points(n) && q.x == p.x.v && q.y == p.y.v;
      var j :| 0 <= j < k && Stored(pre, j) && q == PointOf(pre[j]);
      assert !Stored(ps, k);
    } else {
      assert Points(InsertAll(b, ps)) == Points(n) + {PointOf(p)};
      forall j | 0 <= j < k && Plotted(ps[j])
        ensures !SameSpot(PointOf(ps[j]), PointOf(p))
      {
        assert pre[j] == ps[j];
      }
      assert Stored(ps, k);
      assert HasSpot(InsertAll(b, ps), p.x.v, p.y.v) by {
        assert PointOf(p) in Points(InsertAll(b, ps));
      }
    }
  }

  /** When every point is plotted and no two share a spot, all of them are stored. */
  lemma {:induction false} AllStored<T>(b: Box, ps: seq<Projected<T>>)
    requires b.WellFormed() && Inside(b, ps)
    requires forall i :: 0 <= i < |ps| ==> Plotted(ps[i])
    requires forall i, j :: 0 <= j < i < |ps| ==> !SameSpot(PointOf(ps[j]), PointOf(ps[i]))
    ensures Points(InsertAll(b, ps)) == PointsOf(ps)
  {
    if ps == [] {
      return;
    }
    var k := |ps| - 1;
    var pre := ps[..k];
    var p := ps[k];
    InsertStep(b, ps, k);
    assert ps[..k + 1] == ps && pre + [p] == ps;
    assert forall i :: 0 <= i < k ==> pre[i] == ps[i];
    AllStored(b, pre);
    FreshSpot(pre, p);
    assert !HasSpot(InsertAll(b, pre), p.x.v, p.y.v);
    PointsOfSnoc(pre, p);
  }

  /** The points of a sequence of plotted projections. */
  ghost function PointsOf<T>(ps: seq<Projected<T>>): set<Point<T>>
    requires forall i :: 0 <= i < |ps| ==> Plotted(ps[i])
  {
    set i | 0 <= i < |ps| :: PointOf(ps[i])
  }

  /** A point at a spot no earlier point has is not at any spot among their points. */
  lemma FreshSpot<T>(ps: seq<Projected<T>>, p: Projected<T>)
    requires forall i :: 0 <= i < |ps| ==> Plotted(ps[i])
    requires Plotted(p) && forall j :: 0 <= j < |ps| ==> !SameSpot(PointOf(ps[j]), PointOf(p))
    ensures forall o :: o in PointsOf(ps) ==> !(o.x == p.x.v && o.y == p.y.v)
  {
    forall o | o in PointsOf(ps)
      ensures !(o.x == p.x.v && o.y == p.y.v)
    {
      var j :| 0 <= j < |ps| && o == PointOf(ps[j]);
    }
  }

  /** Appending a projection adds its point. */
  lemma PointsOfSnoc<T>(ps: seq<Projected<T>>, p: Projected<T>)
    requires forall i :: 0 <= i < |ps| ==> Plotted(ps[i])
    requires Plotted(p)
    ensures PointsOf(ps + [p]) == PointsOf(ps) + {PointOf(p)}
  {
    var qs := ps + [p];
    forall o | o in PointsOf(qs)
      ensures o in PointsOf(ps) + {PointOf(p)}
    {
      var i :| 0 <= i < |qs| && o == PointOf(qs[i]);
      if i < |ps| {
        assert qs[i] == ps[i];
      }
    }
    forall o | o in PointsOf(ps)
      ensures o in PointsOf(qs)
    {
      var i :| 0 <= i < |ps| && o == PointOf(ps[i]);
      assert qs[i] == ps[i];
    }
    assert qs[|ps|] == p;
  }

  /**
   * The bounds loop of `buildTree`: x0, y0 start at Infinity and x1, y1 at
   * -Infinity (None), and each point lowers or raises them; NaN never does.
   */
  method BoundingBox<T>(points: seq<Projected<T>>) returns (box: Box)
    ensures box == RootBox(points)
  {
    var x0: Option<real> := None;
    var y0: Option<real> := None;
    var x1: Option<real> := None;
    var y1: Option<real> := None;
    for i := 0 to |points|
      invariant x0 == Lower(Xs(points)[..i]) && y0 == Lower(Ys(points)[..i])
      invariant x1 == Upper(Xs(points)[..i]) && y1 == Upper(Ys(points)[..i])
    {
      var p := points[i];
      BoundsStep(Xs(points), i);
      BoundsStep(Ys(points), i);
      if p.x.Num? && (x0.None? || p.x.v < x0.value) { x0 := Some(p.x.v); }
      if p.y.Num? && (y0.None? || p.y.v < y0.value) { y0 := Some(p.y.v); }
      if p.x.Num? && (x1.None? || p.x.v > x1.value) { x1 := Some(p.x.v); }
      if p.y.Num? && (y1.None? || p.y.v > y1.value) { y1 := Some(p.y.v); }
    }
    assert Xs(points)[..|points|] == Xs(points) && Ys(points)[..|points|] == Ys(points);
    box := Box(x0.GetOr(0.0), y0.GetOr(0.0), x1.GetOr(0.0), y1.GetOr(0.0));
  }

  /**
   * `buildTree`: projects the data, computes the bounding box, and inserts
   * every point whose coordinates are both numbers, in order.
   */
  method BuildTree<T>(data: seq<T>, x: Accessor<T>, y: Accessor<T>, xs: ScaleFn, ys: ScaleFn)
    returns (root: Node<T>)
    ensures root == Built(data, x, y, xs, ys)
  {
    var points := Project(data, x, y, xs, ys);
    var box := BoundingBox(points);
    root := InsertPoints(box, points);
  }

  /** The insertion loop of `buildTree`: adds each point, skipping those with a NaN coordinate. */
  method InsertPoints<T>(box: Box, points: seq<Projected<T>>) returns (root: Node<T>)
    requires box.WellFormed() && Inside(box, points)
    ensures root == InsertAll(box, points)
  {
    root := Empty(box);
    for i := 0 to |points|
      invariant Inside(box, points[..i]) && root == InsertAll(box, points[..i])
    {
      var p := points[i];
      InsertStep(box, points, i);
      if p.x.NaN? || p.y.NaN? {
        continue;
      }
      root := Add(root, PointOf(p));
    }
    assert points[..|points|] == points;
  }

  /* ---------------------------------------------------------------------- */
  /* find                                                                    */
  /* ---------------------------------------------------------------------- */

  /** A number or +Infinity: the search radius and the best squared distance. */
  datatype Extended = Real(value: real) | Infinity

  /** a < b over the extended reals. */
  predicate Below(a: Extended, b: Extended) {
    match b
    case Infinity => a.Real?
    case Real(y) => a.Real? && a.value < y
  }

  /** `radius * radius`. */
  function Square(r: Extended): Extended {
    match r
    case Infinity => Infinity
    case Real(v) => Real(Sq(v))
  }

  /** The pointer position, the plot size in pixels, and the radius of a query. */
  datatype Query = Query(left: real, top: real, width: real, height: real, radius: Extended)

  /** `xToPx` / `yToPx`: a percentage of the plot to pixels. */
  function Px(v: real, size: real): real {
    v * size / 100.0
  }

  /** x * x. */
  function Sq(x: real): (s: real)
    ensures s >= 0.0
  {
    x * x
  }

  /** The squared pixel distance `dl * dl + dt * dt` from the pointer to a point. */
  function DistSq<T>(p: Point<T>, q: Query): real {
    var dl := Px(p.x, q.width) - q.left;
    var dt := Px(p.y, q.height) - q.top;
    Sq(dl) + Sq(dt)
  }

  /** The squared distance is never negative, and zero exactly at the pointer. */
  lemma DistSqAtPointer<T>(p: Point<T>, q: Query)
    ensures DistSq(p, q) >= 0.0
    ensures DistSq(p, q) == 0.0 <==> Px(p.x, q.width) == q.left && Px(p.y, q.height) == q.top
  {
    SquareZero(Px(p.x, q.width) - q.left);
    SquareZero(Px(p.y, q.height) - q.top);
  }

  /** Only zero squares to zero. */
  lemma SquareZero(d: real)
    ensures Sq(d) == 0.0 <==> d == 0.0
  {
    if d != 0.0 {
      SquareBeyond(d, 0.0);
    }
  }

  function Min(a: real, b: real): real { if a <= b then a else b }

  function Max(a: real, b: real): real { if a >= b then a else b }

  /** The pointer coordinate c lies more than r outside [min(e0, e1), max(e0, e1)]. */
  predicate Outside(c: real, e0: real, e1: real, r: real) {
    c < Min(e0, e1) - r || c > Max(e0, e1) + r
  }

  /**
   * `outOfBounds`: the node's pixel box grown by the radius misses the
   * pointer.  An infinite radius never prunes; for a finite radius r >= 0,
   * every spot of a pruned box is farther than r from the pointer.
   */
  predicate OutOfBounds(b: Box, q: Query): (out: bool)
    ensures out ==> q.radius.Real?
    ensures out && q.radius.Real? && q.radius.value >= 0.0 ==>
              forall x, y :: b.Contains(x, y) ==>
                Sq(Px(x, q.width) - q.left) + Sq(Px(y, q.height) - q.top) > Sq(q.radius.value)
  {
    match q.radius
    case Infinity => false
    case Real(r) =>
      var out :=
        || Outside(q.left, Px(b.x0, q.width), Px(b.x1, q.width), r)
        || Outside(q.top, Px(b.y0, q.height), Px(b.y1, q.height), r);
      if out && r >= 0.0 then
        BoxBeyond(b, q, r);
        out
      else
        out
  }

  /** Every spot of a box that misses the pointer by more than r >= 0 on one axis is beyond r. */
  lemma BoxBeyond(b: Box, q: Query, r: real)
    requires r >= 0.0
    requires || Outside(q.left, Px(b.x0, q.width), Px(b.x1, q.width), r)
             || Outside(q.top, Px(b.y0, q.height), Px(b.y1, q.height), r)
    ensures forall x, y :: b.Contains(x, y) ==>
              Sq(Px(x, q.width) - q.left) + Sq(Px(y, q.height) - q.top) > Sq(r)
  {
    forall x, y | b.Contains(x, y)
      ensures Sq(Px(x, q.width) - q.left) + Sq(Px(y, q.height) - q.top) > Sq(r)
    {
      if Outside(q.left, Px(b.x0, q.width), Px(b.x1, q.width), r) {
        Beyond(b.x0, x, b.x1, q.width, q.left, r);
      } else {
        Beyond(b.y0, y, b.y1, q.height, q.top, r);
      }
      SumBeyond(Px(x, q.width) - q.left, Px(y, q.height) - q.top, r);
    }
  }

  /** The radius is not negative; the pruning is only sound then. */
  predicate Sound(r: Extended) {
    r.Infinity? || r.value >= 0.0
  }

  /** A point is within the radius when its squared distance is below radius². */
  predicate InRange<T>(p: Point<T>, q: Query) {
    Below(Real(DistSq(p, q)), Square(q.radius))
  }

  /**
   * What `find` promises over the stored points: a returned datum belongs to
   * a point within the radius; for a non-negative radius that point is a
   * closest one, and nothing is returned exactly when no point is within
   * the radius.
   */
  ghost predicate IsNearest<T>(points: set<Point<T>>, q: Query, found: Option<T>): (nearest: bool)
    ensures nearest && q.radius.Infinity? && points != {} ==> found.Some?
    ensures Sound(q.radius) && points == {} ==> (nearest <==> found.None?)
  {
    && (found.Some? ==>
          exists p :: p in points && p.d == found.value && InRange(p, q) &&
            (Sound(q.radius) ==> forall o :: o in points ==> DistSq(p, q) <= DistSq(o, q)))
    && (Sound(q.radius) ==> (found.None? <==> forall o :: o in points ==> !InRange(o, q)))
  }

  /** The number of nodes of a subtree. */
  function Size<T>(n: Node<T>): nat {
    match n
    case Internal(_, nw, ne, sw, se) => 1 + Size(nw) + Size(ne) + Size(sw) + Size(se)
    case _ => 1
  }

  /** The nodes still to visit, counted with their subtrees. */
  function Weight<T>(queue: seq<Node<T>>): nat {
    if queue == [] then 0 else Weight(queue[..|queue| - 1]) + Size(queue[|queue| - 1])
  }

  /** The points below the nodes still to visit. */
  ghost function Pending<T>(queue: seq<Node<T>>): set<Point<T>> {
    if queue == [] then {} else Pending(queue[..|queue| - 1]) + Points(queue[|queue| - 1])
  }

  /** The children of a valid node pushed onto a queue of valid nodes are valid. */
  lemma PushValid<T>(rest: seq<Node<T>>, n: Node<T>)
    requires n.Internal? && Valid(n)
    requires forall i :: 0 <= i < |rest| ==> Valid(rest[i])
    ensures forall i :: 0 <= i < |rest| + 4 ==> Valid((rest + [n.nw, n.ne, n.sw, n.se])[i])
  {
    var queue := rest + [n.nw, n.ne, n.sw, n.se];
    forall i | 0 <= i < |queue|
      ensures Valid(queue[i])
    {
      if i >= |rest| {
        assert queue[i] in [n.nw, n.ne, n.sw, n.se];
      }
    }
  }

  /** Pushing the four children of a node replaces it by its subtrees. */
  lemma PushChildren<T>(rest: seq<Node<T>>, n: Node<T>)
    requires n.Internal?
    ensures Pending(rest + [n.nw, n.ne, n.sw, n.se]) == Pending(rest) + Points(n)
    ensures Weight(rest + [n.nw, n.ne, n.sw, n.se]) + 1 == Weight(rest) + Size(n)
  {
    var q1 := rest + [n.nw];
    var q2 := q1 + [n.ne];
    var q3 := q2 + [n.sw];
    var q4 := q3 + [n.se];
    assert q1[..|q1| - 1] == rest;
    assert q2[..|q2| - 1] == q1;
    assert q3[..|q3| - 1] == q2;
    assert q4[..|q4| - 1] == q3;
    assert Pending(q1) == Pending(rest) + Points(n.nw);
    assert Pending(q2) == Pending(q1) + Points(n.ne);
    assert Pending(q3) == Pending(q2) + Points(n.sw);
    assert Pending(q4) == Pending(q3) + Points(n.se);
    assert Weight(q1) == Weight(rest) + Size(n.nw);
    assert Weight(q2) == Weight(q1) + Size(n.ne);
    assert Weight(q3) == Weight(q2) + Size(n.sw);
    assert Weight(q4) == Weight(q3) + Size(n.se);
    assert q4 == rest + [n.nw, n.ne, n.sw, n.se];
  }

  /** Multiplying by a non-negative factor keeps an order. */
  lemma MulMonotone(a: real, b: real, c: real)
    requires a <= b && c >= 0.0
    ensures a * c <= b * c
  {
    assert (b - a) * c >= 0.0;
  }

  /** A pixel coordinate of a point lies between those of its box's edges. */
  lemma PixelBetween(a: real, v: real, b: real, size: real)
    requires a <= v <= b
    ensures Min(Px(a, size), Px(b, size)) <= Px(v, size) <= Max(Px(a, size), Px(b, size))
  {
    if size >= 0.0 {
      PxMonotone(a, v, size);
      PxMonotone(v, b, size);
    } else {
      PxMonotone(a, v, -size);
      PxMonotone(v, b, -size);
      PxNegate(a, size);
      PxNegate(v, size);
      PxNegate(b, size);
    }
  }

  /** Pixels grow with the percentage on a plot of size >= 0. */
  lemma PxMonotone(u: real, w: real, size: real)
    requires u <= w && size >= 0.0
    ensures Px(u, size) <= Px(w, size)
  {
    MulMonotone(u, w, size);
    assert (w * size - u * size) / 100.0 >= 0.0;
  }

  /** A plot of negative size mirrors the pixels. */
  lemma PxNegate(u: real, size: real)
    ensures Px(u, size) == -Px(u, -size)
  {
    assert u * -size == -(u * size);
  }

  /** A number above r >= 0 squares to more than r². */
  lemma SquareAbove(d: real, r: real)
    requires 0.0 <= r < d
    ensures Sq(d) > Sq(r)
  {
    var a := d - r;
    assert d * d == (r + a) * (r + a) == r * r + 2.0 * r * a + a * a;
  }

  /** A difference beyond r >= 0 in either direction squares to more than r². */
  lemma SquareBeyond(d: real, r: real)
    requires r >= 0.0 && (d > r || d < -r)
    ensures Sq(d) > Sq(r)
  {
    if d > r {
      SquareAbove(d, r);
    } else {
      SquareAbove(-d, r);
      assert (-d) * (-d) == d * d;
    }
  }

  /** An offset of more than r on one axis puts a point beyond the radius. */
  lemma Beyond(a: real, v: real, b: real, size: real, c: real, r: real)
    requires a <= v <= b && r >= 0.0
    requires Outside(c, Px(a, size), Px(b, size), r)
    ensures Sq(Px(v, size) - c) > Sq(r)
  {
    PixelBetween(a, v, b, size);
    SquareBeyond(Px(v, size) - c, r);
  }

  /** A sum of a square above r² and a square is above r². */
  lemma SumBeyond(u: real, w: real, r: real)
    requires Sq(u) > Sq(r) || Sq(w) > Sq(r)
    ensures Sq(u) + Sq(w) > Sq(r)
  {
  }

  /**
   * Pruning is sound: every point below a node that is out of bounds for a
   * non-negative radius r has squared distance above r².
   */
  lemma PruneSound<T>(n: Node<T>, q: Query, p: Point<T>)
    requires Valid(n) && p in Points(n) && OutOfBounds(n.box, q) && q.radius.Real?
    requires q.radius.value >= 0.0
    ensures DistSq(p, q) > Sq(q.radius.value)
  {
    ValidContains(n, p);
  }

  /** A point the search may skip: pruned away by a finite radius. */
  predicate Skippable<T>(p: Point<T>, q: Query) {
    q.radius.Real? && (q.radius.value < 0.0 || DistSq(p, q) > Sq(q.radius.value))
  }

  /**
   * Every point is still to visit, no closer than the best so far, or
   * beyond the radius.
   */
  ghost predicate Covered<T>(points: set<Point<T>>, queue: seq<Node<T>>, minD: Extended, q: Query) {
    forall o :: o in points ==>
      o in Pending(queue) || (minD.Real? && minD.value <= DistSq(o, q)) || Skippable(o, q)
  }

  /** Popping a node whose points are all settled keeps every point covered. */
  lemma CoveredPop<T>(points: set<Point<T>>, queue: seq<Node<T>>, rest: seq<Node<T>>, node: Node<T>,
                      minD: Extended, q: Query)
    requires Covered(points, queue, minD, q)
    requires Pending(queue) == Pending(rest) + Points(node)
    requires forall o :: o in Points(node) ==> (minD.Real? && minD.value <= DistSq(o, q)) || Skippable(o, q)
    ensures Covered(points, rest, minD, q)
  {
  }

  /** Lowering the best distance so far keeps every point covered. */
  lemma CoveredLower<T>(points: set<Point<T>>, queue: seq<Node<T>>, minD: Extended, lower: Extended, q: Query)
    requires Covered(points, queue, minD, q)
    requires minD.Real? ==> lower.Real? && lower.value <= minD.value
    ensures Covered(points, queue, lower, q)
  {
  }

  /**
   * The stack search of `find` over a built tree: pop a node, skip it when
   * empty or out of bounds, keep a leaf that is strictly closer than the
   * best so far, push the children of an internal node; at the end return
   * the best datum if its squared distance is below radius².
   */
  method Nearest<T>(root: Node<T>, q: Query) returns (found: Option<T>)
    requires Valid(root)
    ensures IsNearest(Points(root), q, found)
  {
    var queue := [root];
    var closest: Option<T> := None;
    var minD: Extended := Infinity;
    ghost var best: Option<Point<T>> := None;
    assert queue[..0] == [];
    while queue != []
      invariant forall i :: 0 <= i < |queue| ==> Valid(queue[i])
      invariant Pending(queue) <= Points(root)
      invariant closest.None? <==> best.None?
      invariant best.None? <==> minD.Infinity?
      invariant best.Some? ==> && best.value in Points(root)
                               && closest.value == best.value.d
                               && minD == Real(DistSq(best.value, q))
      invariant Covered(Points(root), queue, minD, q)
      decreases Weight(queue)
    {
      var node := queue[|queue| - 1];
      var rest := queue[..|queue| - 1];
      assert Pending(queue) == Pending(rest) + Points(node);
      assert forall i :: 0 <= i < |rest| ==> rest[i] == queue[i];
      ghost var pending := queue;
      queue := rest;
      if node.Empty? {
        CoveredPop(Points(root), pending, rest, node, minD, q);
        continue;
      }
      if OutOfBounds(node.box, q) {
        PrunedSkippable(node, q);
        CoveredPop(Points(root), pending, rest, node, minD, q);
        continue;
      }
      match node {
        case Leaf(_, p) =>
          var d := DistSq(p, q);
          ghost var previous := minD;
          if Below(Real(d), minD) {
            closest := Some(p.d);
            minD := Real(d);
            best := Some(p);
          }
          CoveredLower(Points(root), pending, previous, minD, q);
          CoveredPop(Points(root), pending, rest, node, minD, q);
        case Internal(_, nw, ne, sw, se) =>
          PushChildren(rest, node);
          PushValid(rest, node);
          queue := rest + [nw, ne, sw, se];
      }
    }
    found := if Below(minD, Square(q.radius)) then closest else None;
    SearchDone(Points(root), q, best, minD);
  }

  /**
   * When nothing is left to visit, the best point so far is a closest one,
   * and it is within the radius exactly when some point is.
   */
  lemma SearchDone<T>(points: set<Point<T>>, q: Query, best: Option<Point<T>>, minD: Extended)
    requires best.None? <==> minD.Infinity?
    requires best.Some? ==> best.value in points && minD == Real(DistSq(best.value, q))
    requires Covered(points, [], minD, q)
    ensures IsNearest(points, q, if Below(minD, Square(q.radius)) then (if best.Some? then Some(best.value.d) else None) else None)
  {
    if best.Some? && Below(minD, Square(q.radius)) {
      var p := best.value;
      assert InRange(p, q);
      if Sound(q.radius) {
        assert forall o :: o in points ==> DistSq(p, q) <= DistSq(o, q);
      }
    }
  }

  /** Every point below a node that is out of bounds may be skipped. */
  lemma PrunedSkippable<T>(node: Node<T>, q: Query)
    requires Valid(node) && OutOfBounds(node.box, q)
    ensures forall o :: o in Points(node) ==> Skippable(o, q)
  {
    forall o | o in Points(node)
      ensures Skippable(o, q)
    {
      if q.radius.value >= 0.0 {
        PruneSound(node, q, o);
      }
    }
  }

  /**
   * With a non-negative radius and a point within it that is strictly
   * closer than every point of another datum, `find` returns that datum.
   */
  lemma NearestDetermined<T>(points: set<Point<T>>, q: Query, found: Option<T>, p: Point<T>)
    requires IsNearest(points, q, found) && Sound(q.radius)
    requires p in points && InRange(p, q)
    requires forall o :: o in points && o.d != p.d ==> DistSq(p, q) < DistSq(o, q)
    ensures found == Some(p.d)
  {
    assert found.Some?;
    var w :| w in points && w.d == found.value && InRange(w, q) &&
             (Sound(q.radius) ==> forall o :: o in points ==> DistSq(w, q) <= DistSq(o, q));
    assert DistSq(w, q) <= DistSq(p, q);
  }

  /* ---------------------------------------------------------------------- */
  /* Quadtree                                                                */
  /* ---------------------------------------------------------------------- */

  /**
   * The class `Quadtree`: the data, the accessors and scales set by
   * `update` (null until then), and the tree, built lazily by `find` and
   * dropped by `update`.
   */
  class Quadtree<T> {
    const data: seq<T>
    var x: Option<Accessor<T>>
    var y: Option<Accessor<T>>
    var xScale: Option<ScaleFn>
    var yScale: Option<ScaleFn>
    var root: Option<Node<T>>

    /** `update` has been called. */
    predicate Configured()
      reads this
    {
      x.Some? && y.Some? && xScale.Some? && yScale.Some?
    }

    /** The tree the current accessors and scales determine. */
    function Tree(): Node<T>
      requires Configured()
      reads this
    {
      Built(data, x.value, y.value, xScale.value, yScale.value)
    }

    /** A cached tree is always the one the current settings determine. */
    ghost predicate Valid()
      reads this
    {
      root.Some? ==> Configured() && root.value == Tree()
    }

    constructor(data: seq<T>)
      ensures this.data == data && Valid()
      ensures x.None? && y.None? && xScale.None? && yScale.None? && root.None?
    {
      this.data := data;
      x, y, xScale, yScale := None, None, None, None;
      root := None;
    }

    /** `update`: installs new accessors and scales and drops the cached tree. */
    method Update(x: Accessor<T>, y: Accessor<T>, xScale: ScaleFn, yScale: ScaleFn)
      modifies this
      ensures Valid() && Configured() && root.None?
      ensures this.x == Some(x) && this.y == Some(y)
      ensures this.xScale == Some(xScale) && this.yScale == Some(yScale)
    {
      root := None;
      this.x := Some(x);
      this.y := Some(y);
      this.xScale := Some(xScale);
      this.yScale := Some(yScale);
    }

    /**
     * `find`: builds the tree if none is cached, then searches it.  The
     * answer is the nearest datum of the tree for the current settings.
     */
    method Find(left: real, top: real, width: real, height: real, radius: Extended)
      returns (found: Option<T>)
      requires Valid() && Configured()
      modifies `root
      ensures Valid() && root == Some(Tree()) && Tree() == old(Tree())
      ensures IsNearest(Points(Tree()), Query(left, top, width, height, radius), found)
    {
      if root.None? {
        var built := BuildTree(data, x.value, y.value, xScale.value, yScale.value);
        root := Some(built);
      }
      found := Nearest(root.value, Query(left, top, width, height, radius));
    }
  }
}
