/**
 * The quadtree scenario of `tests/utils.test.js`: five data points, the
 * default accessors, identity scales over [0, 100], and three queries with
 * an infinite radius on a 100 x 100 plot.
 */
module QuadtreeExamples {
  import opened Wrappers
  import opened QuadNode
  import opened SpatialIndex
  import LinearScale

  function TestData(): seq<Datum> {
    [Datum(20.0, 25.0), Datum(40.0, 10.0), Datum(60.0, 50.0), Datum(80.0, 75.0), Datum(100.0, 100.0)]
  }

  /** `linearScale([0, 100], [0, 100])`. */
  function Identity(): LinearScale.Scale {
    LinearScale.Scale(LinearScale.Interval(0.0, 100.0), LinearScale.Interval(0.0, 100.0))
  }

  /** The identity scale maps every number to itself. */
  lemma IdentityScale(v: real)
    ensures Scaled(Identity())(v) == Num(v)
  {
    assert LinearScale.Slope(Identity()) == 1.0;
  }

  /** The default accessors and identity scales project a datum onto itself. */
  lemma ProjectDatum(d: Datum, i: nat)
    ensures Through(DefaultX(d, i), Scaled(Identity())) == Num(d.x)
    ensures Through(DefaultY(d, i), Scaled(Identity())) == Num(d.y)
  {
    IdentityScale(d.x);
    IdentityScale(d.y);
  }

  /** The five data points of the tests, in order. */
  ghost predicate IsTestData(data: seq<Datum>) {
    && |data| == 5
    && data[0] == Datum(20.0, 25.0) && data[1] == Datum(40.0, 10.0)
    && data[2] == Datum(60.0, 50.0) && data[3] == Datum(80.0, 75.0)
    && data[4] == Datum(100.0, 100.0)
  }

  /** The i-th datum stored at its own coordinates. */
  function At(data: seq<Datum>, i: nat): Point<Datum>
    requires i < |data|
  {
    Point(data[i], data[i].x, data[i].y)
  }

  /** Every datum stored at its own coordinates. */
  ghost function AsPoints(data: seq<Datum>): set<Point<Datum>> {
    set i | 0 <= i < |data| :: At(data, i)
  }

  /** Each test datum projected onto its own coordinates. */
  ghost predicate ProjectsOnto(data: seq<Datum>, ps: seq<Projected<Datum>>) {
    && |ps| == |data|
    && forall i :: 0 <= i < |ps| ==> ps[i] == Projected(data[i], Num(data[i].x), Num(data[i].y))
  }

  /** The default accessors and identity scales project every datum onto itself. */
  lemma ProjectAll(data: seq<Datum>)
    ensures ProjectsOnto(data, Project(data, DefaultX, DefaultY, Scaled(Identity()), Scaled(Identity())))
  {
    var ps := Project(data, DefaultX, DefaultY, Scaled(Identity()), Scaled(Identity()));
    forall i | 0 <= i < |ps|
      ensures ps[i] == Projected(data[i], Num(data[i].x), Num(data[i].y))
    {
      ProjectDatum(data[i], i);
    }
  }

  /** The stored points of projected data are the data at their own coordinates. */
  lemma StoredOnto(data: seq<Datum>, ps: seq<Projected<Datum>>)
    requires ProjectsOnto(data, ps)
    ensures forall i :: 0 <= i < |ps| ==> Plotted(ps[i])
    ensures PointsOf(ps) == AsPoints(data)
  {
    var s := PointsOf(ps);
    forall q | q in s
      ensures q in AsPoints(data)
    {
      var i :| 0 <= i < |ps| && q == PointOf(ps[i]);
      assert q == At(data, i);
    }
    forall q | q in AsPoints(data)
      ensures q in s
    {
      var i :| 0 <= i < |data| && q == At(data, i);
      assert q == PointOf(ps[i]);
    }
  }

  /** The five test points sit at five different spots. */
  lemma TestDistinct(data: seq<Datum>, ps: seq<Projected<Datum>>)
    requires IsTestData(data) && ProjectsOnto(data, ps)
    ensures forall i :: 0 <= i < |ps| ==> Plotted(ps[i])
    ensures forall i, j :: 0 <= j < i < |ps| ==> !SameSpot(PointOf(ps[j]), PointOf(ps[i]))
  {
    assert ps[0].x == Num(20.0) && ps[1].x == Num(40.0) && ps[2].x == Num(60.0);
    assert ps[3].x == Num(80.0) && ps[4].x == Num(100.0);
    forall i, j | 0 <= j < i < |ps|
      ensures ps[j].x != ps[i].x
    {
      assert j == 0 || j == 1 || j == 2 || j == 3;
      assert i == 1 || i == 2 || i == 3 || i == 4;
    }
  }

  /** The tree built for the test data stores all five points. */
  lemma TestPoints(data: seq<Datum>)
    requires IsTestData(data)
    ensures Points(Built(data, DefaultX, DefaultY, Scaled(Identity()), Scaled(Identity()))) == AsPoints(data)
  {
    var ps := Project(data, DefaultX, DefaultY, Scaled(Identity()), Scaled(Identity()));
    ProjectAll(data);
    StoredOnto(data, ps);
    TestDistinct(data, ps);
    AllStored(RootBox(ps), ps);
  }

  /** The i-th test datum at its own coordinates. */
  function TestPoint(i: nat): Point<Datum>
    requires i < 5
  {
    Point(TestData()[i], TestData()[i].x, TestData()[i].y)
  }

  /** The k-th test point is strictly closer to the pointer than every other one. */
  predicate Closest(q: Query, k: nat)
    requires k < 5
  {
    && (k != 0 ==> DistSq(TestPoint(k), q) < DistSq(TestPoint(0), q))
    && (k != 1 ==> DistSq(TestPoint(k), q) < DistSq(TestPoint(1), q))
    && (k != 2 ==> DistSq(TestPoint(k), q) < DistSq(TestPoint(2), q))
    && (k != 3 ==> DistSq(TestPoint(k), q) < DistSq(TestPoint(3), q))
    && (k != 4 ==> DistSq(TestPoint(k), q) < DistSq(TestPoint(4), q))
  }

  /** Data equal to the test data stores the test points. */
  lemma TestAt(data: seq<Datum>)
    requires IsTestData(data)
    ensures forall i :: 0 <= i < 5 ==> At(data, i) == TestPoint(i)
  {
    forall i | 0 <= i < 5
      ensures At(data, i) == TestPoint(i)
    {
      assert i == 0 || i == 1 || i == 2 || i == 3 || i == 4;
    }
  }

  /** From (0, 0) the squared distances are 1025, 1700, 6100, 12025 and 20000. */
  lemma TopLeftQuery()
    ensures Closest(Query(0.0, 0.0, 100.0, 100.0, Infinity), 0)
  {
  }

  /** From (100, 100) the squared distances are 12025, 11700, 4100, 1025 and 0. */
  lemma BottomRightQuery()
    ensures Closest(Query(100.0, 100.0, 100.0, 100.0, Infinity), 4)
  {
  }

  /** From (50, 50) the squared distances are 1525, 1700, 100, 1525 and 5000. */
  lemma CentreQuery()
    ensures Closest(Query(50.0, 50.0, 100.0, 100.0, Infinity), 2)
  {
  }

  /**
   * With an infinite radius, when the k-th test point is strictly closer
   * than every other one, `find` returns the k-th datum.
   */
  lemma Answer(data: seq<Datum>, q: Query, k: nat, found: Option<Datum>)
    requires IsTestData(data) && k < 5 && q.radius == Infinity
    requires Closest(q, k)
    requires IsNearest(AsPoints(data), q, found)
    ensures found == Some(data[k])
  {
    TestAt(data);
    var p := At(data, k);
    assert p in AsPoints(data);
    forall o | o in AsPoints(data) && o.d != p.d
      ensures DistSq(p, q) < DistSq(o, q)
    {
      var i :| 0 <= i < |data| && o == At(data, i);
      assert i == 0 || i == 1 || i == 2 || i == 3 || i == 4;
    }
    NearestDetermined(AsPoints(data), q, found, p);
  }

  /** Whatever answer meets `find`'s promise from (0, 0) is (20, 25). */
  lemma TopLeftAnswer(data: seq<Datum>, a: Option<Datum>)
    requires IsTestData(data)
    requires IsNearest(AsPoints(data), Query(0.0, 0.0, 100.0, 100.0, Infinity), a)
    ensures a == Some(Datum(20.0, 25.0))
  {
    TopLeftQuery();
    Answer(data, Query(0.0, 0.0, 100.0, 100.0, Infinity), 0, a);
  }

  /** Whatever answer meets `find`'s promise from (100, 100) is (100, 100). */
  lemma BottomRightAnswer(data: seq<Datum>, b: Option<Datum>)
    requires IsTestData(data)
    requires IsNearest(AsPoints(data), Query(100.0, 100.0, 100.0, 100.0, Infinity), b)
    ensures b == Some(Datum(100.0, 100.0))
  {
    BottomRightQuery();
    Answer(data, Query(100.0, 100.0, 100.0, 100.0, Infinity), 4, b);
  }

  /** Whatever answer meets `find`'s promise from (50, 50) is (60, 50). */
  lemma CentreAnswer(data: seq<Datum>, c: Option<Datum>)
    requires IsTestData(data)
    requires IsNearest(AsPoints(data), Query(50.0, 50.0, 100.0, 100.0, Infinity), c)
    ensures c == Some(Datum(60.0, 50.0))
  {
    CentreQuery();
    Answer(data, Query(50.0, 50.0, 100.0, 100.0, Infinity), 2, c);
  }

  /**
   * `find(0, 0, 100, 100, Infinity)` returns (20, 25), `find(100, 100, ...)`
   * returns (100, 100), and `find(50, 50, ...)` returns (60, 50).
   */
  method FindScenario(data: seq<Datum>) returns (a: Option<Datum>, b: Option<Datum>, c: Option<Datum>)
    requires IsTestData(data)
    ensures a == Some(Datum(20.0, 25.0))
    ensures b == Some(Datum(100.0, 100.0))
    ensures c == Some(Datum(60.0, 50.0))
  {
    var qt := new Quadtree(data);
    qt.Update(DefaultX, DefaultY, Scaled(Identity()), Scaled(Identity()));
    ghost var tree := qt.Tree();
    a := qt.Find(0.0, 0.0, 100.0, 100.0, Infinity);
    assert qt.Tree() == tree;
    b := qt.Find(100.0, 100.0, 100.0, 100.0, Infinity);
    assert qt.Tree() == tree;
    c := qt.Find(50.0, 50.0, 100.0, 100.0, Infinity);
    assert qt.Tree() == tree;
    TestPoints(data);
    TopLeftAnswer(data, a);
    BottomRightAnswer(data, b);
    CentreAnswer(data, c);
  }
}
