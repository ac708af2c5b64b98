/**
 * Day 9: red tiles at integer points.  Every unordered pair of tiles spans an
 * axis-parallel rectangle of tiles; part 1 is the largest such area, part 2 the
 * largest one whose box lies inside the polygon through all the tiles.  The
 * polygon test belongs to a geometry library and is a parameter here.
 */
module Day09 {
  import opened Base

  type Point = (int, int)

  /** The box of a pair of points, as `(xmin, ymin, xmax, ymax)`. */
  type Box = (int, int, int, int)

  function Abs(x: int): nat { if x < 0 then -x else x }

  /** Number of tiles in the rectangle with corners `p` and `q`, borders included. */
  function Area(p: Point, q: Point): (a: int)
    ensures a >= 1
  {
    var width, height := Abs(p.0 - q.0) + 1, Abs(p.1 - q.1) + 1;
    assert width * height >= 1 by { PositiveProduct(width, height); }
    width * height
  }

  lemma PositiveProduct(x: int, y: int)
    requires x >= 1 && y >= 1
    ensures x * y >= 1
  {
  }

  /** The box handed to the polygon test: the smaller coordinate first on each axis. */
  function BoxOf(p: Point, q: Point): (b: Box)
    ensures b.0 <= b.2 && b.1 <= b.3
    ensures (b.0 == p.0 && b.2 == q.0) || (b.0 == q.0 && b.2 == p.0)
    ensures (b.1 == p.1 && b.3 == q.1) || (b.1 == q.1 && b.3 == p.1)
  {
    var xmin := if p.0 < q.0 then p.0 else q.0;
    var xmax := if p.0 < q.0 then q.0 else p.0;
    var ymin := if p.1 < q.1 then p.1 else q.1;
    var ymax := if p.1 < q.1 then q.1 else p.1;
    (xmin, ymin, xmax, ymax)
  }

  /** Pair `(i, j)` comes before pair `(i', j')` in `itertools.combinations` order. */
  predicate Before(i: int, j: int, i': int, j': int)
  {
    i < i' || (i == i' && j < j')
  }

  /** `m` bounds the area of every pair visited before `(pi, pj)`. */
  predicate BoundsAll(points: seq<Point>, pi: int, pj: int, m: int)
  {
    forall i, j {:trigger Area(points[i], points[j])} :: 0 <= i < j < |points| && Before(i, j, pi, pj) ==> Area(points[i], points[j]) <= m
  }

  /** `m` bounds the area of every covered pair visited before `(pi, pj)`. */
  predicate BoundsCovered(points: seq<Point>, covers: Box -> bool, pi: int, pj: int, m: int)
  {
    forall i, j {:trigger Area(points[i], points[j])} :: 0 <= i < j < |points| && Before(i, j, pi, pj) && covers(BoxOf(points[i], points[j])) ==>
      Area(points[i], points[j]) <= m
  }

  /**
   * The pair loop of `solve`.  Part 1 is the largest area over all pairs (0 for
   * fewer than two points); part 2 is the largest area over the pairs whose box
   * `covers` accepts (0 when there is none).  The `current_area > max_area_p2`
   * guard only skips boxes that could not raise the maximum.
   */
  method MaxAreas(points: seq<Point>, covers: Box -> bool) returns (maxP1: int, maxP2: int)
    ensures forall i, j :: 0 <= i < j < |points| ==> Area(points[i], points[j]) <= maxP1
    ensures forall i, j :: 0 <= i < j < |points| && covers(BoxOf(points[i], points[j])) ==>
      Area(points[i], points[j]) <= maxP2
    ensures |points| < 2 ==> maxP1 == 0
    ensures |points| >= 2 ==> exists i, j :: 0 <= i < j < |points| && Area(points[i], points[j]) == maxP1
    ensures maxP2 == 0 ||
            exists i, j :: 0 <= i < j < |points| && covers(BoxOf(points[i], points[j])) && Area(points[i], points[j]) == maxP2
    ensures 0 <= maxP2 <= maxP1
  {
    maxP1, maxP2 := 0, 0;
    ghost var a1, b1, a2, b2 := 0, 0, 0, 0;
    var n := |points|;
    var i := 0;
    while i < n
      invariant 0 <= i <= n
      invariant 0 <= maxP2 <= maxP1
      invariant BoundsAll(points, i, 0, maxP1)
      invariant BoundsCovered(points, covers, i, 0, maxP2)
      invariant Attains(points, a1, b1, maxP1)
      invariant Witness(points, covers, a2, b2, maxP2)
      invariant i >= 1 && n >= 2 ==> maxP1 >= 1
    {
      maxP1, maxP2, a1, b1, a2, b2 := ScanPartners(points, covers, i, maxP1, maxP2, a1, b1, a2, b2);
      i := i + 1;
    }
    forall i, j | 0 <= i < j < n
      ensures Area(points[i], points[j]) <= maxP1
      ensures covers(BoxOf(points[i], points[j])) ==> Area(points[i], points[j]) <= maxP2
    {
      assert Before(i, j, n, 0);
    }
    if n >= 2 {
      assert Area(points[0], points[1]) <= maxP1;
    }
  }

  /** `m` is 0, or the area of pair `(a, b)`. */
  predicate Attains(points: seq<Point>, a: int, b: int, m: int)
  {
    m != 0 ==> 0 <= a < b < |points| && Area(points[a], points[b]) == m
  }

  /** `m` is 0, or the area of pair `(a, b)`, whose box passes `ok`. */
  predicate Witness(points: seq<Point>, ok: Box -> bool, a: int, b: int, m: int)
  {
    m != 0 ==> 0 <= a < b < |points| && ok(BoxOf(points[a], points[b])) && Area(points[a], points[b]) == m
  }

  /** The inner loop of the pair enumeration: point `i` against every later point. */
  method ScanPartners(points: seq<Point>, covers: Box -> bool, i: nat, max1: int, max2: int,
                      ghost a1: int, ghost b1: int, ghost a2: int, ghost b2: int)
    returns (maxP1: int, maxP2: int, ghost a1': int, ghost b1': int, ghost a2': int, ghost b2': int)
    requires i < |points| && 0 <= max2 <= max1
    requires BoundsAll(points, i, 0, max1) && BoundsCovered(points, covers, i, 0, max2)
    requires Attains(points, a1, b1, max1) && Witness(points, covers, a2, b2, max2)
    ensures 0 <= maxP2 <= maxP1 && max1 <= maxP1 && max2 <= maxP2
    ensures BoundsAll(points, i + 1, 0, maxP1) && BoundsCovered(points, covers, i + 1, 0, maxP2)
    ensures Attains(points, a1', b1', maxP1) && Witness(points, covers, a2', b2', maxP2)
    ensures i + 1 < |points| ==> maxP1 >= 1
  {
    maxP1, maxP2, a1', b1', a2', b2' := max1, max2, a1, b1, a2, b2;
    var n := |points|;
    var j := i + 1;
    while j < n
      invariant i + 1 <= j <= n
      invariant 0 <= maxP2 <= maxP1 && max1 <= maxP1 && max2 <= maxP2
      invariant BoundsAll(points, i, j, maxP1)
      invariant BoundsCovered(points, covers, i, j, maxP2)
      invariant Attains(points, a1', b1', maxP1)
      invariant Witness(points, covers, a2', b2', maxP2)
      invariant j > i + 1 ==> maxP1 >= 1
    {
      ghost var before1, before2 := maxP1, maxP2;
      maxP1, maxP2, a1', b1', a2', b2' := VisitPair(points, covers, i, j, maxP1, maxP2, a1', b1', a2', b2');
      NextPair(points, covers, i, j, before1, maxP1, before2, maxP2);
      j := j + 1;
    }
    forall a, b | 0 <= a < b < n && Before(a, b, i + 1, 0)
      ensures Area(points[a], points[b]) <= maxP1
      ensures covers(BoxOf(points[a], points[b])) ==> Area(points[a], points[b]) <= maxP2
    {
      assert Before(a, b, i, j);
    }
  }

  /** The body of the inner loop: pair `(i, j)` raises either maximum its area exceeds. */
  method VisitPair(points: seq<Point>, covers: Box -> bool, i: nat, j: nat, max1: int, max2: int,
                   ghost a1: int, ghost b1: int, ghost a2: int, ghost b2: int)
    returns (maxP1: int, maxP2: int, ghost a1': int, ghost b1': int, ghost a2': int, ghost b2': int)
    requires i < j < |points| && 0 <= max2 <= max1
    requires Attains(points, a1, b1, max1) && Witness(points, covers, a2, b2, max2)
    ensures 0 <= maxP2 <= maxP1 && max1 <= maxP1 && max2 <= maxP2 && maxP1 >= 1
    ensures Area(points[i], points[j]) <= maxP1
    ensures covers(BoxOf(points[i], points[j])) ==> Area(points[i], points[j]) <= maxP2
    ensures Attains(points, a1', b1', maxP1) && Witness(points, covers, a2', b2', maxP2)
  {
    maxP1, maxP2, a1', b1', a2', b2' := max1, max2, a1, b1, a2, b2;
    var p1, p2 := points[i], points[j];
    var width := Abs(p1.0 - p2.0) + 1;
    var height := Abs(p1.1 - p2.1) + 1;
    var currentArea := width * height;
    assert currentArea == Area(p1, p2);
    if currentArea > maxP1 {
      maxP1 := currentArea;
      a1', b1' := i, j;
    }
    if currentArea > maxP2 {
      var rect := BoxOf(p1, p2);
      if covers(rect) {
        maxP2 := currentArea;
        a2', b2' := i, j;
      }
    }
  }

  /** Visiting pair `(i, j)` with maxima that are at least as large extends both bounds past it. */
  lemma NextPair(points: seq<Point>, covers: Box -> bool, i: nat, j: nat, m1: int, m1': int, m2: int, m2': int)
    requires i < j < |points|
    requires BoundsAll(points, i, j, m1) && BoundsCovered(points, covers, i, j, m2)
    requires m1 <= m1' && m2 <= m2'
    requires Area(points[i], points[j]) <= m1'
    requires covers(BoxOf(points[i], points[j])) ==> Area(points[i], points[j]) <= m2'
    ensures BoundsAll(points, i, j + 1, m1') && BoundsCovered(points, covers, i, j + 1, m2')
  {
    forall a, b | 0 <= a < b < |points| && Before(a, b, i, j + 1)
      ensures Area(points[a], points[b]) <= m1'
      ensures covers(BoxOf(points[a], points[b])) ==> Area(points[a], points[b]) <= m2'
    {
      if Before(a, b, i, j) {
      } else {
        assert a == i && b == j;
      }
    }
  }

  /** The area does not depend on the order of the two corners. */
  lemma AreaSymmetric(p: Point, q: Point)
    ensures Area(p, q) == Area(q, p)
  {
    assert Abs(p.0 - q.0) == Abs(q.0 - p.0) && Abs(p.1 - q.1) == Abs(q.1 - p.1);
  }

  /** `solve` stops without an answer on an empty point list. */
  method Solve(points: seq<Point>, covers: Box -> bool) returns (answer: Option<(int, int)>)
    ensures answer.None? <==> points == []
    ensures answer.Some? ==> 0 <= answer.value.1 <= answer.value.0
    ensures answer.Some? ==> forall i, j :: 0 <= i < j < |points| ==> Area(points[i], points[j]) <= answer.value.0
    ensures answer.Some? ==> forall i, j :: 0 <= i < j < |points| && covers(BoxOf(points[i], points[j])) ==>
      Area(points[i], points[j]) <= answer.value.1
    ensures answer.Some? && |points| < 2 ==> answer.value.0 == 0
    ensures answer.Some? && |points| >= 2 ==>
      exists i, j :: 0 <= i < j < |points| && Area(points[i], points[j]) == answer.value.0
    ensures answer.Some? && answer.value.1 != 0 ==>
      exists i, j :: 0 <= i < j < |points| && covers(BoxOf(points[i], points[j])) && Area(points[i], points[j]) == answer.value.1
  {
    if points == [] {
      return None;
    }
    var p1, p2 := MaxAreas(points, covers);
    answer := Some((p1, p2));
  }
}
