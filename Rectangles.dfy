/**
 * The two answers of the puzzle: the greatest rectangle area over all pairs
 * of points taken as opposite corners (find_greatest_area), and the same
 * over the pairs whose two diagonals run only over tiles stored in the tile
 * map (find_greatest_area_avoiding_exclusions).
 */
module Rectangles {
  import opened Outcomes
  import opened Geometry
  import opened Lines
  import opened QuadSpec
  import opened QuadTrees

  /** Which pairs of corners count: all of them, or those whose diagonals stay on the map. */
  datatype Rule = AnyPair | InsideMap(m: Quad)

  /** Every point of pts is found by searching m. */
  predicate AllIn(m: Quad, pts: seq<Point>)
  {
    forall k :: 0 <= k < |pts| ==> m.Search(pts[k]).Some?
  }

  /**
   * The pair (p, q) passes the exclusion test: both diagonals can be drawn,
   * and every point strictly inside either of them is found in m.
   */
  predicate Accepted(m: Quad, p: Point, q: Point)
  {
    var diagonal1 := Rasterize(p.x, p.y, q.x, q.y);
    var diagonal2 := Rasterize(p.x, q.y, q.x, p.y);
    && diagonal1.Success? && diagonal2.Success?
    && AllIn(m, diagonal1.value) && AllIn(m, diagonal2.value)
  }

  predicate Keeps(rule: Rule, p: Point, q: Point)
  {
    match rule
    case AnyPair => true
    case InsideMap(m) => Accepted(m, p, q)
  }

  /** The area of the rectangle with corners p and q: calculate_area. */
  function PairArea(p: Point, q: Point): (r: int)
    ensures r >= 1
  {
    Area(p.x, p.y, q.x, q.y)
  }

  /**
   * v is the greatest area over the pairs i < j of points the rule keeps,
   * or 0 when it keeps none.
   */
  ghost predicate IsGreatestArea(points: seq<Point>, rule: Rule, v: int)
  {
    && (forall i, j :: 0 <= i < j < |points| && Keeps(rule, points[i], points[j]) ==> PairArea(points[i], points[j]) <= v)
    && (v == 0 || exists i, j :: 0 <= i < j < |points| && Keeps(rule, points[i], points[j]) && PairArea(points[i], points[j]) == v)
  }

  /**
   * combinations(points, 2): every pair of points at positions i < j, in
   * order of i and then of j.
   */
  function Combinations(points: seq<Point>): (pairs: seq<(Point, Point)>)
    ensures |pairs| == |points| * (|points| - 1) / 2
  {
    if points == [] then []
    else seq(|points| - 1, k requires 0 <= k < |points| - 1 => (points[0], points[k + 1])) + Combinations(points[1..])
  }

  /** Every pair of positions i < j is listed. */
  lemma {:induction false} CombinationsCover(points: seq<Point>, i: int, j: int)
    requires 0 <= i < j < |points|
    ensures (points[i], points[j]) in Combinations(points)
  {
    var first := seq(|points| - 1, k requires 0 <= k < |points| - 1 => (points[0], points[k + 1]));
    if i == 0 {
      assert first[j - 1] == (points[i], points[j]);
    } else {
      CombinationsCover(points[1..], i - 1, j - 1);
    }
  }

  /** Only pairs of positions i < j are listed. */
  lemma {:induction false} CombinationsFrom(points: seq<Point>, k: int)
    requires 0 <= k < |Combinations(points)|
    ensures exists i, j :: 0 <= i < j < |points| && Combinations(points)[k] == (points[i], points[j])
  {
    var first := seq(|points| - 1, k requires 0 <= k < |points| - 1 => (points[0], points[k + 1]));
    if k < |first| {
      assert Combinations(points)[k] == (points[0], points[k + 1]);
    } else {
      var rest := points[1..];
      CombinationsFrom(rest, k - |first|);
      var i, j :| 0 <= i < j < |rest| && Combinations(rest)[k - |first|] == (rest[i], rest[j]);
      assert Combinations(points)[k] == (points[i + 1], points[j + 1]);
    }
  }

  /** What max_area holds after the loop has visited the given pairs. */
  function MaxArea(pairs: seq<(Point, Point)>, rule: Rule): (v: int)
    ensures v >= 0
  {
    if pairs == [] then 0
    else
      var v := MaxArea(pairs[..|pairs| - 1], rule);
      var (p, q) := pairs[|pairs| - 1];
      if Keeps(rule, p, q) && PairArea(p, q) > v then PairArea(p, q) else v
  }

  /**
   * max_area is at least the area of every visited pair the rule keeps,
   * and it is 0 or the area of one of them.
   */
  lemma {:induction false} MaxAreaBounds(pairs: seq<(Point, Point)>, rule: Rule)
    ensures forall k :: 0 <= k < |pairs| && Keeps(rule, pairs[k].0, pairs[k].1) ==>
      PairArea(pairs[k].0, pairs[k].1) <= MaxArea(pairs, rule)
    ensures MaxArea(pairs, rule) == 0 ||
      exists k :: 0 <= k < |pairs| && Keeps(rule, pairs[k].0, pairs[k].1) &&
        PairArea(pairs[k].0, pairs[k].1) == MaxArea(pairs, rule)
  {
    if pairs != [] {
      var init := pairs[..|pairs| - 1];
      MaxAreaBounds(init, rule);
      forall k | 0 <= k < |init| ensures pairs[k] == init[k] { }
      if MaxArea(pairs, rule) == MaxArea(init, rule) && MaxArea(init, rule) != 0 {
        var k :| 0 <= k < |init| && Keeps(rule, init[k].0, init[k].1) && PairArea(init[k].0, init[k].1) == MaxArea(init, rule);
        assert pairs[k] == init[k];
      }
    }
  }

  /** Over all combinations, the fold is the greatest area of a kept pair of positions i < j. */
  lemma MaxAreaIsGreatest(points: seq<Point>, rule: Rule)
    ensures IsGreatestArea(points, rule, MaxArea(Combinations(points), rule))
  {
    var pairs := Combinations(points);
    var v := MaxArea(pairs, rule);
    MaxAreaBounds(pairs, rule);
    forall i, j | 0 <= i < j < |points| && Keeps(rule, points[i], points[j])
      ensures PairArea(points[i], points[j]) <= v
    {
      CombinationsCover(points, i, j);
      var k :| 0 <= k < |pairs| && pairs[k] == (points[i], points[j]);
    }
    if v != 0 {
      var k :| 0 <= k < |pairs| && Keeps(rule, pairs[k].0, pairs[k].1) && PairArea(pairs[k].0, pairs[k].1) == v;
      CombinationsFrom(points, k);
    }
  }

  /** find_greatest_area: the greatest area over all pairs, 0 for fewer than two points. */
  method FindGreatestArea(points: seq<Point>) returns (maxArea: int)
    ensures IsGreatestArea(points, AnyPair, maxArea)
  {
    var pairs := Combinations(points);
    maxArea := 0;
    for k := 0 to |pairs|
      invariant maxArea == MaxArea(pairs[..k], AnyPair)
    {
      assert pairs[..k + 1][..k] == pairs[..k];
      var (point1, point2) := pairs[k];
      var area := PairArea(point1, point2);
      if area > maxArea {
        maxArea := area;
      }
    }
    assert pairs[..|pairs|] == pairs;
    MaxAreaIsGreatest(points, AnyPair);
  }

  /** The same point occurs twice, at two different positions. */
  ghost predicate HasRepeat(points: seq<Point>)
  {
    exists a, b :: 0 <= a < b < |points| && points[a] == points[b]
  }

  /**
   * The check of the inner loop of find_greatest_area_avoiding_exclusions:
   * searches for every point of pts in order and stops at the first that is
   * not found.
   */
  method AllFound(exclusions: QuadTree, pts: seq<Point>) returns (allowed: bool)
    requires exclusions.Valid()
    ensures allowed <==> AllIn(exclusions.Model, pts)
  {
    var k := 0;
    while k < |pts|
      invariant 0 <= k <= |pts|
      invariant forall i :: 0 <= i < k ==> exclusions.Model.Search(pts[i]).Some?
    {
      var found := exclusions.Search(pts[k]);
      if found.None? {
        return false;
      }
      k := k + 1;
    }
    return true;
  }

  /**
   * The exclusion test for one pair: the first diagonal's points, then the
   * second's. Identical corners make the first line raise ValueError.
   */
  method PairAllowed(exclusions: QuadTree, p: Point, q: Point) returns (r: Result<bool>)
    requires exclusions.Valid()
    ensures r.Failure? <==> p == q
    ensures r.Failure? ==> r.error == ValueError
    ensures r.Success? ==> (r.value <==> Accepted(exclusions.Model, p, q))
  {
    var diagonal1 := EnumerateLineCoordinates(p.x, p.y, q.x, q.y);
    if diagonal1.Failure? {
      return Failure(diagonal1.error);
    }
    var allowed := AllFound(exclusions, diagonal1.value);
    if !allowed {
      return Success(false);
    }
    var diagonal2 := EnumerateLineCoordinates(p.x, q.y, q.x, p.y);
    if diagonal2.Failure? {
      return Failure(ValueError);
    }
    allowed := AllFound(exclusions, diagonal2.value);
    return Success(allowed);
  }

  /** No visited pair is made of two identical points. */
  ghost predicate NoIdenticalPair(pairs: seq<(Point, Point)>)
  {
    forall m :: 0 <= m < |pairs| ==> pairs[m].0 != pairs[m].1
  }

  lemma NoIdenticalPairStep(pairs: seq<(Point, Point)>, k: int)
    requires 0 <= k < |pairs| && NoIdenticalPair(pairs[..k]) && pairs[k].0 != pairs[k].1
    ensures NoIdenticalPair(pairs[..k + 1])
  {
    var visited, next := pairs[..k], pairs[..k + 1];
    forall m | 0 <= m < |next| ensures next[m].0 != next[m].1 {
      if m < k {
        assert next[m] == visited[m];
      }
    }
  }

  /** When no combination is made of identical points, no point is repeated. */
  lemma NoIdenticalPairNoRepeat(points: seq<Point>)
    requires NoIdenticalPair(Combinations(points))
    ensures !HasRepeat(points)
  {
    forall a, b | 0 <= a < b < |points| ensures points[a] != points[b] {
      CombinationsCover(points, a, b);
    }
  }

  /**
   * find_greatest_area_avoiding_exclusions: ValueError as soon as a pair of
   * identical points is reached, which happens exactly when some point is
   * repeated; otherwise the greatest area over the accepted pairs.
   */
  method FindGreatestAreaAvoidingExclusions(points: seq<Point>, exclusions: QuadTree) returns (r: Result<int>)
    requires exclusions.Valid()
    ensures r.Failure? <==> HasRepeat(points)
    ensures r.Failure? ==> r.error == ValueError
    ensures r.Success? ==> IsGreatestArea(points, InsideMap(exclusions.Model), r.value)
  {
    var pairs := Combinations(points);
    ghost var rule := InsideMap(exclusions.Model);
    var maxArea := 0;
    for k := 0 to |pairs|
      invariant maxArea == MaxArea(pairs[..k], rule)
      invariant NoIdenticalPair(pairs[..k])
    {
      assert pairs[..k + 1][..k] == pairs[..k];
      var (point1, point2) := pairs[k];
      var allowed := PairAllowed(exclusions, point1, point2);
      if allowed.Failure? {
        CombinationsFrom(points, k);
        return Failure(allowed.error);
      }
      NoIdenticalPairStep(pairs, k);
      if allowed.value {
        var area := PairArea(point1, point2);
        if area > maxArea {
          maxArea := area;
        }
      }
    }
    assert pairs[..|pairs|] == pairs;
    MaxAreaIsGreatest(points, rule);
    NoIdenticalPairNoRepeat(points);
    return Success(maxArea);
  }

  /** The answer is 0 exactly when the rule keeps no pair; in particular for fewer than two points. */
  lemma GreatestAreaZero(points: seq<Point>, rule: Rule, v: int)
    requires IsGreatestArea(points, rule, v)
    ensures v == 0 <==> forall i, j :: 0 <= i < j < |points| ==> !Keeps(rule, points[i], points[j])
  {
    if v == 0 {
      forall i, j | 0 <= i < j < |points| ensures !Keeps(rule, points[i], points[j]) {
        assert PairArea(points[i], points[j]) >= 1;
      }
    }
  }

  /** Only one value satisfies IsGreatestArea, so both loops compute a function of their input. */
  lemma GreatestAreaUnique(points: seq<Point>, rule: Rule, v: int, w: int)
    requires IsGreatestArea(points, rule, v) && IsGreatestArea(points, rule, w)
    ensures v == w
  {
    if v != 0 && w != 0 {
      var a, b :| 0 <= a < b < |points| && Keeps(rule, points[a], points[b]) && PairArea(points[a], points[b]) == v;
      var c, d :| 0 <= c < d < |points| && Keeps(rule, points[c], points[d]) && PairArea(points[c], points[d]) == w;
    }
  }

  /** Excluding pairs can only lower the answer: part two never exceeds part one. */
  lemma AvoidingAtMostPlain(points: seq<Point>, m: Quad, v: int, w: int)
    requires IsGreatestArea(points, InsideMap(m), v) && IsGreatestArea(points, AnyPair, w)
    ensures 0 <= v <= w
  {
    if v != 0 {
      var a, b :| 0 <= a < b < |points| && Keeps(InsideMap(m), points[a], points[b]) && PairArea(points[a], points[b]) == v;
      assert Keeps(AnyPair, points[a], points[b]);
    }
  }

  /** Two different points of a list occur at some positions i < j, with the same pair area. */
  lemma PairPositions(b: seq<Point>, p: Point, q: Point) returns (i: int, j: int)
    requires p in multiset(b) && q in multiset(b) && p != q
    ensures 0 <= i < j < |b| && PairArea(b[i], b[j]) == PairArea(p, q)
  {
    var k :| 0 <= k < |b| && b[k] == p;
    var m :| 0 <= m < |b| && b[m] == q;
    if k < m {
      i, j := k, m;
    } else {
      i, j := m, k;
      AreaSymmetric(p.x, p.y, q.x, q.y);
    }
  }

  /** A pair of a reordered list is no larger than the greatest area of the original. */
  lemma ReorderedPairBound(a: seq<Point>, b: seq<Point>, v: int, i: int, j: int)
    requires multiset(a) == multiset(b) && IsGreatestArea(a, AnyPair, v)
    requires 0 <= i < j < |b|
    ensures PairArea(b[i], b[j]) <= v
  {
    assert |a| == |multiset(a)| == |multiset(b)| == |b|;
    if b[i] == b[j] {
      assert PairArea(a[0], a[1]) <= v;
    } else {
      assert b[i] in multiset(a) && b[j] in multiset(a);
      var i', j' := PairPositions(a, b[i], b[j]);
      assert Keeps(AnyPair, a[i'], a[j']);
    }
  }

  /**
   * The part-one answer does not depend on the order of the points: any
   * reordering has the same greatest area. (Part two does: the diagonals it
   * checks are rasterised from the earlier point, see Lines.DirectionMatters.)
   */
  lemma GreatestAreaReordered(a: seq<Point>, b: seq<Point>, v: int)
    requires multiset(a) == multiset(b) && IsGreatestArea(a, AnyPair, v)
    ensures IsGreatestArea(b, AnyPair, v)
  {
    forall i, j | 0 <= i < j < |b| ensures PairArea(b[i], b[j]) <= v {
      ReorderedPairBound(a, b, v, i, j);
    }
    if v != 0 {
      var i, j :| 0 <= i < j < |a| && Keeps(AnyPair, a[i], a[j]) && PairArea(a[i], a[j]) == v;
      ReorderedWitness(a, b, v, i, j);
    }
  }

  /** The pair that attains the greatest area has a counterpart in any reordering. */
  lemma ReorderedWitness(a: seq<Point>, b: seq<Point>, v: int, i: int, j: int)
    requires multiset(a) == multiset(b) && 0 <= i < j < |a| && PairArea(a[i], a[j]) == v
    requires forall k, m :: 0 <= k < m < |b| ==> PairArea(b[k], b[m]) <= v
    ensures exists k, m :: 0 <= k < m < |b| && Keeps(AnyPair, b[k], b[m]) && PairArea(b[k], b[m]) == v
  {
    assert |a| == |multiset(a)| == |multiset(b)| == |b|;
    if a[i] == a[j] {
      // Equal points span area 1, the least any pair spans.
      assert PairArea(b[0], b[1]) <= v;
      assert Keeps(AnyPair, b[0], b[1]);
    } else {
      assert a[i] in multiset(b) && a[j] in multiset(b);
      var k, m := PairPositions(b, a[i], a[j]);
      assert Keeps(AnyPair, b[k], b[m]);
    }
  }
}
