/**
 * The connector fills. A pass sorts the points on one coordinate, walks
 * them in that order, and for every two consecutive points that share it
 * inserts into the tile map each lattice point strictly between them.
 *
 * fill_vertical_line groups by y and so fills horizontal runs;
 * fill_horizontal_line groups by x and fills vertical runs.
 */
module Fills {
  import opened Outcomes
  import opened Geometry
  import opened Sorting
  import opened QuadSpec
  import opened QuadTrees

  function Min(a: int, b: int): int { if a < b then a else b }
  function Max(a: int, b: int): int { if a < b then b else a }

  /** The points with key k and other coordinate lo, lo + 1, ..., hi - 1: range(lo, hi). */
  function Run(axis: Axis, k: int, lo: int, hi: int): (r: seq<Point>)
    ensures |r| == if lo < hi then hi - lo else 0
    decreases hi - lo
  {
    if lo >= hi then [] else Run(axis, k, lo, hi - 1) + [At(axis, k, hi - 1)]
  }

  /** The i-th point of a run is the one whose other coordinate is lo + i. */
  lemma {:induction false} RunElements(axis: Axis, k: int, lo: int, hi: int)
    ensures forall i :: 0 <= i < |Run(axis, k, lo, hi)| ==> Run(axis, k, lo, hi)[i] == At(axis, k, lo + i)
    decreases hi - lo
  {
    if lo < hi {
      RunElements(axis, k, lo, hi - 1);
    }
  }

  /** g lies strictly between p and q, which share their key with it. */
  ghost predicate Between(p: Point, q: Point, g: Point, axis: Axis)
  {
    && Key(p, axis) == Key(q, axis) == Key(g, axis)
    && Min(Other(p, axis), Other(q, axis)) < Other(g, axis) < Max(Other(p, axis), Other(q, axis))
  }

  /** What one step of the walk inserts, from the previous point to the current one. */
  function Connector(previous: Point, point: Point, axis: Axis): (r: seq<Point>)
    ensures |r| == if Key(previous, axis) == Key(point, axis) && Other(previous, axis) != Other(point, axis)
                   then Abs(Other(previous, axis) - Other(point, axis)) - 1 else 0
  {
    if Key(previous, axis) == Key(point, axis) then
      Run(axis, Key(point, axis), Min(Other(previous, axis), Other(point, axis)) + 1,
          Max(Other(previous, axis), Other(point, axis)))
    else []
  }

  /** Everything a walk over s inserts, in insertion order. */
  function Gaps(s: seq<Point>, axis: Axis): seq<Point>
  {
    GapsUpTo(s, |s|, axis)
  }

  /** What the walk has inserted once it has visited the first n points of s. */
  function GapsUpTo(s: seq<Point>, n: nat, axis: Axis): seq<Point>
    requires n <= |s|
  {
    if n < 2 then [] else GapsUpTo(s, n - 1, axis) + Connector(s[n - 2], s[n - 1], axis)
  }

  /** The nodes a pass inserts: each point with the pass's colour. */
  function Paint(ps: seq<Point>, color: int): (r: seq<Node>)
    ensures |r| == |ps|
  {
    if ps == [] then [] else Paint(ps[..|ps| - 1], color) + [Node(ps[|ps| - 1], color)]
  }

  lemma {:induction false} PaintAppend(a: seq<Point>, b: seq<Point>, color: int)
    ensures Paint(a + b, color) == Paint(a, color) + Paint(b, color)
    decreases |b|
  {
    if b == [] {
      assert a + b == a;
    } else {
      assert (a + b)[..|a + b| - 1] == a + b[..|b| - 1];
      PaintAppend(a, b[..|b| - 1], color);
    }
  }

  /** The k-th node of a painted sequence carries the k-th point. */
  lemma {:induction false} PaintElements(ps: seq<Point>, color: int)
    ensures forall k :: 0 <= k < |ps| ==> Paint(ps, color)[k] == Node(ps[k], color)
  {
    if ps != [] {
      PaintElements(ps[..|ps| - 1], color);
    }
  }

  /** A connector holds exactly the points strictly between its two ends. */
  lemma ConnectorMembers(previous: Point, point: Point, axis: Axis, g: Point)
    ensures g in Connector(previous, point, axis) <==> Between(previous, point, g, axis)
  {
    var c := Connector(previous, point, axis);
    RunElements(axis, Key(point, axis), Min(Other(previous, axis), Other(point, axis)) + 1,
                Max(Other(previous, axis), Other(point, axis)));
    if Between(previous, point, g, axis) {
      var lo := Min(Other(previous, axis), Other(point, axis)) + 1;
      var i := Other(g, axis) - lo;
      assert c[i] == At(axis, Key(point, axis), Other(g, axis));
      assert g == At(axis, Key(g, axis), Other(g, axis));
    }
  }

  /** g lies strictly between two points among the first n of s that are consecutive and share a key with it. */
  ghost predicate Spanned(s: seq<Point>, n: nat, g: Point, axis: Axis)
    requires n <= |s|
  {
    exists i :: 1 <= i < n && Between(s[i - 1], s[i], g, axis)
  }

  /**
   * Every point a walk inserts lies strictly between two points that are
   * consecutive in the walk and share a key, and every such point is inserted.
   */
  lemma {:induction false} GapsMembers(s: seq<Point>, n: nat, axis: Axis, g: Point)
    requires n <= |s|
    ensures g in GapsUpTo(s, n, axis) <==> Spanned(s, n, g, axis)
  {
    if n >= 2 {
      GapsMembers(s, n - 1, axis, g);
      ConnectorMembers(s[n - 2], s[n - 1], axis, g);
      if Spanned(s, n, g, axis) {
        var i :| 1 <= i < n && Between(s[i - 1], s[i], g, axis);
        assert i < n - 1 ==> Spanned(s, n - 1, g, axis);
      }
    }
  }

  /**
   * The walk shared by both fill passes, over the points sorted on axis.
   * An empty list fails with IndexError where the first sorted point is
   * read. Otherwise every gap point is inserted with fillColor, and the
   * gap points are returned, or nothing when fillColor is 3 (light green).
   */
  method FillLine(tileMap: QuadTree, fillColor: int, points: seq<Point>, axis: Axis) returns (r: Result<seq<Point>>)
    requires tileMap.Valid()
    modifies tileMap.Repr
    ensures tileMap.Valid() && fresh(tileMap.Repr - old(tileMap.Repr))
    ensures points == [] ==> r == Failure(IndexError) && tileMap.Model == old(tileMap.Model)
    ensures points != [] ==>
      var gaps := Gaps(SortByKey(points, axis), axis);
      && r == Success(Kept(gaps, fillColor))
      && tileMap.Model == InsertAll(old(tileMap.Model), Paint(gaps, fillColor))
  {
    var sortedPoints := SortByKey(points, axis);
    if |sortedPoints| == 0 {
      return Failure(IndexError);
    }
    ghost var before := tileMap.Model;
    ghost var inserted: seq<Point> := [];
    var filled: seq<Point> := [];
    var previous := sortedPoints[0];
    var i := 1;
    while i < |sortedPoints|
      invariant 1 <= i <= |sortedPoints|
      invariant previous == sortedPoints[i - 1]
      invariant inserted == GapsUpTo(sortedPoints, i, axis)
      invariant filled == Kept(inserted, fillColor)
      invariant tileMap.Valid() && fresh(tileMap.Repr - old(tileMap.Repr))
      invariant tileMap.Model == InsertAll(before, Paint(inserted, fillColor))
    {
      var point := sortedPoints[i];
      ghost var step := Connector(previous, point, axis);
      var added := Connect(tileMap, fillColor, previous, point, axis);
      filled := filled + added;
      KeptAppend(inserted, step, fillColor);
      InsertMore(before, inserted, step, fillColor);
      inserted := inserted + step;
      previous := point;
      i := i + 1;
    }
    return Success(filled);
  }

  /**
   * One step of the walk: when the previous point and this one share their
   * key, the points strictly between them are inserted.
   */
  method Connect(tileMap: QuadTree, fillColor: int, previous: Point, point: Point, axis: Axis) returns (added: seq<Point>)
    requires tileMap.Valid()
    modifies tileMap.Repr
    ensures tileMap.Valid() && fresh(tileMap.Repr - old(tileMap.Repr))
    ensures added == Kept(Connector(previous, point, axis), fillColor)
    ensures tileMap.Model == InsertAll(old(tileMap.Model), Paint(Connector(previous, point, axis), fillColor))
  {
    if Key(previous, axis) == Key(point, axis) {
      var start := Min(Other(previous, axis), Other(point, axis)) + 1;
      var end := Max(Other(previous, axis), Other(point, axis));
      added := FillRun(tileMap, fillColor, axis, Key(point, axis), start, end);
      assert Connector(previous, point, axis) == Run(axis, Key(point, axis), start, end);
    } else {
      added := [];
      assert Connector(previous, point, axis) == [] && Paint([], fillColor) == [];
    }
  }

  /** What a pass returns of the points it inserted: all of them, or none for light green (3). */
  function Kept(ps: seq<Point>, fillColor: int): seq<Point>
  {
    if fillColor != 3 then ps else []
  }

  lemma KeptAppend(a: seq<Point>, b: seq<Point>, fillColor: int)
    ensures Kept(a + b, fillColor) == Kept(a, fillColor) + Kept(b, fillColor)
  {
  }

  /**
   * The inner loop of a fill pass: inserts the run of points with key k
   * from start up to, not including, end, and returns them unless
   * fillColor is 3.
   */
  method FillRun(tileMap: QuadTree, fillColor: int, axis: Axis, k: int, start: int, end: int) returns (added: seq<Point>)
    requires tileMap.Valid()
    modifies tileMap.Repr
    ensures tileMap.Valid() && fresh(tileMap.Repr - old(tileMap.Repr))
    ensures added == Kept(Run(axis, k, start, end), fillColor)
    ensures tileMap.Model == InsertAll(old(tileMap.Model), Paint(Run(axis, k, start, end), fillColor))
  {
    ghost var before := tileMap.Model;
    ghost var done: seq<Point> := [];
    added := [];
    var v := start;
    while v < end
      invariant start <= v <= Max(start, end)
      invariant done == Run(axis, k, start, v)
      invariant added == Kept(done, fillColor)
      invariant tileMap.Valid() && fresh(tileMap.Repr - old(tileMap.Repr))
      invariant tileMap.Model == InsertAll(before, Paint(done, fillColor))
    {
      var p := At(axis, k, v);
      tileMap.Insert(Node(p, fillColor));
      if fillColor != 3 {
        added := added + [p];
      }
      KeptAppend(done, [p], fillColor);
      InsertOneMore(before, done, p, fillColor);
      done := done + [p];
      v := v + 1;
    }
    assert Run(axis, k, start, v) == Run(axis, k, start, end);
  }

  lemma InsertMore(t: Quad, inserted: seq<Point>, more: seq<Point>, color: int)
    requires t.WellFormed()
    ensures InsertAll(t, Paint(inserted + more, color)) == InsertAll(InsertAll(t, Paint(inserted, color)), Paint(more, color))
  {
    PaintAppend(inserted, more, color);
    InsertAllAppend(t, Paint(inserted, color), Paint(more, color));
  }

  lemma InsertOneMore(t: Quad, inserted: seq<Point>, p: Point, color: int)
    requires t.WellFormed()
    ensures InsertAll(t, Paint(inserted + [p], color)) == InsertAll(t, Paint(inserted, color)).Insert(Node(p, color))
  {
    PaintAppend(inserted, [p], color);
    InsertAllAppend(t, Paint(inserted, color), [Node(p, color)]);
  }

  /** fill_vertical_line: the walk over points sorted by y, filling along x. */
  method FillVerticalLine(tileMap: QuadTree, fillColor: int, points: seq<Point>) returns (r: Result<seq<Point>>)
    requires tileMap.Valid()
    modifies tileMap.Repr
    ensures tileMap.Valid() && fresh(tileMap.Repr - old(tileMap.Repr))
    ensures points == [] ==> r == Failure(IndexError) && tileMap.Model == old(tileMap.Model)
    ensures points != [] ==>
      var gaps := Gaps(SortByKey(points, Y), Y);
      && r == Success(Kept(gaps, fillColor))
      && tileMap.Model == InsertAll(old(tileMap.Model), Paint(gaps, fillColor))
  {
    r := FillLine(tileMap, fillColor, points, Y);
  }

  /** fill_horizontal_line: the walk over points sorted by x, filling along y. */
  method FillHorizontalLine(tileMap: QuadTree, fillColor: int, points: seq<Point>) returns (r: Result<seq<Point>>)
    requires tileMap.Valid()
    modifies tileMap.Repr
    ensures tileMap.Valid() && fresh(tileMap.Repr - old(tileMap.Repr))
    ensures points == [] ==> r == Failure(IndexError) && tileMap.Model == old(tileMap.Model)
    ensures points != [] ==>
      var gaps := Gaps(SortByKey(points, X), X);
      && r == Success(Kept(gaps, fillColor))
      && tileMap.Model == InsertAll(old(tileMap.Model), Paint(gaps, fillColor))
  {
    r := FillLine(tileMap, fillColor, points, X);
  }

  /**
   * Within a group of equal keys the walk keeps the input order; the other
   * coordinate is never sorted. The row y = 0 listed as (0,0), (4,0), (2,0)
   * fills 1, 2, 3 and then 3 again: the middle red point is filled over and
   * one point is filled twice, where the order (0,0), (2,0), (4,0) fills 1
   * and 3 once each. The points are parameters so that the functions are
   * unfolded on them step by step.
   */
  lemma FillFollowsInputOrder(a: Point, b: Point, c: Point)
    requires a == Point(0, 0) && b == Point(4, 0) && c == Point(2, 0)
    ensures Gaps(SortByKey([a, b, c], Y), Y) == [Point(1, 0), Point(2, 0), Point(3, 0), Point(3, 0)]
    ensures Gaps(SortByKey([a, c, b], Y), Y) == [Point(1, 0), Point(3, 0)]
  {
    // All three share the key 0, so the stable sort leaves both orders as they are.
    assert [a][..0] == [] && SortByKey([a], Y) == [a];
    assert [a, b][..1] == [a] && SortByKey([a, b], Y) == [a, b];
    assert [a, b, c][..2] == [a, b] && SortByKey([a, b, c], Y) == [a, b, c];
    assert [a, c][..1] == [a] && SortByKey([a, c], Y) == [a, c];
    assert [a, c, b][..2] == [a, c] && SortByKey([a, c, b], Y) == [a, c, b];
    assert Connector(a, b, Y) == [Point(1, 0), Point(2, 0), Point(3, 0)];
    assert Connector(b, c, Y) == [Point(3, 0)];
    assert Connector(a, c, Y) == [Point(1, 0)];
    assert Connector(c, b, Y) == [Point(3, 0)];
    assert GapsUpTo([a, b, c], 2, Y) == Connector(a, b, Y);
    assert GapsUpTo([a, c, b], 2, Y) == Connector(a, c, Y);
  }
}
