/**
 * Integer Bresenham rasterisation of the segment between two lattice points,
 * as enumerate_line_coordinates performs it: the points strictly after the
 * start, up to but excluding the end.
 */
module Lines {
  import opened Outcomes
  import opened Geometry

  /** Direction of travel from a towards b along one axis (-1 when a >= b). */
  function Dir(a: int, b: int): (r: int)
    ensures r == 1 || r == -1
    ensures r == 1 <==> a < b
  {
    if a < b then 1 else -1
  }

  /** v lies on the closed interval between a and b, whichever way round they are. */
  predicate Within(a: int, v: int, b: int)
  {
    if a <= b then a <= v <= b else b <= v <= a
  }

  /**
   * k * d written as repeated addition, so that the loop's error invariant
   * stays linear where it is used and products appear only in ErrorTerm.
   */
  function Times(k: nat, d: int): int
  {
    if k == 0 then 0 else Times(k - 1, d) + d
  }

  lemma {:induction false} TimesIsProduct(k: nat, d: int)
    ensures Times(k, d) == k * d
  {
    if k > 0 {
      TimesIsProduct(k - 1, d);
    }
  }

  /** The fixed parameters of one call: the two endpoints. */
  datatype Segment = Segment(x1: int, y1: int, x2: int, y2: int)
  {
    function Dx(): int { Abs(x2 - x1) }
    function Dy(): int { Abs(y2 - y1) }
    function Sx(): int { Dir(x1, x2) }
    function Sy(): int { Dir(y1, y2) }
    function Start(): Point { Point(x1, y1) }
    function End(): Point { Point(x2, y2) }

    /**
     * The loop state (x, y, error) that the rasteriser can be in at the top of
     * its loop: the cursor is inside the endpoints' box, has not reached the
     * end, and the error term records how far it has moved on each axis.
     */
    ghost predicate OnTrack(x: int, y: int, err: int)
    {
      && Within(x1, x, x2) && Within(y1, y, y2)
      && (x, y) != (x2, y2)
      && err == Dx() - Dy() - Times(Abs(x - x1), Dy()) + Times(Abs(y - y1), Dx())
    }

    /** Distance still to travel; every loop iteration lowers it. */
    function Remaining(x: int, y: int): nat
    {
      Abs(x2 - x) + Abs(y2 - y)
    }
  }

  /** One iteration of the loop body: the new (x, y, error). */
  function Advance(s: Segment, x: int, y: int, err: int): (int, int, int)
  {
    var stepX := err * 2 > -s.Dy();
    var stepY := err * 2 < s.Dx();
    (if stepX then x + s.Sx() else x,
     if stepY then y + s.Sy() else y,
     err - (if stepX then s.Dy() else 0) + (if stepY then s.Dx() else 0))
  }

  /**
   * Facts about one axis of travel from a to b, with the cursor at v: how
   * far it has come, and what one step in direction Dir(a, b) does.
   */
  lemma AxisStep(a: int, v: int, b: int)
    requires Within(a, v, b)
    ensures Abs(v - a) <= Abs(b - a)
    ensures v == b <==> Abs(v - a) == Abs(b - a)
    ensures Abs(b - v) == Abs(b - a) - Abs(v - a)
    ensures v != b ==> && Within(a, v + Dir(a, b), b)
                       && Abs(v + Dir(a, b) - a) == Abs(v - a) + 1
                       && Abs(b - (v + Dir(a, b))) == Abs(b - v) - 1
  {
  }

  /**
   * The Bresenham error term after i steps in x and j in y. Where the cursor
   * has arrived on one axis the term forbids another step on that axis, and
   * unless both have arrived it allows a step on at least one.
   */
  lemma ErrorTerm(dx: int, dy: int, i: nat, j: nat, err: int)
    requires 0 <= i <= dx && 0 <= j <= dy && !(i == dx && j == dy)
    requires err == dx - dy - Times(i, dy) + Times(j, dx)
    ensures i == dx ==> !(err * 2 > -dy)
    ensures j == dy ==> !(err * 2 < dx)
    ensures err * 2 > -dy || err * 2 < dx
    ensures err - dy == dx - dy - Times(i + 1, dy) + Times(j, dx)
    ensures err + dx == dx - dy - Times(i, dy) + Times(j + 1, dx)
    ensures err - dy + dx == dx - dy - Times(i + 1, dy) + Times(j + 1, dx)
  {
    TimesIsProduct(i, dy);
    TimesIsProduct(j, dx);
    if i == dx {
      assert err == dx * (1 + j - dy) - dy;
      assert dx * (1 + j - dy) <= 0 by { MulNonPos(dx, 1 + j - dy); }
    }
    if j == dy {
      assert err == dy * (dx - i - 1) + dx;
      assert dy * (dx - i - 1) >= 0 by { MulNonNeg(dy, dx - i - 1); }
    }
  }

  lemma MulNonPos(a: int, b: int)
    requires a >= 0 && b <= 0
    ensures a * b <= 0
  {
  }

  lemma MulNonNeg(a: int, b: int)
    requires a >= 0 && b >= 0
    ensures a * b >= 0
  {
  }

  /**
   * One iteration from an on-track state moves x by 0 or sx and y by 0 or
   * sy, moves at least one of them, never passes an endpoint coordinate,
   * and leaves either the end point or another on-track state.
   */
  lemma AdvanceOnTrack(s: Segment, x: int, y: int, err: int)
    requires s.OnTrack(x, y, err)
    ensures var (x', y', err') := Advance(s, x, y, err);
      && (x' == x || x' == x + s.Sx()) && (y' == y || y' == y + s.Sy())
      && (x', y') != (x, y)
      && Within(s.x1, x', s.x2) && Within(s.y1, y', s.y2)
      && Abs(x' - s.x1) + Abs(y' - s.y1) > Abs(x - s.x1) + Abs(y - s.y1)
      && s.Remaining(x', y') < s.Remaining(x, y)
      && ((x', y') == (s.x2, s.y2) || s.OnTrack(x', y', err'))
  {
    var i, j := Abs(x - s.x1), Abs(y - s.y1);
    var stepX, stepY := err * 2 > -s.Dy(), err * 2 < s.Dx();
    AdvanceCounts(s, x, y, err);
    ErrorTerm(s.Dx(), s.Dy(), i, j, err);
    var i', j' := if stepX then i + 1 else i, if stepY then j + 1 else j;
    var (x', y', err') := Advance(s, x, y, err);
    assert err' == s.Dx() - s.Dy() - Times(i', s.Dy()) + Times(j', s.Dx());
  }

  /**
   * The counting side of one iteration: on each axis the cursor advances by
   * exactly the steps the error term allows, and it advances on at least one.
   */
  lemma AdvanceCounts(s: Segment, x: int, y: int, err: int)
    requires s.OnTrack(x, y, err)
    ensures var (x', y', err') := Advance(s, x, y, err);
      var stepX, stepY := err * 2 > -s.Dy(), err * 2 < s.Dx();
      && (stepX || stepY)
      && (stepX ==> x != s.x2) && (stepY ==> y != s.y2)
      && Within(s.x1, x', s.x2) && Within(s.y1, y', s.y2)
      && Abs(x' - s.x1) == (if stepX then Abs(x - s.x1) + 1 else Abs(x - s.x1))
      && Abs(y' - s.y1) == (if stepY then Abs(y - s.y1) + 1 else Abs(y - s.y1))
      && Abs(s.x2 - x') == s.Dx() - Abs(x' - s.x1)
      && Abs(s.y2 - y') == s.Dy() - Abs(y' - s.y1)
  {
    AxisStep(s.x1, x, s.x2);
    AxisStep(s.y1, y, s.y2);
    ErrorTerm(s.Dx(), s.Dy(), Abs(x - s.x1), Abs(y - s.y1), err);
    var (x', y', err') := Advance(s, x, y, err);
    AxisStep(s.x1, x', s.x2);
    AxisStep(s.y1, y', s.y2);
  }

  /**
   * The points the loop yields from state (x, y, error) onwards: the while
   * loop of enumerate_line_coordinates, unrolled one iteration per element.
   */
  function Trace(s: Segment, x: int, y: int, err: int): (r: seq<Point>)
    requires s.OnTrack(x, y, err)
    decreases s.Remaining(x, y)
  {
    AdvanceOnTrack(s, x, y, err);
    var (x', y', err') := Advance(s, x, y, err);
    if x' == s.x2 && y' == s.y2 then [] else [Point(x', y')] + Trace(s, x', y', err')
  }

  /** Trace unrolled once: either the next state is the end, or it is yielded. */
  lemma TraceStep(s: Segment, x: int, y: int, err: int)
    requires s.OnTrack(x, y, err)
    ensures var (x', y', err') := Advance(s, x, y, err);
      if x' == s.x2 && y' == s.y2 then Trace(s, x, y, err) == []
      else s.OnTrack(x', y', err') && Trace(s, x, y, err) == [Point(x', y')] + Trace(s, x', y', err')
  {
    AdvanceOnTrack(s, x, y, err);
  }

  /** What the generator produces for the endpoints (x1, y1) and (x2, y2). */
  function Rasterize(x1: int, y1: int, x2: int, y2: int): (r: Result<seq<Point>>)
    ensures r.Failure? <==> x1 == x2 && y1 == y2
    ensures r.Failure? ==> r.error == ValueError
  {
    var s := Segment(x1, y1, x2, y2);
    if x1 == x2 && y1 == y2 then Failure(ValueError)
    else Success(Trace(s, x1, y1, s.Dx() - s.Dy()))
  }

  /** One move of the rasteriser: 0 or sx in x, 0 or sy in y, and not standing still. */
  predicate IsStep(s: Segment, p: Point, q: Point)
  {
    && (q.x == p.x || q.x == p.x + s.Sx())
    && (q.y == p.y || q.y == p.y + s.Sy())
    && p != q
  }

  /**
   * p lies in the endpoints' closed box, is not the end point, and is
   * further from the start than the cursor (x, y).
   */
  ghost predicate Ahead(s: Segment, x: int, y: int, p: Point)
  {
    && Within(s.x1, p.x, s.x2) && Within(s.y1, p.y, s.y2)
    && p != s.End()
    && Abs(p.x - s.x1) + Abs(p.y - s.y1) > Abs(x - s.x1) + Abs(y - s.y1)
  }

  /** Every point yielded from an on-track state is ahead of that state. */
  lemma {:induction false} TraceInside(s: Segment, x: int, y: int, err: int)
    requires s.OnTrack(x, y, err)
    ensures forall k :: 0 <= k < |Trace(s, x, y, err)| ==> Ahead(s, x, y, Trace(s, x, y, err)[k])
    decreases s.Remaining(x, y)
  {
    TraceStep(s, x, y, err);
    AdvanceOnTrack(s, x, y, err);
    var (x', y', err') := Advance(s, x, y, err);
    if (x', y') != (s.x2, s.y2) {
      var rest := Trace(s, x', y', err');
      TraceInside(s, x', y', err');
      forall k | 0 <= k < |Trace(s, x, y, err)|
        ensures Ahead(s, x, y, Trace(s, x, y, err)[k])
      {
        if k > 0 {
          assert Trace(s, x, y, err)[k] == rest[k - 1];
          assert Ahead(s, x', y', rest[k - 1]);
        }
      }
    }
  }

  /**
   * The yielded points, with the current cursor in front and the end point
   * behind, form a chain of single rasteriser moves.
   */
  lemma {:induction false} TraceConnected(s: Segment, x: int, y: int, err: int)
    requires s.OnTrack(x, y, err)
    ensures var path := [Point(x, y)] + Trace(s, x, y, err) + [s.End()];
      forall k :: 0 <= k < |path| - 1 ==> IsStep(s, path[k], path[k + 1])
    decreases s.Remaining(x, y)
  {
    TraceStep(s, x, y, err);
    AdvanceOnTrack(s, x, y, err);
    var (x', y', err') := Advance(s, x, y, err);
    var path := [Point(x, y)] + Trace(s, x, y, err) + [s.End()];
    if (x', y') == (s.x2, s.y2) {
      assert path == [Point(x, y), s.End()];
    } else {
      TraceConnected(s, x', y', err');
      var tail := [Point(x', y')] + Trace(s, x', y', err') + [s.End()];
      assert path == [Point(x, y)] + tail;
      forall k | 0 <= k < |path| - 1
        ensures IsStep(s, path[k], path[k + 1])
      {
        if k > 0 {
          assert path[k] == tail[k - 1] && path[k + 1] == tail[k];
        }
      }
    }
  }

  /**
   * What the generator promises for two distinct endpoints: it never yields
   * either endpoint, every yielded point lies in their closed bounding box,
   * and start, yielded points and end form a chain in which each move
   * changes x by 0 or sx and y by 0 or sy and changes at least one.
   */
  lemma RasterizeSound(x1: int, y1: int, x2: int, y2: int)
    requires (x1, y1) != (x2, y2)
    ensures Rasterize(x1, y1, x2, y2).Success?
    ensures var line := Rasterize(x1, y1, x2, y2).value;
      && (forall k :: 0 <= k < |line| ==>
            && line[k] != Point(x1, y1) && line[k] != Point(x2, y2)
            && Within(x1, line[k].x, x2) && Within(y1, line[k].y, y2))
      && var path := [Point(x1, y1)] + line + [Point(x2, y2)];
         forall k :: 0 <= k < |path| - 1 ==> IsStep(Segment(x1, y1, x2, y2), path[k], path[k + 1])
  {
    var s := Segment(x1, y1, x2, y2);
    assert Rasterize(x1, y1, x2, y2).value == Trace(s, x1, y1, s.Dx() - s.Dy());
    TraceInside(s, x1, y1, s.Dx() - s.Dy());
    TraceConnected(s, x1, y1, s.Dx() - s.Dy());
  }

  /**
   * enumerate_line_coordinates: raises ValueError for identical endpoints,
   * otherwise runs the Bresenham loop and collects what it yields.
   */
  method EnumerateLineCoordinates(x1: int, y1: int, x2: int, y2: int) returns (r: Result<seq<Point>>)
    ensures r == Rasterize(x1, y1, x2, y2)
  {
    if x1 == x2 && y1 == y2 {
      return Failure(ValueError);
    }
    var s := Segment(x1, y1, x2, y2);
    var dx, dy := s.Dx(), s.Dy();
    var sx, sy := s.Sx(), s.Sy();
    var error := dx - dy;
    var x, y := x1, y1;
    var out: seq<Point> := [];
    ghost var all := Trace(s, x1, y1, dx - dy);
    assert Rasterize(x1, y1, x2, y2) == Success(all);
    ghost var cursor := (x, y, error);
    while true
      invariant cursor == (x, y, error)
      invariant s.OnTrack(cursor.0, cursor.1, cursor.2)
      invariant out + Trace(s, cursor.0, cursor.1, cursor.2) == all
      decreases s.Remaining(cursor.0, cursor.1)
    {
      ghost var next := Advance(s, x, y, error);
      var currentError := error * 2;
      if currentError > -dy {
        error := error - dy;
        x := x + sx;
      }
      if currentError < dx {
        error := error + dx;
        y := y + sy;
      }
      assert x == next.0 && y == next.1 && error == next.2;
      YieldStep(s, cursor, out, all);
      cursor := next;
      if x == x2 && y == y2 {
        break;
      }
      out := out + [Point(x, y)];
    }
    return Success(out);
  }

  /** The loop body's bookkeeping: what one iteration does to the yielded prefix. */
  lemma YieldStep(s: Segment, before: (int, int, int), out: seq<Point>, all: seq<Point>)
    requires s.OnTrack(before.0, before.1, before.2)
    requires out + Trace(s, before.0, before.1, before.2) == all
    ensures var after := Advance(s, before.0, before.1, before.2);
      && ((after.0, after.1) == (s.x2, s.y2) ==> out == all)
      && ((after.0, after.1) != (s.x2, s.y2) ==>
        && s.OnTrack(after.0, after.1, after.2)
        && (out + [Point(after.0, after.1)]) + Trace(s, after.0, after.1, after.2) == all
        && s.Remaining(after.0, after.1) < s.Remaining(before.0, before.1))
  {
    var after := Advance(s, before.0, before.1, before.2);
    AdvanceOnTrack(s, before.0, before.1, before.2);
    TraceStep(s, before.0, before.1, before.2);
    if (after.0, after.1) == (s.x2, s.y2) {
      assert out + [] == out;
    } else {
      var p := Point(after.0, after.1);
      var rest := Trace(s, after.0, after.1, after.2);
      assert out + ([p] + rest) == (out + [p]) + rest;
    }
  }

  /** A walk that reaches the end on its second move yields exactly the first. */
  lemma TwoMoves(s: Segment, x: int, y: int, err: int, a: int, b: int, f: int)
    requires s.OnTrack(x, y, err)
    requires Advance(s, x, y, err) == (a, b, f) && (a, b) != (s.x2, s.y2)
    requires Advance(s, a, b, f).0 == s.x2 && Advance(s, a, b, f).1 == s.y2
    ensures Trace(s, x, y, err) == [Point(a, b)]
  {
    TraceStep(s, x, y, err);
    TraceStep(s, a, b, f);
  }

  /**
   * The walk depends on its direction: from (0, 0) to (2, 1) it passes
   * through (1, 0), but from (2, 1) back to (0, 0) through (1, 1). The
   * endpoints are parameters so that Trace is not unfolded on literals.
   */
  lemma DirectionMatters(x1: int, y1: int, x2: int, y2: int)
    requires x1 == 0 && y1 == 0 && x2 == 2 && y2 == 1
    ensures Rasterize(x1, y1, x2, y2) == Success([Point(1, 0)])
    ensures Rasterize(x2, y2, x1, y1) == Success([Point(1, 1)])
  {
    var forward := Segment(x1, y1, x2, y2);
    TwoMoves(forward, x1, y1, forward.Dx() - forward.Dy(), 1, 0, 0);
    var backward := Segment(x2, y2, x1, y1);
    TwoMoves(backward, x2, y2, backward.Dx() - backward.Dy(), 1, 1, 0);
  }
}
