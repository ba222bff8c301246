/**
 * generate_inclusions: the tile map of part two. The red points are stored
 * in a quadtree spanning their bounding box; then the gaps between red
 * points that share a column or a row are painted green, and the gaps
 * between those green points painted light green.
 */
module Inclusions {
  import opened Outcomes
  import opened Geometry
  import opened Sorting
  import opened QuadSpec
  import opened QuadTrees
  import opened Fills

  const RED_TILE := 1
  const GREEN_TILE := 2
  const LIGHT_GREEN_TILE := 3

  /** sys.maxsize on a 64-bit interpreter: where the running minima start. */
  const MAX_SIZE := 0x7fff_ffff_ffff_ffff

  /** The running maximum of one coordinate, starting from init. */
  function MaxFrom(init: int, s: seq<Point>, axis: Axis): int
  {
    if s == [] then init
    else
      var m := MaxFrom(init, s[..|s| - 1], axis);
      if Key(s[|s| - 1], axis) > m then Key(s[|s| - 1], axis) else m
  }

  /** The running minimum of one coordinate, starting from init. */
  function MinFrom(init: int, s: seq<Point>, axis: Axis): int
  {
    if s == [] then init
    else
      var m := MinFrom(init, s[..|s| - 1], axis);
      if Key(s[|s| - 1], axis) < m then Key(s[|s| - 1], axis) else m
  }

  /**
   * The running maximum is at least init and every key, and it is init or
   * one of the keys.
   */
  lemma {:induction false} MaxFromBounds(init: int, s: seq<Point>, axis: Axis)
    ensures init <= MaxFrom(init, s, axis)
    ensures forall k :: 0 <= k < |s| ==> Key(s[k], axis) <= MaxFrom(init, s, axis)
    ensures MaxFrom(init, s, axis) == init || exists k :: 0 <= k < |s| && Key(s[k], axis) == MaxFrom(init, s, axis)
  {
    if s != [] {
      var init' := s[..|s| - 1];
      MaxFromBounds(init, init', axis);
      forall k | 0 <= k < |s| - 1 ensures Key(s[k], axis) <= MaxFrom(init, s, axis) {
        assert s[k] == init'[k];
      }
      if MaxFrom(init, s, axis) != init && MaxFrom(init, s, axis) != Key(s[|s| - 1], axis) {
        var k :| 0 <= k < |init'| && Key(init'[k], axis) == MaxFrom(init, init', axis);
        assert s[k] == init'[k];
      }
    }
  }

  /**
   * The running minimum is at most init and every key, and it is init or
   * one of the keys.
   */
  lemma {:induction false} MinFromBounds(init: int, s: seq<Point>, axis: Axis)
    ensures MinFrom(init, s, axis) <= init
    ensures forall k :: 0 <= k < |s| ==> MinFrom(init, s, axis) <= Key(s[k], axis)
    ensures MinFrom(init, s, axis) == init || exists k :: 0 <= k < |s| && Key(s[k], axis) == MinFrom(init, s, axis)
  {
    if s != [] {
      var init' := s[..|s| - 1];
      MinFromBounds(init, init', axis);
      forall k | 0 <= k < |s| - 1 ensures MinFrom(init, s, axis) <= Key(s[k], axis) {
        assert s[k] == init'[k];
      }
      if MinFrom(init, s, axis) != init && MinFrom(init, s, axis) != Key(s[|s| - 1], axis) {
        var k :| 0 <= k < |init'| && Key(init'[k], axis) == MinFrom(init, init', axis);
        assert s[k] == init'[k];
      }
    }
  }

  /** The bound of the tile map: the running extremes, as its two corners. */
  function Box(red: seq<Point>): (Corner, Corner)
  {
    (Corner(MinFrom(MAX_SIZE, red, X) as real, MinFrom(MAX_SIZE, red, Y) as real),
     Corner(MaxFrom(0, red, X) as real, MaxFrom(0, red, Y) as real))
  }

  /** Every red point lies inside the box the map is built on. */
  lemma BoxCovers(red: seq<Point>)
    ensures forall p :: p in red ==> InBox(Box(red).0, Box(red).1, p)
  {
    MaxFromBounds(0, red, X);
    MaxFromBounds(0, red, Y);
    MinFromBounds(MAX_SIZE, red, X);
    MinFromBounds(MAX_SIZE, red, Y);
  }

  /** The first loop of generate_inclusions: the four running extremes. */
  method BoundingBox(red: seq<Point>) returns (minX: int, minY: int, maxX: int, maxY: int)
    ensures (Corner(minX as real, minY as real), Corner(maxX as real, maxY as real)) == Box(red)
  {
    maxX, maxY := 0, 0;
    minX, minY := MAX_SIZE, MAX_SIZE;
    var k := 0;
    while k < |red|
      invariant 0 <= k <= |red|
      invariant maxX == MaxFrom(0, red[..k], X) && maxY == MaxFrom(0, red[..k], Y)
      invariant minX == MinFrom(MAX_SIZE, red[..k], X) && minY == MinFrom(MAX_SIZE, red[..k], Y)
    {
      assert red[..k + 1][..k] == red[..k];
      var p := red[k];
      if p.x > maxX {
        maxX := p.x;
      }
      if p.y > maxY {
        maxY := p.y;
      }
      if p.x < minX {
        minX := p.x;
      }
      if p.y < minY {
        minY := p.y;
      }
      k := k + 1;
    }
    assert red[..k] == red;
  }

  /** The map after the red points alone: each stored, in input order, in an empty node spanning the box. */
  function RedMap(red: seq<Point>): (t: Quad)
    ensures t.WellFormed()
    ensures (t.topLeft, t.botRight) == Box(red)
  {
    InsertAll(Empty(Box(red).0, Box(red).1), Paint(red, RED_TILE))
  }

  /** The green points: the horizontal pass's gaps followed by the vertical pass's. */
  function Green(red: seq<Point>): seq<Point>
  {
    Gaps(SortByKey(red, X), X) + Gaps(SortByKey(red, Y), Y)
  }

  /** The map after both green passes. */
  function GreenMap(red: seq<Point>): (t: Quad)
    ensures t.WellFormed()
  {
    InsertAll(InsertAll(RedMap(red), Paint(Gaps(SortByKey(red, X), X), GREEN_TILE)),
              Paint(Gaps(SortByKey(red, Y), Y), GREEN_TILE))
  }

  /**
   * What generate_inclusions returns: IndexError when there are no red
   * points (the first fill pass reads the first sorted point) or no green
   * ones (the first light-green pass does); otherwise the map after both
   * light-green passes.
   */
  function Inclusions(red: seq<Point>): (r: Result<Quad>)
    ensures r.Failure? ==> r.error == IndexError
    ensures r.Success? ==> r.value.WellFormed() && (r.value.topLeft, r.value.botRight) == Box(red)
  {
    if red == [] || Green(red) == [] then Failure(IndexError)
    else
      var green := Green(red);
      var t := InsertAll(GreenMap(red), Paint(Gaps(SortByKey(green, X), X), LIGHT_GREEN_TILE));
      Success(InsertAll(t, Paint(Gaps(SortByKey(green, Y), Y), LIGHT_GREEN_TILE)))
  }

  /** generate_inclusions */
  method GenerateInclusions(red: seq<Point>) returns (r: Result<QuadTree>)
    ensures r.Failure? <==> Inclusions(red).Failure?
    ensures r.Failure? ==> r.error == IndexError
    ensures r.Success? ==> r.value.Valid() && fresh(r.value.Repr) && r.value.Model == Inclusions(red).value
  {
    var minX, minY, maxX, maxY := BoundingBox(red);
    var tileMap := new QuadTree(Corner(minX as real, minY as real), Corner(maxX as real, maxY as real));
    AddRed(tileMap, red);
    assert fresh(tileMap.Repr);
    assert tileMap.Model == RedMap(red);
    var green := PaintGreen(tileMap, red);
    assert fresh(tileMap.Repr);
    if green.Failure? {
      return Failure(green.error);
    }
    assert tileMap.Model == GreenMap(red) && green.value == Green(red);
    var done := PaintLightGreen(tileMap, green.value);
    assert fresh(tileMap.Repr);
    if !done {
      return Failure(IndexError);
    }
    return Success(tileMap);
  }

  /**
   * The two light-green passes of generate_inclusions, horizontal then
   * vertical, over the green points; they fail exactly when there are none.
   */
  method PaintLightGreen(tileMap: QuadTree, green: seq<Point>) returns (done: bool)
    requires tileMap.Valid()
    modifies tileMap.Repr
    ensures tileMap.Valid() && fresh(tileMap.Repr - old(tileMap.Repr))
    ensures done <==> green != []
    ensures !done ==> tileMap.Model == old(tileMap.Model)
    ensures done ==>
      tileMap.Model == InsertAll(InsertAll(old(tileMap.Model), Paint(Gaps(SortByKey(green, X), X), LIGHT_GREEN_TILE)),
                                 Paint(Gaps(SortByKey(green, Y), Y), LIGHT_GREEN_TILE))
  {
    var light := FillHorizontalLine(tileMap, LIGHT_GREEN_TILE, green);
    if light.Failure? {
      return false;
    }
    light := FillVerticalLine(tileMap, LIGHT_GREEN_TILE, green);
    return light.Success?;
  }

  /** The second loop of generate_inclusions: every red point, in order, with the red colour. */
  method AddRed(tileMap: QuadTree, red: seq<Point>)
    requires tileMap.Valid()
    modifies tileMap.Repr
    ensures tileMap.Valid() && fresh(tileMap.Repr - old(tileMap.Repr))
    ensures tileMap.Model == InsertAll(old(tileMap.Model), Paint(red, RED_TILE))
  {
    ghost var before := tileMap.Model;
    var k := 0;
    while k < |red|
      invariant 0 <= k <= |red|
      invariant tileMap.Valid() && fresh(tileMap.Repr - old(tileMap.Repr))
      invariant tileMap.Model == InsertAll(before, Paint(red[..k], RED_TILE))
    {
      tileMap.Insert(Node(red[k], RED_TILE));
      InsertOneMore(before, red[..k], red[k], RED_TILE);
      assert red[..k + 1] == red[..k] + [red[k]];
      k := k + 1;
    }
    assert red[..k] == red;
  }

  /**
   * The two green passes of generate_inclusions, horizontal then vertical,
   * returning the green points they collected.
   */
  method PaintGreen(tileMap: QuadTree, red: seq<Point>) returns (r: Result<seq<Point>>)
    requires tileMap.Valid()
    modifies tileMap.Repr
    ensures tileMap.Valid() && fresh(tileMap.Repr - old(tileMap.Repr))
    ensures red == [] ==> r == Failure(IndexError) && tileMap.Model == old(tileMap.Model)
    ensures red != [] ==>
      && r == Success(Green(red))
      && tileMap.Model == InsertAll(InsertAll(old(tileMap.Model), Paint(Gaps(SortByKey(red, X), X), GREEN_TILE)),
                                    Paint(Gaps(SortByKey(red, Y), Y), GREEN_TILE))
  {
    var horizontal := FillHorizontalLine(tileMap, GREEN_TILE, red);
    if horizontal.Failure? {
      return Failure(horizontal.error);
    }
    var vertical := FillVerticalLine(tileMap, GREEN_TILE, red);
    if vertical.Failure? {
      return Failure(IndexError);
    }
    return Success(horizontal.value + vertical.value);
  }

  /**
   * A green point lies strictly between two red points that share its row
   * or its column, so it lies inside the box too.
   */
  lemma GapsInsideBox(red: seq<Point>, axis: Axis, g: Point)
    requires g in Gaps(SortByKey(red, axis), axis)
    ensures InBox(Box(red).0, Box(red).1, g)
  {
    var s := SortByKey(red, axis);
    GapsMembers(s, |s|, axis, g);
    var i :| 1 <= i < |s| && Between(s[i - 1], s[i], g, axis);
    SortByKeyMembers(red, axis);
    BoxCovers(red);
    BetweenInside(Box(red).0, Box(red).1, s[i - 1], s[i], g, axis);
  }

  /** A point strictly between two points of a box, on their shared row or column, is in the box. */
  lemma BetweenInside(lo: Corner, hi: Corner, p: Point, q: Point, g: Point, axis: Axis)
    requires InBox(lo, hi, p) && InBox(lo, hi, q) && Between(p, q, g, axis)
    ensures InBox(lo, hi, g)
  {
  }

  /** What search finds after the green passes it still finds in the finished map. */
  lemma FoundThroughLightGreen(red: seq<Point>, p: Point)
    requires Inclusions(red).Success? && GreenMap(red).Search(p).Some?
    ensures Inclusions(red).value.Search(p).Some?
  {
    var green := Green(red);
    var light := Paint(Gaps(SortByKey(green, X), X), LIGHT_GREEN_TILE);
    InsertAllKeepsFound(GreenMap(red), light, p);
    InsertAllKeepsFound(InsertAll(GreenMap(red), light), Paint(Gaps(SortByKey(green, Y), Y), LIGHT_GREEN_TILE), p);
  }

  /** Every red point is found in the map generate_inclusions returns. */
  lemma RedPointsFound(red: seq<Point>)
    requires Inclusions(red).Success?
    ensures forall p :: p in red ==> Inclusions(red).value.Search(p).Some?
  {
    var painted := Paint(red, RED_TILE);
    var g1 := Paint(Gaps(SortByKey(red, X), X), GREEN_TILE);
    var g2 := Paint(Gaps(SortByKey(red, Y), Y), GREEN_TILE);
    BoxCovers(red);
    PaintElements(red, RED_TILE);
    InsertAllFinds(Empty(Box(red).0, Box(red).1), painted);
    forall p | p in red ensures Inclusions(red).value.Search(p).Some? {
      var k :| 0 <= k < |red| && red[k] == p;
      assert painted[k].pos == p;
      InsertAllKeepsFound(RedMap(red), g1, p);
      InsertAllKeepsFound(InsertAll(RedMap(red), g1), g2, p);
      FoundThroughLightGreen(red, p);
    }
  }

  /** Every green point is found in the map generate_inclusions returns. */
  lemma GreenPointsFound(red: seq<Point>)
    requires Inclusions(red).Success?
    ensures forall g :: g in Green(red) ==> Inclusions(red).value.Search(g).Some?
  {
    var h, v := Gaps(SortByKey(red, X), X), Gaps(SortByKey(red, Y), Y);
    var t1 := InsertAll(RedMap(red), Paint(h, GREEN_TILE));
    PaintElements(h, GREEN_TILE);
    PaintElements(v, GREEN_TILE);
    InsertAllFinds(RedMap(red), Paint(h, GREEN_TILE));
    InsertAllFinds(t1, Paint(v, GREEN_TILE));
    forall g | g in Green(red) ensures Inclusions(red).value.Search(g).Some? {
      if g in h {
        var k :| 0 <= k < |h| && h[k] == g;
        GapsInsideBox(red, X, g);
        assert Paint(h, GREEN_TILE)[k].pos == g;
        InsertAllKeepsFound(t1, Paint(v, GREEN_TILE), g);
      } else {
        var k :| 0 <= k < |v| && v[k] == g;
        GapsInsideBox(red, Y, g);
        assert Paint(v, GREEN_TILE)[k].pos == g;
      }
      FoundThroughLightGreen(red, g);
    }
  }
}
