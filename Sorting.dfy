/**
 * The stable sort on one coordinate that both fill passes start with.
 * Python's sorted() is stable: points with equal keys keep their input
 * order, and the other coordinate plays no part. It is written here as an
 * insertion sort, which has the same result.
 */
module Sorting {
  import opened Geometry

  /** The coordinate a pass sorts and groups by. */
  datatype Axis = X | Y

  function Key(p: Point, axis: Axis): int
  {
    if axis == X then p.x else p.y
  }

  /** The coordinate a pass fills along. */
  function Other(p: Point, axis: Axis): int
  {
    if axis == X then p.y else p.x
  }

  /** The point whose key on this axis is k and whose other coordinate is v. */
  function At(axis: Axis, k: int, v: int): (p: Point)
    ensures Key(p, axis) == k && Other(p, axis) == v
  {
    if axis == X then Point(k, v) else Point(v, k)
  }

  ghost predicate SortedBy(s: seq<Point>, axis: Axis)
  {
    forall i, j :: 0 <= i < j < |s| ==> Key(s[i], axis) <= Key(s[j], axis)
  }

  /** The points of s with key k, in the order s has them. */
  function KeyGroup(s: seq<Point>, axis: Axis, k: int): seq<Point>
  {
    if s == [] then []
    else KeyGroup(s[..|s| - 1], axis, k) + (if Key(s[|s| - 1], axis) == k then [s[|s| - 1]] else [])
  }

  /** Puts p after every point of s whose key is not greater than p's. */
  function InsertByKey(s: seq<Point>, p: Point, axis: Axis): (r: seq<Point>)
    ensures |r| == |s| + 1
  {
    if s == [] || Key(s[|s| - 1], axis) <= Key(p, axis) then s + [p]
    else InsertByKey(s[..|s| - 1], p, axis) + [s[|s| - 1]]
  }

  /** sorted(points, key=lambda point: point[axis]) */
  function SortByKey(s: seq<Point>, axis: Axis): (r: seq<Point>)
    ensures |r| == |s|
  {
    if s == [] then [] else InsertByKey(SortByKey(s[..|s| - 1], axis), s[|s| - 1], axis)
  }

  /** Where InsertByKey puts p: after the last point of s whose key is not greater. */
  function InsertPos(s: seq<Point>, p: Point, axis: Axis): (i: nat)
    ensures i <= |s|
  {
    if s == [] || Key(s[|s| - 1], axis) <= Key(p, axis) then |s| else InsertPos(s[..|s| - 1], p, axis)
  }

  lemma {:induction false} InsertByKeySplits(s: seq<Point>, p: Point, axis: Axis)
    ensures var i := InsertPos(s, p, axis);
      InsertByKey(s, p, axis) == s[..i] + [p] + s[i..]
  {
    if s != [] && Key(s[|s| - 1], axis) > Key(p, axis) {
      var init := s[..|s| - 1];
      InsertByKeySplits(init, p, axis);
      var i := InsertPos(init, p, axis);
      DropLast(s, i);
      assert InsertByKey(s, p, axis) == (init[..i] + [p] + init[i..]) + [s[|s| - 1]];
    }
  }

  /** Slicing the prefix without the last element, then putting it back. */
  lemma DropLast(s: seq<Point>, i: nat)
    requires i < |s|
    ensures s[..|s| - 1][..i] == s[..i]
    ensures s[..|s| - 1][i..] + [s[|s| - 1]] == s[i..]
  {
    var t := s[..|s| - 1][i..] + [s[|s| - 1]];
    assert |t| == |s[i..]|;
    forall j | 0 <= j < |t| ensures t[j] == s[i..][j] {
      if j < |t| - 1 {
        assert t[j] == s[i + j];
      }
    }
  }

  /** Every point after the insertion position has a greater key, and the one before it does not. */
  lemma {:induction false} InsertPosBounds(s: seq<Point>, p: Point, axis: Axis)
    ensures var i := InsertPos(s, p, axis);
      && (forall j :: i <= j < |s| ==> Key(s[j], axis) > Key(p, axis))
      && (0 < i ==> Key(s[i - 1], axis) <= Key(p, axis))
  {
    if s != [] && Key(s[|s| - 1], axis) > Key(p, axis) {
      var init := s[..|s| - 1];
      InsertPosBounds(init, p, axis);
      var i := InsertPos(init, p, axis);
      forall j | i <= j < |s| ensures Key(s[j], axis) > Key(p, axis) {
        if j < |s| - 1 {
          assert s[j] == init[j];
        }
      }
      if 0 < i {
        assert s[i - 1] == init[i - 1];
      }
    }
  }

  lemma {:induction false} KeyGroupAppend(a: seq<Point>, b: seq<Point>, axis: Axis, k: int)
    ensures KeyGroup(a + b, axis, k) == KeyGroup(a, axis, k) + KeyGroup(b, axis, k)
    decreases |b|
  {
    if b != [] {
      assert (a + b)[..|a + b| - 1] == a + b[..|b| - 1];
      KeyGroupAppend(a, b[..|b| - 1], axis, k);
    } else {
      assert a + b == a;
    }
  }

  lemma {:induction false} KeyGroupEmpty(s: seq<Point>, axis: Axis, k: int)
    requires forall j :: 0 <= j < |s| ==> Key(s[j], axis) != k
    ensures KeyGroup(s, axis, k) == []
  {
    if s != [] {
      KeyGroupEmpty(s[..|s| - 1], axis, k);
    }
  }

  lemma InsertByKeyFacts(s: seq<Point>, p: Point, axis: Axis)
    requires SortedBy(s, axis)
    ensures var r := InsertByKey(s, p, axis);
      && SortedBy(r, axis)
      && multiset(r) == multiset(s) + multiset{p}
      && forall k :: KeyGroup(r, axis, k) == KeyGroup(s, axis, k) + (if Key(p, axis) == k then [p] else [])
  {
    InsertByKeySplits(s, p, axis);
    InsertPosBounds(s, p, axis);
    var i := InsertPos(s, p, axis);
    InsertKeepsSorted(s, p, axis, i);
    InsertKeepsMultiset(s, p, i);
    forall k ensures KeyGroup(s[..i] + [p] + s[i..], axis, k) == KeyGroup(s, axis, k) + (if Key(p, axis) == k then [p] else []) {
      InsertKeepsGroups(s, p, axis, i, k);
    }
  }

  lemma InsertKeepsMultiset(s: seq<Point>, p: Point, i: nat)
    requires i <= |s|
    ensures multiset(s[..i] + [p] + s[i..]) == multiset(s) + multiset{p}
  {
    assert s == s[..i] + s[i..];
  }

  lemma InsertKeepsSorted(s: seq<Point>, p: Point, axis: Axis, i: nat)
    requires SortedBy(s, axis) && i <= |s|
    requires forall j :: i <= j < |s| ==> Key(s[j], axis) > Key(p, axis)
    requires 0 < i ==> Key(s[i - 1], axis) <= Key(p, axis)
    ensures SortedBy(s[..i] + [p] + s[i..], axis)
  {
    var r := s[..i] + [p] + s[i..];
    forall a, b | 0 <= a < b < |r| ensures Key(r[a], axis) <= Key(r[b], axis) {
      if b < i {
        assert r[a] == s[a] && r[b] == s[b];
      } else if b == i {
        assert r[a] == s[a];
        assert Key(s[a], axis) <= Key(s[i - 1], axis);
      } else if a > i {
        assert r[a] == s[a - 1] && r[b] == s[b - 1];
      } else if a == i {
        assert r[b] == s[b - 1];
      } else {
        assert r[a] == s[a] && r[b] == s[b - 1];
      }
    }
  }

  lemma InsertKeepsGroups(s: seq<Point>, p: Point, axis: Axis, i: nat, k: int)
    requires i <= |s|
    requires forall j :: i <= j < |s| ==> Key(s[j], axis) > Key(p, axis)
    ensures KeyGroup(s[..i] + [p] + s[i..], axis, k) == KeyGroup(s, axis, k) + (if Key(p, axis) == k then [p] else [])
  {
    KeyGroupAppend(s[..i] + [p], s[i..], axis, k);
    KeyGroupAppend(s[..i], [p], axis, k);
    KeyGroupAppend(s[..i], s[i..], axis, k);
    assert s == s[..i] + s[i..];
    assert KeyGroup([p], axis, k) == (if Key(p, axis) == k then [p] else []) by {
      assert [p][..0] == [];
    }
    if Key(p, axis) == k {
      forall j | 0 <= j < |s[i..]| ensures Key(s[i..][j], axis) != k {
        assert s[i..][j] == s[i + j];
      }
      KeyGroupEmpty(s[i..], axis, k);
    }
  }

  /**
   * The sort's result is ordered by key, holds the same points, and keeps
   * the input order among points with equal keys.
   */
  lemma {:induction false} SortByKeyIsStableSort(s: seq<Point>, axis: Axis)
    ensures SortedBy(SortByKey(s, axis), axis)
    ensures multiset(SortByKey(s, axis)) == multiset(s)
    ensures forall k :: KeyGroup(SortByKey(s, axis), axis, k) == KeyGroup(s, axis, k)
  {
    if s != [] {
      var init, last := s[..|s| - 1], s[|s| - 1];
      assert s == init + [last];
      SortByKeyIsStableSort(init, axis);
      InsertByKeyFacts(SortByKey(init, axis), last, axis);
    }
  }

  /** The sort neither adds nor loses points. */
  lemma SortByKeyMembers(s: seq<Point>, axis: Axis)
    ensures forall p :: p in SortByKey(s, axis) <==> p in s
  {
    SortByKeyIsStableSort(s, axis);
    forall p ensures p in SortByKey(s, axis) <==> p in s {
      assert p in SortByKey(s, axis) <==> p in multiset(SortByKey(s, axis));
      assert p in s <==> p in multiset(s);
    }
  }

  /**
   * A stable sort is pinned down by those properties: two orderings by key
   * that agree on every key group are the same sequence.
   */
  lemma {:induction false} SortedGroupsDetermine(a: seq<Point>, b: seq<Point>, axis: Axis)
    requires SortedBy(a, axis) && SortedBy(b, axis)
    requires forall k :: KeyGroup(a, axis, k) == KeyGroup(b, axis, k)
    ensures a == b
    decreases |a|
  {
    LastInGroup(a, axis);
    LastInGroup(b, axis);
    if a != [] && b != [] {
      assert KeyGroup(a, axis, Key(a[|a| - 1], axis)) == KeyGroup(b, axis, Key(a[|a| - 1], axis));
      assert KeyGroup(a, axis, Key(b[|b| - 1], axis)) == KeyGroup(b, axis, Key(b[|b| - 1], axis));
      LastsAgree(a, b, axis);
      var a', b' := a[..|a| - 1], b[..|b| - 1];
      assert a == a' + [a[|a| - 1]] && b == b' + [b[|b| - 1]];
      PrefixGroupsAgree(a', b', a[|a| - 1], axis);
      SortedPrefix(a, axis);
      SortedPrefix(b, axis);
      SortedGroupsDetermine(a', b', axis);
      assert a == a' + [a[|a| - 1]];
      assert b == b' + [b[|b| - 1]];
    }
  }

  /** A non-empty sequence has a non-empty key group: that of its last point. */
  lemma LastInGroup(s: seq<Point>, axis: Axis)
    ensures s != [] ==> KeyGroup(s, axis, Key(s[|s| - 1], axis)) != []
  {
  }

  /** The last element of a sorted sequence has the largest key, so it closes its group. */
  lemma LastsAgree(a: seq<Point>, b: seq<Point>, axis: Axis)
    requires SortedBy(a, axis) && SortedBy(b, axis) && a != [] && b != []
    requires KeyGroup(a, axis, Key(a[|a| - 1], axis)) == KeyGroup(b, axis, Key(a[|a| - 1], axis))
    requires KeyGroup(a, axis, Key(b[|b| - 1], axis)) == KeyGroup(b, axis, Key(b[|b| - 1], axis))
    ensures a[|a| - 1] == b[|b| - 1]
  {
    var la, lb := a[|a| - 1], b[|b| - 1];
    var ka, kb := Key(la, axis), Key(lb, axis);
    if ka < kb {
      LastHasLargestKey(a, b, axis, |b| - 1);
    } else if kb < ka {
      LastHasLargestKey(b, a, axis, |a| - 1);
    } else {
      var ga, gb := KeyGroup(a[..|a| - 1], axis, ka), KeyGroup(b[..|b| - 1], axis, ka);
      assert KeyGroup(a, axis, ka) == ga + [la];
      assert KeyGroup(b, axis, ka) == gb + [lb];
      assert la == (ga + [la])[|ga|] == (gb + [lb])[|gb|] == lb;
    }
  }

  /** No point of b can have a key above every key of the sorted a, when both share that key's group. */
  lemma LastHasLargestKey(a: seq<Point>, b: seq<Point>, axis: Axis, i: int)
    requires SortedBy(a, axis) && a != [] && 0 <= i < |b|
    requires KeyGroup(a, axis, Key(b[i], axis)) == KeyGroup(b, axis, Key(b[i], axis))
    ensures Key(b[i], axis) <= Key(a[|a| - 1], axis)
  {
    var p := b[i];
    GroupMembers(b, axis, Key(p, axis), i);
    GroupHasMember(a, axis, Key(p, axis));
    assert p in KeyGroup(a, axis, Key(p, axis));
    var j :| 0 <= j < |a| && a[j] == p;
  }

  lemma PrefixGroupsAgree(a: seq<Point>, b: seq<Point>, l: Point, axis: Axis)
    requires forall k :: KeyGroup(a + [l], axis, k) == KeyGroup(b + [l], axis, k)
    ensures forall k :: KeyGroup(a, axis, k) == KeyGroup(b, axis, k)
  {
    forall k ensures KeyGroup(a, axis, k) == KeyGroup(b, axis, k) {
      var tail := if Key(l, axis) == k then [l] else [];
      assert (a + [l])[..|a|] == a && (b + [l])[..|b|] == b;
      assert KeyGroup(a + [l], axis, k) == KeyGroup(a, axis, k) + tail;
      assert KeyGroup(b + [l], axis, k) == KeyGroup(b, axis, k) + tail;
      assert KeyGroup(a, axis, k) == (KeyGroup(a, axis, k) + tail)[..|KeyGroup(a, axis, k)|];
      assert KeyGroup(b, axis, k) == (KeyGroup(b, axis, k) + tail)[..|KeyGroup(b, axis, k)|];
    }
  }

  lemma SortedPrefix(s: seq<Point>, axis: Axis)
    requires SortedBy(s, axis) && s != []
    ensures SortedBy(s[..|s| - 1], axis)
  {
    var t := s[..|s| - 1];
    forall i, j | 0 <= i < j < |t| ensures Key(t[i], axis) <= Key(t[j], axis) {
      assert t[i] == s[i] && t[j] == s[j];
    }
  }

  /** A point of s with key k shows up in the key group of k. */
  lemma {:induction false} GroupMembers(s: seq<Point>, axis: Axis, k: int, i: int)
    requires 0 <= i < |s| && Key(s[i], axis) == k
    ensures s[i] in KeyGroup(s, axis, k)
  {
    if i < |s| - 1 {
      GroupMembers(s[..|s| - 1], axis, k, i);
    }
  }

  /** Every point in the key group of k has key k and is a point of s. */
  lemma {:induction false} GroupHasMember(s: seq<Point>, axis: Axis, k: int)
    ensures forall p :: p in KeyGroup(s, axis, k) ==> p in s && Key(p, axis) == k
  {
    if s != [] {
      GroupHasMember(s[..|s| - 1], axis, k);
      forall p | p in KeyGroup(s, axis, k) ensures p in s && Key(p, axis) == k {
        if p in KeyGroup(s[..|s| - 1], axis, k) {
          assert p in s[..|s| - 1];
        }
      }
    }
  }
}
