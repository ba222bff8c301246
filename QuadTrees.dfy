/**
 * The QuadTree class: a sparse point index whose nodes are updated in place.
 * Each node keeps, as ghost state, the value view of its subtree (Model)
 * and the set of objects it is made of (Repr); insert and search are proved
 * against the functions on that view.
 */
module QuadTrees {
  import opened Outcomes
  import opened Geometry
  import opened QuadSpec

  class QuadTree {
    const topLeft: Corner
    const botRight: Corner
    var n: Option<Node>
    var topLeftTree: QuadTree?
    var topRightTree: QuadTree?
    var botLeftTree: QuadTree?
    var botRightTree: QuadTree?

    ghost var Model: Quad
    ghost var Repr: set<object>

    /** The view of an optional child. */
    static ghost function View(c: QuadTree?): Option<Quad>
      reads c
    {
      if c == null then None else Some(c.Model)
    }

    /** c is a valid child inside this node's footprint, not containing this node. */
    ghost predicate Owns(c: QuadTree?)
      reads this, Repr
      decreases Repr, 0
    {
      this in Repr && (c != null ==> c in Repr && c.Repr <= Repr && this !in c.Repr && c in c.Repr && c.Valid())
    }

    ghost predicate Valid()
      reads this, Repr
      decreases Repr, 1
    {
      && this in Repr
      && Owns(topLeftTree) && Owns(topRightTree) && Owns(botLeftTree) && Owns(botRightTree)
      && (topLeftTree != null && topRightTree != null ==> topLeftTree.Repr !! topRightTree.Repr)
      && (topLeftTree != null && botLeftTree != null ==> topLeftTree.Repr !! botLeftTree.Repr)
      && (topLeftTree != null && botRightTree != null ==> topLeftTree.Repr !! botRightTree.Repr)
      && (topRightTree != null && botLeftTree != null ==> topRightTree.Repr !! botLeftTree.Repr)
      && (topRightTree != null && botRightTree != null ==> topRightTree.Repr !! botRightTree.Repr)
      && (botLeftTree != null && botRightTree != null ==> botLeftTree.Repr !! botRightTree.Repr)
      && Model == Quad(topLeft, botRight, n,
                       View(topLeftTree), View(topRightTree), View(botLeftTree), View(botRightTree))
      && Model.WellFormed()
    }

    /** Child c's footprint excludes this node and is disjoint from the other children's. */
    ghost predicate Others(c: QuadTree)
      reads this, c, topLeftTree, topRightTree, botLeftTree, botRightTree
    {
      && this !in c.Repr
      && (topLeftTree != null && topLeftTree != c ==> topLeftTree.Repr !! c.Repr)
      && (topRightTree != null && topRightTree != c ==> topRightTree.Repr !! c.Repr)
      && (botLeftTree != null && botLeftTree != c ==> botLeftTree.Repr !! c.Repr)
      && (botRightTree != null && botRightTree != c ==> botRightTree.Repr !! c.Repr)
    }

    /** A node covering the given bound, holding nothing, with no children. */
    constructor (topL: Corner, botR: Corner)
      ensures Valid() && fresh(Repr)
      ensures Model == Empty(topL, botR)
    {
      topLeft, botRight := topL, botR;
      n := None;
      topLeftTree, topRightTree, botLeftTree, botRightTree := null, null, null, null;
      Model := Empty(topL, botR);
      Repr := {this};
    }

    /** inBoundary: the closed box test against this node's bound. */
    predicate InBoundary(p: Point)
    {
      InBox(topLeft, botRight, p)
    }

    /** insert: see Quad.Insert, which states what this does to Model. */
    method Insert(node: Node)
      requires Valid()
      modifies Repr
      ensures Valid() && fresh(Repr - old(Repr))
      ensures Model == old(Model).Insert(node)
      decreases Model.Measure(), 1, 0
    {
      if !InBoundary(node.pos) {
        return;
      }
      if IsUnitBox(topLeft, botRight) {
        if n.None? || n.value.pos == node.pos {
          n := Some(node);
          Model := Model.(n := Some(node));
        }
        return;
      }
      var midX := (topLeft.x + botRight.x) / 2.0;
      var midY := (topLeft.y + botRight.y) / 2.0;
      if midX >= node.pos.x as real {
        if midY >= node.pos.y as real {
          InsertTopLeft(node);
        } else {
          InsertBotLeft(node);
        }
      } else {
        if midY >= node.pos.y as real {
          InsertTopRight(node);
        } else {
          InsertBotRight(node);
        }
      }
    }

    /** Creates the empty top-left child on first use. */
    method GrowTopLeft()
      requires Valid() && topLeftTree == null && !Model.IsUnit()
      modifies this
      ensures Valid() && fresh(Repr - old(Repr)) && topLeftTree != null
      ensures Model == old(Model).(topLeftTree := Some(old(Model).ChildOrNew(TopLeft)))
    {
      var m := Mid(topLeft, botRight);
      var child := new QuadTree(topLeft, m);
      topLeftTree := child;
      Repr := Repr + child.Repr;
      Model := Model.(topLeftTree := Some(child.Model));
    }

    /** The top-left branch of insert: create the child on first use, then insert into it. */
    method InsertTopLeft(node: Node)
      requires Valid() && InBoundary(node.pos) && !Model.IsUnit()
      requires Which(topLeft, botRight, node.pos) == TopLeft
      modifies Repr
      ensures Valid() && fresh(Repr - old(Repr))
      ensures Model == old(Model).Insert(node)
      decreases Model.Measure(), 0, 1
    {
      if topLeftTree == null {
        GrowTopLeft();
        InsertGoesDown(old(Model), node, TopLeft);
        InsertGoesDown(Model, node, TopLeft);
      }
      DescendTopLeft(node);
    }

    /** Part of the top-left branch of insert: the child exists; insert into it. */
    method DescendTopLeft(node: Node)
      requires Valid() && InBoundary(node.pos) && !Model.IsUnit()
      requires topLeftTree != null
      requires Which(topLeft, botRight, node.pos) == TopLeft
      modifies Repr
      ensures Valid() && fresh(Repr - old(Repr))
      ensures Model == old(Model).Insert(node)
      decreases Model.Measure(), 0, 0
    {
      InsertGoesDown(Model, node, TopLeft);
      ChildShrinks(Model, node.pos, TopLeft);
      topLeftTree.Insert(node);
      assert Others(topLeftTree);
      Repr := Repr + topLeftTree.Repr;
      Model := Model.(topLeftTree := Some(topLeftTree.Model));
    }

    /** Creates the empty bottom-left child on first use. */
    method GrowBotLeft()
      requires Valid() && botLeftTree == null && !Model.IsUnit()
      modifies this
      ensures Valid() && fresh(Repr - old(Repr)) && botLeftTree != null
      ensures Model == old(Model).(botLeftTree := Some(old(Model).ChildOrNew(BotLeft)))
    {
      var m := Mid(topLeft, botRight);
      var child := new QuadTree(Corner(topLeft.x, m.y), Corner(m.x, botRight.y));
      botLeftTree := child;
      Repr := Repr + child.Repr;
      Model := Model.(botLeftTree := Some(child.Model));
    }

    /** The bottom-left branch of insert: create the child on first use, then insert into it. */
    method InsertBotLeft(node: Node)
      requires Valid() && InBoundary(node.pos) && !Model.IsUnit()
      requires Which(topLeft, botRight, node.pos) == BotLeft
      modifies Repr
      ensures Valid() && fresh(Repr - old(Repr))
      ensures Model == old(Model).Insert(node)
      decreases Model.Measure(), 0, 1
    {
      if botLeftTree == null {
        GrowBotLeft();
        InsertGoesDown(old(Model), node, BotLeft);
        InsertGoesDown(Model, node, BotLeft);
      }
      DescendBotLeft(node);
    }

    /** Part of the bottom-left branch of insert: the child exists; insert into it. */
    method DescendBotLeft(node: Node)
      requires Valid() && InBoundary(node.pos) && !Model.IsUnit()
      requires botLeftTree != null
      requires Which(topLeft, botRight, node.pos) == BotLeft
      modifies Repr
      ensures Valid() && fresh(Repr - old(Repr))
      ensures Model == old(Model).Insert(node)
      decreases Model.Measure(), 0, 0
    {
      InsertGoesDown(Model, node, BotLeft);
      ChildShrinks(Model, node.pos, BotLeft);
      botLeftTree.Insert(node);
      assert Others(botLeftTree);
      Repr := Repr + botLeftTree.Repr;
      Model := Model.(botLeftTree := Some(botLeftTree.Model));
    }

    /** Creates the empty top-right child on first use. */
    method GrowTopRight()
      requires Valid() && topRightTree == null && !Model.IsUnit()
      modifies this
      ensures Valid() && fresh(Repr - old(Repr)) && topRightTree != null
      ensures Model == old(Model).(topRightTree := Some(old(Model).ChildOrNew(TopRight)))
    {
      var m := Mid(topLeft, botRight);
      var child := new QuadTree(Corner(m.x, topLeft.y), Corner(botRight.x, m.y));
      topRightTree := child;
      Repr := Repr + child.Repr;
      Model := Model.(topRightTree := Some(child.Model));
    }

    /** The top-right branch of insert: create the child on first use, then insert into it. */
    method InsertTopRight(node: Node)
      requires Valid() && InBoundary(node.pos) && !Model.IsUnit()
      requires Which(topLeft, botRight, node.pos) == TopRight
      modifies Repr
      ensures Valid() && fresh(Repr - old(Repr))
      ensures Model == old(Model).Insert(node)
      decreases Model.Measure(), 0, 1
    {
      if topRightTree == null {
        GrowTopRight();
        InsertGoesDown(old(Model), node, TopRight);
        InsertGoesDown(Model, node, TopRight);
      }
      DescendTopRight(node);
    }

    /** Part of the top-right branch of insert: the child exists; insert into it. */
    method DescendTopRight(node: Node)
      requires Valid() && InBoundary(node.pos) && !Model.IsUnit()
      requires topRightTree != null
      requires Which(topLeft, botRight, node.pos) == TopRight
      modifies Repr
      ensures Valid() && fresh(Repr - old(Repr))
      ensures Model == old(Model).Insert(node)
      decreases Model.Measure(), 0, 0
    {
      InsertGoesDown(Model, node, TopRight);
      ChildShrinks(Model, node.pos, TopRight);
      topRightTree.Insert(node);
      assert Others(topRightTree);
      Repr := Repr + topRightTree.Repr;
      Model := Model.(topRightTree := Some(topRightTree.Model));
    }

    /** Creates the empty bottom-right child on first use. */
    method GrowBotRight()
      requires Valid() && botRightTree == null && !Model.IsUnit()
      modifies this
      ensures Valid() && fresh(Repr - old(Repr)) && botRightTree != null
      ensures Model == old(Model).(botRightTree := Some(old(Model).ChildOrNew(BotRight)))
    {
      var m := Mid(topLeft, botRight);
      var child := new QuadTree(m, botRight);
      botRightTree := child;
      Repr := Repr + child.Repr;
      Model := Model.(botRightTree := Some(child.Model));
    }

    /** The bottom-right branch of insert: create the child on first use, then insert into it. */
    method InsertBotRight(node: Node)
      requires Valid() && InBoundary(node.pos) && !Model.IsUnit()
      requires Which(topLeft, botRight, node.pos) == BotRight
      modifies Repr
      ensures Valid() && fresh(Repr - old(Repr))
      ensures Model == old(Model).Insert(node)
      decreases Model.Measure(), 0, 1
    {
      if botRightTree == null {
        GrowBotRight();
        InsertGoesDown(old(Model), node, BotRight);
        InsertGoesDown(Model, node, BotRight);
      }
      DescendBotRight(node);
    }

    /** Part of the bottom-right branch of insert: the child exists; insert into it. */
    method DescendBotRight(node: Node)
      requires Valid() && InBoundary(node.pos) && !Model.IsUnit()
      requires botRightTree != null
      requires Which(topLeft, botRight, node.pos) == BotRight
      modifies Repr
      ensures Valid() && fresh(Repr - old(Repr))
      ensures Model == old(Model).Insert(node)
      decreases Model.Measure(), 0, 0
    {
      InsertGoesDown(Model, node, BotRight);
      ChildShrinks(Model, node.pos, BotRight);
      botRightTree.Insert(node);
      assert Others(botRightTree);
      Repr := Repr + botRightTree.Repr;
      Model := Model.(botRightTree := Some(botRightTree.Model));
    }

    /** search: returns what Quad.Search says for the current Model. */
    method Search(p: Point) returns (r: Option<Node>)
      requires Valid()
      ensures r == Model.Search(p)
      decreases Repr
    {
      if !InBoundary(p) {
        return None;
      }
      if n.Some? {
        return n;
      }
      var midX := (topLeft.x + botRight.x) / 2.0;
      var midY := (topLeft.y + botRight.y) / 2.0;
      if midX >= p.x as real {
        if midY >= p.y as real {
          if topLeftTree == null {
            return None;
          }
          r := topLeftTree.Search(p);
        } else {
          if botLeftTree == null {
            return None;
          }
          r := botLeftTree.Search(p);
        }
      } else {
        if midY >= p.y as real {
          if topRightTree == null {
            return None;
          }
          r := topRightTree.Search(p);
        } else {
          if botRightTree == null {
            return None;
          }
          r := botRightTree.Search(p);
        }
      }
    }

    /** _totalPointsCount: the number of nodes stored in this subtree. */
    method TotalPointsCount() returns (count: nat)
      requires Valid()
      ensures count == Model.Count()
      decreases Repr, 0
    {
      count := if n.None? then 0 else 1;
      var c := CountOf(topLeftTree);
      count := count + c;
      c := CountOf(topRightTree);
      count := count + c;
      c := CountOf(botLeftTree);
      count := count + c;
      c := CountOf(botRightTree);
      count := count + c;
    }

    /** The count of an optional child: its own count, or 0 when it is missing. */
    static method CountOf(c: QuadTree?) returns (count: nat)
      requires c != null ==> c.Valid()
      ensures count == if c == null then 0 else c.Model.Count()
      decreases if c == null then {} else c.Repr, 1
    {
      if c == null {
        return 0;
      }
      count := c.TotalPointsCount();
    }
  }
}
