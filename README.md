# Largest rectangle between red tiles, in Dafny

This project models the puzzle solver in `day9/Challenge9.py`. The input is a
list of red tiles on an integer grid.

- **Part one** (`find_greatest_area`) returns the greatest area of a rectangle
  whose opposite corners are two of the tiles. The area counts lattice cells
  inclusively: `(abs(x1-x2)+1)*(abs(y1-y2)+1)`.
- **Part two** (`find_greatest_area_avoiding_exclusions`) keeps only the pairs
  whose two diagonals run over known tiles.
  - `generate_inclusions` builds the map of known tiles as a `QuadTree`. It
    holds the red tiles, then the "green" tiles. Green tiles fill the gap
    between two red tiles that share a row or a column. Last come the
    "light green" tiles, which fill gaps between green tiles.
  - A diagonal is rasterised with the integer Bresenham walk of
    `enumerate_line_coordinates`.

Modules, following the structure of the program:

- `Outcomes`: `Option`, and `Result` with the two Python exceptions the code
  raises (`ValueError`, `IndexError`).
- `Geometry`: `Point` (the code's `Point`, and its `[x, y]` lists) and
  `calculate_area`.
- `Lines`: `enumerate_line_coordinates`.
  - The method runs the source's loop.
  - `Trace` and `Rasterize` are the functions it is proved against.
  - Lemmas give the bounding box, endpoint avoidance, the shape of each step
    and termination.
- `Sorting`: Python's `sorted(points, key=...)` on one coordinate, as a
  stable insertion sort.
  - It is proved to be sorted and a permutation.
  - Each group of equal keys keeps its input order.
  - Any sequence with those three properties is this one.
- `QuadSpec`: `Node`, and the value view `Quad` of a quadtree node, with `insert`,
  `search` and `_totalPointsCount` as functions, and the lemmas about them.
- `QuadTrees`: the `QuadTree` class itself.
  - Its fields are updated in place, with lazily created children.
  - Each node carries its ghost `Model` (a `Quad`) and its footprint `Repr`.
  - `Insert`, `Search` and `TotalPointsCount` are proved against `QuadSpec`.
- `Fills`: `fill_vertical_line` and `fill_horizontal_line`, as one
  `FillLine` parameterised by the sort axis. They are proved against `Gaps`,
  the points strictly between consecutive equal-key points.
- `Inclusions`: `generate_inclusions`, proved against the function
  `Inclusions`. Every red and green tile is shown to be searchable in the
  finished map.
- `Rectangles`: both `find_greatest_area` loops over
  `list(combinations(points, 2))`.
  - Each is proved to return the greatest area over the kept pairs at
    positions i < j (0 when none is kept).
  - Part two fails with `ValueError` exactly when a point is repeated.

Behaviour of the code that a reader might not expect, all modelled as
written:

- Fewer than two points give 0; nothing is raised (`IsGreatestArea`,
  `GreatestAreaZero`).
- No degenerate diagonal is skipped. A pair with equal x or equal y still has
  both diagonals rasterised, and only identical points reach `ValueError`
  (`PairAllowed`).
- `generate_inclusions` raises `IndexError` when there are no red points, and
  also when the red points produce no green point. Both come from a fill pass
  reading the first element of its sorted list, `sorted_points[0]` at line 154,
  when that list is empty: the first green pass in the first case, the first
  light-green pass in the second (`Inclusions`).
- The Bresenham walk depends on its direction: (0,0) to (2,1) yields (1,0),
  while (2,1) to (0,0) yields (1,1) (`DirectionMatters`). Part two draws each
  diagonal from the earlier point of the pair, so its answer can depend on the
  order of the input: the points (0,0), (4,2) and the points (4,2), (0,0)
  need different tiles to be found. Part one does not depend on the order
  (`GreatestAreaReordered`).
- The fill passes sort on one coordinate only. Points with the same key stay
  in input order, and each is connected to the one listed just before it, so
  runs can overlap and can cover a red point (`FillFollowsInputOrder`).

`search` answers with whatever node a unit leaf holds, without comparing
positions. `insert` drops a node aimed at a leaf that holds a different
position. Both are modelled as written: `LeafKeepsFirstOccupant` shows a leaf
answering for a point that was never stored there.

## Model

| member | source | states |
|---|---|---|
| Geometry.Area | day9/Challenge9.py:14-17 | the area is at least `abs(x1-x2)+1` and at least `abs(y1-y2)+1`, so at least 1 |
| Geometry.AreaSymmetric | day9/Challenge9.py:14-17 | swapping the corners, or taking the other diagonal's corners, gives the same area; the area is at least 1 |
| Rectangles.PairArea | day9/Challenge9.py:24-26 | the area of a pair of points is at least 1 |
| Rectangles.AllIn | day9/Challenge9.py:55-58 | defines the test the part-two scan applies: every point of the list is found by `search` |
| Rectangles.Accepted | day9/Challenge9.py:44-61 | defines the pair test of part two: both diagonals rasterise and all their points are found in the map |
| Rectangles.Combinations | day9/Challenge9.py:23 | `combinations(points, 2)` has n(n-1)/2 pairs for n points |
| Rectangles.CombinationsCover | day9/Challenge9.py:23 | `combinations(points, 2)` lists the pair at every pair of positions i < j |
| Rectangles.CombinationsFrom | day9/Challenge9.py:23 | every listed pair is the pair at some positions i < j |
| Rectangles.MaxArea | day9/Challenge9.py:22-28 | the running maximum is never negative |
| Rectangles.MaxAreaBounds | day9/Challenge9.py:22-28 | after any prefix of pairs, max_area is at least the area of every kept pair, and is 0 or the area of one of them |
| Rectangles.MaxAreaIsGreatest | day9/Challenge9.py:21-29 | over all combinations, the running maximum is the greatest area over the kept pairs at positions i < j, or 0 when none is kept |
| Rectangles.FindGreatestArea | day9/Challenge9.py:21-29 | the result bounds the area of every pair at positions i < j and is one of them, or 0 with fewer than two points |
| Rectangles.GreatestAreaZero | day9/Challenge9.py:21-67 | the answer is 0 exactly when no pair is kept (in particular with fewer than two points) |
| Rectangles.GreatestAreaUnique | day9/Challenge9.py:21-67 | only one value satisfies the greatest-area property, so each answer is determined by its input |
| Rectangles.AllFound | day9/Challenge9.py:55-58 | the early-exit scan answers true exactly when every point of the list is found by `search` |
| Rectangles.PairAllowed | day9/Challenge9.py:44-61 | ValueError exactly when the two points are identical; otherwise true exactly when both diagonals rasterise and all their points are found |
| Rectangles.NoIdenticalPairNoRepeat | day9/Challenge9.py:44-53 | if no combination pairs identical points, then no point occurs twice in the list |
| Rectangles.FindGreatestAreaAvoidingExclusions | day9/Challenge9.py:34-67 | ValueError exactly when some point is repeated; otherwise the greatest area over the pairs whose diagonals lie on found tiles, or 0 |
| Rectangles.AvoidingAtMostPlain | day9/Challenge9.py:34-67 | the part-two answer is between 0 and the part-one answer on the same points |
| Rectangles.GreatestAreaReordered | day9/Challenge9.py:21-29 | the part-one answer is the same for any reordering of the points |
| Rectangles.ReorderedPairBound | day9/Challenge9.py:21-29 | every pair of a reordered list is bounded by the original greatest area |
| Rectangles.ReorderedWitness | day9/Challenge9.py:21-29 | the pair attaining the greatest area has a pair of equal area in any reordering |
| Rectangles.PairPositions | day9/Challenge9.py:23 | two different points of a list are the pair at some positions i < j, with the same area |
| Lines.Dir | day9/Challenge9.py:186-187 | the step sign `sx` or `sy` is 1 exactly when the start is below the end on that axis, and -1 otherwise, including when they are equal |
| Lines.Rasterize | day9/Challenge9.py:179-202 | fails exactly when the two endpoints are identical, and then with ValueError |
| Lines.Advance | day9/Challenge9.py:193-199 | defines one iteration of the loop: x moves when `2*error > -dy`, y when `2*error < dx`, and the error term is updated accordingly |
| Lines.Trace | day9/Challenge9.py:192-202 | defines the points the loop yields from a cursor: each next cursor until the end point, which is not yielded |
| Lines.RasterizeSound | day9/Challenge9.py:183-202 | for distinct endpoints, no yielded point is an endpoint and every one lies in the closed box of the endpoints; with both endpoints added, consecutive points differ by one step |
| Lines.TraceConnected | day9/Challenge9.py:192-202 | each step moves x by 0 or sx and y by 0 or sy, at least one of them, from the start to the end point |
| Lines.TraceInside | day9/Challenge9.py:192-202 | every later point lies in the box, differs from the end point and is strictly further from the start than the cursor |
| Lines.AdvanceOnTrack | day9/Challenge9.py:193-199 | one iteration moves the cursor by a step and stays in the box; the distance left to the end point strictly decreases, so the loop terminates; the error invariant is kept unless the end is reached |
| Lines.AdvanceCounts | day9/Challenge9.py:193-199 | an iteration always moves on at least one axis, never past the end on either axis, and counts the steps taken on each axis |
| Lines.ErrorTerm | day9/Challenge9.py:189-199 | the error term equals `dx - dy - i*dy + j*dx` after i x-steps and j y-steps; this decides which axes may move |
| Lines.TraceStep | day9/Challenge9.py:192-202 | the yielded points are the next cursor followed by the rest, or nothing when the next cursor is the end point |
| Lines.YieldStep | day9/Challenge9.py:192-202 | after each iteration, what was yielded plus what remains is the whole line |
| Lines.EnumerateLineCoordinates | day9/Challenge9.py:179-202 | the generator's output is the whole rasterised line, or ValueError for identical endpoints |
| Lines.TimesIsProduct | day9/Challenge9.py:189-199 | the repeated sum used in the error invariant is the product |
| Lines.TwoMoves | day9/Challenge9.py:192-202 | a walk whose second move reaches the end point yields only its first move |
| Lines.DirectionMatters | day9/Challenge9.py:179-202 | from (0,0) to (2,1) the walk yields (1,0); from (2,1) to (0,0) it yields (1,1) |
| Sorting.SortByKeyIsStableSort | day9/Challenge9.py:130 | sorted by the key coordinate, a permutation of the input, and every group of equal keys in input order |
| Sorting.SortByKey | day9/Challenge9.py:130 | the sort on one coordinate has as many points as its input; its properties are in `SortByKeyIsStableSort` |
| Sorting.SortedGroupsDetermine | day9/Challenge9.py:130 | two key-sorted sequences with the same equal-key groups are equal, so the stable sort is unique |
| Sorting.SortByKeyMembers | day9/Challenge9.py:150 | the sorted list has exactly the points of the input |
| Sorting.InsertByKeyFacts | day9/Challenge9.py:150 | inserting one point keeps the list sorted, adds that point to the multiset, and appends it to its key group |
| Fills.Run | day9/Challenge9.py:136 | `range(start, end)` has `end - start` points, none when `start >= end` |
| Fills.RunElements | day9/Challenge9.py:136-137 | the i-th point of a run has key k and other coordinate `start + i` |
| Fills.Connector | day9/Challenge9.py:133-136 | between two points with the same key the walk fills the `abs(difference)-1` points strictly between them on the other axis, and nothing for different keys |
| Fills.GapsUpTo | day9/Challenge9.py:131-140 | defines what the walk has filled after its first n points: the connectors of each consecutive pair so far; characterised by `GapsMembers` |
| Fills.Gaps | day9/Challenge9.py:131-140 | defines what a whole walk fills; characterised by `GapsMembers` |
| Fills.Paint | day9/Challenge9.py:137 | one node is inserted per filled point |
| Fills.ConnectorMembers | day9/Challenge9.py:133-137 | a point is filled between two consecutive points exactly when they share the key and it lies strictly between them on the other axis |
| Fills.GapsMembers | day9/Challenge9.py:130-140 | a point is filled exactly when it lies strictly between two consecutive points of the sorted list that share the key |
| Fills.PaintAppend | day9/Challenge9.py:137 | the nodes inserted for two lists are those of the first followed by those of the second |
| Fills.PaintElements | day9/Challenge9.py:137 | each inserted node is the point with the fill colour |
| Fills.Kept | day9/Challenge9.py:138-139 | defines what a pass returns of the points it inserts: all of them, or none when the colour is 3 (also lines 161-162) |
| Fills.KeptAppend | day9/Challenge9.py:138-139 | the returned points of two runs are those of the first followed by those of the second |
| Fills.FillRun | day9/Challenge9.py:136-139 | inserts the run's points in order; returns them unless the colour is 3, and then none |
| Fills.Connect | day9/Challenge9.py:133-139 | inserts exactly the connector between two points and returns it, unless the colour is 3 |
| Fills.InsertOneMore | day9/Challenge9.py:137 | inserting one more painted point is one more tree insert |
| Fills.FillLine | day9/Challenge9.py:126-170 | IndexError on an empty list with the map untouched; otherwise the map gains exactly the gaps of the key-sorted list, in order, and they are returned unless the colour is 3 |
| Fills.FillVerticalLine | day9/Challenge9.py:126-143 | FillLine sorted on y: fills along x between consecutive points of equal y |
| Fills.FillHorizontalLine | day9/Challenge9.py:145-170 | FillLine sorted on x: fills along y between consecutive points of equal x |
| Fills.FillFollowsInputOrder | day9/Challenge9.py:130-140 | the row (0,0), (4,0), (2,0) fills 1, 2, 3, 3 while (0,0), (2,0), (4,0) fills 1, 3: points of equal key are connected in input order |
| QuadSpec.DescentStaysInside | day9/Challenge9.py:259-280 | a point inside the bound lies inside the child box that the midpoint comparisons choose, and that box has half the width and height |
| QuadSpec.InBox | day9/Challenge9.py:317-318 | defines the inclusive box test of `inBoundary` |
| QuadSpec.Quad.InBoundary | day9/Challenge9.py:316-318 | `inBoundary` on the value view: the box test against the node's own bound |
| QuadSpec.IsUnitBox | day9/Challenge9.py:254 | defines the unit test of `insert`: width and height of the bound both at most 1 |
| QuadSpec.Quad.IsUnit | day9/Challenge9.py:254 | the unit test applied to the node's own bound |
| QuadSpec.Mid | day9/Challenge9.py:259-261 | the midpoint of a box lies between its corners on each axis |
| QuadSpec.Which | day9/Challenge9.py:259-280 | defines the quadrant chosen by comparing the position with the midpoint, ties going top and left; see `DescentStaysInside` |
| QuadSpec.ChildBox | day9/Challenge9.py:262-279 | defines the bound of each quadrant's child, split at the midpoint; see `DescentStaysInside` |
| QuadSpec.Quad.Count | day9/Challenge9.py:235-241 | defines `_totalPointsCount`: the node's own point plus the counts of its present children; see `InsertCount` |
| QuadSpec.Quad.ChildOrNew | day9/Challenge9.py:262-279 | the child used for a quadrant has that quadrant's bound; a newly created one is empty |
| QuadSpec.Quad.Insert | day9/Challenge9.py:244-280 | insert keeps the bound and the shape: only unit leaves hold a node, inside their bound, and unit leaves have no children |
| QuadSpec.Quad.Search | day9/Challenge9.py:283-314 | search finds something only for a point inside the bound |
| QuadSpec.Empty | day9/Challenge9.py:223-230 | a new node is well formed and holds no node |
| QuadSpec.InsertOutsideBound | day9/Challenge9.py:248-250 | for a node outside the inclusive bound, insert leaves the tree unchanged |
| QuadSpec.SearchOutsideBound | day9/Challenge9.py:284-286 | for a point outside the inclusive bound, search returns None |
| QuadSpec.SearchDescends | day9/Challenge9.py:293-314 | at an empty node, search answers as the chosen child does, or None when that child is missing |
| QuadSpec.InsertDescends | day9/Challenge9.py:259-280 | at a non-unit node, insert goes into the chosen child, which contains the point and answers the same search |
| QuadSpec.InsertGoesDown | day9/Challenge9.py:259-280 | insert at a non-unit node replaces the chosen child by the child with the node inserted |
| QuadSpec.ChildShrinks | day9/Challenge9.py:259-280 | each descent shrinks the box, so insert terminates |
| QuadSpec.SearchAfterInsert | day9/Challenge9.py:254-291 | after inserting inside the bound, search at that position returns the new node if it found nothing or a node at the same position before, and otherwise what it found before |
| QuadSpec.InsertKeepsFound | day9/Challenge9.py:244-314 | a point that search finds is still found after any insert, because a leaf's node is never cleared |
| QuadSpec.InsertCount | day9/Challenge9.py:235-280 | the count grows by one exactly when the position is inside the bound and search found nothing there before |
| QuadSpec.InsertAll | day9/Challenge9.py:97-98 | inserting a list keeps the shape and the bound |
| QuadSpec.InsertAllAppend | day9/Challenge9.py:97-98 | inserting two lists in turn is inserting their concatenation |
| QuadSpec.InsertAllKeepsFound | day9/Challenge9.py:97-98 | a found point stays found through any list of inserts |
| QuadSpec.InsertAllFinds | day9/Challenge9.py:97-98 | after inserting a list, every position of it that lies in the bound is found |
| QuadSpec.LeafKeepsFirstOccupant | day9/Challenge9.py:254-257 | a unit leaf that holds (0,0) ignores an insert at (1,1) and answers a search for (1,1) with the (0,0) node |
| QuadTrees.QuadTree.constructor | day9/Challenge9.py:223-230 | a new tree has the given bound, no node and no children |
| QuadTrees.QuadTree.InBoundary | day9/Challenge9.py:316-318 | `inBoundary` on the tree: the box test against the tree's bound |
| QuadTrees.QuadTree.Insert | day9/Challenge9.py:244-280 | the new model is the old model with the node inserted; the tree stays valid and only new objects are added |
| QuadTrees.QuadTree.GrowTopLeft | day9/Challenge9.py:262-263 | creates the empty top-left child on the upper-left half box |
| QuadTrees.QuadTree.InsertTopLeft | day9/Challenge9.py:261-264 | the top-left branch performs the insert of the model |
| QuadTrees.QuadTree.DescendTopLeft | day9/Challenge9.py:264 | inserting into an existing top-left child performs the insert of the model |
| QuadTrees.QuadTree.GrowBotLeft | day9/Challenge9.py:267-268 | creates the empty bottom-left child |
| QuadTrees.QuadTree.InsertBotLeft | day9/Challenge9.py:266-269 | the bottom-left branch performs the insert of the model |
| QuadTrees.QuadTree.DescendBotLeft | day9/Challenge9.py:269 | inserting into an existing bottom-left child performs the insert of the model |
| QuadTrees.QuadTree.GrowTopRight | day9/Challenge9.py:273-274 | creates the empty top-right child |
| QuadTrees.QuadTree.InsertTopRight | day9/Challenge9.py:272-275 | the top-right branch performs the insert of the model |
| QuadTrees.QuadTree.DescendTopRight | day9/Challenge9.py:275 | inserting into an existing top-right child performs the insert of the model |
| QuadTrees.QuadTree.GrowBotRight | day9/Challenge9.py:278-279 | creates the empty bottom-right child |
| QuadTrees.QuadTree.InsertBotRight | day9/Challenge9.py:277-280 | the bottom-right branch performs the insert of the model |
| QuadTrees.QuadTree.DescendBotRight | day9/Challenge9.py:280 | inserting into an existing bottom-right child performs the insert of the model |
| QuadTrees.QuadTree.Search | day9/Challenge9.py:283-318 | returns what search on the model returns (found only inside the inclusive bound) |
| QuadTrees.QuadTree.TotalPointsCount | day9/Challenge9.py:235-241 | returns the number of nodes stored in the subtree |
| QuadTrees.QuadTree.CountOf | day9/Challenge9.py:237-240 | a missing child counts 0, a present one its own count |
| Inclusions.MaxFromBounds | day9/Challenge9.py:82-92 | the running maximum starting at 0 bounds every key and is 0 or one of them |
| Inclusions.MinFromBounds | day9/Challenge9.py:82-92 | the running minimum starting at sys.maxsize is below every key and is sys.maxsize or one of them |
| Inclusions.MaxFrom | day9/Challenge9.py:82-92 | defines the running maximum of one coordinate; see `MaxFromBounds` |
| Inclusions.MinFrom | day9/Challenge9.py:82-92 | defines the running minimum of one coordinate; see `MinFromBounds` |
| Inclusions.Box | day9/Challenge9.py:82-93 | defines the map's bound: minimum x and y from sys.maxsize, maximum x and y from 0; see `BoxCovers` |
| Inclusions.Green | day9/Challenge9.py:101-111 | defines the green points: the gaps of the x-sorted walk, then of the y-sorted walk; see `GreenPointsFound` |
| Inclusions.BoundingBox | day9/Challenge9.py:82-92 | the loop computes the box of the red points |
| Inclusions.BoxCovers | day9/Challenge9.py:82-93 | every red point lies inside the box the tile map is built on |
| Inclusions.RedMap | day9/Challenge9.py:93-98 | the map after the red pass is well formed and keeps the box |
| Inclusions.GreenMap | day9/Challenge9.py:101-111 | the map after both green passes is well formed |
| Inclusions.AddRed | day9/Challenge9.py:97-98 | inserts every red point, in order, with the red colour |
| Inclusions.PaintGreen | day9/Challenge9.py:101-111 | IndexError with no red points and the map untouched; otherwise the horizontal then the vertical green fill, returning the green points in that order |
| Inclusions.PaintLightGreen | day9/Challenge9.py:113-120 | fails exactly when there are no green points, leaving the map untouched; otherwise the horizontal then the vertical light-green fill |
| Inclusions.Inclusions | day9/Challenge9.py:69-124 | IndexError or a well-formed map on the box of the red points |
| Inclusions.GenerateInclusions | day9/Challenge9.py:69-124 | fails, with IndexError, exactly when there are no red points or no green point; otherwise returns a new valid tree whose model is the map after all passes |
| Inclusions.GapsInsideBox | day9/Challenge9.py:101-111 | every green point lies inside the box of the red points |
| Inclusions.BetweenInside | day9/Challenge9.py:133-137 | a point between two points of a box lies in that box |
| Inclusions.RedPointsFound | day9/Challenge9.py:93-124 | every red point is found by search in the finished map |
| Inclusions.GreenPointsFound | day9/Challenge9.py:101-124 | every green point is found by search in the finished map |
| Inclusions.FoundThroughLightGreen | day9/Challenge9.py:113-120 | a point found after the green passes is still found after the light-green passes |

## Left out

- Reading `input.txt` and the top-level calls (lines 320-326) are I/O and are not modelled. Line 323 reverses each line's two numbers, so the model's x is the file's second number.
- `print_matrix` (lines 9-12) is a display helper, so it is not modelled. The same goes for every `print` and `time.time()` progress report in `generate_inclusions` and `fill_horizontal_line`, and for the `__repr__` methods.
- `fill_row` (lines 172-176) is never called and is not modelled.
- The `node is None` guard of `insert` (lines 245-246) is not modelled. `QuadTree.Insert` takes a `Node`, and no caller passes `None`.
- Midpoints and child bounds are exact `real` numbers. Python's `/` gives floats, and the float sum `topLeft + botRight` is rounded once the bounds need more than 53 significant bits together. Bounds of about 2^27 reach that after about 26 halvings: a root spanning x from 0 to 2^27+1 has, on its rightmost descent at depth 26, the float midpoint 2^27 where the exact one is 2^27-2^-27, so a node at x = 2^27 goes top-left in the program and top-right in the model. From there on the model's splits can differ from the program's; the model assumes that search answers are not affected, and does not prove it.
- `sys.maxsize` is taken to be 2^63 - 1, its value on 64-bit builds.
- The generator of `enumerate_line_coordinates` is modelled as the whole list it yields. It has no side effects, and the consumer's early `break` is modelled in `AllFound`. Identical endpoints fail before any point is searched, as on the generator's first `next()`.
- Points are one value type, for both the code's `Point` objects and its `[x, y]` lists. Node data (the tile colours 1, 2 and 3) are integers.
