/**
  MostCenterMask: a breadth-first search over the 8-neighbourhood from the
  grid centre finds the selected cell nearest to it (in Chebyshev distance),
  then a breadth-first flood over the 4-neighbourhood marks that cell's
  connected component in a fresh dense mask.
*/
module CenterMask {
  import opened Wrappers
  import opened Grid
  import opened Masks
  import opened RegionGrowing

  /** The point the search starts from (lines 433-439). */
  function Center(width: int, height: int): Point
  {
    Point(width / 2, height / 2)
  }

  function Abs(n: int): nat
  {
    if n < 0 then -n else n
  }

  /** Chebyshev distance: the number of 8-neighbour steps between two points of a rectangle. */
  function Dist(p: Point, q: Point): (d: nat)
    ensures d == 0 <==> p == q
  {
    if Abs(p.x - q.x) < Abs(p.y - q.y) then Abs(p.y - q.y) else Abs(p.x - q.x)
  }

  /** One 8-neighbour step changes the distance to a fixed point by at most one. */
  lemma StepDist(p: Point, q: Point, c: Point, width: int, height: int)
    requires Step(p, q, width, height, 0)
    ensures Dist(q, c) <= Dist(p, c) + 1 && Dist(p, c) <= Dist(q, c) + 1
  {
  }

  /** Every grid point other than c has an 8-neighbour in the grid one step closer to c. */
  lemma TowardCenter(p: Point, c: Point, width: int, height: int) returns (p': Point)
    requires 0 <= p.x < width && 0 <= p.y < height && 0 <= c.x < width && 0 <= c.y < height && p != c
    ensures 0 <= p'.x < width && 0 <= p'.y < height && Step(p', p, width, height, 0)
    ensures Dist(p', c) + 1 == Dist(p, c)
  {
    var x := if p.x < c.x then p.x + 1 else if p.x > c.x then p.x - 1 else p.x;
    var y := if p.y < c.y then p.y + 1 else if p.y > c.y then p.y - 1 else p.y;
    p' := Point(x, y);
  }

  /** The points of a search order lie in the grid and none repeats. */
  ghost predicate InOrder(order: seq<Point>, width: int, height: int)
  {
    (forall j :: 0 <= j < |order| ==> 0 <= order[j].x < width && 0 <= order[j].y < height) &&
    (forall i, j :: 0 <= i < j < |order| ==> order[i] != order[j])
  }

  /** The points of a search order are in non-decreasing distance from c. */
  ghost predicate Monotone(order: seq<Point>, c: Point)
  {
    forall i, j :: 0 <= i < j < |order| ==> Dist(order[i], c) <= Dist(order[j], c)
  }

  /** Every 8-neighbour in the grid of the first `expanded` points has been searched. */
  ghost predicate ExpandedUpTo(order: seq<Point>, expanded: int, width: int, height: int)
    requires 0 <= expanded <= |order|
  {
    forall i, q: Point :: 0 <= i < expanded && Step(order[i], q, width, height, 0) ==> q in order
  }

  /** Breadth-first order: every grid point closer to c than order[m] comes before it. */
  lemma {:induction false} CloserSearched(order: seq<Point>, m: int, width: int, height: int, c: Point, p: Point)
    requires 0 <= m < |order| && order[0] == c && InOrder(order, width, height) && Monotone(order, c)
    requires ExpandedUpTo(order, m, width, height)
    requires 0 <= p.x < width && 0 <= p.y < height && Dist(p, c) < Dist(order[m], c)
    ensures p in order[..m]
    decreases Dist(p, c)
  {
    if p == c {
      assert order[..m][0] == p;
    } else {
      var p' := TowardCenter(p, c, width, height);
      CloserSearched(order, m, width, height, c, p');
      var i' :| 0 <= i' < m && order[..m][i'] == p';
      assert Step(order[i'], p, width, height, 0);
      assert p in order;
      var i :| 0 <= i < |order| && order[i] == p;
      assert order[..m][i] == p;
    }
  }

  /** While order[m] is expanded, every grid point at most as far from c as order[m] has been searched. */
  lemma LayerSearched(order: seq<Point>, m: int, width: int, height: int, c: Point, p: Point)
    requires 0 <= m < |order| && order[0] == c && InOrder(order, width, height) && Monotone(order, c)
    requires ExpandedUpTo(order, m, width, height)
    requires 0 <= p.x < width && 0 <= p.y < height && Dist(p, c) <= Dist(order[m], c)
    ensures p in order
  {
    if Dist(p, c) < Dist(order[m], c) {
      CloserSearched(order, m, width, height, c, p);
      assert order[..m] <= order;
    } else if p == c {
      assert order[0] == p;
    } else {
      var p' := TowardCenter(p, c, width, height);
      CloserSearched(order, m, width, height, c, p');
      var i' :| 0 <= i' < m && order[..m][i'] == p';
      assert Step(order[i'], p, width, height, 0);
    }
  }

  /** A search that has expanded every point it searched has searched the whole grid. */
  lemma {:induction false} AllSearched(order: seq<Point>, width: int, height: int, c: Point, p: Point)
    requires 0 < |order| && order[0] == c
    requires ExpandedUpTo(order, |order|, width, height)
    requires 0 <= p.x < width && 0 <= p.y < height && 0 <= c.x < width && 0 <= c.y < height
    ensures p in order
    decreases Dist(p, c)
  {
    if p == c {
      assert order[0] == p;
    } else {
      var p' := TowardCenter(p, c, width, height);
      AllSearched(order, width, height, c, p');
      var i' :| 0 <= i' < |order| && order[i'] == p';
      assert Step(order[i'], p, width, height, 0);
    }
  }

  /**
    The search while order[k-1] is being expanded: the points searched so far
    in breadth-first order from c, none of them further than one step beyond
    order[k-1].
  */
  ghost predicate Layered(order: seq<Point>, k: int, width: int, height: int, c: Point)
  {
    0 < k <= |order| && order[0] == c && InOrder(order, width, height) && Monotone(order, c) &&
    forall j :: 0 <= j < |order| ==> Dist(order[j], c) <= Dist(order[k - 1], c) + 1
  }

  /** Searching a grid point one step further than order[k-1] keeps the search layered. */
  lemma AppendLayered(order: seq<Point>, k: int, width: int, height: int, c: Point, q: Point)
    requires Layered(order, k, width, height, c) && ExpandedUpTo(order, k - 1, width, height)
    requires 0 <= q.x < width && 0 <= q.y < height && q !in order && Dist(q, c) == Dist(order[k - 1], c) + 1
    ensures Layered(order + [q], k, width, height, c) && ExpandedUpTo(order + [q], k - 1, width, height)
    ensures (order + [q])[..|order|] == order && (order + [q])[k..] == order[k..] + [q]
  {
    var o := order + [q];
    forall i, p: Point | 0 <= i < k - 1 && Step(o[i], p, width, height, 0)
      ensures p in o
    {
      assert o[i] == order[i];
    }
  }

  /** Lines 459-464 for one candidate (x, y) of the 3x3 block around the point being expanded. */
  method SearchCandidate(width: int, height: int, point: Point, x: int, y: int, queue: seq<Point>, searched: set<Point>,
                         ghost order: seq<Point>, ghost k: int, ghost c: Point)
    returns (queue': seq<Point>, searched': set<Point>, ghost order': seq<Point>)
    requires Layered(order, k, width, height, c) && point == order[k - 1] && ExpandedUpTo(order, k - 1, width, height)
    requires queue == order[k..] && searched == (set q | q in order)
    requires point.x - 1 <= x <= point.x + 1 && point.y - 1 <= y <= point.y + 1
    ensures Layered(order', k, width, height, c) && ExpandedUpTo(order', k - 1, width, height)
    ensures queue' == order'[k..] && searched' == (set q | q in order')
    ensures |order| <= |order'| && order'[..|order|] == order
    ensures Step(point, Point(x, y), width, height, 0) ==> Point(x, y) in order'
  {
    queue', searched', order' := queue, searched, order;
    var adjacentPoint := Point(x, y);
    if adjacentPoint !in searched && y >= 0 && y < height && x >= 0 && x < width {
      assert Step(point, adjacentPoint, width, height, 0);
      if Dist(adjacentPoint, c) <= Dist(point, c) {
        LayerSearched(order, k - 1, width, height, c, adjacentPoint);
      }
      StepDist(point, adjacentPoint, c, width, height);
      AppendLayered(order, k, width, height, c, adjacentPoint);
      queue' := queue + [adjacentPoint];
      searched' := searched + {adjacentPoint};
      order' := order + [adjacentPoint];
      assert (set q | q in order') == (set q | q in order) + {adjacentPoint};
    }
  }

  /** Lines 457-465: the candidates of one column of the 3x3 block around the point being expanded. */
  method SearchColumn(width: int, height: int, point: Point, x: int, queue: seq<Point>, searched: set<Point>,
                      ghost order: seq<Point>, ghost k: int, ghost c: Point)
    returns (queue': seq<Point>, searched': set<Point>, ghost order': seq<Point>)
    requires Layered(order, k, width, height, c) && point == order[k - 1] && ExpandedUpTo(order, k - 1, width, height)
    requires queue == order[k..] && searched == (set q | q in order)
    requires point.x - 1 <= x <= point.x + 1
    ensures Layered(order', k, width, height, c) && ExpandedUpTo(order', k - 1, width, height)
    ensures queue' == order'[k..] && searched' == (set q | q in order')
    ensures |order| <= |order'| && order'[..|order|] == order
    ensures forall q: Point :: Step(point, q, width, height, 0) && q.x == x ==> q in order'
  {
    queue', searched', order' := queue, searched, order;
    for y := point.y - 1 to point.y + 2
      invariant Layered(order', k, width, height, c) && ExpandedUpTo(order', k - 1, width, height)
      invariant queue' == order'[k..] && searched' == (set q | q in order')
      invariant |order| <= |order'| && order'[..|order|] == order
      invariant forall q: Point :: Step(point, q, width, height, 0) && q.x == x && q.y < y ==> q in order'
    {
      ghost var o := order';
      queue', searched', order' := SearchCandidate(width, height, point, x, y, queue', searched', order', k, c);
      PrefixChain(order, o, order', |order|);
      PrefixMembers(o, order');
      forall q: Point | Step(point, q, width, height, 0) && q.x == x && q.y == y
        ensures q in order'
      {
        assert q == Point(x, y);
      }
    }
  }

  /** Lines 455-466: the 3x3 block around the point being expanded; afterwards it is expanded. */
  method SearchAround(width: int, height: int, point: Point, queue: seq<Point>, searched: set<Point>,
                      ghost order: seq<Point>, ghost k: int, ghost c: Point)
    returns (queue': seq<Point>, searched': set<Point>, ghost order': seq<Point>)
    requires Layered(order, k, width, height, c) && point == order[k - 1] && ExpandedUpTo(order, k - 1, width, height)
    requires queue == order[k..] && searched == (set q | q in order)
    ensures Layered(order', k, width, height, c) && ExpandedUpTo(order', k, width, height)
    ensures queue' == order'[k..] && searched' == (set q | q in order')
    ensures |order| <= |order'| && order'[..|order|] == order
  {
    queue', searched', order' := queue, searched, order;
    for x := point.x - 1 to point.x + 2
      invariant Layered(order', k, width, height, c) && ExpandedUpTo(order', k - 1, width, height)
      invariant queue' == order'[k..] && searched' == (set q | q in order')
      invariant |order| <= |order'| && order'[..|order|] == order
      invariant forall q: Point :: Step(point, q, width, height, 0) && q.x < x ==> q in order'
    {
      ghost var o := order';
      queue', searched', order' := SearchColumn(width, height, point, x, queue', searched', order', k, c);
      PrefixChain(order, o, order', |order|);
      PrefixMembers(o, order');
    }
    forall i, q: Point | 0 <= i < k && Step(order'[i], q, width, height, 0)
      ensures q in order'
    {
      if i < k - 1 {
      } else {
        assert order'[i] == point;
      }
    }
  }

  /**
    The seed of the flood: a grid cell; when it is selected, no selected cell
    is closer to the centre; when it is not, no cell is selected at all and
    the seed is a cell furthest from the centre (the last one the search
    reached).
  */
  ghost predicate CenterSeed(cells: seq<bool>, width: int, height: int, seed: Point)
  {
    InGrid(seed.x, seed.y, width, height) &&
    (Selected(cells, width, height, seed.x, seed.y) ==>
       forall c, r :: Selected(cells, width, height, c, r) ==> Dist(seed, Center(width, height)) <= Dist(Point(c, r), Center(width, height))) &&
    (!Selected(cells, width, height, seed.x, seed.y) ==>
       forall c, r :: InGrid(c, r, width, height) ==>
         !Selected(cells, width, height, c, r) && Dist(Point(c, r), Center(width, height)) <= Dist(seed, Center(width, height)))
  }

  /** The search stopped at a selected cell after expanding only unselected ones: none is closer. */
  lemma FoundNearest(cells: seq<bool>, width: int, height: int, order: seq<Point>, k: int)
    requires Layered(order, k, width, height, Center(width, height)) && ExpandedUpTo(order, k - 1, width, height)
    requires forall i :: 0 <= i < k - 1 ==> !Selected(cells, width, height, order[i].x, order[i].y)
    requires Selected(cells, width, height, order[k - 1].x, order[k - 1].y)
    ensures CenterSeed(cells, width, height, order[k - 1])
  {
    var c := Center(width, height);
    forall x, y | Selected(cells, width, height, x, y)
      ensures Dist(order[k - 1], c) <= Dist(Point(x, y), c)
    {
      if Dist(Point(x, y), c) < Dist(order[k - 1], c) {
        CloserSearched(order, k - 1, width, height, c, Point(x, y));
      }
    }
  }

  /** The search ran out of points having expanded only unselected ones: no cell is selected, and the last point is furthest. */
  lemma NoneFound(cells: seq<bool>, width: int, height: int, order: seq<Point>)
    requires Layered(order, |order|, width, height, Center(width, height)) && ExpandedUpTo(order, |order|, width, height)
    requires forall i :: 0 <= i < |order| ==> !Selected(cells, width, height, order[i].x, order[i].y)
    ensures CenterSeed(cells, width, height, order[|order| - 1])
  {
    var seed := order[|order| - 1];
    InGridIntro(seed.x, seed.y, width, height);
    forall x, y | InGrid(x, y, width, height)
      ensures !Selected(cells, width, height, x, y) && Dist(Point(x, y), Center(width, height)) <= Dist(order[|order| - 1], Center(width, height))
    {
      NoneFoundAt(cells, width, height, order, Point(x, y));
    }
  }

  lemma NoneFoundAt(cells: seq<bool>, width: int, height: int, order: seq<Point>, p: Point)
    requires Layered(order, |order|, width, height, Center(width, height)) && ExpandedUpTo(order, |order|, width, height)
    requires forall i :: 0 <= i < |order| ==> !Selected(cells, width, height, order[i].x, order[i].y)
    requires InGrid(p.x, p.y, width, height)
    ensures !Selected(cells, width, height, p.x, p.y) && Dist(p, Center(width, height)) <= Dist(order[|order| - 1], Center(width, height))
  {
    var c := Center(width, height);
    AllSearched(order, width, height, c, p);
    var i :| 0 <= i < |order| && order[i] == p;
    assert !Selected(cells, width, height, order[i].x, order[i].y);
    if i < |order| - 1 {
      assert Dist(order[i], c) <= Dist(order[|order| - 1], c);
    }
  }

  /** Lines 436-468: the breadth-first search from the centre for a selected cell. */
  method FindCenter(mask: IMask) returns (foundPoint: Point)
    requires mask.Valid() && 0 < mask.Width() && 0 < mask.Height()
    ensures CenterSeed(mask.Cells(), mask.Width(), mask.Height(), foundPoint)
  {
    var width := mask.Width();
    var height := mask.Height();
    ghost var cells := mask.Cells();
    var center := Point(width / 2, height / 2);
    var searched := {center};
    var queue := [center];
    ghost var order := [center];
    var found := false;
    foundPoint := Point(0, 0);
    ghost var k := 0;
    assert (set q | q in order) == {center};
    while !found && queue != []
      invariant 0 <= k <= |order| && queue == order[k..] && searched == (set q | q in order)
      invariant k == 0 ==> order == [center] && !found
      invariant 0 < k ==> Layered(order, k, width, height, center) && foundPoint == order[k - 1]
      invariant 0 < k ==> ExpandedUpTo(order, if found then k - 1 else k, width, height)
      invariant forall i :: 0 <= i < (if found then k - 1 else k) ==> !Selected(cells, width, height, order[i].x, order[i].y)
      invariant found ==> 0 < k && Selected(cells, width, height, foundPoint.x, foundPoint.y)
      decreases GridPoints(width, height) - searched, |queue|
    {
      foundPoint, found, queue, searched, order, k := SearchTurn(mask, queue, searched, order, k);
    }
    SearchEnd(cells, width, height, order, k, found);
  }

  /** Where the loop of lines 446-468 stops, the last point dequeued is the seed CenterSeed describes. */
  lemma SearchEnd(cells: seq<bool>, width: int, height: int, order: seq<Point>, k: int, found: bool)
    requires 0 < k <= |order| && (!found ==> k == |order|)
    requires Layered(order, k, width, height, Center(width, height))
    requires ExpandedUpTo(order, if found then k - 1 else k, width, height)
    requires forall i :: 0 <= i < (if found then k - 1 else k) ==> !Selected(cells, width, height, order[i].x, order[i].y)
    requires found ==> Selected(cells, width, height, order[k - 1].x, order[k - 1].y)
    ensures CenterSeed(cells, width, height, order[k - 1])
  {
    if found {
      FoundNearest(cells, width, height, order, k);
    } else {
      NoneFound(cells, width, height, order);
    }
  }

  /** One turn of the loop at lines 446-468: dequeue a point; stop if it is selected, otherwise expand it. */
  method SearchTurn(mask: IMask, queue: seq<Point>, searched: set<Point>, ghost order: seq<Point>, ghost k: int)
    returns (foundPoint: Point, found: bool, queue': seq<Point>, searched': set<Point>, ghost order': seq<Point>, ghost k': int)
    requires mask.Valid() && 0 < mask.Width() && 0 < mask.Height() && queue != []
    requires 0 <= k <= |order| && queue == order[k..] && searched == (set q | q in order)
    requires k == 0 ==> order == [Center(mask.Width(), mask.Height())]
    requires 0 < k ==> Layered(order, k, mask.Width(), mask.Height(), Center(mask.Width(), mask.Height()))
    requires 0 < k ==> ExpandedUpTo(order, k, mask.Width(), mask.Height())
    requires forall i :: 0 <= i < k ==> !Selected(mask.Cells(), mask.Width(), mask.Height(), order[i].x, order[i].y)
    ensures k' == k + 1 && k' <= |order'| && queue' == order'[k'..] && searched' == (set q | q in order')
    ensures Layered(order', k', mask.Width(), mask.Height(), Center(mask.Width(), mask.Height())) && foundPoint == order'[k' - 1]
    ensures ExpandedUpTo(order', if found then k' - 1 else k', mask.Width(), mask.Height())
    ensures forall i :: 0 <= i < (if found then k' - 1 else k') ==> !Selected(mask.Cells(), mask.Width(), mask.Height(), order'[i].x, order'[i].y)
    ensures found ==> Selected(mask.Cells(), mask.Width(), mask.Height(), foundPoint.x, foundPoint.y)
    ensures (searched < searched' && searched' <= GridPoints(mask.Width(), mask.Height())) ||
            (searched' == searched && |queue'| < |queue|)
  {
    var width := mask.Width();
    var height := mask.Height();
    var center := Point(width / 2, height / 2);
    foundPoint := queue[0];
    queue' := queue[1..];
    k' := k + 1;
    order' := order;
    searched' := searched;
    found := false;
    NextLayered(order, k', width, height, center);
    InGridIntro(foundPoint.x, foundPoint.y, width, height);
    ghost var cells := mask.Cells();
    if mask.GetCell(foundPoint.x, foundPoint.y) {
      found := true;
    } else {
      assert !Selected(cells, width, height, order[k].x, order[k].y);
      queue', searched', order' := SearchAround(width, height, foundPoint, queue', searched', order', k', center);
      ExpandedKeeps(cells, width, height, order, order', k');
    }
  }

  /** Expanding order[k'-1] only appends points: the unselected prefix stays, and the searched set grows or the queue shrinks. */
  lemma ExpandedKeeps(cells: seq<bool>, width: int, height: int, order: seq<Point>, order': seq<Point>, k': int)
    requires 1 <= k' <= |order| <= |order'| && order'[..|order|] == order && InOrder(order', width, height)
    requires forall i :: 0 <= i < k' ==> !Selected(cells, width, height, order[i].x, order[i].y)
    ensures forall i :: 0 <= i < k' ==> !Selected(cells, width, height, order'[i].x, order'[i].y)
    ensures var s, s' := (set q | q in order), (set q | q in order');
            (s < s' && s' <= GridPoints(width, height)) || (s' == s && |order'[k'..]| < |order[k' - 1..]|)
  {
    forall i | 0 <= i < k'
      ensures order'[i] == order[i]
    {
      assert order'[..|order|][i] == order[i];
    }
    var s, s' := (set q | q in order), (set q | q in order');
    forall q | q in s
      ensures q in s'
    {
      var i :| 0 <= i < |order| && order[i] == q;
      assert order'[..|order|][i] == q;
    }
    if |order'| > |order| {
      assert order'[|order|] in s' - s;
    } else {
      assert order' == order'[..|order|];
    }
  }

  /** Taking the next point off the queue keeps the search layered. */
  lemma NextLayered(order: seq<Point>, k: int, width: int, height: int, c: Point)
    requires 1 <= k <= |order| && order[0] == c && 0 <= c.x < width && 0 <= c.y < height
    requires k == 1 ==> order == [c]
    requires 1 < k ==> Layered(order, k - 1, width, height, c)
    ensures Layered(order, k, width, height, c)
  {
    if 1 < k {
      assert Dist(order[k - 2], c) <= Dist(order[k - 1], c);
    }
  }

  /** q is p or one of its left, right, upper and lower neighbours, inside the grid (lines 483-501). */
  predicate Step4(p: Point, q: Point, width: int, height: int)
  {
    0 <= q.x < width && 0 <= q.y < height &&
    ((q.x == p.x && p.y - 1 <= q.y <= p.y + 1) || (q.y == p.y && p.x - 1 <= q.x <= p.x + 1))
  }

  /** Point visit[j] is a Step4 from one of the first `bound` points before it. */
  ghost predicate Reached4(visit: seq<Point>, j: int, bound: int, width: int, height: int)
    requires 0 <= j < |visit|
  {
    exists i :: 0 <= i < j && i < bound && Step4(visit[i], visit[j], width, height)
  }

  /**
    A flood from visit[0]: every later point is a selected cell reached by a
    Step4 from an earlier one, and every selected cell a Step4 away from a
    flooded point is flooded. When the seed is selected, the flood is its
    4-connected component of selected cells.
  */
  ghost predicate Flooded(cells: seq<bool>, width: int, height: int, visit: seq<Point>)
  {
    |visit| > 0 && InOrder(visit, width, height) &&
    (forall j :: 0 < j < |visit| ==> Selected(cells, width, height, visit[j].x, visit[j].y) && Reached4(visit, j, |visit|, width, height)) &&
    (forall j, q: Point :: 0 <= j < |visit| && Step4(visit[j], q, width, height) && Selected(cells, width, height, q.x, q.y) ==> q in visit)
  }

  /**
    The flood while the first k points of `visit` have been dequeued: every
    later point was reached from one of them, and the first `closed` of them
    have had all their neighbours considered.
  */
  ghost predicate FloodState(cells: seq<bool>, width: int, height: int, visit: seq<Point>, k: int, closed: int)
  {
    0 <= closed <= k <= |visit| && |visit| > 0 && InOrder(visit, width, height) &&
    (forall j :: 0 < j < |visit| ==> Selected(cells, width, height, visit[j].x, visit[j].y) && Reached4(visit, j, k, width, height)) &&
    (forall i, q: Point :: 0 <= i < closed && Step4(visit[i], q, width, height) && Selected(cells, width, height, q.x, q.y) ==> q in visit)
  }

  /** Lines 486-490 and 496-500 for one candidate q around the point just dequeued, visit[k-1]. */
  method FloodCandidate(mask: IMask, current: Point, q: Point, queue: seq<Point>, marked: set<Point>,
                        ghost visit: seq<Point>, ghost k: int)
    returns (queue': seq<Point>, marked': set<Point>, ghost visit': seq<Point>)
    requires mask.Valid() && 1 <= k && FloodState(mask.Cells(), mask.Width(), mask.Height(), visit, k, k - 1) && k <= |visit|
    requires current == visit[k - 1] && queue == visit[k..] && marked == (set p | p in visit)
    requires (q.x == current.x && current.y - 1 <= q.y <= current.y + 1) || (q.y == current.y && current.x - 1 <= q.x <= current.x + 1)
    ensures FloodState(mask.Cells(), mask.Width(), mask.Height(), visit', k, k - 1) && k <= |visit'|
    ensures queue' == visit'[k..] && marked' == (set p | p in visit')
    ensures |visit| <= |visit'| && visit'[..|visit|] == visit
    ensures Step4(current, q, mask.Width(), mask.Height()) && Selected(mask.Cells(), mask.Width(), mask.Height(), q.x, q.y) ==> q in visit'
  {
    queue', marked', visit' := queue, marked, visit;
    var width := mask.Width();
    var height := mask.Height();
    if q !in marked && 0 <= q.x < width && 0 <= q.y < height {
      InGridIntro(q.x, q.y, width, height);
      if mask.GetCell(q.x, q.y) {
        assert Selected(mask.Cells(), width, height, q.x, q.y);
        AppendFlood(mask.Cells(), width, height, visit, k, q);
        queue' := queue + [q];
        marked' := marked + {q};
        visit' := visit + [q];
        assert (set p | p in visit') == (set p | p in visit) + {q};
      }
    }
  }

  /** Appending an unmarked selected cell a Step4 from visit[k-1] keeps the flood state. */
  lemma AppendFlood(cells: seq<bool>, width: int, height: int, visit: seq<Point>, k: int, q: Point)
    requires 1 <= k <= |visit| && FloodState(cells, width, height, visit, k, k - 1)
    requires Step4(visit[k - 1], q, width, height) && Selected(cells, width, height, q.x, q.y) && q !in visit
    ensures FloodState(cells, width, height, visit + [q], k, k - 1)
    ensures (visit + [q])[..|visit|] == visit && (visit + [q])[k..] == visit[k..] + [q]
  {
    var v := visit + [q];
    AppendReached(cells, width, height, visit, k, q);
    forall i, p: Point | 0 <= i < k - 1 && Step4(v[i], p, width, height) && Selected(cells, width, height, p.x, p.y)
      ensures p in v
    {
      assert v[i] == visit[i];
    }
  }

  lemma AppendReached(cells: seq<bool>, width: int, height: int, visit: seq<Point>, k: int, q: Point)
    requires 1 <= k <= |visit|
    requires forall j :: 0 < j < |visit| ==> Selected(cells, width, height, visit[j].x, visit[j].y) && Reached4(visit, j, k, width, height)
    requires Step4(visit[k - 1], q, width, height) && Selected(cells, width, height, q.x, q.y)
    ensures forall j :: 0 < j < |visit + [q]| ==>
              Selected(cells, width, height, (visit + [q])[j].x, (visit + [q])[j].y) && Reached4(visit + [q], j, k, width, height)
  {
    var v := visit + [q];
    forall j | 0 < j < |v|
      ensures Selected(cells, width, height, v[j].x, v[j].y) && Reached4(v, j, k, width, height)
    {
      if j == |visit| {
        assert Step4(v[k - 1], v[j], width, height);
      } else {
        assert Reached4(visit, j, k, width, height);
        var i :| 0 <= i < j && i < k && Step4(visit[i], visit[j], width, height);
        assert Step4(v[i], v[j], width, height);
      }
    }
  }

  /** A sequence extending another holds all of its elements. */
  lemma PrefixMembers(a: seq<Point>, b: seq<Point>)
    requires |a| <= |b| && b[..|a|] == a
    ensures forall q: Point :: q in a ==> q in b
  {
    forall q: Point | q in a
      ensures q in b
    {
      var j :| 0 <= j < |a| && a[j] == q;
      assert b[..|a|][j] == q;
    }
  }

  /** Extension is transitive, and an extension agrees with the original on every shorter prefix. */
  lemma PrefixChain(a: seq<Point>, b: seq<Point>, c: seq<Point>, n: int)
    requires |a| <= |b| <= |c| && b[..|a|] == a && c[..|b|] == b && 0 <= n <= |a|
    ensures c[..|a|] == a && c[..n] == a[..n]
  {
    assert c[..|a|] == c[..|b|][..|a|];
    assert c[..n] == c[..|a|][..n];
  }

  /** Dequeuing one more point keeps every point reached. */
  lemma ReachMore(cells: seq<bool>, width: int, height: int, visit: seq<Point>, k: int, more: int)
    requires FloodState(cells, width, height, visit, k, k) && k <= more <= |visit|
    ensures FloodState(cells, width, height, visit, more, k)
  {
    forall j | 0 < j < |visit|
      ensures Reached4(visit, j, more, width, height)
    {
      assert Reached4(visit, j, k, width, height);
    }
  }

  /** Lines 483-491: the upper and lower neighbours of the point just dequeued. */
  method FloodColumn(mask: IMask, current: Point, queue: seq<Point>, marked: set<Point>, ghost visit: seq<Point>, ghost k: int)
    returns (queue': seq<Point>, marked': set<Point>, ghost visit': seq<Point>)
    requires mask.Valid() && 1 <= k && FloodState(mask.Cells(), mask.Width(), mask.Height(), visit, k, k - 1) && k <= |visit|
    requires current == visit[k - 1] && queue == visit[k..] && marked == (set p | p in visit)
    ensures FloodState(mask.Cells(), mask.Width(), mask.Height(), visit', k, k - 1) && k <= |visit'|
    ensures queue' == visit'[k..] && marked' == (set p | p in visit')
    ensures |visit| <= |visit'| && visit'[..|visit|] == visit
    ensures forall q: Point ::
              (Step4(current, q, mask.Width(), mask.Height()) && q.x == current.x && Selected(mask.Cells(), mask.Width(), mask.Height(), q.x, q.y)) ==>
              q in visit'
  {
    queue', marked', visit' := queue, marked, visit;
    for y := current.y - 1 to current.y + 2
      invariant FloodState(mask.Cells(), mask.Width(), mask.Height(), visit', k, k - 1) && k <= |visit'|
      invariant queue' == visit'[k..] && marked' == (set p | p in visit')
      invariant |visit| <= |visit'| && visit'[..|visit|] == visit
      invariant forall q: Point ::
                  (Step4(current, q, mask.Width(), mask.Height()) && q.x == current.x && q.y < y &&
                   Selected(mask.Cells(), mask.Width(), mask.Height(), q.x, q.y)) ==> q in visit'
    {
      ghost var v := visit';
      queue', marked', visit' := FloodCandidate(mask, current, Point(current.x, y), queue', marked', visit', k);
      assert visit'[..|visit|] == v[..|visit|];
      PrefixMembers(v, visit');
    }
  }

  /** Lines 493-501: the left and right neighbours of the point just dequeued. */
  method FloodRow(mask: IMask, current: Point, queue: seq<Point>, marked: set<Point>, ghost visit: seq<Point>, ghost k: int)
    returns (queue': seq<Point>, marked': set<Point>, ghost visit': seq<Point>)
    requires mask.Valid() && 1 <= k && FloodState(mask.Cells(), mask.Width(), mask.Height(), visit, k, k - 1) && k <= |visit|
    requires current == visit[k - 1] && queue == visit[k..] && marked == (set p | p in visit)
    ensures FloodState(mask.Cells(), mask.Width(), mask.Height(), visit', k, k - 1) && k <= |visit'|
    ensures queue' == visit'[k..] && marked' == (set p | p in visit')
    ensures |visit| <= |visit'| && visit'[..|visit|] == visit
    ensures forall q: Point ::
              (Step4(current, q, mask.Width(), mask.Height()) && q.y == current.y && Selected(mask.Cells(), mask.Width(), mask.Height(), q.x, q.y)) ==>
              q in visit'
  {
    queue', marked', visit' := queue, marked, visit;
    for x := current.x - 1 to current.x + 2
      invariant FloodState(mask.Cells(), mask.Width(), mask.Height(), visit', k, k - 1) && k <= |visit'|
      invariant queue' == visit'[k..] && marked' == (set p | p in visit')
      invariant |visit| <= |visit'| && visit'[..|visit|] == visit
      invariant forall q: Point ::
                  (Step4(current, q, mask.Width(), mask.Height()) && q.y == current.y && q.x < x &&
                   Selected(mask.Cells(), mask.Width(), mask.Height(), q.x, q.y)) ==> q in visit'
    {
      ghost var v := visit';
      queue', marked', visit' := FloodCandidate(mask, current, Point(x, current.y), queue', marked', visit', k);
      assert visit'[..|visit|] == v[..|visit|];
      PrefixMembers(v, visit');
    }
  }

  /** One turn of the loop at lines 475-502: dequeue a point, mark it in the result, consider its 4-neighbours. */
  method FloodTurn(mask: IMask, bits: array<bool>, queue: seq<Point>, marked: set<Point>,
                   ghost cells: seq<bool>, ghost visit: seq<Point>, ghost k: int)
    returns (queue': seq<Point>, marked': set<Point>, ghost visit': seq<Point>, ghost k': int)
    requires mask.Valid() && cells == mask.Cells() && bits.Length == mask.Width() * mask.Height() && bits !in mask.Repr()
    requires FloodState(cells, mask.Width(), mask.Height(), visit, k, k) && k < |visit|
    requires queue == visit[k..] && marked == (set p | p in visit)
    requires forall c, r :: InGrid(c, r, mask.Width(), mask.Height()) ==> (bits[Index(c, r, mask.Width())] <==> Point(c, r) in visit[..k])
    modifies bits
    ensures k' == k + 1 && FloodState(cells, mask.Width(), mask.Height(), visit', k', k')
    ensures queue' == visit'[k'..] && marked' == (set p | p in visit')
    ensures |visit| <= |visit'| && visit'[..|visit|] == visit
    ensures forall c, r :: InGrid(c, r, mask.Width(), mask.Height()) ==> (bits[Index(c, r, mask.Width())] <==> Point(c, r) in visit'[..k'])
    ensures (marked < marked' && marked' <= GridPoints(mask.Width(), mask.Height())) || (marked' == marked && |queue'| < |queue|)
  {
    var width := mask.Width();
    var height := mask.Height();
    var currentPoint := queue[0];
    queue' := queue[1..];
    k' := k + 1;
    MarkVisited(bits, width, height, currentPoint, visit, k);
    assert mask.Cells() == cells;
    ReachMore(cells, width, height, visit, k, k');
    queue', marked', visit' := FloodColumn(mask, currentPoint, queue', marked, visit, k');
    ghost var v := visit';
    queue', marked', visit' := FloodRow(mask, currentPoint, queue', marked', visit', k');
    PrefixMembers(v, visit');
    PrefixChain(visit, v, visit', k');
    FloodClosed(cells, width, height, visit', k');
    FloodKeeps(visit, visit', width, height);
  }

  /** Marking the dequeued point visit[k] in the result: the set bits are then the first k + 1 points of the flood order. */
  method MarkVisited(bits: array<bool>, width: int, height: int, p: Point, ghost visit: seq<Point>, ghost k: int)
    requires bits.Length == width * height && 0 <= k < |visit| && p == visit[k] && 0 <= p.x < width && 0 <= p.y < height
    requires forall c, r :: InGrid(c, r, width, height) ==> (bits[Index(c, r, width)] <==> Point(c, r) in visit[..k])
    modifies bits
    ensures forall c, r :: InGrid(c, r, width, height) ==> (bits[Index(c, r, width)] <==> Point(c, r) in visit[..k + 1])
  {
    InGridIntro(p.x, p.y, width, height);
    OthersDistinct(p.x, p.y, width, height);
    bits[p.y * width + p.x] := true;
    assert visit[..k + 1] == visit[..k] + [p];
  }

  /** Once the neighbours of visit[k-1] are all considered, the first k points are closed. */
  lemma FloodClosed(cells: seq<bool>, width: int, height: int, visit: seq<Point>, k: int)
    requires 1 <= k && FloodState(cells, width, height, visit, k, k - 1)
    requires forall q: Point :: (Step4(visit[k - 1], q, width, height) && Selected(cells, width, height, q.x, q.y)) ==> q in visit
    ensures FloodState(cells, width, height, visit, k, k)
  {
  }

  /** Extending the flood order grows the marked set or leaves it, and the queue, as they were. */
  lemma FloodKeeps(visit: seq<Point>, visit': seq<Point>, width: int, height: int)
    requires |visit| <= |visit'| && visit'[..|visit|] == visit && InOrder(visit', width, height)
    ensures var s, s' := (set q | q in visit), (set q | q in visit');
            (s < s' && s' <= GridPoints(width, height)) || (s' == s && |visit'| == |visit|)
  {
    PrefixMembers(visit, visit');
    var s, s' := (set q | q in visit), (set q | q in visit');
    if |visit'| > |visit| {
      forall i | 0 <= i < |visit|
        ensures visit[i] != visit'[|visit|]
      {
        assert visit'[..|visit|][i] == visit[i];
      }
      assert visit'[|visit|] in s' - s;
    } else {
      assert visit' == visit'[..|visit|];
    }
  }

  /** Lines 470-502: the flood from a seed cell into a fresh bit array, all false at first. */
  method FloodFrom(mask: IMask, seed: Point) returns (bits: array<bool>, ghost visit: seq<Point>)
    requires mask.Valid() && InGrid(seed.x, seed.y, mask.Width(), mask.Height())
    ensures fresh(bits) && bits.Length == mask.Width() * mask.Height()
    ensures Flooded(mask.Cells(), mask.Width(), mask.Height(), visit) && visit[0] == seed
    ensures forall c, r :: InGrid(c, r, mask.Width(), mask.Height()) ==> (bits[Index(c, r, mask.Width())] <==> Point(c, r) in visit)
  {
    var width := mask.Width();
    var height := mask.Height();
    ghost var cells := mask.Cells();
    bits := new bool[width * height](_ => false);
    var markedPoints := {seed};
    var maskPoints := [seed];
    visit := [seed];
    ghost var k := 0;
    assert (set p | p in visit) == {seed};
    while maskPoints != []
      invariant FloodState(cells, width, height, visit, k, k) && visit[0] == seed
      invariant maskPoints == visit[k..] && markedPoints == (set p | p in visit)
      invariant forall c, r :: InGrid(c, r, width, height) ==> (bits[Index(c, r, width)] <==> Point(c, r) in visit[..k])
      decreases GridPoints(width, height) - markedPoints, |maskPoints|
    {
      ghost var v := visit;
      maskPoints, markedPoints, visit, k := FloodTurn(mask, bits, maskPoints, markedPoints, cells, visit, k);
      assert visit[0] == v[..|v|][0];
    }
    assert visit[..k] == visit;
  }

  /**
    MostCenterMask (MaskOperations.cs): a mask holding the 4-connected blob of
    selected cells nearest the centre, grown from the seed that FindCenter
    picks. When nothing is selected the seed is the last point searched and the
    result holds that one unselected cell. An empty grid fails on the first
    cell read.
  */
  method MostCenterMask(mask: Option<IMask>) returns (r: Result<IMask>, ghost seed: Point, ghost flood: seq<Point>)
    requires mask.Some? ==> mask.value.Valid()
    ensures mask.None? ==> r == Err(ArgumentNull)
    ensures mask.Some? && (mask.value.Width() == 0 || mask.value.Height() == 0) ==> r == Err(IndexOutOfRange)
    ensures mask.Some? && 0 < mask.value.Width() && 0 < mask.value.Height() ==>
              r.Ok? && r.value.Dense? && fresh(r.value.mask) && fresh(r.value.mask.data) && r.value.Valid() &&
              r.value.Width() == mask.value.Width() && r.value.Height() == mask.value.Height() &&
              CenterSeed(mask.value.Cells(), mask.value.Width(), mask.value.Height(), seed) &&
              Flooded(mask.value.Cells(), mask.value.Width(), mask.value.Height(), flood) && flood[0] == seed &&
              forall c, row :: InGrid(c, row, mask.value.Width(), mask.value.Height()) ==> (r.value.GetCell(c, row) <==> Point(c, row) in flood)
  {
    seed, flood := Point(0, 0), [];
    if mask.None? {
      return Err(ArgumentNull), seed, flood;
    }
    var source := mask.value;
    var width := source.Width();
    var height := source.Height();
    if width == 0 || height == 0 {
      return Err(IndexOutOfRange), seed, flood;
    }
    var foundPoint := FindCenter(source);
    seed := foundPoint;
    var maskData;
    maskData, flood := FloodFrom(source, foundPoint);
    var result := new Mask(maskData, width, height);
    r := Ok(Dense(result));
  }

  /** Consecutive points are 4-neighbours and every point after the first is selected. */
  ghost predicate SelectedPath(cells: seq<bool>, width: int, height: int, path: seq<Point>)
  {
    forall i :: 0 < i < |path| ==> Step4(path[i - 1], path[i], width, height) && Selected(cells, width, height, path[i].x, path[i].y)
  }

  /** Completeness of the flood: a selected 4-path leaving it never exists. */
  lemma {:induction false} PathInFlood(cells: seq<bool>, width: int, height: int, visit: seq<Point>, path: seq<Point>)
    requires Flooded(cells, width, height, visit) && 0 < |path| && path[0] in visit
    requires SelectedPath(cells, width, height, path)
    ensures path[|path| - 1] in visit
    decreases |path|
  {
    var n := |path| - 1;
    if n > 0 {
      var front := path[..n];
      assert SelectedPath(cells, width, height, front) by {
        forall i | 0 < i < |front|
          ensures Step4(front[i - 1], front[i], width, height) && Selected(cells, width, height, front[i].x, front[i].y)
        {
          assert front[i - 1] == path[i - 1] && front[i] == path[i];
        }
      }
      PathInFlood(cells, width, height, visit, front);
      StepInFlood(cells, width, height, visit, path[n - 1], path[n]);
    }
  }

  /** The flood is closed under selected 4-neighbours. */
  lemma StepInFlood(cells: seq<bool>, width: int, height: int, visit: seq<Point>, p: Point, q: Point)
    requires Flooded(cells, width, height, visit) && p in visit
    requires Step4(p, q, width, height) && Selected(cells, width, height, q.x, q.y)
    ensures q in visit
  {
    var j :| 0 <= j < |visit| && visit[j] == p;
  }

  /** Soundness of the flood: each of its points is reached from the seed by a selected 4-path. */
  lemma {:induction false} FloodReachable(cells: seq<bool>, width: int, height: int, visit: seq<Point>, j: int) returns (path: seq<Point>)
    requires Flooded(cells, width, height, visit) && 0 <= j < |visit|
    ensures 0 < |path| && path[0] == visit[0] && path[|path| - 1] == visit[j]
    ensures SelectedPath(cells, width, height, path)
    decreases j
  {
    if j == 0 {
      path := [visit[0]];
    } else {
      assert Reached4(visit, j, |visit|, width, height);
      var i :| 0 <= i < j && i < |visit| && Step4(visit[i], visit[j], width, height);
      var front := FloodReachable(cells, width, height, visit, i);
      path := front + [visit[j]];
      forall m | 0 < m < |path|
        ensures Step4(path[m - 1], path[m], width, height) && Selected(cells, width, height, path[m].x, path[m].y)
      {
        if m < |front| {
          assert path[m - 1] == front[m - 1] && path[m] == front[m];
        }
      }
    }
  }

  /**
    When the search finds no selected cell, the flood from its last point
    holds that point alone: the result marks exactly one, unselected, cell.
  */
  lemma UnselectedSeedFloodsAlone(cells: seq<bool>, width: int, height: int, seed: Point, visit: seq<Point>)
    requires CenterSeed(cells, width, height, seed) && Flooded(cells, width, height, visit) && visit[0] == seed
    requires !Selected(cells, width, height, seed.x, seed.y)
    ensures visit == [seed]
  {
    if |visit| > 1 {
      var q := visit[1];
      InGridIntro(q.x, q.y, width, height);
      NothingSelected(cells, width, height, seed, q);
      assert false;
    }
  }

  lemma NothingSelected(cells: seq<bool>, width: int, height: int, seed: Point, q: Point)
    requires CenterSeed(cells, width, height, seed) && !Selected(cells, width, height, seed.x, seed.y)
    requires InGrid(q.x, q.y, width, height)
    ensures !Selected(cells, width, height, q.x, q.y)
  {
  }
}
