/**
  Counting facts about integer label planes that the connected-component
  labelling of SplitBlobMask rests on: the area of a label, how it changes
  when one position is written, adjacency of row-major positions, and the
  double count that turns per-provisional-label counts into per-root areas.
*/
module Labelling {
  import opened Grid
  import opened Masks
  import opened SpecializedDataStructures

  /** The number of positions of the plane holding label v. */
  function LabelArea(p: seq<int>, v: int): (n: nat)
    ensures n <= |p|
  {
    if p == [] then 0 else LabelArea(p[..|p| - 1], v) + (if p[|p| - 1] == v then 1 else 0)
  }

  /** The area of a label is the number of selected cells of its single-label view. */
  lemma {:induction false} AreaIsViewArea(p: seq<int>, v: int)
    ensures LabelArea(p, v) == CountTrue(LabelCells(p, v))
    decreases |p|
  {
    if p != [] {
      var n := |p| - 1;
      assert LabelCells(p, v)[..n] == LabelCells(p[..n], v);
      AreaIsViewArea(p[..n], v);
    }
  }

  /** Writing x at position i moves one unit of area from the old label there to x. */
  lemma {:induction false} AreaUpdate(p: seq<int>, i: int, x: int, v: int)
    requires 0 <= i < |p|
    ensures LabelArea(p[i := x], v) == LabelArea(p, v) - (if p[i] == v then 1 else 0) + (if x == v then 1 else 0)
    decreases |p|
  {
    var n := |p| - 1;
    if i == n {
      assert p[i := x][..n] == p[..n];
    } else {
      assert p[i := x][..n] == p[..n][i := x];
      AreaUpdate(p[..n], i, x, v);
    }
  }

  lemma AreaAppend(p: seq<int>, x: int, v: int)
    ensures LabelArea(p + [x], v) == LabelArea(p, v) + (if x == v then 1 else 0)
  {
    assert (p + [x])[..|p|] == p;
  }

  /** A label with a positive area occurs in the plane. */
  lemma {:induction false} AreaPositive(p: seq<int>, v: int)
    requires 0 < LabelArea(p, v)
    ensures exists i :: 0 <= i < |p| && p[i] == v
    decreases |p|
  {
    var n := |p| - 1;
    if p[n] != v {
      AreaPositive(p[..n], v);
      var i :| 0 <= i < n && p[..n][i] == v;
      assert p[i] == v;
    }
  }

  /** Positions i and j of a row-major grid with the given width are left/right or up/down neighbours (i before j). */
  predicate Adjacent(i: int, j: int, width: int)
  {
    0 < width && ((j == i + 1 && j % width != 0) || j == i + width)
  }

  /** Horizontally or vertically neighbouring grid cells sit at adjacent positions. */
  lemma AdjacentCells(column: int, row: int, width: int, height: int)
    requires InGrid(column, row, width, height)
    ensures InGrid(column + 1, row, width, height) ==>
              Adjacent(Index(column, row, width), Index(column + 1, row, width), width)
    ensures InGrid(column, row + 1, width, height) ==>
              Adjacent(Index(column, row, width), Index(column, row + 1, width), width)
  {
    if InGrid(column + 1, row, width, height) {
      var j := Index(column + 1, row, width);
      if j % width == 0 {
        var c, r := CellOf(j, width, height);
        assert Index(0, j / width, width) == j;
        InGridIntro(0, j / width, width, height);
        IndexInjective(0, j / width, column + 1, row, width, height);
      }
    }
  }

  /** Positions i and j are 4-neighbours, in either order. */
  predicate Neighbours(i: int, j: int, width: int)
  {
    Adjacent(i, j, width) || Adjacent(j, i, width)
  }

  /** A walk over selected positions of the plane, each step to a 4-neighbour. */
  ghost predicate PositionPath(cells: seq<bool>, width: int, path: seq<int>)
  {
    0 < |path| &&
    (forall k :: 0 <= k < |path| ==> 0 <= path[k] < |cells| && cells[path[k]]) &&
    (forall k :: 0 <= k < |path| - 1 ==> Neighbours(path[k], path[k + 1], width))
  }

  /** Positions i and j are joined by a 4-path of selected cells. */
  ghost predicate FourConnected(cells: seq<bool>, width: int, i: int, j: int)
  {
    exists path :: PositionPath(cells, width, path) && path[0] == i && path[|path| - 1] == j
  }

  /** A selected cell is joined to itself. */
  lemma ConnectedSelf(cells: seq<bool>, width: int, i: int)
    requires 0 <= i < |cells| && cells[i]
    ensures FourConnected(cells, width, i, i)
  {
    assert PositionPath(cells, width, [i]);
  }

  /** A path to j extends to a selected 4-neighbour k of j. */
  lemma ConnectedExtend(cells: seq<bool>, width: int, i: int, j: int, k: int)
    requires FourConnected(cells, width, i, j) && 0 <= k < |cells| && cells[k] && Neighbours(j, k, width)
    ensures FourConnected(cells, width, i, k)
  {
    var path :| PositionPath(cells, width, path) && path[0] == i && path[|path| - 1] == j;
    var longer := path + [k];
    assert forall n :: 0 <= n < |path| ==> longer[n] == path[n];
    assert PositionPath(cells, width, longer);
  }

  /** A path from i extends backwards to a selected 4-neighbour k of i. */
  lemma ConnectedPrepend(cells: seq<bool>, width: int, k: int, i: int, j: int)
    requires FourConnected(cells, width, i, j) && 0 <= k < |cells| && cells[k] && Neighbours(k, i, width)
    ensures FourConnected(cells, width, k, j)
  {
    var path :| PositionPath(cells, width, path) && path[0] == i && path[|path| - 1] == j;
    assert 0 <= path[0] < |cells| && cells[path[0]];
    assert PositionPath(cells, width, [k, i]);
    ConnectedTrans(cells, width, k, i, j);
  }

  /** Paths from i to j and from j to k join into one from i to k. */
  lemma ConnectedTrans(cells: seq<bool>, width: int, i: int, j: int, k: int)
    requires FourConnected(cells, width, i, j) && FourConnected(cells, width, j, k)
    ensures FourConnected(cells, width, i, k)
  {
    var first :| PositionPath(cells, width, first) && first[0] == i && first[|first| - 1] == j;
    var second :| PositionPath(cells, width, second) && second[0] == j && second[|second| - 1] == k;
    var joined := first + second[1..];
    assert forall n :: 0 <= n < |first| ==> joined[n] == first[n];
    assert forall n :: |first| <= n < |joined| ==> joined[n] == second[n - |first| + 1];
    forall n | 0 <= n < |joined| - 1
      ensures Neighbours(joined[n], joined[n + 1], width)
    {
      if n == |first| - 1 {
        assert joined[n] == second[0];
      }
    }
    assert PositionPath(cells, width, joined);
  }

  /** The plane s with every positive provisional label replaced by its root in t. */
  ghost function Resolved(s: seq<int>, t: seq<int>): (p: seq<int>)
    requires Forest(t) && forall i :: 0 <= i < |s| ==> 0 <= s[i] <= |t|
    ensures |p| == |s|
  {
    seq(|s|, i requires 0 <= i < |s| => if 0 < s[i] then Root(t, s[i]) else s[i])
  }

  /** Sum of the areas in s of the keys 1 .. keys whose root in t is r. */
  ghost function ClassArea(s: seq<int>, t: seq<int>, r: int, keys: int): int
    requires Forest(t) && 0 <= keys <= |t|
    decreases keys
  {
    if keys == 0 then 0 else ClassArea(s, t, r, keys - 1) + (if Root(t, keys) == r then LabelArea(s, keys) else 0)
  }

  /** Keys below r cannot have r as their root. */
  lemma {:induction false} ClassAreaBelow(s: seq<int>, t: seq<int>, r: int, keys: int)
    requires Forest(t) && 0 <= keys <= |t| && keys < r
    ensures ClassArea(s, t, r, keys) == 0
    decreases keys
  {
    if keys > 0 {
      ClassAreaBelow(s, t, r, keys - 1);
    }
  }

  lemma {:induction false} ClassAreaAppend(s: seq<int>, x: int, t: seq<int>, r: int, keys: int)
    requires Forest(t) && 0 <= keys <= |t| && 0 <= x <= |t|
    ensures ClassArea(s + [x], t, r, keys) == ClassArea(s, t, r, keys) + (if 1 <= x <= keys && Root(t, x) == r then 1 else 0)
    decreases keys
  {
    if keys > 0 {
      ClassAreaAppend(s, x, t, r, keys - 1);
      AreaAppend(s, x, keys);
    }
  }

  /** Adding up the provisional labels' areas per root gives each root's area in the resolved plane. */
  lemma {:induction false} ClassAreaIsResolvedArea(s: seq<int>, t: seq<int>, r: int)
    requires Forest(t) && 1 <= r && forall i :: 0 <= i < |s| ==> 0 <= s[i] <= |t|
    ensures ClassArea(s, t, r, |t|) == LabelArea(Resolved(s, t), r)
    decreases |s|
  {
    if s == [] {
      ClassAreaEmpty(t, r, |t|);
    } else {
      var n := |s| - 1;
      var front := s[..n];
      var x := s[n];
      assert s == front + [x];
      ClassAreaIsResolvedArea(front, t, r);
      ClassAreaAppend(front, x, t, r, |t|);
      var y := if 0 < x then Root(t, x) else x;
      assert Resolved(s, t) == Resolved(front, t) + [y];
      AreaAppend(Resolved(front, t), y, r);
    }
  }

  lemma {:induction false} ClassAreaEmpty(t: seq<int>, r: int, keys: int)
    requires Forest(t) && 0 <= keys <= |t|
    ensures ClassArea([], t, r, keys) == 0
    decreases keys
  {
    if keys > 0 {
      ClassAreaEmpty(t, r, keys - 1);
    }
  }

  /** Every term of the double count is non-negative, so a root's class area includes the root's own area. */
  lemma {:induction false} ClassAreaAtLeast(s: seq<int>, t: seq<int>, r: int, keys: int)
    requires Forest(t) && 0 <= keys <= |t|
    ensures 0 <= ClassArea(s, t, r, keys)
    ensures 1 <= r <= keys && Root(t, r) == r ==> LabelArea(s, r) <= ClassArea(s, t, r, keys)
    decreases keys
  {
    if keys > 0 {
      ClassAreaAtLeast(s, t, r, keys - 1);
    }
  }
}
