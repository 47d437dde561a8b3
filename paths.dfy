/** Paths through a jump maze, what they cost, and the Manhattan-distance
    heuristic the A* search ranks cells with. */
module Paths {
  import opened Grid

  /** A non-empty sequence of cells, each reached from the one before by a legal move. */
  ghost predicate IsPath(g: Grid, p: seq<Pos>)
  {
    |p| >= 1 && g.InBounds(p[0]) &&
    forall i :: 0 <= i < |p| - 1 ==> g.IsMove(p[i], p[i + 1])
  }

  /** A path from `start` that ends on a 'G' cell. */
  ghost predicate IsGoalPath(g: Grid, start: Pos, p: seq<Pos>)
  {
    IsPath(g, p) && p[0] == start && g.IsGoalCell(p[|p| - 1])
  }

  ghost predicate GoalReachable(g: Grid, start: Pos)
  {
    exists p :: IsGoalPath(g, start, p)
  }

  /** No cell occurs twice. */
  predicate Distinct(p: seq<Pos>)
  {
    forall i, j :: 0 <= i < j < |p| ==> p[i] != p[j]
  }

  ghost predicate SimpleGoalReachable(g: Grid, start: Pos)
  {
    exists p :: IsGoalPath(g, start, p) && Distinct(p)
  }

  /** Every cell of `p` lies inside the grid. */
  ghost predicate InGrid(g: Grid, p: seq<Pos>)
  {
    forall c :: c in p ==> g.InBounds(c)
  }

  /** The cost of a path: each move costs the jump distance of the cell it
      leaves, so the cost is the sum of the jumps of all cells but the last. */
  function Cost(g: Grid, p: seq<Pos>): nat
  {
    if |p| <= 1 then 0 else Cost(g, p[..|p| - 1]) + g.JumpOf(p[|p| - 2])
  }

  function Abs(n: int): nat
  {
    if n < 0 then -n else n
  }

  /** The A* heuristic: Manhattan distance between two cells. */
  function Manhattan(a: Pos, b: Pos): nat
  {
    Abs(a.y - b.y) + Abs(a.x - b.x)
  }

  lemma {:induction false} PathInGrid(g: Grid, p: seq<Pos>)
    requires IsPath(g, p)
    ensures InGrid(g, p)
  {
    forall c | c in p ensures g.InBounds(c) {
      var i :| 0 <= i < |p| && p[i] == c;
      if i > 0 {
        assert g.IsMove(p[i - 1], p[i]);
      }
    }
  }

  /** A slice of a path is a path. */
  lemma SlicePath(g: Grid, p: seq<Pos>, i: int, j: int)
    requires IsPath(g, p) && 0 <= i < j <= |p|
    ensures IsPath(g, p[i..j])
  {
    if i > 0 {
      assert g.IsMove(p[i - 1], p[i]);
    }
    forall k | 0 <= k < j - i - 1 ensures g.IsMove(p[i..j][k], p[i..j][k + 1]) {
      assert g.IsMove(p[i + k], p[i + k + 1]);
    }
  }

  /** A path followed by one more legal move is a path. */
  lemma ExtendPath(g: Grid, p: seq<Pos>, c: Pos)
    requires IsPath(g, p) && g.IsMove(p[|p| - 1], c)
    ensures IsPath(g, p + [c])
  {
    var q := p + [c];
    forall k | 0 <= k < |q| - 1 ensures g.IsMove(q[k], q[k + 1]) {
      if k < |p| - 1 {
        assert g.IsMove(p[k], p[k + 1]);
      }
    }
  }

  /** Splitting a path at cell `k` splits its cost. */
  lemma {:induction false} CostSplit(g: Grid, p: seq<Pos>, k: int)
    requires 0 <= k < |p|
    ensures Cost(g, p) == Cost(g, p[..k + 1]) + Cost(g, p[k..])
    decreases |p|
  {
    var n := |p|;
    if k == n - 1 {
      assert p[..k + 1] == p;
    } else {
      var front := p[..n - 1];
      CostSplit(g, front, k);
      assert front[..k + 1] == p[..k + 1];
      var back := p[k..];
      assert back[..|back| - 1] == front[k..];
      assert back[|back| - 2] == p[n - 2];
    }
  }

  /** Extending a path by one cell adds the jump of its last cell. */
  lemma CostSnoc(g: Grid, p: seq<Pos>, k: int)
    requires 0 <= k < |p| - 1
    ensures Cost(g, p[..k + 2]) == Cost(g, p[..k + 1]) + g.JumpOf(p[k])
  {
    assert p[..k + 2][..k + 1] == p[..k + 1];
  }

  /** The heuristic is admissible: no path is cheaper than the Manhattan
      distance between its ends, because a move of jump `j` changes that
      distance by at most `j` and costs `j`. */
  lemma {:induction false} Admissible(g: Grid, p: seq<Pos>)
    requires IsPath(g, p)
    ensures Manhattan(p[0], p[|p| - 1]) <= Cost(g, p)
    decreases |p|
  {
    var n := |p|;
    if n > 1 {
      SlicePath(g, p, 0, n - 1);
      Admissible(g, p[..n - 1]);
      assert g.IsMove(p[n - 2], p[n - 1]);
    }
  }

  /** Cutting the loop out of a path whose cell `i` recurs at `j` leaves a
      shorter path between the same ends. */
  lemma CutLoop(g: Grid, p: seq<Pos>, i: int, j: int)
    requires IsPath(g, p) && 0 <= i < j < |p| && p[i] == p[j]
    ensures var q := p[..i] + p[j..];
      IsPath(g, q) && |q| < |p| && q[0] == p[0] && q[|q| - 1] == p[|p| - 1]
  {
    var q := p[..i] + p[j..];
    assert g.InBounds(q[0]) by {
      if i == 0 {
        PathInGrid(g, p);
        assert q[0] == p[j];
      }
    }
    forall k | 0 <= k < |q| - 1 ensures g.IsMove(q[k], q[k + 1]) {
      if k < i - 1 {
        assert g.IsMove(p[k], p[k + 1]);
      } else if k == i - 1 {
        assert g.IsMove(p[i - 1], p[i]);
      } else {
        assert g.IsMove(p[j + k - i], p[j + k - i + 1]);
      }
    }
  }

  /** Every path can be shortened to one without repeated cells between the same ends. */
  lemma {:induction false} ShortenToSimple(g: Grid, p: seq<Pos>) returns (q: seq<Pos>)
    requires IsPath(g, p)
    ensures IsPath(g, q) && Distinct(q)
    ensures q[0] == p[0] && q[|q| - 1] == p[|p| - 1]
    decreases |p|
  {
    if Distinct(p) {
      q := p;
    } else {
      var i, j :| 0 <= i < j < |p| && p[i] == p[j];
      CutLoop(g, p, i, j);
      q := ShortenToSimple(g, p[..i] + p[j..]);
    }
  }

  /** A goal can be reached at all exactly when it can be reached without
      visiting any cell twice. */
  lemma ReachableIffSimple(g: Grid, start: Pos)
    ensures GoalReachable(g, start) <==> SimpleGoalReachable(g, start)
  {
    if GoalReachable(g, start) {
      var p :| IsGoalPath(g, start, p);
      var q := ShortenToSimple(g, p);
      assert IsGoalPath(g, start, q) && Distinct(q);
    }
  }
}
