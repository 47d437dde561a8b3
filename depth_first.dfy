/** `depth_first`: exhaustive backtracking search over simple paths, with a
    shared path buffer that each recursive step appends to and its caller
    pops, and a result that every goal reached overwrites. */
module DepthFirst {
  import opened Grid
  import opened Paths

  function Elems(s: seq<Pos>): set<Pos>
  {
    set c | c in s
  }

  /** `xs[|xs| - 1]`, or `d` when `xs` is empty. */
  function LastOr<T>(xs: seq<T>, d: T): T
  {
    if xs == [] then d else xs[|xs| - 1]
  }

  lemma LastOrConcat<T>(xs: seq<T>, ys: seq<T>, d: T)
    ensures LastOr(xs + ys, d) == LastOr(ys, LastOr(xs, d))
  {
    if ys != [] {
      assert (xs + ys)[|xs + ys| - 1] == ys[|ys| - 1];
    }
  }

  /** Adding an in-bounds cell that is not yet on the path leaves fewer
      cells off the path. */
  lemma FewerCellsLeft(g: Grid, path: seq<Pos>, node: Pos)
    requires g.InBounds(node) && node !in path
    ensures g.Cells() - Elems(path + [node]) < g.Cells() - Elems(path)
  {
    assert node in g.Cells() - Elems(path);
    assert node !in g.Cells() - Elems(path + [node]);
  }

  /** The goal-reaching paths that `recurse(node, path)` records, in the
      order it records them. */
  ghost function Found(g: Grid, path: seq<Pos>, node: Pos): seq<seq<Pos>>
    requires g.Valid() && g.InBounds(node) && node !in path
    decreases g.Cells() - Elems(path), 0, 0
  {
    var p := path + [node];
    if g.At(node) == Goal then [p]
    else
      FewerCellsLeft(g, path, node);
      g.AdjacentInBounds(node);
      FoundFrom(g, p, g.Adjacent(node))
  }

  /** What the loop of `recurse` records when it tries the cells `adjs` in
      order from the buffer contents `path`. */
  ghost function FoundFrom(g: Grid, path: seq<Pos>, adjs: seq<Pos>): seq<seq<Pos>>
    requires g.Valid() && forall a :: a in adjs ==> g.InBounds(a)
    decreases g.Cells() - Elems(path), 1, |adjs|
  {
    if adjs == [] then []
    else
      var a := adjs[|adjs| - 1];
      FoundFrom(g, path, adjs[..|adjs| - 1]) + (if a in path then [] else Found(g, path, a))
  }

  /** Trying one more cell appends what it records. */
  lemma FoundFromStep(g: Grid, path: seq<Pos>, adjs: seq<Pos>, i: int)
    requires g.Valid() && (forall a :: a in adjs ==> g.InBounds(a)) && 0 <= i < |adjs|
    ensures FoundFrom(g, path, adjs[..i + 1]) ==
      FoundFrom(g, path, adjs[..i]) + (if adjs[i] in path then [] else Found(g, path, adjs[i]))
  {
    assert adjs[..i + 1][..i] == adjs[..i];
  }

  /** The result of `depth_first` starting at `start`: the last goal path
      recorded, or `[]` when none was. */
  ghost function DfsResult(g: Grid, start: Pos): seq<Pos>
    requires g.Valid() && g.InBounds(start)
  {
    LastOr(Found(g, [], start), [])
  }

  /** Everything `recurse` records is a simple path that extends the buffer
      and ends on a goal. */
  lemma {:induction false} FoundSound(g: Grid, path: seq<Pos>, node: Pos)
    requires g.Valid() && g.InBounds(node) && node !in path
    requires IsPath(g, path + [node]) && Distinct(path + [node])
    ensures forall q :: q in Found(g, path, node) ==>
      IsPath(g, q) && Distinct(q) && g.IsGoalCell(q[|q| - 1]) &&
      |q| > |path| && q[..|path| + 1] == path + [node]
    decreases g.Cells() - Elems(path), 0, 0
  {
    var p := path + [node];
    assert p[..|path| + 1] == p;
    if g.At(node) != Goal {
      FewerCellsLeft(g, path, node);
      g.AdjacentInBounds(node);
      FoundFromSound(g, p, g.Adjacent(node));
    }
  }

  lemma {:induction false} FoundFromSound(g: Grid, path: seq<Pos>, adjs: seq<Pos>)
    requires g.Valid() && IsPath(g, path) && Distinct(path)
    requires forall a :: a in adjs ==> g.InBounds(a) && g.IsMove(path[|path| - 1], a)
    ensures forall q :: q in FoundFrom(g, path, adjs) ==>
      IsPath(g, q) && Distinct(q) && g.IsGoalCell(q[|q| - 1]) &&
      |q| > |path| && q[..|path|] == path
    decreases g.Cells() - Elems(path), 1, |adjs|
  {
    if adjs != [] {
      var a := adjs[|adjs| - 1];
      assert a in adjs;
      assert forall b :: b in adjs[..|adjs| - 1] ==> b in adjs;
      FoundFromSound(g, path, adjs[..|adjs| - 1]);
      if a !in path {
        ExtendPath(g, path, a);
        FoundSound(g, path, a);
        forall q | q in Found(g, path, a) ensures q[..|path|] == path {
          assert q[..|path|] == q[..|path| + 1][..|path|];
        }
      }
    }
  }

  /** Every simple goal path that extends the buffer through `node` is recorded. */
  lemma {:induction false} FoundComplete(g: Grid, path: seq<Pos>, node: Pos, q: seq<Pos>)
    requires g.Valid() && g.InBounds(node) && node !in path
    requires |q| > |path| && q[..|path| + 1] == path + [node]
    requires IsPath(g, q[|path|..]) && Distinct(q) && g.IsGoalCell(q[|q| - 1])
    ensures q in Found(g, path, node)
    decreases g.Cells() - Elems(path), 0, 0
  {
    var p := path + [node];
    assert q[|path|] == node;
    LeavesJumpCell(g, q[|path|..]);
    if g.At(node) == Goal {
      assert q == q[..|path| + 1];
    } else {
      assert |q| > |p|;
      var next := q[|p|];
      assert g.IsMove(q[|path|..][0], q[|path|..][1]);
      assert next !in p by {
        forall k | 0 <= k < |p| ensures p[k] != next {
          assert p[k] == q[k];
        }
      }
      assert q[..|p|] == p by {
        assert q[..|p|] == q[..|path| + 1];
      }
      SlicePath(g, q[|path|..], 1, |q| - |path|);
      assert q[|path|..][1..|q| - |path|] == q[|p|..];
      FewerCellsLeft(g, path, node);
      g.AdjacentInBounds(node);
      g.MovesAreAdjacent(node);
      FoundFromComplete(g, p, g.Adjacent(node), q);
    }
  }

  /** A path of more than one cell leaves from a jump cell, so a path
      through a 'G' cell ends there. */
  lemma LeavesJumpCell(g: Grid, p: seq<Pos>)
    requires IsPath(g, p)
    ensures |p| > 1 ==> g.IsJumpCell(p[0])
  {
    if |p| > 1 {
      assert g.IsMove(p[0], p[1]);
    }
  }

  lemma {:induction false} FoundFromComplete(g: Grid, path: seq<Pos>, adjs: seq<Pos>, q: seq<Pos>)
    requires g.Valid() && forall a :: a in adjs ==> g.InBounds(a)
    requires |q| > |path| && q[..|path|] == path && q[|path|] in adjs && q[|path|] !in path
    requires IsPath(g, q[|path|..]) && Distinct(q) && g.IsGoalCell(q[|q| - 1])
    ensures q in FoundFrom(g, path, adjs)
    decreases g.Cells() - Elems(path), 1, |adjs|
  {
    var a := adjs[|adjs| - 1];
    if q[|path|] == a {
      assert q[..|path| + 1] == path + [a];
      FoundComplete(g, path, a, q);
    } else {
      assert q[|path|] in adjs[..|adjs| - 1] by {
        var k :| 0 <= k < |adjs| && adjs[k] == q[|path|];
        assert k < |adjs| - 1;
      }
      FoundFromComplete(g, path, adjs[..|adjs| - 1], q);
    }
  }

  /** What `depth_first` promises: its result is a simple path from `start`
      to a goal, empty exactly when no goal is reachable, and `[start]` when
      `start` is itself the goal. */
  lemma DfsResultCorrect(g: Grid, start: Pos)
    requires g.Valid() && g.InBounds(start)
    ensures var r := DfsResult(g, start);
      (r != [] ==> IsGoalPath(g, start, r) && Distinct(r)) &&
      (r == [] <==> !GoalReachable(g, start)) &&
      (g.At(start) == Goal ==> r == [start])
  {
    DfsResultSound(g, start);
    DfsResultComplete(g, start);
    assert [] + [start] == [start];
  }

  /** A non-empty result is a simple goal path from `start`. */
  lemma DfsResultSound(g: Grid, start: Pos)
    requires g.Valid() && g.InBounds(start)
    ensures var r := DfsResult(g, start);
      r != [] ==> IsGoalPath(g, start, r) && Distinct(r)
  {
    assert [] + [start] == [start];
    FoundSound(g, [], start);
    LastRecorded(g, start, Found(g, [], start));
  }

  /** A reachable goal makes the result non-empty. */
  lemma DfsResultComplete(g: Grid, start: Pos)
    requires g.Valid() && g.InBounds(start)
    ensures GoalReachable(g, start) ==> DfsResult(g, start) != []
  {
    assert [] + [start] == [start];
    FoundSound(g, [], start);
    LastRecorded(g, start, Found(g, [], start));
    ReachableIffSimple(g, start);
    if SimpleGoalReachable(g, start) {
      var q :| IsGoalPath(g, start, q) && Distinct(q);
      assert q[..1] == [start];
      assert q[0..] == q;
      FoundComplete(g, [], start, q);
    }
  }

  /** The last of a list of recorded goal paths from `start` is one of
      them, and it is present whenever the list is not empty. */
  lemma LastRecorded(g: Grid, start: Pos, found: seq<seq<Pos>>)
    requires forall q :: q in found ==>
      IsPath(g, q) && Distinct(q) && g.IsGoalCell(q[|q| - 1]) && |q| > 0 && q[..1] == [start]
    ensures found != [] <==> LastOr(found, []) != []
    ensures found != [] ==> LastOr(found, []) in found
    ensures LastOr(found, []) != [] ==> IsGoalPath(g, start, LastOr(found, [])) && Distinct(LastOr(found, []))
  {
    if found != [] {
      var r := found[|found| - 1];
      assert r in found;
      assert r[0] == r[..1][0];
    }
  }

  /** The state `recurse` shares across its calls: the path buffer and the
      last goal path recorded (`path_found`). */
  class Backtracker {
    const grid: Grid
    var path: seq<Pos>
    var pathFound: seq<Pos>

    constructor (g: Grid)
      ensures grid == g && path == [] && pathFound == []
    {
      grid := g;
      path := [];
      pathFound := [];
    }

    /** `recurse(node, path)`: push `node`; at a goal record a copy of the
        buffer, otherwise try each move not already on the buffer and pop it
        again afterwards. The buffer ends one cell longer, ending in `node`. */
    method Recurse(node: Pos)
      requires grid.Valid() && grid.InBounds(node) && node !in path
      modifies this
      ensures path == old(path) + [node]
      ensures pathFound == LastOr(Found(grid, old(path), node), old(pathFound))
      decreases grid.Cells() - Elems(path)
    {
      path := path + [node];
      if grid.At(node) == Goal {
        pathFound := path;
        return;
      }
      var adjacent := grid.Adjacent(node);
      grid.AdjacentInBounds(node);
      FewerCellsLeft(grid, old(path), node);
      var i := 0;
      while i < |adjacent|
        invariant 0 <= i <= |adjacent|
        invariant path == old(path) + [node]
        invariant pathFound == LastOr(FoundFrom(grid, path, adjacent[..i]), old(pathFound))
      {
        var adj := adjacent[i];
        FoundFromStep(grid, path, adjacent, i);
        LastOrConcat(FoundFrom(grid, path, adjacent[..i]),
                     if adj in path then [] else Found(grid, path, adj), old(pathFound));
        if adj in path {
          i := i + 1;
          continue;
        }
        Recurse(adj);
        if |path| > 0 {
          path := path[..|path| - 1];
        }
        i := i + 1;
      }
      assert adjacent[..|adjacent|] == adjacent;
    }
  }

  /** `depth_first(maze)`: run `recurse(maze.start, [])` and return the last
      goal path it recorded. */
  method DepthFirstSearch(g: Grid, start: Pos) returns (r: seq<Pos>)
    requires g.Valid() && g.InBounds(start)
    ensures r == DfsResult(g, start)
    ensures r != [] ==> IsGoalPath(g, start, r) && Distinct(r)
    ensures r == [] <==> !GoalReachable(g, start)
  {
    var b := new Backtracker(g);
    b.Recurse(start);
    r := b.pathFound;
    DfsResultCorrect(g, start);
  }
}
