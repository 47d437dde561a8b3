/** The `Maze` object: the loaded rows, the start cell, the cached goal
    and the recorded height and width, and `solve_maze`, which hands the
    maze to one of the two searches. */
module Maze {
  import opened Grid
  import opened Paths
  import DepthFirst
  import AStar

  /** `b` if it is set, otherwise `a`: a later assignment wins. */
  function Later(a: Option<Pos>, b: Option<Pos>): Option<Pos>
  {
    if b.Some? then b else a
  }

  /** Row-major order of positions: by row, then by column. */
  predicate RowMajorLe(a: Pos, b: Pos)
  {
    a.y < b.y || (a.y == b.y && a.x <= b.x)
  }

  /** Position `(y, x)` of `rows` holds the goal marker. */
  predicate GoalAt(rows: seq<seq<Cell>>, y: int, x: int)
  {
    0 <= y < |rows| && 0 <= x < |rows[y]| && rows[y][x] == Goal
  }

  /** The last 'G' of row `y`, scanning left to right. */
  function LastGoalInRow(row: seq<Cell>, y: int): Option<Pos>
  {
    if row == [] then None
    else if row[|row| - 1] == Goal then Some(Pos(y, |row| - 1))
    else LastGoalInRow(row[..|row| - 1], y)
  }

  /** The cell the scan of `load_maze` leaves in `self.goal`: the last 'G'
      in row-major order, or None when there is no 'G'. */
  function LastGoal(rows: seq<seq<Cell>>): Option<Pos>
  {
    if rows == [] then None
    else Later(LastGoal(rows[..|rows| - 1]), LastGoalInRow(rows[|rows| - 1], |rows| - 1))
  }

  lemma {:induction false} LastGoalInRowSpec(row: seq<Cell>, y: int)
    ensures var r := LastGoalInRow(row, y);
      (r.Some? <==> exists x :: 0 <= x < |row| && row[x] == Goal) &&
      (r.Some? ==>
         r.value.y == y && 0 <= r.value.x < |row| && row[r.value.x] == Goal &&
         forall x :: 0 <= x < |row| && row[x] == Goal ==> x <= r.value.x)
  {
    if row != [] {
      var front := row[..|row| - 1];
      LastGoalInRowSpec(front, y);
      if row[|row| - 1] != Goal {
        forall x | 0 <= x < |row| && row[x] == Goal ensures x < |front| && front[x] == Goal {
        }
      }
    }
  }

  /** `self.goal` after the scan is the last 'G' in row-major order: it is
      set exactly when some row holds a 'G', it is a 'G', and every 'G'
      comes no later than it. */
  lemma {:induction false} LastGoalSpec(rows: seq<seq<Cell>>)
    ensures var r := LastGoal(rows);
      (r.Some? <==> exists y, x :: GoalAt(rows, y, x)) &&
      (r.Some? ==>
         GoalAt(rows, r.value.y, r.value.x) &&
         forall y, x :: GoalAt(rows, y, x) ==> RowMajorLe(Pos(y, x), r.value))
  {
    if rows != [] {
      var n := |rows| - 1;
      var front := rows[..n];
      LastGoalSpec(front);
      LastGoalInRowSpec(rows[n], n);
      assert forall y, x :: GoalAt(front, y, x) <==> GoalAt(rows, y, x) && y < n;
      var inRow := LastGoalInRow(rows[n], n);
      if inRow.Some? {
        assert GoalAt(rows, n, inRow.value.x);
      } else {
        assert forall x :: !GoalAt(rows, n, x);
        if LastGoal(front).Some? {
          var r := LastGoal(front).value;
          assert GoalAt(front, r.y, r.x);
        }
      }
    }
  }

  /** One more cell of the scan: a 'G' overrides, anything else keeps the result. */
  lemma ScanStep(row: seq<Cell>, y: int, x: int)
    requires 0 <= x < |row|
    ensures LastGoalInRow(row[..x + 1], y) ==
      (if row[x] == Goal then Some(Pos(y, x)) else LastGoalInRow(row[..x], y))
  {
    assert row[..x + 1][..x] == row[..x];
  }

  class Maze {
    var maze: Option<seq<seq<Cell>>>
    var start: Pos
    var goal: Option<Pos>
    var height: int
    var width: int

    /** `Maze()`: no maze loaded, start at (0, 0), no goal cached. */
    constructor ()
      ensures maze == None && start == Pos(0, 0) && goal == None
    {
      maze := None;
      start := Pos(0, 0);
      goal := None;
      height := 0;
      width := 0;
    }

    /** The loaded maze as the searches see it. */
    function Board(): Grid
      reads this
      requires maze.Some?
    {
      Grid(maze.value, height, width)
    }

    /** `load_maze` on already parsed rows: store them, cache the last 'G'
        as the goal (keeping the previous goal when there is none), record
        the height, and the width of the first row; with no rows at all
        reading that first row raises IndexError after the height is set. */
    method LoadRows(rows: seq<seq<Cell>>) returns (err: Option<Error>)
      modifies this
      ensures maze == Some(rows) && height == |rows| && start == old(start)
      ensures goal == Later(old(goal), LastGoal(rows))
      ensures rows == [] ==> err == Some(IndexError) && width == old(width)
      ensures rows != [] ==> err == None && width == |rows[0]|
    {
      maze := Some([]);
      var y := 0;
      while y < |rows|
        invariant 0 <= y <= |rows|
        invariant maze == Some(rows[..y]) && start == old(start) && width == old(width)
        invariant goal == Later(old(goal), LastGoal(rows[..y]))
      {
        var row := rows[y];
        maze := Some(maze.value + [row]);
        var x := 0;
        while x < |row|
          invariant 0 <= x <= |row|
          invariant maze == Some(rows[..y] + [row]) && start == old(start) && width == old(width)
          invariant goal == Later(Later(old(goal), LastGoal(rows[..y])), LastGoalInRow(row[..x], y))
        {
          ScanStep(row, y, x);
          if row[x] == Goal {
            goal := Some(Pos(y, x));
          }
          x := x + 1;
        }
        assert row[..x] == row;
        assert rows[..y + 1][..y] == rows[..y];
        assert rows[..y + 1] == rows[..y] + [row];
        y := y + 1;
      }
      assert rows[..y] == rows;
      height := |maze.value|;
      if |maze.value| == 0 {
        return Some(IndexError);
      }
      width := |maze.value[0]|;
      return None;
    }

    /** `solve_maze(search_method)`: fail the assertion when nothing was
        loaded, reject a method other than 'DFS' and 'A*', and otherwise
        return what the chosen search returns; both searches start by
        reading the start cell, which raises IndexError outside the grid. */
    method SolveMaze(searchMethod: string) returns (r: Result<seq<Pos>>)
      requires maze.Some? ==> Board().Valid()
      ensures maze.None? ==> r == Err(AssertionError)
      ensures maze.Some? && searchMethod != "DFS" && searchMethod != "A*" ==> r == Err(ValueError)
      ensures maze.Some? && (searchMethod == "DFS" || searchMethod == "A*") && !Board().InBounds(start) ==>
        r == Err(IndexError)
      ensures maze.Some? && searchMethod == "DFS" && Board().InBounds(start) ==>
        r.Ok? && r.value == DepthFirst.DfsResult(Board(), start) &&
        (r.value != [] ==> IsGoalPath(Board(), start, r.value) && Distinct(r.value)) &&
        (r.value == [] <==> !GoalReachable(Board(), start))
      ensures maze.Some? && searchMethod == "A*" && Board().InBounds(start) ==>
        AStar.AStarOutcome(Board(), start, goal, r) &&
        (goal.Some? ==> (r.Ok? <==> GoalReachable(Board(), start)))
    {
      if maze.None? {
        return Err(AssertionError);
      }
      if searchMethod != "DFS" && searchMethod != "A*" {
        return Err(ValueError);
      }
      var g := Board();
      if !g.InBounds(start) {
        return Err(IndexError);
      }
      if searchMethod == "DFS" {
        var p := DepthFirst.DepthFirstSearch(g, start);
        r := Ok(p);
      } else {
        r := AStar.AStar(g, start, goal);
      }
    }
  }

  /** After a load that finds a 'G', the goal A* measures towards is a 'G'
      cell of the loaded maze, so an A* result costs no more than any path
      from the start to that cell. */
  lemma LoadedGoalIsGoalCell(rows: seq<seq<Cell>>, height: int, width: int)
    requires Grid(rows, height, width).Valid() && LastGoal(rows).Some?
    ensures Grid(rows, height, width).IsGoalCell(LastGoal(rows).value)
  {
    LastGoalSpec(rows);
  }
}
