/** The jump maze as the searches see it: parsed cells, positions, and the
    moves a cell allows (`Maze.get_adjacent`). */
module Grid {

  datatype Option<T> = None | Some(value: T)

  /** The exceptions the maze code can raise. */
  datatype Error = AssertionError | ValueError | IndexError | AttributeError | UnboundLocalError

  datatype Result<T> = Ok(value: T) | Err(error: Error)

  /** A parsed cell: the goal marker 'G' or a jump distance. */
  datatype Cell = Goal | Jump(n: nat)

  /** A (row, column) position, the source's `(y, x)` tuple. */
  datatype Pos = Pos(y: int, x: int)

  /** The four targets of a jump of `j` from `c`, in the order west, north, east, south. */
  function Candidates(c: Pos, j: int): seq<Pos>
  {
    [Pos(c.y, c.x - j), Pos(c.y - j, c.x), Pos(c.y, c.x + j), Pos(c.y + j, c.x)]
  }

  /** The rows of a maze with the `height` and `width` recorded when it was loaded. */
  datatype Grid = Grid(rows: seq<seq<Cell>>, height: int, width: int) {

    /** `height` rows, each `width` long. */
    predicate Valid()
    {
      height == |rows| && forall i :: 0 <= i < |rows| ==> |rows[i]| == width
    }

    predicate InBounds(c: Pos)
    {
      0 <= c.y < height && 0 <= c.x < width
    }

    function At(c: Pos): Cell
      requires Valid() && InBounds(c)
    {
      rows[c.y][c.x]
    }

    predicate IsGoalCell(c: Pos)
    {
      Valid() && InBounds(c) && At(c) == Goal
    }

    predicate IsJumpCell(c: Pos)
    {
      Valid() && InBounds(c) && At(c).Jump?
    }

    /** The jump distance of a jump cell, 0 elsewhere. */
    function JumpOf(c: Pos): nat
    {
      if IsJumpCell(c) then At(c).n else 0
    }

    /** All in-bounds positions. */
    ghost function Cells(): (s: set<Pos>)
      ensures forall c :: c in s <==> InBounds(c)
    {
      var s := set y, x | 0 <= y < height && 0 <= x < width :: Pos(y, x);
      assert forall c :: InBounds(c) ==> Pos(c.y, c.x) in s;
      s
    }

    /** `[c]` if `c` lies inside the grid, else `[]`. */
    function Keep(c: Pos): seq<Pos>
    {
      if InBounds(c) then [c] else []
    }

    /** The candidates of `cs` that lie inside the grid, in their order. */
    function InBoundsOnly(cs: seq<Pos>): (r: seq<Pos>)
    {
      if cs == [] then [] else Keep(cs[0]) + InBoundsOnly(cs[1..])
    }

    /** A single legal move: from a jump cell, exactly its jump distance along
        one axis, landing inside the grid. */
    ghost predicate IsMove(a: Pos, b: Pos)
    {
      IsJumpCell(a) && InBounds(b) &&
      ((b.y == a.y && (b.x == a.x - JumpOf(a) || b.x == a.x + JumpOf(a))) ||
       (b.x == a.x && (b.y == a.y - JumpOf(a) || b.y == a.y + JumpOf(a))))
    }

    /** `Maze.get_adjacent`: the cells reachable in one jump from `c`, west,
        north, east, south, each kept only if it stays inside the grid. */
    function Adjacent(c: Pos): (r: seq<Pos>)
      requires IsJumpCell(c)
      ensures r == InBoundsOnly(Candidates(c, JumpOf(c)))
      ensures |r| <= 4
    {
      var jump := At(c).n;
      var west := if c.x - jump >= 0 then [Pos(c.y, c.x - jump)] else [];
      var north := if c.y - jump >= 0 then [Pos(c.y - jump, c.x)] else [];
      var east := if c.x + jump < width then [Pos(c.y, c.x + jump)] else [];
      var south := if c.y + jump < height then [Pos(c.y + jump, c.x)] else [];
      AdjacentIsFiltered(c);
      west + north + east + south
    }

    /** The one-sided checks of `Adjacent` keep exactly the in-bounds candidates. */
    lemma AdjacentIsFiltered(c: Pos)
      requires IsJumpCell(c)
      ensures var jump := At(c).n;
        InBoundsOnly(Candidates(c, jump)) ==
          (if c.x - jump >= 0 then [Pos(c.y, c.x - jump)] else []) +
          (if c.y - jump >= 0 then [Pos(c.y - jump, c.x)] else []) +
          (if c.x + jump < width then [Pos(c.y, c.x + jump)] else []) +
          (if c.y + jump < height then [Pos(c.y + jump, c.x)] else [])
    {
      var jump := At(c).n;
      var cs := Candidates(c, jump);
      FilterFour(cs);
      assert Keep(cs[0]) == (if c.x - jump >= 0 then [Pos(c.y, c.x - jump)] else []);
      assert Keep(cs[1]) == (if c.y - jump >= 0 then [Pos(c.y - jump, c.x)] else []);
      assert Keep(cs[2]) == (if c.x + jump < width then [Pos(c.y, c.x + jump)] else []);
      assert Keep(cs[3]) == (if c.y + jump < height then [Pos(c.y + jump, c.x)] else []);
    }

    /** Filtering four candidates keeps each of them on its own. */
    lemma FilterFour(cs: seq<Pos>)
      requires |cs| == 4
      ensures InBoundsOnly(cs) == Keep(cs[0]) + Keep(cs[1]) + Keep(cs[2]) + Keep(cs[3])
    {
      assert cs[1..][1..][1..][1..] == [];
      assert InBoundsOnly(cs[1..][1..][1..]) == Keep(cs[3]);
      assert InBoundsOnly(cs[1..][1..]) == Keep(cs[2]) + Keep(cs[3]);
      assert InBoundsOnly(cs[1..]) == Keep(cs[1]) + Keep(cs[2]) + Keep(cs[3]);
    }

    /** The cells `get_adjacent` returns are exactly the legal moves. */
    lemma AdjacentAreMoves(c: Pos)
      requires IsJumpCell(c)
      ensures forall b :: b in Adjacent(c) <==> IsMove(c, b)
    {
      var cs := Candidates(c, JumpOf(c));
      FilterFour(cs);
      assert forall b :: b in cs <==> b == cs[0] || b == cs[1] || b == cs[2] || b == cs[3];
    }

    /** Every cell `get_adjacent` returns is a legal move inside the grid. */
    lemma AdjacentInBounds(c: Pos)
      requires IsJumpCell(c)
      ensures forall b :: b in Adjacent(c) ==> InBounds(b) && IsMove(c, b)
    {
      AdjacentAreMoves(c);
    }

    /** Every legal move is among the cells `get_adjacent` returns. */
    lemma MovesAreAdjacent(c: Pos)
      requires IsJumpCell(c)
      ensures forall b :: IsMove(c, b) ==> b in Adjacent(c)
    {
      AdjacentAreMoves(c);
    }
  }
}
