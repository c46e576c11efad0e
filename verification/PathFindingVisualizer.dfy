/**
 * The grid builder of the path-finding page: allocate a grid of blank node
 * records, place the start, redraw the end until it differs from the start,
 * then draw walls a fixed number of times, skipping the start and the end.
 */
module PathFindingVisualizer {
  import opened Grid

  /** The contents of a two-dimensional array, row by row. */
  ghost function Rows(g: array2<Node>): seq<seq<Node>>
    reads g
  {
    seq(g.Length0, r requires 0 <= r < g.Length0 reads g =>
      seq(g.Length1, c requires 0 <= c < g.Length1 reads g => g[r, c]))
  }

  /**
   * Builds a `numRows` x `numCols` grid. `start` is the start draw, `endDraws`
   * the candidates the end-placement loop draws in turn, and `wallDraws` the
   * draw of each iteration of the wall loop.
   */
  method GenerateNewGrid(numRows: nat, numCols: nat, start: Coord, endDraws: seq<Coord>, wallDraws: seq<Coord>)
    returns (newGrid: array2<Node>)
    requires InGrid(numRows, numCols, start)
    requires AllInGrid(numRows, numCols, endDraws) && SomeDiffers(endDraws, start)
    requires AllInGrid(numRows, numCols, wallDraws) && |wallDraws| == WallIterations(numRows * numCols)
    ensures fresh(newGrid)
    ensures newGrid.Length0 == numRows && newGrid.Length1 == numCols
    ensures Rows(newGrid) == Generated(numRows, numCols, start, endDraws[FirstDifferent(endDraws, start)], wallDraws)
    ensures forall r, c :: 0 <= r < numRows && 0 <= c < numCols ==>
      newGrid[r, c] == Cell(start, endDraws[FirstDifferent(endDraws, start)], wallDraws, Coord(r, c))
  {
    newGrid := new Node[numRows, numCols]((r, c) => Blank);

    // Place the start node.
    newGrid[start.row, start.col] := newGrid[start.row, start.col].(isStart := true);

    // Place the end node: draw until the candidate differs from the start.
    ghost var first := FirstDifferent(endDraws, start);
    var k := 0;
    var end := endDraws[k];
    while end == start
      invariant 0 <= k <= first
      invariant end == endDraws[k]
      decreases first - k
    {
      k := k + 1;
      end := endDraws[k];
    }
    assert k == first;
    newGrid[end.row, end.col] := newGrid[end.row, end.col].(isEnd := true);

    // Place the walls.
    var i := 0;
    while 5 * i < numRows * numCols
      invariant 0 <= i <= |wallDraws|
      invariant newGrid.Length0 == numRows && newGrid.Length1 == numCols
      invariant forall r, c :: 0 <= r < numRows && 0 <= c < numCols ==>
        newGrid[r, c] == Cell(start, end, wallDraws[..i], Coord(r, c))
    {
      var wall := wallDraws[i];
      if !newGrid[wall.row, wall.col].isStart && !newGrid[wall.row, wall.col].isEnd {
        newGrid[wall.row, wall.col] := newGrid[wall.row, wall.col].(isWall := true);
      }
      assert wallDraws[..i + 1] == wallDraws[..i] + [wall];
      i := i + 1;
    }
    assert wallDraws[..i] == wallDraws;

    assert Rows(newGrid) == Generated(numRows, numCols, start, end, wallDraws) by {
      var want := Generated(numRows, numCols, start, end, wallDraws);
      forall r | 0 <= r < numRows
        ensures Rows(newGrid)[r] == want[r]
      {
        assert forall c :: 0 <= c < numCols ==> Rows(newGrid)[r][c] == want[r][c];
      }
    }
  }
}
