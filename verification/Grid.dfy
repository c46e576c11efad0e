/**
 * The grid of the path-finding visualizer: the node record each cell holds,
 * the grid that `generateNewGrid` builds from its random draws, and the
 * invariants every generated grid satisfies.
 *
 * The random draws are explicit inputs: a start coordinate, the sequence of
 * candidates the end-placement loop draws, and the sequence of wall draws.
 */
module Grid {

  /** A search distance: the source initialises it to `Infinity`. */
  datatype Dist = Inf | Fin(n: nat)

  datatype Option<T> = None | Some(value: T)

  /** A cell coordinate, as a (row, column) pair. */
  datatype Coord = Coord(row: int, col: int)

  /** The record stored in each grid cell. `previousNode` is `None` for `null`. */
  datatype Node = Node(
    isStart: bool,
    isEnd: bool,
    isWall: bool,
    isVisited: bool,
    distance: Dist,
    previousNode: Option<Coord>)

  /** The record every cell starts with. */
  const Blank := Node(false, false, false, false, Inf, None)

  predicate InGrid(rows: nat, cols: nat, at: Coord) {
    0 <= at.row < rows && 0 <= at.col < cols
  }

  predicate AllInGrid(rows: nat, cols: nat, draws: seq<Coord>) {
    forall k :: 0 <= k < |draws| ==> InGrid(rows, cols, draws[k])
  }

  /** Some candidate in `draws` differs from `start`: the end-placement loop can exit. */
  predicate SomeDiffers(draws: seq<Coord>, start: Coord) {
    exists k :: 0 <= k < |draws| && draws[k] != start
  }

  /**
   * The number of iterations of the wall loop over a grid of `cells` cells:
   * the loop runs while `i < cells * 0.2`, that is, while `5 * i < cells`,
   * so it runs for the least `k` with `5 * k >= cells`.
   */
  function WallIterations(cells: nat): (k: nat)
    ensures 5 * k >= cells
    ensures k > 0 ==> 5 * (k - 1) < cells
  {
    (cells + 4) / 5
  }

  /** The default 20 x 20 grid gets 80 wall draws. */
  lemma DefaultWallIterations()
    ensures WallIterations(20 * 20) == 80
  {
  }

  /**
   * The index of the candidate the do-while loop settles on: the first draw
   * that differs from the start.
   */
  function FirstDifferent(draws: seq<Coord>, start: Coord): (k: nat)
    requires SomeDiffers(draws, start)
    ensures k < |draws| && draws[k] != start
    ensures forall i :: 0 <= i < k ==> draws[i] == start
  {
    if draws[0] != start then 0
    else
      var j :| 0 <= j < |draws| && draws[j] != start;
      assert draws[1..][j - 1] != start;
      1 + FirstDifferent(draws[1..], start)
  }

  /** The cell at `at` once start, end and the wall draws `walls` are placed. */
  function Cell(start: Coord, end: Coord, walls: seq<Coord>, at: Coord): Node {
    Node(
      isStart := at == start,
      isEnd := at == end,
      isWall := at in walls && at != start && at != end,
      isVisited := false,
      distance := Inf,
      previousNode := None)
  }

  /** The grid generated for start `start`, end `end` and wall draws `walls`. */
  function Generated(rows: nat, cols: nat, start: Coord, end: Coord, walls: seq<Coord>): (g: seq<seq<Node>>)
    ensures |g| == rows
    ensures forall r :: 0 <= r < rows ==> |g[r]| == cols
  {
    seq(rows, r => seq(cols, c => Cell(start, end, walls, Coord(r, c))))
  }

  // The cells of a grid that carry each role.

  function Starts(g: seq<seq<Node>>): set<Coord> {
    set r, c | 0 <= r < |g| && 0 <= c < |g[r]| && g[r][c].isStart :: Coord(r, c)
  }

  function Ends(g: seq<seq<Node>>): set<Coord> {
    set r, c | 0 <= r < |g| && 0 <= c < |g[r]| && g[r][c].isEnd :: Coord(r, c)
  }

  function Walls(g: seq<seq<Node>>): set<Coord> {
    set r, c | 0 <= r < |g| && 0 <= c < |g[r]| && g[r][c].isWall :: Coord(r, c)
  }

  /** The distinct coordinates among the draws. */
  function Drawn(draws: seq<Coord>): set<Coord> {
    set k | 0 <= k < |draws| :: draws[k]
  }

  /** Exactly one cell is the start, and it is the drawn start. */
  lemma ExactlyOneStart(rows: nat, cols: nat, start: Coord, end: Coord, walls: seq<Coord>)
    requires InGrid(rows, cols, start)
    ensures Starts(Generated(rows, cols, start, end, walls)) == {start}
  {
  }

  /** Exactly one cell is the end, and it is the chosen end. */
  lemma ExactlyOneEnd(rows: nat, cols: nat, start: Coord, end: Coord, walls: seq<Coord>)
    requires InGrid(rows, cols, end)
    ensures Ends(Generated(rows, cols, start, end, walls)) == {end}
  {
  }

  /**
   * A cell is a wall exactly when it was drawn and is neither start nor end:
   * cells never drawn stay open, and a cell drawn twice is one wall.
   */
  lemma WallsAreDrawnCells(rows: nat, cols: nat, start: Coord, end: Coord, walls: seq<Coord>)
    requires AllInGrid(rows, cols, walls)
    ensures Walls(Generated(rows, cols, start, end, walls)) == Drawn(walls) - {start, end}
  {
  }

  /** The distinct draws are no more than the draws. */
  lemma {:induction false} DrawnBound(draws: seq<Coord>)
    ensures |Drawn(draws)| <= |draws|
  {
    if draws != [] {
      var rest := draws[..|draws| - 1];
      DrawnBound(rest);
      assert Drawn(draws) == Drawn(rest) + {draws[|draws| - 1]} by {
        forall at | at in Drawn(draws)
          ensures at in Drawn(rest) + {draws[|draws| - 1]}
        {
          var k :| 0 <= k < |draws| && draws[k] == at;
          if k < |draws| - 1 {
            assert rest[k] == at;
          }
        }
        forall at | at in Drawn(rest)
          ensures at in Drawn(draws)
        {
          var k :| 0 <= k < |rest| && rest[k] == at;
          assert draws[k] == at;
        }
      }
    }
  }

  /** There are no more walls than wall draws. */
  lemma WallCountBound(rows: nat, cols: nat, start: Coord, end: Coord, walls: seq<Coord>)
    requires AllInGrid(rows, cols, walls)
    ensures |Walls(Generated(rows, cols, start, end, walls))| <= |walls|
  {
    WallsAreDrawnCells(rows, cols, start, end, walls);
    DrawnBound(walls);
    assert Drawn(walls) - {start, end} <= Drawn(walls);
  }

  /** Generation leaves every cell unvisited, at distance infinity, with no previous node. */
  lemma SearchFieldsUntouched(rows: nat, cols: nat, start: Coord, end: Coord, walls: seq<Coord>)
    ensures var g := Generated(rows, cols, start, end, walls);
      forall r, c :: 0 <= r < rows && 0 <= c < cols ==>
        !g[r][c].isVisited && g[r][c].distance == Inf && g[r][c].previousNode == None
  {
  }

  /**
   * On a grid holding `start`, an in-grid coordinate other than the start
   * exists exactly when the grid has at least two cells; on a 1 x 1 grid the
   * end-placement loop can never exit.
   */
  lemma EndLoopCanExit(rows: nat, cols: nat, start: Coord)
    requires InGrid(rows, cols, start)
    ensures (exists at :: InGrid(rows, cols, at) && at != start) <==> rows * cols >= 2
  {
    if rows >= 2 || cols >= 2 {
      var other := if rows >= 2 then Coord(if start.row == 0 then 1 else 0, start.col)
                   else Coord(start.row, if start.col == 0 then 1 else 0);
      assert InGrid(rows, cols, other) && other != start;
      assert rows * cols >= 2 by {
        if rows >= 2 {
          assert rows * cols >= rows * 1;
        } else {
          assert rows * cols >= 1 * cols;
        }
      }
    } else {
      assert rows * cols == 1;
    }
  }

  /**
   * End candidates drawn inside the grid can differ from the start only on a
   * grid of at least two cells: on a 1 x 1 grid every draw the end-placement
   * loop makes equals the start.
   */
  lemma DifferingDrawNeedsTwoCells(rows: nat, cols: nat, start: Coord, draws: seq<Coord>)
    requires InGrid(rows, cols, start)
    requires AllInGrid(rows, cols, draws) && SomeDiffers(draws, start)
    ensures rows * cols >= 2
  {
  }

  /**
   * The invariants of a generated grid: exactly one start, at `start`;
   * exactly one end, at `end`; the two differ; neither is a wall; and there
   * are at most `maxWalls` walls.
   */
  predicate WellFormed(g: seq<seq<Node>>, start: Coord, end: Coord, maxWalls: nat) {
    && Starts(g) == {start}
    && Ends(g) == {end}
    && start != end
    && start !in Walls(g) && end !in Walls(g)
    && |Walls(g)| <= maxWalls
  }

  /**
   * Every grid the generator can build is well formed: its start is the drawn
   * one, its end the first candidate differing from the start, and it has at
   * most `WallIterations(rows * cols)` walls.
   */
  lemma GeneratedGridInvariants(rows: nat, cols: nat, start: Coord, endDraws: seq<Coord>, walls: seq<Coord>)
    requires InGrid(rows, cols, start)
    requires AllInGrid(rows, cols, endDraws) && SomeDiffers(endDraws, start)
    requires AllInGrid(rows, cols, walls) && |walls| == WallIterations(rows * cols)
    ensures WellFormed(
      Generated(rows, cols, start, endDraws[FirstDifferent(endDraws, start)], walls),
      start, endDraws[FirstDifferent(endDraws, start)], WallIterations(rows * cols))
  {
    var end := endDraws[FirstDifferent(endDraws, start)];
    ExactlyOneStart(rows, cols, start, end, walls);
    ExactlyOneEnd(rows, cols, start, end, walls);
    WallsAreDrawnCells(rows, cols, start, end, walls);
    WallCountBound(rows, cols, start, end, walls);
  }
}
