/** The board of one player: a square grid of small state codes, read and
    written through a bounds-checked accessor, plus the fleet's shape masks.
 */
module Grids {

  /** Cell state codes. 6 and 7 are declared but never written by the engine. */
  const EMPTY: int := 1
  const CHECK: int := 2
  const CROSS: int := 3
  const SHIP: int := 4
  const DROWNED_SHIP: int := 5
  const SHIP_CROSS: int := 6
  const SHIP_CHECK: int := 7

  /** Side of the board every player is built with. */
  const DIMENSIONS: int := 10

  /** The source stores cells, masks and player numbers as `unsigned short`. */
  type U16 = v: int | 0 <= v < 0x1_0000

  type Grid = seq<seq<U16>>

  /** A (row, column) position; rows are `y`, columns are `x`, as in the source. */
  datatype Coord = Coord(y: int, x: int)

  /** The source's errors are undefined behaviour; the model names them. */
  datatype Error =
    | IndexOutOfRange(at: Coord)   // `at` called outside the grid
    | StackExhausted               // recursion deeper than the available stack
    | NoCandidate                  // a pick outside the candidate list

  datatype Result<T> = Ok(value: T) | Err(error: Error)

  /** Every row is as long as the grid is high. */
  predicate Square(g: Grid)
  {
    forall r :: 0 <= r < |g| ==> |g[r]| == |g|
  }

  /** A player's board: square and at least 2 x 2. */
  predicate IsBoard(g: Grid)
  {
    |g| >= 2 && Square(g)
  }

  /** Every cell holds one of the seven state codes. */
  predicate ValidCodes(g: Grid)
  {
    forall r, k :: 0 <= r < |g| && 0 <= k < |g[r]| ==> EMPTY <= g[r][k] <= SHIP_CHECK
  }

  predicate InBounds(g: Grid, c: Coord)
  {
    0 <= c.y < |g| && 0 <= c.x < |g[c.y]|
  }

  /** Reading `at(y, x)`: the source indexes the vectors unchecked. On a
      board of state codes the value read is one of the seven codes, so it
      is never 0 and always converts to `true`. */
  function At(g: Grid, c: Coord): (v: U16)
    requires InBounds(g, c)
    ensures ValidCodes(g) ==> EMPTY <= v <= SHIP_CHECK
  {
    g[c.y][c.x]
  }

  /** Assigning through `at(y, x) = v`: one cell changes, the shape and all
      other cells stay as they were. */
  function Write(g: Grid, c: Coord, v: U16): (g': Grid)
    requires InBounds(g, c)
    ensures |g'| == |g| && forall r :: 0 <= r < |g| ==> |g'[r]| == |g[r]|
    ensures forall d :: InBounds(g', d) <==> InBounds(g, d)
    ensures At(g', c) == v
    ensures forall d :: InBounds(g, d) && d != c ==> At(g', d) == At(g, d)
  {
    var row: seq<U16> := g[c.y][c.x := v];
    g[c.y := row]
  }

  /** The board the constructor builds: n x n, every cell EMPTY. */
  function EmptyBoard(n: nat): (g: Grid)
    ensures |g| == n && Square(g) && ValidCodes(g)
    ensures forall r, k :: 0 <= r < n && 0 <= k < n ==> g[r][k] == EMPTY
  {
    seq(n, _ => seq(n, _ => EMPTY as U16))
  }

  /** Ship shape masks: row i of the mask is offset i along the first axis. */
  const CARRIER: seq<seq<U16>> := [[1, 1], [1, 1], [0, 1]]
  const BATTLESHIP: seq<seq<U16>> := [[1], [1], [1], [1]]
  const CRUISER: seq<seq<U16>> := [[1], [1], [1]]
  const DESTROYER: seq<seq<U16>> := [[1], [1]]

  /** The fleet as (count, mask) pairs, in the order ships are placed. */
  const FLEET: seq<(nat, seq<seq<U16>>)> :=
    [(1, CARRIER), (1, BATTLESHIP), (2, CRUISER), (1, DESTROYER)]
}
