/** Attack resolution and the two end-of-turn checks as the source writes
    them: `isTouched` (a SHIP cell becomes DROWNED_SHIP), `hasDrowned`
    (whose first line `!at(y,x)==SHIP` parses as `(!at(y,x)) == 4` and so is
    always false) and the `hasLost` latch (which compares every cell with
    the player's own number).
 */
module Combat {
  import opened Grids
  import opened Census

  /** `isTouched(y, x)`: the new grid and whether a ship was hit. */
  function IsTouched(g: Grid, c: Coord): (r: (Grid, bool))
    requires InBounds(g, c)
    ensures r.1 <==> At(g, c) == SHIP
    ensures forall d :: InBounds(r.0, d) <==> InBounds(g, d)
    ensures At(r.0, c) == if r.1 then DROWNED_SHIP else At(g, c)
    ensures forall d :: InBounds(g, d) && d != c ==> At(r.0, d) == At(g, d)
    ensures Count(r.0, SHIP) == Count(g, SHIP) - (if r.1 then 1 else 0)
  {
    if At(g, c) == SHIP then
      WriteCount(g, c, DROWNED_SHIP, SHIP);
      (Write(g, c, DROWNED_SHIP), true)
    else (g, false)
  }

  /** Attacking the same cell again reports no hit and changes nothing. */
  lemma IsTouchedIdempotent(g: Grid, c: Coord)
    requires InBounds(g, c)
    ensures var g1 := IsTouched(g, c).0;
      InBounds(g1, c) && IsTouched(g1, c) == (g1, false)
  {
  }

  /** How the first line of `hasDrowned` is read. `AsWritten` is the C++
      parse `(!at(y,x)) == SHIP`: `!` yields 0 or 1, never 4.
      `PrecedenceFixed` is `!(at(y,x) == SHIP)`, the evident intent of that
      one line, keeping the rest of the function as written. */
  datatype Reading = AsWritten | PrecedenceFixed

  /** C++ logical not on an `unsigned short`, promoted back to int. */
  function LogicalNot(v: int): int
  {
    if v == 0 then 1 else 0
  }

  function CellTest(reading: Reading, v: U16): bool
  {
    match reading
    case AsWritten => LogicalNot(v) == SHIP
    case PrecedenceFixed => v != SHIP
  }

  /** `hasDrowned(y, x)` with `fuel` stack frames available. Each of the four
      recursive calls is made only while the result so far is true; the
      bounds tests are `y > 0`, `y < size()`, `x > 0`, `x < this[0].size()`
      and `this[0].size()` is the row count.

      As written it answers false for every cell on the grid, whatever the
      cell holds, and makes no recursive call. */
  function Drowned(reading: Reading, g: Grid, c: Coord, fuel: nat): (r: Result<bool>)
    ensures reading == AsWritten && InBounds(g, c) && fuel >= 1 ==> r == Ok(false)
    ensures r.Err? && r.error.IndexOutOfRange? ==> !InBounds(g, r.error.at)
    decreases fuel
  {
    if fuel == 0 then Err(StackExhausted)
    else if !InBounds(g, c) then Err(IndexOutOfRange(c))
    else
      var r0: Result<bool> := Ok(CellTest(reading, At(g, c)));
      var r1 := if r0 == Ok(true) && c.y > 0 then Drowned(reading, g, Coord(c.y - 1, c.x), fuel - 1) else r0;
      var r2 := if r1 == Ok(true) && c.y < |g| then Drowned(reading, g, Coord(c.y + 1, c.x), fuel - 1) else r1;
      var r3 := if r2 == Ok(true) && c.x > 0 then Drowned(reading, g, Coord(c.y, c.x - 1), fuel - 1) else r2;
      var r4 := if r3 == Ok(true) && c.x < |g| then Drowned(reading, g, Coord(c.y, c.x + 1), fuel - 1) else r3;
      r4
  }

  /** Fixing only the precedence does not give a working sink check: the
      walk then never answers true. From a non-SHIP cell it always steps to
      the next row (`y < size()` holds on the grid), which can only end in a
      SHIP cell (false), an off-grid read or stack exhaustion. */
  lemma {:induction false} PrecedenceFixNeverSinks(g: Grid, c: Coord, fuel: nat)
    ensures Drowned(PrecedenceFixed, g, c, fuel) != Ok(true)
    decreases fuel
  {
    if fuel > 0 && InBounds(g, c) {
      PrecedenceFixNeverSinks(g, Coord(c.y + 1, c.x), fuel - 1);
    }
  }

  /** The loss latch `lost` and the shared counter `nb_lost`. */
  datatype LossState = LossState(lost: bool, nbLost: U16)

  /** `nb_lost++` on an `unsigned short`. */
  function Bump(n: U16): (m: U16)
    ensures m == if n == 0xFFFF then 0 else n + 1
  {
    (n + 1) % 0x1_0000
  }

  /** Every cell of the square grid passes `keep`. */
  predicate AllCells(g: Grid, keep: U16 -> bool)
    requires Square(g)
  {
    forall i, j :: 0 <= i < |g| && 0 <= j < |g| ==> keep(g[i][j])
  }

  /** The nested scan of `hasLost`: rows then columns, stopping at the
      first cell that fails `keep`. */
  method ScanCells(g: Grid, keep: U16 -> bool) returns (all: bool)
    requires Square(g)
    ensures all <==> AllCells(g, keep)
  {
    var n := |g|;
    all := true;
    var i := 0;
    while i < n && all
      invariant 0 <= i <= n
      invariant all <==> forall a, b :: 0 <= a < i && 0 <= b < n ==> keep(g[a][b])
      invariant !all ==> !AllCells(g, keep)
    {
      var j := 0;
      while j < n && all
        invariant 0 <= j <= n
        invariant all <==> forall b :: 0 <= b < j ==> keep(g[i][b])
        invariant forall a, b :: 0 <= a < i && 0 <= b < n ==> keep(g[a][b])
      {
        all := keep(g[i][j]);
        j := j + 1;
      }
      i := i + 1;
    }
  }

  /** `hasLost()` for the player numbered `num`. While the latch is open it
      is set iff some cell differs from `num`, and `nb_lost` is bumped
      exactly when it closes; once closed nothing changes. */
  method HasLost(g: Grid, num: U16, st: LossState) returns (st': LossState, r: bool)
    requires Square(g)
    ensures r == st'.lost
    ensures st.lost ==> st' == st
    ensures !st.lost ==> (st'.lost <==> exists i, j :: 0 <= i < |g| && 0 <= j < |g| && g[i][j] != num)
    ensures st'.nbLost == if !st.lost && st'.lost then Bump(st.nbLost) else st.nbLost
  {
    st' := st;
    if !st.lost {
      var rtr := ScanCells(g, v => v == num);
      var lost := !rtr;
      st' := LossState(lost, if lost then Bump(st.nbLost) else st.nbLost);
    }
    r := st'.lost;
  }

  /** Player 0 (the first player built) is reported lost at its first check
      on any board of state codes, ships or not: no cell ever holds 0. */
  method PlayerZeroLosesAtOnce(g: Grid, n: U16) returns (st': LossState, r: bool)
    requires IsBoard(g) && ValidCodes(g)
    ensures r && st'.lost
    ensures st'.nbLost == Bump(n)
  {
    assert g[0][0] != 0;
    st', r := HasLost(g, 0, LossState(false, n));
  }

  /** Player 1 is reported lost at its first check as soon as one cell of
      its board is not EMPTY, e.g. once a single ship has been placed. */
  method PlayerOneLosesOnceAShipIsPlaced(g: Grid, c: Coord, n: U16) returns (st': LossState, r: bool)
    requires Square(g) && InBounds(g, c) && At(g, c) == SHIP
    ensures r && st'.lost
    ensures st'.nbLost == Bump(n)
  {
    assert g[c.y][c.x] != 1;
    st', r := HasLost(g, 1, LossState(false, n));
  }
}
