/** Counting the cells of a grid that hold a given state code. Used to state
    what placement adds to a board and what attacks take away from it.
 */
module Census {
  import opened Grids

  function RowCount(row: seq<U16>, v: int): (n: nat)
    ensures n <= |row|
    ensures n == 0 <==> forall k :: 0 <= k < |row| ==> row[k] != v
  {
    if |row| == 0 then 0 else RowCount(row[..|row| - 1], v) + (if row[|row| - 1] == v then 1 else 0)
  }

  /** Number of cells of g holding v. */
  function Count(g: Grid, v: int): (n: nat)
    ensures n == 0 <==> forall r, k :: 0 <= r < |g| && 0 <= k < |g[r]| ==> g[r][k] != v
  {
    if |g| == 0 then 0
    else
      var last := g[|g| - 1];
      var n := Count(g[..|g| - 1], v) + RowCount(last, v);
      assert forall r :: 0 <= r < |g| - 1 ==> g[..|g| - 1][r] == g[r];
      n
  }

  /** Changing one entry of a row moves its count by the old and new value. */
  lemma {:induction false} RowCountUpdate(row: seq<U16>, k: int, u: U16, v: int)
    requires 0 <= k < |row|
    ensures RowCount(row[k := u], v) ==
      RowCount(row, v) - (if row[k] == v then 1 else 0) + (if u == v then 1 else 0)
  {
    var row' := row[k := u];
    if k < |row| - 1 {
      assert row'[..|row'| - 1] == row[..|row| - 1][k := u];
      RowCountUpdate(row[..|row| - 1], k, u, v);
    } else {
      assert row'[..|row'| - 1] == row[..|row| - 1];
    }
  }

  /** Writing one cell moves the grid's count by the old and new value. */
  lemma {:induction false} WriteCount(g: Grid, c: Coord, u: U16, v: int)
    requires InBounds(g, c)
    ensures Count(Write(g, c, u), v) ==
      Count(g, v) - (if At(g, c) == v then 1 else 0) + (if u == v then 1 else 0)
  {
    var g' := Write(g, c, u);
    var row: seq<U16> := g[c.y][c.x := u];
    assert g' == g[c.y := row];
    if c.y < |g| - 1 {
      var init := g[..|g| - 1];
      assert g'[..|g'| - 1] == init[c.y := row];
      assert Write(init, c, u) == init[c.y := row];
      WriteCount(init, c, u, v);
    } else {
      assert g'[..|g'| - 1] == g[..|g| - 1];
      RowCountUpdate(g[c.y], c.x, u, v);
    }
  }
}
