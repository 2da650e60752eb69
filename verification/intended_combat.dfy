/** The end-of-turn checks as the game evidently intends them, following
    their doc comments: `hasDrowned` answers whether the ship at (y, x) has
    sunk (joueur.h:327), `hasLost` whether the player has lost
    (joueur.h:343). A player has lost once no SHIP cell is left. The sink
    check answers per group: the hit cell has sunk once no SHIP cell is left
    in the group of ship cells (SHIP or DROWNED_SHIP) orthogonally connected
    to it. That group is one ship only when ships never touch, which neither
    placement model guarantees. The check walks the group with a worklist
    and a visited set instead of unguarded recursion.
 */
module IntendedCombat {
  import opened Grids
  import opened Census
  import opened Combat

  /** `hasLost()` comparing each cell with SHIP: while the latch is open it
      is set iff no SHIP cell is left, and `nb_lost` is bumped exactly when
      it closes; once closed nothing changes. */
  method HasLostIntended(g: Grid, st: LossState) returns (st': LossState, r: bool)
    requires Square(g)
    ensures r == st'.lost
    ensures st.lost ==> st' == st
    ensures !st.lost ==> (st'.lost <==> Count(g, SHIP) == 0)
    ensures st'.nbLost == if !st.lost && st'.lost then Bump(st.nbLost) else st.nbLost
  {
    st' := st;
    if !st.lost {
      var noShip := ScanCells(g, v => v != SHIP);
      st' := LossState(noShip, if noShip then Bump(st.nbLost) else st.nbLost);
    }
    r := st'.lost;
  }

  /** A cell that belongs to a ship, hit or not. */
  predicate IsHull(v: int)
  {
    v == SHIP || v == DROWNED_SHIP
  }

  predicate HullCell(g: Grid, c: Coord)
  {
    InBounds(g, c) && IsHull(At(g, c))
  }

  /** Orthogonal neighbours. */
  predicate Adjacent(a: Coord, b: Coord)
  {
    (a.y == b.y && (a.x - b.x == 1 || b.x - a.x == 1)) ||
    (a.x == b.x && (a.y - b.y == 1 || b.y - a.y == 1))
  }

  /** The four neighbours, in the order the source's recursion visits them:
      up, down, left, right. */
  function Neighbours(c: Coord): (ns: seq<Coord>)
    ensures |ns| == 4
    ensures forall k :: 0 <= k < 4 ==> Adjacent(c, ns[k])
    ensures forall n :: Adjacent(c, n) ==> n in ns
  {
    [Coord(c.y - 1, c.x), Coord(c.y + 1, c.x), Coord(c.y, c.x - 1), Coord(c.y, c.x + 1)]
  }

  /** A walk through ship cells, one orthogonal step at a time. */
  ghost predicate IsPath(g: Grid, p: seq<Coord>)
  {
    && |p| >= 1
    && (forall k :: 0 <= k < |p| ==> HullCell(g, p[k]))
    && (forall k :: 0 <= k < |p| - 1 ==> Adjacent(p[k], p[k + 1]))
  }

  /** b belongs to the same ship group as a. */
  ghost predicate Reaches(g: Grid, a: Coord, b: Coord)
  {
    exists p :: IsPath(g, p) && p[0] == a && p[|p| - 1] == b
  }

  /** The intended sink condition: the cell belongs to a ship and no cell of
      its group still holds SHIP. */
  ghost predicate Sunk(g: Grid, c: Coord)
  {
    HullCell(g, c) && forall d :: Reaches(g, c, d) ==> InBounds(g, d) && At(g, d) != SHIP
  }

  lemma ReachesSelf(g: Grid, c: Coord)
    requires HullCell(g, c)
    ensures Reaches(g, c, c)
  {
    assert IsPath(g, [c]);
  }

  lemma ReachesInBounds(g: Grid, a: Coord, b: Coord)
    requires Reaches(g, a, b)
    ensures HullCell(g, b)
  {
  }

  /** One more step through a ship cell extends a walk. */
  lemma ReachesStep(g: Grid, a: Coord, b: Coord, n: Coord)
    requires Reaches(g, a, b) && Adjacent(b, n) && HullCell(g, n)
    ensures Reaches(g, a, n)
  {
    var p :| IsPath(g, p) && p[0] == a && p[|p| - 1] == b;
    var q := p + [n];
    assert IsPath(g, q);
    assert q[0] == a && q[|q| - 1] == n;
  }

  /** Every ship cell adjacent to a visited cell is visited. */
  ghost predicate ClosedSet(g: Grid, visited: set<Coord>)
  {
    forall d, n :: d in visited && Adjacent(d, n) && HullCell(g, n) ==> n in visited
  }

  /** A walk that starts in a closed set never leaves it. */
  lemma {:induction false} ClosedContainsPath(g: Grid, visited: set<Coord>, p: seq<Coord>, k: nat)
    requires IsPath(g, p) && p[0] in visited && ClosedSet(g, visited)
    requires k < |p|
    ensures p[k] in visited
  {
    if k > 0 {
      ClosedContainsPath(g, visited, p, k - 1);
      assert Adjacent(p[k - 1], p[k]) && HullCell(g, p[k]);
    }
  }

  lemma ClosedContainsGroup(g: Grid, visited: set<Coord>, c: Coord, d: Coord)
    requires c in visited && ClosedSet(g, visited) && Reaches(g, c, d)
    ensures d in visited
  {
    var p :| IsPath(g, p) && p[0] == c && p[|p| - 1] == d;
    ClosedContainsPath(g, visited, p, |p| - 1);
  }

  /** All positions of an n x n grid. */
  function Positions(n: nat): (s: set<Coord>)
    ensures forall c :: c in s <==> 0 <= c.y < n && 0 <= c.x < n
  {
    set y, x | 0 <= y < n && 0 <= x < n :: Coord(y, x)
  }

  /** Every visited cell is an unhit ship cell of c's group. */
  ghost predicate Explored(g: Grid, c: Coord, visited: set<Coord>)
  {
    forall e :: e in visited ==> HullCell(g, e) && At(g, e) != SHIP && Reaches(g, c, e)
  }

  /** Every visited cell off the worklist has all its ship neighbours visited. */
  ghost predicate ClosedBut(g: Grid, visited: set<Coord>, stack: seq<Coord>)
  {
    forall e, n :: e in visited && e !in stack && Adjacent(e, n) && HullCell(g, n) ==> n in visited
  }

  /** `Expand`'s invariant: the visited set grew from `visited` by explored
      cells of the grid, each pushed on the worklist, which otherwise keeps
      its entries. */
  ghost predicate Grown(g: Grid, c: Coord, visited: set<Coord>, stack: seq<Coord>,
                        visited': set<Coord>, stack': seq<Coord>)
  {
    && visited <= visited' && Explored(g, c, visited')
    && (forall e :: e in visited' ==> e in visited || InBounds(g, e))
    && (visited' == visited ==> stack' == stack)
    && (forall e :: e in stack ==> e in stack')
    && (forall e :: e in stack' ==> e in stack || e in visited' - visited)
    && (forall e :: e in visited' - visited ==> e in stack')
  }

  /** Marking a new unhit ship cell of c's group visited and pushing it
      keeps `Grown`. */
  lemma GrowStep(g: Grid, c: Coord, visited: set<Coord>, stack: seq<Coord>,
                 visited': set<Coord>, stack': seq<Coord>, n: Coord)
    requires Grown(g, c, visited, stack, visited', stack')
    requires HullCell(g, n) && At(g, n) != SHIP && Reaches(g, c, n) && n !in visited'
    ensures Grown(g, c, visited, stack, visited' + {n}, stack' + [n])
  {
  }

  /** Visits the ship neighbours of d that are new: a SHIP one ends the walk
      (`hit`), the others are marked visited and pushed on the worklist. */
  method Expand(g: Grid, c: Coord, d: Coord, visited: set<Coord>, stack: seq<Coord>)
    returns (visited': set<Coord>, stack': seq<Coord>, hit: bool)
    requires Square(g) && d in visited && Explored(g, c, visited)
    ensures hit ==> !Sunk(g, c)
    ensures !hit ==> Explored(g, c, visited')
    ensures visited <= visited'
    ensures forall e :: e in visited' ==> e in visited || InBounds(g, e)
    ensures visited' == visited ==> stack' == stack
    ensures forall e :: e in stack ==> e in stack'
    ensures forall e :: e in stack' ==> e in stack || e in visited' - visited
    ensures forall e :: e in visited' - visited ==> e in stack'
    ensures !hit ==> forall n :: Adjacent(d, n) && HullCell(g, n) ==> n in visited'
  {
    var ns := Neighbours(d);
    visited', stack', hit := visited, stack, false;
    var k := 0;
    while k < 4
      invariant 0 <= k <= 4
      invariant !hit
      invariant Grown(g, c, visited, stack, visited', stack')
      invariant forall k' :: 0 <= k' < k && HullCell(g, ns[k']) ==> ns[k'] in visited'
    {
      var n := ns[k];
      if InBounds(g, n) && IsHull(At(g, n)) && n !in visited' {
        ReachesStep(g, c, d, n);
        if At(g, n) == SHIP {
          assert !Sunk(g, c) by {
            assert Reaches(g, c, n) && At(g, n) == SHIP;
          }
          return visited', stack', true;
        }
        GrowStep(g, c, visited, stack, visited', stack', n);
        visited' := visited' + {n};
        stack' := stack' + [n];
      }
      k := k + 1;
    }
  }

  /** The worklist walk's invariant: the visited cells lie on the grid and
      are explored cells of c's group, c among them; the worklist holds
      visited cells; every visited cell off the worklist has its ship
      neighbours visited. */
  ghost predicate Walking(g: Grid, c: Coord, visited: set<Coord>, stack: seq<Coord>)
  {
    && visited <= Positions(|g|)
    && c in visited
    && Explored(g, c, visited)
    && (forall e :: e in stack ==> e in visited)
    && ClosedBut(g, visited, stack)
  }

  /** The walk starts from the hit cell alone, visited and on the worklist. */
  lemma WalkStart(g: Grid, c: Coord)
    requires Square(g) && HullCell(g, c) && At(g, c) != SHIP
    ensures Walking(g, c, {c}, [c])
  {
    ReachesSelf(g, c);
  }

  /** Once `Expand` has handled d, the top of the worklist, without meeting
      a SHIP cell, the walk's invariant holds again, and either more cells
      are visited or the worklist is shorter. */
  lemma WalkStep(g: Grid, c: Coord, visited: set<Coord>, rest: seq<Coord>, d: Coord,
                 visited': set<Coord>, stack': seq<Coord>)
    requires Square(g) && Walking(g, c, visited, rest + [d])
    requires Explored(g, c, visited') && visited <= visited'
    requires forall e :: e in visited' ==> e in visited || InBounds(g, e)
    requires visited' == visited ==> stack' == rest
    requires forall e :: e in rest ==> e in stack'
    requires forall e :: e in stack' ==> e in rest || e in visited' - visited
    requires forall e :: e in visited' - visited ==> e in stack'
    requires forall n :: Adjacent(d, n) && HullCell(g, n) ==> n in visited'
    ensures Walking(g, c, visited', stack')
    ensures visited' == visited ==> |stack'| < |rest + [d]|
    ensures visited' != visited ==> Positions(|g|) - visited' < Positions(|g|) - visited
  {
    forall e, n | e in visited' && e !in stack' && Adjacent(e, n) && HullCell(g, n)
      ensures n in visited'
    {
      assert e in visited && e !in rest;
      if e != d {
        assert e !in rest + [d];
      }
    }
    if visited' != visited {
      var e :| e in visited' && e !in visited;
      assert e in Positions(|g|) - visited;
    }
  }

  /** An explored set holding c, closed under ship neighbours, covers c's
      whole group, so no cell of that group holds SHIP. */
  lemma ClosedMeansSunk(g: Grid, c: Coord, visited: set<Coord>)
    requires c in visited && Explored(g, c, visited) && ClosedBut(g, visited, [])
    ensures Sunk(g, c)
  {
    assert ClosedSet(g, visited);
    forall e | Reaches(g, c, e) ensures InBounds(g, e) && At(g, e) != SHIP {
      ClosedContainsGroup(g, visited, c, e);
    }
  }

  /** The worklist walk. It answers false as soon as it meets a SHIP cell of
      the group, true once the whole group has been visited without one. */
  method SinkCheck(g: Grid, c: Coord) returns (sunk: bool)
    requires Square(g) && InBounds(g, c)
    ensures sunk <==> Sunk(g, c)
  {
    if !IsHull(At(g, c)) {
      return false;
    }
    ReachesSelf(g, c);
    if At(g, c) == SHIP {
      assert !Sunk(g, c);
      return false;
    }
    ghost var all := Positions(|g|);
    var visited: set<Coord> := {c};
    var stack: seq<Coord> := [c];
    WalkStart(g, c);
    while |stack| > 0
      invariant Walking(g, c, visited, stack)
      decreases all - visited, |stack|
    {
      var d := stack[|stack| - 1];
      var rest := stack[..|stack| - 1];
      assert stack == rest + [d];
      var visited', stack', hit := Expand(g, c, d, visited, rest);
      if hit {
        return false;
      }
      WalkStep(g, c, visited, rest, d, visited', stack');
      visited, stack := visited', stack';
    }
    ClosedMeansSunk(g, c, visited);
    sunk := true;
  }

  /** A hit cell next to an unhit ship cell has not sunk. */
  lemma ShipNeighbourNotSunk(g: Grid, c: Coord, n: Coord)
    requires HullCell(g, c) && Adjacent(c, n) && InBounds(g, n) && At(g, n) == SHIP
    ensures !Sunk(g, c)
  {
    ReachesSelf(g, c);
    ReachesStep(g, c, c, n);
  }

  /** With no SHIP cell left on the board, every ship cell has sunk. */
  lemma NoShipLeftAllSunk(g: Grid, c: Coord)
    requires HullCell(g, c) && Count(g, SHIP) == 0
    ensures Sunk(g, c)
  {
    forall d | Reaches(g, c, d) ensures InBounds(g, d) && At(g, d) != SHIP {
      ReachesInBounds(g, c, d);
    }
  }

  /** Where the source and the intent part: on a board whose last SHIP cell
      has just been hit, the hit cell has sunk, yet `hasDrowned` as written
      answers false. */
  lemma AsWrittenMissesSink(g: Grid, c: Coord)
    requires HullCell(g, c) && Count(g, SHIP) == 0
    ensures Sunk(g, c)
    ensures Drowned(AsWritten, g, c, 1) == Ok(false)
  {
    NoShipLeftAllSunk(g, c);
  }
}
