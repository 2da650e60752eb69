/** The placement phase of `random_ships` / `position_ships` as the source
    writes it, given every ship's anchor and the index of the entry picked
    from the generator's list: `placementPossibles`, then `placer` on the
    picked entry. On a board of state codes the generator's list is all
    eight candidates or undefined, so the phase succeeds exactly when every
    anchor is far enough from the edges, whatever the board already holds.
 */
module PlacementPhase {
  import opened Grids
  import opened Columns
  import opened Placement
  import opened Placer
  import opened IntendedPlacement

  /** A mask the phase can use: readable, at least one row and one column. */
  predicate Shape(forme: seq<seq<U16>>)
  {
    MaskReadable(forme) && |forme| >= 1 && Width(forme) >= 1
  }

  /** A defined list from the generator only holds candidates whose every
      written cell is on the board: a defined list forces a centred anchor,
      so `placer`'s unchecked writes stay on the grid. */
  lemma OfferedTargetsInBounds(g: Grid, y: int, x: int, forme: seq<seq<U16>>, c: Candidate)
    requires IsBoard(g) && ValidCodes(g) && Shape(forme)
    requires PlacementPossibles(g, y, x, |forme|, Width(forme)).Ok?
    requires c in PlacementPossibles(g, y, x, |forme|, Width(forme)).value
    ensures TargetsInBounds(g, y, x, c, forme)
  {
    var h, w := |forme|, Width(forme);
    OccupancyNeverRejects(g, y, x, h, w);
    assert Centred(|g|, y, x, h, w);
    forall i, j | 0 <= i < h && 0 <= j < w
      ensures InBounds(g, Target(y, x, c, i, j))
    {
      var id := if c.di == 1 then i else -i;
      var jd := if c.dj == 1 then j else -j;
      assert i * c.di == id && j * c.dj == jd;
    }
  }

  /** `placer` with a generator's candidate keeps a board of state codes one. */
  lemma PlaceKeepsCodes(g: Grid, anchor: Coord, c: Candidate, forme: seq<seq<U16>>)
    requires IsBoard(g) && ValidCodes(g) && MaskReadable(forme)
    requires TargetsInBounds(g, anchor.y, anchor.x, c, forme) && IsSign(c.di) && IsSign(c.dj)
    ensures IsBoard(Place(g, anchor, c, forme)) && ValidCodes(Place(g, anchor, c, forme))
  {
    var g' := Place(g, anchor, c, forme);
    forall r, k | 0 <= r < |g'| && 0 <= k < |g'[r]|
      ensures EMPTY <= g'[r][k] <= SHIP_CHECK
    {
      var d := Coord(r, k);
      assert InBounds(g, d);
      if !OffFootprint(anchor, c, forme, d) {
        var i, j :| 0 <= i < |forme| && 0 <= j < Width(forme) && Target(anchor.y, anchor.x, c, i, j) == d;
        assert At(g', d) == if forme[i][j] == 1 then SHIP else EMPTY;
      } else {
        assert At(g', d) == At(g, d);
      }
    }
  }

  /** One ship as written: the generator's list for the anchor, then the
      picked entry handed to `placer`. An undefined list is the generator's
      off-grid read; a pick past the end is a pick among too few entries. */
  function PlaceShipAsWritten(g: Grid, anchor: Coord, forme: seq<seq<U16>>, choice: nat): (r: Result<Grid>)
    requires IsBoard(g) && ValidCodes(g) && Shape(forme)
    ensures !Centred(|g|, anchor.y, anchor.x, |forme|, Width(forme)) ==>
      r.Err? && r.error.IndexOutOfRange? && !InBounds(g, r.error.at)
    ensures Centred(|g|, anchor.y, anchor.x, |forme|, Width(forme)) && choice >= 8 ==> r == Err(NoCandidate)
    ensures r.Ok? <==> Centred(|g|, anchor.y, anchor.x, |forme|, Width(forme)) && choice < 8
    ensures r.Ok? ==> |r.value| == |g| && IsBoard(r.value) && ValidCodes(r.value)
    ensures r.Ok? ==>
      TargetsInBounds(g, anchor.y, anchor.x, ALL_CANDIDATES[choice], forme) &&
      r.value == Place(g, anchor, ALL_CANDIDATES[choice], forme)
  {
    var h, w := |forme|, Width(forme);
    OccupancyNeverRejects(g, anchor.y, anchor.x, h, w);
    var cands := PlacementPossibles(g, anchor.y, anchor.x, h, w);
    if cands.Err? then Err(cands.error)
    else if choice >= |cands.value| then Err(NoCandidate)
    else
      var c := cands.value[choice];
      OfferedTargetsInBounds(g, anchor.y, anchor.x, forme, c);
      PlaceKeepsCodes(g, anchor, c, forme);
      Ok(Place(g, anchor, c, forme))
  }

  predicate AllShapes(masks: seq<seq<seq<U16>>>)
  {
    forall k :: 0 <= k < |masks| ==> Shape(masks[k])
  }

  /** Every anchor far enough from the edges and every pick among the eight. */
  predicate PicksUsable(n: int, masks: seq<seq<seq<U16>>>, picks: seq<(Coord, nat)>)
    requires |picks| == |masks| && AllShapes(masks)
  {
    forall k :: 0 <= k < |masks| ==>
      Centred(n, picks[k].0.y, picks[k].0.x, |masks[k]|, Width(masks[k])) && picks[k].1 < 8
  }

  /** The picks are usable iff the first one is and the rest are. */
  lemma PicksUsableSplit(n: int, masks: seq<seq<seq<U16>>>, picks: seq<(Coord, nat)>)
    requires |picks| == |masks| > 0 && AllShapes(masks)
    ensures Shape(masks[0]) && AllShapes(masks[1..])
    ensures PicksUsable(n, masks, picks) <==>
      Centred(n, picks[0].0.y, picks[0].0.x, |masks[0]|, Width(masks[0])) && picks[0].1 < 8 &&
      PicksUsable(n, masks[1..], picks[1..])
  {
    assert forall k :: 1 <= k < |masks| ==> masks[k] == masks[1..][k - 1] && picks[k] == picks[1..][k - 1];
  }

  /** The placement phase as written: each ship placed in turn; the first
      failing ship is the result. It succeeds exactly when every pick is
      usable; what the board already holds never matters. */
  function PlaceAllAsWritten(g: Grid, masks: seq<seq<seq<U16>>>, picks: seq<(Coord, nat)>): (r: Result<Grid>)
    requires IsBoard(g) && ValidCodes(g) && AllShapes(masks) && |picks| == |masks|
    ensures r.Ok? <==> PicksUsable(|g|, masks, picks)
    ensures r.Ok? ==> |r.value| == |g| && IsBoard(r.value) && ValidCodes(r.value)
    decreases |masks|
  {
    if |masks| == 0 then Ok(g)
    else
      var r0 := PlaceShipAsWritten(g, picks[0].0, masks[0], picks[0].1);
      PicksUsableSplit(|g|, masks, picks);
      match r0
      case Err(e) => Err(e)
      case Ok(g1) => PlaceAllAsWritten(g1, masks[1..], picks[1..])
  }

  /** The fleet's masks are all usable shapes. */
  lemma FleetShapes()
    ensures AllShapes(Ships(FLEET)) && |Ships(FLEET)| == 5
    ensures |Ships(FLEET)[0]| == 3 && Width(Ships(FLEET)[0]) == 2
  {
    FleetOnes();
  }

  /** A random anchor in the top row for the carrier, the first ship placed,
      makes the as-written phase read off the grid, on the board every
      player starts with. */
  lemma FleetTopRowAnchorFails(masks: seq<seq<seq<U16>>>, picks: seq<(Coord, nat)>)
    requires masks == Ships(FLEET) && |picks| == 5 && picks[0].0.y == 0
    ensures AllShapes(masks) && |masks| == 5
    ensures var r := PlaceAllAsWritten(EmptyBoard(DIMENSIONS), masks, picks);
      r.Err? && r.error.IndexOutOfRange?
  {
    FleetShapes();
    var g := EmptyBoard(DIMENSIONS);
    assert !Centred(|g|, picks[0].0.y, picks[0].0.x, |masks[0]|, Width(masks[0]));
  }

  /** The anchor lines 247-248 of `position_ships` build from a row
      (1-based) and a column label `typed`: the row is decremented once, but
      the column, already 0-based from `invColonne`, is decremented a second
      time. Whether a prompt can deliver such a pair is a separate matter:
      the prompts themselves are not modelled. */
  function ConsoleAnchorAsWritten(row: int, typed: string): Coord
  {
    Coord(row - 1, InvColonne(typed) - 1)
  }

  /** The anchor with the column decremented once, like the row. */
  function ConsoleAnchor(row: int, typed: string): Coord
  {
    Coord(row - 1, InvColonne(typed))
  }

  /** At lines 247-248, given row y + 1 and the label of column x, the ship
      is anchored one column to the left of (y, x). */
  lemma ConsoleAnchorAsWrittenShifts(y: nat, x: nat)
    ensures ConsoleAnchorAsWritten(y + 1, Colonne(x)) == Coord(y, x - 1)
  {
    var s := Colonne(x);
    InvColonneOfColonne(x);
    assert ConsoleAnchorAsWritten(y + 1, s) == Coord(y, InvColonne(s) - 1);
  }

  /** At lines 247-248, given the label "A", the ship is anchored at column
      -1, and the generator then reads off the board whatever the ship and
      the pick. */
  lemma ColumnAAnchorFails(row: int, forme: seq<seq<U16>>, choice: nat)
    requires Shape(forme)
    ensures ConsoleAnchorAsWritten(row, "A").x == -1
    ensures var r := PlaceShipAsWritten(EmptyBoard(DIMENSIONS), ConsoleAnchorAsWritten(row, "A"), forme, choice);
      r.Err? && r.error.IndexOutOfRange?
  {
    assert "A"[..0] == [];
  }

  /** With one decrement, row y + 1 and the label of column x anchor the
      ship at (y, x); no capital-letter label names a column left of the
      board. */
  lemma ConsoleAnchorRoundTrip(y: nat, x: nat, row: int, typed: string)
    ensures ConsoleAnchor(y + 1, Colonne(x)) == Coord(y, x)
    ensures IsLabel(typed) && |typed| > 0 ==> ConsoleAnchor(row, typed).x >= 0
  {
    var s := Colonne(x);
    InvColonneOfColonne(x);
    assert ConsoleAnchor(y + 1, s) == Coord(y, InvColonne(s));
    if IsLabel(typed) && |typed| > 0 {
      HornerPositive(typed);
    }
  }
}
