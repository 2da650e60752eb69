/** The placement phase as the generator evidently intends it, as far as
    overlap goes. Its doc comment (joueur.h:269) says the placements depend
    on the ship's dimensions, the board's limits and the neighbouring ships.
    This model tests only the limits and overlap: a candidate is offered
    when every cell it covers is on the grid and EMPTY (bounds tested before
    the cell is read), even when it touches another ship. The column-major loops
    store their signs unswapped, `(o, p, false)`, so that the unchanged
    placer writes exactly the cells that were checked. Placing a whole fleet
    this way adds exactly the fleet's mask cells to the board.
 */
module IntendedPlacement {
  import opened Grids
  import opened Census
  import opened Placement
  import opened Placer

  /** On the grid and EMPTY. */
  predicate FreeCell(g: Grid, c: Coord)
  {
    InBounds(g, c) && At(g, c) == EMPTY
  }

  /** Every probe of the loop is a free cell. */
  predicate Free(g: Grid, y: int, x: int, h: int, w: int, v: Variant)
  {
    forall i, j :: 0 <= i < h && 0 <= j < w ==> FreeCell(g, Probe(y, x, v, i, j))
  }

  /** The tuple pushed by a loop once both loop pairs push `(o, p, flag)`. */
  function FixedCandidateOf(v: Variant): Candidate
  {
    Candidate(v.o, v.p, v.rowMajor)
  }

  function FreeFrom(g: Grid, y: int, x: int, h: int, w: int, vs: seq<Variant>): (r: seq<Candidate>)
    ensures |r| <= |vs|
    ensures forall c :: c in r <==>
      exists k :: 0 <= k < |vs| && Free(g, y, x, h, w, vs[k]) && c == FixedCandidateOf(vs[k])
  {
    if |vs| == 0 then []
    else
      var rest := FreeFrom(g, y, x, h, w, vs[1..]);
      assert forall k :: 1 <= k < |vs| ==> vs[k] == vs[1..][k - 1];
      if Free(g, y, x, h, w, vs[0]) then [FixedCandidateOf(vs[0])] + rest else rest
  }

  /** The corrected `placementPossibles`: never reads off the grid. */
  function FreePlacements(g: Grid, y: int, x: int, h: int, w: int): (r: seq<Candidate>)
    ensures |r| <= 8
    ensures forall c :: c in r ==> IsSign(c.di) && IsSign(c.dj)
  {
    VariantsInLoopOrder();
    FreeFrom(g, y, x, h, w, VARIANTS)
  }

  /** A candidate is offered iff every cell the placer will write for it is
      on the grid and EMPTY: no off-grid read, no overlap with a ship. */
  lemma FreePlacementsExact(g: Grid, y: int, x: int, h: int, w: int, c: Candidate)
    requires IsSign(c.di) && IsSign(c.dj)
    ensures c in FreePlacements(g, y, x, h, w) <==>
      forall i, j :: 0 <= i < h && 0 <= j < w ==> FreeCell(g, Target(y, x, c, i, j))
  {
    var v := Variant(c.di, c.dj, c.rowMajor);
    var k := (if c.rowMajor then 0 else 4) + 2 * SignBit(c.di) + SignBit(c.dj);
    assert VARIANTS[k] == v;
    assert forall i, j :: Target(y, x, c, i, j) == Probe(y, x, v, i, j);
    if c in FreePlacements(g, y, x, h, w) {
      var k' :| 0 <= k' < 8 && Free(g, y, x, h, w, VARIANTS[k']) && c == FixedCandidateOf(VARIANTS[k']);
      assert VARIANTS[k'] == v;
    }
  }

  /** Mask entries equal to 1 among the offsets from (i, j) on. */
  function OnesFrom(forme: seq<seq<U16>>, i: int, j: int): nat
    requires MaskReadable(forme) && 0 <= i && 0 <= j
    decreases |forme| - i, Width(forme) - j
  {
    if i >= |forme| then 0
    else if j >= Width(forme) then OnesFrom(forme, i + 1, 0)
    else (if forme[i][j] == 1 then 1 else 0) + OnesFrom(forme, i, j + 1)
  }

  /** Number of ship cells a mask places. */
  function MaskOnes(forme: seq<seq<U16>>): nat
    requires MaskReadable(forme)
  {
    OnesFrom(forme, 0, 0)
  }

  /** The targets of every offset from (i, j) on are free cells. */
  ghost predicate RestFree(g: Grid, cy: int, cx: int, c: Candidate, forme: seq<seq<U16>>, i: int, j: int)
  {
    forall i', j' :: AtOrAfter(i', j', i, j) && i' < |forme| && 0 <= j' < Width(forme) ==>
      FreeCell(g, Target(cy, cx, c, i', j'))
  }

  /** Writing offset (i, j) leaves the cells of all later offsets free. */
  lemma WriteKeepsRestFree(g: Grid, cy: int, cx: int, c: Candidate, forme: seq<seq<U16>>, i: int, j: int)
    requires MaskReadable(forme) && TargetsInBounds(g, cy, cx, c, forme)
    requires IsSign(c.di) && IsSign(c.dj) && 0 <= i < |forme| && 0 <= j < Width(forme)
    requires RestFree(g, cy, cx, c, forme, i, j + 1)
    ensures var g1 := Write(g, Target(cy, cx, c, i, j), MaskValue(forme, i, j));
      RestFree(g1, cy, cx, c, forme, i, j + 1)
  {
    var t := Target(cy, cx, c, i, j);
    var g1 := Write(g, t, MaskValue(forme, i, j));
    forall i', j' | AtOrAfter(i', j', i, j + 1) && i' < |forme| && 0 <= j' < Width(forme)
      ensures FreeCell(g1, Target(cy, cx, c, i', j'))
    {
      var t' := Target(cy, cx, c, i', j');
      if t' == t {
        TargetInjective(cy, cx, c, i', j', i, j);
      }
    }
  }

  /** Free cells from (i, j) on, at the end of a row, are free from the
      start of the next row on. */
  lemma NextRowFree(g: Grid, cy: int, cx: int, c: Candidate, forme: seq<seq<U16>>, i: int, j: int)
    requires MaskReadable(forme)
    requires RestFree(g, cy, cx, c, forme, i, j)
    requires j >= Width(forme)
    ensures RestFree(g, cy, cx, c, forme, i + 1, 0)
  {
    forall i', j' | AtOrAfter(i', j', i + 1, 0) && i' < |forme| && 0 <= j' < Width(forme)
      ensures FreeCell(g, Target(cy, cx, c, i', j'))
    {
      assert AtOrAfter(i', j', i, j);
    }
  }

  /** One write of the placer onto a free cell, as the board `g1` after it:
      the SHIP count moves by that offset's mask entry and the later targets
      stay free. */
  lemma WriteFreeStep(g: Grid, cy: int, cx: int, c: Candidate, forme: seq<seq<U16>>, i: int, j: int)
    returns (g1: Grid)
    requires MaskReadable(forme) && TargetsInBounds(g, cy, cx, c, forme)
    requires IsSign(c.di) && IsSign(c.dj) && 0 <= i < |forme| && 0 <= j < Width(forme)
    requires RestFree(g, cy, cx, c, forme, i, j)
    ensures g1 == Write(g, Target(cy, cx, c, i, j), MaskValue(forme, i, j))
    ensures TargetsInBounds(g1, cy, cx, c, forme)
    ensures RestFree(g1, cy, cx, c, forme, i, j + 1)
    ensures Count(g1, SHIP) == Count(g, SHIP) + (if forme[i][j] == 1 then 1 else 0)
  {
    var t := Target(cy, cx, c, i, j);
    g1 := Write(g, t, MaskValue(forme, i, j));
    assert FreeCell(g, t);
    WriteCount(g, t, MaskValue(forme, i, j), SHIP);
    forall i', j' | AtOrAfter(i', j', i, j + 1) && i' < |forme| && 0 <= j' < Width(forme)
      ensures FreeCell(g, Target(cy, cx, c, i', j'))
    {
      assert AtOrAfter(i', j', i, j);
    }
    WriteKeepsRestFree(g, cy, cx, c, forme, i, j);
  }

  /** The placer's loops after the write of offset (i, j) onto `g` continue
      on `g1` from (i, j + 1), so the count adds up across that write. */
  lemma WriteCountStep(g: Grid, g1: Grid, cy: int, cx: int, c: Candidate, forme: seq<seq<U16>>, i: int, j: int)
    requires MaskReadable(forme) && TargetsInBounds(g, cy, cx, c, forme)
    requires 0 <= i < |forme| && 0 <= j < Width(forme)
    requires g1 == Write(g, Target(cy, cx, c, i, j), MaskValue(forme, i, j))
    requires TargetsInBounds(g1, cy, cx, c, forme)
    requires Count(g1, SHIP) == Count(g, SHIP) + (if forme[i][j] == 1 then 1 else 0)
    requires Count(PlaceFrom(g1, cy, cx, c, forme, i, j + 1), SHIP) == Count(g1, SHIP) + OnesFrom(forme, i, j + 1)
    ensures Count(PlaceFrom(g, cy, cx, c, forme, i, j), SHIP) == Count(g, SHIP) + OnesFrom(forme, i, j)
  {
  }

  /** Resumed at (i, j) over free cells, the placer adds one SHIP cell per
      remaining mask entry 1. */
  lemma {:induction false} PlaceFromCount(g: Grid, cy: int, cx: int, c: Candidate, forme: seq<seq<U16>>, i: int, j: int)
    requires MaskReadable(forme) && TargetsInBounds(g, cy, cx, c, forme)
    requires IsSign(c.di) && IsSign(c.dj) && 0 <= i && 0 <= j
    requires RestFree(g, cy, cx, c, forme, i, j)
    ensures Count(PlaceFrom(g, cy, cx, c, forme, i, j), SHIP) == Count(g, SHIP) + OnesFrom(forme, i, j)
    decreases |forme| - i, Width(forme) - j, 1
  {
    if i >= |forme| {
    } else if j >= Width(forme) {
      RowEndCount(g, cy, cx, c, forme, i, j);
    } else {
      InRowCount(g, cy, cx, c, forme, i, j);
    }
  }

  /** `PlaceFromCount` at the end of a row: the placer's loops move on to
      the next row, which adds the mask entries of that row on. */
  lemma {:induction false} RowEndCount(g: Grid, cy: int, cx: int, c: Candidate, forme: seq<seq<U16>>, i: int, j: int)
    requires MaskReadable(forme) && TargetsInBounds(g, cy, cx, c, forme)
    requires IsSign(c.di) && IsSign(c.dj) && 0 <= i && 0 <= j
    requires RestFree(g, cy, cx, c, forme, i, j)
    requires i < |forme| && j >= Width(forme)
    ensures Count(PlaceFrom(g, cy, cx, c, forme, i, j), SHIP) == Count(g, SHIP) + OnesFrom(forme, i, j)
    decreases |forme| - i, Width(forme) - j, 0
  {
    NextRowFree(g, cy, cx, c, forme, i, j);
    PlaceFromCount(g, cy, cx, c, forme, i + 1, 0);
  }

  /** `PlaceFromCount` inside a row: the write of offset (i, j) adds its
      mask entry and the loops continue from (i, j + 1). */
  lemma {:induction false} InRowCount(g: Grid, cy: int, cx: int, c: Candidate, forme: seq<seq<U16>>, i: int, j: int)
    requires MaskReadable(forme) && TargetsInBounds(g, cy, cx, c, forme)
    requires IsSign(c.di) && IsSign(c.dj) && 0 <= i && 0 <= j
    requires RestFree(g, cy, cx, c, forme, i, j)
    requires i < |forme| && j < Width(forme)
    ensures Count(PlaceFrom(g, cy, cx, c, forme, i, j), SHIP) == Count(g, SHIP) + OnesFrom(forme, i, j)
    decreases |forme| - i, Width(forme) - j, 0
  {
    var g1 := WriteFreeStep(g, cy, cx, c, forme, i, j);
    PlaceFromCount(g1, cy, cx, c, forme, i, j + 1);
    WriteCountStep(g, g1, cy, cx, c, forme, i, j);
  }

  /** One ship of the placement phase, given the anchor and the index of the
      chosen candidate; choosing among no candidates is an error. */
  function PlaceShip(g: Grid, anchor: Coord, forme: seq<seq<U16>>, choice: nat): (r: Result<Grid>)
    requires MaskReadable(forme)
    ensures r.Err? <==> choice >= |FreePlacements(g, anchor.y, anchor.x, |forme|, Width(forme))|
    ensures r.Ok? ==> Count(r.value, SHIP) == Count(g, SHIP) + MaskOnes(forme)
    ensures r.Ok? ==> forall d :: InBounds(r.value, d) <==> InBounds(g, d)
    ensures r.Ok? ==> forall d :: InBounds(g, d) && At(g, d) != EMPTY ==> At(r.value, d) == At(g, d)
  {
    var cands := FreePlacements(g, anchor.y, anchor.x, |forme|, Width(forme));
    if choice >= |cands| then Err(NoCandidate)
    else
      var c := cands[choice];
      FreePlacementsExact(g, anchor.y, anchor.x, |forme|, Width(forme), c);
      PlaceFromCount(g, anchor.y, anchor.x, c, forme, 0, 0);
      Ok(Place(g, anchor, c, forme))
  }

  /** Only overlap is tested, not contact: a destroyer whose two cells are
      free is offered right beside a SHIP cell. */
  lemma OffersTouchingPlacement(g: Grid, y: int, x: int)
    requires InBounds(g, Coord(y, x)) && At(g, Coord(y, x)) == SHIP
    requires FreeCell(g, Coord(y, x + 1)) && FreeCell(g, Coord(y + 1, x + 1))
    ensures Candidate(1, 1, true) in FreePlacements(g, y, x + 1, |DESTROYER|, Width(DESTROYER))
  {
    var c, x' := Candidate(1, 1, true), x + 1;
    forall i, j | 0 <= i < 2 && 0 <= j < 1
      ensures FreeCell(g, Target(y, x', c, i, j))
    {
      assert Target(y, x', c, i, j) == Coord(y + i, x');
    }
    assert |DESTROYER| == 2 && Width(DESTROYER) == 1;
    FreePlacementsExact(g, y, x', 2, 1, c);
  }

  /** The ships of a fleet, each mask repeated as often as its count says. */
  function Ships(fleet: seq<(nat, seq<seq<U16>>)>): seq<seq<seq<U16>>>
  {
    if |fleet| == 0 then []
    else seq(fleet[0].0, _ => fleet[0].1) + Ships(fleet[1..])
  }

  predicate AllReadable(masks: seq<seq<seq<U16>>>)
  {
    forall k :: 0 <= k < |masks| ==> MaskReadable(masks[k])
  }

  function TotalOnes(masks: seq<seq<seq<U16>>>): nat
    requires AllReadable(masks)
  {
    if |masks| == 0 then 0 else MaskOnes(masks[0]) + TotalOnes(masks[1..])
  }

  /** The placement phase given every ship's anchor and candidate index:
      each ship is placed in turn; the first failed pick is the result. */
  function PlaceAll(g: Grid, masks: seq<seq<seq<U16>>>, picks: seq<(Coord, nat)>): (r: Result<Grid>)
    requires AllReadable(masks) && |picks| == |masks|
    ensures r.Ok? ==> Count(r.value, SHIP) == Count(g, SHIP) + TotalOnes(masks)
    ensures r.Ok? ==> forall d :: InBounds(r.value, d) <==> InBounds(g, d)
    ensures r.Ok? ==> forall d :: InBounds(g, d) && At(g, d) != EMPTY ==> At(r.value, d) == At(g, d)
    decreases |masks|
  {
    if |masks| == 0 then Ok(g)
    else
      match PlaceShip(g, picks[0].0, masks[0], picks[0].1)
      case Err(e) => Err(e)
      case Ok(g1) => PlaceAll(g1, masks[1..], picks[1..])
  }

  /** The fleet's ships in placement order. */
  lemma FleetShips()
    ensures Ships(FLEET) == [CARRIER, BATTLESHIP, CRUISER, CRUISER, DESTROYER]
  {
    assert FLEET[1..][1..][1..][1..] == [];
    assert Ships(FLEET[1..][1..][1..]) == [DESTROYER];
    assert seq(2, _ => CRUISER) == [CRUISER, CRUISER];
    assert Ships(FLEET[1..][1..]) == [CRUISER, CRUISER, DESTROYER];
    assert Ships(FLEET[1..]) == [BATTLESHIP, CRUISER, CRUISER, DESTROYER];
  }

  /** Ship cells per mask. */
  lemma ShipOnes()
    ensures MaskOnes(CARRIER) == 5 && MaskOnes(BATTLESHIP) == 4
    ensures MaskOnes(CRUISER) == 3 && MaskOnes(DESTROYER) == 2
  {
    assert MaskOnes(CARRIER) == 5;
    assert MaskOnes(BATTLESHIP) == 4;
    assert MaskOnes(CRUISER) == 3;
    DestroyerOnes();
  }

  /** The fleet has 5 + 4 + 3 + 3 + 2 = 17 ship cells. */
  lemma FleetOnes()
    ensures Ships(FLEET) == [CARRIER, BATTLESHIP, CRUISER, CRUISER, DESTROYER]
    ensures AllReadable(Ships(FLEET)) && TotalOnes(Ships(FLEET)) == 17
  {
    FleetShips();
    ShipOnes();
    assert TotalOnes([DESTROYER]) == 2 by {
      assert [DESTROYER][1..] == [];
    }
    assert TotalOnes([CRUISER, DESTROYER]) == 5 by {
      assert [CRUISER, DESTROYER][1..] == [DESTROYER];
    }
    assert TotalOnes([CRUISER, CRUISER, DESTROYER]) == 8 by {
      assert [CRUISER, CRUISER, DESTROYER][1..] == [CRUISER, DESTROYER];
    }
    assert TotalOnes([BATTLESHIP, CRUISER, CRUISER, DESTROYER]) == 12 by {
      assert [BATTLESHIP, CRUISER, CRUISER, DESTROYER][1..] == [CRUISER, CRUISER, DESTROYER];
    }
    assert TotalOnes([CARRIER, BATTLESHIP, CRUISER, CRUISER, DESTROYER]) == 17 by {
      assert [CARRIER, BATTLESHIP, CRUISER, CRUISER, DESTROYER][1..] == [BATTLESHIP, CRUISER, CRUISER, DESTROYER];
    }
  }

  /** A fresh board after a successful placement phase holds exactly 17
      SHIP cells. */
  lemma FleetPlacementCount(picks: seq<(Coord, nat)>)
    requires |picks| == 5
    ensures |Ships(FLEET)| == 5 && AllReadable(Ships(FLEET))
    ensures var r := PlaceAll(EmptyBoard(DIMENSIONS), Ships(FLEET), picks);
      r.Ok? ==> Count(r.value, SHIP) == 17
  {
    FleetOnes();
    assert Count(EmptyBoard(DIMENSIONS), SHIP) == 0;
  }

  /** The destroyer's first candidate writes its two cells, in order. */
  lemma DestroyerFirstCandidateWrites(g: Grid, y: int, x: int)
    requires TargetsInBounds(g, y, x, ALL_CANDIDATES[0], DESTROYER)
    ensures InBounds(g, Coord(y, x)) && InBounds(g, Coord(y + 1, x))
    ensures Place(g, Coord(y, x), ALL_CANDIDATES[0], DESTROYER) ==
      Write(Write(g, Coord(y, x), SHIP), Coord(y + 1, x), SHIP)
  {
    var c := ALL_CANDIDATES[0];
    assert Target(y, x, c, 0, 0) == Coord(y, x) && Target(y, x, c, 1, 0) == Coord(y + 1, x);
    assert Width(DESTROYER) == 1 && |DESTROYER| == 2;
    assert MaskValue(DESTROYER, 0, 0) == SHIP && MaskValue(DESTROYER, 1, 0) == SHIP;
    var g1 := Write(g, Coord(y, x), SHIP);
    var g2 := Write(g1, Coord(y + 1, x), SHIP);
    assert PlaceFrom(g1, y, x, c, DESTROYER, 1, 0) == PlaceFrom(g2, y, x, c, DESTROYER, 1, 1);
    assert PlaceFrom(g1, y, x, c, DESTROYER, 0, 1) == PlaceFrom(g1, y, x, c, DESTROYER, 1, 0);
    assert PlaceFrom(g, y, x, c, DESTROYER, 0, 0) == PlaceFrom(g1, y, x, c, DESTROYER, 0, 1);
  }

  /** As written, the generator offers every candidate for the destroyer
      anchored on a SHIP cell, the first of which covers that cell. */
  lemma AsWrittenOffersOverlap(g: Grid, y: int, x: int)
    requires IsBoard(g) && ValidCodes(g) && Centred(|g|, y, x, 2, 1)
    requires At(g, Coord(y, x)) == SHIP
    ensures PlacementPossibles(g, y, x, |DESTROYER|, Width(DESTROYER)) == Ok(ALL_CANDIDATES)
    ensures Target(y, x, ALL_CANDIDATES[0], 0, 0) == Coord(y, x)
  {
    OccupancyNeverRejects(g, y, x, 2, 1);
  }

  /** ... and the placer writes over the ship: the board gains fewer ship
      cells than the destroyer's mask has. */
  lemma AsWrittenPlacementOverwrites(g: Grid, y: int, x: int)
    requires IsBoard(g) && Centred(|g|, y, x, 2, 1)
    requires At(g, Coord(y, x)) == SHIP
    ensures TargetsInBounds(g, y, x, ALL_CANDIDATES[0], DESTROYER)
    ensures Count(Place(g, Coord(y, x), ALL_CANDIDATES[0], DESTROYER), SHIP) < Count(g, SHIP) + MaskOnes(DESTROYER)
  {
    var c := ALL_CANDIDATES[0];
    assert forall i, j :: Target(y, x, c, i, j) == Coord(y + i, x + j);
    DestroyerFirstCandidateWrites(g, y, x);
    RewriteShipCount(g, Coord(y, x), Coord(y + 1, x));
    DestroyerOnes();
  }

  /** The destroyer places two ship cells. */
  lemma DestroyerOnes()
    ensures MaskOnes(DESTROYER) == 2
  {
    assert OnesFrom(DESTROYER, 1, 0) == 1;
  }

  /** Writing SHIP over a SHIP cell and then one more cell gains at most one
      ship cell. */
  lemma RewriteShipCount(g: Grid, a: Coord, b: Coord)
    requires InBounds(g, a) && InBounds(g, b) && At(g, a) == SHIP
    ensures Count(Write(Write(g, a, SHIP), b, SHIP), SHIP) <= Count(g, SHIP) + 1
  {
    WriteCount(g, a, SHIP, SHIP);
    WriteCount(Write(g, a, SHIP), b, SHIP, SHIP);
  }

  /** Such a board exists: 3 x 3, one SHIP cell at (1, 0), centred for the
      destroyer. */
  lemma OverlapWitness()
    ensures var g := Write(EmptyBoard(3), Coord(1, 0), SHIP);
      IsBoard(g) && ValidCodes(g) && Centred(|g|, 1, 0, 2, 1) && At(g, Coord(1, 0)) == SHIP
  {
  }
}
