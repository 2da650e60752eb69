# Battleship player board, modelled in Dafny

This project models the core of a console Battleship game: the `Joueur`
(player) class in `joueur.h`. A player owns a square board of
`unsigned short` state codes (EMPTY, CHECK, CROSS, SHIP, DROWNED_SHIP, plus
two codes that are declared and never used). The model covers:

- bijective base-26 column labels (`colonne` / `invColonne`);
- the placement generator `placementPossibles`, which tries eight
  orientations of a ship mask around an anchor and keeps the ones whose
  cells read as non-zero;
- `placer`, which stamps a mask onto the board;
- attack resolution `isTouched`;
- the two end-of-turn checks `hasDrowned` and `hasLost`.

Modules:

| module | file | contents |
|---|---|---|
| `Grids` | grids.dfy | state codes, `DIMENSIONS`, the board type, `at` as `At`/`Write`, the ship masks and the fleet |
| `Columns` | columns.dfy | column labels, their loops, and the round trips |
| `Placement` | placement.dfy | the probe scan and the candidate list of `placementPossibles` |
| `Placer` | placer.dfy | `placer`: what it writes and where |
| `Census` | census.dfy | counting the cells that hold a state code |
| `Combat` | combat.dfy | `isTouched`, `hasDrowned` and `hasLost`, as written |
| `PlacementPhase` | placement_phase.dfy | the placement phase of `random_ships` / `position_ships` as written: the generator's list, then `placer` on the picked entry |
| `IntendedPlacement` | intended_placement.dfy | the placement without overlap or off-board reads, and the fleet-wide ship count. The generator's doc comment at joueur.h:269 also names the neighbouring ships; contact between ships is not tested |
| `IntendedCombat` | intended_combat.dfy | the loss check and a flood-fill sink check per connected group of ship cells, following the doc comments at joueur.h:327 and joueur.h:343 (whether the ship has sunk, whether the player has lost) |

Conventions:

- Boards are immutable values: `seq<seq<U16>>`, where `U16` is the range
  0..65535.
- `at(y, x)` indexes the vectors unchecked. The model reads through `At`,
  which requires the position to be in bounds. Where the source can read
  outside the board, the model returns a named error (`IndexOutOfRange`,
  or the scan verdict `Undefined`) instead of behaving arbitrarily. Stack
  overflow in the recursive `hasDrowned` is `StackExhausted`, and a pick
  outside the candidate list is `NoCandidate`: an index past its end, or,
  for the corrected generator, any pick from an empty list (`rand() % 0`).
- The column bound of `hasDrowned` and `hasLost` is `this[0].size()`.
  `this[0]` is the player object itself, so that expression is the row count of the player's
  own board; on the square board it equals the column count.
- The doc comment of `colonne` (joueur.h:401) gives 12 -> "L" and
  36 -> "AJ". The code yields "M" and "AK". The model follows the code, and
  `Columns.ColonneExamples` proves the code's values.
- Column-major placements transpose the anchor as well as the shape: both
  the probe and `placer` start at (x, y), not (y, x). The model keeps this.
  The intended-placement module keeps it too, because only the sign
  swap in the pushed tuple is evidently a slip.

## Model

| member | source | states |
|---|---|---|
| Grids.At | joueur.h:367 | reading `at(y, x)` on a board of state codes yields a state code, never 0 (so never false as a `bool`) |
| Grids.Write | joueur.h:367 | assigning through `at(y, x)` changes exactly that cell: the new value is read back, the shape and every other cell are unchanged |
| Grids.EmptyBoard | joueur.h:130-131 | the board a player is built with is DIMENSIONS x DIMENSIONS (here n x n), square, and every cell is EMPTY |
| Columns.Colonne | joueur.h:406-414 | the label of column x is empty exactly when x is negative, and is otherwise a non-empty string of capital letters |
| Columns.ColonneLoop | joueur.h:406-414 | the loop that peels off `x % 26` and continues with `x / 26 - 1` computes the bijective base-26 label, which is non-empty iff x >= 0 |
| Columns.InvColonneLoop | joueur.h:421-427 | the Horner loop minus one computes the parsed column, and printing that column gives back every non-empty capital-letter label |
| Columns.InvColonneOfColonne | joueur.h:406-427 | parsing the label of column x gives back x for every x >= 0, and -1 for every negative x |
| Columns.ColonneOfInvColonne | joueur.h:406-427 | printing the parsed value of a non-empty capital-letter label gives back the label |
| Columns.ColonneInjective | joueur.h:406-414 | distinct non-negative columns get distinct labels |
| Columns.HornerPositive | joueur.h:421-426 | a non-empty label accumulates to at least 1, so it parses to a column >= 0 |
| Columns.ColonneExamples | joueur.h:401-414 | the code maps 0, 25, 26, 12, 36, 701 and 702 to A, Z, AA, M, AK, ZZ and AAA; the doc comment's L and AJ are one column off |
| Placement.Scan | joueur.h:281-284 | the cell-by-cell probe of one variant; when it stops on an undefined read, the position it names is off the board |
| Placement.ScanLoop | joueur.h:281-285 | the nested loops with the `possible` flag compute the scan, and accept iff every probed cell is on the board and non-zero |
| Placement.ScanAcceptedFrom | joueur.h:282-284 | from any point of the row-major walk, the scan accepts iff every remaining probe is on the board and reads non-zero |
| Placement.ScanAccepted | joueur.h:281-284 | a variant is accepted iff all h x w probes are on the board and read non-zero |
| Placement.ScanDefinedFrom | joueur.h:282-284 | when every remaining probe is on the board, the scan makes no undefined read, and on a board of state codes it accepts |
| Placement.ScanUndefinedFrom | joueur.h:282-284 | on a board of state codes, one off-board probe ahead makes the scan reach an undefined read at an off-board position |
| Placement.ScanOnStateCodes | joueur.h:281-284 | on a board of state codes the scan never rejects: it accepts when all probes are on the board, and reads out of range otherwise |
| Placement.Collect | joueur.h:277-294 | the candidate list holds at most one entry per variant. It is defined iff no variant scan reads out of range. Each accepted variant's candidate is in it, and each entry comes from an accepted variant |
| Placement.PlacementPossibles | joueur.h:277-294 | at most 8 candidates, in loop order (strictly increasing rank), every row-major entry before every column-major one, every step ±1; an undefined result names an off-board position |
| Placement.CollectKeepsOrder | joueur.h:279-293 | the list keeps the order in which the loops try the variants |
| Placement.VariantsInLoopOrder | joueur.h:279-293 | the eight variants are tried as (+1,+1), (+1,-1), (-1,+1), (-1,-1), row-major first, with ±1 steps |
| Placement.MemberIffAccepted | joueur.h:277-294 | a variant's candidate is in the list iff its scan accepts |
| Placement.FitsRowMajor | joueur.h:281-284 | acceptance of a row-major variant, with the probed cells written out as (y+i*o, x+j*p) |
| Placement.FitsColumnMajor | joueur.h:289-292 | acceptance of a column-major variant, with the probed cells written out as (x+j*p, y+i*o) |
| Placement.RowMajorAcceptance | joueur.h:279-285 | (o, p, true) is offered iff every cell (y+i*o, x+j*p) of the h x w box is on the board and non-zero |
| Placement.ColumnMajorAcceptance | joueur.h:287-293 | (p, o, false) is offered iff every cell (x+j*p, y+i*o) of the box is on the board and non-zero |
| Placement.CollectAllAccepted | joueur.h:277-294 | when every variant is accepted, the list is every candidate in loop order |
| Placement.CentredProbesInBounds | joueur.h:279-293 | an anchor at least h-1 rows and w-1 columns away from every edge keeps all probes of every variant on the board |
| Placement.NotCentredProbeOffGrid | joueur.h:279-285 | any other anchor has a row-major variant with a probe off the board |
| Placement.OccupancyNeverRejects | joueur.h:277-294 | on a board of state codes, occupancy never rejects: a centred anchor gets all 8 candidates and any other anchor reads out of range |
| Placement.CornerAnchorOffGrid | joueur.h:279-285 | for the destroyer at anchor (0, 0) of an empty 10 x 10 board, the generator reads `at(-1, 0)` |
| Placer.PlaceFrom | joueur.h:307-309 | the two loops resumed at any offset keep the board's shape: the same rows, each of the same length |
| Placer.PlaceFromFrame | joueur.h:307-309 | a cell that no remaining mask position targets is not changed |
| Placer.Place | joueur.h:306-310 | after `placer` with ±1 steps, each footprint cell holds SHIP where the mask has 1 and EMPTY elsewhere, even where it held SHIP before; for any candidate, every cell off the footprint is unchanged and the shape is kept |
| Placer.TargetInjective | joueur.h:309 | with ±1 steps, distinct mask positions target distinct cells |
| Placer.PlaceFromWrites | joueur.h:307-309 | every remaining mask position's target ends up holding SHIP for a 1 and EMPTY otherwise |
| Placer.RowMajorWritesProbed | joueur.h:279-309 | for a row-major candidate, `placer` writes exactly the cells the generator probed |
| Placer.ColumnMajorWritesProbedIff | joueur.h:287-309 | for a column-major candidate of a ship with two or more cells, `placer` writes exactly the probed cells iff o == p |
| Census.WriteCount | joueur.h:367 | a write through `at` moves a state code's count by the old and the new value of that one cell |
| Combat.IsTouched | joueur.h:320-325 | a hit is reported iff the cell holds SHIP; a hit cell becomes DROWNED_SHIP and the SHIP count drops by one; nothing else changes |
| Combat.IsTouchedIdempotent | joueur.h:320-325 | attacking the same cell twice reports no hit the second time and leaves the board unchanged |
| Combat.Drowned | joueur.h:334-341 | as written, `hasDrowned` answers false on every on-board cell with any stack left, because `!at(y,x)` is 0 or 1 and never SHIP; whenever a read goes out of range, it names an off-board cell |
| Combat.PrecedenceFixNeverSinks | joueur.h:334-341 | with only the precedence fixed, the walk still never answers true |
| Combat.Bump | joueur.h:355 | `nb_lost++` on an `unsigned short` wraps from 65535 to 0 |
| Combat.ScanCells | joueur.h:351-353 | the nested scan that stops at the first failing cell reports whether every cell passes |
| Combat.HasLost | joueur.h:348-358 | the latch: once lost, nothing changes. Otherwise it closes iff some cell differs from the player's number, and `nb_lost` is bumped exactly when it closes |
| Combat.PlayerZeroLosesAtOnce | joueur.h:348-358 | `hasLost` run for player 0 on any board of state codes, at its first check: it answers true, the latch closes and `nb_lost` is bumped (with the 16-bit wrap) |
| Combat.PlayerOneLosesOnceAShipIsPlaced | joueur.h:348-358 | `hasLost` run for player 1 at its first check, once any cell holds SHIP: it answers true, the latch closes and `nb_lost` is bumped |
| IntendedCombat.HasLostIntended | joueur.h:348-358 | the latch with the intended test: while open, it closes iff no SHIP cell is left |
| IntendedCombat.Neighbours | joueur.h:336-339 | the four orthogonal neighbours, in the recursion's order, are exactly the adjacent cells |
| IntendedCombat.Expand | joueur.h:336-339 | visiting one cell's neighbours either meets a SHIP cell of the group (not sunk) or marks every ship neighbour visited |
| IntendedCombat.SinkCheck | joueur.h:334-341 | the worklist walk answers true iff the cell is a ship cell and no cell of its orthogonally connected ship group still holds SHIP |
| IntendedCombat.ClosedContainsGroup | joueur.h:336-339 | a visited set closed under ship neighbours contains the whole group of its start cell |
| IntendedCombat.ShipNeighbourNotSunk | joueur.h:334-341 | a hit cell with an unhit ship neighbour has not sunk |
| IntendedCombat.NoShipLeftAllSunk | joueur.h:334-341 | once no SHIP cell is left, every ship cell has sunk |
| IntendedCombat.AsWrittenMissesSink | joueur.h:334-341 | when the last SHIP cell has just been hit, the cell has sunk, yet `hasDrowned` as written answers false |
| IntendedPlacement.FreeFrom | joueur.h:277-294 | a candidate is in the intended list iff some variant's footprint is free, with the tuple in the order `placer` reads it |
| IntendedPlacement.FreePlacements | joueur.h:277-294 | at most 8 intended candidates, every step ±1 |
| IntendedPlacement.FreePlacementsExact | joueur.h:277-309 | a candidate is offered iff every cell `placer` will write for it is on the board and EMPTY |
| IntendedPlacement.PlaceFromCount | joueur.h:306-310 | stamping onto free cells adds one SHIP per 1 in the mask |
| IntendedPlacement.PlaceShip | joueur.h:262-265 | placing one ship fails iff the pick is out of range of the offered list. Otherwise it adds exactly the mask's 1s as SHIP cells and never changes a non-EMPTY cell |
| IntendedPlacement.PlaceAll | joueur.h:257-267 | placing a list of ships adds the sum of their masks' 1s and never changes a non-EMPTY cell |
| IntendedPlacement.FleetOnes | joueur.h:38-52 | the fleet expands to carrier, battleship, two cruisers, destroyer, with 17 ship cells in all |
| IntendedPlacement.FleetPlacementCount | joueur.h:257-267 | a successful placement of the whole fleet on a fresh board leaves exactly 17 SHIP cells |
| IntendedPlacement.DestroyerFirstCandidateWrites | joueur.h:306-310 | placing the destroyer with (+1, +1, true) writes SHIP at the anchor and at the cell below it |
| IntendedPlacement.OffersTouchingPlacement | joueur.h:269-293 | the corrected generator tests overlap only: a destroyer whose two cells are free is offered right beside a SHIP cell |
| IntendedPlacement.AsWrittenOffersOverlap | joueur.h:277-285 | as written, an anchor on a SHIP cell is still offered all 8 placements, the first of which covers that cell |
| IntendedPlacement.AsWrittenPlacementOverwrites | joueur.h:306-310 | placing the destroyer there as written adds fewer SHIP cells than the mask holds |
| PlacementPhase.OfferedTargetsInBounds | joueur.h:277-310 | on a board of state codes, every candidate of a defined generator list has all its `placer` writes on the board |
| PlacementPhase.PlaceKeepsCodes | joueur.h:306-310 | `placer` with a ±1 candidate whose writes are on the board keeps a square board of state codes one |
| PlacementPhase.PlaceShipAsWritten | joueur.h:262-265 | one ship as written: an anchor too close to an edge reads off the board, a pick past the eighth entry has no candidate, and otherwise the picked candidate's writes are on the board and the result is `placer` on it, a board of state codes again |
| PlacementPhase.PlaceAllAsWritten | joueur.h:257-267 | the whole phase as written succeeds iff every anchor is far enough from the edges and every pick is among the eight, whatever the board holds; its result is again a board of state codes |
| PlacementPhase.FleetShapes | joueur.h:38-52 | the fleet's five masks are readable and non-empty; the carrier, placed first, is 3 x 2 |
| PlacementPhase.FleetTopRowAnchorFails | joueur.h:257-265 | a random anchor in the top row for the carrier makes the as-written phase read off the fresh board |
| PlacementPhase.ConsoleAnchorAsWrittenShifts | joueur.h:247-248 | at lines 247-248, given row y + 1 and the label of column x, the anchor is (y, x - 1): the column from `invColonne` is decremented a second time |
| PlacementPhase.ColumnAAnchorFails | joueur.h:247-248 | at lines 247-248, given the label "A", the anchor is at column -1, and the generator then reads off the board for any ship and any pick |
| PlacementPhase.ConsoleAnchorRoundTrip | joueur.h:247-248 | with the column decremented once, row y + 1 and the label of column x give the anchor (y, x), and no capital-letter label names a column left of the board |

## Left out

- Console I/O is not modelled: `display`, `carac`, the two `demande` prompts, and the prompt printed at joueur.h:295-296.
- `play` is not modelled. It is I/O plus calls to the modelled operations. It also asks `hasDrowned` of the attacker's own board rather than the enemy's; the answer is false either way.
- `random_ships` and `position_ships`: the anchors and picks drawn from `rand()` or the console are a parameter. The phase as written is `PlacementPhase.PlaceAllAsWritten`; the corrected one is `IntendedPlacement.PlaceAll`. Of `position_ships` (joueur.h:238-252) only the anchor that lines 247-248 build from a row and a column label is modelled; the prompts are console I/O. Two facts keep that anchor out of reach as the program stands, and neither is modelled:
  - line 244 builds `string x=0`, a `std::string` from a null pointer, before the first prompt;
  - both `demande` overloads ask again while the answer is inside the range (joueur.h:217, 231), so an in-range row or label is never accepted.

  The column prompt's upper bound is `colonne(size())`, "K". That bound fits the double decrement, since "B".."K" then map to columns 0..9. So the intended convention (labels from "A" as `display` prints them at joueur.h:469, or from "B") is not certain.
- The constructor and `reset` are modelled only as `Grids.EmptyBoard`. `grille_check`, the shot board, is not modelled: `reset` sizes it (joueur.h:387), but the constructor (joueur.h:130-134) never does, so the reads and writes `grille_check[y][x]` in `play` (joueur.h:197, 201-202) index an empty vector unless `reset` has run.
- `operator=` (both overloads), the `operator[]` and `operator()` accessors, and `getNum_joueur` are left out. They are plain copies and reads.
- `ITER_MAX`, `NB_JOUEURS` and main.cpp are not part of this model.
- `nb_joueurs` and `nb_lost` are static members shared by every player. The model passes `nb_lost` explicitly, and the player number is a parameter.
- Columns.InvColonneLoop: 32-bit `int` overflow for labels whose value exceeds 2^31 - 1 (the first `colonne` output doing so is that of 2147483647, "FXSHRXX") is not modelled, because the integers are unbounded.
- Columns.InvColonneLoop: the source's `char` is a byte, while Dafny's `char` is a Unicode scalar value; the model's characters are not truncated to bytes.
- Combat.Drowned: the call stack is a `fuel` parameter. The statement covers any fuel of at least one frame; what a real stack depth would be is not modelled.
- Combat.PrecedenceFixNeverSinks: same fuel bound; only "never true" is stated, not which of the error outcomes occurs.
- IntendedCombat.SinkCheck: it answers per orthogonally connected group of ship cells, not per ship. The two are the same only when ships never touch, and the intended placement does not keep ships apart (`IntendedPlacement.OffersTouchingPlacement`). So a fully hit ship touching an unhit one is reported as not sunk.
- IntendedPlacement.FreePlacements: the neighbouring ships named in the doc comment at joueur.h:269 are not tested; only overlap and the board's limits are.
- Placement.Scan: how many cells are read before the scan stops is not part of the contract; only the verdict and the position of the first undefined read are.

## Findings

| source | as written | input that shows it | evidently intended | confidence | as-written member | corrected member |
|---|---|---|---|---|---|---|
| joueur.h:279-293 | the probes call `at` with no bounds check, so an anchor near an edge reads outside the vectors | destroyer at anchor (0, 0) of an empty 10 x 10 board: in variant (-1, +1, true) the first probe (i = 0) reads `at(0, 0)` and the second (i = 1) reads `at(-1, 0)` | offer only placements whose cells are all on the board | not executed | Placement.CornerAnchorOffGrid | IntendedPlacement.FreePlacementsExact |
| joueur.h:284 | `possible = at(...)` accepts any non-zero cell, and every state code is non-zero, so occupied cells are accepted | 3 x 3 board with SHIP at (1, 0), destroyer at anchor (1, 0): all 8 placements are offered, and the first covers the SHIP cell at the anchor, so placing it adds fewer SHIP cells than the two in the mask | accept a placement only when every cell is EMPTY | not executed | IntendedPlacement.AsWrittenOffersOverlap | IntendedPlacement.PlaceShip |
| joueur.h:293 | a column-major variant is pushed as (p, o, false), but `placer` uses the first field as the step along i | destroyer at anchor (4, 4) with o = +1, p = -1 column-major: the probes read (4, 4) and (4, 5), but `placer` writes (4, 4) and (4, 3) | `placer` writes exactly the cells that were probed | not executed | Placer.ColumnMajorWritesProbedIff | IntendedPlacement.FreePlacementsExact |
| joueur.h:335 | `!at(y,x)==SHIP` parses as `(!at(y,x)) == 4`, so the result is always false | any board where the last SHIP cell has just been hit: the ship has sunk, but the answer is false | true iff no SHIP cell is left in the hit ship's connected group | not executed | IntendedCombat.AsWrittenMissesSink | IntendedCombat.SinkCheck |
| joueur.h:353 | each cell is compared with `num_joueur`, so the player loses once some cell differs from its number | player 1 with one ship placed is lost at its first check; player 0 is lost on any board | lost iff no SHIP cell is left | not executed | Combat.PlayerOneLosesOnceAShipIsPlaced | IntendedCombat.HasLostIntended |
| joueur.h:247-248 | `position_ships` decrements the column a second time, although `invColonne` already returns it 0-based | at lines 247-248, given row 1 and label "A": the anchor is (0, -1), so the generator reads off the board for every ship (the prompts before them cannot deliver this pair as written; see "## Left out") | decrement the column once, like the row, so that "A", the label `display` prints for column 0, names column 0; the prompt's bound "K" instead fits the double decrement, so this intent is uncertain | not executed; low: the intent is uncertain | PlacementPhase.ColumnAAnchorFails | PlacementPhase.ConsoleAnchorRoundTrip |
