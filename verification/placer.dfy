/** The ship placer `placer`: for every mask offset (i, j), in row-major
    order, it assigns SHIP (mask entry 1) or EMPTY (any other entry) to the
    cell the candidate maps the offset to. It re-checks nothing.
 */
module Placer {
  import opened Grids
  import opened Placement

  /** Number of mask columns the placer iterates over: `forme[0].size()`. */
  function Width(forme: seq<seq<U16>>): nat
  {
    if |forme| == 0 then 0 else |forme[0]|
  }

  /** Every mask row is at least as long as the first, so `forme[i][j]` is
      defined for every offset the placer visits. */
  predicate MaskReadable(forme: seq<seq<U16>>)
  {
    forall i :: 0 <= i < |forme| ==> |forme[i]| >= Width(forme)
  }

  /** The cell written for offset (i, j) from anchor `coords` = (cy, cx):
      `(cy + i*di, cx + j*dj)` for a row-major candidate, `(cx + j*dj,
      cy + i*di)` for a column-major one. */
  function Target(cy: int, cx: int, c: Candidate, i: int, j: int): Coord
  {
    if c.rowMajor then Coord(cy + i * c.di, cx + j * c.dj) else Coord(cx + j * c.dj, cy + i * c.di)
  }

  /** `forme[i][j] == 1 ? SHIP : EMPTY`. */
  function MaskValue(forme: seq<seq<U16>>, i: int, j: int): U16
    requires 0 <= i < |forme| && 0 <= j < |forme[i]|
  {
    if forme[i][j] == 1 then SHIP else EMPTY
  }

  /** Every cell the placer writes is on the grid (the source indexes
      unchecked, so this is what callers owe it). */
  predicate TargetsInBounds(g: Grid, cy: int, cx: int, c: Candidate, forme: seq<seq<U16>>)
  {
    forall i, j :: 0 <= i < |forme| && 0 <= j < Width(forme) ==> InBounds(g, Target(cy, cx, c, i, j))
  }

  /** The placer's loops resumed at offset (i, j). */
  function PlaceFrom(g: Grid, cy: int, cx: int, c: Candidate, forme: seq<seq<U16>>, i: int, j: int): (g': Grid)
    requires MaskReadable(forme) && TargetsInBounds(g, cy, cx, c, forme)
    requires 0 <= i && 0 <= j
    ensures forall d :: InBounds(g', d) <==> InBounds(g, d)
    ensures |g'| == |g| && forall r :: 0 <= r < |g| ==> |g'[r]| == |g[r]|
    decreases |forme| - i, Width(forme) - j
  {
    if i >= |forme| then g
    else if j >= Width(forme) then PlaceFrom(g, cy, cx, c, forme, i + 1, 0)
    else PlaceFrom(Write(g, Target(cy, cx, c, i, j), MaskValue(forme, i, j)), cy, cx, c, forme, i, j + 1)
  }

  /** No offset of the mask maps to d. */
  predicate OffFootprint(coords: Coord, c: Candidate, forme: seq<seq<U16>>, d: Coord)
  {
    forall i, j :: 0 <= i < |forme| && 0 <= j < Width(forme) ==> Target(coords.y, coords.x, c, i, j) != d
  }

  /** `placer(coords, param, forme)`. With signs +1/-1 (all the generator
      produces) each footprint cell gets SHIP when its mask entry is 1 and
      EMPTY otherwise, even where it held SHIP before; every cell off the
      footprint keeps its value, whatever the candidate. */
  function Place(g: Grid, coords: Coord, c: Candidate, forme: seq<seq<U16>>): (g': Grid)
    requires MaskReadable(forme) && TargetsInBounds(g, coords.y, coords.x, c, forme)
    ensures forall d :: InBounds(g', d) <==> InBounds(g, d)
    ensures |g'| == |g| && forall r :: 0 <= r < |g| ==> |g'[r]| == |g[r]|
    ensures IsSign(c.di) && IsSign(c.dj) ==>
      forall i, j :: 0 <= i < |forme| && 0 <= j < Width(forme) ==>
        At(g', Target(coords.y, coords.x, c, i, j)) == (if forme[i][j] == 1 then SHIP else EMPTY)
    ensures forall d :: InBounds(g, d) && OffFootprint(coords, c, forme, d) ==> At(g', d) == At(g, d)
  {
    var g' := PlaceFrom(g, coords.y, coords.x, c, forme, 0, 0);
    assert IsSign(c.di) && IsSign(c.dj) ==>
      forall i, j :: 0 <= i < |forme| && 0 <= j < Width(forme) ==>
        At(g', Target(coords.y, coords.x, c, i, j)) == MaskValue(forme, i, j)
    by {
      if IsSign(c.di) && IsSign(c.dj) {
        forall i, j | 0 <= i < |forme| && 0 <= j < Width(forme)
          ensures At(g', Target(coords.y, coords.x, c, i, j)) == MaskValue(forme, i, j)
        {
          PlaceFromWrites(g, coords.y, coords.x, c, forme, 0, 0, i, j);
        }
      }
    }
    assert forall d :: InBounds(g, d) && OffFootprint(coords, c, forme, d) ==> At(g', d) == At(g, d) by {
      forall d | InBounds(g, d) && OffFootprint(coords, c, forme, d)
        ensures At(g', d) == At(g, d)
      {
        PlaceFromFrame(g, coords.y, coords.x, c, forme, 0, 0, d);
      }
    }
    g'
  }

  /** Resumed at (i, j), the placer leaves alone every cell that no remaining
      offset maps to. */
  lemma {:induction false} PlaceFromFrame(g: Grid, cy: int, cx: int, c: Candidate, forme: seq<seq<U16>>,
                                          i: int, j: int, d: Coord)
    requires MaskReadable(forme) && TargetsInBounds(g, cy, cx, c, forme)
    requires 0 <= i && 0 <= j && InBounds(g, d)
    requires forall i', j' :: AtOrAfter(i', j', i, j) && i' < |forme| && 0 <= j' < Width(forme) ==>
      Target(cy, cx, c, i', j') != d
    ensures At(PlaceFrom(g, cy, cx, c, forme, i, j), d) == At(g, d)
    decreases |forme| - i, Width(forme) - j
  {
    if i >= |forme| {
    } else if j >= Width(forme) {
      PlaceFromFrame(g, cy, cx, c, forme, i + 1, 0, d);
    } else {
      var g1 := Write(g, Target(cy, cx, c, i, j), MaskValue(forme, i, j));
      PlaceFromFrame(g1, cy, cx, c, forme, i, j + 1, d);
    }
  }

  /** With signs +1/-1 no two offsets share a cell. */
  lemma TargetInjective(cy: int, cx: int, c: Candidate, i: int, j: int, i': int, j': int)
    requires IsSign(c.di) && IsSign(c.dj)
    requires Target(cy, cx, c, i, j) == Target(cy, cx, c, i', j')
    ensures i == i' && j == j'
  {
    if c.di == 1 { assert i * c.di == i && i' * c.di == i'; }
    else { assert i * c.di == -i && i' * c.di == -i'; }
    if c.dj == 1 { assert j * c.dj == j && j' * c.dj == j'; }
    else { assert j * c.dj == -j && j' * c.dj == -j'; }
  }

  /** Resumed at (i, j) with signs +1/-1: every remaining offset's cell ends
      up holding that offset's mask value. */
  lemma {:induction false} PlaceFromWrites(g: Grid, cy: int, cx: int, c: Candidate, forme: seq<seq<U16>>,
                                           i: int, j: int, i0: int, j0: int)
    requires MaskReadable(forme) && TargetsInBounds(g, cy, cx, c, forme)
    requires IsSign(c.di) && IsSign(c.dj)
    requires 0 <= i && 0 <= j
    requires AtOrAfter(i0, j0, i, j) && i0 < |forme| && 0 <= j0 < Width(forme)
    ensures At(PlaceFrom(g, cy, cx, c, forme, i, j), Target(cy, cx, c, i0, j0)) == MaskValue(forme, i0, j0)
    decreases |forme| - i, Width(forme) - j
  {
    if j >= Width(forme) {
      PlaceFromWrites(g, cy, cx, c, forme, i + 1, 0, i0, j0);
    } else if i == i0 && j == j0 {
      PlaceFromWritesOwn(g, cy, cx, c, forme, i, j);
    } else {
      var g1 := Write(g, Target(cy, cx, c, i, j), MaskValue(forme, i, j));
      PlaceFromWrites(g1, cy, cx, c, forme, i, j + 1, i0, j0);
    }
  }

  /** The cell of offset (i, j), written when the loops reach it, is not
      written again by any later offset. */
  lemma PlaceFromWritesOwn(g: Grid, cy: int, cx: int, c: Candidate, forme: seq<seq<U16>>, i: int, j: int)
    requires MaskReadable(forme) && TargetsInBounds(g, cy, cx, c, forme)
    requires IsSign(c.di) && IsSign(c.dj)
    requires 0 <= i < |forme| && 0 <= j < Width(forme)
    ensures At(PlaceFrom(g, cy, cx, c, forme, i, j), Target(cy, cx, c, i, j)) == MaskValue(forme, i, j)
  {
    var t := Target(cy, cx, c, i, j);
    var g1 := Write(g, t, MaskValue(forme, i, j));
    forall i', j' | AtOrAfter(i', j', i, j + 1) && i' < |forme| && 0 <= j' < Width(forme)
      ensures Target(cy, cx, c, i', j') != t
    {
      if Target(cy, cx, c, i', j') == t {
        TargetInjective(cy, cx, c, i', j', i, j);
      }
    }
    PlaceFromFrame(g1, cy, cx, c, forme, i, j + 1, t);
  }

  /** The cells the generator probed for a loop, as a set. */
  function ProbedCells(y: int, x: int, v: Variant, h: nat, w: nat): set<Coord>
  {
    set i, j | 0 <= i < h && 0 <= j < w :: Probe(y, x, v, i, j)
  }

  /** The cells the placer writes for a candidate, as a set. */
  function WrittenCells(cy: int, cx: int, c: Candidate, h: nat, w: nat): set<Coord>
  {
    set i, j | 0 <= i < h && 0 <= j < w :: Target(cy, cx, c, i, j)
  }

  /** Row-major candidates are written exactly where they were probed. */
  lemma RowMajorWritesProbed(y: int, x: int, o: int, p: int, h: nat, w: nat)
    ensures WrittenCells(y, x, CandidateOf(Variant(o, p, true)), h, w) == ProbedCells(y, x, Variant(o, p, true), h, w)
  {
    var c := CandidateOf(Variant(o, p, true));
    assert forall i, j :: Target(y, x, c, i, j) == Probe(y, x, Variant(o, p, true), i, j);
  }

  /** Axis mismatch. The column-major loop (o, p) probes `(x + j*p, y + i*o)`
      and stores `(p, o, false)`; the placer then writes `(x + j*o, y + i*p)`.
      For any mask bigger than one cell the written cells are the probed ones
      iff o == p. */
  lemma ColumnMajorWritesProbedIff(y: int, x: int, o: int, p: int, h: nat, w: nat)
    requires IsSign(o) && IsSign(p) && h >= 1 && w >= 1 && h + w >= 3
    ensures WrittenCells(y, x, CandidateOf(Variant(o, p, false)), h, w) == ProbedCells(y, x, Variant(o, p, false), h, w)
      <==> o == p
  {
    var v := Variant(o, p, false);
    var c := CandidateOf(v);
    if o == p {
      assert forall i, j :: Target(y, x, c, i, j) == Probe(y, x, v, i, j);
    } else {
      assert p == -o;
      if h >= 2 {
        var t := Target(y, x, c, 1, 0);
        assert t == Coord(x, y + p);
        assert t in WrittenCells(y, x, c, h, w);
        assert t !in ProbedCells(y, x, v, h, w);
      } else {
        var t := Target(y, x, c, 0, 1);
        assert t == Coord(x + o, y);
        assert t in WrittenCells(y, x, c, h, w);
        assert t !in ProbedCells(y, x, v, h, w);
      }
    }
  }
}
