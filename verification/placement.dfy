/** The placement candidate generator `placementPossibles` as the source
    writes it. For an anchor (y, x) and a shape of height h and width w it
    tries eight variants: four row-major ones (sign o for the i offsets,
    sign p for the j offsets) and four column-major ones, whose probes swap
    the roles of the anchor's coordinates. A variant is accepted when every
    probed cell converts to `true`, i.e. is non-zero. Nothing is bounds
    checked: a probe outside the grid is undefined behaviour in the source
    and `Err(IndexOutOfRange(..))` here.
 */
module Placement {
  import opened Grids

  /** One variant of the generator's loops. */
  datatype Variant = Variant(o: int, p: int, rowMajor: bool)

  /** What the generator returns per accepted variant: the source's
      `tuple<int,int,bool>`. `di` multiplies the mask row offset i and `dj`
      the mask column offset j when the placer uses it. */
  datatype Candidate = Candidate(di: int, dj: int, rowMajor: bool)

  /** Outcome of scanning one variant. */
  datatype Verdict = Accepted | Rejected | Undefined(at: Coord)

  /** The eight variants in loop order: o in {+1, -1}, then p in {+1, -1};
      row-major loops first. */
  const VARIANTS: seq<Variant> := [
    Variant(1, 1, true), Variant(1, -1, true), Variant(-1, 1, true), Variant(-1, -1, true),
    Variant(1, 1, false), Variant(1, -1, false), Variant(-1, 1, false), Variant(-1, -1, false)
  ]

  /** The candidate pushed for an accepted variant: `(o, p, true)` for the
      row-major loops, `(p, o, false)` for the column-major ones. */
  function CandidateOf(v: Variant): Candidate
  {
    if v.rowMajor then Candidate(v.o, v.p, true) else Candidate(v.p, v.o, false)
  }

  /** The cell probed for mask offset (i, j): `(y + i*o, x + j*p)` row-major,
      `(x + j*p, y + i*o)` column-major. */
  function Probe(y: int, x: int, v: Variant, i: int, j: int): Coord
  {
    if v.rowMajor then Coord(y + i * v.o, x + j * v.p) else Coord(x + j * v.p, y + i * v.o)
  }

  /** (i', j') comes at or after (i, j) in the loops' row-major order. */
  predicate AtOrAfter(i': int, j': int, i: int, j: int)
  {
    i' > i || (i' == i && j' >= j)
  }

  /** The two nested loops with their `&& possible` guards, resumed at (i, j):
      stop at the first out-of-range probe or the first zero cell. */
  function Scan(g: Grid, y: int, x: int, h: int, w: int, v: Variant, i: int, j: int): (r: Verdict)
    ensures r.Undefined? ==> !InBounds(g, r.at)
    decreases h - i, w - j
  {
    if i >= h then Accepted
    else if j >= w then Scan(g, y, x, h, w, v, i + 1, 0)
    else
      var c := Probe(y, x, v, i, j);
      if !InBounds(g, c) then Undefined(c)
      else if At(g, c) == 0 then Rejected
      else Scan(g, y, x, h, w, v, i, j + 1)
  }

  /** Reference meaning of acceptance: every probe of the variant lies on the
      grid and holds a non-zero value. */
  predicate Fits(g: Grid, y: int, x: int, h: int, w: int, v: Variant)
  {
    forall i, j :: 0 <= i < h && 0 <= j < w ==>
      InBounds(g, Probe(y, x, v, i, j)) && At(g, Probe(y, x, v, i, j)) != 0
  }

  /** Every probe of the variant lies on the grid. */
  predicate ProbesInBounds(g: Grid, y: int, x: int, h: int, w: int, v: Variant)
  {
    forall i, j :: 0 <= i < h && 0 <= j < w ==> InBounds(g, Probe(y, x, v, i, j))
  }

  /** Resumed at (i, j), the scan accepts exactly when every remaining probe
      fits. */
  lemma {:induction false} ScanAcceptedFrom(g: Grid, y: int, x: int, h: int, w: int, v: Variant, i: int, j: int)
    requires 0 <= i && 0 <= j
    ensures Scan(g, y, x, h, w, v, i, j) == Accepted <==>
      forall i', j' :: AtOrAfter(i', j', i, j) && i' < h && 0 <= j' < w ==>
        InBounds(g, Probe(y, x, v, i', j')) && At(g, Probe(y, x, v, i', j')) != 0
    decreases h - i, w - j
  {
    if i >= h {
    } else if j >= w {
      ScanAcceptedFrom(g, y, x, h, w, v, i + 1, 0);
    } else {
      var c := Probe(y, x, v, i, j);
      if InBounds(g, c) && At(g, c) != 0 {
        ScanAcceptedFrom(g, y, x, h, w, v, i, j + 1);
      }
    }
  }

  /** A variant is accepted iff it fits. */
  lemma ScanAccepted(g: Grid, y: int, x: int, h: int, w: int, v: Variant)
    ensures Scan(g, y, x, h, w, v, 0, 0) == Accepted <==> Fits(g, y, x, h, w, v)
  {
    ScanAcceptedFrom(g, y, x, h, w, v, 0, 0);
  }

  /** Resumed at (i, j): when every remaining probe is on the grid, the scan
      never reaches undefined behaviour; on a grid of state codes (never
      zero) it then accepts. */
  lemma {:induction false} ScanDefinedFrom(g: Grid, y: int, x: int, h: int, w: int, v: Variant, i: int, j: int)
    requires 0 <= i && 0 <= j
    requires forall i', j' :: AtOrAfter(i', j', i, j) && i' < h && 0 <= j' < w ==>
      InBounds(g, Probe(y, x, v, i', j'))
    ensures !Scan(g, y, x, h, w, v, i, j).Undefined?
    ensures ValidCodes(g) ==> Scan(g, y, x, h, w, v, i, j) == Accepted
    decreases h - i, w - j
  {
    if i >= h {
    } else if j >= w {
      ScanDefinedFrom(g, y, x, h, w, v, i + 1, 0);
    } else {
      var c := Probe(y, x, v, i, j);
      assert InBounds(g, c);
      if At(g, c) != 0 {
        ScanDefinedFrom(g, y, x, h, w, v, i, j + 1);
      }
    }
  }

  /** Resumed at (i, j) on a grid of state codes: if some remaining probe is
      off the grid, the scan ends in undefined behaviour at an off-grid cell. */
  lemma {:induction false} ScanUndefinedFrom(g: Grid, y: int, x: int, h: int, w: int, v: Variant, i: int, j: int,
                                             bi: int, bj: int)
    requires 0 <= i && 0 <= j && ValidCodes(g)
    requires AtOrAfter(bi, bj, i, j) && bi < h && 0 <= bj < w
    requires !InBounds(g, Probe(y, x, v, bi, bj))
    ensures Scan(g, y, x, h, w, v, i, j).Undefined?
    ensures !InBounds(g, Scan(g, y, x, h, w, v, i, j).at)
    decreases h - i, w - j
  {
    if j >= w {
      ScanUndefinedFrom(g, y, x, h, w, v, i + 1, 0, bi, bj);
    } else {
      var c := Probe(y, x, v, i, j);
      if InBounds(g, c) {
        ScanUndefinedFrom(g, y, x, h, w, v, i, j + 1, bi, bj);
      }
    }
  }

  /** On a grid of state codes the scan of a variant is decided by bounds
      alone: accepted iff all its probes are on the grid, undefined
      otherwise, never rejected. */
  lemma ScanOnStateCodes(g: Grid, y: int, x: int, h: int, w: int, v: Variant)
    requires ValidCodes(g)
    ensures ProbesInBounds(g, y, x, h, w, v) ==> Scan(g, y, x, h, w, v, 0, 0) == Accepted
    ensures !ProbesInBounds(g, y, x, h, w, v) ==> Scan(g, y, x, h, w, v, 0, 0).Undefined?
  {
    if ProbesInBounds(g, y, x, h, w, v) {
      ScanDefinedFrom(g, y, x, h, w, v, 0, 0);
    } else {
      var bi, bj :| 0 <= bi < h && 0 <= bj < w && !InBounds(g, Probe(y, x, v, bi, bj));
      ScanUndefinedFrom(g, y, x, h, w, v, 0, 0, bi, bj);
    }
  }

  /** The generator's outer loops over a list of variants: the candidates of
      the accepted variants in order, or the first undefined probe. */
  function Collect(g: Grid, y: int, x: int, h: int, w: int, vs: seq<Variant>): (r: Result<seq<Candidate>>)
    ensures r.Ok? ==> |r.value| <= |vs|
    ensures r.Ok? <==> forall k :: 0 <= k < |vs| ==> !Scan(g, y, x, h, w, vs[k], 0, 0).Undefined?
    ensures r.Ok? ==> forall k :: 0 <= k < |vs| ==>
      (Scan(g, y, x, h, w, vs[k], 0, 0) == Accepted ==> CandidateOf(vs[k]) in r.value)
    ensures r.Ok? ==> forall c :: c in r.value ==>
      exists k :: 0 <= k < |vs| && Scan(g, y, x, h, w, vs[k], 0, 0) == Accepted && c == CandidateOf(vs[k])
    ensures r.Err? ==> r.error.IndexOutOfRange? && !InBounds(g, r.error.at)
  {
    if |vs| == 0 then Ok([])
    else
      var rest := Collect(g, y, x, h, w, vs[1..]);
      assert forall k :: 1 <= k < |vs| ==> vs[k] == vs[1..][k - 1];
      match Scan(g, y, x, h, w, vs[0], 0, 0)
      case Undefined(c) => Err(IndexOutOfRange(c))
      case Rejected => rest
      case Accepted =>
        if rest.Ok? then Ok([CandidateOf(vs[0])] + rest.value) else rest
  }

  /** `placementPossibles(y, x, height, width)` without its console listing.
      When defined: at most eight candidates, signs +1/-1, strictly in loop
      order (so no duplicates and every row-major candidate before every
      column-major one). An error names an off-grid cell. */
  function PlacementPossibles(g: Grid, y: int, x: int, h: int, w: int): (r: Result<seq<Candidate>>)
    ensures r.Ok? ==> |r.value| <= 8
    ensures r.Ok? ==> RankIncreasing(r.value)
    ensures r.Ok? ==> forall a, b :: 0 <= a < b < |r.value| && r.value[b].rowMajor ==> r.value[a].rowMajor
    ensures r.Ok? ==> forall c :: c in r.value ==> IsSign(c.di) && IsSign(c.dj)
    ensures r.Err? ==> r.error.IndexOutOfRange? && !InBounds(g, r.error.at)
  {
    CollectVariantsShape(g, y, x, h, w);
    Collect(g, y, x, h, w, VARIANTS)
  }

  /** Position of a candidate in the generator's loop order: 0-3 for the
      row-major loops, 4-7 for the column-major ones. */
  function Rank(c: Candidate): int
  {
    if c.rowMajor then 2 * SignBit(c.di) + SignBit(c.dj)
    else 4 + 2 * SignBit(c.dj) + SignBit(c.di)
  }

  function SignBit(s: int): int
  {
    if s == 1 then 0 else 1
  }

  predicate IsSign(s: int)
  {
    s == 1 || s == -1
  }

  predicate RankIncreasing(cs: seq<Candidate>)
  {
    forall a, b :: 0 <= a < b < |cs| ==> Rank(cs[a]) < Rank(cs[b])
  }

  /** Collecting over variants listed in loop order keeps loop order. */
  lemma {:induction false} CollectKeepsOrder(g: Grid, y: int, x: int, h: int, w: int, vs: seq<Variant>)
    requires forall a, b :: 0 <= a < b < |vs| ==> Rank(CandidateOf(vs[a])) < Rank(CandidateOf(vs[b]))
    ensures Collect(g, y, x, h, w, vs).Ok? ==> RankIncreasing(Collect(g, y, x, h, w, vs).value)
  {
    if |vs| > 0 {
      var tail := vs[1..];
      assert forall k :: 1 <= k < |vs| ==> vs[k] == tail[k - 1];
      CollectKeepsOrder(g, y, x, h, w, tail);
      var r := Collect(g, y, x, h, w, vs);
      var rest := Collect(g, y, x, h, w, tail);
      if r.Ok? && Scan(g, y, x, h, w, vs[0], 0, 0) == Accepted {
        assert r.value == [CandidateOf(vs[0])] + rest.value;
        forall b | 0 < b < |r.value|
          ensures Rank(r.value[0]) < Rank(r.value[b])
        {
          assert r.value[b] in rest.value;
        }
      }
    }
  }

  /** The full candidate list, in loop order. */
  const ALL_CANDIDATES: seq<Candidate> := [
    Candidate(1, 1, true), Candidate(1, -1, true), Candidate(-1, 1, true), Candidate(-1, -1, true),
    Candidate(1, 1, false), Candidate(-1, 1, false), Candidate(1, -1, false), Candidate(-1, -1, false)
  ]

  lemma VariantsInLoopOrder()
    ensures forall k :: 0 <= k < 8 ==> CandidateOf(VARIANTS[k]) == ALL_CANDIDATES[k]
    ensures forall k :: 0 <= k < 8 ==> Rank(ALL_CANDIDATES[k]) == k
    ensures forall k :: 0 <= k < 8 ==> IsSign(VARIANTS[k].o) && IsSign(VARIANTS[k].p)
  {
  }

  /** The shape facts of `PlacementPossibles`, proved about the collection
      over the eight variants. */
  lemma CollectVariantsShape(g: Grid, y: int, x: int, h: int, w: int)
    ensures var r := Collect(g, y, x, h, w, VARIANTS);
      && (r.Ok? ==> |r.value| <= 8)
      && (r.Ok? ==> RankIncreasing(r.value))
      && (r.Ok? ==> forall a, b :: 0 <= a < b < |r.value| && r.value[b].rowMajor ==> r.value[a].rowMajor)
      && (r.Ok? ==> forall c :: c in r.value ==> IsSign(c.di) && IsSign(c.dj))
      && (r.Err? ==> !InBounds(g, r.error.at))
  {
    VariantsInLoopOrder();
    CollectKeepsOrder(g, y, x, h, w, VARIANTS);
    var r := Collect(g, y, x, h, w, VARIANTS);
    if r.Ok? {
      var cs := r.value;
      forall c | c in cs ensures IsSign(c.di) && IsSign(c.dj) {
        var k :| 0 <= k < 8 && Scan(g, y, x, h, w, VARIANTS[k], 0, 0) == Accepted && c == CandidateOf(VARIANTS[k]);
        assert c == ALL_CANDIDATES[k];
      }
      forall a, b | 0 <= a < b < |cs| && cs[b].rowMajor
        ensures cs[a].rowMajor
      {
        assert Rank(cs[a]) < Rank(cs[b]);
      }
    }
  }

  /** A loop's candidate is returned iff that loop's scan accepted. */
  lemma MemberIffAccepted(g: Grid, y: int, x: int, h: int, w: int, k: int)
    requires 0 <= k < 8
    requires PlacementPossibles(g, y, x, h, w).Ok?
    ensures CandidateOf(VARIANTS[k]) in PlacementPossibles(g, y, x, h, w).value <==>
      Scan(g, y, x, h, w, VARIANTS[k], 0, 0) == Accepted
  {
    VariantsInLoopOrder();
    var r := PlacementPossibles(g, y, x, h, w).value;
    if CandidateOf(VARIANTS[k]) in r {
      var k' :| 0 <= k' < 8 && Scan(g, y, x, h, w, VARIANTS[k'], 0, 0) == Accepted &&
        CandidateOf(VARIANTS[k]) == CandidateOf(VARIANTS[k']);
      assert Rank(ALL_CANDIDATES[k]) == Rank(ALL_CANDIDATES[k']);
    }
  }

  /** `Fits` for a row-major loop, with its probes written out. */
  lemma FitsRowMajor(g: Grid, y: int, x: int, h: int, w: int, o: int, p: int)
    ensures Fits(g, y, x, h, w, Variant(o, p, true)) <==>
      forall i, j :: 0 <= i < h && 0 <= j < w ==>
        InBounds(g, Coord(y + i * o, x + j * p)) && At(g, Coord(y + i * o, x + j * p)) != 0
  {
    var v := Variant(o, p, true);
    if !Fits(g, y, x, h, w, v) {
      var i, j :| 0 <= i < h && 0 <= j < w &&
        !(InBounds(g, Probe(y, x, v, i, j)) && At(g, Probe(y, x, v, i, j)) != 0);
      assert Probe(y, x, v, i, j) == Coord(y + i * o, x + j * p);
    } else {
      forall i, j | 0 <= i < h && 0 <= j < w
        ensures InBounds(g, Coord(y + i * o, x + j * p)) && At(g, Coord(y + i * o, x + j * p)) != 0
      {
        assert Probe(y, x, v, i, j) == Coord(y + i * o, x + j * p);
      }
    }
  }

  /** `Fits` for a column-major loop, with its probes written out. */
  lemma FitsColumnMajor(g: Grid, y: int, x: int, h: int, w: int, o: int, p: int)
    ensures Fits(g, y, x, h, w, Variant(o, p, false)) <==>
      forall i, j :: 0 <= i < h && 0 <= j < w ==>
        InBounds(g, Coord(x + j * p, y + i * o)) && At(g, Coord(x + j * p, y + i * o)) != 0
  {
    var v := Variant(o, p, false);
    if !Fits(g, y, x, h, w, v) {
      var i, j :| 0 <= i < h && 0 <= j < w &&
        !(InBounds(g, Probe(y, x, v, i, j)) && At(g, Probe(y, x, v, i, j)) != 0);
      assert Probe(y, x, v, i, j) == Coord(x + j * p, y + i * o);
    } else {
      forall i, j | 0 <= i < h && 0 <= j < w
        ensures InBounds(g, Coord(x + j * p, y + i * o)) && At(g, Coord(x + j * p, y + i * o)) != 0
      {
        assert Probe(y, x, v, i, j) == Coord(x + j * p, y + i * o);
      }
    }
  }

  /** Row-major acceptance: `(o, p, true)` is returned iff every cell
      `(y + i*o, x + j*p)` with i < h, j < w is on the grid and non-zero. */
  lemma RowMajorAcceptance(g: Grid, y: int, x: int, h: int, w: int, o: int, p: int)
    requires IsSign(o) && IsSign(p)
    requires PlacementPossibles(g, y, x, h, w).Ok?
    ensures Candidate(o, p, true) in PlacementPossibles(g, y, x, h, w).value <==>
      forall i, j :: 0 <= i < h && 0 <= j < w ==>
        InBounds(g, Coord(y + i * o, x + j * p)) && At(g, Coord(y + i * o, x + j * p)) != 0
  {
    var v := Variant(o, p, true);
    var k := 2 * SignBit(o) + SignBit(p);
    assert VARIANTS[k] == v;
    MemberIffAccepted(g, y, x, h, w, k);
    ScanAccepted(g, y, x, h, w, v);
    FitsRowMajor(g, y, x, h, w, o, p);
  }

  /** Column-major acceptance: the loop (o, p) probes `(x + j*p, y + i*o)` and
      its candidate is stored with the signs swapped, as `(p, o, false)`. */
  lemma ColumnMajorAcceptance(g: Grid, y: int, x: int, h: int, w: int, o: int, p: int)
    requires IsSign(o) && IsSign(p)
    requires PlacementPossibles(g, y, x, h, w).Ok?
    ensures Candidate(p, o, false) in PlacementPossibles(g, y, x, h, w).value <==>
      forall i, j :: 0 <= i < h && 0 <= j < w ==>
        InBounds(g, Coord(x + j * p, y + i * o)) && At(g, Coord(x + j * p, y + i * o)) != 0
  {
    var v := Variant(o, p, false);
    var k := 4 + 2 * SignBit(o) + SignBit(p);
    assert VARIANTS[k] == v;
    MemberIffAccepted(g, y, x, h, w, k);
    ScanAccepted(g, y, x, h, w, v);
    FitsColumnMajor(g, y, x, h, w, o, p);
  }

  /** The candidates of a list of variants, one per variant. */
  function CandidatesOf(vs: seq<Variant>): (cs: seq<Candidate>)
    ensures |cs| == |vs| && forall k :: 0 <= k < |vs| ==> cs[k] == CandidateOf(vs[k])
  {
    seq(|vs|, k requires 0 <= k < |vs| => CandidateOf(vs[k]))
  }

  /** When every loop accepts, the generator returns every candidate. */
  lemma {:induction false} CollectAllAccepted(g: Grid, y: int, x: int, h: int, w: int, vs: seq<Variant>)
    requires forall k :: 0 <= k < |vs| ==> Scan(g, y, x, h, w, vs[k], 0, 0) == Accepted
    ensures Collect(g, y, x, h, w, vs) == Ok(CandidatesOf(vs))
  {
    if |vs| > 0 {
      var tail := vs[1..];
      assert forall k :: 0 <= k < |tail| ==> tail[k] == vs[k + 1];
      CollectAllAccepted(g, y, x, h, w, tail);
      assert CandidatesOf(vs) == [CandidateOf(vs[0])] + CandidatesOf(tail);
    }
  }

  /** The anchor is at least h - 1 rows and w - 1 columns away from every
      edge of an n x n grid. */
  predicate Centred(n: int, y: int, x: int, h: int, w: int)
  {
    h - 1 <= y <= n - h && w - 1 <= x <= n - w
  }

  /** On a square grid a centred anchor keeps every probe of every loop on
      the grid. */
  lemma CentredProbesInBounds(g: Grid, y: int, x: int, h: int, w: int, v: Variant)
    requires Square(g) && Centred(|g|, y, x, h, w)
    requires IsSign(v.o) && IsSign(v.p)
    ensures ProbesInBounds(g, y, x, h, w, v)
  {
    forall i, j | 0 <= i < h && 0 <= j < w
      ensures InBounds(g, Probe(y, x, v, i, j))
    {
      var io := if v.o == 1 then i else -i;
      var jp := if v.p == 1 then j else -j;
      assert i * v.o == io && j * v.p == jp;
    }
  }

  /** An anchor that is not centred puts some probe of some row-major loop
      off the grid. */
  lemma NotCentredProbeOffGrid(g: Grid, y: int, x: int, h: int, w: int) returns (k: int)
    requires Square(g) && h >= 1 && w >= 1 && !Centred(|g|, y, x, h, w)
    ensures 0 <= k < 4 && !ProbesInBounds(g, y, x, h, w, VARIANTS[k])
  {
    if y < h - 1 {
      k := 2;
      assert !InBounds(g, Probe(y, x, VARIANTS[k], h - 1, 0));
    } else if y > |g| - h {
      k := 0;
      assert !InBounds(g, Probe(y, x, VARIANTS[k], h - 1, 0));
    } else if x < w - 1 {
      k := 1;
      assert !InBounds(g, Probe(y, x, VARIANTS[k], 0, w - 1));
    } else {
      k := 0;
      assert Probe(y, x, VARIANTS[k], 0, w - 1) == Coord(y, x + w - 1);
      assert !InBounds(g, Probe(y, x, VARIANTS[k], 0, w - 1));
    }
  }

  /** Occupancy never rejects. On a board whose cells all hold state codes
      (never 0), the generator either returns all eight candidates, also
      those covering SHIP cells, or reaches an off-grid cell; which one is
      decided by the anchor being centred alone. */
  lemma OccupancyNeverRejects(g: Grid, y: int, x: int, h: int, w: int)
    requires IsBoard(g) && ValidCodes(g) && h >= 1 && w >= 1
    ensures Centred(|g|, y, x, h, w) ==> PlacementPossibles(g, y, x, h, w) == Ok(ALL_CANDIDATES)
    ensures !Centred(|g|, y, x, h, w) ==> PlacementPossibles(g, y, x, h, w).Err?
  {
    VariantsInLoopOrder();
    if Centred(|g|, y, x, h, w) {
      forall k | 0 <= k < 8 ensures Scan(g, y, x, h, w, VARIANTS[k], 0, 0) == Accepted {
        CentredProbesInBounds(g, y, x, h, w, VARIANTS[k]);
        ScanOnStateCodes(g, y, x, h, w, VARIANTS[k]);
      }
      CollectAllAccepted(g, y, x, h, w, VARIANTS);
      assert CandidatesOf(VARIANTS) == ALL_CANDIDATES;
    } else {
      var k := NotCentredProbeOffGrid(g, y, x, h, w);
      ScanOnStateCodes(g, y, x, h, w, VARIANTS[k]);
    }
  }

  /** A random anchor at the corner (0, 0) for the two-cell destroyer: the
      third row-major loop (o = -1) probes row -1. */
  lemma CornerAnchorOffGrid()
    ensures PlacementPossibles(EmptyBoard(DIMENSIONS), 0, 0, |DESTROYER|, |DESTROYER[0]|)
         == Err(IndexOutOfRange(Coord(-1, 0)))
  {
    var g := EmptyBoard(DIMENSIONS);
    assert Scan(g, 0, 0, 2, 1, VARIANTS[0], 0, 0) == Accepted;
    assert Scan(g, 0, 0, 2, 1, VARIANTS[1], 0, 0) == Accepted;
    assert Scan(g, 0, 0, 2, 1, VARIANTS[2], 0, 0) == Undefined(Coord(-1, 0));
    var e := Err(IndexOutOfRange(Coord(-1, 0)));
    assert Collect(g, 0, 0, 2, 1, VARIANTS[2..]) == e;
    assert VARIANTS[1..][1..] == VARIANTS[2..];
    assert Collect(g, 0, 0, 2, 1, VARIANTS[1..]) == e;
  }

  /** One variant's nested loops as the source writes them: `possible`
      starts true, both loops run while it holds, each probe replaces it
      with the cell's truth value. An off-grid probe stops the run. */
  method ScanLoop(g: Grid, y: int, x: int, h: int, w: int, v: Variant) returns (verdict: Verdict)
    ensures verdict == Accepted <==> Fits(g, y, x, h, w, v)
    ensures verdict == Scan(g, y, x, h, w, v, 0, 0)
  {
    ScanAccepted(g, y, x, h, w, v);
    var possible := true;
    var i := 0;
    while i < h && possible
      invariant 0 <= i
      invariant possible ==> Scan(g, y, x, h, w, v, 0, 0) == Scan(g, y, x, h, w, v, i, 0)
      invariant !possible ==> Scan(g, y, x, h, w, v, 0, 0) == Rejected
      decreases h - i
    {
      var j := 0;
      while j < w && possible
        invariant 0 <= j
        invariant possible ==> Scan(g, y, x, h, w, v, 0, 0) == Scan(g, y, x, h, w, v, i, j)
        invariant !possible ==> Scan(g, y, x, h, w, v, 0, 0) == Rejected
        decreases w - j
      {
        var c := Probe(y, x, v, i, j);
        if !InBounds(g, c) {
          return Undefined(c);
        }
        possible := At(g, c) != 0;
        j := j + 1;
      }
      i := i + 1;
    }
    verdict := if possible then Accepted else Rejected;
  }
}
