/** Small stores on which partitions share chunks, or rows are read twice. */
module StoreExamples {
  import opened Options
  import opened Arithmetic
  import opened Selection
  import opened Partition
  import opened FanOut
  import opened ScanPlan
  import opened ScanCover
  import opened ChunkOwnership
  import opened ChunkNesting
  import opened Projection

  // ---------------------------------------------------------------------------------------------
  // Reading off candidates
  // ---------------------------------------------------------------------------------------------

  lemma CandidateIs(v: VarMeta, a: nat, coords: seq<CoordMeta>, k: nat, chunk: nat, n: nat)
    requires a < |v.shape| && CoordIndexForAxis(v, a, coords) == Some(k) && ChunkLen(v, a) == chunk
    requires chunk > 0 && n > 0 && v.shape[a] == n * chunk
    ensures AxisCandidate(v, a, coords, {}) == if n > 1 then Some(Candidate(k, n, v.shape[a], chunk)) else None
  {
    CeilDivUnique(v.shape[a], chunk, n);
  }

  /** The only splittable axis of a store determines its full target. */
  lemma {:induction false} OnlyCandidate(scan: Scan, c: Candidate)
    requires scan.dataVars != [] && scan.outer.Unfiltered? && CandidatesFrom(scan.dataVars[0], 1, scan.coords, scan.filtered) == [c]
    ensures FullTarget(scan) == Times(Max(1, OuterLen(scan.dataVars[0])), c.nChunks)
  {
    assert [c][1..] == [] && SortCandidates([]) == [];
    assert SortCandidates([c]) == Insert(c, SortCandidates([c][1..])) == [c];
    assert ProductOfChunks([c][1..]) == 1;
  }

  lemma SharesAtFullTarget(scan: Scan, base: seq<CoordSelection>, on: set<nat>, survivor: seq<nat>)
    requires WellFormed(scan, base) && ReaderFits(scan) && scan.limit.None? && !scan.virtualizarr && Everything(on, |base|)
    requires |survivor| == |base| && Survives(scan, base, on, survivor) && !Nested(scan) && scan.target == FullTarget(scan)
    ensures !Owns(scan, base)
  {
    SharedAt(scan, base, on, survivor);
    assert Aimed(scan, FullTarget(scan)) == scan;
  }

  // ---------------------------------------------------------------------------------------------
  // A store on which two partitions decode the same chunks
  // ---------------------------------------------------------------------------------------------

  /**
   Dimensions (t, y, x) with y and x of one length, coordinates listed t, x, y. Fan-out cuts axis
   y, which the reader applies to axis x, whose one chunk spans both halves.
   */
  function TransposedGrid(): Scan {
    Scan(None, false, [CoordMeta("t", 1), CoordMeta("x", 2), CoordMeta("y", 2)], [TransposedVar()], {}, Unfiltered, 2)
  }

  function TransposedVar(): VarMeta { VarMeta([1, 2, 2], Some([1, 1, 2]), Some(["t", "y", "x"])) }

  lemma TransposedNames(scan: Scan)
    requires scan == TransposedGrid()
    ensures CoordIndexForAxis(scan.dataVars[0], 1, scan.coords) == Some(2)
    ensures CoordIndexForAxis(scan.dataVars[0], 2, scan.coords) == Some(1)
    ensures OuterCoord(scan) == Some(0)
  {
    var y, x := CoordIndexForAxis(scan.dataVars[0], 1, scan.coords), CoordIndexForAxis(scan.dataVars[0], 2, scan.coords);
    assert scan.coords[2].name == "y" && scan.coords[1].name == "x";
    assert scan.coords[y.value].name == "y" && scan.coords[x.value].name == "x";
  }

  lemma TransposedChunks(v: VarMeta)
    requires v == TransposedVar()
    ensures ChunkLen(v, 1) == 1 && ChunkLen(v, 2) == 2
  {
  }

  lemma TransposedCandidates(scan: Scan)
    requires scan == TransposedGrid()
    ensures AxisCandidate(scan.dataVars[0], 1, scan.coords, {}) == Some(Candidate(2, 2, 2, 1))
    ensures CandidatesFrom(scan.dataVars[0], 1, scan.coords, {}) == [Candidate(2, 2, 2, 1)]
  {
    var v := scan.dataVars[0];
    TransposedNames(scan);
    TransposedChunks(v);
    CandidateIs(v, 1, scan.coords, 2, 1, 2);
    CandidateIs(v, 2, scan.coords, 1, 2, 1);
    FromLast(v, scan.coords);
  }

  lemma FromLast(v: VarMeta, coords: seq<CoordMeta>)
    requires |v.shape| == 3 && AxisCandidate(v, 1, coords, {}).Some? && AxisCandidate(v, 2, coords, {}).None?
    ensures CandidatesFrom(v, 1, coords, {}) == [AxisCandidate(v, 1, coords, {}).value]
  {
    assert CandidatesFrom(v, 3, coords, {}) == [];
    assert CandidatesFrom(v, 2, coords, {}) == [];
  }

  lemma {:induction false} TransposedFits(scan: Scan, base: seq<CoordSelection>)
    requires scan == TransposedGrid() && base == [Range(0, 1), Range(0, 2), Range(0, 2)]
    ensures WellFormed(scan, base) && ReaderFits(scan)
  {
    TransposedNames(scan);
  }

  lemma TransposedUnnested(scan: Scan)
    requires scan == TransposedGrid() && AxisCandidate(scan.dataVars[0], 1, scan.coords, {}) == Some(Candidate(2, 2, 2, 1))
    ensures !Nested(scan)
  {
    TransposedChunks(scan.dataVars[0]);
    assert !NestsIn(scan.dataVars[0], 2, 1);
    assert Splittable(scan, 1) && SplitCoord(scan, 1) == 2;
    assert !ReadNested(scan, 1);
  }

  /** No axis ties with the outer one, so every row is read once; and yet two partitions share a chunk. */
  lemma TransposedGridSharesChunks(scan: Scan, base: seq<CoordSelection>, on: set<nat>)
    requires scan == TransposedGrid() && base == [Range(0, 1), Range(0, 2), Range(0, 2)] && Everything(on, 3)
    ensures WellFormed(scan, base) && ReaderFits(scan) && !TiedOuter(scan) && !Owns(scan, base)
  {
    TransposedFits(scan, base);
    TransposedNames(scan);
    UntiedByLength(scan, base);
    TransposedCandidates(scan);
    OnlyCandidate(scan, Candidate(2, 2, 2, 1));
    TransposedUnnested(scan);
    TransposedSurvivor(scan, base, on);
    SharesAtFullTarget(scan, base, on, [0, 0, 0]);
  }

  lemma TransposedSurvivor(scan: Scan, base: seq<CoordSelection>, on: set<nat>)
    requires scan == TransposedGrid() && base == [Range(0, 1), Range(0, 2), Range(0, 2)] && WellFormed(scan, base)
    ensures Survives(scan, base, on, [0, 0, 0])
  {
  }

  // ---------------------------------------------------------------------------------------------
  // A store on which the plan reads every cell twice
  // ---------------------------------------------------------------------------------------------

  /** A 2 x 2 grid with dimensions (y, x), one chunk per cell, whose coordinates are listed x first. */
  function SquareGrid(): Scan {
    Scan(None, false, [CoordMeta("x", 2), CoordMeta("y", 2)], [SquareVar()], {}, Unfiltered, 4)
  }

  function SquareVar(): VarMeta { VarMeta([2, 2], Some([1, 1]), Some(["y", "x"])) }

  lemma SquareNames(scan: Scan)
    requires scan == SquareGrid()
    ensures OuterCoord(scan) == Some(0) && CoordIndexForAxis(scan.dataVars[0], 1, scan.coords) == Some(0)
    ensures ChunkLen(scan.dataVars[0], 1) == 1
  {
    assert scan.coords[0].name == "x" && scan.coords[0].size == 2;
  }

  lemma SquareFits(scan: Scan, base: seq<CoordSelection>)
    requires scan == SquareGrid() && base == [Range(0, 2), Range(0, 2)]
    ensures WellFormed(scan, base)
  {
    SquareNames(scan);
  }

  lemma SquareCandidates(scan: Scan)
    requires scan == SquareGrid()
    ensures AxisCandidate(scan.dataVars[0], 1, scan.coords, {}) == Some(Candidate(0, 2, 2, 1))
    ensures CandidatesFrom(scan.dataVars[0], 1, scan.coords, {}) == [Candidate(0, 2, 2, 1)]
  {
    SquareNames(scan);
    CandidateIs(scan.dataVars[0], 1, scan.coords, 0, 1, 2);
    assert CandidatesFrom(scan.dataVars[0], 2, scan.coords, {}) == [];
  }

  lemma SquareTied(scan: Scan)
    requires scan == SquareGrid() && OuterCoord(scan) == Some(0)
    requires AxisCandidate(scan.dataVars[0], 1, scan.coords, {}) == Some(Candidate(0, 2, 2, 1))
    ensures TiedOuter(scan)
  {
    CeilDivUnique(2, 1, 2);
    assert ChunkCount(2, 1) == 2;
    assert Splittable(scan, 1) && SplitCoord(scan, 1) == 0;
  }

  /** The inner split of `x` replaces the outer split, so every outer piece reads every cell. */
  lemma SquareGridReadsTwice(scan: Scan, base: seq<CoordSelection>, on: set<nat>, tasks: nat)
    requires scan == SquareGrid() && base == [Range(0, 2), Range(0, 2)] && Everything(on, 2)
    ensures WellFormed(scan, base) && TiedOuter(scan) && SlotsReading(scan, base, on, tasks, [0, 0]) >= 2
  {
    SquareFits(scan, base);
    SquareNames(scan);
    SquareCandidates(scan);
    SquareTied(scan);
    OnlyCandidate(scan, Candidate(0, 2, 2, 1));
    SquareSurvivor(scan, base, on);
    RepeatsAtFullTarget(scan, base, on, tasks, [0, 0]);
  }

  lemma SquareSurvivor(scan: Scan, base: seq<CoordSelection>, on: set<nat>)
    requires scan == SquareGrid() && base == [Range(0, 2), Range(0, 2)] && WellFormed(scan, base)
    ensures Survives(scan, base, on, [0, 0])
  {
  }

  lemma RepeatsAtFullTarget(scan: Scan, base: seq<CoordSelection>, on: set<nat>, tasks: nat, survivor: seq<nat>)
    requires WellFormed(scan, base) && scan.limit.None? && !scan.virtualizarr && Everything(on, |base|)
    requires |survivor| == |base| && Survives(scan, base, on, survivor) && TiedOuter(scan) && scan.target == FullTarget(scan)
    ensures SlotsReading(scan, base, on, tasks, survivor) >= 2
  {
    FullTargetRepeats(scan, base, on, survivor[OuterCoord(scan).value]);
    PlanNonEmpty(scan, base);
    SlotsCountCell(scan, base, on, tasks, survivor);
  }

  // ---------------------------------------------------------------------------------------------
  // A projection that repeats its rows
  // ---------------------------------------------------------------------------------------------

  /** A variable over (t, z), one chunk per level, and a surface variable over t alone. */
  function LevelGrid(): Scan {
    Scan(None, false, [CoordMeta("t", 1), CoordMeta("z", 2)],
         [VarMeta([1, 2], Some([1, 1]), Some(["t", "z"])), SurfaceVar()], {}, Unfiltered, 2)
  }

  function SurfaceVar(): VarMeta { VarMeta([1], Some([1]), Some(["t"])) }

  lemma LevelNames(scan: Scan)
    requires scan == LevelGrid()
    ensures OuterCoord(scan) == Some(0) && CoordIndexForAxis(scan.dataVars[0], 1, scan.coords) == Some(1)
    ensures ChunkLen(scan.dataVars[0], 1) == 1
  {
    var z := CoordIndexForAxis(scan.dataVars[0], 1, scan.coords);
    assert scan.coords[1].name == "z" && scan.coords[0].size == 1;
    assert scan.coords[z.value].name == "z";
  }

  lemma LevelFits(scan: Scan, base: seq<CoordSelection>)
    requires scan == LevelGrid() && base == [Range(0, 1), Range(0, 2)]
    ensures WellFormed(scan, base) && Survives(scan, base, {0}, [0, 0])
  {
    LevelNames(scan);
  }

  lemma LevelCandidates(scan: Scan)
    requires scan == LevelGrid()
    ensures AxisCandidate(scan.dataVars[0], 1, scan.coords, {}) == Some(Candidate(1, 2, 2, 1))
    ensures CandidatesFrom(scan.dataVars[0], 1, scan.coords, {}) == [Candidate(1, 2, 2, 1)]
  {
    LevelNames(scan);
    CandidateIs(scan.dataVars[0], 1, scan.coords, 1, 1, 2);
    assert CandidatesFrom(scan.dataVars[0], 2, scan.coords, {}) == [];
  }

  lemma SurfaceCoords(coords: seq<CoordMeta>)
    requires coords == [CoordMeta("t", 1), CoordMeta("z", 2)]
    ensures EffectiveCoords([SurfaceVar()], coords) == Some([0])
  {
    var dims := ["t"];
    assert coords[0].name == dims[0];
    assert PositionByName(coords, dims[0]) == Some(0);
    assert dims[1..] == [] && NamedCoords([], coords) == [];
    assert NamedCoords(dims, coords) == [0];
  }

  /** Selecting the surface variable emits its row once per piece of the levels it does not have. */
  lemma SurfaceRowsRepeat(scan: Scan, base: seq<CoordSelection>, tasks: nat)
    requires scan == LevelGrid() && base == [Range(0, 1), Range(0, 2)]
    ensures EffectiveCoords([SurfaceVar()], scan.coords) == Some([0])
    ensures WellFormed(scan, base) && !TiedOuter(scan) && SlotsReading(scan, base, {0}, tasks, [0, 0]) >= 2
  {
    SurfaceCoords(scan.coords);
    LevelFits(scan, base);
    LevelNames(scan);
    LevelCandidates(scan);
    UntiedByLength(scan, base);
    OnlyCandidate(scan, Candidate(1, 2, 2, 1));
    DropsSplit(scan);
    DroppedRepeats(scan, base, {0}, tasks, [0, 0]);
  }

  lemma DropsSplit(scan: Scan)
    requires scan == LevelGrid() && OuterCoord(scan) == Some(0)
    requires AxisCandidate(scan.dataVars[0], 1, scan.coords, {}) == Some(Candidate(1, 2, 2, 1))
    ensures !SpansSplits(scan, {0})
  {
    assert Splittable(scan, 1) && SplitCoord(scan, 1) == 1;
  }

  lemma DroppedRepeats(scan: Scan, base: seq<CoordSelection>, on: set<nat>, tasks: nat, survivor: seq<nat>)
    requires WellFormed(scan, base) && scan.limit.None? && !scan.virtualizarr && OuterCoord(scan).value in on
    requires |survivor| == |base| && Survives(scan, base, on, survivor) && !SpansSplits(scan, on) && scan.target == FullTarget(scan)
    ensures SlotsReading(scan, base, on, tasks, survivor) >= 2
  {
    FullTargetRepeats(scan, base, on, survivor[OuterCoord(scan).value]);
    PlanNonEmpty(scan, base);
    SlotsCountCell(scan, base, on, tasks, survivor);
  }
}
