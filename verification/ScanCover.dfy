/**
 When a scan reads every row exactly once, told from the store's metadata and the projection
 alone, for every parallelism.
 */
module ScanCover {
  import opened Options
  import opened Arithmetic
  import opened Selection
  import opened Partition
  import opened IndexPacking
  import opened TaskDealing
  import opened BoxProduct
  import opened FanOut
  import opened ScanPlan

  // ---------------------------------------------------------------------------------------------
  // When every row is read once, told from the metadata
  // ---------------------------------------------------------------------------------------------

  /** An inner axis that fan-out may split: named, unfiltered and of several chunks. */
  predicate Splittable(scan: Scan, a: nat)
    requires scan.dataVars != []
  {
    1 <= a < |scan.dataVars[0].shape| && AxisCandidate(scan.dataVars[0], a, scan.coords, scan.filtered).Some?
  }

  function SplitCoord(scan: Scan, a: nat): (k: nat)
    requires scan.dataVars != [] && Splittable(scan, a)
    ensures k < |scan.coords| && CoordIndexForAxis(scan.dataVars[0], a, scan.coords) == Some(k)
  {
    AxisCandidate(scan.dataVars[0], a, scan.coords, scan.filtered).value.coord
  }

  /**
   The outer coordinate, found by size, is also the coordinate that a splittable inner axis
   names, and the outer axis itself has several chunks.
   */
  predicate TiedOuter(scan: Scan)
    requires OuterCoord(scan).Some?
  {
    var v := scan.dataVars[0];
    && ChunkCount(OuterLen(v), OuterChunk(v)) > 1
    && exists a :: 0 <= a < |v.shape| && Splittable(scan, a) && SplitCoord(scan, a) == OuterCoord(scan).value
  }

  /** The coordinates looked at include the outer one and every one that may be split. */
  predicate SpansSplits(scan: Scan, on: set<nat>)
    requires OuterCoord(scan).Some?
  {
    && OuterCoord(scan).value in on
    && forall a :: 0 <= a < |scan.dataVars[0].shape| && Splittable(scan, a) ==> SplitCoord(scan, a) in on
  }

  predicate NothingSplittable(scan: Scan)
    requires scan.dataVars != []
  {
    forall a :: 0 <= a < |scan.dataVars[0].shape| ==> !Splittable(scan, a)
  }

  /** The outer selection is never cut: it lies in one chunk, or its scattered chunks never divide. */
  predicate Uncut(outer: OuterSelection, len: nat, chunk: nat) {
    match outer
    case Resolved(Range(s, e)) => OneChunk(s, e, chunk)
    case Resolved(Indices(positions)) => Undivided(positions, chunk)
    case Empty => true
    case Unfiltered => OneChunk(0, len, chunk)
  }

  predicate OneOuterPiece(scan: Scan)
    requires scan.dataVars != []
  {
    Uncut(scan.outer, OuterLen(scan.dataVars[0]), OuterChunk(scan.dataVars[0]))
  }

  /** The scan is planned as a single box, whatever the target. */
  predicate LoneBox(scan: Scan)
    requires scan.dataVars != [] && (OuterSel(scan).Range? ==> OuterSel(scan).start <= OuterSel(scan).end)
  {
    OuterSel(scan).IsEmpty() || (OneOuterPiece(scan) && NothingSplittable(scan))
  }

  /** The metadata condition for reading every row once. */
  ghost predicate ReadOnce(scan: Scan, on: set<nat>)
    requires OuterCoord(scan).Some? && OuterValid(scan)
  {
    LoneBox(scan) || (!TiedOuter(scan) && SpansSplits(scan, on))
  }

  lemma PlanAxisSplittable(scan: Scan, base: seq<CoordSelection>, i: nat) returns (a: nat)
    requires WellFormed(scan, base) && i < |PlanAxes(scan)|
    ensures Splittable(scan, a) && SplitCoord(scan, a) == PlanAxes(scan)[i].coord
    ensures AxisIs(PlanAxes(scan)[i], scan.dataVars[0], a, scan.coords, scan.filtered)
  {
    var v := scan.dataVars[0];
    OuterPiecesExact(scan);
    ChosenAxesExact(Specs(OuterPieces(scan)), v, scan.coords, scan.filtered, scan.target);
    assert AxisFrom(PlanAxes(scan)[i], v, scan.coords, scan.filtered);
    a :| 1 <= a < |v.shape| && AxisIs(PlanAxes(scan)[i], v, a, scan.coords, scan.filtered);
  }

  /** An outer slice is replaced only on a tied store. */
  lemma ClobbersOnlyTied(scan: Scan, base: seq<CoordSelection>)
    requires WellFormed(scan, base) && Clobbers(scan)
    ensures TiedOuter(scan)
  {
    var v, o, axes := scan.dataVars[0], OuterCoord(scan).value, PlanAxes(scan);
    var i :| 0 <= i < |axes| && axes[i].coord == o;
    var a := PlanAxisSplittable(scan, base, i);
    AxisCutsCount(OuterLen(v), OuterChunk(v), scan.target);
  }

  /** When no inner axis is as long as the outer one, the two lookups never meet. */
  lemma UntiedByLength(scan: Scan, base: seq<CoordSelection>)
    requires WellFormed(scan, base)
    requires var shape := scan.dataVars[0].shape; forall a :: 1 <= a < |shape| ==> shape[a] != shape[0]
    ensures !TiedOuter(scan)
  {
  }

  lemma {:induction false} InsideCopies(axes: seq<SplitAxis>, on: set<nat>)
    requires forall i :: 0 <= i < |axes| ==> axes[i].coord in on
    ensures OutsideCopies(axes, on) == 1
  {
    if axes != [] { InsideCopies(axes[..|axes| - 1], on); }
  }

  lemma {:induction false} SomeCopies(axes: seq<SplitAxis>, on: set<nat>)
    requires forall i :: 0 <= i < |axes| ==> |axes[i].pieces| > 1
    ensures OutsideCopies(axes, on) >= 1
    ensures (exists i :: 0 <= i < |axes| && axes[i].coord !in on) ==> OutsideCopies(axes, on) >= 2
  {
    if axes != [] {
      var last := |axes| - 1;
      SomeCopies(axes[..last], on);
      var n := if axes[last].coord in on then 1 else |axes[last].pieces|;
      MulMono(1, n, OutsideCopies(axes[..last], on));
      MulMono(1, OutsideCopies(axes[..last], on), n);
      if i :| 0 <= i < |axes| && axes[i].coord !in on {
        if i < last { assert axes[..last][i].coord !in on; }
      }
    }
  }

  /** One copy of everything, whatever the target. */
  lemma OneCopy(scan: Scan, base: seq<CoordSelection>, on: set<nat>)
    requires WellFormed(scan, base) && !TiedOuter(scan) && SpansSplits(scan, on)
    ensures Copies(scan, on) == 1
  {
    var axes := PlanAxes(scan);
    forall i | 0 <= i < |axes| ensures axes[i].coord in on {
      var a := PlanAxisSplittable(scan, base, i);
    }
    InsideCopies(axes, on);
    OuterPiecesExact(scan);
    if Clobbers(scan) { ClobbersOnlyTied(scan, base); }
  }

  /** The same scan, planned for another parallelism. */
  function Aimed(scan: Scan, target: nat): Scan { scan.(target := target) }

  /** How many pieces an outer selection is cut into. */
  ghost function PieceCount(outer: OuterSelection, len: nat, chunk: nat, target: nat): nat {
    match outer
    case Resolved(Range(s, e)) => |RangeCuts(s, e, chunk, target)|
    case Resolved(Indices(positions)) => |SplitIndices(positions, chunk, target)|
    case Empty => 1
    case Unfiltered => |RangeCuts(0, len, chunk, target)|
  }

  lemma UncutIff(outer: OuterSelection, len: nat, chunk: nat)
    ensures (forall target: nat :: PieceCount(outer, len, chunk, target) == 1) <==> Uncut(outer, len, chunk)
  {
    match outer
    case Resolved(Range(s, e)) =>
      OneChunkIff(s, e, chunk);
      assert forall target: nat :: PieceCount(outer, len, chunk, target) == |RangeCuts(s, e, chunk, target)|;
    case Resolved(Indices(positions)) =>
      UndividedIff(positions, chunk);
      assert forall target: nat :: PieceCount(outer, len, chunk, target) == |SplitIndices(positions, chunk, target)|;
    case Empty =>
    case Unfiltered =>
      OneChunkIff(0, len, chunk);
      assert forall target: nat :: PieceCount(outer, len, chunk, target) == |RangeCuts(0, len, chunk, target)|;
  }

  lemma PiecesCounted(scan: Scan)
    requires scan.dataVars != []
    ensures var v := scan.dataVars[0];
            |OuterPieces(scan)| == PieceCount(scan.outer, OuterLen(v), OuterChunk(v), scan.target)
  {
    var v := scan.dataVars[0];
    if scan.outer.Unfiltered? { PlannersAgree(OuterLen(v), OuterChunk(v), scan.target); }
  }

  /** The outer selection is one piece at every target if and only if the metadata say so. */
  lemma OneOuterPieceIff(scan: Scan)
    requires scan.dataVars != []
    ensures (forall target: nat :: |OuterPieces(Aimed(scan, target))| == 1) <==> OneOuterPiece(scan)
  {
    var v := scan.dataVars[0];
    var len, chunk := OuterLen(v), OuterChunk(v);
    forall target: nat ensures |OuterPieces(Aimed(scan, target))| == PieceCount(scan.outer, len, chunk, target) {
      PiecesCounted(Aimed(scan, target));
    }
    UncutIff(scan.outer, len, chunk);
  }

  lemma EmptyPiece(scan: Scan)
    requires scan.dataVars != [] && OuterValid(scan) && OuterSel(scan).IsEmpty()
    ensures |OuterPieces(scan)| == 1 && OuterPieces(scan)[0].Valid() && OuterPieces(scan)[0].IsEmpty()
  {
    OuterPiecesExact(scan);
    OuterPiecesFew(scan);
    SplitOfEmpty(OuterPieces(scan), OuterSel(scan), Max(1, OuterChunk(scan.dataVars[0])));
  }

  lemma SplitOfEmpty(pieces: seq<CoordSelection>, sel: CoordSelection, chunk: nat)
    requires chunk > 0 && sel.Valid() && sel.IsEmpty() && ExactSplit(pieces, sel, chunk)
    ensures pieces[0].IsEmpty()
  {
    EmptyHasNothing(sel);
    forall x: nat ensures !pieces[0].Has(x) { assert !sel.Has(x); }
    EmptyHasNothing(pieces[0]);
  }

  lemma EmptyPlan(scan: Scan)
    requires scan.dataVars != [] && OuterValid(scan) && OuterSel(scan).IsEmpty()
    ensures |OuterPieces(scan)| == 1 && PlanAxes(scan) == []
  {
    EmptyPiece(scan);
    OneSpec(OuterPieces(scan));
    PlanAxesAre(scan);
    EmptyDeclines(OuterPieces(scan), Specs(OuterPieces(scan)), scan.dataVars[0], scan.coords, scan.filtered, scan.target);
  }

  lemma OneSpec(pieces: seq<CoordSelection>)
    requires |pieces| == 1 && pieces[0].Valid()
    ensures forall s :: s in Specs(pieces) ==> s.extra == [] && (s.outer.Range? ==> s.outer.start <= s.outer.end)
  {
  }

  lemma PlanAxesAre(scan: Scan)
    requires scan.dataVars != [] && OuterValid(scan)
    requires forall s :: s in Specs(OuterPieces(scan)) ==> s.extra == [] && (s.outer.Range? ==> s.outer.start <= s.outer.end)
    ensures PlanAxes(scan) == ChosenAxes(Specs(OuterPieces(scan)), scan.dataVars[0], scan.coords, scan.filtered, scan.target)
  {
  }

  lemma EmptyDeclines(pieces: seq<CoordSelection>, outers: seq<PartitionSpec>, v: VarMeta, coords: seq<CoordMeta>, filtered: set<string>, target: nat)
    requires |pieces| == 1 && pieces[0].Valid() && pieces[0].IsEmpty() && outers == Specs(pieces)
    requires forall s :: s in outers ==> s.extra == [] && (s.outer.Range? ==> s.outer.start <= s.outer.end)
    ensures ChosenAxes(outers, v, coords, filtered, target) == []
  {
    assert outers[0] == FromOuter(pieces[0]);
  }

  lemma UnsplitPlan(scan: Scan, base: seq<CoordSelection>)
    requires WellFormed(scan, base) && OneOuterPiece(scan) && NothingSplittable(scan)
    ensures |OuterPieces(scan)| == 1 && PlanAxes(scan) == []
  {
    OneOuterPieceIff(scan);
    assert Aimed(scan, scan.target) == scan;
    if PlanAxes(scan) != [] {
      var a := PlanAxisSplittable(scan, base, 0);
      assert false;
    }
  }

  /** A lone box is the whole plan. */
  lemma LonePlan(scan: Scan, base: seq<CoordSelection>)
    requires WellFormed(scan, base) && scan.limit.None? && !scan.virtualizarr && LoneBox(scan)
    ensures |Plan(scan)| == 1 && PlanAxes(scan) == [] && |OuterPieces(scan)| == 1
  {
    if OuterSel(scan).IsEmpty() { EmptyPlan(scan); } else { UnsplitPlan(scan, base); }
    PlanUnsplit(scan);
  }

  lemma PlanUnsplit(scan: Scan)
    requires OuterCoord(scan).Some? && OuterValid(scan) && scan.limit.None? && !scan.virtualizarr && PlanAxes(scan) == []
    ensures |Plan(scan)| == |OuterPieces(scan)|
  {
  }

  /** On a tied store no box is alone. */
  lemma TiedNotLone(scan: Scan, base: seq<CoordSelection>)
    requires WellFormed(scan, base) && TiedOuter(scan)
    ensures !LoneBox(scan)
  {
    var a :| 0 <= a < |scan.dataVars[0].shape| && Splittable(scan, a) && SplitCoord(scan, a) == OuterCoord(scan).value;
    assert scan.outer.Unfiltered?;
  }

  /**
   End-to-end exact cover: every surviving row is emitted by exactly one partition slot of
   exactly one task, and every other row by none.
   */
  lemma ExactCover(scan: Scan, base: seq<CoordSelection>, on: set<nat>, tasks: nat, cell: seq<nat>)
    requires WellFormed(scan, base) && |cell| == |base| && scan.limit.None? && !scan.virtualizarr && ReadOnce(scan, on)
    ensures SlotsReading(scan, base, on, tasks, cell) == if Survives(scan, base, on, cell) then 1 else 0
  {
    PlanNonEmpty(scan, base);
    SlotsCountCell(scan, base, on, tasks, cell);
    if LoneBox(scan) {
      LonePlan(scan, base);
      assert OutsideCopies(PlanAxes(scan), on) == 1;
    } else {
      OneCopy(scan, base, on);
    }
  }

  ghost predicate OnceOrNever(scan: Scan, base: seq<CoordSelection>, on: set<nat>, tasks: nat, cell: seq<nat>) {
    && WellFormed(scan, base) && |cell| == |base|
    && SlotsReading(scan, base, on, tasks, cell) == if Survives(scan, base, on, cell) then 1 else 0
  }

  /** Whatever the target and the number of tasks, every surviving row is emitted once and no other is. */
  ghost predicate CoversOnce(scan: Scan, base: seq<CoordSelection>, on: set<nat>) {
    forall target: nat, tasks: nat, cell: seq<nat> :: |cell| == |base| ==> OnceOrNever(Aimed(scan, target), base, on, tasks, cell)
  }

  /** A target at which every splittable axis is split into its chunks. */
  ghost function FullTarget(scan: Scan): nat
    requires scan.dataVars != [] && OuterValid(scan)
  {
    Times(Max(1, OuterSel(scan).Len()), AllChunks(scan.dataVars[0], scan.coords, scan.filtered))
  }

  lemma OuterPiecesFew(scan: Scan)
    requires scan.dataVars != [] && OuterValid(scan)
    ensures |OuterPieces(scan)| <= Max(1, OuterSel(scan).Len())
  {
    var v := scan.dataVars[0];
    match scan.outer
    case Resolved(sel) => SplitCount(sel, OuterChunk(v), scan.target);
    case Empty =>
    case Unfiltered =>
      PlannersAgree(OuterLen(v), OuterChunk(v), scan.target);
      SplitCount(Range(0, OuterLen(v)), OuterChunk(v), scan.target);
  }

  lemma FullTargetFits(scan: Scan)
    requires scan.dataVars != [] && OuterValid(scan)
    ensures Times(|OuterPieces(scan)|, AllChunks(scan.dataVars[0], scan.coords, scan.filtered)) <= FullTarget(scan)
  {
    OuterPiecesFew(scan);
    MulMono(|OuterPieces(scan)|, Max(1, OuterSel(scan).Len()), AllChunks(scan.dataVars[0], scan.coords, scan.filtered));
  }

  lemma OutersNotEmpty(scan: Scan, x: nat)
    requires scan.dataVars != [] && OuterValid(scan) && OuterSel(scan).Has(x)
    ensures |OuterPieces(scan)| >= 1
    ensures |OuterPieces(scan)| == 1 ==> OuterPieces(scan)[0].Valid() && !OuterPieces(scan)[0].IsEmpty()
  {
    OuterPiecesExact(scan);
    PieceHolds(OuterPieces(scan), OuterSel(scan), Max(1, OuterChunk(scan.dataVars[0])), x);
  }

  lemma PieceHolds(pieces: seq<CoordSelection>, sel: CoordSelection, chunk: nat, x: nat)
    requires chunk > 0 && ExactSplit(pieces, sel, chunk) && sel.Has(x)
    ensures |pieces| >= 1
    ensures |pieces| == 1 ==> pieces[0].Valid() && !pieces[0].IsEmpty()
  {
    var i :| 0 <= i < |pieces| && pieces[i].Has(x);
    EmptyHasNothing(pieces[i]);
  }

  /** At the full target, a splittable axis is split into its chunks. */
  lemma FullySplit(scan: Scan, base: seq<CoordSelection>, a: nat, x: nat)
    requires WellFormed(scan, base) && OuterSel(scan).Has(x) && Splittable(scan, a)
    requires scan.target == FullTarget(scan)
    ensures FullSplit(AxisCandidate(scan.dataVars[0], a, scan.coords, scan.filtered).value) in PlanAxes(scan)
  {
    var outers := Specs(OuterPieces(scan));
    OuterPiecesExact(scan);
    FullTargetFits(scan);
    OutersNotEmpty(scan, x);
    FullFanOut(outers, scan.dataVars[0], scan.coords, scan.filtered, scan.target, a);
  }

  /** On a tied store, the full target cuts the outer axis too. */
  lemma TiedClobbers(scan: Scan, base: seq<CoordSelection>, x: nat)
    requires WellFormed(scan, base) && OuterSel(scan).Has(x) && TiedOuter(scan) && scan.target == FullTarget(scan)
    ensures Clobbers(scan)
  {
    var v, o := scan.dataVars[0], OuterCoord(scan).value;
    var a :| 0 <= a < |v.shape| && Splittable(scan, a) && SplitCoord(scan, a) == o;
    FullySplit(scan, base, a, x);
    var ax := FullSplit(AxisCandidate(v, a, scan.coords, scan.filtered).value);
    var i :| 0 <= i < |PlanAxes(scan)| && PlanAxes(scan)[i] == ax;
    assert scan.coords[o].name !in scan.filtered;
    OuterCutApart(scan);
  }

  lemma OuterCutApart(scan: Scan)
    requires scan.dataVars != [] && scan.outer.Unfiltered? && scan.target == FullTarget(scan)
    requires ChunkCount(OuterLen(scan.dataVars[0]), OuterChunk(scan.dataVars[0])) > 1
    ensures |OuterPieces(scan)| >= 2
  {
    var v := scan.dataVars[0];
    TargetReaches(scan);
    ChunkCountAtMost(OuterLen(v), OuterChunk(v));
    AxisCutsCount(OuterLen(v), OuterChunk(v), scan.target);
  }

  lemma ChunkCountAtMost(len: nat, chunkLen: nat)
    ensures ChunkCount(len, chunkLen) <= len
  {
    if len > 0 {
      var chunk := if chunkLen == 0 then len else chunkLen;
      MulMono(1, chunk, len);
      CeilDivLeast(len, chunk, len);
    }
  }

  lemma TargetReaches(scan: Scan)
    requires scan.dataVars != [] && scan.outer.Unfiltered?
    ensures FullTarget(scan) >= OuterLen(scan.dataVars[0])
  {
    var v := scan.dataVars[0];
    var cs := SortCandidates(CandidatesFrom(v, 1, scan.coords, scan.filtered));
    SortedCountable(v, scan.coords, scan.filtered);
    ProductOfChunksPositive(cs);
    MulMono(1, ProductOfChunks(cs), Max(1, OuterLen(v)));
  }

  lemma TimesAtLeast(a: nat, b: nat)
    requires a >= 1 && b >= 1 && (a >= 2 || b >= 2)
    ensures Times(a, b) >= 2
  {
    MulMono(1, a, b);
    MulMono(1, b, a);
  }

  lemma PlanAxesSplit(scan: Scan, base: seq<CoordSelection>)
    requires WellFormed(scan, base)
    ensures forall i :: 0 <= i < |PlanAxes(scan)| ==> |PlanAxes(scan)[i].pieces| > 1
  {
    forall i | 0 <= i < |PlanAxes(scan)| ensures |PlanAxes(scan)[i].pieces| > 1 {
      var a := PlanAxisSplittable(scan, base, i);
    }
  }

  lemma DroppedSplit(scan: Scan, base: seq<CoordSelection>, on: set<nat>, x: nat) returns (i: nat)
    requires WellFormed(scan, base) && OuterSel(scan).Has(x) && scan.target == FullTarget(scan)
    requires OuterCoord(scan).value in on && !SpansSplits(scan, on)
    ensures i < |PlanAxes(scan)| && PlanAxes(scan)[i].coord !in on
  {
    var v := scan.dataVars[0];
    var a :| 0 <= a < |v.shape| && Splittable(scan, a) && SplitCoord(scan, a) !in on;
    FullySplit(scan, base, a, x);
    i :| 0 <= i < |PlanAxes(scan)| && PlanAxes(scan)[i] == FullSplit(AxisCandidate(v, a, scan.coords, scan.filtered).value);
  }

  /** At the full target a store that is tied, or splits a dropped coordinate, repeats its rows. */
  lemma FullTargetRepeats(scan: Scan, base: seq<CoordSelection>, on: set<nat>, x: nat)
    requires WellFormed(scan, base) && OuterSel(scan).Has(x) && scan.target == FullTarget(scan)
    requires OuterCoord(scan).value in on && (TiedOuter(scan) || !SpansSplits(scan, on))
    ensures Copies(scan, on) >= 2
  {
    PlanAxesSplit(scan, base);
    SomeCopies(PlanAxes(scan), on);
    OuterPiecesExact(scan);
    if TiedOuter(scan) {
      TiedClobbers(scan, base, x);
    } else {
      var i := DroppedSplit(scan, base, on, x);
      assert PlanAxes(scan)[i].coord !in on;
    }
    TimesAtLeast(OuterCopies(scan, on), OutsideCopies(PlanAxes(scan), on));
  }

  lemma CopiesPositive(scan: Scan, base: seq<CoordSelection>, on: set<nat>)
    requires WellFormed(scan, base)
    ensures Copies(scan, on) >= 1
  {
    PlanAxesSplit(scan, base);
    SomeCopies(PlanAxes(scan), on);
    OuterPiecesExact(scan);
    MulMono(1, OuterCopies(scan, on), OutsideCopies(PlanAxes(scan), on));
  }

  lemma Divides(count: nat, tasks: nat, c: nat)
    requires tasks > 0 && tasks * c == count
    ensures count % tasks == 0
  {
    DivUnique(count, tasks, c);
  }

  lemma UnevenPads(count: nat, tasks: nat)
    requires count >= 2 && tasks >= 2 && count % tasks != 0
    ensures PaddedSlots(count, tasks) >= 1
  {
    PaddedSlotsFill(count, tasks);
    CeilDivBounds(count, tasks);
    var slots := tasks * CeilDiv(count, tasks);
    if slots == count { Divides(count, tasks, CeilDiv(count, tasks)); }
  }

  /**
   Without the outer coordinate even padding emits the row: whenever the tasks do not divide the
   partitions, as when three are dealt to two, a surviving row is emitted more than once.
   */
  lemma PaddingRepeats(scan: Scan, base: seq<CoordSelection>, on: set<nat>, tasks: nat, cell: seq<nat>)
    requires WellFormed(scan, base) && |cell| == |base| && |Plan(scan)| >= 2 && tasks >= 2 && |Plan(scan)| % tasks != 0
    requires OuterCoord(scan).value !in on && Survives(scan, base, on, cell)
    ensures SlotsReading(scan, base, on, tasks, cell) >= 2
  {
    CopiesPositive(scan, base, on);
    UnevenPads(|Plan(scan)|, tasks);
    SlotsCountCell(scan, base, on, tasks, cell);
  }

  /** At the full target a splittable axis makes several partitions. */
  lemma SplitPlan(scan: Scan, base: seq<CoordSelection>, a: nat, x: nat)
    requires WellFormed(scan, base) && scan.limit.None? && !scan.virtualizarr && OuterSel(scan).Has(x)
    requires Splittable(scan, a) && scan.target == FullTarget(scan)
    ensures |Plan(scan)| >= 2
  {
    var axes, outers := PlanAxes(scan), Specs(OuterPieces(scan));
    FullySplit(scan, base, a, x);
    PlanNonEmpty(scan, base);
    PlanIsProduct(scan);
    PlanAxesSplit(scan, base);
    OuterPiecesExact(scan);
    ManyBoxes(axes);
    CombosLength(axes);
    BoxesLength(outers, Combos(axes));
    MulMono(1, |outers|, |Combos(axes)|);
  }

  /**
   For any target and any number of tasks every surviving row is emitted exactly once, and no
   other, if and only if the scan is always a single box, or the store is not tied and the
   projection depends on the outer coordinate and on every coordinate that may be split.
   */
  lemma ProjectedCoverIff(scan: Scan, base: seq<CoordSelection>, on: set<nat>, survivor: seq<nat>)
    requires WellFormed(scan, base) && scan.limit.None? && !scan.virtualizarr
    requires |survivor| == |base| && Survives(scan, base, on, survivor)
    ensures CoversOnce(scan, base, on) <==> ReadOnce(scan, on)
  {
    if ReadOnce(scan, on) {
      forall target: nat, tasks: nat, cell: seq<nat> | |cell| == |base|
        ensures OnceOrNever(Aimed(scan, target), base, on, tasks, cell)
      {
        AimedAlike(scan, base, on, target, cell);
        LoneAlike(scan, target);
        ExactCover(Aimed(scan, target), base, on, tasks, cell);
      }
    } else {
      var bad, tasks := Repeated(scan, base, on, survivor);
      assert !OnceOrNever(Aimed(scan, bad), base, on, tasks, survivor);
    }
  }

  /** A target and a number of tasks at which the row is emitted more than once. */
  lemma Repeated(scan: Scan, base: seq<CoordSelection>, on: set<nat>, survivor: seq<nat>) returns (target: nat, tasks: nat)
    requires WellFormed(scan, base) && scan.limit.None? && !scan.virtualizarr
    requires |survivor| == |base| && Survives(scan, base, on, survivor) && !ReadOnce(scan, on)
    ensures WellFormed(Aimed(scan, target), base) && Survives(Aimed(scan, target), base, on, survivor)
    ensures SlotsReading(Aimed(scan, target), base, on, tasks, survivor) >= 2
  {
    if OuterCoord(scan).value in on {
      target, tasks := FullTarget(scan), 1;
      var s := Aimed(scan, target);
      AimedAlike(scan, base, on, target, survivor);
      FullTargetRepeats(s, base, on, survivor[OuterCoord(s).value]);
      PlanNonEmpty(s, base);
      SlotsCountCell(s, base, on, tasks, survivor);
    } else if !OneOuterPiece(scan) {
      tasks := 1;
      target := OuterRepeats(scan, base, on, survivor);
    } else {
      target := FullTarget(scan);
      tasks := SplitRepeats(scan, base, on, survivor);
    }
  }

  /** An outer selection that is cut repeats the rows of a projection without its coordinate. */
  lemma OuterRepeats(scan: Scan, base: seq<CoordSelection>, on: set<nat>, survivor: seq<nat>) returns (target: nat)
    requires WellFormed(scan, base) && scan.limit.None? && !scan.virtualizarr && !OneOuterPiece(scan)
    requires |survivor| == |base| && Survives(scan, base, on, survivor) && OuterCoord(scan).value !in on
    ensures WellFormed(Aimed(scan, target), base) && Survives(Aimed(scan, target), base, on, survivor)
    ensures SlotsReading(Aimed(scan, target), base, on, 1, survivor) >= 2
  {
    OneOuterPieceIff(scan);
    target :| |OuterPieces(Aimed(scan, target))| != 1;
    var s := Aimed(scan, target);
    AimedAlike(scan, base, on, target, survivor);
    OuterPiecesExact(s);
    PlanAxesSplit(s, base);
    SomeCopies(PlanAxes(s), on);
    TimesAtLeast(OuterCopies(s, on), OutsideCopies(PlanAxes(s), on));
    PlanNonEmpty(s, base);
    SlotsCountCell(s, base, on, 1, survivor);
  }

  /** So does a splittable axis, through the padding of a task too many. */
  lemma SplitRepeats(scan: Scan, base: seq<CoordSelection>, on: set<nat>, survivor: seq<nat>) returns (tasks: nat)
    requires WellFormed(scan, base) && scan.limit.None? && !scan.virtualizarr && !LoneBox(scan) && OneOuterPiece(scan)
    requires |survivor| == |base| && Survives(scan, base, on, survivor) && OuterCoord(scan).value !in on
    ensures var s := Aimed(scan, FullTarget(scan));
            WellFormed(s, base) && Survives(s, base, on, survivor) && SlotsReading(s, base, on, tasks, survivor) >= 2
  {
    var s := Aimed(scan, FullTarget(scan));
    AimedAlike(scan, base, on, FullTarget(scan), survivor);
    var a, x := SplittableReached(scan);
    assert Splittable(s, a);
    SplitPlan(s, base, a, x);
    tasks := OneTooMany(|Plan(s)|);
    PaddingRepeats(s, base, on, tasks, survivor);
  }

  lemma OneTooMany(n: nat) returns (tasks: nat)
    requires n >= 2
    ensures tasks >= 2 && n % tasks != 0
  {
    tasks := n + 1;
    DivUnique(n, tasks, 0);
  }

  lemma SplittableReached(scan: Scan) returns (a: nat, x: nat)
    requires scan.dataVars != [] && OuterValid(scan) && !LoneBox(scan) && OneOuterPiece(scan)
    ensures Splittable(scan, a) && OuterSel(scan).Has(x)
  {
    a :| 0 <= a < |scan.dataVars[0].shape| && Splittable(scan, a);
    EmptyHasNothing(OuterSel(scan));
    x :| OuterSel(scan).Has(x);
  }

  /** Nothing but the plan depends on the target. */
  lemma AimedAlike(scan: Scan, base: seq<CoordSelection>, on: set<nat>, target: nat, cell: seq<nat>)
    requires WellFormed(scan, base) && |cell| == |base|
    ensures var s := Aimed(scan, target);
            && WellFormed(s, base) && OuterCoord(s) == OuterCoord(scan) && OuterSel(s) == OuterSel(scan)
            && (TiedOuter(s) <==> TiedOuter(scan)) && (SpansSplits(s, on) <==> SpansSplits(scan, on))
            && (Survives(s, base, on, cell) <==> Survives(scan, base, on, cell))
            && FullTarget(s) == FullTarget(scan)
  {
    TiedAlike(scan, on, target);
  }

  lemma TiedAlike(scan: Scan, on: set<nat>, target: nat)
    requires OuterCoord(scan).Some?
    ensures var s := Aimed(scan, target);
            && OuterCoord(s) == OuterCoord(scan) && OuterSel(s) == OuterSel(scan)
            && (TiedOuter(s) <==> TiedOuter(scan)) && (SpansSplits(s, on) <==> SpansSplits(scan, on))
  {
    var s := Aimed(scan, target);
    assert forall a :: Splittable(s, a) <==> Splittable(scan, a);
    assert forall a :: Splittable(s, a) ==> SplitCoord(s, a) == SplitCoord(scan, a);
  }

  lemma LoneAlike(scan: Scan, target: nat)
    requires scan.dataVars != [] && OuterValid(scan)
    ensures var s := Aimed(scan, target);
            OuterValid(s) && (OneOuterPiece(s) <==> OneOuterPiece(scan)) && (LoneBox(s) <==> LoneBox(scan))
  {
    var s := Aimed(scan, target);
    assert s.outer == scan.outer && s.dataVars == scan.dataVars && OuterSel(s) == OuterSel(scan);
    assert forall a :: Splittable(s, a) <==> Splittable(scan, a);
  }

  /** When all coordinates are looked at, exact cover at every target is exactly the absence of a tie. */
  lemma ExactCoverIff(scan: Scan, base: seq<CoordSelection>, on: set<nat>, survivor: seq<nat>)
    requires WellFormed(scan, base) && scan.limit.None? && !scan.virtualizarr
    requires |survivor| == |base| && Survives(scan, base, on, survivor) && forall k: nat :: k < |base| ==> k in on
    ensures CoversOnce(scan, base, on) <==> !TiedOuter(scan)
  {
    assert SpansSplits(scan, on);
    if TiedOuter(scan) { TiedNotLone(scan, base); }
    ProjectedCoverIff(scan, base, on, survivor);
  }
}
