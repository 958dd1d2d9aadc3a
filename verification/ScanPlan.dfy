/**
 The planned scan end to end: outer split, inner fan-out, dealing to tasks, and what the
 reader makes of each partition.
 */
module ScanPlan {
  import opened Options
  import opened Arithmetic
  import opened Selection
  import opened Partition
  import opened IndexPacking
  import opened TaskDealing
  import opened BoxProduct
  import opened FanOut

  /** Outcome of resolving the outer filter; a read error falls back to `Unfiltered`. */
  datatype OuterSelection = Resolved(sel: CoordSelection) | Empty | Unfiltered

  datatype Scan = Scan(
    limit: Option<nat>,
    virtualizarr: bool,
    coords: seq<CoordMeta>,
    dataVars: seq<VarMeta>,
    filtered: set<string>,
    outer: OuterSelection,
    target: nat)

  /** A resolved outer selection is a valid one. */
  ghost predicate OuterValid(scan: Scan) {
    scan.outer.Resolved? ==> scan.outer.sel.Valid()
  }

  // ---------------------------------------------------------------------------------------------
  // Planning
  // ---------------------------------------------------------------------------------------------

  function PositionBySize(coords: seq<CoordMeta>, size: nat): (r: Option<nat>)
    ensures r.Some? ==> r.value < |coords| && coords[r.value].size == size
                        && forall k :: 0 <= k < r.value ==> coords[k].size != size
    ensures r.None? ==> forall k :: 0 <= k < |coords| ==> coords[k].size != size
  {
    if coords == [] then None
    else if coords[0].size == size then Some(0)
    else
      var rest := PositionBySize(coords[1..], size);
      if rest.Some? then Some(rest.value + 1) else None
  }

  function OuterLen(v: VarMeta): nat { if v.shape == [] then 0 else v.shape[0] }

  /** The outer chunk length as planned; an unchunked axis is one chunk. */
  function OuterChunk(v: VarMeta): nat {
    if v.chunks.Some? && |v.chunks.value| > 0 then v.chunks.value[0] else OuterLen(v)
  }

  /** The selection on the outer coordinate that the plan splits. */
  function OuterSel(scan: Scan): CoordSelection
    requires scan.dataVars != []
  {
    match scan.outer
    case Resolved(sel) => sel
    case Empty => Range(0, 0)
    case Unfiltered => Range(0, OuterLen(scan.dataVars[0]))
  }

  function OuterPieces(scan: Scan): seq<CoordSelection>
    requires scan.dataVars != []
  {
    var v := scan.dataVars[0];
    match scan.outer
    case Resolved(sel) => SplitSelection(sel, OuterChunk(v), scan.target)
    case Empty => [Range(0, 0)]
    case Unfiltered => ToRanges(AxisCuts(OuterLen(v), OuterChunk(v), scan.target))
  }

  /** The outer coordinate: the first whose size is the outer axis length. */
  function OuterCoord(scan: Scan): Option<nat> {
    if scan.dataVars == [] then None else PositionBySize(scan.coords, OuterLen(scan.dataVars[0]))
  }

  /** Planned partitions; the empty list stands for one unpartitioned read. */
  function Plan(scan: Scan): seq<PartitionSpec>
    requires OuterValid(scan)
  {
    if scan.limit.Some? || scan.virtualizarr || OuterCoord(scan).None? then []
    else
      OuterPiecesExact(scan);
      FanOutInner(Specs(OuterPieces(scan)), scan.dataVars[0], scan.coords, scan.filtered, scan.target)
  }

  lemma OuterPiecesExact(scan: Scan)
    requires scan.dataVars != [] && OuterValid(scan)
    ensures ExactSplit(OuterPieces(scan), OuterSel(scan), Max(1, OuterChunk(scan.dataVars[0])))
    ensures |OuterPieces(scan)| <= Max(1, scan.target)
  {
    var v := scan.dataVars[0];
    match scan.outer
    case Resolved(sel) => SplitIsExact(sel, OuterChunk(v), scan.target);
    case Empty =>
    case Unfiltered =>
      PlannersAgree(OuterLen(v), OuterChunk(v), scan.target);
      RangeSplitIsExact(0, OuterLen(v), OuterChunk(v), scan.target);
  }

  /**
   The outer split in full: the resolved selection, or the whole outer axis, is split at the target
   on the variable's own outer chunks; an unchunked axis is one chunk, and a filter that matched
   nothing leaves one empty piece.
   */
  lemma OuterPiecesAre(scan: Scan, len: nat, chunk: nat)
    requires scan.dataVars != [] && OuterValid(scan) && scan.dataVars[0].shape != [] && len == scan.dataVars[0].shape[0]
    requires var chunks := scan.dataVars[0].chunks; chunk == if chunks.Some? && chunks.value != [] then chunks.value[0] else len
    ensures match scan.outer
            case Resolved(sel) => SplitsAt(OuterPieces(scan), sel, chunk, scan.target)
            case Empty => OuterPieces(scan) == [Range(0, 0)]
            case Unfiltered => SplitsAt(OuterPieces(scan), Range(0, len), chunk, scan.target)
  {
    match scan.outer
    case Resolved(sel) => SplitSelectionIs(sel, chunk, scan.target);
    case Empty =>
    case Unfiltered =>
      PlannersAgree(len, chunk, scan.target);
      SplitSelectionIs(Range(0, len), chunk, scan.target);
  }

  /**
   A scan is left unpartitioned exactly when it has a limit, its store cannot be sliced, it has no
   data variable, or no coordinate is as long as the outer axis.
   */
  lemma PlanEmptyIff(scan: Scan)
    requires OuterValid(scan)
    ensures Plan(scan) == [] <==>
            || scan.limit.Some? || scan.virtualizarr || scan.dataVars == []
            || (var shape := scan.dataVars[0].shape;
                forall k :: 0 <= k < |scan.coords| ==> scan.coords[k].size != if shape == [] then 0 else shape[0])
  {
    if scan.limit.None? && !scan.virtualizarr && OuterCoord(scan).Some? {
      OuterPiecesExact(scan);
      SomePartition(Specs(OuterPieces(scan)), scan.dataVars[0], scan.coords, scan.filtered, scan.target);
    }
  }

  /** Never more partitions than the target (and one always suffices). */
  lemma PlanWithinTarget(scan: Scan)
    requires OuterValid(scan)
    ensures |Plan(scan)| <= Max(1, scan.target)
  {
    if Plan(scan) != [] {
      OuterPiecesExact(scan);
      FanOutWithinTarget(Specs(OuterPieces(scan)), scan.dataVars[0], scan.coords, scan.filtered, scan.target);
    }
  }

  /**
   A scan whose outer pieces fill at most half the target gets at least twice as many partitions
   when some inner axis offers chunks, and leaves such an axis whole only when its partitions more
   than half fill the target.
   */
  lemma PlanUsesTarget(scan: Scan, a: nat)
    requires OuterValid(scan) && Plan(scan) != [] && !OuterSel(scan).IsEmpty() && 2 * |OuterPieces(scan)| <= scan.target
    requires 1 <= a && OffersChunks(scan.dataVars[0], a, scan.coords, scan.filtered)
    ensures |Plan(scan)| >= 2 * |OuterPieces(scan)|
    ensures Chosen(PlanAxes(scan), scan.dataVars[0], a, scan.coords) || 2 * |Plan(scan)| > scan.target
  {
    OuterPiecesExact(scan);
    OuterSelects(scan);
    FanOutUsesTarget(Specs(OuterPieces(scan)), scan.dataVars[0], scan.coords, scan.filtered, scan.target, a);
  }

  /** A single outer piece selects something when the outer selection does. */
  lemma OuterSelects(scan: Scan)
    requires scan.dataVars != [] && OuterValid(scan) && !OuterSel(scan).IsEmpty()
    ensures |OuterPieces(scan)| == 1 && OuterPieces(scan)[0].Valid() ==> !OuterPieces(scan)[0].IsEmpty()
  {
    OuterPiecesExact(scan);
    LonePieceSelects(OuterPieces(scan), OuterSel(scan), Max(1, OuterChunk(scan.dataVars[0])));
  }

  lemma LonePieceSelects(pieces: seq<CoordSelection>, sel: CoordSelection, chunk: nat)
    requires sel.Valid() && !sel.IsEmpty() && chunk > 0 && ExactSplit(pieces, sel, chunk)
    ensures |pieces| == 1 && pieces[0].Valid() ==> !pieces[0].IsEmpty()
  {
    EmptyHasNothing(sel);
    var x: nat :| sel.Has(x);
    var i :| 0 <= i < |pieces| && pieces[i].Has(x);
  }

  /** `split_selection` and the outer-split match of `plan_scan_partitions`. */
  method SplitOuter(scan: Scan) returns (specs: seq<PartitionSpec>)
    requires scan.dataVars != [] && OuterValid(scan)
    ensures specs == Specs(OuterPieces(scan))
  {
    var v := scan.dataVars[0];
    match scan.outer
    case Resolved(Range(s, e)) =>
      var cuts := SplitRange(s, e, OuterChunk(v), scan.target);
      specs := Specs(ToRanges(cuts));
    case Resolved(Indices(positions)) =>
      var lists := SplitIndexList(positions, OuterChunk(v), scan.target);
      specs := Specs(ToIndices(lists));
    case Empty => specs := [EMPTY_SPEC];
    case Unfiltered => specs := PlanAxis(OuterLen(v), OuterChunk(v), scan.target);
  }

  /** The whole of `plan_scan_partitions`, never more than the target's worth of partitions. */
  method PlanScan(scan: Scan) returns (plan: seq<PartitionSpec>)
    requires OuterValid(scan)
    ensures plan == Plan(scan) && |plan| <= Max(1, scan.target)
  {
    PlanWithinTarget(scan);
    if scan.limit.Some? || scan.virtualizarr || OuterCoord(scan).None? { return []; }
    OuterPiecesExact(scan);
    var outers := SplitOuter(scan);
    plan := FanOutScan(outers, scan.dataVars[0], scan.coords, scan.filtered, scan.target);
  }

  // ---------------------------------------------------------------------------------------------
  // Reading
  // ---------------------------------------------------------------------------------------------

  /** Each inner restriction replaces its coordinate's selection. */
  function ApplyExtra(sels: seq<CoordSelection>, extra: Extra): (r: seq<CoordSelection>)
    ensures |r| == |sels|
    decreases |extra|
  {
    if extra == [] then sels
    else
      var (k, sel) := extra[0];
      ApplyExtra(if k < |sels| then sels[k := sel] else sels, extra[1..])
  }

  /** The per-coordinate selections a partition reads, from the filters' selections `base`. */
  function ReaderSelections(base: seq<CoordSelection>, outer: nat, spec: PartitionSpec): (r: seq<CoordSelection>)
    requires outer < |base|
    ensures |r| == |base|
  {
    ApplyExtra(base[outer := spec.outer], spec.extra)
  }

  /**
   A row as the partition emits it: only the coordinates `on` which the projection depends are
   looked at, the others are dropped.
   */
  ghost predicate Reads(base: seq<CoordSelection>, outer: nat, on: set<nat>, spec: PartitionSpec, cell: seq<nat>)
    requires outer < |base| == |cell|
  {
    forall k :: 0 <= k < |cell| && k in on ==> ReaderSelections(base, outer, spec)[k].Has(cell[k])
  }

  ghost function ReadsCell(base: seq<CoordSelection>, outer: nat, on: set<nat>, cell: seq<nat>): PartitionSpec -> bool
    requires outer < |base| == |cell|
  {
    (spec: PartitionSpec) => Reads(base, outer, on, spec, cell)
  }

  /** What a store and its resolved filters look like when the scan is planned. */
  ghost predicate WellFormed(scan: Scan, base: seq<CoordSelection>) {
    && OuterCoord(scan).Some?
    && |base| == |scan.coords|
    && var v, o := scan.dataVars[0], OuterCoord(scan).value;
    && |v.shape| > 0
    && DistinctDims(v)
    // a coordinate named like a dimension has that dimension's length
    && (forall a :: 1 <= a < |v.shape| && CoordIndexForAxis(v, a, scan.coords).Some? ==>
          scan.coords[CoordIndexForAxis(v, a, scan.coords).value].size == v.shape[a])
    // an unfiltered coordinate is read in full
    && (forall k :: 0 <= k < |base| && scan.coords[k].name !in scan.filtered ==> base[k] == Range(0, scan.coords[k].size))
    // an outer filter resolves only when there is one
    && OuterValid(scan)
    && (!scan.outer.Unfiltered? ==> scan.coords[o].name in scan.filtered)
  }

  /** The cells the scan owes: surviving outer positions, and the other coordinates' selections. */
  ghost predicate Survives(scan: Scan, base: seq<CoordSelection>, on: set<nat>, cell: seq<nat>)
    requires WellFormed(scan, base) && |cell| == |base|
  {
    && (OuterCoord(scan).value in on ==> OuterSel(scan).Has(cell[OuterCoord(scan).value]))
    && forall k :: 0 <= k < |base| && k in on && k != OuterCoord(scan).value ==> base[k].Has(cell[k])
  }

  ghost function PlanAxes(scan: Scan): seq<SplitAxis>
    requires scan.dataVars != [] && OuterValid(scan)
  {
    OuterPiecesExact(scan);
    ChosenAxes(Specs(OuterPieces(scan)), scan.dataVars[0], scan.coords, scan.filtered, scan.target)
  }

  ghost predicate Splits(axes: seq<SplitAxis>, coord: nat) {
    exists i :: 0 <= i < |axes| && axes[i].coord == coord
  }

  /**
   The outer coordinate is found by size, the inner ones by name. On a store where both find
   the same coordinate, the inner slice replaces the outer slice the partition was given.
   */
  ghost predicate Clobbers(scan: Scan)
    requires OuterCoord(scan).Some? && OuterValid(scan)
  {
    |OuterPieces(scan)| >= 2 && Splits(PlanAxes(scan), OuterCoord(scan).value)
  }

  // ---------------------------------------------------------------------------------------------
  // The reader's box is the product of its slices
  // ---------------------------------------------------------------------------------------------

  ghost predicate DistinctExtra(extra: Extra) {
    forall i, j :: 0 <= i < j < |extra| ==> extra[i].0 != extra[j].0
  }

  lemma {:induction false} ApplyExtraMiss(sels: seq<CoordSelection>, extra: Extra, k: nat)
    requires k < |sels| && forall i :: 0 <= i < |extra| ==> extra[i].0 != k
    ensures ApplyExtra(sels, extra)[k] == sels[k]
    decreases |extra|
  {
    if extra != [] {
      ApplyExtraMiss(if extra[0].0 < |sels| then sels[extra[0].0 := extra[0].1] else sels, extra[1..], k);
    }
  }

  lemma {:induction false} ApplyExtraHit(sels: seq<CoordSelection>, extra: Extra, i: nat)
    requires i < |extra| && extra[i].0 < |sels| && DistinctExtra(extra)
    ensures ApplyExtra(sels, extra)[extra[i].0] == extra[i].1
    decreases |extra|
  {
    var next := if extra[0].0 < |sels| then sels[extra[0].0 := extra[0].1] else sels;
    if i == 0 {
      ApplyExtraMiss(next, extra[1..], extra[0].0);
    } else {
      ApplyExtraHit(next, extra[1..], i - 1);
    }
  }

  /** The coordinates a box leaves to the filters select the cell. */
  ghost predicate OthersSelect(base: seq<CoordSelection>, outer: nat, on: set<nat>, axes: seq<SplitAxis>, cell: seq<nat>)
    requires |cell| == |base|
  {
    forall k :: 0 <= k < |base| && k in on && k != outer && !Splits(axes, k) ==> base[k].Has(cell[k])
  }

  ghost function OuterHit(ignored: bool, x: nat): CoordSelection -> bool {
    (sel: CoordSelection) => ignored || sel.Has(x)
  }

  /** The outer slice plays no part when it is replaced or when its coordinate is dropped. */
  ghost predicate OuterIgnored(axes: seq<SplitAxis>, outer: nat, on: set<nat>) {
    Splits(axes, outer) || outer !in on
  }

  ghost function BoxHit(axes: seq<SplitAxis>, outer: nat, on: set<nat>, cell: seq<nat>): PartitionSpec -> bool
    requires outer < |cell|
  {
    BoxProbe(OuterHit(OuterIgnored(axes, outer, on), cell[outer]), CellProbe(on, cell))
  }

  /** The selections a box leaves the reader with. */
  lemma BoxSelections(base: seq<CoordSelection>, outer: nat, spec: PartitionSpec, axes: seq<SplitAxis>)
    requires outer < |base| && OfAxes(spec.extra, axes) && DistinctAxes(axes)
    requires forall i :: 0 <= i < |axes| ==> axes[i].coord < |base|
    ensures var sels := ReaderSelections(base, outer, spec);
            && (forall i :: 0 <= i < |axes| ==> sels[axes[i].coord] == spec.extra[i].1)
            && (forall k :: 0 <= k < |base| && !Splits(axes, k) ==> sels[k] == if k == outer then spec.outer else base[k])
  {
    var extra, sels := spec.extra, ReaderSelections(base, outer, spec);
    assert DistinctExtra(extra);
    forall i | 0 <= i < |axes| ensures sels[axes[i].coord] == extra[i].1 {
      ApplyExtraHit(base[outer := spec.outer], extra, i);
    }
    forall k | 0 <= k < |base| && !Splits(axes, k) ensures sels[k] == if k == outer then spec.outer else base[k] {
      ApplyExtraMiss(base[outer := spec.outer], extra, k);
    }
  }

  lemma BoxReads(base: seq<CoordSelection>, outer: nat, on: set<nat>, spec: PartitionSpec, axes: seq<SplitAxis>, cell: seq<nat>)
    requires outer < |base| == |cell| && OfAxes(spec.extra, axes) && DistinctAxes(axes)
    requires forall i :: 0 <= i < |axes| ==> axes[i].coord < |base|
    ensures Reads(base, outer, on, spec, cell)
            <==> BoxHit(axes, outer, on, cell)(spec) && OthersSelect(base, outer, on, axes, cell)
  {
    var extra := spec.extra;
    var sels := ReaderSelections(base, outer, spec);
    BoxSelections(base, outer, spec, axes);
    assert BoxHit(axes, outer, on, cell)(spec)
      <==> (OuterIgnored(axes, outer, on) || spec.outer.Has(cell[outer])) && HitsAll(extra, CellProbe(on, cell));
    if HitsAll(extra, CellProbe(on, cell)) {
      forall k | 0 <= k < |cell| && k in on && Splits(axes, k) ensures sels[k].Has(cell[k]) {
        var i :| 0 <= i < |axes| && axes[i].coord == k;
        assert CellProbe(on, cell)(extra[i].0, extra[i].1);
      }
    }
    if Reads(base, outer, on, spec, cell) {
      forall i | 0 <= i < |extra| ensures CellProbe(on, cell)(extra[i].0, extra[i].1) {
        assert extra[i].0 in on ==> sels[extra[i].0].Has(cell[extra[i].0]);
      }
      if !OuterIgnored(axes, outer, on) { assert sels[outer].Has(cell[outer]); }
      forall k | 0 <= k < |base| && k in on && k != outer && !Splits(axes, k) ensures base[k].Has(cell[k]) {
        assert sels[k].Has(cell[k]);
      }
    }
  }

  lemma {:induction false} BoxesTrivial(outers: seq<PartitionSpec>)
    requires forall s :: s in outers ==> s.extra == []
    ensures Boxes(outers, Combos([])) == outers
  {
    if outers != [] {
      BoxesTrivial(outers[1..]);
      var empty: Extra := [];
      assert Combos([]) == [empty];
      assert BoxRow(outers[0].outer, [empty]) == [outers[0]] + BoxRow(outers[0].outer, [empty][1..]);
      assert outers == [outers[0]] + outers[1..];
    }
  }

  /** Whether or not fan-out declines, the plan is the product of outer pieces and chosen axes. */
  lemma PlanIsProduct(scan: Scan)
    requires OuterValid(scan) && Plan(scan) != []
    ensures OuterCoord(scan).Some?
    ensures Plan(scan) == Boxes(Specs(OuterPieces(scan)), Combos(PlanAxes(scan)))
  {
    OuterPiecesExact(scan);
    if PlanAxes(scan) == [] { BoxesTrivial(Specs(OuterPieces(scan))); }
  }

  lemma PlanSpecs(scan: Scan, spec: PartitionSpec)
    requires OuterValid(scan) && spec in Plan(scan)
    ensures OfAxes(spec.extra, PlanAxes(scan))
  {
    PlanIsProduct(scan);
    BoxOfAxes(Specs(OuterPieces(scan)), PlanAxes(scan), spec);
  }

  lemma {:induction false} SpecsCountAsPieces(pieces: seq<CoordSelection>, coord: nat, outerHit: CoordSelection -> bool, hit: Probe)
    requires forall s :: outerHit(s) == hit(coord, s)
    ensures CountSpecs(Specs(pieces), OuterProbe(outerHit)) == CountPieces(pieces, coord, hit)
  {
    if pieces != [] {
      SpecsCountAsPieces(pieces[1..], coord, outerHit, hit);
      assert Specs(pieces)[1..] == Specs(pieces[1..]);
    }
  }

  /** The cell is in range on every split axis that is looked at. */
  ghost predicate InRange(axes: seq<SplitAxis>, coords: seq<CoordMeta>, on: set<nat>, cell: seq<nat>) {
    forall i :: 0 <= i < |axes| && axes[i].coord in on ==>
      axes[i].coord < |cell| && axes[i].coord < |coords| && cell[axes[i].coord] < coords[axes[i].coord].size
  }

  /** How many inner boxes agree on the coordinates looked at: the product over the dropped axes. */
  ghost function OutsideCopies(axes: seq<SplitAxis>, on: set<nat>): nat {
    if axes == [] then 1
    else
      var last := |axes| - 1;
      OutsideCopies(axes[..last], on) * if axes[last].coord in on then 1 else |axes[last].pieces|
  }

  lemma {:induction false} AxesCountCell(axes: seq<SplitAxis>, coords: seq<CoordMeta>, on: set<nat>, cell: seq<nat>)
    requires |cell| == |coords|
    requires forall i :: 0 <= i < |axes| ==> axes[i].coord < |coords|
                                             && ExactSplitSome(axes[i].pieces, Range(0, coords[axes[i].coord].size))
    ensures ProductOfCounts(axes, CellProbe(on, cell)) == if InRange(axes, coords, on, cell) then OutsideCopies(axes, on) else 0
  {
    if axes != [] {
      var last := |axes| - 1;
      AxesCountCell(axes[..last], coords, on, cell);
      AxisCountCell(axes[last], coords, on, cell);
      InRangeSnoc(axes, coords, on, cell);
    }
  }

  lemma InRangeSnoc(axes: seq<SplitAxis>, coords: seq<CoordMeta>, on: set<nat>, cell: seq<nat>)
    requires axes != []
    ensures var last := |axes| - 1;
            InRange(axes, coords, on, cell) <==> InRange(axes[..last], coords, on, cell) && InRange([axes[last]], coords, on, cell)
  {
    var last := |axes| - 1;
    assert forall i :: 0 <= i < last ==> axes[..last][i] == axes[i];
    if InRange(axes[..last], coords, on, cell) && InRange([axes[last]], coords, on, cell) {
      forall i | 0 <= i < |axes| && axes[i].coord in on
        ensures axes[i].coord < |cell| && axes[i].coord < |coords| && cell[axes[i].coord] < coords[axes[i].coord].size
      {
        assert if i < last then axes[i] == axes[..last][i] else axes[i] == [axes[last]][0];
      }
    }
    if InRange(axes, coords, on, cell) {
      assert InRange(axes[..last], coords, on, cell);
      assert axes[last] == [axes[last]][0];
    }
  }

  lemma AxisCountCell(ax: SplitAxis, coords: seq<CoordMeta>, on: set<nat>, cell: seq<nat>)
    requires |cell| == |coords| && ax.coord < |coords| && ExactSplitSome(ax.pieces, Range(0, coords[ax.coord].size))
    ensures CountPieces(ax.pieces, ax.coord, CellProbe(on, cell))
            == if !InRange([ax], coords, on, cell) then 0 else if ax.coord in on then 1 else |ax.pieces|
  {
    if ax.coord in on {
      var sel := Range(0, coords[ax.coord].size);
      var chunk: nat :| chunk > 0 && ExactSplit(ax.pieces, sel, chunk);
      CellHitsOnePiece(ax.pieces, sel, chunk, ax.coord, on, cell);
      assert [ax][0] == ax;
    } else {
      PiecesAll(ax.pieces, ax.coord, CellProbe(on, cell));
    }
  }

  ghost predicate ExactSplitSome(pieces: seq<CoordSelection>, sel: CoordSelection) {
    exists chunk: nat :: chunk > 0 && ExactSplit(pieces, sel, chunk)
  }

  lemma PlanAxesFacts(scan: Scan, base: seq<CoordSelection>)
    requires WellFormed(scan, base)
    ensures DistinctAxes(PlanAxes(scan))
    ensures forall i :: 0 <= i < |PlanAxes(scan)| ==>
              && PlanAxes(scan)[i].coord < |scan.coords|
              && scan.coords[PlanAxes(scan)[i].coord].name !in scan.filtered
              && ExactSplitSome(PlanAxes(scan)[i].pieces, Range(0, scan.coords[PlanAxes(scan)[i].coord].size))
  {
    var v := scan.dataVars[0];
    OuterPiecesExact(scan);
    ChosenAxesExact(Specs(OuterPieces(scan)), v, scan.coords, scan.filtered, scan.target);
    var axes := PlanAxes(scan);
    forall i | 0 <= i < |axes|
      ensures axes[i].coord < |scan.coords|
      ensures scan.coords[axes[i].coord].name !in scan.filtered
      ensures ExactSplitSome(axes[i].pieces, Range(0, scan.coords[axes[i].coord].size))
    {
      assert AxisFrom(axes[i], v, scan.coords, scan.filtered);
      var a :| 1 <= a < |v.shape| && AxisIs(axes[i], v, a, scan.coords, scan.filtered);
      assert ChunkLen(v, a) > 0;
    }
  }

  // ---------------------------------------------------------------------------------------------
  // How often a cell is read
  // ---------------------------------------------------------------------------------------------

  ghost function OuterCopies(scan: Scan, on: set<nat>): nat
    requires OuterCoord(scan).Some? && OuterValid(scan)
  {
    if OuterIgnored(PlanAxes(scan), OuterCoord(scan).value, on) then |OuterPieces(scan)| else 1
  }

  /** How many copies of each surviving row the plan reads. */
  ghost function Copies(scan: Scan, on: set<nat>): nat
    requires OuterCoord(scan).Some? && OuterValid(scan)
  {
    Times(OuterCopies(scan, on), OutsideCopies(PlanAxes(scan), on))
  }

  lemma OuterCount(scan: Scan, base: seq<CoordSelection>, on: set<nat>, cell: seq<nat>)
    requires WellFormed(scan, base) && |cell| == |base|
    ensures var o := OuterCoord(scan).value;
            var ignored := OuterIgnored(PlanAxes(scan), o, on);
            CountSpecs(Specs(OuterPieces(scan)), OuterProbe(OuterHit(ignored, cell[o])))
            == if ignored || OuterSel(scan).Has(cell[o]) then OuterCopies(scan, on) else 0
  {
    var o := OuterCoord(scan).value;
    OuterPiecesExact(scan);
    var pieces := OuterPieces(scan);
    if OuterIgnored(PlanAxes(scan), o, on) {
      SpecsAll(Specs(pieces), OuterProbe(OuterHit(true, cell[o])));
    } else {
      SpecsCountAsPieces(pieces, o, OuterHit(false, cell[o]), CellProbe({o}, cell));
      CellHitsOnePiece(pieces, OuterSel(scan), Max(1, OuterChunk(scan.dataVars[0])), o, {o}, cell);
    }
  }

  /** A split axis that is looked at is selected as far as it reaches. */
  lemma SurvivesOnAxes(scan: Scan, base: seq<CoordSelection>, on: set<nat>, cell: seq<nat>)
    requires WellFormed(scan, base) && |cell| == |base| && Survives(scan, base, on, cell)
    ensures InRange(PlanAxes(scan), scan.coords, on, cell)
  {
    var o, axes := OuterCoord(scan).value, PlanAxes(scan);
    PlanAxesFacts(scan, base);
    forall i | 0 <= i < |axes| && axes[i].coord in on ensures cell[axes[i].coord] < scan.coords[axes[i].coord].size {
      assert axes[i].coord != o ==> base[axes[i].coord].Has(cell[axes[i].coord]);
    }
  }

  lemma AxesSurvive(scan: Scan, base: seq<CoordSelection>, on: set<nat>, cell: seq<nat>, k: nat)
    requires WellFormed(scan, base) && |cell| == |base| && InRange(PlanAxes(scan), scan.coords, on, cell)
    requires Splits(PlanAxes(scan), k) && k in on
    ensures k < |base| && scan.coords[k].name !in scan.filtered && cell[k] < scan.coords[k].size
  {
    PlanAxesFacts(scan, base);
    var axes := PlanAxes(scan);
    var i :| 0 <= i < |axes| && axes[i].coord == k;
    assert axes[i].coord in on;
  }

  lemma SurvivesAsProduct(scan: Scan, base: seq<CoordSelection>, on: set<nat>, cell: seq<nat>)
    requires WellFormed(scan, base) && |cell| == |base|
    ensures var o, axes := OuterCoord(scan).value, PlanAxes(scan);
            Survives(scan, base, on, cell) <==>
            && (OuterIgnored(axes, o, on) || OuterSel(scan).Has(cell[o]))
            && OthersSelect(base, o, on, axes, cell)
            && InRange(axes, scan.coords, on, cell)
  {
    var o, axes := OuterCoord(scan).value, PlanAxes(scan);
    if Survives(scan, base, on, cell) { SurvivesOnAxes(scan, base, on, cell); }
    if OthersSelect(base, o, on, axes, cell) && InRange(axes, scan.coords, on, cell) {
      forall k | 0 <= k < |base| && k in on && Splits(axes, k) ensures base[k].Has(cell[k]) && (k == o ==> OuterSel(scan).Has(cell[k])) {
        AxesSurvive(scan, base, on, cell, k);
      }
    }
  }

  /** The plan reads each surviving row `Copies` times, and no other row. */
  lemma PlanCountsCell(scan: Scan, base: seq<CoordSelection>, on: set<nat>, cell: seq<nat>)
    requires WellFormed(scan, base) && |cell| == |base| && Plan(scan) != []
    ensures CountSpecs(Plan(scan), ReadsCell(base, OuterCoord(scan).value, on, cell))
            == if Survives(scan, base, on, cell) then Copies(scan, on) else 0
  {
    var o, axes := OuterCoord(scan).value, PlanAxes(scan);
    SurvivesAsProduct(scan, base, on, cell);
    PlanReads(scan, base, on, cell);
    if OthersSelect(base, o, on, axes, cell) {
      SpecsAgree(Plan(scan), ReadsCell(base, o, on, cell), BoxHit(axes, o, on, cell));
      PlanHits(scan, base, on, cell);
    } else {
      SpecsZero(Plan(scan), ReadsCell(base, o, on, cell));
    }
  }

  lemma PlanReads(scan: Scan, base: seq<CoordSelection>, on: set<nat>, cell: seq<nat>)
    requires WellFormed(scan, base) && |cell| == |base| && Plan(scan) != []
    ensures var o, axes := OuterCoord(scan).value, PlanAxes(scan);
            forall spec :: spec in Plan(scan) ==>
              (Reads(base, o, on, spec, cell) <==> BoxHit(axes, o, on, cell)(spec) && OthersSelect(base, o, on, axes, cell))
  {
    PlanAxesFacts(scan, base);
    forall spec | spec in Plan(scan)
      ensures Reads(base, OuterCoord(scan).value, on, spec, cell)
              <==> BoxHit(PlanAxes(scan), OuterCoord(scan).value, on, cell)(spec)
                   && OthersSelect(base, OuterCoord(scan).value, on, PlanAxes(scan), cell)
    {
      PlanSpecs(scan, spec);
      BoxReads(base, OuterCoord(scan).value, on, spec, PlanAxes(scan), cell);
    }
  }

  lemma PlanHits(scan: Scan, base: seq<CoordSelection>, on: set<nat>, cell: seq<nat>)
    requires WellFormed(scan, base) && |cell| == |base| && Plan(scan) != []
    ensures var o, axes := OuterCoord(scan).value, PlanAxes(scan);
            CountSpecs(Plan(scan), BoxHit(axes, o, on, cell))
            == if (OuterIgnored(axes, o, on) || OuterSel(scan).Has(cell[o])) && InRange(axes, scan.coords, on, cell) then Copies(scan, on) else 0
  {
    var o, axes := OuterCoord(scan).value, PlanAxes(scan);
    PlanAxesFacts(scan, base);
    PlanIsProduct(scan);
    BoxesMultiply(Specs(OuterPieces(scan)), Combos(axes), OuterHit(OuterIgnored(axes, o, on), cell[o]), CellProbe(on, cell));
    CombosMultiply(axes, CellProbe(on, cell));
    AxesCountCell(axes, scan.coords, on, cell);
    OuterCount(scan, base, on, cell);
  }

  lemma {:induction false} CountIsFilterLength(specs: seq<PartitionSpec>, keep: PartitionSpec -> bool)
    ensures CountSpecs(specs, keep) == |FilterSpecs(specs, keep)|
  {
    if specs != [] { CountIsFilterLength(specs[1..], keep); }
  }

  /** How many partition slots, over all tasks, emit the row. */
  ghost function SlotsReading(scan: Scan, base: seq<CoordSelection>, on: set<nat>, tasks: nat, cell: seq<nat>): nat
    requires WellFormed(scan, base) && |cell| == |base|
  {
    CountSpecs(Slots(Plan(scan), tasks), ReadsCell(base, OuterCoord(scan).value, on, cell))
  }

  /** Padding emits nothing if the outer coordinate is looked at, and every surviving row otherwise. */
  lemma PaddingReads(scan: Scan, base: seq<CoordSelection>, on: set<nat>, cell: seq<nat>)
    requires WellFormed(scan, base) && |cell| == |base|
    ensures Reads(base, OuterCoord(scan).value, on, EMPTY_SPEC, cell) <==> OuterCoord(scan).value !in on && Survives(scan, base, on, cell)
  {
    var o := OuterCoord(scan).value;
    assert ReaderSelections(base, o, EMPTY_SPEC) == base[o := Range(0, 0)];
    assert !ReaderSelections(base, o, EMPTY_SPEC)[o].Has(cell[o]);
    assert forall k :: 0 <= k < |base| && k != o ==> ReaderSelections(base, o, EMPTY_SPEC)[k] == base[k];
  }

  /** How many padding slots emit each surviving row. */
  ghost function PaddingCopies(scan: Scan, on: set<nat>, tasks: nat): nat
    requires OuterCoord(scan).Some? && OuterValid(scan)
  {
    if OuterCoord(scan).value in on then 0 else PaddedSlots(|Plan(scan)|, tasks)
  }

  /** All slots together emit each surviving row as often as the partitions and the padding do, and no other row. */
  lemma SlotsCountCell(scan: Scan, base: seq<CoordSelection>, on: set<nat>, tasks: nat, cell: seq<nat>)
    requires WellFormed(scan, base) && |cell| == |base| && Plan(scan) != []
    ensures SlotsReading(scan, base, on, tasks, cell)
            == if Survives(scan, base, on, cell) then Copies(scan, on) + PaddingCopies(scan, on, tasks) else 0
  {
    var keep := ReadsCell(base, OuterCoord(scan).value, on, cell);
    PaddingReads(scan, base, on, cell);
    SlotsCount(Plan(scan), tasks, keep);
    CountIsFilterLength(Plan(scan), keep);
    CountIsFilterLength(Slots(Plan(scan), tasks), keep);
    PlanCountsCell(scan, base, on, cell);
  }

  /** A scan without a limit is always partitioned. */
  lemma PlanNonEmpty(scan: Scan, base: seq<CoordSelection>)
    requires WellFormed(scan, base) && scan.limit.None? && !scan.virtualizarr
    ensures Plan(scan) != []
  {
    PlanEmptyIff(scan);
    assert scan.coords[OuterCoord(scan).value].size == OuterLen(scan.dataVars[0]);
  }
}
