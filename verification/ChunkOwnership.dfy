/**
 Which storage chunks a partition touches, through the reader's own map from coordinates to data
 axes, and when no two partitions of a plan touch one chunk.
 */
module ChunkOwnership {
  import opened Options
  import opened Arithmetic
  import opened Selection
  import opened Partition
  import opened BoxProduct
  import opened FanOut
  import opened ScanPlan
  import opened ScanCover

  /**
   The coordinate whose selection the reader applies to a data axis: by position when there are
   as many coordinates as axes, else the first of equal size, else none and the axis is read whole.
   */
  function ReaderCoord(scan: Scan, axis: nat): (r: Option<nat>)
    requires scan.dataVars != [] && axis < |scan.dataVars[0].shape|
    ensures var shape := scan.dataVars[0].shape;
            if |scan.coords| == |shape| then r == Some(axis)
            else if r.None? then forall k :: 0 <= k < |scan.coords| ==> scan.coords[k].size != shape[axis]
            else r.value < |scan.coords| && scan.coords[r.value].size == shape[axis] && forall k :: 0 <= k < r.value ==> scan.coords[k].size != shape[axis]
  {
    var shape := scan.dataVars[0].shape;
    if |scan.coords| == |shape| then Some(axis) else PositionBySize(scan.coords, shape[axis])
  }

  /** Coordinates read by position have the lengths of their axes, and no axis is empty. */
  ghost predicate ReaderFits(scan: Scan)
    requires scan.dataVars != []
  {
    var shape := scan.dataVars[0].shape;
    && (|scan.coords| == |shape| ==> forall k :: 0 <= k < |shape| ==> scan.coords[k].size == shape[k])
    && forall a :: 0 <= a < |shape| ==> shape[a] > 0
  }

  /** What a partition reads of a data axis. */
  function DataSel(scan: Scan, base: seq<CoordSelection>, outer: nat, spec: PartitionSpec, axis: nat): CoordSelection
    requires scan.dataVars != [] && axis < |scan.dataVars[0].shape| && outer < |base| == |scan.coords|
  {
    var k := ReaderCoord(scan, axis);
    if k.Some? then ReaderSelections(base, outer, spec)[k.value] else Range(0, scan.dataVars[0].shape[axis])
  }

  /** The partition reads some cell of the chunk `id` of the data variable. */
  ghost predicate TouchesChunk(scan: Scan, base: seq<CoordSelection>, outer: nat, spec: PartitionSpec, id: seq<nat>)
    requires scan.dataVars != [] && outer < |base| == |scan.coords| && |id| == |scan.dataVars[0].shape|
  {
    forall a :: 0 <= a < |id| ==> Touches(DataSel(scan, base, outer, spec, a), ChunkLen(scan.dataVars[0], a), id[a])
  }

  ghost predicate ShareChunk(scan: Scan, base: seq<CoordSelection>, outer: nat, s: PartitionSpec, t: PartitionSpec)
    requires scan.dataVars != [] && outer < |base| == |scan.coords|
  {
    exists id: seq<nat> :: |id| == |scan.dataVars[0].shape|
                           && TouchesChunk(scan, base, outer, s, id) && TouchesChunk(scan, base, outer, t, id)
  }

  /** No chunk of the data variable is read for two partitions. */
  ghost predicate Owns(scan: Scan, base: seq<CoordSelection>) {
    && WellFormed(scan, base)
    && forall i, j :: 0 <= i < j < |Plan(scan)| ==> !ShareChunk(scan, base, OuterCoord(scan).value, Plan(scan)[i], Plan(scan)[j])
  }

  // ---------------------------------------------------------------------------------------------
  // Pieces that lie apart
  // ---------------------------------------------------------------------------------------------

  /** The selection touches chunk `id[a]` of every axis `a` that is read from coordinate `k`. */
  ghost predicate TouchesOn(scan: Scan, k: nat, sel: CoordSelection, id: seq<nat>)
    requires scan.dataVars != [] && |id| == |scan.dataVars[0].shape|
  {
    forall a :: 0 <= a < |id| && ReaderCoord(scan, a) == Some(k) ==> Touches(sel, ChunkLen(scan.dataVars[0], a), id[a])
  }

  ghost predicate NeverBoth(p: CoordSelection, q: CoordSelection, chunk: nat)
    requires chunk > 0
  {
    forall id: nat :: !(Touches(p, chunk, id) && Touches(q, chunk, id))
  }

  /** On some axis read from coordinate `k`, no chunk meets both selections. */
  ghost predicate Apart(scan: Scan, k: nat, p: CoordSelection, q: CoordSelection)
    requires scan.dataVars != []
  {
    exists a :: 0 <= a < |scan.dataVars[0].shape| && ReaderCoord(scan, a) == Some(k) && NeverBoth(p, q, ChunkLen(scan.dataVars[0], a))
  }

  ghost predicate PiecesApart(scan: Scan, k: nat, pieces: seq<CoordSelection>)
    requires scan.dataVars != []
  {
    forall i, j :: 0 <= i < j < |pieces| ==> Apart(scan, k, pieces[i], pieces[j])
  }

  /** The pieces of every split axis lie apart where the reader applies them. */
  ghost predicate AxesApart(scan: Scan)
    requires scan.dataVars != [] && OuterValid(scan)
  {
    forall i :: 0 <= i < |PlanAxes(scan)| ==> PiecesApart(scan, PlanAxes(scan)[i].coord, PlanAxes(scan)[i].pieces)
  }

  lemma SeparatedNeverBoth(pieces: seq<CoordSelection>, chunk: nat, i: nat, j: nat)
    requires chunk > 0 && ChunkSeparated(pieces, chunk) && i < j < |pieces|
    ensures NeverBoth(pieces[i], pieces[j], chunk)
  {
  }

  /** The reader applies the outer coordinate's selection to the first axis. */
  lemma OuterReadFirst(scan: Scan, base: seq<CoordSelection>)
    requires WellFormed(scan, base) && ReaderFits(scan)
    ensures ReaderCoord(scan, 0) == OuterCoord(scan)
  {
  }

  lemma OuterPiecesApart(scan: Scan, base: seq<CoordSelection>)
    requires WellFormed(scan, base) && ReaderFits(scan)
    ensures PiecesApart(scan, OuterCoord(scan).value, OuterPieces(scan))
  {
    var pieces, v := OuterPieces(scan), scan.dataVars[0];
    OuterPiecesExact(scan);
    OuterReadFirst(scan, base);
    assert ChunkLen(v, 0) == Max(1, OuterChunk(v));
    forall i, j | 0 <= i < j < |pieces| ensures Apart(scan, OuterCoord(scan).value, pieces[i], pieces[j]) {
      SeparatedNeverBoth(pieces, ChunkLen(v, 0), i, j);
    }
  }

  // ---------------------------------------------------------------------------------------------
  // Apart pieces own their chunks
  // ---------------------------------------------------------------------------------------------

  ghost function ChunkProbe(scan: Scan, id: seq<nat>): Probe
    requires scan.dataVars != [] && |id| == |scan.dataVars[0].shape|
  {
    (k: nat, sel: CoordSelection) => TouchesOn(scan, k, sel, id)
  }

  ghost function OuterTouch(scan: Scan, ignored: bool, o: nat, id: seq<nat>): CoordSelection -> bool
    requires scan.dataVars != [] && |id| == |scan.dataVars[0].shape|
  {
    (sel: CoordSelection) => ignored || TouchesOn(scan, o, sel, id)
  }

  lemma ApartHitOnce(scan: Scan, k: nat, pieces: seq<CoordSelection>, id: seq<nat>)
    requires scan.dataVars != [] && |id| == |scan.dataVars[0].shape| && PiecesApart(scan, k, pieces)
    ensures CountPieces(pieces, k, ChunkProbe(scan, id)) <= 1
  {
    var hit := ChunkProbe(scan, id);
    forall i, j | 0 <= i < j < |pieces| ensures !(hit(k, pieces[i]) && hit(k, pieces[j])) {
      assert Apart(scan, k, pieces[i], pieces[j]);
      var a :| 0 <= a < |id| && ReaderCoord(scan, a) == Some(k) && NeverBoth(pieces[i], pieces[j], ChunkLen(scan.dataVars[0], a));
    }
    PiecesAtMostOne(pieces, k, hit);
  }

  lemma {:induction false} AxesHitOnce(scan: Scan, axes: seq<SplitAxis>, id: seq<nat>)
    requires scan.dataVars != [] && |id| == |scan.dataVars[0].shape|
    requires forall i :: 0 <= i < |axes| ==> PiecesApart(scan, axes[i].coord, axes[i].pieces)
    ensures ProductOfCounts(axes, ChunkProbe(scan, id)) <= 1
  {
    if axes != [] {
      var last := |axes| - 1;
      AxesHitOnce(scan, axes[..last], id);
      ApartHitOnce(scan, axes[last].coord, axes[last].pieces, id);
      MulMono(ProductOfCounts(axes[..last], ChunkProbe(scan, id)), 1, CountPieces(axes[last].pieces, axes[last].coord, ChunkProbe(scan, id)));
    }
  }

  lemma OutersHitOnce(scan: Scan, base: seq<CoordSelection>, id: seq<nat>)
    requires WellFormed(scan, base) && ReaderFits(scan) && !Clobbers(scan) && |id| == |scan.dataVars[0].shape|
    ensures var o := OuterCoord(scan).value;
            CountSpecs(Specs(OuterPieces(scan)), OuterProbe(OuterTouch(scan, Splits(PlanAxes(scan), o), o, id))) <= 1
  {
    var o, pieces := OuterCoord(scan).value, OuterPieces(scan);
    if Splits(PlanAxes(scan), o) {
      SpecsAll(Specs(pieces), OuterProbe(OuterTouch(scan, true, o, id)));
    } else {
      OuterPiecesApart(scan, base);
      ApartHitOnce(scan, o, pieces, id);
      SpecsCountAsPieces(pieces, o, OuterTouch(scan, false, o, id), ChunkProbe(scan, id));
    }
  }

  /** At most one partition of the plan touches a chunk. */
  lemma PlanTouchesOnce(scan: Scan, base: seq<CoordSelection>, id: seq<nat>)
    requires WellFormed(scan, base) && ReaderFits(scan) && Plan(scan) != [] && !Clobbers(scan) && AxesApart(scan)
    requires |id| == |scan.dataVars[0].shape|
    ensures CountSpecs(Plan(scan), ChunkHit(scan, id)) <= 1
  {
    var o, axes := OuterCoord(scan).value, PlanAxes(scan);
    var outerHit, hit := OuterTouch(scan, Splits(axes, o), o, id), ChunkProbe(scan, id);
    PlanIsProduct(scan);
    BoxesMultiply(Specs(OuterPieces(scan)), Combos(axes), outerHit, hit);
    CombosMultiply(axes, hit);
    AxesHitOnce(scan, axes, id);
    OutersHitOnce(scan, base, id);
    MulMono(CountSpecs(Specs(OuterPieces(scan)), OuterProbe(outerHit)), 1, ProductOfCounts(axes, hit));
  }

  ghost function ChunkHit(scan: Scan, id: seq<nat>): PartitionSpec -> bool
    requires OuterCoord(scan).Some? && OuterValid(scan) && |id| == |scan.dataVars[0].shape|
  {
    var o := OuterCoord(scan).value;
    BoxProbe(OuterTouch(scan, Splits(PlanAxes(scan), o), o, id), ChunkProbe(scan, id))
  }

  lemma {:induction false} TouchingHits(scan: Scan, base: seq<CoordSelection>, spec: PartitionSpec, id: seq<nat>)
    requires WellFormed(scan, base) && spec in Plan(scan) && |id| == |scan.dataVars[0].shape|
    requires TouchesChunk(scan, base, OuterCoord(scan).value, spec, id)
    ensures ChunkHit(scan, id)(spec)
  {
    var o, axes := OuterCoord(scan).value, PlanAxes(scan);
    PlanAxesFacts(scan, base);
    PlanSpecs(scan, spec);
    BoxSelections(base, o, spec, axes);
    BoxTouches(scan, base, o, spec, axes, id);
    SelectionTouches(scan, base, o, spec, o, id);
  }

  /** A box touches the chunk with each of its inner slices, when those are what the reader reads. */
  lemma BoxTouches(scan: Scan, base: seq<CoordSelection>, o: nat, spec: PartitionSpec, axes: seq<SplitAxis>, id: seq<nat>)
    requires scan.dataVars != [] && o < |base| == |scan.coords| && |id| == |scan.dataVars[0].shape|
    requires TouchesChunk(scan, base, o, spec, id) && OfAxes(spec.extra, axes)
    requires forall i :: 0 <= i < |axes| ==> axes[i].coord < |base| && ReaderSelections(base, o, spec)[axes[i].coord] == spec.extra[i].1
    ensures HitsAll(spec.extra, ChunkProbe(scan, id))
  {
    forall i | 0 <= i < |spec.extra| ensures TouchesOn(scan, spec.extra[i].0, spec.extra[i].1, id) {
      assert axes[i].coord < |base| && spec.extra[i].0 == axes[i].coord;
      SelectionTouches(scan, base, o, spec, axes[i].coord, id);
    }
  }

  lemma SelectionTouches(scan: Scan, base: seq<CoordSelection>, outer: nat, spec: PartitionSpec, k: nat, id: seq<nat>)
    requires scan.dataVars != [] && outer < |base| == |scan.coords| && |id| == |scan.dataVars[0].shape| && k < |base|
    requires TouchesChunk(scan, base, outer, spec, id)
    ensures TouchesOn(scan, k, ReaderSelections(base, outer, spec)[k], id)
  {
    forall a | 0 <= a < |id| && ReaderCoord(scan, a) == Some(k)
      ensures Touches(ReaderSelections(base, outer, spec)[k], ChunkLen(scan.dataVars[0], a), id[a])
    {
      assert DataSel(scan, base, outer, spec, a) == ReaderSelections(base, outer, spec)[k];
    }
  }

  /** Two partitions never touch one chunk, however the outer axis was split. */
  lemma ChunksHaveOneOwner(scan: Scan, base: seq<CoordSelection>)
    requires WellFormed(scan, base) && ReaderFits(scan) && Plan(scan) != [] && !Clobbers(scan) && AxesApart(scan)
    ensures Owns(scan, base)
  {
    var o, plan := OuterCoord(scan).value, Plan(scan);
    forall i, j | 0 <= i < j < |plan| ensures !ShareChunk(scan, base, o, plan[i], plan[j]) {
      if ShareChunk(scan, base, o, plan[i], plan[j]) {
        var id: seq<nat> :| |id| == |scan.dataVars[0].shape|
                            && TouchesChunk(scan, base, o, plan[i], id) && TouchesChunk(scan, base, o, plan[j], id);
        TouchingHits(scan, base, plan[i], id);
        TouchingHits(scan, base, plan[j], id);
        SpecsTwo(plan, ChunkHit(scan, id), i, j);
        PlanTouchesOnce(scan, base, id);
        assert false;
      }
    }
  }

  // ---------------------------------------------------------------------------------------------
  // Otherwise some chunk has two owners
  // ---------------------------------------------------------------------------------------------

  ghost predicate Everything(on: set<nat>, n: nat) { forall k: nat :: k < n ==> k in on }

  /** The chunk a cell lies in, as the reader finds it. */
  ghost function ChunkOfCell(scan: Scan, x: seq<nat>): (id: seq<nat>)
    requires scan.dataVars != [] && |x| == |scan.coords|
    ensures |id| == |scan.dataVars[0].shape|
  {
    var v := scan.dataVars[0];
    seq(|v.shape|, a requires 0 <= a < |v.shape| =>
      (if ReaderCoord(scan, a).Some? then x[ReaderCoord(scan, a).value] else 0) / ChunkLen(v, a))
  }

  lemma ReadingTouches(scan: Scan, base: seq<CoordSelection>, outer: nat, on: set<nat>, spec: PartitionSpec, x: seq<nat>, a: nat)
    requires scan.dataVars != [] && outer < |base| == |scan.coords| == |x| && ReaderFits(scan) && Everything(on, |base|)
    requires Reads(base, outer, on, spec, x) && a < |scan.dataVars[0].shape|
    ensures Touches(DataSel(scan, base, outer, spec, a), ChunkLen(scan.dataVars[0], a), ChunkOfCell(scan, x)[a])
  {
    var y := if ReaderCoord(scan, a).Some? then x[ReaderCoord(scan, a).value] else 0;
    assert DataSel(scan, base, outer, spec, a).Has(y);
  }

  lemma {:induction false} CountedTwice(specs: seq<PartitionSpec>, counts: PartitionSpec -> bool) returns (i: nat, j: nat)
    requires CountSpecs(specs, counts) >= 2
    ensures i < j < |specs| && counts(specs[i]) && counts(specs[j])
  {
    if counts(specs[0]) && CountSpecs(specs[1..], counts) == 1 {
      i := 0;
      j := CountedOnce(specs[1..], counts);
      j := j + 1;
    } else {
      i, j := CountedTwice(specs[1..], counts);
      i, j := i + 1, j + 1;
    }
  }

  lemma {:induction false} CountedOnce(specs: seq<PartitionSpec>, counts: PartitionSpec -> bool) returns (i: nat)
    requires CountSpecs(specs, counts) >= 1
    ensures i < |specs| && counts(specs[i])
  {
    if counts(specs[0]) {
      i := 0;
    } else {
      i := CountedOnce(specs[1..], counts);
      i := i + 1;
    }
  }

  /** A replaced outer slice leaves two partitions with the same box. */
  lemma {:induction false} ClobberedShare(scan: Scan, base: seq<CoordSelection>, on: set<nat>, survivor: seq<nat>)
    requires WellFormed(scan, base) && ReaderFits(scan) && Plan(scan) != [] && Clobbers(scan) && Everything(on, |base|)
    requires |survivor| == |base| && Survives(scan, base, on, survivor)
    ensures !Owns(scan, base)
  {
    var o, plan := OuterCoord(scan).value, Plan(scan);
    PlanCountsCell(scan, base, on, survivor);
    ClobberedCopies(scan, base, on);
    var i, j := CountedTwice(plan, ReadsCell(base, o, on, survivor));
    var id := ChunkOfCell(scan, survivor);
    forall a | 0 <= a < |id|
      ensures Touches(DataSel(scan, base, o, plan[i], a), ChunkLen(scan.dataVars[0], a), id[a])
      ensures Touches(DataSel(scan, base, o, plan[j], a), ChunkLen(scan.dataVars[0], a), id[a])
    {
      ReadingTouches(scan, base, o, on, plan[i], survivor, a);
      ReadingTouches(scan, base, o, on, plan[j], survivor, a);
    }
    assert ShareChunk(scan, base, o, plan[i], plan[j]);
  }

  lemma ClobberedCopies(scan: Scan, base: seq<CoordSelection>, on: set<nat>)
    requires WellFormed(scan, base) && Clobbers(scan)
    ensures Copies(scan, on) >= 2
  {
    PlanAxesSplit(scan, base);
    SomeCopies(PlanAxes(scan), on);
    TimesAtLeast(OuterCopies(scan, on), OutsideCopies(PlanAxes(scan), on));
  }

  /** The chunk that two pieces of coordinate `k` have in common, the cell's chunk elsewhere. */
  ghost function SharedChunk(scan: Scan, k: nat, p: CoordSelection, q: CoordSelection, x: seq<nat>): (id: seq<nat>)
    requires scan.dataVars != [] && |x| == |scan.coords| && !Apart(scan, k, p, q)
    ensures |id| == |scan.dataVars[0].shape|
    ensures forall a :: 0 <= a < |id| && ReaderCoord(scan, a) == Some(k) ==>
              Touches(p, ChunkLen(scan.dataVars[0], a), id[a]) && Touches(q, ChunkLen(scan.dataVars[0], a), id[a])
    ensures forall a :: 0 <= a < |id| && ReaderCoord(scan, a) != Some(k) ==> id[a] == ChunkOfCell(scan, x)[a]
  {
    var v := scan.dataVars[0];
    seq(|v.shape|, a requires 0 <= a < |v.shape| =>
      if ReaderCoord(scan, a) == Some(k) then CommonChunk(scan, k, p, q, a) else ChunkOfCell(scan, x)[a])
  }

  ghost function CommonChunk(scan: Scan, k: nat, p: CoordSelection, q: CoordSelection, a: nat): (id: nat)
    requires scan.dataVars != [] && a < |scan.dataVars[0].shape| && ReaderCoord(scan, a) == Some(k) && !Apart(scan, k, p, q)
    ensures Touches(p, ChunkLen(scan.dataVars[0], a), id) && Touches(q, ChunkLen(scan.dataVars[0], a), id)
  {
    assert !NeverBoth(p, q, ChunkLen(scan.dataVars[0], a));
    var id: nat :| Touches(p, ChunkLen(scan.dataVars[0], a), id) && Touches(q, ChunkLen(scan.dataVars[0], a), id);
    id
  }

  /** The box that differs from `spec` in taking piece `p` of the `i`-th split axis. */
  ghost function Moved(spec: PartitionSpec, axes: seq<SplitAxis>, i: nat, p: CoordSelection): PartitionSpec
    requires i < |axes| && i < |spec.extra|
  {
    PartitionSpec(spec.outer, spec.extra[i := (axes[i].coord, p)])
  }

  lemma MovedPlanned(scan: Scan, base: seq<CoordSelection>, spec: PartitionSpec, i: nat, p: CoordSelection)
    requires WellFormed(scan, base) && spec in Plan(scan) && i < |PlanAxes(scan)| && p in PlanAxes(scan)[i].pieces
    requires PlanAxes(scan)[i].coord < |base|
    ensures |spec.extra| == |PlanAxes(scan)| && Moved(spec, PlanAxes(scan), i, p) in Plan(scan)
    ensures ReaderSelections(base, OuterCoord(scan).value, Moved(spec, PlanAxes(scan), i, p))
            == ReaderSelections(base, OuterCoord(scan).value, spec)[PlanAxes(scan)[i].coord := p]
  {
    PlanIsProduct(scan);
    PlanSpecs(scan, spec);
    MovedInProduct(Specs(OuterPieces(scan)), PlanAxes(scan), spec, i, p);
    PlanAxesFacts(scan, base);
    MovedSelections(base, OuterCoord(scan).value, spec, PlanAxes(scan), i, p);
  }

  /** With coordinate `k` moved to piece `p`, a box that read the cell touches the given chunk. */
  lemma MovedTouches(scan: Scan, base: seq<CoordSelection>, outer: nat, on: set<nat>, spec: PartitionSpec, moved: PartitionSpec, k: nat, p: CoordSelection, x: seq<nat>, id: seq<nat>)
    requires scan.dataVars != [] && ReaderFits(scan) && Everything(on, |base|) && outer < |base| == |scan.coords| == |x| && k < |base|
    requires Reads(base, outer, on, spec, x) && |id| == |scan.dataVars[0].shape|
    requires ReaderSelections(base, outer, moved) == ReaderSelections(base, outer, spec)[k := p] && TouchesOn(scan, k, p, id)
    requires forall a :: 0 <= a < |id| && ReaderCoord(scan, a) != Some(k) ==> id[a] == ChunkOfCell(scan, x)[a]
    ensures TouchesChunk(scan, base, outer, moved, id)
  {
    forall a | 0 <= a < |id| ensures Touches(DataSel(scan, base, outer, moved, a), ChunkLen(scan.dataVars[0], a), id[a]) {
      if ReaderCoord(scan, a) != Some(k) {
        ReadingTouches(scan, base, outer, on, spec, x, a);
      }
    }
  }

  lemma MovedSelections(base: seq<CoordSelection>, outer: nat, spec: PartitionSpec, axes: seq<SplitAxis>, i: nat, p: CoordSelection)
    requires outer < |base| && OfAxes(spec.extra, axes) && DistinctAxes(axes) && i < |axes| && p in axes[i].pieces
    requires forall i :: 0 <= i < |axes| ==> axes[i].coord < |base|
    ensures ReaderSelections(base, outer, Moved(spec, axes, i, p)) == ReaderSelections(base, outer, spec)[axes[i].coord := p]
  {
    var moved := Moved(spec, axes, i, p);
    assert OfAxes(moved.extra, axes);
    BoxSelections(base, outer, spec, axes);
    BoxSelections(base, outer, moved, axes);
    var was, now := ReaderSelections(base, outer, spec), ReaderSelections(base, outer, moved);
    forall k | 0 <= k < |base| ensures now[k] == was[axes[i].coord := p][k] {
      if Splits(axes, k) {
        var j :| 0 <= j < |axes| && axes[j].coord == k;
        assert now[axes[j].coord] == moved.extra[j].1 && was[axes[j].coord] == spec.extra[j].1;
      }
    }
  }

  lemma {:induction false} ExtendOneAny(combo: Extra, coord: nat, pieces: seq<CoordSelection>, p: CoordSelection)
    requires p in pieces
    ensures combo + [(coord, p)] in ExtendOne(combo, coord, pieces)
  {
    if p != pieces[0] { ExtendOneAny(combo, coord, pieces[1..], p); }
  }

  lemma {:induction false} ExtendAllAny(combos: seq<Extra>, combo: Extra, coord: nat, pieces: seq<CoordSelection>, p: CoordSelection)
    requires combo in combos && p in pieces
    ensures combo + [(coord, p)] in ExtendAll(combos, coord, pieces)
  {
    if combo == combos[0] {
      ExtendOneAny(combo, coord, pieces, p);
    } else {
      ExtendAllAny(combos[1..], combo, coord, pieces, p);
    }
  }

  /** Every choice of one piece per split axis is an inner box. */
  lemma {:induction false} CombosComplete(axes: seq<SplitAxis>, c: Extra)
    requires OfAxes(c, axes)
    ensures c in Combos(axes)
  {
    if axes != [] {
      var last := |axes| - 1;
      assert OfAxes(c[..last], axes[..last]);
      CombosComplete(axes[..last], c[..last]);
      ExtendAllAny(Combos(axes[..last]), c[..last], axes[last].coord, axes[last].pieces, c[last].1);
      assert c == c[..last] + [(axes[last].coord, c[last].1)];
    }
  }

  lemma {:induction false} BoxRowComplete(outer: CoordSelection, combos: seq<Extra>, c: Extra)
    requires c in combos
    ensures PartitionSpec(outer, c) in BoxRow(outer, combos)
  {
    if c != combos[0] { BoxRowComplete(outer, combos[1..], c); }
  }

  lemma {:induction false} BoxesComplete(outers: seq<PartitionSpec>, combos: seq<Extra>, i: nat, c: Extra)
    requires i < |outers| && c in combos
    ensures PartitionSpec(outers[i].outer, c) in Boxes(outers, combos)
  {
    if i == 0 {
      BoxRowComplete(outers[0].outer, combos, c);
    } else {
      BoxesComplete(outers[1..], combos, i - 1, c);
    }
  }

  lemma MovedInProduct(outers: seq<PartitionSpec>, axes: seq<SplitAxis>, spec: PartitionSpec, i: nat, p: CoordSelection)
    requires spec in Boxes(outers, Combos(axes)) && OfAxes(spec.extra, axes) && i < |axes| && p in axes[i].pieces
    ensures Moved(spec, axes, i, p) in Boxes(outers, Combos(axes))
  {
    var c := spec.extra[i := (axes[i].coord, p)];
    BoxesHave(outers, Combos(axes), spec);
    var k :| 0 <= k < |outers| && outers[k].outer == spec.outer;
    CombosComplete(axes, c);
    BoxesComplete(outers, Combos(axes), k, c);
  }

  /** Two pieces of an exact split of a non-empty range are different. */
  lemma PiecesDiffer(scan: Scan, base: seq<CoordSelection>, i: nat, m: nat, n: nat)
    requires WellFormed(scan, base) && i < |PlanAxes(scan)| && m < n < |PlanAxes(scan)[i].pieces|
    ensures PlanAxes(scan)[i].pieces[m] != PlanAxes(scan)[i].pieces[n]
  {
    OuterPiecesExact(scan);
    ChosenPiecesDiffer(Specs(OuterPieces(scan)), scan.dataVars[0], scan.coords, scan.filtered, scan.target, i, m, n);
  }

  /** Two pieces of a split axis that are not apart put one chunk into two partitions. */
  lemma UnseparatedShare(scan: Scan, base: seq<CoordSelection>, on: set<nat>, survivor: seq<nat>, i: nat, m: nat, n: nat)
    requires WellFormed(scan, base) && ReaderFits(scan) && Plan(scan) != [] && Everything(on, |base|)
    requires |survivor| == |base| && Survives(scan, base, on, survivor)
    requires i < |PlanAxes(scan)| && m < n < |PlanAxes(scan)[i].pieces|
    requires !Apart(scan, PlanAxes(scan)[i].coord, PlanAxes(scan)[i].pieces[m], PlanAxes(scan)[i].pieces[n])
    ensures !Owns(scan, base)
  {
    var o, ax := OuterCoord(scan).value, PlanAxes(scan)[i];
    var p, q := ax.pieces[m], ax.pieces[n];
    var spec := ReaderOf(scan, base, on, survivor);
    var id := SharedChunk(scan, ax.coord, p, q, survivor);
    PlanAxesFacts(scan, base);
    MovedPlanned(scan, base, spec, i, p);
    MovedPlanned(scan, base, spec, i, q);
    var s, t := Moved(spec, PlanAxes(scan), i, p), Moved(spec, PlanAxes(scan), i, q);
    MovedTouches(scan, base, o, on, spec, s, ax.coord, p, survivor, id);
    MovedTouches(scan, base, o, on, spec, t, ax.coord, q, survivor, id);
    PiecesDiffer(scan, base, i, m, n);
    assert s.extra[i] != t.extra[i];
    TwoTouching(scan, base, s, t, id);
  }

  lemma TwoPlaces(plan: seq<PartitionSpec>, s: PartitionSpec, t: PartitionSpec) returns (i: nat, j: nat)
    requires s in plan && t in plan && s != t
    ensures i < j < |plan| && ((plan[i] == s && plan[j] == t) || (plan[i] == t && plan[j] == s))
  {
    i :| 0 <= i < |plan| && plan[i] == s;
    j :| 0 <= j < |plan| && plan[j] == t;
    if j < i { i, j := j, i; }
  }

  lemma TwoTouching(scan: Scan, base: seq<CoordSelection>, s: PartitionSpec, t: PartitionSpec, id: seq<nat>)
    requires WellFormed(scan, base) && s in Plan(scan) && t in Plan(scan) && s != t && |id| == |scan.dataVars[0].shape|
    requires TouchesChunk(scan, base, OuterCoord(scan).value, s, id) && TouchesChunk(scan, base, OuterCoord(scan).value, t, id)
    ensures !Owns(scan, base)
  {
    var o := OuterCoord(scan).value;
    assert ShareChunk(scan, base, o, s, t) && ShareChunk(scan, base, o, t, s);
    var i, j := TwoPlaces(Plan(scan), s, t);
  }

  lemma ReaderOf(scan: Scan, base: seq<CoordSelection>, on: set<nat>, survivor: seq<nat>) returns (spec: PartitionSpec)
    requires WellFormed(scan, base) && Plan(scan) != [] && |survivor| == |base| && Survives(scan, base, on, survivor)
    ensures spec in Plan(scan) && Reads(base, OuterCoord(scan).value, on, spec, survivor)
  {
    var o := OuterCoord(scan).value;
    PlanCountsCell(scan, base, on, survivor);
    PlanAxesSplit(scan, base);
    SomeCopies(PlanAxes(scan), on);
    OuterPiecesExact(scan);
    MulMono(1, OuterCopies(scan, on), OutsideCopies(PlanAxes(scan), on));
    var i := CountedOnce(Plan(scan), ReadsCell(base, o, on, survivor));
    spec := Plan(scan)[i];
  }

  /**
   Of a scan that reads anything, no two partitions share a chunk exactly when no outer slice is
   replaced and the pieces of every split axis lie apart where the reader applies them.
   */
  lemma ChunksOwnedIff(scan: Scan, base: seq<CoordSelection>, on: set<nat>, survivor: seq<nat>)
    requires WellFormed(scan, base) && ReaderFits(scan) && Plan(scan) != [] && Everything(on, |base|)
    requires |survivor| == |base| && Survives(scan, base, on, survivor)
    ensures Owns(scan, base) <==> !Clobbers(scan) && AxesApart(scan)
  {
    if Clobbers(scan) {
      ClobberedShare(scan, base, on, survivor);
    } else if AxesApart(scan) {
      ChunksHaveOneOwner(scan, base);
    } else {
      var i :| 0 <= i < |PlanAxes(scan)| && !PiecesApart(scan, PlanAxes(scan)[i].coord, PlanAxes(scan)[i].pieces);
      var m, n :| 0 <= m < n < |PlanAxes(scan)[i].pieces| && !Apart(scan, PlanAxes(scan)[i].coord, PlanAxes(scan)[i].pieces[m], PlanAxes(scan)[i].pieces[n]);
      UnseparatedShare(scan, base, on, survivor, i, m, n);
    }
  }
}
