/** Chunk ownership told from the store's metadata, for every parallelism. */
module ChunkNesting {
  import opened Options
  import opened Arithmetic
  import opened Selection
  import opened Partition
  import opened BoxProduct
  import opened FanOut
  import opened ScanPlan
  import opened ScanCover
  import opened ChunkOwnership

  /** Chunks of axis `a` nest in chunks of axis `b`: every boundary of `b` is one of `a`. */
  predicate NestsIn(v: VarMeta, a: nat, b: nat)
    requires a < |v.shape| && b < |v.shape|
  {
    ChunkLen(v, b) % ChunkLen(v, a) == 0
  }

  /** The coordinate of every splittable axis is read on some axis whose chunks nest in its own. */
  predicate Nested(scan: Scan)
    requires scan.dataVars != []
  {
    forall b :: 0 <= b < |scan.dataVars[0].shape| && Splittable(scan, b) ==> ReadNested(scan, b)
  }

  predicate ReadNested(scan: Scan, b: nat)
    requires scan.dataVars != [] && Splittable(scan, b)
  {
    exists a :: 0 <= a < |scan.dataVars[0].shape| && ReaderCoord(scan, a) == Some(SplitCoord(scan, b)) && NestsIn(scan.dataVars[0], a, b)
  }

  lemma NestedDiv(x: nat, y: nat, c: nat, d: nat)
    requires c > 0 && d > 0 && c % d == 0 && x / c < y / c
    ensures x / d < y / d
  {
    var q, m := y / c, c / d;
    DivBounds(y, c);
    DivBetween(x, c, 0, q);
    MulAssoc(q, m, d);
    assert q * m * d == q * c;
    DivBetween(x, d, 0, q * m);
    DivBetween(y, d, q * m, 0);
  }

  lemma UnnestedDiv(c: nat, d: nat)
    requires c > 0 && d > 0 && c % d != 0
    ensures (c - 1) / d == c / d
  {
    DivBounds(c, d);
    DivUnique(c - 1, d, c / d);
  }

  lemma NestedSeparates(pieces: seq<CoordSelection>, c: nat, d: nat)
    requires c > 0 && d > 0 && c % d == 0 && ChunkSeparated(pieces, c)
    ensures ChunkSeparated(pieces, d)
  {
    forall i, j, x: nat, y: nat | 0 <= i < j < |pieces| && pieces[i].Has(x) && pieces[j].Has(y) ensures x / d < y / d {
      NestedDiv(x, y, c, d);
    }
  }

  /** On a nested store the pieces lie apart, whatever the target. */
  lemma NestedApart(scan: Scan, base: seq<CoordSelection>)
    requires WellFormed(scan, base) && Nested(scan)
    ensures AxesApart(scan)
  {
    forall i | 0 <= i < |PlanAxes(scan)| ensures PiecesApart(scan, PlanAxes(scan)[i].coord, PlanAxes(scan)[i].pieces) {
      var b := PlanAxisSplittable(scan, base, i);
      assert ReadNested(scan, b);
      AxisApart(scan, PlanAxes(scan)[i], b);
    }
  }

  lemma AxisApart(scan: Scan, ax: SplitAxis, b: nat)
    requires scan.dataVars != [] && Splittable(scan, b) && SplitCoord(scan, b) == ax.coord && ReadNested(scan, b)
    requires AxisIs(ax, scan.dataVars[0], b, scan.coords, scan.filtered)
    ensures PiecesApart(scan, ax.coord, ax.pieces)
  {
    var v := scan.dataVars[0];
    var a :| 0 <= a < |v.shape| && ReaderCoord(scan, a) == Some(ax.coord) && NestsIn(v, a, b);
    NestedSeparates(ax.pieces, ChunkLen(v, b), ChunkLen(v, a));
    forall i, j | 0 <= i < j < |ax.pieces| ensures Apart(scan, ax.coord, ax.pieces[i], ax.pieces[j]) {
      SeparatedNeverBoth(ax.pieces, ChunkLen(v, a), i, j);
    }
  }

  /** Where nothing nests, the first two pieces of a full split meet in one chunk. */
  lemma UnnestedMeet(scan: Scan, b: nat, p: CoordSelection, q: CoordSelection)
    requires scan.dataVars != [] && Splittable(scan, b) && !ReadNested(scan, b)
    requires p.Has(ChunkLen(scan.dataVars[0], b) - 1) && q.Has(ChunkLen(scan.dataVars[0], b))
    ensures !Apart(scan, SplitCoord(scan, b), p, q)
  {
    var v := scan.dataVars[0];
    forall a | 0 <= a < |v.shape| && ReaderCoord(scan, a) == Some(SplitCoord(scan, b)) ensures !NeverBoth(p, q, ChunkLen(v, a)) {
      assert !NestsIn(v, a, b);
      UnnestedPair(p, q, ChunkLen(v, b), ChunkLen(v, a));
    }
  }

  lemma UnnestedPair(p: CoordSelection, q: CoordSelection, c: nat, d: nat)
    requires c > 0 && d > 0 && c % d != 0 && p.Has(c - 1) && q.Has(c)
    ensures !NeverBoth(p, q, d)
  {
    UnnestedDiv(c, d);
    assert Touches(p, d, c / d) && Touches(q, d, c / d);
  }

  /** At the full target a store that is not nested puts one chunk into two partitions. */
  lemma UnnestedShare(scan: Scan, base: seq<CoordSelection>, on: set<nat>, survivor: seq<nat>)
    requires WellFormed(scan, base) && ReaderFits(scan) && Plan(scan) != [] && Everything(on, |base|)
    requires |survivor| == |base| && Survives(scan, base, on, survivor)
    requires scan.target == FullTarget(scan) && !Nested(scan)
    ensures !Owns(scan, base)
  {
    var v := scan.dataVars[0];
    var b :| 0 <= b < |v.shape| && Splittable(scan, b) && !ReadNested(scan, b);
    FullySplit(scan, base, b, survivor[OuterCoord(scan).value]);
    var c := AxisCandidate(v, b, scan.coords, scan.filtered).value;
    var i :| 0 <= i < |PlanAxes(scan)| && PlanAxes(scan)[i] == FullSplit(c);
    FullPieces(c);
    UnnestedMeet(scan, b, FullSplit(c).pieces[0], FullSplit(c).pieces[1]);
    UnseparatedShare(scan, base, on, survivor, i, 0, 1);
  }

  /**
   For every target no two partitions share a chunk, if and only if the store is not tied and the
   coordinate of every splittable axis is read where chunks nest in that axis' own.
   */
  lemma OwnershipIff(scan: Scan, base: seq<CoordSelection>, on: set<nat>, survivor: seq<nat>)
    requires WellFormed(scan, base) && ReaderFits(scan) && scan.limit.None? && !scan.virtualizarr && Everything(on, |base|)
    requires |survivor| == |base| && Survives(scan, base, on, survivor)
    ensures (forall target: nat :: Owns(Aimed(scan, target), base)) <==> !TiedOuter(scan) && Nested(scan)
  {
    if !TiedOuter(scan) && Nested(scan) {
      forall target: nat ensures Owns(Aimed(scan, target), base) {
        OwnedAt(scan, base, on, target, survivor);
      }
    } else {
      SharedAt(scan, base, on, survivor);
    }
  }

  lemma AimedReads(scan: Scan, target: nat)
    requires scan.dataVars != []
    ensures ReaderFits(Aimed(scan, target)) <==> ReaderFits(scan)
    ensures Nested(Aimed(scan, target)) <==> Nested(scan)
  {
    var s := Aimed(scan, target);
    assert forall b :: Splittable(s, b) <==> Splittable(scan, b);
    assert forall b :: Splittable(s, b) ==> (ReadNested(s, b) <==> ReadNested(scan, b));
  }

  lemma OwnedAt(scan: Scan, base: seq<CoordSelection>, on: set<nat>, target: nat, cell: seq<nat>)
    requires WellFormed(scan, base) && ReaderFits(scan) && scan.limit.None? && !scan.virtualizarr && |cell| == |base|
    requires !TiedOuter(scan) && Nested(scan)
    ensures Owns(Aimed(scan, target), base)
  {
    var s := Aimed(scan, target);
    AimedAlike(scan, base, on, target, cell);
    AimedReads(scan, target);
    PlanNonEmpty(s, base);
    NestedApart(s, base);
    if Clobbers(s) {
      ClobbersOnlyTied(s, base);
      assert false;
    }
    ChunksHaveOneOwner(s, base);
  }

  lemma SharedAt(scan: Scan, base: seq<CoordSelection>, on: set<nat>, survivor: seq<nat>)
    requires WellFormed(scan, base) && ReaderFits(scan) && scan.limit.None? && !scan.virtualizarr && Everything(on, |base|)
    requires |survivor| == |base| && Survives(scan, base, on, survivor) && (TiedOuter(scan) || !Nested(scan))
    ensures !Owns(Aimed(scan, FullTarget(scan)), base)
  {
    var s := Aimed(scan, FullTarget(scan));
    AimedAlike(scan, base, on, FullTarget(scan), survivor);
    AimedReads(scan, FullTarget(scan));
    PlanNonEmpty(s, base);
    if TiedOuter(scan) {
      TiedClobbers(s, base, survivor[OuterCoord(s).value]);
      ClobberedShare(s, base, on, survivor);
    } else {
      UnnestedShare(s, base, on, survivor);
    }
  }

  // ---------------------------------------------------------------------------------------------
  // Coordinates listed in dimension order
  // ---------------------------------------------------------------------------------------------

  /** Coordinate k names axis k and is as long as it. */
  predicate InDimensionOrder(scan: Scan)
    requires scan.dataVars != []
  {
    var v := scan.dataVars[0];
    && v.dims.Some? && |v.dims.value| == |v.shape| == |scan.coords|
    && forall a :: 0 <= a < |v.shape| ==> scan.coords[a] == CoordMeta(v.dims.value[a], v.shape[a])
  }

  lemma OrderedCoord(scan: Scan, base: seq<CoordSelection>, a: nat)
    requires WellFormed(scan, base) && InDimensionOrder(scan) && a < |scan.coords|
    ensures CoordIndexForAxis(scan.dataVars[0], a, scan.coords) == Some(a) && ReaderCoord(scan, a) == Some(a)
  {
    OrderedName(scan.dataVars[0], scan.coords, a);
  }

  lemma OrderedName(v: VarMeta, coords: seq<CoordMeta>, a: nat)
    requires DistinctDims(v) && v.dims.Some? && a < |coords| == |v.dims.value|
    requires forall k :: 0 <= k < |coords| ==> coords[k].name == v.dims.value[k]
    ensures CoordIndexForAxis(v, a, coords) == Some(a)
  {
    var r := CoordIndexForAxis(v, a, coords);
    assert coords[a].name == v.dims.value[a];
    assert coords[r.value].name == v.dims.value[r.value];
  }

  lemma OrderedOuter(scan: Scan)
    requires scan.dataVars != [] && InDimensionOrder(scan) && scan.coords != []
    ensures OuterCoord(scan) == Some(0)
  {
    assert scan.coords[0].size == OuterLen(scan.dataVars[0]);
  }

  /**
   With coordinates in dimension order, and no empty axis, every target and number of tasks
   covers exactly and gives every chunk one owner.
   */
  lemma DimensionOrderSuffices(scan: Scan, base: seq<CoordSelection>, on: set<nat>, target: nat, tasks: nat, cell: seq<nat>)
    requires WellFormed(scan, base) && InDimensionOrder(scan) && scan.limit.None? && !scan.virtualizarr && |cell| == |base|
    requires Everything(on, |base|) && forall a :: 0 <= a < |scan.coords| ==> scan.coords[a].size > 0
    ensures OnceOrNever(Aimed(scan, target), base, on, tasks, cell)
    ensures Owns(Aimed(scan, target), base)
  {
    forall a | 0 <= a < |scan.coords|
      ensures CoordIndexForAxis(scan.dataVars[0], a, scan.coords) == Some(a) && ReaderCoord(scan, a) == Some(a)
    {
      OrderedCoord(scan, base, a);
    }
    OrderedOuter(scan);
    forall b | 0 <= b < |scan.coords| && Splittable(scan, b) ensures SplitCoord(scan, b) == b && ReadNested(scan, b) {
      assert NestsIn(scan.dataVars[0], b, b);
    }
    AimedAlike(scan, base, on, target, cell);
    ExactCover(Aimed(scan, target), base, on, tasks, cell);
    OwnedAt(scan, base, on, target, cell);
  }
}
