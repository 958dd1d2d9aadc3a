/**
 The Cartesian product of per-axis pieces, and how often a probe hits it.

 A probe says whether one selection on one coordinate is hit: by a cell's position, say, or by
 a chunk. The number of boxes a probe hits is the product of the number of pieces it hits on
 each axis; exact cover and chunk ownership both follow from that one count.
 */
module BoxProduct {
  import opened Selection
  import opened Partition

  type Extra = seq<(nat, CoordSelection)>

  type Probe = (nat, CoordSelection) -> bool

  /** One inner axis that is split: its coordinate and its pieces. */
  datatype SplitAxis = SplitAxis(coord: nat, pieces: seq<CoordSelection>)

  // ---------------------------------------------------------------------------------------------
  // The product, in the order the nested loops produce it
  // ---------------------------------------------------------------------------------------------

  function ExtendOne(combo: Extra, coord: nat, pieces: seq<CoordSelection>): seq<Extra> {
    if pieces == [] then [] else [combo + [(coord, pieces[0])]] + ExtendOne(combo, coord, pieces[1..])
  }

  function ExtendAll(combos: seq<Extra>, coord: nat, pieces: seq<CoordSelection>): seq<Extra> {
    if combos == [] then [] else ExtendOne(combos[0], coord, pieces) + ExtendAll(combos[1..], coord, pieces)
  }

  function Combos(axes: seq<SplitAxis>): seq<Extra> {
    if axes == [] then [[]]
    else
      var last := |axes| - 1;
      ExtendAll(Combos(axes[..last]), axes[last].coord, axes[last].pieces)
  }

  function BoxRow(outer: CoordSelection, combos: seq<Extra>): seq<PartitionSpec> {
    if combos == [] then [] else [PartitionSpec(outer, combos[0])] + BoxRow(outer, combos[1..])
  }

  function Boxes(outers: seq<PartitionSpec>, combos: seq<Extra>): seq<PartitionSpec> {
    if outers == [] then [] else BoxRow(outers[0].outer, combos) + Boxes(outers[1..], combos)
  }

  // ---------------------------------------------------------------------------------------------
  // Counting hits
  // ---------------------------------------------------------------------------------------------

  ghost function CountPieces(pieces: seq<CoordSelection>, coord: nat, hit: Probe): nat {
    if pieces == [] then 0 else (if hit(coord, pieces[0]) then 1 else 0) + CountPieces(pieces[1..], coord, hit)
  }

  ghost predicate HitsAll(extra: Extra, hit: Probe) {
    forall i :: 0 <= i < |extra| ==> hit(extra[i].0, extra[i].1)
  }

  ghost function CountCombos(combos: seq<Extra>, hit: Probe): nat {
    if combos == [] then 0 else (if HitsAll(combos[0], hit) then 1 else 0) + CountCombos(combos[1..], hit)
  }

  ghost function CountSpecs(specs: seq<PartitionSpec>, counts: PartitionSpec -> bool): nat {
    if specs == [] then 0 else (if counts(specs[0]) then 1 else 0) + CountSpecs(specs[1..], counts)
  }

  /** Hits of a box: on its outer slice, and on every inner slice. */
  ghost function BoxProbe(outerHit: CoordSelection -> bool, hit: Probe): PartitionSpec -> bool {
    (spec: PartitionSpec) => outerHit(spec.outer) && HitsAll(spec.extra, hit)
  }

  /** The same, looking at the outer slice only. */
  ghost function OuterProbe(outerHit: CoordSelection -> bool): PartitionSpec -> bool {
    (spec: PartitionSpec) => outerHit(spec.outer)
  }

  ghost function ProductOfCounts(axes: seq<SplitAxis>, hit: Probe): nat {
    if axes == [] then 1
    else
      var last := |axes| - 1;
      ProductOfCounts(axes[..last], hit) * CountPieces(axes[last].pieces, axes[last].coord, hit)
  }

  lemma {:induction false} CombosConcat(a: seq<Extra>, b: seq<Extra>, hit: Probe)
    ensures CountCombos(a + b, hit) == CountCombos(a, hit) + CountCombos(b, hit)
  {
    if a == [] {
      assert a + b == b;
    } else {
      CombosConcat(a[1..], b, hit);
      assert (a + b)[1..] == a[1..] + b;
    }
  }

  lemma {:induction false} SpecsConcat(a: seq<PartitionSpec>, b: seq<PartitionSpec>, counts: PartitionSpec -> bool)
    ensures CountSpecs(a + b, counts) == CountSpecs(a, counts) + CountSpecs(b, counts)
  {
    if a == [] {
      assert a + b == b;
    } else {
      SpecsConcat(a[1..], b, counts);
      assert (a + b)[1..] == a[1..] + b;
    }
  }

  lemma {:induction false} CountExtendOne(combo: Extra, coord: nat, pieces: seq<CoordSelection>, hit: Probe)
    ensures CountCombos(ExtendOne(combo, coord, pieces), hit)
            == if HitsAll(combo, hit) then CountPieces(pieces, coord, hit) else 0
  {
    if pieces != [] {
      CountExtendOne(combo, coord, pieces[1..], hit);
      var first := combo + [(coord, pieces[0])];
      assert HitsAll(first, hit) <==> HitsAll(combo, hit) && hit(coord, pieces[0]) by {
        assert first[|combo|] == (coord, pieces[0]);
        assert forall i :: 0 <= i < |combo| ==> first[i] == combo[i];
      }
      assert ([first] + ExtendOne(combo, coord, pieces[1..]))[1..] == ExtendOne(combo, coord, pieces[1..]);
    }
  }

  lemma {:induction false} CountExtendAll(combos: seq<Extra>, coord: nat, pieces: seq<CoordSelection>, hit: Probe)
    ensures CountCombos(ExtendAll(combos, coord, pieces), hit) == CountCombos(combos, hit) * CountPieces(pieces, coord, hit)
  {
    if combos != [] {
      CountExtendAll(combos[1..], coord, pieces, hit);
      CountExtendOne(combos[0], coord, pieces, hit);
      CombosConcat(ExtendOne(combos[0], coord, pieces), ExtendAll(combos[1..], coord, pieces), hit);
      var n := CountPieces(pieces, coord, hit);
      assert (1 + CountCombos(combos[1..], hit)) * n == n + CountCombos(combos[1..], hit) * n;
    }
  }

  /** A probe hits as many inner boxes as the product of its hits on the axes. */
  lemma {:induction false} CombosMultiply(axes: seq<SplitAxis>, hit: Probe)
    ensures CountCombos(Combos(axes), hit) == ProductOfCounts(axes, hit)
  {
    if axes == [] {
      var empty: Extra := [];
      assert Combos(axes) == [empty] && [empty][1..] == [];
      assert HitsAll(empty, hit);
    } else {
      var last := |axes| - 1;
      CombosMultiply(axes[..last], hit);
      CountExtendAll(Combos(axes[..last]), axes[last].coord, axes[last].pieces, hit);
    }
  }

  lemma {:induction false} CountBoxRow(outer: CoordSelection, combos: seq<Extra>, outerHit: CoordSelection -> bool, hit: Probe)
    ensures CountSpecs(BoxRow(outer, combos), BoxProbe(outerHit, hit)) == if outerHit(outer) then CountCombos(combos, hit) else 0
  {
    if combos != [] {
      CountBoxRow(outer, combos[1..], outerHit, hit);
      assert BoxRow(outer, combos)[1..] == BoxRow(outer, combos[1..]);
    }
  }

  /** A probe hits as many boxes as outer slices times inner boxes. */
  lemma {:induction false} BoxesMultiply(outers: seq<PartitionSpec>, combos: seq<Extra>, outerHit: CoordSelection -> bool, hit: Probe)
    ensures CountSpecs(Boxes(outers, combos), BoxProbe(outerHit, hit))
            == CountSpecs(outers, OuterProbe(outerHit)) * CountCombos(combos, hit)
  {
    if outers != [] {
      BoxesMultiply(outers[1..], combos, outerHit, hit);
      CountBoxRow(outers[0].outer, combos, outerHit, hit);
      SpecsConcat(BoxRow(outers[0].outer, combos), Boxes(outers[1..], combos), BoxProbe(outerHit, hit));
      var rest, n := CountSpecs(outers[1..], OuterProbe(outerHit)), CountCombos(combos, hit);
      assert (1 + rest) * n == n + rest * n;
    }
  }

  // ---------------------------------------------------------------------------------------------
  // Sizes
  // ---------------------------------------------------------------------------------------------

  function ProductOfLengths(axes: seq<SplitAxis>): nat {
    if axes == [] then 1 else ProductOfLengths(axes[..|axes| - 1]) * |axes[|axes| - 1].pieces|
  }

  lemma {:induction false} ExtendAllLength(combos: seq<Extra>, coord: nat, pieces: seq<CoordSelection>)
    ensures |ExtendAll(combos, coord, pieces)| == |combos| * |pieces|
  {
    if combos != [] {
      ExtendAllLength(combos[1..], coord, pieces);
      ExtendOneLength(combos[0], coord, pieces);
      assert |combos| * |pieces| == |combos[1..]| * |pieces| + |pieces|;
    }
  }

  lemma {:induction false} ExtendOneLength(combo: Extra, coord: nat, pieces: seq<CoordSelection>)
    ensures |ExtendOne(combo, coord, pieces)| == |pieces|
  {
    if pieces != [] { ExtendOneLength(combo, coord, pieces[1..]); }
  }

  lemma {:induction false} CombosLength(axes: seq<SplitAxis>)
    ensures |Combos(axes)| == ProductOfLengths(axes)
  {
    if axes != [] {
      var last := |axes| - 1;
      CombosLength(axes[..last]);
      ExtendAllLength(Combos(axes[..last]), axes[last].coord, axes[last].pieces);
    }
  }

  lemma {:induction false} BoxesLength(outers: seq<PartitionSpec>, combos: seq<Extra>)
    ensures |Boxes(outers, combos)| == |outers| * |combos|
  {
    if outers != [] {
      BoxesLength(outers[1..], combos);
      BoxRowLength(outers[0].outer, combos);
      assert |outers| * |combos| == |outers[1..]| * |combos| + |combos|;
    }
  }

  lemma {:induction false} BoxRowLength(outer: CoordSelection, combos: seq<Extra>)
    ensures |BoxRow(outer, combos)| == |combos|
  {
    if combos != [] { BoxRowLength(outer, combos[1..]); }
  }

  // ---------------------------------------------------------------------------------------------
  // What the boxes contain
  // ---------------------------------------------------------------------------------------------

  /** An inner box restricts the split axes, in order, each to one of its pieces. */
  ghost predicate OfAxes(extra: Extra, axes: seq<SplitAxis>) {
    |extra| == |axes| && forall i :: 0 <= i < |axes| ==> extra[i].0 == axes[i].coord && extra[i].1 in axes[i].pieces
  }

  lemma {:induction false} ExtendOneHas(combo: Extra, coord: nat, pieces: seq<CoordSelection>, c: Extra)
    requires c in ExtendOne(combo, coord, pieces)
    ensures |c| == |combo| + 1 && c[..|combo|] == combo && c[|combo|].0 == coord && c[|combo|].1 in pieces
  {
    if c != combo + [(coord, pieces[0])] {
      ExtendOneHas(combo, coord, pieces[1..], c);
    }
  }

  lemma {:induction false} ExtendAllHas(combos: seq<Extra>, coord: nat, pieces: seq<CoordSelection>, c: Extra)
    requires c in ExtendAll(combos, coord, pieces)
    ensures |c| > 0 && c[..|c| - 1] in combos && c[|c| - 1].0 == coord && c[|c| - 1].1 in pieces
  {
    if c in ExtendOne(combos[0], coord, pieces) {
      ExtendOneHas(combos[0], coord, pieces, c);
    } else {
      ExtendAllHas(combos[1..], coord, pieces, c);
    }
  }

  lemma {:induction false} CombosHave(axes: seq<SplitAxis>, c: Extra)
    requires c in Combos(axes)
    ensures OfAxes(c, axes)
  {
    if axes != [] {
      var last := |axes| - 1;
      ExtendAllHas(Combos(axes[..last]), axes[last].coord, axes[last].pieces, c);
      CombosHave(axes[..last], c[..|c| - 1]);
      OfAxesSnoc(c, axes);
    }
  }

  lemma OfAxesSnoc(c: Extra, axes: seq<SplitAxis>)
    requires axes != [] && c != [] && OfAxes(c[..|c| - 1], axes[..|axes| - 1])
    requires c[|c| - 1].0 == axes[|axes| - 1].coord && c[|c| - 1].1 in axes[|axes| - 1].pieces
    ensures OfAxes(c, axes)
  {
    var last := |axes| - 1;
    forall i | 0 <= i < |axes| ensures c[i].0 == axes[i].coord && c[i].1 in axes[i].pieces {
      if i < last { assert c[..last][i] == c[i] && axes[..last][i] == axes[i]; }
    }
  }

  lemma {:induction false} BoxRowHas(outer: CoordSelection, combos: seq<Extra>, spec: PartitionSpec)
    requires spec in BoxRow(outer, combos)
    ensures spec.outer == outer && spec.extra in combos
  {
    if spec != PartitionSpec(outer, combos[0]) { BoxRowHas(outer, combos[1..], spec); }
  }

  lemma {:induction false} BoxesHave(outers: seq<PartitionSpec>, combos: seq<Extra>, spec: PartitionSpec)
    requires spec in Boxes(outers, combos)
    ensures spec.extra in combos
    ensures exists i :: 0 <= i < |outers| && outers[i].outer == spec.outer
  {
    if spec in BoxRow(outers[0].outer, combos) {
      BoxRowHas(outers[0].outer, combos, spec);
      assert outers[0].outer == spec.outer;
    } else {
      BoxesHave(outers[1..], combos, spec);
      var i :| 0 <= i < |outers[1..]| && outers[1..][i].outer == spec.outer;
      assert outers[i + 1].outer == spec.outer;
    }
  }

  lemma BoxOfAxes(outers: seq<PartitionSpec>, axes: seq<SplitAxis>, spec: PartitionSpec)
    requires spec in Boxes(outers, Combos(axes))
    ensures OfAxes(spec.extra, axes)
  {
    BoxesHave(outers, Combos(axes), spec);
    CombosHave(axes, spec.extra);
  }

  // ---------------------------------------------------------------------------------------------
  // Counts of zero, one and two
  // ---------------------------------------------------------------------------------------------

  lemma {:induction false} SpecsZero(specs: seq<PartitionSpec>, counts: PartitionSpec -> bool)
    requires forall s :: s in specs ==> !counts(s)
    ensures CountSpecs(specs, counts) == 0
  {
    if specs != [] { SpecsZero(specs[1..], counts); }
  }

  lemma {:induction false} SpecsAll(specs: seq<PartitionSpec>, counts: PartitionSpec -> bool)
    requires forall s :: s in specs ==> counts(s)
    ensures CountSpecs(specs, counts) == |specs|
  {
    if specs != [] { SpecsAll(specs[1..], counts); }
  }

  lemma {:induction false} SpecsAgree(specs: seq<PartitionSpec>, a: PartitionSpec -> bool, b: PartitionSpec -> bool)
    requires forall s :: s in specs ==> a(s) == b(s)
    ensures CountSpecs(specs, a) == CountSpecs(specs, b)
  {
    if specs != [] { SpecsAgree(specs[1..], a, b); }
  }

  lemma {:induction false} SpecsTwo(specs: seq<PartitionSpec>, counts: PartitionSpec -> bool, i: nat, j: nat)
    requires i < j < |specs| && counts(specs[i]) && counts(specs[j])
    ensures CountSpecs(specs, counts) >= 2
  {
    if i == 0 {
      SpecsOne(specs[1..], counts, j - 1);
    } else {
      SpecsTwo(specs[1..], counts, i - 1, j - 1);
    }
  }

  lemma {:induction false} SpecsOne(specs: seq<PartitionSpec>, counts: PartitionSpec -> bool, i: nat)
    requires i < |specs| && counts(specs[i])
    ensures CountSpecs(specs, counts) >= 1
  {
    if i > 0 { SpecsOne(specs[1..], counts, i - 1); }
  }

  lemma {:induction false} PiecesZero(pieces: seq<CoordSelection>, coord: nat, hit: Probe)
    requires forall i :: 0 <= i < |pieces| ==> !hit(coord, pieces[i])
    ensures CountPieces(pieces, coord, hit) == 0
  {
    if pieces != [] { PiecesZero(pieces[1..], coord, hit); }
  }

  lemma {:induction false} PiecesAll(pieces: seq<CoordSelection>, coord: nat, hit: Probe)
    requires forall i :: 0 <= i < |pieces| ==> hit(coord, pieces[i])
    ensures CountPieces(pieces, coord, hit) == |pieces|
  {
    if pieces != [] { PiecesAll(pieces[1..], coord, hit); }
  }

  lemma {:induction false} PiecesAtMostOne(pieces: seq<CoordSelection>, coord: nat, hit: Probe)
    requires forall i, j :: 0 <= i < j < |pieces| ==> !(hit(coord, pieces[i]) && hit(coord, pieces[j]))
    ensures CountPieces(pieces, coord, hit) <= 1
  {
    if pieces != [] {
      if hit(coord, pieces[0]) {
        PiecesZero(pieces[1..], coord, hit);
      } else {
        PiecesAtMostOne(pieces[1..], coord, hit);
      }
    }
  }

  lemma {:induction false} PiecesAtLeastOne(pieces: seq<CoordSelection>, coord: nat, hit: Probe, i: nat)
    requires i < |pieces| && hit(coord, pieces[i])
    ensures CountPieces(pieces, coord, hit) >= 1
  {
    if i > 0 { PiecesAtLeastOne(pieces[1..], coord, hit, i - 1); }
  }

  // ---------------------------------------------------------------------------------------------
  // Probing an exact split
  // ---------------------------------------------------------------------------------------------

  /** Is the position of `cell` on this coordinate selected, if the coordinate is looked `on` at all? */
  ghost function CellProbe(on: set<nat>, cell: seq<nat>): Probe {
    (k: nat, sel: CoordSelection) => k in on ==> k < |cell| && sel.Has(cell[k])
  }

  ghost predicate Touches(sel: CoordSelection, chunk: nat, id: nat)
    requires chunk > 0
  {
    exists x: nat :: sel.Has(x) && x / chunk == id
  }

  lemma CellHitsOnePiece(pieces: seq<CoordSelection>, sel: CoordSelection, chunk: nat, coord: nat, on: set<nat>, cell: seq<nat>)
    requires chunk > 0 && ExactSplit(pieces, sel, chunk) && coord in on && coord < |cell|
    ensures CountPieces(pieces, coord, CellProbe(on, cell)) == if sel.Has(cell[coord]) then 1 else 0
  {
    var hit := CellProbe(on, cell);
    var x := cell[coord];
    PiecesAtMostOne(pieces, coord, hit);
    if sel.Has(x) {
      var i :| 0 <= i < |pieces| && pieces[i].Has(x);
      PiecesAtLeastOne(pieces, coord, hit, i);
    } else {
      PiecesZero(pieces, coord, hit);
    }
  }
}
