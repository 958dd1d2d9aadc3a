/** The coordinates a projection depends on; the reader drops the others from its rows. */
module Projection {
  import opened Options
  import opened FanOut
  import opened RangeSearch
  import opened ShapeMatching

  /** The coordinates named by the dimensions, as far as there are any. */
  function NamedCoords(dims: seq<string>, coords: seq<CoordMeta>): (r: seq<nat>)
    ensures |r| <= |dims|
    ensures |r| == |dims| ==> forall k :: 0 <= k < |r| ==> r[k] < |coords| && coords[r[k]].name == dims[k]
    ensures |r| == |dims| <==> forall k :: 0 <= k < |dims| ==> PositionByName(coords, dims[k]).Some?
    ensures forall k :: 0 <= k < |r| ==> r[k] < |coords|
  {
    if dims == [] then []
    else
      var first, rest := PositionByName(coords, dims[0]), NamedCoords(dims[1..], coords);
      assert forall k :: 0 < k < |dims| ==> dims[k] == dims[1..][k - 1];
      if first.Some? then [first.value] + rest else rest
  }

  function SizesOf(coords: seq<CoordMeta>): (r: seq<nat>)
    ensures |r| == |coords| && forall k :: 0 <= k < |r| ==> r[k] == coords[k].size
  {
    seq(|coords|, k requires 0 <= k < |coords| => coords[k].size)
  }

  /** `get_variable_coords`: by dimension names when all are found, else greedily by size. */
  function VariableCoords(v: VarMeta, coords: seq<CoordMeta>): seq<nat> {
    if v.dims.Some? && |NamedCoords(v.dims.value, coords)| == |v.dims.value| then NamedCoords(v.dims.value, coords)
    else MatchFrom(v.shape, SizesOf(coords), {})
  }

  /** Every entry is one of `n` coordinates. */
  predicate Indexes(e: seq<nat>, n: nat) {
    forall j :: 0 <= j < |e| ==> e[j] < n
  }

  function AllCoords(n: nat): (r: seq<nat>)
    ensures |r| == n && forall k :: 0 <= k < n ==> r[k] == k
  {
    seq(n, k => k)
  }

  /** `determine_effective_coords` without a limit; None is the mixed-dimension error. */
  function EffectiveCoords(projected: seq<VarMeta>, coords: seq<CoordMeta>): Option<seq<nat>> {
    if projected == [] then Some(AllCoords(|coords|))
    else
      var first := VariableCoords(projected[0], coords);
      if forall k :: 0 <= k < |projected| ==> VariableCoords(projected[k], coords) == first then Some(first) else None
  }

  /** The projected coordinate columns, in coordinate order. */
  function ShownCoords(shown: seq<string>, coords: seq<CoordMeta>): (r: seq<nat>)
    ensures Indexes(r, |coords|)
  {
    var named := NamedCoords(shown, coords);
    var sorted := SortDedup(named);
    assert forall k :: k in named ==> k < |coords|;
    assert forall j :: 0 <= j < |sorted| ==> sorted[j] in named;
    sorted
  }

  /** `determine_effective_coords` with a limit: without a data variable, only the projected coordinates count. */
  function LimitedCoords(projected: seq<VarMeta>, shown: seq<string>, coords: seq<CoordMeta>): Option<seq<nat>> {
    if projected != [] || shown == [] || ShownCoords(shown, coords) == [] then EffectiveCoords(projected, coords)
    else Some(ShownCoords(shown, coords))
  }

  /** A partition's sizes of the coordinates that count. */
  function QuerySizes(e: seq<nat>, sizes: seq<nat>): (r: seq<nat>)
    requires Indexes(e, |sizes|)
    ensures |r| == |e| && forall j :: 0 <= j < |e| ==> r[j] == sizes[e[j]]
  {
    seq(|e|, j requires 0 <= j < |e| => sizes[e[j]])
  }

  /** The variable has a coordinate of its length for every dimension, found by name, or by size without names. */
  ghost predicate Spanned(v: VarMeta, coords: seq<CoordMeta>) {
    if v.dims.Some? then
      && |v.dims.value| == |v.shape|
      && forall d :: 0 <= d < |v.shape| ==>
           var k := PositionByName(coords, v.dims.value[d]); k.Some? && coords[k.value].size == v.shape[d]
    else exists f :: Assignment(f, v.shape, SizesOf(coords), {})
  }

  /** An unfiltered read of projected variables has exactly the elements of each: its sizes are their shape. */
  lemma EffectiveSpansVariables(projected: seq<VarMeta>, coords: seq<CoordMeta>, k: nat)
    requires EffectiveCoords(projected, coords).Some? && k < |projected| && Spanned(projected[k], coords)
    ensures var e := EffectiveCoords(projected, coords).value;
            Indexes(e, |coords|) && QuerySizes(e, SizesOf(coords)) == projected[k].shape
  {
    var v := projected[k];
    if v.dims.Some? { NamedInOrder(v.dims.value, coords); } else { FullySized(v, coords); }
  }

  lemma {:induction false} NamedInOrder(dims: seq<string>, coords: seq<CoordMeta>)
    requires forall d :: 0 <= d < |dims| ==> PositionByName(coords, dims[d]).Some?
    ensures |NamedCoords(dims, coords)| == |dims|
    ensures forall d :: 0 <= d < |dims| ==> Some(NamedCoords(dims, coords)[d]) == PositionByName(coords, dims[d])
  {
    if dims != [] {
      NamedInOrder(dims[1..], coords);
      assert forall d :: 0 < d < |dims| ==> dims[d] == dims[1..][d - 1];
    }
  }

  /** A variable without dimension names uses distinct coordinates of its sizes whenever there are such. */
  lemma FullySized(v: VarMeta, coords: seq<CoordMeta>)
    requires v.dims.None? && exists f :: Assignment(f, v.shape, SizesOf(coords), {})
    ensures Assignment(VariableCoords(v, coords), v.shape, SizesOf(coords), {})
  {
    GreedyMatchComplete(v.shape, SizesOf(coords));
    FullMatchAssigns(v.shape, SizesOf(coords), {});
  }
}
