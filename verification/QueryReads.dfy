/**
 A filtered query end to end: filters resolved on the head and on the workers, the surviving box
 planned and dealt out, and every qualifying row read exactly once.
 */
module QueryReads {
  import opened Options
  import opened Selection
  import opened RangeSearch
  import opened FilterComposition
  import opened Pushdown
  import opened PushdownSoundness
  import opened PushdownExactness
  import opened FanOut
  import opened Projection
  import opened ScanPlan
  import opened ScanCover

  /** The store's coordinates and first data variable, the filters, the projected variables, the parallelism. */
  datatype Query = Query(filters: seq<Expr>, grid: Grid, v: VarMeta, projected: seq<VarMeta>, target: nat) {
    function Parsed(k: nat): Option<seq<FilterKind>>
      requires k < |grid.names|
    {
      ParseFilters(filters, Names(grid), grid.names[k])
    }
  }

  function Metas(g: Grid): (r: seq<CoordMeta>)
    requires |g.names| == |g.values|
    ensures |r| == |g.names| && forall k :: 0 <= k < |r| ==> r[k] == CoordMeta(g.names[k], g.values[k].Len())
  {
    seq(|g.names|, k requires 0 <= k < |g.names| => CoordMeta(g.names[k], g.values[k].Len()))
  }

  function OuterIndex(q: Query): (r: Option<nat>)
    requires |q.grid.names| == |q.grid.values|
    ensures r.Some? ==> r.value < |q.grid.names| && q.grid.values[r.value].Len() == OuterLen(q.v)
  {
    PositionBySize(Metas(q.grid), OuterLen(q.v))
  }

  /** `resolve_outer_selection`, run on the head. */
  function ResolveOuter(cal: Calendar, q: Query): OuterSelection
    requires |q.grid.names| == |q.grid.values|
  {
    var o := OuterIndex(q);
    if o.None? || q.Parsed(o.value).None? then Unfiltered
    else
      var sel := Resolve(cal, q.Parsed(o.value), q.grid.values[o.value]);
      if sel.Some? then Resolved(sel.value) else Empty
  }

  function FilteredNames(q: Query): set<string> {
    set c | c in q.grid.names && ParseFilters(q.filters, Names(q.grid), c).Some?
  }

  function ScanOf(cal: Calendar, q: Query): Scan
    requires |q.grid.names| == |q.grid.values|
  {
    Scan(None, false, Metas(q.grid), [q.v], FilteredNames(q), ResolveOuter(cal, q), q.target)
  }

  /** `filters_without_outer`: a worker resolves every filter but the outer one. */
  function WorkerResolve(cal: Calendar, q: Query, k: nat): Option<CoordSelection>
    requires k < |q.grid.names| == |q.grid.values|
  {
    Resolve(cal, if OuterIndex(q) == Some(k) then None else q.Parsed(k), q.grid.values[k])
  }

  predicate WorkersResolve(cal: Calendar, q: Query)
    requires |q.grid.names| == |q.grid.values|
  {
    forall k :: 0 <= k < |q.grid.names| ==> WorkerResolve(cal, q, k).Some?
  }

  /** The workers' selections; a worker that finds some filter empty reads nothing. */
  function WorkerBase(cal: Calendar, q: Query): (r: seq<CoordSelection>)
    requires |q.grid.names| == |q.grid.values| && WorkersResolve(cal, q)
    ensures |r| == |q.grid.names|
    ensures forall k :: 0 <= k < |r| ==> WorkerResolve(cal, q, k) == Some(r[k])
  {
    seq(|q.grid.names|, k requires 0 <= k < |q.grid.names| => WorkerResolve(cal, q, k).value)
  }

  /** Sorted coordinates with distinct names, of which one is as long as the outer axis and those
      named like an inner axis are as long as it. */
  ghost predicate QueryOk(q: Query) {
    && GridOk(q.grid) && PartsResolvable(q.filters, q.grid)
    && (forall i, j :: 0 <= i < j < |q.grid.names| ==> q.grid.names[i] != q.grid.names[j])
    && OuterIndex(q).Some?
    && |q.v.shape| > 0 && DistinctDims(q.v)
    && forall a :: 1 <= a < |q.v.shape| && CoordIndexForAxis(q.v, a, Metas(q.grid)).Some? ==>
         q.grid.values[CoordIndexForAxis(q.v, a, Metas(q.grid)).value].Len() == q.v.shape[a]
  }

  lemma OuterResolvesValid(cal: Calendar, q: Query)
    requires QueryOk(q)
    ensures OuterValid(ScanOf(cal, q)) && OuterCoord(ScanOf(cal, q)) == OuterIndex(q)
  {
    var o := OuterIndex(q).value;
    ParsedResolvable(q.filters, q.grid, o);
    ResolveExact(cal, q.Parsed(o), q.grid.values[o]);
  }

  lemma QueryWellFormed(cal: Calendar, q: Query)
    requires QueryOk(q) && WorkersResolve(cal, q)
    ensures WellFormed(ScanOf(cal, q), WorkerBase(cal, q))
  {
    var scan, base := ScanOf(cal, q), WorkerBase(cal, q);
    OuterResolvesValid(cal, q);
    forall k | 0 <= k < |base| && scan.coords[k].name !in scan.filtered ensures base[k] == Range(0, scan.coords[k].size) {
      assert WorkerResolve(cal, q, k) == Some(base[k]) && q.Parsed(k).None?;
    }
  }

  /** The projected variables have one set of dimensions; others are refused with an error. */
  predicate OneDimensionality(q: Query) {
    |q.grid.names| == |q.grid.values| && EffectiveCoords(q.projected, Metas(q.grid)).Some?
  }

  /** The coordinates that the projected columns depend on. */
  function On(q: Query): set<nat>
    requires OneDimensionality(q)
  {
    set k | k in EffectiveCoords(q.projected, Metas(q.grid)).value
  }

  /** How many slots of all tasks emit the projection of row `p`. */
  ghost function SlotsFor(cal: Calendar, q: Query, on: set<nat>, tasks: nat, p: seq<nat>): nat
    requires QueryOk(q) && |p| == |q.grid.names|
  {
    if !WorkersResolve(cal, q) then 0
    else
      QueryWellFormed(cal, q);
      SlotsReading(ScanOf(cal, q), WorkerBase(cal, q), on, tasks, p)
  }

  /** A coordinate resolved where the filters are known selects the position. */
  ghost predicate Selected(cal: Calendar, q: Query, k: nat, x: nat)
    requires k < |q.grid.names| == |q.grid.values|
  {
    var sel := Resolve(cal, q.Parsed(k), q.grid.values[k]);
    sel.Some? && sel.value.Has(x)
  }

  ghost predicate SelectedOn(cal: Calendar, q: Query, on: set<nat>, p: seq<nat>)
    requires |p| == |q.grid.names| == |q.grid.values|
  {
    forall k :: 0 <= k < |p| && k in on ==> Selected(cal, q, k, p[k])
  }

  lemma OuterSelects(cal: Calendar, q: Query, x: nat)
    requires QueryOk(q)
    ensures OuterSel(ScanOf(cal, q)).Has(x) <==> Selected(cal, q, OuterIndex(q).value, x)
  {
  }

  lemma SurvivorsAreSelected(cal: Calendar, q: Query, on: set<nat>, p: seq<nat>)
    requires QueryOk(q) && WorkersResolve(cal, q) && |p| == |q.grid.names|
    requires WellFormed(ScanOf(cal, q), WorkerBase(cal, q))
    ensures Survives(ScanOf(cal, q), WorkerBase(cal, q), on, p) <==> SelectedOn(cal, q, on, p)
  {
    var base, o := WorkerBase(cal, q), OuterIndex(q).value;
    OuterResolvesValid(cal, q);
    OuterSelects(cal, q, p[o]);
    forall k | 0 <= k < |base| && k != o ensures base[k].Has(p[k]) <==> Selected(cal, q, k, p[k]) {
      assert WorkerResolve(cal, q, k) == Some(base[k]);
    }
  }

  lemma SelectedByAll(cal: Calendar, q: Query, p: seq<nat>)
    requires QueryOk(q) && |p| == |q.grid.names|
    ensures SelectsRow(CoordRanges(cal, q.filters, q.grid), p) <==> forall k :: 0 <= k < |p| ==> Selected(cal, q, k, p[k])
  {
    var g := q.grid;
    CoordRangesAre(cal, q.filters, Names(g), g.names, g.values);
    var r := CoordRanges(cal, q.filters, g);
    if r.Some? {
      forall k | 0 <= k < |p| ensures r.value[k].Has(p[k]) <==> Selected(cal, q, k, p[k]) {
        assert Resolve(cal, ParseFilters(q.filters, Names(g), g.names[k]), g.values[k]) == Some(r.value[k]);
      }
    } else {
      var k :| 0 <= k < |g.names| && Resolve(cal, ParseFilters(q.filters, Names(g), g.names[k]), g.values[k]).None?;
      assert !Selected(cal, q, k, p[k]);
    }
  }

  // ---------------------------------------------------------------------------------------------
  // Rows of a projection
  // ---------------------------------------------------------------------------------------------

  predicate AgreeOn(on: set<nat>, p: seq<nat>, r: seq<nat>) {
    |p| == |r| && forall k :: 0 <= k < |p| && k in on ==> p[k] == r[k]
  }

  /** Some row that the filters select has the same projection. */
  ghost predicate ProjectsSelected(cal: Calendar, q: Query, on: set<nat>, p: seq<nat>)
    requires |q.grid.names| == |q.grid.values|
  {
    exists r: seq<nat> :: AgreeOn(on, p, r) && SelectsRow(CoordRanges(cal, q.filters, q.grid), r)
  }

  ghost predicate DroppedNonEmpty(q: Query, on: set<nat>)
    requires |q.grid.names| == |q.grid.values|
  {
    forall k :: 0 <= k < |q.grid.names| && k !in on ==> q.grid.values[k].Len() > 0
  }

  lemma ResolvedNonEmpty(cal: Calendar, q: Query, k: nat)
    requires QueryOk(q) && k < |q.grid.names| && q.grid.values[k].Len() > 0
    requires Resolve(cal, q.Parsed(k), q.grid.values[k]).Some?
    ensures exists x: nat :: Selected(cal, q, k, x)
  {
    var c, r := q.grid.values[k], Resolve(cal, q.Parsed(k), q.grid.values[k]);
    ParsedResolvable(q.filters, q.grid, k);
    ResolveExact(cal, q.Parsed(k), c);
    if q.Parsed(k).None? {
      assert Selected(cal, q, k, 0);
    } else {
      var i :| 0 <= i < c.Len() && AllMatch(cal, c.isTimestamp, q.Parsed(k).value, c.Vector()[i]);
      assert Selected(cal, q, k, i);
    }
  }

  /** A position that the coordinate's filters select. */
  ghost function SomePosition(cal: Calendar, q: Query, k: nat): (x: nat)
    requires QueryOk(q) && k < |q.grid.names| && q.grid.values[k].Len() > 0
    requires Resolve(cal, q.Parsed(k), q.grid.values[k]).Some?
    ensures Selected(cal, q, k, x)
  {
    ResolvedNonEmpty(cal, q, k);
    var x: nat :| Selected(cal, q, k, x);
    x
  }

  lemma WorkerResolved(cal: Calendar, q: Query, k: nat)
    requires QueryOk(q) && WorkersResolve(cal, q) && k < |q.grid.names| && OuterIndex(q) != Some(k)
    ensures Resolve(cal, q.Parsed(k), q.grid.values[k]).Some?
  {
    assert WorkerResolve(cal, q, k).Some?;
  }

  ghost predicate DroppedResolve(cal: Calendar, q: Query, on: set<nat>)
    requires |q.grid.names| == |q.grid.values|
  {
    forall k :: 0 <= k < |q.grid.names| && k !in on ==> Resolve(cal, q.Parsed(k), q.grid.values[k]).Some?
  }

  lemma DroppedResolved(cal: Calendar, q: Query, on: set<nat>)
    requires QueryOk(q) && WorkersResolve(cal, q)
    requires OuterIndex(q).value in on || Resolve(cal, q.Parsed(OuterIndex(q).value), q.grid.values[OuterIndex(q).value]).Some?
    ensures DroppedResolve(cal, q, on)
  {
    forall k | 0 <= k < |q.grid.names| && k !in on ensures Resolve(cal, q.Parsed(k), q.grid.values[k]).Some? {
      if OuterIndex(q) != Some(k) { WorkerResolved(cal, q, k); }
    }
  }

  /** A projected row that is selected where it is looked at can be completed to a selected row. */
  lemma Completed(cal: Calendar, q: Query, on: set<nat>, p: seq<nat>)
    requires QueryOk(q) && |p| == |q.grid.names| && DroppedNonEmpty(q, on) && DroppedResolve(cal, q, on) && SelectedOn(cal, q, on, p)
    ensures ProjectsSelected(cal, q, on, p)
  {
    var r := seq(|p|, k requires 0 <= k < |p| => if k in on then p[k] else SomePosition(cal, q, k));
    forall k | 0 <= k < |r| ensures Selected(cal, q, k, r[k]) {
      if k in on { assert Selected(cal, q, k, p[k]); }
    }
    SelectedByAll(cal, q, r);
    assert AgreeOn(on, p, r);
  }

  lemma SelectedProjects(cal: Calendar, q: Query, on: set<nat>, p: seq<nat>)
    requires QueryOk(q) && |p| == |q.grid.names| && DroppedNonEmpty(q, on) && DroppedResolve(cal, q, on)
    ensures ProjectsSelected(cal, q, on, p) <==> SelectedOn(cal, q, on, p)
  {
    if SelectedOn(cal, q, on, p) { Completed(cal, q, on, p); }
    if ProjectsSelected(cal, q, on, p) {
      var r: seq<nat> :| AgreeOn(on, p, r) && SelectsRow(CoordRanges(cal, q.filters, q.grid), r);
      SelectedByAll(cal, q, r);
      forall k | 0 <= k < |p| && k in on ensures Selected(cal, q, k, p[k]) { assert Selected(cal, q, k, r[k]); }
    }
  }

  lemma UnresolvedProjectsNothing(cal: Calendar, q: Query, on: set<nat>, p: seq<nat>)
    requires QueryOk(q) && |p| == |q.grid.names| && !WorkersResolve(cal, q)
    ensures !ProjectsSelected(cal, q, on, p)
  {
    var k :| 0 <= k < |q.grid.names| && WorkerResolve(cal, q, k).None?;
    forall r: seq<nat> | AgreeOn(on, p, r) ensures !SelectsRow(CoordRanges(cal, q.filters, q.grid), r) {
      SelectedByAll(cal, q, r);
      assert !Selected(cal, q, k, r[k]);
    }
  }

  /**
   The scan is always a single box of a non-empty outer selection, or the store is not tied and
   the projection depends on every coordinate that may be split.
   */
  ghost predicate ReadsOnce(cal: Calendar, q: Query, on: set<nat>)
    requires QueryOk(q)
  {
    OuterResolvesValid(cal, q);
    var scan := ScanOf(cal, q);
    (LoneBox(scan) && !OuterSel(scan).IsEmpty()) || (!TiedOuter(scan) && SpansSplits(scan, on))
  }

  lemma OuterNonEmpty(cal: Calendar, q: Query)
    requires QueryOk(q) && OuterValid(ScanOf(cal, q)) && !OuterSel(ScanOf(cal, q)).IsEmpty()
    ensures Resolve(cal, q.Parsed(OuterIndex(q).value), q.grid.values[OuterIndex(q).value]).Some?
  {
    EmptyHasNothing(OuterSel(ScanOf(cal, q)));
    var x: nat :| OuterSel(ScanOf(cal, q)).Has(x);
    OuterSelects(cal, q, x);
  }

  /**
   Head, planner, dealing and workers together emit a projected row exactly once if it is the
   projection of a row that all coordinates' filters select, and never otherwise.
   */
  lemma SelectedRowsReadOnce(cal: Calendar, q: Query, on: set<nat>, tasks: nat, p: seq<nat>)
    requires QueryOk(q) && |p| == |q.grid.names| && DroppedNonEmpty(q, on) && ReadsOnce(cal, q, on)
    ensures SlotsFor(cal, q, on, tasks, p) == if ProjectsSelected(cal, q, on, p) then 1 else 0
  {
    OuterResolvesValid(cal, q);
    if WorkersResolve(cal, q) {
      QueryWellFormed(cal, q);
      ExactCover(ScanOf(cal, q), WorkerBase(cal, q), on, tasks, p);
      SurvivorsAreSelected(cal, q, on, p);
      if OuterIndex(q).value !in on { OuterNonEmpty(cal, q); }
      DroppedResolved(cal, q, on);
      SelectedProjects(cal, q, on, p);
    } else {
      UnresolvedProjectsNothing(cal, q, on, p);
    }
  }

  /** The projection of every row that satisfies all the filters is emitted exactly once. */
  lemma QualifyingRowsReadOnce(q: Query, tasks: nat, p: seq<nat>, w: World)
    requires QueryOk(q) && OneDimensionality(q) && RowAt(q.grid, p, w) && DroppedNonEmpty(q, On(q)) && ReadsOnce(w.cal, q, On(q))
    requires forall f :: f in q.filters ==> ColumnFirst(f, Names(q.grid)) && Holds(f, w)
    ensures SlotsFor(w.cal, q, On(q), tasks, p) == 1
  {
    PushdownSound(q.filters, q.grid, p, w);
    assert AgreeOn(On(q), p, p);
    SelectedRowsReadOnce(w.cal, q, On(q), tasks, p);
  }

  // ---------------------------------------------------------------------------------------------
  // Nothing else is read
  // ---------------------------------------------------------------------------------------------

  /** A row at position `r` that satisfies every filter, under the calendar. */
  ghost predicate Qualifies(cal: Calendar, q: Query, r: seq<nat>)
    requires GridOk(q.grid)
  {
    exists w: World :: w.cal == cal && RowAt(q.grid, r, w) && forall f :: f in q.filters ==> Holds(f, w)
  }

  ghost predicate ProjectsQualifying(cal: Calendar, q: Query, on: set<nat>, p: seq<nat>)
    requires GridOk(q.grid)
  {
    exists r: seq<nat> :: AgreeOn(on, p, r) && Qualifies(cal, q, r)
  }

  function IndexOf(names: seq<string>, c: string): (r: Option<nat>)
    ensures r.Some? ==> r.value < |names| && names[r.value] == c
    ensures r.None? ==> c !in names
  {
    if names == [] then None
    else if names[0] == c then Some(0)
    else
      var rest := IndexOf(names[1..], c);
      if rest.Some? then Some(rest.value + 1) else None
  }

  /** The coordinate columns of row `r`; nothing else is known of it. */
  ghost function WorldAt(cal: Calendar, g: Grid, r: seq<nat>): World
    requires |g.names| == |g.values| == |r|
  {
    World(c => var k := IndexOf(g.names, c);
               if k.Some? && r[k.value] < g.values[k.value].Len() then IntVal(g.values[k.value].Vector()[r[k.value]]) else NullVal,
          set k | 0 <= k < |g.names| && g.values[k].isTimestamp :: g.names[k], cal, _ => NullVal)
  }

  lemma WorldAtShows(cal: Calendar, g: Grid, r: seq<nat>, k: nat)
    requires k < |g.names| == |g.values| == |r| && r[k] < g.values[k].Len()
    requires forall i, j :: 0 <= i < j < |g.names| ==> g.names[i] != g.names[j]
    ensures WorldAt(cal, g, r).row(g.names[k]) == IntVal(g.values[k].Vector()[r[k]])
    ensures g.names[k] in WorldAt(cal, g, r).timestamps <==> g.values[k].isTimestamp
  {
    assert IndexOf(g.names, g.names[k]) == Some(k);
    assert forall i :: 0 <= i < |g.names| && g.names[i] == g.names[k] ==> i == k;
  }

  lemma WorldAtRow(cal: Calendar, g: Grid, r: seq<nat>)
    requires GridOk(g) && |r| == |g.names| && (forall i, j :: 0 <= i < j < |g.names| ==> g.names[i] != g.names[j])
    requires forall k :: 0 <= k < |r| ==> r[k] < g.values[k].Len()
    ensures RowAt(g, r, WorldAt(cal, g, r))
  {
    var w := WorldAt(cal, g, r);
    forall k | 0 <= k < |r|
      ensures w.row(g.names[k]) == IntVal(g.values[k].Vector()[r[k]]) && (g.names[k] in w.timestamps <==> g.values[k].isTimestamp)
    {
      WorldAtShows(cal, g, r, k);
    }
  }

  lemma SelectedInRange(cal: Calendar, q: Query, r: seq<nat>)
    requires QueryOk(q) && |r| == |q.grid.names| && SelectsRow(CoordRanges(cal, q.filters, q.grid), r)
    ensures forall k :: 0 <= k < |r| ==> r[k] < q.grid.values[k].Len()
  {
    SelectedByAll(cal, q, r);
    forall k | 0 <= k < |r| ensures r[k] < q.grid.values[k].Len() {
      assert Selected(cal, q, k, r[k]);
      ParsedResolvable(q.filters, q.grid, k);
      ResolveExact(cal, q.Parsed(k), q.grid.values[k]);
    }
  }

  /** A position is selected exactly when its row qualifies. */
  lemma SelectedIsQualified(cal: Calendar, q: Query, r: seq<nat>)
    requires QueryOk(q) && |r| == |q.grid.names|
    requires (forall f :: f in q.filters ==> Pushable(f, Names(q.grid))) && LastImplies(AllConjuncts(q.filters), Names(q.grid))
    ensures SelectsRow(CoordRanges(cal, q.filters, q.grid), r) <==> Qualifies(cal, q, r)
  {
    if SelectsRow(CoordRanges(cal, q.filters, q.grid), r) {
      SelectedInRange(cal, q, r);
      WorldAtRow(cal, q.grid, r);
      PushdownExact(q.filters, q.grid, r, WorldAt(cal, q.grid, r));
    }
    if Qualifies(cal, q, r) {
      var w: World :| w.cal == cal && RowAt(q.grid, r, w) && forall f :: f in q.filters ==> Holds(f, w);
      PushdownExact(q.filters, q.grid, r, w);
    }
  }

  /**
   Exactly the projections of qualifying rows are emitted, each once, when the filters are built from
   pushable predicates and the last bound of each kind implies those it overwrites.
   */
  lemma ExactlyQualifyingRowsRead(cal: Calendar, q: Query, tasks: nat, p: seq<nat>)
    requires QueryOk(q) && OneDimensionality(q) && |p| == |q.grid.names| && DroppedNonEmpty(q, On(q)) && ReadsOnce(cal, q, On(q))
    requires (forall f :: f in q.filters ==> Pushable(f, Names(q.grid))) && LastImplies(AllConjuncts(q.filters), Names(q.grid))
    ensures SlotsFor(cal, q, On(q), tasks, p) == if ProjectsQualifying(cal, q, On(q), p) then 1 else 0
  {
    SelectedRowsReadOnce(cal, q, On(q), tasks, p);
    forall r: seq<nat> | AgreeOn(On(q), p, r) ensures SelectsRow(CoordRanges(cal, q.filters, q.grid), r) <==> Qualifies(cal, q, r) {
      SelectedIsQualified(cal, q, r);
    }
  }

  /** The same query, planned for another parallelism. */
  function Retarget(q: Query, target: nat): Query { q.(target := target) }

  ghost predicate ReadOnceOrNever(cal: Calendar, q: Query, on: set<nat>, tasks: nat, p: seq<nat>) {
    && QueryOk(q) && |p| == |q.grid.names|
    && SlotsFor(cal, q, on, tasks, p) == if ProjectsSelected(cal, q, on, p) then 1 else 0
  }

  /**
   Of a query that selects anything: for every target and number of tasks every projected row is
   emitted exactly once, if and only if the scan is always a single box, or the store is not tied
   and the projection depends on the outer coordinate and on every coordinate that may be split.
   */
  lemma ProjectionReadsOnceIff(cal: Calendar, q: Query, on: set<nat>, survivor: seq<nat>)
    requires QueryOk(q) && |survivor| == |q.grid.names| && DroppedNonEmpty(q, on)
    requires SelectsRow(CoordRanges(cal, q.filters, q.grid), survivor)
    ensures (forall target: nat, tasks: nat, p: seq<nat> :: |p| == |q.grid.names| ==>
               ReadOnceOrNever(cal, Retarget(q, target), on, tasks, p))
            <==> ReadsOnce(cal, q, on)
  {
    if ReadsOnce(cal, q, on) {
      forall target: nat, tasks: nat, p: seq<nat> | |p| == |q.grid.names| ensures ReadOnceOrNever(cal, Retarget(q, target), on, tasks, p) {
        RetargetAlike(cal, q, on, target);
        SelectedRowsReadOnce(cal, Retarget(q, target), on, tasks, p);
      }
    } else {
      var target, tasks := EmittedTwice(cal, q, on, survivor);
      assert !ReadOnceOrNever(cal, Retarget(q, target), on, tasks, survivor);
    }
  }

  lemma RetargetAlike(cal: Calendar, q: Query, on: set<nat>, target: nat)
    requires QueryOk(q)
    ensures QueryOk(Retarget(q, target)) && ScanOf(cal, Retarget(q, target)) == Aimed(ScanOf(cal, q), target)
    ensures ReadsOnce(cal, Retarget(q, target), on) <==> ReadsOnce(cal, q, on)
  {
    OuterResolvesValid(cal, q);
    RetargetScan(cal, q, target);
    LoneAlike(ScanOf(cal, q), target);
    TiedAlike(ScanOf(cal, q), on, target);
  }

  lemma RetargetScan(cal: Calendar, q: Query, target: nat)
    requires QueryOk(q)
    ensures QueryOk(Retarget(q, target)) && ScanOf(cal, Retarget(q, target)) == Aimed(ScanOf(cal, q), target)
  {
  }

  lemma EmittedTwice(cal: Calendar, q: Query, on: set<nat>, survivor: seq<nat>) returns (target: nat, tasks: nat)
    requires QueryOk(q) && |survivor| == |q.grid.names| && !ReadsOnce(cal, q, on)
    requires SelectsRow(CoordRanges(cal, q.filters, q.grid), survivor)
    ensures QueryOk(Retarget(q, target)) && SlotsFor(cal, Retarget(q, target), on, tasks, survivor) >= 2
  {
    SelectedByAll(cal, q, survivor);
    forall k | 0 <= k < |q.grid.names| ensures WorkerResolve(cal, q, k).Some? { assert Selected(cal, q, k, survivor[k]); }
    QueryWellFormed(cal, q);
    SurvivorsAreSelected(cal, q, on, survivor);
    OuterSelects(cal, q, survivor[OuterIndex(q).value]);
    EmptyHasNothing(OuterSel(ScanOf(cal, q)));
    target, tasks := Repeated(ScanOf(cal, q), WorkerBase(cal, q), on, survivor);
    RetargetAlike(cal, q, on, target);
    RetargetWorkers(cal, q, target);
  }

  lemma RetargetWorkers(cal: Calendar, q: Query, target: nat)
    requires QueryOk(q) && WorkersResolve(cal, q)
    ensures WorkersResolve(cal, Retarget(q, target)) && WorkerBase(cal, Retarget(q, target)) == WorkerBase(cal, q)
  {
    forall k | 0 <= k < |q.grid.names| ensures WorkerResolve(cal, Retarget(q, target), k) == WorkerResolve(cal, q, k) {
      assert Retarget(q, target).Parsed(k) == q.Parsed(k);
    }
  }

  /** A projection that depends on all coordinates of a store without a second axis of the outer length. */
  lemma UntiedShapesReadOnce(q: Query, tasks: nat, p: seq<nat>, w: World)
    requires QueryOk(q) && OneDimensionality(q) && RowAt(q.grid, p, w) && forall k: nat :: k < |q.grid.names| ==> k in On(q)
    requires forall a :: 1 <= a < |q.v.shape| ==> q.v.shape[a] != q.v.shape[0]
    requires forall f :: f in q.filters ==> ColumnFirst(f, Names(q.grid)) && Holds(f, w)
    ensures SlotsFor(w.cal, q, On(q), tasks, p) == 1
  {
    OuterResolvesValid(w.cal, q);
    UntiedQuery(w.cal, q);
    QualifyingRowsReadOnce(q, tasks, p, w);
  }

  lemma UntiedQuery(cal: Calendar, q: Query)
    requires QueryOk(q) && OuterCoord(ScanOf(cal, q)) == OuterIndex(q)
    requires forall a :: 1 <= a < |q.v.shape| ==> q.v.shape[a] != q.v.shape[0]
    ensures !TiedOuter(ScanOf(cal, q))
  {
  }
}
