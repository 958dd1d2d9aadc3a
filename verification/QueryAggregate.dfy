/** An aggregate over a planned scan: folding what all slots emit is the GROUP BY of the qualifying rows. */
module QueryAggregate {
  import opened Partition
  import opened TaskDealing
  import opened BoxProduct
  import opened RangeSearch
  import opened ScanPlan
  import opened QueryReads
  import Aggregation

  type Position = seq<nat>

  /** A projected row is named by its position, with 0 for every coordinate the projection drops. */
  ghost predicate Canonical(on: set<nat>, n: nat, p: Position) {
    |p| == n && forall k :: 0 <= k < n && k !in on ==> p[k] == 0
  }

  /** `rows` lists the projected rows that `wanted` picks, each once. */
  ghost predicate Lists(rows: seq<Position>, on: set<nat>, n: nat, wanted: Position -> bool) {
    && (forall i, j :: 0 <= i < j < |rows| ==> rows[i] != rows[j])
    && forall p :: p in rows <==> Canonical(on, n, p) && wanted(p)
  }

  function MapRows(ps: seq<Position>, row: Position -> Aggregation.Row): (r: seq<Aggregation.Row>)
    ensures |r| == |ps| && forall k :: 0 <= k < |ps| ==> r[k] == row(ps[k])
  {
    seq(|ps|, k requires 0 <= k < |ps| => row(ps[k]))
  }

  function FlattenRows(parts: seq<seq<Position>>): seq<Position> {
    if parts == [] then [] else FlattenRows(parts[..|parts| - 1]) + parts[|parts| - 1]
  }

  lemma {:induction false} CountWithoutRepeats(rows: seq<Position>, p: Position)
    requires forall i, j :: 0 <= i < j < |rows| ==> rows[i] != rows[j]
    ensures multiset(rows)[p] == if p in rows then 1 else 0
  {
    if rows != [] {
      CountWithoutRepeats(rows[1..], p);
      assert rows == [rows[0]] + rows[1..];
      if rows[0] == p { assert p !in rows[1..]; }
    }
  }

  /** A row occurs in the slots' output as often as there are slots that emit it. */
  lemma {:induction false} CountOverSlots(slots: seq<PartitionSpec>, parts: seq<seq<Position>>, keep: PartitionSpec -> bool, p: Position)
    requires |slots| == |parts|
    requires forall i :: 0 <= i < |slots| ==> multiset(parts[i])[p] == if keep(slots[i]) then 1 else 0
    ensures multiset(FlattenRows(parts))[p] == CountSpecs(slots, keep)
  {
    if slots != [] {
      var last := |slots| - 1;
      CountOverSlots(slots[..last], parts[..last], keep, p);
      SpecsConcat(slots[..last], [slots[last]], keep);
      assert slots == slots[..last] + [slots[last]];
      assert multiset(FlattenRows(parts)) == multiset(FlattenRows(parts[..last])) + multiset(parts[last]);
    }
  }

  lemma {:induction false} MapKeepsMultiset(a: seq<Position>, b: seq<Position>, row: Position -> Aggregation.Row)
    requires multiset(a) == multiset(b)
    ensures multiset(MapRows(a, row)) == multiset(MapRows(b, row))
    decreases |a|
  {
    if a == [] {
      assert |multiset(b)| == |b|;
      assert b == [];
    } else {
      assert a[0] in multiset(b);
      var j :| 0 <= j < |b| && b[j] == a[0];
      var rest := b[..j] + b[j + 1..];
      RemoveOne(a, b, j, rest);
      MapKeepsMultiset(a[1..], rest, row);
      MapSplit(a, b, j, rest, row);
    }
  }

  lemma RemoveOne(a: seq<Position>, b: seq<Position>, j: nat, rest: seq<Position>)
    requires a != [] && j < |b| && b[j] == a[0] && rest == b[..j] + b[j + 1..] && multiset(a) == multiset(b)
    ensures multiset(a[1..]) == multiset(rest)
  {
    assert a == [a[0]] + a[1..];
    assert b == b[..j] + [b[j]] + b[j + 1..];
    assert multiset(a[1..]) == multiset(a) - multiset{a[0]};
    assert multiset(b) == multiset(b[..j]) + multiset{b[j]} + multiset(b[j + 1..]);
    assert multiset(rest) == multiset(b) - multiset{b[j]};
  }

  lemma MapSplit(a: seq<Position>, b: seq<Position>, j: nat, rest: seq<Position>, row: Position -> Aggregation.Row)
    requires a != [] && j < |b| && b[j] == a[0] && rest == b[..j] + b[j + 1..]
    ensures multiset(MapRows(a, row)) == multiset{row(a[0])} + multiset(MapRows(a[1..], row))
    ensures multiset(MapRows(b, row)) == multiset{row(a[0])} + multiset(MapRows(rest, row))
  {
    assert MapRows(a, row) == [row(a[0])] + MapRows(a[1..], row);
    assert MapRows(b, row) == MapRows(b[..j], row) + [row(b[j])] + MapRows(b[j + 1..], row);
    assert MapRows(rest, row) == MapRows(b[..j], row) + MapRows(b[j + 1..], row);
  }

  // ---------------------------------------------------------------------------------------------
  // The slots of a query
  // ---------------------------------------------------------------------------------------------

  ghost function QuerySlots(cal: Calendar, q: Query, tasks: nat): seq<PartitionSpec>
    requires QueryOk(q)
  {
    OuterResolvesValid(cal, q);
    Slots(Plan(ScanOf(cal, q)), tasks)
  }

  ghost function Emits(cal: Calendar, q: Query, on: set<nat>, slot: PartitionSpec): Position -> bool
    requires QueryOk(q) && WorkersResolve(cal, q)
  {
    (p: Position) => |p| == |q.grid.names| && Reads(WorkerBase(cal, q), OuterIndex(q).value, on, slot, p)
  }

  ghost function Wanted(cal: Calendar, q: Query, on: set<nat>): Position -> bool
    requires |q.grid.names| == |q.grid.values|
  {
    (p: Position) => ProjectsSelected(cal, q, on, p)
  }

  /** Each slot lists what it emits, and `all` lists the projections of the selected rows. */
  ghost predicate Listed(cal: Calendar, q: Query, on: set<nat>, slots: seq<PartitionSpec>, parts: seq<seq<Position>>, all: seq<Position>)
    requires QueryOk(q) && WorkersResolve(cal, q)
  {
    && |parts| == |slots|
    && (forall i :: 0 <= i < |slots| ==> Lists(parts[i], on, |q.grid.names|, Emits(cal, q, on, slots[i])))
    && Lists(all, on, |q.grid.names|, Wanted(cal, q, on))
  }

  lemma EmittedOnce(cal: Calendar, q: Query, on: set<nat>, tasks: nat, parts: seq<seq<Position>>, all: seq<Position>, p: Position)
    requires QueryOk(q) && WorkersResolve(cal, q) && DroppedNonEmpty(q, on) && ReadsOnce(cal, q, on)
    requires Listed(cal, q, on, QuerySlots(cal, q, tasks), parts, all) && Canonical(on, |q.grid.names|, p)
    ensures multiset(FlattenRows(parts))[p] == multiset(all)[p]
  {
    var slots := QuerySlots(cal, q, tasks);
    OuterResolvesValid(cal, q);
    QueryWellFormed(cal, q);
    var keep := ReadsCell(WorkerBase(cal, q), OuterIndex(q).value, on, p);
    forall i | 0 <= i < |slots| ensures multiset(parts[i])[p] == if keep(slots[i]) then 1 else 0 {
      CountWithoutRepeats(parts[i], p);
      assert p in parts[i] <==> Emits(cal, q, on, slots[i])(p);
    }
    CountOverSlots(slots, parts, keep, p);
    SelectedRowsReadOnce(cal, q, on, tasks, p);
    CountWithoutRepeats(all, p);
    assert p in all <==> Wanted(cal, q, on)(p);
  }

  lemma {:induction false} NeverEmitted(parts: seq<seq<Position>>, p: Position)
    requires forall i :: 0 <= i < |parts| ==> p !in parts[i]
    ensures p !in FlattenRows(parts)
  {
    if parts != [] { NeverEmitted(parts[..|parts| - 1], p); }
  }

  /** Together the slots emit the projections of the selected rows, as a multiset. */
  lemma SlotsEmitSelected(cal: Calendar, q: Query, on: set<nat>, tasks: nat, parts: seq<seq<Position>>, all: seq<Position>)
    requires QueryOk(q) && WorkersResolve(cal, q) && DroppedNonEmpty(q, on) && ReadsOnce(cal, q, on)
    requires Listed(cal, q, on, QuerySlots(cal, q, tasks), parts, all)
    ensures multiset(FlattenRows(parts)) == multiset(all)
  {
    forall p: Position ensures multiset(FlattenRows(parts))[p] == multiset(all)[p] {
      if Canonical(on, |q.grid.names|, p) {
        EmittedOnce(cal, q, on, tasks, parts, all, p);
      } else {
        NeverEmitted(parts, p);
      }
    }
  }

  // ---------------------------------------------------------------------------------------------
  // Folding them
  // ---------------------------------------------------------------------------------------------

  lemma {:induction false} BatchesOfSlots(batches: seq<seq<Aggregation.Batch>>, parts: seq<seq<Position>>, row: Position -> Aggregation.Row)
    requires |batches| == |parts| && forall i :: 0 <= i < |parts| ==> Aggregation.FlattenBatches(batches[i]) == MapRows(parts[i], row)
    ensures Aggregation.FlattenPartitions(batches) == MapRows(FlattenRows(parts), row)
  {
    if parts != [] {
      var last := |parts| - 1;
      BatchesOfSlots(batches[..last], parts[..last], row);
      assert MapRows(FlattenRows(parts), row) == MapRows(FlattenRows(parts[..last]), row) + MapRows(parts[last], row);
    }
  }

  /**
   However the slots' rows are cut into batches, folding all of them leaves the GROUP BY of the
   selected rows' projections: exactly their keys, and per key the exact aggregates.
   */
  lemma SlotsAggregateSelected(cal: Calendar, q: Query, on: set<nat>, tasks: nat, parts: seq<seq<Position>>, all: seq<Position>,
                               row: Position -> Aggregation.Row, batches: seq<seq<Aggregation.Batch>>, aggs: seq<Aggregation.AggSpec>, grouped: bool)
    requires QueryOk(q) && WorkersResolve(cal, q) && DroppedNonEmpty(q, on) && ReadsOnce(cal, q, on)
    requires Listed(cal, q, on, QuerySlots(cal, q, tasks), parts, all)
    requires |batches| == |parts| && forall i :: 0 <= i < |parts| ==> Aggregation.FlattenBatches(batches[i]) == MapRows(parts[i], row)
    ensures var groups := Aggregation.FoldPartitions(Aggregation.Initial(aggs, grouped), aggs, grouped, batches);
            Aggregation.IsGroupBy(groups, aggs, grouped, MapRows(all, row))
  {
    var start := Aggregation.Initial(aggs, grouped);
    SlotsEmitSelected(cal, q, on, tasks, parts, all);
    BatchesOfSlots(batches, parts, row);
    Aggregation.SplitInvariant(start, aggs, grouped, batches);
    MapKeepsMultiset(FlattenRows(parts), all, row);
    Aggregation.FoldPermutes(start, aggs, grouped, MapRows(FlattenRows(parts), row), MapRows(all, row));
    Aggregation.FoldIsGroupBy(aggs, grouped, MapRows(all, row));
  }
}
