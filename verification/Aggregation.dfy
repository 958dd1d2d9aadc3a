/** Folding a partitioned, batched scan into grouped aggregates. */
module Aggregation {
  import opened Options

  datatype AggKind = Count | Sum | Avg | Min | Max

  /** An aggregate and its argument column; COUNT(*) has none. */
  datatype AggSpec = AggSpec(kind: AggKind, column: Option<string>)

  type Key = seq<int>

  /** The evaluated GROUP BY key of a row, and its cells; an absent or None cell is null. */
  datatype Row = Row(key: Key, cells: map<string, Option<real>>)

  /**
   A batch: its columns, those that cast to numbers, whether the GROUP BY keys evaluate, how many
   leading rows yield their key, and its rows.
   */
  datatype Batch = Batch(columns: set<string>, numeric: set<string>, keysOk: bool, keyed: nat, rows: seq<Row>)

  /** What a partition's stream yields next. */
  datatype Item = Got(batch: Batch) | Broken

  /** A partition of the input: it cannot be opened, or streams its items. */
  datatype Stream = Refused | Opened(items: seq<Item>)

  datatype Acc = Acc(count: nat, sum: real, min: Option<real>, max: Option<real>) {
    function Push(v: real): Acc {
      Acc(count + 1, sum + v,
          Some(if min.Some? && min.value <= v then min.value else v),
          Some(if max.Some? && max.value >= v then max.value else v))
    }

    function Finalize(kind: AggKind): Output {
      match kind
      case Count => CountOf(count)
      case Sum => NumberOf(if count > 0 then Some(sum) else None)
      case Avg => NumberOf(if count > 0 then Some(sum / count as real) else None)
      case Min => NumberOf(min)
      case Max => NumberOf(max)
    }
  }

  datatype Output = CountOf(n: nat) | NumberOf(v: Option<real>)

  const EMPTY_ACC := Acc(0, 0.0, None, None)

  type Groups = map<Key, seq<Acc>>

  function CellOf(row: Row, column: string): Option<real> {
    if column in row.cells then row.cells[column] else None
  }

  // ---------------------------------------------------------------------------------------------
  // Folding
  // ---------------------------------------------------------------------------------------------

  /** `fold_cell`. */
  function FoldCell(acc: Acc, agg: AggSpec, row: Row): Acc {
    match (agg.kind, agg.column)
    case (Count, None) => acc.(count := acc.count + 1)
    case (Count, Some(col)) => if CellOf(row, col).Some? then acc.(count := acc.count + 1) else acc
    case (_, Some(col)) => if CellOf(row, col).Some? then acc.Push(CellOf(row, col).value) else acc
    case (_, None) => acc
  }

  function NewGroup(aggs: seq<AggSpec>): (g: seq<Acc>)
    ensures |g| == |aggs| && forall i :: 0 <= i < |g| ==> g[i] == EMPTY_ACC
  {
    seq(|aggs|, _ => EMPTY_ACC)
  }

  function FoldGroup(group: seq<Acc>, aggs: seq<AggSpec>, row: Row): (g: seq<Acc>)
    requires |group| == |aggs|
    ensures |g| == |aggs| && forall i :: 0 <= i < |aggs| ==> g[i] == FoldCell(group[i], aggs[i], row)
  {
    seq(|aggs|, i requires 0 <= i < |aggs| => FoldCell(group[i], aggs[i], row))
  }

  predicate GroupsOk(groups: Groups, aggs: seq<AggSpec>) {
    forall k :: k in groups ==> |groups[k]| == |aggs|
  }

  /** Without GROUP BY every row belongs to the one group of the empty key. */
  function KeyOf(grouped: bool, row: Row): Key { if grouped then row.key else [] }

  function Entry(groups: Groups, aggs: seq<AggSpec>, k: Key): seq<Acc> {
    if k in groups then groups[k] else NewGroup(aggs)
  }

  function FoldRow(groups: Groups, aggs: seq<AggSpec>, grouped: bool, row: Row): (g: Groups)
    requires GroupsOk(groups, aggs)
    ensures GroupsOk(g, aggs)
  {
    var k := KeyOf(grouped, row);
    groups[k := FoldGroup(Entry(groups, aggs, k), aggs, row)]
  }

  function FoldRows(groups: Groups, aggs: seq<AggSpec>, grouped: bool, rows: seq<Row>): (g: Groups)
    requires GroupsOk(groups, aggs)
    ensures GroupsOk(g, aggs)
  {
    if rows == [] then groups
    else FoldRow(FoldRows(groups, aggs, grouped, rows[..|rows| - 1]), aggs, grouped, rows[|rows| - 1])
  }

  /** A global aggregate starts with its one group, a grouped one with none. */
  function Initial(aggs: seq<AggSpec>, grouped: bool): (g: Groups)
    ensures GroupsOk(g, aggs)
  {
    if grouped then map[] else map[[] := NewGroup(aggs)]
  }

  function FlattenBatches(batches: seq<Batch>): seq<Row> {
    if batches == [] then [] else FlattenBatches(batches[..|batches| - 1]) + batches[|batches| - 1].rows
  }

  function FlattenPartitions(parts: seq<seq<Batch>>): seq<Row> {
    if parts == [] then [] else FlattenPartitions(parts[..|parts| - 1]) + FlattenBatches(parts[|parts| - 1])
  }

  /** Where batch `b` of partition `p` begins among all rows. */
  function RowOffset(parts: seq<seq<Batch>>, p: nat, b: nat): nat
    requires p <= |parts| && (if p < |parts| then b <= |parts[p]| else b == 0)
  {
    |FlattenPartitions(parts[..p])| + if p < |parts| then |FlattenBatches(parts[p][..b])| else 0
  }

  /** All rows of all batches in turn: every batch's rows lie at its offset, and end where the next batch begins. */
  lemma FlattenInOrder(parts: seq<seq<Batch>>, p: nat, b: nat)
    requires p < |parts| && b < |parts[p]|
    ensures var all, at, rows := FlattenPartitions(parts), RowOffset(parts, p, b), parts[p][b].rows;
            at + |rows| <= |all| && all[at..at + |rows|] == rows && RowOffset(parts, p, b + 1) == at + |rows|
  {
    var before, from := |FlattenPartitions(parts[..p])|, |FlattenBatches(parts[p][..b])|;
    var all, mid, rows := FlattenPartitions(parts), FlattenBatches(parts[p]), parts[p][b].rows;
    assert from + |rows| <= |mid| && mid[from..from + |rows|] == rows && |FlattenBatches(parts[p][..b + 1])| == from + |rows| by {
      BatchPlaced(parts[p], b);
    }
    assert before + |mid| <= |all| && all[before..before + |mid|] == mid by { PartitionPlaced(parts, p); }
    SliceOfSlice(all, before, mid, from, rows);
  }

  /** The first batch begins at 0, the last one ends at the end, and partitions follow one another. */
  lemma OffsetsMeet(parts: seq<seq<Batch>>, p: nat)
    requires p < |parts|
    ensures RowOffset(parts, 0, 0) == 0 && RowOffset(parts, |parts|, 0) == |FlattenPartitions(parts)|
    ensures RowOffset(parts, p + 1, 0) == RowOffset(parts, p, |parts[p]|)
  {
    assert parts[..|parts|] == parts && parts[p][..|parts[p]|] == parts[p] && parts[..p + 1][..p] == parts[..p];
    assert parts[0][..0] == [] && (p + 1 < |parts| ==> parts[p + 1][..0] == []);
  }

  lemma SliceOfSlice(all: seq<Row>, at: nat, mid: seq<Row>, from: nat, rows: seq<Row>)
    requires at + |mid| <= |all| && all[at..at + |mid|] == mid && from + |rows| <= |mid| && mid[from..from + |rows|] == rows
    ensures all[at + from..at + from + |rows|] == rows
  {
    forall k | 0 <= k < |rows| ensures all[at + from + k] == rows[k] {
      assert all[at..at + |mid|][from + k] == all[at + (from + k)] && mid[from..from + |rows|][k] == mid[from + k];
    }
  }

  lemma {:induction false} BatchPlaced(batches: seq<Batch>, b: nat)
    requires b < |batches|
    ensures var all, at, rows := FlattenBatches(batches), |FlattenBatches(batches[..b])|, batches[b].rows;
            at + |rows| <= |all| && all[at..at + |rows|] == rows && |FlattenBatches(batches[..b + 1])| == at + |rows|
    decreases |batches|
  {
    var last := |batches| - 1;
    assert batches[..b + 1][..b] == batches[..b];
    if b < last {
      BatchPlaced(batches[..last], b);
      assert batches[..last][..b] == batches[..b];
    } else {
      assert batches[..last + 1] == batches;
    }
  }

  lemma {:induction false} PartitionPlaced(parts: seq<seq<Batch>>, p: nat)
    requires p < |parts|
    ensures var all, at, rows := FlattenPartitions(parts), |FlattenPartitions(parts[..p])|, FlattenBatches(parts[p]);
            at + |rows| <= |all| && all[at..at + |rows|] == rows
    decreases |parts|
  {
    var last := |parts| - 1;
    if p < last {
      PartitionPlaced(parts[..last], p);
      assert parts[..last][..p] == parts[..p];
    }
  }

  lemma {:induction false} FoldConcat(groups: Groups, aggs: seq<AggSpec>, grouped: bool, a: seq<Row>, b: seq<Row>)
    requires GroupsOk(groups, aggs)
    ensures FoldRows(groups, aggs, grouped, a + b) == FoldRows(FoldRows(groups, aggs, grouped, a), aggs, grouped, b)
  {
    if b == [] {
      assert a + b == a;
    } else {
      var front, row := b[..|b| - 1], b[|b| - 1];
      FoldConcat(groups, aggs, grouped, a, front);
      assert b == front + [row];
      FoldConcatStep(groups, aggs, grouped, a, front, row);
    }
  }

  lemma FoldConcatStep(groups: Groups, aggs: seq<AggSpec>, grouped: bool, a: seq<Row>, b: seq<Row>, row: Row)
    requires GroupsOk(groups, aggs)
    requires FoldRows(groups, aggs, grouped, a + b) == FoldRows(FoldRows(groups, aggs, grouped, a), aggs, grouped, b)
    ensures FoldRows(groups, aggs, grouped, a + (b + [row]))
         == FoldRows(FoldRows(groups, aggs, grouped, a), aggs, grouped, b + [row])
  {
    FoldSnoc(groups, aggs, grouped, a + b, row);
    FoldSnoc(FoldRows(groups, aggs, grouped, a), aggs, grouped, b, row);
    assert a + (b + [row]) == a + b + [row];
  }

  lemma FoldSnoc(groups: Groups, aggs: seq<AggSpec>, grouped: bool, rows: seq<Row>, row: Row)
    requires GroupsOk(groups, aggs)
    ensures FoldRows(groups, aggs, grouped, rows + [row]) == FoldRow(FoldRows(groups, aggs, grouped, rows), aggs, grouped, row)
  {
    assert (rows + [row])[..|rows + [row]| - 1] == rows;
  }

  // ---------------------------------------------------------------------------------------------
  // The one-pass meaning
  // ---------------------------------------------------------------------------------------------

  /** A grouped row is in the group of its whole key; without GROUP BY all rows are in the one group. */
  predicate InGroup(row: Row, grouped: bool, k: Key) {
    if grouped then row.key == k else k == []
  }

  /** The rows of one group, in order. */
  function RowsOf(rows: seq<Row>, grouped: bool, k: Key): seq<Row> {
    if rows == [] then []
    else
      var last := rows[|rows| - 1];
      RowsOf(rows[..|rows| - 1], grouped, k) + if InGroup(last, grouped, k) then [last] else []
  }

  /** The non-null values of a column. */
  function ValuesOf(rows: seq<Row>, column: string): seq<real> {
    if rows == [] then []
    else
      var cells := rows[|rows| - 1].cells;
      ValuesOf(rows[..|rows| - 1], column) + if column in cells && cells[column].Some? then [cells[column].value] else []
  }

  function SumOf(v: seq<real>): real {
    if v == [] then 0.0 else SumOf(v[..|v| - 1]) + v[|v| - 1]
  }

  ghost predicate Least(m: Option<real>, v: seq<real>) {
    if m.None? then v == [] else m.value in v && forall x :: x in v ==> m.value <= x
  }

  ghost predicate Greatest(m: Option<real>, v: seq<real>) {
    if m.None? then v == [] else m.value in v && forall x :: x in v ==> m.value >= x
  }

  /** What SQL says an aggregate over the rows of a group is. */
  ghost predicate AggregateIs(out: Output, agg: AggSpec, rows: seq<Row>) {
    match (agg.kind, agg.column)
    case (Count, None) => out == CountOf(|rows|)
    case (Count, Some(col)) => out == CountOf(|ValuesOf(rows, col)|)
    case (Sum, Some(col)) =>
      var v := ValuesOf(rows, col);
      out == NumberOf(if v == [] then None else Some(SumOf(v)))
    case (Avg, Some(col)) =>
      var v := ValuesOf(rows, col);
      out == NumberOf(if v == [] then None else Some(SumOf(v) / |v| as real))
    case (Min, Some(col)) => out.NumberOf? && Least(out.v, ValuesOf(rows, col))
    case (Max, Some(col)) => out.NumberOf? && Greatest(out.v, ValuesOf(rows, col))
    case (_, None) => true
  }

  /** An accumulator that has seen the rows of a group. */
  ghost predicate AccIs(acc: Acc, agg: AggSpec, rows: seq<Row>) {
    match (agg.kind, agg.column)
    case (Count, None) => acc.count == |rows|
    case (Count, Some(col)) => acc.count == |ValuesOf(rows, col)|
    case (_, None) => acc == EMPTY_ACC
    case (_, Some(col)) =>
      var v := ValuesOf(rows, col);
      acc.count == |v| && acc.sum == SumOf(v) && Least(acc.min, v) && Greatest(acc.max, v)
  }

  lemma FinalizeIs(acc: Acc, agg: AggSpec, rows: seq<Row>)
    requires AccIs(acc, agg, rows)
    ensures AggregateIs(acc.Finalize(agg.kind), agg, rows)
  {
  }

  lemma PushIs(acc: Acc, v: seq<real>, x: real)
    requires acc.count == |v| && acc.sum == SumOf(v) && Least(acc.min, v) && Greatest(acc.max, v)
    ensures acc.Push(x).count == |v + [x]| && acc.Push(x).sum == SumOf(v + [x])
    ensures Least(acc.Push(x).min, v + [x]) && Greatest(acc.Push(x).max, v + [x])
  {
    assert (v + [x])[..|v|] == v;
    assert forall y :: y in v + [x] <==> y in v || y == x;
  }

  lemma FoldCellIs(acc: Acc, agg: AggSpec, rows: seq<Row>, row: Row)
    requires AccIs(acc, agg, rows)
    ensures AccIs(FoldCell(acc, agg, row), agg, rows + [row])
  {
    assert (rows + [row])[..|rows|] == rows;
    if agg.column.Some? {
      var col := agg.column.value;
      var v, c := ValuesOf(rows, col), CellOf(row, col);
      assert ValuesOf(rows + [row], col) == v + if c.Some? then [c.value] else [];
      assert v + [] == v;
      if c.Some? && !agg.kind.Count? { PushIs(acc, v, c.value); }
    }
  }

  /** The groups of a query: the keys that occur, or the one group of a global aggregate. */
  ghost function GroupKeys(rows: seq<Row>, grouped: bool): set<Key> {
    if grouped then set r | r in rows :: r.key else {[]}
  }

  /** The table is the GROUP BY of the rows: exactly its groups, each with its own aggregates. */
  ghost predicate IsGroupBy(groups: Groups, aggs: seq<AggSpec>, grouped: bool, rows: seq<Row>) {
    && groups.Keys == GroupKeys(rows, grouped)
    && forall k :: k in groups ==>
         |groups[k]| == |aggs| && forall i :: 0 <= i < |aggs| ==> AccIs(groups[k][i], aggs[i], RowsOf(rows, grouped, k))
  }

  lemma {:induction false} AbsentKeyHasNoRows(rows: seq<Row>, grouped: bool, k: Key)
    requires k !in GroupKeys(rows, grouped)
    ensures RowsOf(rows, grouped, k) == []
  {
    if rows != [] {
      assert rows[|rows| - 1] in rows;
      assert forall r :: r in rows[..|rows| - 1] ==> r in rows;
      AbsentKeyHasNoRows(rows[..|rows| - 1], grouped, k);
    }
  }

  lemma FoldRowIsGroupBy(groups: Groups, aggs: seq<AggSpec>, grouped: bool, rows: seq<Row>, row: Row)
    requires IsGroupBy(groups, aggs, grouped, rows)
    ensures IsGroupBy(FoldRow(groups, aggs, grouped, row), aggs, grouped, rows + [row])
  {
    var all, key := rows + [row], KeyOf(grouped, row);
    var next := FoldRow(groups, aggs, grouped, row);
    assert all[..|rows|] == rows && all[|rows|] == row;
    assert GroupKeys(all, grouped) == GroupKeys(rows, grouped) + {key} by {
      assert forall r :: r in all <==> r in rows || r == row;
    }
    forall k, i | k in next && 0 <= i < |aggs| ensures AccIs(next[k][i], aggs[i], RowsOf(all, grouped, k)) {
      if k == key {
        if key !in groups { AbsentKeyHasNoRows(rows, grouped, key); }
        assert AccIs(Entry(groups, aggs, key)[i], aggs[i], RowsOf(rows, grouped, key));
        FoldCellIs(Entry(groups, aggs, key)[i], aggs[i], RowsOf(rows, grouped, key), row);
      } else {
        assert RowsOf(all, grouped, k) == RowsOf(rows, grouped, k);
      }
    }
  }

  /** Folding row by row computes the GROUP BY of all rows in one pass. */
  lemma {:induction false} FoldIsGroupBy(aggs: seq<AggSpec>, grouped: bool, rows: seq<Row>)
    ensures IsGroupBy(FoldRows(Initial(aggs, grouped), aggs, grouped, rows), aggs, grouped, rows)
  {
    if rows != [] {
      var last := |rows| - 1;
      var front := rows[..last];
      FoldIsGroupBy(aggs, grouped, front);
      var groups := FoldRows(Initial(aggs, grouped), aggs, grouped, front);
      assert front + [rows[last]] == rows;
      FoldRowIsGroupBy(groups, aggs, grouped, front, rows[last]);
      assert FoldRows(Initial(aggs, grouped), aggs, grouped, rows) == FoldRow(groups, aggs, grouped, rows[last]);
    }
  }

  /**
   Every finalized aggregate of every group is what SQL says of the group's rows; the groups are
   exactly the keys that occur, and a global aggregate has exactly one, even over no rows.
   */
  lemma AggregatesAreExact(aggs: seq<AggSpec>, grouped: bool, rows: seq<Row>)
    ensures var groups := FoldRows(Initial(aggs, grouped), aggs, grouped, rows);
            && groups.Keys == GroupKeys(rows, grouped)
            && forall k, i :: k in groups && 0 <= i < |aggs| ==>
                 AggregateIs(groups[k][i].Finalize(aggs[i].kind), aggs[i], RowsOf(rows, grouped, k))
  {
    FoldIsGroupBy(aggs, grouped, rows);
    var groups: Groups := FoldRows(Initial(aggs, grouped), aggs, grouped, rows);
    forall k: Key, i: nat | k in groups && i < |aggs|
      ensures AggregateIs(groups[k][i].Finalize(aggs[i].kind), aggs[i], RowsOf(rows, grouped, k))
    {
      FinalizeIs(groups[k][i], aggs[i], RowsOf(rows, grouped, k));
    }
  }

  // ---------------------------------------------------------------------------------------------
  // The order of rows does not matter
  // ---------------------------------------------------------------------------------------------

  lemma CellsCommute(acc: Acc, agg: AggSpec, a: Row, b: Row)
    ensures FoldCell(FoldCell(acc, agg, a), agg, b) == FoldCell(FoldCell(acc, agg, b), agg, a)
  {
  }

  lemma RowsCommute(groups: Groups, aggs: seq<AggSpec>, grouped: bool, a: Row, b: Row)
    requires GroupsOk(groups, aggs)
    ensures FoldRow(FoldRow(groups, aggs, grouped, a), aggs, grouped, b) == FoldRow(FoldRow(groups, aggs, grouped, b), aggs, grouped, a)
  {
    var ka, kb := KeyOf(grouped, a), KeyOf(grouped, b);
    if ka == kb {
      var g := Entry(groups, aggs, ka);
      forall i | 0 <= i < |aggs| ensures FoldCell(FoldCell(g[i], aggs[i], a), aggs[i], b) == FoldCell(FoldCell(g[i], aggs[i], b), aggs[i], a) {
        CellsCommute(g[i], aggs[i], a, b);
      }
      assert FoldGroup(FoldGroup(g, aggs, a), aggs, b) == FoldGroup(FoldGroup(g, aggs, b), aggs, a);
    }
  }

  lemma {:induction false} RowMovesBack(groups: Groups, aggs: seq<AggSpec>, grouped: bool, a: Row, rows: seq<Row>)
    requires GroupsOk(groups, aggs)
    ensures FoldRows(FoldRow(groups, aggs, grouped, a), aggs, grouped, rows) == FoldRow(FoldRows(groups, aggs, grouped, rows), aggs, grouped, a)
  {
    if rows != [] {
      var last := |rows| - 1;
      RowMovesBack(groups, aggs, grouped, a, rows[..last]);
      RowsCommute(FoldRows(groups, aggs, grouped, rows[..last]), aggs, grouped, a, rows[last]);
    }
  }

  /** The table depends only on which rows there are, not on how partitions interleave them. */
  lemma {:induction false} FoldPermutes(groups: Groups, aggs: seq<AggSpec>, grouped: bool, a: seq<Row>, b: seq<Row>)
    requires GroupsOk(groups, aggs) && multiset(a) == multiset(b)
    ensures FoldRows(groups, aggs, grouped, a) == FoldRows(groups, aggs, grouped, b)
    decreases |a|
  {
    if a == [] {
      assert |multiset(b)| == |b|;
      assert b == [];
    } else {
      var x := a[|a| - 1];
      assert x in multiset(b);
      var j :| 0 <= j < |b| && b[j] == x;
      var front, rest := a[..|a| - 1], b[..j] + b[j + 1..];
      WithoutLast(a, b, j);
      FoldPermutes(groups, aggs, grouped, front, rest);
      MovedLast(groups, aggs, grouped, b, j);
      assert FoldRows(groups, aggs, grouped, a) == FoldRow(FoldRows(groups, aggs, grouped, front), aggs, grouped, x);
    }
  }

  lemma MovedLast(groups: Groups, aggs: seq<AggSpec>, grouped: bool, b: seq<Row>, j: nat)
    requires GroupsOk(groups, aggs) && j < |b|
    ensures FoldRows(groups, aggs, grouped, b) == FoldRow(FoldRows(groups, aggs, grouped, b[..j] + b[j + 1..]), aggs, grouped, b[j])
  {
    var front, back := b[..j], b[j + 1..];
    assert b == front + [b[j]] + back;
    FoldMovesLast(groups, aggs, grouped, front, b[j], back, b, front + back);
  }

  lemma WithoutLast(a: seq<Row>, b: seq<Row>, j: nat)
    requires a != [] && j < |b| && b[j] == a[|a| - 1] && multiset(a) == multiset(b)
    ensures multiset(a[..|a| - 1]) == multiset(b[..j] + b[j + 1..])
  {
    RemovedOne(a, |a| - 1);
    RemovedOne(b, j);
    assert a[..|a| - 1] + a[|a|..] == a[..|a| - 1];
  }

  lemma RemovedOne(s: seq<Row>, j: nat)
    requires j < |s|
    ensures multiset(s[..j] + s[j + 1..]) == multiset(s) - multiset{s[j]}
  {
    var front, back := s[..j], s[j + 1..];
    assert s == front + [s[j]] + back;
    assert multiset(s) == multiset(front) + multiset{s[j]} + multiset(back);
  }

  lemma FoldMovesLast(groups: Groups, aggs: seq<AggSpec>, grouped: bool, front: seq<Row>, x: Row, back: seq<Row>, whole: seq<Row>, rest: seq<Row>)
    requires GroupsOk(groups, aggs) && whole == front + [x] + back && rest == front + back
    ensures FoldRows(groups, aggs, grouped, whole) == FoldRow(FoldRows(groups, aggs, grouped, rest), aggs, grouped, x)
  {
    var f := FoldRows(groups, aggs, grouped, front);
    FoldConcat(groups, aggs, grouped, front + [x], back);
    FoldConcat(groups, aggs, grouped, front, [x]);
    assert [x][..0] == [] && FoldRows(f, aggs, grouped, [x]) == FoldRow(f, aggs, grouped, x);
    RowMovesBack(f, aggs, grouped, x, back);
    FoldConcat(groups, aggs, grouped, front, back);
  }

  // ---------------------------------------------------------------------------------------------
  // The operator
  // ---------------------------------------------------------------------------------------------

  /** Every aggregate's argument column is in the batch and numeric, and the keys evaluate if there are any. */
  predicate Prepared(aggs: seq<AggSpec>, grouped: bool, batch: Batch) {
    && (forall i :: 0 <= i < |aggs| && aggs[i].column.Some? ==> aggs[i].column.value in batch.columns && aggs[i].column.value in batch.numeric)
    && (grouped ==> batch.keysOk)
  }

  predicate Foldable(aggs: seq<AggSpec>, grouped: bool, batch: Batch) {
    Prepared(aggs, grouped, batch) && (grouped ==> batch.keyed >= |batch.rows|)
  }

  /** The rows that reach the table before an error, if there is one. */
  function FoldedRows(aggs: seq<AggSpec>, grouped: bool, batch: Batch): seq<Row> {
    if !Prepared(aggs, grouped, batch) then []
    else if grouped && batch.keyed < |batch.rows| then batch.rows[..batch.keyed]
    else batch.rows
  }

  predicate Good(aggs: seq<AggSpec>, grouped: bool, item: Item) {
    item.Got? && Foldable(aggs, grouped, item.batch)
  }

  predicate Drainable(aggs: seq<AggSpec>, grouped: bool, stream: Stream) {
    stream.Opened? && forall b :: 0 <= b < |stream.items| ==> Good(aggs, grouped, stream.items[b])
  }

  /** The batches of a stream, as far as it yields any. */
  function BatchesOf(items: seq<Item>): seq<Batch> {
    if items == [] then []
    else BatchesOf(items[..|items| - 1]) + if items[|items| - 1].Got? then [items[|items| - 1].batch] else []
  }

  function AllBatches(streams: seq<Stream>): seq<seq<Batch>> {
    if streams == [] then []
    else AllBatches(streams[..|streams| - 1]) + [if streams[|streams| - 1].Opened? then BatchesOf(streams[|streams| - 1].items) else []]
  }

  /** What draining the streams folds: every batch of every stream, in order. */
  lemma {:induction false} AllBatchesAre(streams: seq<Stream>)
    requires forall p :: 0 <= p < |streams| ==> streams[p].Opened? && forall b :: 0 <= b < |streams[p].items| ==> streams[p].items[b].Got?
    ensures |AllBatches(streams)| == |streams|
    ensures forall p :: 0 <= p < |streams| ==>
              && |AllBatches(streams)[p]| == |streams[p].items|
              && forall b :: 0 <= b < |streams[p].items| ==> AllBatches(streams)[p][b] == streams[p].items[b].batch
  {
    if streams != [] {
      AllBatchesAre(streams[..|streams| - 1]);
      BatchesAre(streams[|streams| - 1].items);
    }
  }

  lemma {:induction false} BatchesAre(items: seq<Item>)
    requires forall b :: 0 <= b < |items| ==> items[b].Got?
    ensures |BatchesOf(items)| == |items| && forall b :: 0 <= b < |items| ==> BatchesOf(items)[b] == items[b].batch
  {
    if items != [] { BatchesAre(items[..|items| - 1]); }
  }

  function FoldColumn(acc: Acc, agg: AggSpec, rows: seq<Row>): Acc {
    if rows == [] then acc else FoldCell(FoldColumn(acc, agg, rows[..|rows| - 1]), agg, rows[|rows| - 1])
  }

  /** A global batch may be folded aggregate by aggregate instead of row by row. */
  lemma {:induction false} GlobalFold(groups: Groups, aggs: seq<AggSpec>, rows: seq<Row>)
    requires GroupsOk(groups, aggs) && [] in groups
    ensures FoldRows(groups, aggs, false, rows).Keys == groups.Keys
    ensures forall k :: k in groups && k != [] ==> FoldRows(groups, aggs, false, rows)[k] == groups[k]
    ensures forall i :: 0 <= i < |aggs| ==> FoldRows(groups, aggs, false, rows)[[]][i] == FoldColumn(groups[[]][i], aggs[i], rows)
  {
    if rows != [] { GlobalFold(groups, aggs, rows[..|rows| - 1]); }
  }

  function FoldBatches(groups: Groups, aggs: seq<AggSpec>, grouped: bool, batches: seq<Batch>): (g: Groups)
    requires GroupsOk(groups, aggs)
    ensures GroupsOk(g, aggs)
  {
    if batches == [] then groups
    else FoldRows(FoldBatches(groups, aggs, grouped, batches[..|batches| - 1]), aggs, grouped, batches[|batches| - 1].rows)
  }

  function FoldPartitions(groups: Groups, aggs: seq<AggSpec>, grouped: bool, parts: seq<seq<Batch>>): (g: Groups)
    requires GroupsOk(groups, aggs)
    ensures GroupsOk(g, aggs)
  {
    if parts == [] then groups
    else FoldBatches(FoldPartitions(groups, aggs, grouped, parts[..|parts| - 1]), aggs, grouped, parts[|parts| - 1])
  }

  lemma {:induction false} BatchesFlatten(groups: Groups, aggs: seq<AggSpec>, grouped: bool, batches: seq<Batch>)
    requires GroupsOk(groups, aggs)
    ensures FoldBatches(groups, aggs, grouped, batches) == FoldRows(groups, aggs, grouped, FlattenBatches(batches))
  {
    if batches != [] {
      var last := |batches| - 1;
      BatchesFlatten(groups, aggs, grouped, batches[..last]);
      FoldConcat(groups, aggs, grouped, FlattenBatches(batches[..last]), batches[last].rows);
    }
  }

  /** However the rows are split into partitions and batches, the table is that of all rows in turn. */
  lemma {:induction false} SplitInvariant(groups: Groups, aggs: seq<AggSpec>, grouped: bool, parts: seq<seq<Batch>>)
    requires GroupsOk(groups, aggs)
    ensures FoldPartitions(groups, aggs, grouped, parts) == FoldRows(groups, aggs, grouped, FlattenPartitions(parts))
  {
    if parts != [] {
      var last := |parts| - 1;
      SplitInvariant(groups, aggs, grouped, parts[..last]);
      FoldConcat(groups, aggs, grouped, FlattenPartitions(parts[..last]), FlattenBatches(parts[last]));
      BatchesFlatten(FoldPartitions(groups, aggs, grouped, parts[..last]), aggs, grouped, parts[last]);
    }
  }

  class GroupTable {
    var groups: Groups
    const aggs: seq<AggSpec>
    const grouped: bool

    ghost predicate Valid()
      reads this
    {
      GroupsOk(groups, aggs) && (!grouped ==> [] in groups)
    }

    constructor (aggs: seq<AggSpec>, grouped: bool)
      ensures this.aggs == aggs && this.grouped == grouped
      ensures Valid() && groups == Initial(aggs, grouped)
    {
      this.aggs := aggs;
      this.grouped := grouped;
      this.groups := if grouped then map[] else map[[] := NewGroup(aggs)];
    }

    /** `fold_batch`: an error while reading a row's key leaves the rows before it folded, any other none. */
    method FoldBatch(batch: Batch) returns (ok: bool)
      requires Valid()
      modifies this
      ensures Valid()
      ensures ok <==> Foldable(aggs, grouped, batch)
      ensures groups == FoldRows(old(groups), aggs, grouped, FoldedRows(aggs, grouped, batch))
    {
      if !Prepared(aggs, grouped, batch) { return false; }
      var rows := FoldedRows(aggs, grouped, batch);
      if grouped { FoldGrouped(rows); } else { FoldGlobal(rows); }
      ok := !grouped || batch.keyed >= |batch.rows|;
    }

    method FoldGrouped(rows: seq<Row>)
      requires Valid() && grouped
      modifies this
      ensures Valid() && groups == FoldRows(old(groups), aggs, grouped, rows)
    {
      for r := 0 to |rows|
        invariant GroupsOk(groups, aggs)
        invariant groups == FoldRows(old(groups), aggs, grouped, rows[..r])
      {
        var key := rows[r].key;
        var group := if key in groups then groups[key] else NewGroup(aggs);
        groups := groups[key := FoldGroup(group, aggs, rows[r])];
        assert rows[..r + 1][..r] == rows[..r];
      }
      assert rows[..|rows|] == rows;
    }

    method FoldGlobal(rows: seq<Row>)
      requires Valid() && !grouped
      modifies this
      ensures Valid() && groups == FoldRows(old(groups), aggs, grouped, rows)
    {
      ghost var before := groups;
      for i := 0 to |aggs|
        invariant Valid() && groups.Keys == before.Keys
        invariant forall k :: k in before && k != [] ==> groups[k] == before[k]
        invariant forall j :: 0 <= j < |aggs| ==>
                    groups[[]][j] == if j < i then FoldColumn(before[[]][j], aggs[j], rows) else before[[]][j]
      {
        var acc := groups[[]][i];
        for r := 0 to |rows|
          invariant acc == FoldColumn(before[[]][i], aggs[i], rows[..r])
        {
          acc := FoldCell(acc, aggs[i], rows[r]);
          assert rows[..r + 1][..r] == rows[..r];
        }
        assert rows[..|rows|] == rows;
        groups := groups[[] := groups[[]][i := acc]];
      }
      GlobalFold(before, aggs, rows);
      assert groups[[]] == FoldRows(before, aggs, false, rows)[[]];
    }

    /** `finalize`: one row per group, in the order in which the map yields its keys. */
    method Finalize() returns (out: seq<OutRow>)
      requires Valid()
      ensures DistinctKeys(out) && OutKeys(out) == groups.Keys
      ensures forall j :: 0 <= j < |out| ==> out[j].key in groups && FinalizedFrom(out[j].values, groups[out[j].key], aggs)
    {
      out := [];
      var keys := groups.Keys;
      while keys != {}
        invariant keys <= groups.Keys && OutKeys(out) == groups.Keys - keys && DistinctKeys(out)
        invariant forall j :: 0 <= j < |out| ==> out[j].key in groups && FinalizedFrom(out[j].values, groups[out[j].key], aggs)
        decreases keys
      {
        var k :| k in keys;
        var group := groups[k];
        var values := seq(|aggs|, i requires 0 <= i < |aggs| && |group| == |aggs| => group[i].Finalize(aggs[i].kind));
        FreshKey(out, OutRow(k, values), keys);
        out := out + [OutRow(k, values)];
        keys := keys - {k};
      }
    }

    /** Folds one item of a stream, unless it is an error. */
    method FoldItem(item: Item) returns (ok: bool)
      requires Valid()
      modifies this
      ensures Valid()
      ensures ok <==> Good(aggs, grouped, item)
      ensures ok ==> groups == FoldRows(old(groups), aggs, grouped, item.batch.rows)
    {
      if item.Broken? { return false; }
      ok := FoldBatch(item.batch);
    }

    /** Drains one partition's stream, stopping at an error. */
    method FoldPartition(stream: Stream) returns (ok: bool)
      requires Valid()
      modifies this
      ensures Valid()
      ensures ok <==> Drainable(aggs, grouped, stream)
      ensures ok ==> groups == FoldBatches(old(groups), aggs, grouped, BatchesOf(stream.items))
    {
      if stream.Refused? { return false; }
      ghost var before := groups;
      for b := 0 to |stream.items|
        invariant Valid()
        invariant forall c :: 0 <= c < b ==> Good(aggs, grouped, stream.items[c])
        invariant groups == FoldItems(before, aggs, grouped, stream.items[..b])
      {
        var good := FoldItem(stream.items[b]);
        if !good { return false; }
        assert stream.items[..b + 1][..b] == stream.items[..b];
      }
      assert stream.items[..|stream.items|] == stream.items;
      ItemsAreBatches(before, aggs, grouped, stream.items);
      ok := true;
    }

    /** The partition loop of `execute`: partitions are folded in turn, stopping at an error. */
    method Execute(streams: seq<Stream>) returns (ok: bool)
      requires Valid()
      modifies this
      ensures Valid()
      ensures ok <==> forall p :: 0 <= p < |streams| ==> Drainable(aggs, grouped, streams[p])
      ensures ok ==> groups == FoldRows(old(groups), aggs, grouped, FlattenPartitions(AllBatches(streams)))
    {
      ghost var before := groups;
      for p := 0 to |streams|
        invariant Valid()
        invariant forall q :: 0 <= q < p ==> Drainable(aggs, grouped, streams[q])
        invariant groups == FoldStreams(before, aggs, grouped, streams[..p])
      {
        var good := FoldPartition(streams[p]);
        if !good { return false; }
        assert streams[..p + 1][..p] == streams[..p];
      }
      assert streams[..|streams|] == streams;
      StreamsArePartitions(before, aggs, grouped, streams);
      SplitInvariant(before, aggs, grouped, AllBatches(streams));
      ok := true;
    }
  }

  /** A row of the answer: a group's key and its finalized aggregates. */
  datatype OutRow = OutRow(key: Key, values: seq<Output>)

  ghost predicate DistinctKeys(out: seq<OutRow>) {
    forall i, j :: 0 <= i < j < |out| ==> out[i].key != out[j].key
  }

  ghost function OutKeys(out: seq<OutRow>): set<Key> {
    set r | r in out :: r.key
  }

  lemma FreshKey(out: seq<OutRow>, row: OutRow, keys: set<Key>)
    requires DistinctKeys(out) && row.key in keys && OutKeys(out) !! keys
    ensures DistinctKeys(out + [row]) && OutKeys(out + [row]) == OutKeys(out) + {row.key}
  {
    forall i | 0 <= i < |out| ensures out[i].key != row.key {
      assert out[i] in out;
      assert out[i].key in OutKeys(out);
    }
    assert forall r :: r in out + [row] <==> r in out || r == row;
  }

  /** What SQL says the answer over the rows is: one row per group, with that group's aggregates. */
  ghost predicate Answers(out: seq<OutRow>, aggs: seq<AggSpec>, grouped: bool, rows: seq<Row>) {
    && DistinctKeys(out) && OutKeys(out) == GroupKeys(rows, grouped)
    && forall j :: 0 <= j < |out| ==>
         |out[j].values| == |aggs|
         && forall i :: 0 <= i < |aggs| ==> AggregateIs(out[j].values[i], aggs[i], RowsOf(rows, grouped, out[j].key))
  }

  /** The finalized table of a query is its answer. */
  lemma FinalizedAnswers(out: seq<OutRow>, aggs: seq<AggSpec>, grouped: bool, rows: seq<Row>)
    requires var groups := FoldRows(Initial(aggs, grouped), aggs, grouped, rows);
             && DistinctKeys(out) && OutKeys(out) == groups.Keys
             && forall j :: 0 <= j < |out| ==> out[j].key in groups && FinalizedFrom(out[j].values, groups[out[j].key], aggs)
    ensures Answers(out, aggs, grouped, rows)
  {
    AggregatesAreExact(aggs, grouped, rows);
  }

  predicate FinalizedFrom(values: seq<Output>, group: seq<Acc>, aggs: seq<AggSpec>) {
    |values| == |aggs| == |group| && forall i :: 0 <= i < |aggs| ==> values[i] == group[i].Finalize(aggs[i].kind)
  }

  /** The operator as a whole: it fails exactly when some input does, and otherwise answers the query over all rows. */
  method Aggregate(aggs: seq<AggSpec>, grouped: bool, streams: seq<Stream>) returns (r: Option<seq<OutRow>>)
    ensures r.Some? <==> forall p :: 0 <= p < |streams| ==> Drainable(aggs, grouped, streams[p])
    ensures r.Some? ==> Answers(r.value, aggs, grouped, FlattenPartitions(AllBatches(streams)))
  {
    var table := new GroupTable(aggs, grouped);
    var ok := table.Execute(streams);
    if !ok { return None; }
    var out := table.Finalize();
    FinalizedAnswers(out, aggs, grouped, FlattenPartitions(AllBatches(streams)));
    r := Some(out);
  }

  function FoldItems(groups: Groups, aggs: seq<AggSpec>, grouped: bool, items: seq<Item>): (g: Groups)
    requires GroupsOk(groups, aggs)
    ensures GroupsOk(g, aggs)
  {
    if items == [] then groups
    else
      var before, item := FoldItems(groups, aggs, grouped, items[..|items| - 1]), items[|items| - 1];
      if item.Got? then FoldRows(before, aggs, grouped, item.batch.rows) else before
  }

  lemma {:induction false} ItemsAreBatches(groups: Groups, aggs: seq<AggSpec>, grouped: bool, items: seq<Item>)
    requires GroupsOk(groups, aggs)
    ensures FoldItems(groups, aggs, grouped, items) == FoldBatches(groups, aggs, grouped, BatchesOf(items))
  {
    if items != [] {
      var front, item := items[..|items| - 1], items[|items| - 1];
      ItemsAreBatches(groups, aggs, grouped, front);
      var batches := BatchesOf(front);
      if item.Got? {
        assert (batches + [item.batch])[..|batches|] == batches;
      } else {
        assert BatchesOf(items) == batches;
      }
    }
  }

  function FoldStreams(groups: Groups, aggs: seq<AggSpec>, grouped: bool, streams: seq<Stream>): (g: Groups)
    requires GroupsOk(groups, aggs)
    ensures GroupsOk(g, aggs)
  {
    if streams == [] then groups
    else
      var before, stream := FoldStreams(groups, aggs, grouped, streams[..|streams| - 1]), streams[|streams| - 1];
      if stream.Opened? then FoldBatches(before, aggs, grouped, BatchesOf(stream.items)) else before
  }

  lemma {:induction false} StreamsArePartitions(groups: Groups, aggs: seq<AggSpec>, grouped: bool, streams: seq<Stream>)
    requires GroupsOk(groups, aggs)
    ensures FoldStreams(groups, aggs, grouped, streams) == FoldPartitions(groups, aggs, grouped, AllBatches(streams))
  {
    if streams != [] {
      var front, stream := streams[..|streams| - 1], streams[|streams| - 1];
      StreamsArePartitions(groups, aggs, grouped, front);
      var parts := AllBatches(front);
      var part := if stream.Opened? then BatchesOf(stream.items) else [];
      assert (parts + [part])[..|parts|] == parts;
    }
  }
}
