/**
 The rows a scan emits with and without a limit. Under a limit, a projection of coordinates alone
 is not expanded over the coordinates it leaves out.
 */
module LimitedRows {
  import opened Options
  import opened Arithmetic
  import opened Selection
  import opened RangeSearch
  import opened RowMajor
  import opened FanOut
  import opened Projection
  import opened LimitRule

  // ---------------------------------------------------------------------------------------------
  // The rows of one partition
  // ---------------------------------------------------------------------------------------------

  function Place(e: seq<nat>, k: nat): (j: nat)
    requires k in e
    ensures j < |e| && e[j] == k && forall i :: 0 <= i < j ==> e[i] != k
  {
    if e[0] == k then 0 else Place(e[1..], k) + 1
  }

  lemma SizePositive(r: nat, sizes: seq<nat>)
    requires r < Product(sizes)
    ensures Positive(sizes)
  {
    if !Positive(sizes) { ProductZero(sizes); }
  }

  /** What the columns of coordinates `cols` show on row `r` of a read over the coordinates `e`. */
  function RowAt(r: nat, e: seq<nat>, cols: seq<nat>, q: seq<nat>): (row: Row)
    requires |q| == |e| && r < Product(q) && forall c :: c in cols ==> c in e
    ensures Positive(q) && |row| == |cols| && forall j :: 0 <= j < |cols| ==> row[j] == CoordKey(r, Place(e, cols[j]), q)
  {
    SizePositive(r, q);
    seq(|cols|, j requires 0 <= j < |cols| => CoordKey(r, Place(e, cols[j]), q))
  }

  function PartitionRows(e: seq<nat>, cols: seq<nat>, sizes: seq<nat>): (rows: seq<Row>)
    requires Indexes(e, |sizes|) && forall c :: c in cols ==> c in e
    ensures |rows| == Product(QuerySizes(e, sizes))
    ensures forall r :: 0 <= r < |rows| ==> rows[r] == RowAt(r, e, cols, QuerySizes(e, sizes))
  {
    var q := QuerySizes(e, sizes);
    seq(Product(q), r requires 0 <= r < Product(q) => RowAt(r, e, cols, q))
  }

  // ---------------------------------------------------------------------------------------------
  // Leaving coordinates out
  // ---------------------------------------------------------------------------------------------

  /** The sizes of the coordinates from `from` on that are left out. */
  function Dropped(sizes: seq<nat>, cols: seq<nat>, from: nat): seq<nat>
    decreases |sizes| - from
  {
    if from >= |sizes| then [] else (if from in cols then [] else [sizes[from]]) + Dropped(sizes, cols, from + 1)
  }

  /** `j` is the first column at or after coordinate `from`. */
  ghost predicate At(cols: seq<nat>, from: nat, j: nat) {
    j <= |cols| && (forall i :: 0 <= i < j ==> cols[i] < from) && forall i :: j <= i < |cols| ==> cols[i] >= from
  }

  /** Rows multiply over the columns kept and the coordinates left out. */
  lemma {:induction false} SuffixProduct(sizes: seq<nat>, cols: seq<nat>, from: nat, j: nat)
    requires Ascending(cols) && Indexes(cols, |sizes|) && from <= |sizes| && At(cols, from, j)
    ensures Product(sizes[from..]) == Product(QuerySizes(cols, sizes)[j..]) * Product(Dropped(sizes, cols, from))
    decreases |sizes| - from, 1
  {
    if from < |sizes| {
      if j < |cols| && cols[j] == from {
        SuffixKept(sizes, cols, from, j);
      } else {
        SuffixDropped(sizes, cols, from, j);
      }
    } else {
      AtEnd(cols, from, j);
      NothingLeft(sizes, cols);
    }
  }

  lemma NotAt(cols: seq<nat>, from: nat, j: nat)
    requires Ascending(cols) && At(cols, from, j) && !(j < |cols| && cols[j] == from)
    ensures from !in cols && At(cols, from + 1, j)
  {
  }

  lemma {:induction false} SuffixKept(sizes: seq<nat>, cols: seq<nat>, from: nat, j: nat)
    requires Ascending(cols) && Indexes(cols, |sizes|) && from < |sizes| && At(cols, from, j) && j < |cols| && cols[j] == from
    ensures Product(sizes[from..]) == Product(QuerySizes(cols, sizes)[j..]) * Product(Dropped(sizes, cols, from))
    decreases |sizes| - from, 0
  {
    SuffixProduct(sizes, cols, from + 1, j + 1);
    KeptStep(sizes, cols, from, j);
  }

  lemma {:induction false} SuffixDropped(sizes: seq<nat>, cols: seq<nat>, from: nat, j: nat)
    requires Ascending(cols) && Indexes(cols, |sizes|) && from < |sizes| && At(cols, from, j) && !(j < |cols| && cols[j] == from)
    ensures Product(sizes[from..]) == Product(QuerySizes(cols, sizes)[j..]) * Product(Dropped(sizes, cols, from))
    decreases |sizes| - from, 0
  {
    NotAt(cols, from, j);
    SuffixProduct(sizes, cols, from + 1, j);
    DroppedStep(sizes, cols, from, j);
  }

  lemma NothingLeft(sizes: seq<nat>, cols: seq<nat>)
    requires Indexes(cols, |sizes|)
    ensures Product(sizes[|sizes|..]) == Product(QuerySizes(cols, sizes)[|cols|..]) * Product(Dropped(sizes, cols, |sizes|))
  {
  }

  lemma AtEnd(cols: seq<nat>, n: nat, j: nat)
    requires Indexes(cols, n) && At(cols, n, j)
    ensures j == |cols|
  {
    if cols != [] { assert cols[|cols| - 1] < n; }
  }

  lemma KeptStep(sizes: seq<nat>, cols: seq<nat>, from: nat, j: nat)
    requires Indexes(cols, |sizes|) && from < |sizes| && j < |cols| && cols[j] == from
    requires Product(sizes[from + 1..]) == Product(QuerySizes(cols, sizes)[j + 1..]) * Product(Dropped(sizes, cols, from + 1))
    ensures Product(sizes[from..]) == Product(QuerySizes(cols, sizes)[j..]) * Product(Dropped(sizes, cols, from))
  {
    var q, d := QuerySizes(cols, sizes), Dropped(sizes, cols, from + 1);
    assert sizes[from..][1..] == sizes[from + 1..] && q[j..][1..] == q[j + 1..];
    assert Dropped(sizes, cols, from) == d;
    MulAssoc(sizes[from], Product(q[j + 1..]), Product(d));
  }

  lemma DroppedStep(sizes: seq<nat>, cols: seq<nat>, from: nat, j: nat)
    requires Indexes(cols, |sizes|) && from < |sizes| && j <= |cols| && from !in cols
    requires Product(sizes[from + 1..]) == Product(QuerySizes(cols, sizes)[j..]) * Product(Dropped(sizes, cols, from + 1))
    ensures Product(sizes[from..]) == Product(QuerySizes(cols, sizes)[j..]) * Product(Dropped(sizes, cols, from))
  {
    var q, d := QuerySizes(cols, sizes), Dropped(sizes, cols, from + 1);
    assert sizes[from..][1..] == sizes[from + 1..];
    assert Dropped(sizes, cols, from) == [sizes[from]] + d && ([sizes[from]] + d)[1..] == d;
    MiddleFactor(sizes[from], Product(q[j..]), Product(d));
  }

  lemma MiddleFactor(a: nat, b: nat, c: nat)
    ensures a * (b * c) == b * (a * c)
  {
    MulAssoc(a, b, c);
    MulAssoc(b, a, c);
  }

  lemma FactorsOfOne(a: nat, b: nat)
    requires a * b == 1
    ensures a == 1 && b == 1
  {
    if a > 1 { MulMono(2, a, b); }
    if b > 1 { MulMono(2, b, a); }
  }

  lemma {:induction false} NothingDropped(sizes: seq<nat>, cols: seq<nat>, from: nat)
    requires Product(Dropped(sizes, cols, 0)) == 1 && from <= |sizes|
    ensures Product(Dropped(sizes, cols, from)) == 1
    decreases from
  {
    if from > 0 {
      NothingDropped(sizes, cols, from - 1);
      NoneAfter(sizes, cols, from - 1);
    }
  }

  lemma NoneAfter(sizes: seq<nat>, cols: seq<nat>, from: nat)
    requires from < |sizes| && Product(Dropped(sizes, cols, from)) == 1
    ensures Product(Dropped(sizes, cols, from + 1)) == 1
  {
    var d := Dropped(sizes, cols, from + 1);
    if from in cols {
      assert Dropped(sizes, cols, from) == d;
    } else {
      assert Dropped(sizes, cols, from) == [sizes[from]] + d;
      ProductOfCons(sizes[from], d);
      FactorsOfOne(sizes[from], Product(d));
    }
  }

  lemma ProductOfCons(x: nat, d: seq<nat>)
    ensures Product([x] + d) == x * Product(d)
  {
    assert ([x] + d)[1..] == d;
  }

  /** A column shows the same position whether or not coordinates of one value are left out. */
  lemma {:induction false} SameKey(r: nat, sizes: seq<nat>, cols: seq<nat>, j: nat)
    requires Ascending(cols) && Indexes(cols, |sizes|) && j < |cols|
    requires Positive(sizes) && Positive(QuerySizes(cols, sizes)) && Product(Dropped(sizes, cols, 0)) == 1
    ensures CoordKey(r, cols[j], sizes) == CoordKey(r, j, QuerySizes(cols, sizes))
  {
    SameInner(sizes, cols, j);
    assert QuerySizes(cols, sizes)[j] == sizes[cols[j]];
  }

  lemma SameInner(sizes: seq<nat>, cols: seq<nat>, j: nat)
    requires Ascending(cols) && Indexes(cols, |sizes|) && j < |cols|
    requires Positive(sizes) && Positive(QuerySizes(cols, sizes)) && Product(Dropped(sizes, cols, 0)) == 1
    ensures InnerSize(sizes, cols[j]) == InnerSize(QuerySizes(cols, sizes), j)
  {
    NothingDropped(sizes, cols, cols[j] + 1);
    AtNext(cols, j);
    SuffixProduct(sizes, cols, cols[j] + 1, j + 1);
    InnerIs(sizes, cols[j]);
    InnerIs(QuerySizes(cols, sizes), j);
  }

  lemma AtNext(cols: seq<nat>, j: nat)
    requires Ascending(cols) && j < |cols|
    ensures At(cols, cols[j] + 1, j + 1)
  {
  }

  lemma InnerIs(sizes: seq<nat>, k: nat)
    requires k < |sizes| && Positive(sizes)
    ensures InnerSize(sizes, k) == Product(sizes[k + 1..])
  {
    ProductPositive(sizes[k + 1..]);
  }

  lemma PlaceInOrder(cols: seq<nat>, j: nat)
    requires Ascending(cols) && j < |cols|
    ensures Place(cols, cols[j]) == j
  {
  }

  lemma AllInOrder(n: nat, sizes: seq<nat>)
    requires |sizes| == n
    ensures QuerySizes(AllCoords(n), sizes) == sizes
    ensures forall k: nat :: k < n ==> k in AllCoords(n) && Place(AllCoords(n), k) == k
  {
    assert QuerySizes(AllCoords(n), sizes) == sizes;
    forall k: nat | k < n ensures k in AllCoords(n) && Place(AllCoords(n), k) == k { assert AllCoords(n)[k] == k; }
  }

  /**
   A partition emits the same rows over the projected coordinates alone as over all coordinates,
   if and only if the others multiply to one, or the projected ones to nothing.
   */
  lemma SameRowsIff(sizes: seq<nat>, cols: seq<nat>)
    requires Ascending(cols) && Indexes(cols, |sizes|)
    requires forall c :: c in cols ==> c in AllCoords(|sizes|)
    ensures PartitionRows(cols, cols, sizes) == PartitionRows(AllCoords(|sizes|), cols, sizes)
            <==> Product(Dropped(sizes, cols, 0)) == 1 || Product(QuerySizes(cols, sizes)) == 0
  {
    var n, kept, d := |sizes|, Product(QuerySizes(cols, sizes)), Product(Dropped(sizes, cols, 0));
    var few, many := PartitionRows(cols, cols, sizes), PartitionRows(AllCoords(n), cols, sizes);
    RowsMultiply(sizes, cols);
    SameCount(kept, d);
    if kept != 0 && d == 1 {
      AllInOrder(n, sizes);
      forall r | 0 <= r < |few| ensures few[r] == many[r] { SameRow(r, sizes, cols); }
    }
  }

  lemma RowsMultiply(sizes: seq<nat>, cols: seq<nat>)
    requires Ascending(cols) && Indexes(cols, |sizes|)
    ensures Product(QuerySizes(AllCoords(|sizes|), sizes)) == Product(QuerySizes(cols, sizes)) * Product(Dropped(sizes, cols, 0))
  {
    AllInOrder(|sizes|, sizes);
    SuffixProduct(sizes, cols, 0, 0);
    assert sizes[0..] == sizes && QuerySizes(cols, sizes)[0..] == QuerySizes(cols, sizes);
  }

  lemma SameCount(kept: nat, d: nat)
    ensures kept == kept * d <==> d == 1 || kept == 0
  {
    if d > 1 { MulMono(2, d, kept); }
  }

  lemma SameRow(r: nat, sizes: seq<nat>, cols: seq<nat>)
    requires Ascending(cols) && Indexes(cols, |sizes|) && Product(Dropped(sizes, cols, 0)) == 1
    requires forall c :: c in cols ==> c in AllCoords(|sizes|)
    requires r < Product(QuerySizes(cols, sizes)) && r < Product(sizes) && QuerySizes(AllCoords(|sizes|), sizes) == sizes
    ensures RowAt(r, cols, cols, QuerySizes(cols, sizes)) == RowAt(r, AllCoords(|sizes|), cols, sizes)
  {
    var q := QuerySizes(cols, sizes);
    SizePositive(r, sizes);
    SizePositive(r, q);
    AllInOrder(|sizes|, sizes);
    forall j | 0 <= j < |cols|
      ensures RowAt(r, cols, cols, q)[j] == RowAt(r, AllCoords(|sizes|), cols, sizes)[j]
    {
      PlaceInOrder(cols, j);
      SameKey(r, sizes, cols, j);
    }
  }

  // ---------------------------------------------------------------------------------------------
  // A projection over partitions
  // ---------------------------------------------------------------------------------------------

  /** Projected data variables and coordinate columns. */
  datatype Projected = Projected(variables: seq<VarMeta>, shown: seq<string>)

  ghost predicate ProjectedOk(pr: Projected, coords: seq<CoordMeta>) {
    EffectiveCoords(pr.variables, coords).Some? && Indexes(EffectiveCoords(pr.variables, coords).value, |coords|)
  }

  /** The coordinates whose positions a row carries: all that a data value depends on, or the columns shown. */
  function Columns(pr: Projected, coords: seq<CoordMeta>): seq<nat>
    requires EffectiveCoords(pr.variables, coords).Some?
  {
    if pr.variables != [] then EffectiveCoords(pr.variables, coords).value else ShownCoords(pr.shown, coords)
  }

  lemma ColumnsCount(pr: Projected, coords: seq<CoordMeta>)
    requires ProjectedOk(pr, coords)
    ensures forall c :: c in Columns(pr, coords) ==> c in EffectiveCoords(pr.variables, coords).value
    ensures LimitedCoords(pr.variables, pr.shown, coords).Some?
    ensures forall c :: c in Columns(pr, coords) ==> c in LimitedCoords(pr.variables, pr.shown, coords).value
    ensures Indexes(LimitedCoords(pr.variables, pr.shown, coords).value, |coords|)
  {
    if pr.variables == [] {
      forall c | c in ShownCoords(pr.shown, coords) ensures c in AllCoords(|coords|) { assert AllCoords(|coords|)[c] == c; }
    }
  }

  ghost function Rows(e: seq<nat>, cols: seq<nat>, parts: seq<seq<nat>>, n: nat): (r: Streams)
    requires Indexes(e, n) && (forall c :: c in cols ==> c in e) && forall i :: 0 <= i < |parts| ==> |parts[i]| == n
    ensures |r| == |parts| && forall i :: 0 <= i < |parts| ==> r[i] == PartitionRows(e, cols, parts[i])
  {
    seq(|parts|, i requires 0 <= i < |parts| => PartitionRows(e, cols, parts[i]))
  }

  /** What a scan of the projection reads; `parts` are the partitions' selected sizes by coordinate. */
  ghost function ScanSource(pr: Projected, coords: seq<CoordMeta>, parts: seq<seq<nat>>): Source
    requires ProjectedOk(pr, coords) && forall i :: 0 <= i < |parts| ==> |parts[i]| == |coords|
  {
    ColumnsCount(pr, coords);
    Source(Rows(EffectiveCoords(pr.variables, coords).value, Columns(pr, coords), parts, |coords|),
           Rows(LimitedCoords(pr.variables, pr.shown, coords).value, Columns(pr, coords), parts, |coords|))
  }

  /** Coordinates left out multiply to one, or the projected ones to nothing. */
  predicate NothingLeftOut(sizes: seq<nat>, cols: seq<nat>)
    requires Indexes(cols, |sizes|)
  {
    Product(Dropped(sizes, cols, 0)) == 1 || Product(QuerySizes(cols, sizes)) == 0
  }

  /** The projection has a data variable or no column, or leaves nothing out in any partition. */
  predicate SafelyLimited(pr: Projected, coords: seq<CoordMeta>, parts: seq<seq<nat>>)
    requires forall i :: 0 <= i < |parts| ==> |parts[i]| == |coords|
  {
    || pr.variables != [] || ShownCoords(pr.shown, coords) == []
    || forall i :: 0 <= i < |parts| ==> NothingLeftOut(parts[i], ShownCoords(pr.shown, coords))
  }

  lemma SourcesAgreeIff(pr: Projected, coords: seq<CoordMeta>, parts: seq<seq<nat>>)
    requires ProjectedOk(pr, coords) && forall i :: 0 <= i < |parts| ==> |parts[i]| == |coords|
    ensures ScanSource(pr, coords, parts).full == ScanSource(pr, coords, parts).limited <==> SafelyLimited(pr, coords, parts)
  {
    var src, cols := ScanSource(pr, coords, parts), ShownCoords(pr.shown, coords);
    ColumnsCount(pr, coords);
    if pr.variables == [] && cols != [] {
      SortDedupAscending(NamedCoords(pr.shown, coords));
      assert pr.shown != [];
      forall i | 0 <= i < |parts| ensures src.full[i] == src.limited[i] <==> NothingLeftOut(parts[i], cols) {
        SameRowsIff(parts[i], cols);
      }
      if SafelyLimited(pr, coords, parts) { assert forall i :: 0 <= i < |parts| ==> src.full[i] == src.limited[i]; }
    }
  }

  /**
   Pushing limits keeps the results of every offset-free chain over the scan if and only if the
   projection has a data variable or no column, or the coordinates it leaves out multiply to one,
   or those it shows to nothing, in every partition.
   */
  lemma LimitPushdownIff(pr: Projected, coords: seq<CoordMeta>, parts: seq<seq<nat>>)
    requires ProjectedOk(pr, coords) && forall i :: 0 <= i < |parts| ==> |parts[i]| == |coords|
    ensures var src := ScanSource(pr, coords, parts);
            (forall p, out :: IsChain(p) ==> (Emits(p, src, out) <==> Emits(Optimize(p), src, out))) <==> SafelyLimited(pr, coords, parts)
  {
    SourcesAgreeIff(pr, coords, parts);
    PushdownPreservedIff(ScanSource(pr, coords, parts));
  }

  // ---------------------------------------------------------------------------------------------
  // A coordinate-only query whose rows the rule changes
  // ---------------------------------------------------------------------------------------------

  /** Coordinates t and x of two values each, and a projection of t alone. */
  function TwoByTwo(): seq<CoordMeta> { [CoordMeta("t", 2), CoordMeta("x", 2)] }

  lemma TwoByTwoShown()
    ensures ShownCoords(["t"], TwoByTwo()) == [0]
  {
    var coords, dims := TwoByTwo(), ["t"];
    assert coords[0].name == dims[0];
    assert PositionByName(coords, dims[0]) == Some(0);
    assert dims[1..] == [] && NamedCoords([], coords) == [];
    assert NamedCoords(dims, coords) == [0];
    assert [0][1..] == [] && SortDedup([]) == [];
    var zero: nat := 0;
    assert SortDedup([zero]) == InsertPosition(zero, SortDedup([zero][1..]));
  }

  lemma TwoByTwoProducts()
    ensures Product([2]) == 2 && Product([2, 2]) == 4 && InnerSize([2, 2], 0) == 2 && InnerSize([2], 0) == 1
  {
    assert [2, 2][1..] == [2] && [2][1..] == [];
  }

  lemma TwoByTwoKeys()
    ensures CoordKey(0, 0, [2, 2]) == 0 && CoordKey(1, 0, [2, 2]) == 0 && CoordKey(2, 0, [2, 2]) == 1 && CoordKey(3, 0, [2, 2]) == 1
    ensures CoordKey(0, 0, [2]) == 0 && CoordKey(1, 0, [2]) == 1
  {
    TwoByTwoProducts();
  }

  lemma FirstShown(r: nat, e: seq<nat>, q: seq<nat>)
    requires |q| == |e| > 0 && r < Product(q) && e[0] == 0
    ensures Positive(q) && RowAt(r, e, [0], q) == [CoordKey(r, 0, q)]
  {
    assert Place(e, 0) == 0;
    assert RowAt(r, e, [0], q)[0] == CoordKey(r, 0, q);
  }

  lemma FirstShownRows(e: seq<nat>, sizes: seq<nat>, q: seq<nat>, want: seq<Row>)
    requires Indexes(e, |sizes|) && e != [] && e[0] == 0 && q == QuerySizes(e, sizes) && Positive(q)
    requires |want| == Product(q) && forall r :: 0 <= r < |want| ==> want[r] == [CoordKey(r, 0, q)]
    ensures PartitionRows(e, [0], sizes) == want
  {
    var rows := PartitionRows(e, [0], sizes);
    forall r | 0 <= r < |rows| ensures rows[r] == want[r] { FirstShown(r, e, q); }
  }

  lemma TwoByTwoRows()
    ensures PartitionRows([0, 1], [0], [2, 2]) == [[0], [0], [1], [1]]
    ensures PartitionRows([0], [0], [2, 2]) == [[0], [1]]
  {
    FourRows([0, 1], [2, 2]);
    TwoRows([0], [2, 2]);
  }

  lemma FourRows(e: seq<nat>, sizes: seq<nat>)
    requires e == [0, 1] && sizes == [2, 2]
    ensures PartitionRows(e, [0], sizes) == [[0], [0], [1], [1]]
  {
    TwoByTwoProducts();
    TwoByTwoKeys();
    assert QuerySizes(e, sizes) == sizes;
    FirstShownRows(e, sizes, sizes, [[0], [0], [1], [1]]);
  }

  lemma TwoRows(e: seq<nat>, sizes: seq<nat>)
    requires e == [0] && sizes == [2, 2]
    ensures PartitionRows(e, [0], sizes) == [[0], [1]]
  {
    TwoByTwoProducts();
    TwoByTwoKeys();
    assert QuerySizes(e, sizes) == [2];
    FirstShownRows(e, sizes, [2], [[0], [1]]);
  }

  /** `SELECT t ... LIMIT 3` emits t = 0, 0, 1 before the rule and t = 0, 1 after it. */
  lemma CoordinateOnlyRowsChange(coords: seq<CoordMeta>, pr: Projected)
    requires coords == TwoByTwo() && pr == Projected([], ["t"])
    ensures ProjectedOk(pr, coords)
    ensures var src, p := ScanSource(pr, coords, [[2, 2]]), Coalesce(Some(3), Scan(None));
            (forall out :: Emits(p, src, out) <==> out == [[[0], [0], [1]]])
            && (forall out :: Emits(Optimize(p), src, out) <==> out == [[[0], [1]]])
  {
    TwoByTwoShown();
    TwoByTwoRows();
    assert AllCoords(2) == [0, 1];
    assert EffectiveCoords([], coords) == Some([0, 1]);
    var src, p := ScanSource(pr, coords, [[2, 2]]), Coalesce(Some(3), Scan(None));
    assert src == Source([[[0], [0], [1], [1]]], [[[0], [1]]]);
    CoalesceOverScan(3, [[0], [0], [1], [1]], [[0], [1]]);
    assert [[0], [0], [1], [1]][..3] == [[0], [0], [1]];
  }

  lemma CoalesceOverScan(n: nat, full: seq<Row>, few: seq<Row>)
    ensures var src, p := Source([full], [few]), Coalesce(Some(n), Scan(None));
            (forall out :: Emits(p, src, out) <==> out == [Truncate(full, Some(n))])
            && (forall out :: Emits(Optimize(p), src, out) <==> out == [Truncate(few, Some(n))])
  {
    var src, p := Source([full], [few]), Coalesce(Some(n), Scan(None));
    assert FindLimit(Scan(None)) == None && FindLimit(p) == Some(n);
    assert MinOpt(Some(n), NodeLimit(p)) == Some(n) && Push(Scan(None), Some(n)) == Scan(Some(n));
    assert Optimize(p) == Coalesce(Some(n), Scan(Some(n)));
    var cut := Truncate(few, Some(n));
    assert TruncateAll([few], Some(n)) == [cut] && Truncate(cut, Some(n)) == cut;
    forall m ensures Interleaves([full], m) <==> m == full { OneInterleaving(full, m); }
    forall m ensures Interleaves([cut], m) <==> m == cut { OneInterleaving(cut, m); }
    assert Emits(Scan(None), src, [full]) && Interleaves([full], full);
    assert Emits(Scan(Some(n)), src, [cut]) && Interleaves([cut], cut);
  }
}
