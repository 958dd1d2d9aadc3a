/**
 Answering COUNT, MIN and MAX from table statistics instead of scanning the flattened table.
 */
module StatisticsRules {
  import opened Options
  import opened RowMajor

  // ---------------------------------------------------------------------------------------------
  // The flattened table
  // ---------------------------------------------------------------------------------------------

  /** A coordinate column, with the minimum and maximum recorded for its array if any. */
  datatype CoordColumn = CoordColumn(name: string, values: seq<int>, minMax: Option<(int, int)>)

  /**
   Coordinate columns and data columns, and by row: the cells of data columns, the values of
   computed expressions (None is null), and whether the row passes a condition.
   */
  datatype Store = Store(
    coords: seq<CoordColumn>,
    dataNames: seq<string>,
    data: (string, nat) -> int,
    computed: (nat, nat) -> Option<int>,
    passes: (nat, nat) -> bool)

  function Sizes(store: Store): (r: seq<nat>)
    ensures |r| == |store.coords| && forall k :: 0 <= k < |r| ==> r[k] == |store.coords[k].values|
  {
    seq(|store.coords|, k requires 0 <= k < |store.coords| => |store.coords[k].values|)
  }

  /** `num_rows` of the statistics: the product of the coordinate sizes. */
  function TotalRows(store: Store): nat { Product(Sizes(store)) }

  function CoordIndex(coords: seq<CoordColumn>, name: string): (r: Option<nat>)
    ensures r.Some? ==> r.value < |coords| && coords[r.value].name == name && forall k :: 0 <= k < r.value ==> coords[k].name != name
    ensures r.None? ==> forall k :: 0 <= k < |coords| ==> coords[k].name != name
  {
    if coords == [] then None
    else if coords[0].name == name then Some(0)
    else
      var rest := CoordIndex(coords[1..], name);
      if rest.Some? then Some(rest.value + 1) else None
  }

  predicate InSchema(store: Store, name: string) {
    CoordIndex(store.coords, name).Some? || name in store.dataNames
  }

  lemma SomeRowNonEmpty(store: Store, r: nat)
    requires r < TotalRows(store)
    ensures Positive(Sizes(store))
  {
    if !Positive(Sizes(store)) { ProductZero(Sizes(store)); }
  }

  /** The cell of a coordinate column on a row. */
  function CoordCell(store: Store, k: nat, r: nat): int
    requires k < |store.coords| && r < TotalRows(store)
  {
    SomeRowNonEmpty(store, r);
    assert Sizes(store)[k] > 0;
    KeyInRange(r, k, Sizes(store));
    store.coords[k].values[CoordKey(r, k, Sizes(store))]
  }

  lemma KeyInRange(r: nat, k: nat, sizes: seq<nat>)
    requires k < |sizes| && sizes[k] > 0
    ensures CoordKey(r, k, sizes) < sizes[k]
  {
  }

  /** The cell of a table column on a row; no column has nulls. */
  function Cell(store: Store, name: string, r: nat): int
    requires r < TotalRows(store)
  {
    var k := CoordIndex(store.coords, name);
    if k.Some? then CoordCell(store, k.value, r) else store.data(name, r)
  }

  /** Every index of every coordinate occurs on some row. */
  lemma EveryIndexOccurs(store: Store, k: nat, i: nat) returns (r: nat)
    requires k < |store.coords| && TotalRows(store) > 0 && i < |store.coords[k].values|
    ensures r < TotalRows(store) && CoordCell(store, k, r) == store.coords[k].values[i]
  {
    var sizes := Sizes(store);
    SomeRowNonEmpty(store, 0);
    var idx: seq<nat> := seq(|sizes|, j => if j == k then i else 0);
    r := Flat(idx, sizes);
    KeysInvertFlat(idx, sizes);
    assert Unflatten(r, sizes)[k] == idx[k];
  }

  lemma CellIsSomeValue(store: Store, k: nat, r: nat)
    requires k < |store.coords| && r < TotalRows(store)
    ensures CoordCell(store, k, r) in store.coords[k].values
  {
    SomeRowNonEmpty(store, r);
    assert Sizes(store)[k] > 0;
    KeyInRange(r, k, Sizes(store));
  }

  // ---------------------------------------------------------------------------------------------
  // Input plans and what their columns denote
  // ---------------------------------------------------------------------------------------------

  datatype Expr =
    | Column(name: string)
    | Cast(arg: Expr)
    | Alias(arg: Expr, name: string)
    | Computed(id: nat)

  /** A scan with the condition pushed into it if any, and what may lie above it. */
  datatype Plan =
    | TableScan(pushed: Option<nat>)
    | Projection(exprs: seq<Expr>, input: Plan)
    | SubqueryAlias(input: Plan)
    | Filter(condition: nat, input: Plan)
    | Other(inputs: seq<Plan>)

  function UnwrapAlias(e: Expr): Expr {
    match e
    case Alias(arg, _) => UnwrapAlias(arg)
    case _ => e
  }

  /** `unwrap_to_table_scan`: the scan under projections and aliases, with its filter flag. */
  function UnwrapToScan(p: Plan): Option<bool> {
    match p
    case TableScan(pushed) => Some(pushed.Some?)
    case Projection(_, input) => UnwrapToScan(input)
    case SubqueryAlias(input) => UnwrapToScan(input)
    case Filter(_, _) => None
    case Other(_) => None
  }

  predicate IsCommon(name: string) { "__common_expr" <= name }

  /** The column of a definition `column` or `CAST(column)`, under aliases. */
  function DefinedColumn(e: Expr): Option<string> {
    match UnwrapAlias(e)
    case Column(c) => Some(c)
    case Cast(x) => (match UnwrapAlias(x) case Column(c) => Some(c) case _ => None)
    case _ => None
  }

  function TraceInList(name: string, exprs: seq<Expr>): Option<string> {
    if exprs == [] then None
    else if exprs[0].Alias? && exprs[0].name == name && DefinedColumn(exprs[0].arg).Some? then DefinedColumn(exprs[0].arg)
    else TraceInList(name, exprs[1..])
  }

  /** `trace_column_in_plan`. */
  function Trace(name: string, p: Plan): Option<string>
    decreases p, 0
  {
    match p
    case TableScan(_) => None
    case Projection(exprs, input) =>
      var here := TraceInList(name, exprs);
      if here.Some? then here else Trace(name, input)
    case SubqueryAlias(input) => Trace(name, input)
    case Filter(_, input) => Trace(name, input)
    case Other(inputs) => TraceAny(name, inputs)
  }

  function TraceAny(name: string, ps: seq<Plan>): Option<string>
    decreases ps, 1
  {
    if ps == [] then None
    else
      var first := Trace(name, ps[0]);
      if first.Some? then first else TraceAny(name, ps[1..])
  }

  /** The column whose statistics `extract_minmax_info` decides to use. */
  function StatColumn(arg: Expr, input: Plan): Option<string> {
    match UnwrapAlias(arg)
    case Column(c) => if IsCommon(c) then Trace(c, input) else Some(c)
    case Cast(x) => (match UnwrapAlias(x) case Column(c) => Some(c) case _ => None)
    case _ => None
  }

  function OutName(e: Expr): Option<string> {
    match e
    case Column(c) => Some(c)
    case Alias(_, n) => Some(n)
    case _ => None
  }

  function FindByName(exprs: seq<Expr>, name: string): Option<Expr> {
    if exprs == [] then None
    else if OutName(exprs[0]) == Some(name) then Some(exprs[0])
    else FindByName(exprs[1..], name)
  }

  /** The expression under aliases and value-preserving casts is a column: which one? */
  function BaseColumn(e: Expr): Option<string> {
    match e
    case Column(c) => Some(c)
    case Cast(x) => BaseColumn(x)
    case Alias(x, _) => BaseColumn(x)
    case Computed(_) => None
  }

  /** The table column whose values a column of the plan's output carries. */
  function Source(name: string, p: Plan): Option<string>
    decreases p
  {
    match p
    case TableScan(_) => Some(name)
    case SubqueryAlias(input) => Source(name, input)
    case Projection(exprs, input) =>
      var e := FindByName(exprs, name);
      if e.None? || BaseColumn(e.value).None? then None else Source(BaseColumn(e.value).value, input)
    case Filter(_, input) => Source(name, input)
    case Other(_) => None
  }

  function ArgSource(arg: Expr, p: Plan): Option<string> {
    var c := BaseColumn(arg);
    if c.None? then None else Source(c.value, p)
  }

  /** The row reaches an aggregate or condition. */
  predicate Passes(store: Store, condition: Option<nat>, r: nat) {
    condition.Some? ==> store.passes(condition.value, r)
  }

  /** The table's row is a row of the plan's output; of other plans, such as joins, nothing is known. */
  predicate InRows(store: Store, p: Plan, r: nat) {
    match p
    case TableScan(pushed) => Passes(store, pushed, r)
    case Projection(_, input) => InRows(store, input, r)
    case SubqueryAlias(input) => InRows(store, input, r)
    case Filter(condition, input) => store.passes(condition, r) && InRows(store, input, r)
    case Other(_) => false
  }

  /** What a column of the plan's output holds on a row. */
  function OutValue(store: Store, name: string, p: Plan, r: nat): Option<int>
    requires r < TotalRows(store)
    decreases p, 0
  {
    match p
    case TableScan(_) => Some(Cell(store, name, r))
    case SubqueryAlias(input) => OutValue(store, name, input, r)
    case Projection(exprs, input) =>
      var e := FindByName(exprs, name);
      if e.None? then None else Value(store, e.value, input, r)
    case Filter(_, input) => OutValue(store, name, input, r)
    case Other(_) => None
  }

  /** What an expression over the plan's output is on a row; None is null. */
  function Value(store: Store, e: Expr, p: Plan, r: nat): Option<int>
    requires r < TotalRows(store)
    decreases p, 1, e
  {
    match e
    case Column(c) => OutValue(store, c, p, r)
    case Cast(x) => Value(store, x, p, r)
    case Alias(x, _) => Value(store, x, p, r)
    case Computed(id) => store.computed(id, r)
  }

  /** An expression that denotes a table column has its cells; one that does not is computed. */
  lemma {:induction false} ColumnValue(store: Store, name: string, p: Plan, r: nat)
    requires r < TotalRows(store)
    ensures Source(name, p).Some? ==> OutValue(store, name, p, r) == Some(Cell(store, Source(name, p).value, r))
    ensures Source(name, p).None? && (forall id, q :: store.computed(id, q) == None) ==> OutValue(store, name, p, r) == None
    decreases p, 0
  {
    match p
    case TableScan(_) =>
    case SubqueryAlias(input) => ColumnValue(store, name, input, r);
    case Filter(_, input) => ColumnValue(store, name, input, r);
    case Other(_) =>
    case Projection(exprs, input) =>
      var e := FindByName(exprs, name);
      if e.Some? { ExprValue(store, e.value, input, r); }
  }

  lemma {:induction false} ExprValue(store: Store, e: Expr, p: Plan, r: nat)
    requires r < TotalRows(store)
    ensures ArgSource(e, p).Some? ==> Value(store, e, p, r) == Some(Cell(store, ArgSource(e, p).value, r))
    ensures ArgSource(e, p).None? && (forall id, q :: store.computed(id, q) == None) ==> Value(store, e, p, r) == None
    decreases p, 1, e
  {
    match e
    case Column(c) => ColumnValue(store, c, p, r);
    case Cast(x) => ExprValue(store, x, p, r);
    case Alias(x, _) => ExprValue(store, x, p, r);
    case Computed(_) =>
  }

  /** The scan under the aggregate is reachable and unfiltered. */
  predicate Rewritable(input: Plan) { UnwrapToScan(input) == Some(false) }

  lemma {:induction false} AcceptedRows(store: Store, p: Plan, r: nat)
    requires Rewritable(p)
    ensures InRows(store, p, r)
  {
    match p
    case Projection(_, input) => AcceptedRows(store, input, r);
    case SubqueryAlias(input) => AcceptedRows(store, input, r);
    case _ =>
  }

  lemma {:induction false} RefusedRows(store: Store, p: Plan, r: nat)
    requires !Rewritable(p) && forall condition :: !store.passes(condition, r)
    ensures !InRows(store, p, r)
  {
    match p
    case Projection(_, input) => RefusedRows(store, input, r);
    case SubqueryAlias(input) => RefusedRows(store, input, r);
    case _ =>
  }

  /** The rules accept exactly the inputs whose rows are all of the table's, whatever the table. */
  lemma RewritableIff(input: Plan)
    ensures Rewritable(input) <==> forall store, r: nat :: r < TotalRows(store) ==> InRows(store, input, r)
  {
    if Rewritable(input) {
      forall store, r: nat | r < TotalRows(store) ensures InRows(store, input, r) { AcceptedRows(store, input, r); }
    } else {
      TwoAlikeHolds([], []);
      RefusedRows(TwoAlike([]), input, 0);
    }
  }

  // ---------------------------------------------------------------------------------------------
  // Aggregate calls
  // ---------------------------------------------------------------------------------------------

  datatype AggArg = LiteralArg(isNull: bool) | ExprArg(e: Expr)

  /** An aggregate expression: a call with its DISTINCT and FILTER clauses, possibly aliased. */
  datatype AggExpr =
    | AggCall(func: string, args: seq<AggArg>, isDistinct: bool, filter: Option<nat>)
    | AggAlias(inner: AggExpr, name: string)
    | NotAggregate

  function UnwrapAgg(a: AggExpr): AggExpr {
    match a
    case AggAlias(inner, _) => UnwrapAgg(inner)
    case _ => a
  }

  /** `call` is what is under the aliases of `a`. */
  predicate Beneath(a: AggExpr, call: AggExpr) {
    match a
    case AggAlias(inner, _) => Beneath(inner, call)
    case _ => a == call
  }

  lemma {:induction false} UnwrapsTo(a: AggExpr, call: AggExpr)
    ensures Beneath(a, call) <==> UnwrapAgg(a) == call
  {
    if a.AggAlias? { UnwrapsTo(a.inner, call); }
  }

  function ArgValue(store: Store, a: AggArg, input: Plan, r: nat): Option<int>
    requires r < TotalRows(store)
  {
    match a
    case LiteralArg(isNull) => if isNull then None else Some(0)
    case ExprArg(e) => Value(store, e, input, r)
  }

  /** The argument denotes a table column, or a constant that is not null. */
  predicate NeverNull(a: AggArg, input: Plan) {
    match a
    case LiteralArg(isNull) => !isNull
    case ExprArg(e) => ArgSource(e, input).Some?
  }

  lemma NeverNullValue(store: Store, a: AggArg, input: Plan, r: nat)
    requires r < TotalRows(store)
    ensures NeverNull(a, input) ==> ArgValue(store, a, input, r).Some?
    ensures !NeverNull(a, input) && (forall id, q :: store.computed(id, q) == None) ==> ArgValue(store, a, input, r).None?
  {
    if a.ExprArg? { ExprValue(store, a.e, input, r); }
  }

  // ---------------------------------------------------------------------------------------------
  // MIN and MAX
  // ---------------------------------------------------------------------------------------------

  function Lower(s: string): string {
    if s == [] then [] else [if 'A' <= s[0] <= 'Z' then s[0] + ('a' - 'A') else s[0]] + Lower(s[1..])
  }

  /** MIN (true) or MAX (false), whatever the case of the function name. */
  function MinMaxKind(func: string): Option<bool> {
    if Lower(func) == "min" then Some(true) else if Lower(func) == "max" then Some(false) else None
  }

  /** `s` is the lower-case `word`, in letters of either case. */
  predicate Spells(s: string, word: string) {
    |s| == |word| && forall i :: 0 <= i < |s| ==> s[i] == word[i] || ('A' <= s[i] <= 'Z' && s[i] + ('a' - 'A') == word[i])
  }

  lemma {:induction false} LowerSpells(s: string, word: string)
    requires forall i :: 0 <= i < |word| ==> 'a' <= word[i] <= 'z'
    ensures Lower(s) == word <==> Spells(s, word)
  {
    if s != [] && word != [] {
      LowerSpells(s[1..], word[1..]);
      assert Lower(s) == [Lower(s)[0]] + Lower(s[1..]) && word == [word[0]] + word[1..];
      assert Spells(s, word) <==> Spells([s[0]], [word[0]]) && Spells(s[1..], word[1..]) by {
        assert forall i :: 0 < i < |s| ==> s[i] == s[1..][i - 1];
        assert |s| == |word| ==> forall i :: 0 < i < |s| ==> word[i] == word[1..][i - 1];
      }
    }
  }

  lemma KindSpells(func: string)
    ensures MinMaxKind(func) == Some(true) <==> Spells(func, "min")
    ensures MinMaxKind(func) == Some(false) <==> Spells(func, "max")
  {
    LowerSpells(func, "min");
    LowerSpells(func, "max");
  }

  /** The recorded bounds are those of the coordinate's array. */
  ghost predicate StatsOk(store: Store) {
    forall k :: 0 <= k < |store.coords| && store.coords[k].minMax.Some? ==>
      var (lo, hi) := store.coords[k].minMax.value;
      && lo in store.coords[k].values && hi in store.coords[k].values
      && forall x :: x in store.coords[k].values ==> lo <= x <= hi
  }

  /** The row reaches the aggregate with a value of its argument. */
  ghost predicate Contributes(store: Store, arg: Expr, filter: Option<nat>, input: Plan, r: nat) {
    r < TotalRows(store) && InRows(store, input, r) && Passes(store, filter, r) && Value(store, arg, input, r).Some?
  }

  /** What SQL says MIN or MAX is: null over no contributing row, else the extreme value of those rows. */
  ghost predicate IsMinMax(store: Store, isMin: bool, arg: Expr, filter: Option<nat>, input: Plan, m: Option<int>) {
    if m.None? then forall r: nat :: !Contributes(store, arg, filter, input, r)
    else
      && (exists r: nat :: Contributes(store, arg, filter, input, r) && Value(store, arg, input, r) == m)
      && forall r: nat :: Contributes(store, arg, filter, input, r) ==>
           if isMin then m.value <= Value(store, arg, input, r).value else m.value >= Value(store, arg, input, r).value
  }

  /** The constant the rule puts in place of one MIN or MAX, if it rewrites; FILTER is not looked at. */
  function MinMaxConstant(store: Store, a: AggExpr, input: Plan): Option<int> {
    match UnwrapAgg(a)
    case AggCall(func, args, _, _) =>
      if MinMaxKind(func).None? || args == [] || args[0].LiteralArg? then None
      else
        var c := StatColumn(args[0].e, input);
        if c.None? || CoordIndex(store.coords, c.value).None? then None
        else
          var mm := store.coords[CoordIndex(store.coords, c.value).value].minMax;
          if mm.None? then None else Some(if MinMaxKind(func).value then mm.value.0 else mm.value.1)
    case _ => None
  }

  /** A MIN or MAX of an expression. */
  predicate MinMaxCall(call: AggExpr) {
    call.AggCall? && (Spells(call.func, "min") || Spells(call.func, "max")) && call.args != [] && call.args[0].ExprArg?
  }

  /** `m` is what the query means by the call. */
  ghost predicate MinMaxMeans(store: Store, call: AggExpr, input: Plan, m: Option<int>)
    requires MinMaxCall(call)
  {
    IsMinMax(store, Spells(call.func, "min"), call.args[0].e, call.filter, input, m)
  }

  // What the constant is, told from the call under the aliases.

  lemma ConstantOfCall(store: Store, a: AggExpr, call: AggExpr, input: Plan)
    requires Beneath(a, call)
    ensures MinMaxConstant(store, a, input).Some? ==> MinMaxCall(call)
    ensures MinMaxCall(call) ==>
              var c := StatColumn(call.args[0].e, input);
              MinMaxConstant(store, a, input) ==
              if c.None? || CoordIndex(store.coords, c.value).None? then None
              else
                var mm := store.coords[CoordIndex(store.coords, c.value).value].minMax;
                if mm.None? then None else Some(if Spells(call.func, "min") then mm.value.0 else mm.value.1)
  {
    UnwrapsTo(a, call);
    if call.AggCall? { KindSpells(call.func); }
  }

  /** The bounds of the 1-D array are the extremes of its column, on a table with rows. */
  lemma BoundsAreExtremes(store: Store, k: nat, isMin: bool) returns (r: nat)
    requires StatsOk(store) && k < |store.coords| && CoordIndex(store.coords, store.coords[k].name) == Some(k)
    requires store.coords[k].minMax.Some? && TotalRows(store) > 0
    ensures var m := if isMin then store.coords[k].minMax.value.0 else store.coords[k].minMax.value.1;
            && r < TotalRows(store) && Cell(store, store.coords[k].name, r) == m
            && forall q :: 0 <= q < TotalRows(store) ==>
                 if isMin then m <= Cell(store, store.coords[k].name, q) else m >= Cell(store, store.coords[k].name, q)
  {
    var c := store.coords[k];
    var m := if isMin then c.minMax.value.0 else c.minMax.value.1;
    var i :| 0 <= i < |c.values| && c.values[i] == m;
    r := EveryIndexOccurs(store, k, i);
    forall q | 0 <= q < TotalRows(store) ensures Cell(store, c.name, q) in c.values { CellIsSomeValue(store, k, q); }
  }

  /**
   Over an input that the rule accepts, a rewritten MIN or MAX without a FILTER whose argument
   denotes the column looked up is the meaning of the query if and only if the table has rows.
   */
  lemma MinMaxRewriteIff(store: Store, a: AggExpr, call: AggExpr, input: Plan)
    requires Rewritable(input) && StatsOk(store) && Beneath(a, call) && MinMaxCall(call) && MinMaxConstant(store, a, input).Some?
    requires call.filter.None? && ArgSource(call.args[0].e, input) == StatColumn(call.args[0].e, input)
    ensures MinMaxMeans(store, call, input, MinMaxConstant(store, a, input)) <==> TotalRows(store) > 0
  {
    ConstantOfCall(store, a, call, input);
    var arg := call.args[0].e;
    if TotalRows(store) > 0 {
      ExtremesMean(store, arg, input, CoordIndex(store.coords, StatColumn(arg, input).value).value, Spells(call.func, "min"));
    }
  }

  /** On a table with rows the recorded bound is the extreme value of an argument that shows the coordinate. */
  lemma ExtremesMean(store: Store, arg: Expr, input: Plan, k: nat, isMin: bool)
    requires Rewritable(input) && StatsOk(store) && TotalRows(store) > 0
    requires k < |store.coords| && CoordIndex(store.coords, store.coords[k].name) == Some(k) && store.coords[k].minMax.Some?
    requires ArgSource(arg, input) == Some(store.coords[k].name)
    ensures var mm := store.coords[k].minMax.value;
            IsMinMax(store, isMin, arg, None, input, Some(if isMin then mm.0 else mm.1))
  {
    var r := BoundsAreExtremes(store, k, isMin);
    forall q: nat | q < TotalRows(store)
      ensures InRows(store, input, q) && Value(store, arg, input, q) == Some(Cell(store, store.coords[k].name, q))
    {
      ExprValue(store, arg, input, q);
      AcceptedRows(store, input, q);
    }
    assert Contributes(store, arg, None, input, r);
  }

  /** Two one-row coordinates with different values; nothing passes a FILTER, every computed value is null. */
  function TwoColumns(a: string, b: string): Store {
    Store([CoordColumn(a, [0], Some((0, 0))), CoordColumn(b, [1], Some((1, 1)))], [], (_, _) => 0, (_, _) => None, (_, _) => false)
  }

  lemma TwoColumnsHold(a: string, b: string)
    ensures var store := TwoColumns(a, b);
            && StatsOk(store) && TotalRows(store) == 1 && CoordIndex(store.coords, a) == Some(0)
            && (a != b ==> Cell(store, b, 0) == 1)
  {
    var store := TwoColumns(a, b);
    assert Sizes(store) == [1, 1] && [1, 1][1..] == [1] && [1][1..] == [];
    assert Product([1]) == 1;
    if a != b {
      assert store.coords[1..] == [CoordColumn(b, [1], Some((1, 1)))];
      assert CoordIndex(store.coords, b) == Some(1);
      CellIsSomeValue(store, 1, 0);
    }
  }

  /** The call has no FILTER, and its argument denotes the column whose bounds the rule uses. */
  predicate MinMaxSafe(call: AggExpr, input: Plan)
    requires MinMaxCall(call)
  {
    call.filter.None? && ArgSource(call.args[0].e, input) == StatColumn(call.args[0].e, input)
  }

  /**
   Over an input that the rule accepts, the rewrite of a MIN or MAX, under any aliases, is right for
   every table with rows if and only if the call has no FILTER clause and its argument denotes the
   column looked up.
   */
  lemma MinMaxSafeIff(a: AggExpr, call: AggExpr, input: Plan)
    requires Rewritable(input) && Beneath(a, call) && MinMaxCall(call) && StatColumn(call.args[0].e, input).Some?
    ensures (forall store :: StatsOk(store) && TotalRows(store) > 0 && MinMaxConstant(store, a, input).Some? ==>
               MinMaxMeans(store, call, input, MinMaxConstant(store, a, input)))
            <==> MinMaxSafe(call, input)
  {
    if MinMaxSafe(call, input) {
      forall store | StatsOk(store) && TotalRows(store) > 0 && MinMaxConstant(store, a, input).Some?
        ensures MinMaxMeans(store, call, input, MinMaxConstant(store, a, input))
      {
        MinMaxRewriteIff(store, a, call, input);
      }
    } else {
      var store := UnsafeMinMax(a, call, input);
      assert !MinMaxMeans(store, call, input, MinMaxConstant(store, a, input));
    }
  }

  /** A table on which an unsafe MIN or MAX is rewritten wrongly. */
  lemma UnsafeMinMax(a: AggExpr, call: AggExpr, input: Plan) returns (store: Store)
    requires Beneath(a, call) && MinMaxCall(call) && StatColumn(call.args[0].e, input).Some? && !MinMaxSafe(call, input)
    ensures StatsOk(store) && TotalRows(store) > 0 && MinMaxConstant(store, a, input).Some?
    ensures !MinMaxMeans(store, call, input, MinMaxConstant(store, a, input))
  {
    var arg := call.args[0].e;
    var used, actual := StatColumn(arg, input).value, ArgSource(arg, input);
    var other := if actual.Some? then actual.value else [];
    store := TwoColumns(used, other);
    TwoColumnsHold(used, other);
    ConstantOfCall(store, a, call, input);
    UnsafeRow(store, call, input, used, other);
    OneRowWrong(store, Spells(call.func, "min"), arg, call.filter, input, 0);
  }

  lemma UnsafeRow(store: Store, call: AggExpr, input: Plan, used: string, other: string)
    requires MinMaxCall(call) && StatColumn(call.args[0].e, input) == Some(used) && !MinMaxSafe(call, input)
    requires ArgSource(call.args[0].e, input).Some? ==> ArgSource(call.args[0].e, input).value == other
    requires store == TwoColumns(used, other) && TotalRows(store) == 1 && (used != other ==> Cell(store, other, 0) == 1)
    ensures !(Contributes(store, call.args[0].e, call.filter, input, 0) && Value(store, call.args[0].e, input, 0) == Some(0))
  {
    ExprValue(store, call.args[0].e, input, 0);
  }

  lemma OneRowWrong(store: Store, isMin: bool, arg: Expr, filter: Option<nat>, input: Plan, m: int)
    requires TotalRows(store) == 1 && !(Contributes(store, arg, filter, input, 0) && Value(store, arg, input, 0) == Some(m))
    ensures !IsMinMax(store, isMin, arg, filter, input, Some(m))
  {
  }

  // What the rule answers, without naming how it finds the column.

  /** `inner` is what is under the aliases of `e`. */
  predicate Under(e: Expr, inner: Expr) {
    match e
    case Alias(x, _) => Under(x, inner)
    case _ => e == inner
  }

  /** `e` is the column, or a cast of it, under aliases. */
  predicate ShowsColumn(e: Expr, c: string) {
    match e
    case Column(n) => n == c
    case Alias(x, _) => ShowsColumn(x, c)
    case Cast(x) => Under(x, Column(c))
    case Computed(_) => false
  }

  /** The projection at the top of the plan defines the common expression `n` as the column. */
  predicate Defines(p: Plan, n: string, c: string) {
    match p
    case SubqueryAlias(input) => Defines(input, n, c)
    case Projection(exprs, _) => var d := FindByName(exprs, n); d.Some? && d.value.Alias? && ShowsColumn(d.value, c)
    case _ => false
  }

  /** The argument is the column or a cast of it, or a common expression that is defined as one. */
  ghost predicate Shows(arg: Expr, p: Plan, c: string) {
    || (ShowsColumn(arg, c) && !(Under(arg, Column(c)) && "__common_expr" <= c))
    || exists n :: "__common_expr" <= n && Under(arg, Column(n)) && Defines(p, n, c)
  }

  lemma {:induction false} UnderIs(e: Expr, inner: Expr)
    ensures !inner.Alias? ==> (Under(e, inner) <==> UnwrapAlias(e) == inner)
  {
    if e.Alias? { UnderIs(e.arg, inner); }
  }

  lemma {:induction false} ShownIsDefined(e: Expr, c: string)
    ensures ShowsColumn(e, c) <==> DefinedColumn(e) == Some(c)
  {
    match e
    case Alias(x, _) => ShownIsDefined(x, c);
    case Cast(x) => UnderIs(x, Column(c));
    case _ =>
  }

  lemma {:induction false} ListTraces(exprs: seq<Expr>, n: string, c: string)
    requires var d := FindByName(exprs, n); d.Some? && d.value.Alias? && ShowsColumn(d.value, c)
    ensures TraceInList(n, exprs) == Some(c)
  {
    if OutName(exprs[0]) == Some(n) {
      ShownIsDefined(exprs[0].arg, c);
    } else {
      ListTraces(exprs[1..], n, c);
    }
  }

  lemma {:induction false} DefinedTraces(p: Plan, n: string, c: string)
    requires Defines(p, n, c)
    ensures Trace(n, p) == Some(c)
  {
    match p
    case SubqueryAlias(input) => DefinedTraces(input, n, c);
    case Projection(exprs, _) => ListTraces(exprs, n, c);
  }

  lemma ShownIsLookedUp(arg: Expr, p: Plan, c: string)
    requires Shows(arg, p, c)
    ensures StatColumn(arg, p) == Some(c)
  {
    ShownIsDefined(arg, c);
    UnderIs(arg, Column(c));
    if n :| "__common_expr" <= n && Under(arg, Column(n)) && Defines(p, n, c) {
      UnderIs(arg, Column(n));
      DefinedTraces(p, n, c);
    }
  }

  /** The first coordinate of the name has recorded bounds. */
  predicate HasBounds(store: Store, c: string) {
    exists k :: 0 <= k < |store.coords| && store.coords[k].name == c && store.coords[k].minMax.Some?
                && forall j :: 0 <= j < k ==> store.coords[j].name != c
  }

  /** A MIN or MAX of a coordinate with recorded bounds. */
  ghost predicate MinMaxAnswerable(store: Store, call: AggExpr, input: Plan) {
    MinMaxCall(call) && exists c :: Shows(call.args[0].e, input, c) && HasBounds(store, c)
  }

  /** The argument denotes the column that it shows. */
  ghost predicate ShowsSource(call: AggExpr, input: Plan)
    requires MinMaxCall(call)
  {
    var c := ArgSource(call.args[0].e, input);
    c.Some? && Shows(call.args[0].e, input, c.value)
  }

  /** Unless there is a FILTER, no row, or a column that does not denote what it shows, `v` is what the call means. */
  ghost predicate MinMaxAnswers(store: Store, call: AggExpr, input: Plan, v: int) {
    && MinMaxCall(call)
    && (StatsOk(store) && TotalRows(store) > 0 && call.filter.None? && ShowsSource(call, input) ==>
          MinMaxMeans(store, call, input, Some(v)))
  }

  lemma AnswersMinMax(store: Store, a: AggExpr, call: AggExpr, input: Plan)
    requires Rewritable(input) && Beneath(a, call)
    ensures MinMaxAnswerable(store, call, input) ==> MinMaxConstant(store, a, input).Some?
    ensures MinMaxConstant(store, a, input).Some? ==> MinMaxAnswers(store, call, input, MinMaxConstant(store, a, input).value)
  {
    ConstantOfCall(store, a, call, input);
    if MinMaxCall(call) {
      var arg := call.args[0].e;
      if c :| Shows(arg, input, c) && HasBounds(store, c) { ShownIsLookedUp(arg, input, c); }
      if MinMaxConstant(store, a, input).Some? && StatsOk(store) && TotalRows(store) > 0 && call.filter.None? && ShowsSource(call, input) {
        ShownIsLookedUp(arg, input, ArgSource(arg, input).value);
        MinMaxRewriteIff(store, a, call, input);
      }
    }
  }

  /** `MIN(lat) FILTER (WHERE ...)`: the whole column's minimum, although no row passes. */
  lemma MinIgnoresFilter(id: nat)
    ensures var a, input := AggCall("min", [ExprArg(Column("lat"))], false, Some(id)), TableScan(None);
            var store := TwoColumns("lat", "lon");
            && MinMaxConstant(store, a, input) == Some(0)
            && IsMinMax(store, true, Column("lat"), Some(id), input, None)
  {
    TwoColumnsHold("lat", "lon");
    LowerNames();
  }

  /** `MIN(lat)` over a projection that computes `lat`: the table column's minimum all the same. */
  lemma MinIgnoresComputed(id: nat)
    ensures var a, input := AggCall("min", [ExprArg(Column("lat"))], false, None), Projection([Alias(Computed(id), "lat")], TableScan(None));
            var store := TwoColumns("lat", "lon");
            && Rewritable(input)
            && MinMaxConstant(store, a, input) == Some(0)
            && IsMinMax(store, true, Column("lat"), None, input, None)
  {
    TwoColumnsHold("lat", "lon");
    LowerNames();
    var store, input := TwoColumns("lat", "lon"), Projection([Alias(Computed(id), "lat")], TableScan(None));
    assert OutName(Alias(Computed(id), "lat")) == Some("lat");
    assert BaseColumn(Computed(id)) == None;
    assert BaseColumn(Alias(Computed(id), "lat")) == None;
    assert Source("lat", input) == None;
    assert ArgSource(Column("lat"), input) == None;
    forall r: nat ensures !Contributes(store, Column("lat"), None, input, r) {
      if r < TotalRows(store) { ExprValue(store, Column("lat"), input, r); }
    }
  }

  lemma LowerNames()
    ensures MinMaxKind("min") == Some(true) && !("__common_expr" <= "lat")
  {
    assert "min"[1..] == "in" && "in"[1..] == "n" && "n"[1..] == [];
    assert Lower("n") == "n" && Lower("in") == "in" && Lower("min") == "min";
    assert "__common_expr"[0] == '_' && "lat"[0] == 'l';
  }

  // ---------------------------------------------------------------------------------------------
  // COUNT
  // ---------------------------------------------------------------------------------------------

  /** The constant the rule puts in place of one COUNT, if it rewrites; only the first argument is looked at. */
  function CountConstant(store: Store, a: AggExpr): Option<nat> {
    match UnwrapAgg(a)
    case AggCall(func, args, _, _) =>
      if func != "count" then None
      else if args == [] || args[0].LiteralArg? then Some(TotalRows(store))
      else if args[0].e.Column? && InSchema(store, args[0].e.name) then Some(TotalRows(store))
      else None
    case _ => None
  }

  /** The rows that a COUNT counts: those that pass its FILTER with no argument null. */
  ghost function CountedRows(store: Store, a: AggExpr, input: Plan): (rows: set<nat>)
    requires a.AggCall?
    ensures forall r: nat :: r in rows <==> Counts(store, a, input, r)
  {
    set r: nat | 0 <= r < TotalRows(store) && Counts(store, a, input, r)
  }

  ghost predicate Counts(store: Store, a: AggExpr, input: Plan, r: nat)
    requires a.AggCall?
  {
    r < TotalRows(store) && InRows(store, input, r) && Passes(store, a.filter, r)
    && forall k :: 0 <= k < |a.args| ==> ArgValue(store, a.args[k], input, r).Some?
  }

  function ArgTuple(store: Store, args: seq<AggArg>, input: Plan, r: nat): (t: seq<Option<int>>)
    requires r < TotalRows(store)
    ensures |t| == |args| && forall k :: 0 <= k < |args| ==> t[k] == ArgValue(store, args[k], input, r)
  {
    seq(|args|, k requires 0 <= k < |args| => ArgValue(store, args[k], input, r))
  }

  /** DISTINCT says nothing without an argument. */
  predicate CountsDistinct(a: AggExpr)
    requires a.AggCall?
  {
    a.isDistinct && a.args != []
  }

  /** The arguments' values by row. */
  ghost function Tuples(store: Store, a: AggExpr, input: Plan): nat -> seq<Option<int>>
    requires a.AggCall?
  {
    (r: nat) => if r < TotalRows(store) then ArgTuple(store, a.args, input, r) else []
  }

  ghost function Image(s: set<nat>, f: nat -> seq<Option<int>>): set<seq<Option<int>>> {
    set r | r in s :: f(r)
  }

  /** What SQL says the COUNT is. */
  ghost function CountMeaning(store: Store, a: AggExpr, input: Plan): nat
    requires a.AggCall?
  {
    if CountsDistinct(a) then |Image(CountedRows(store, a, input), Tuples(store, a, input))| else |CountedRows(store, a, input)|
  }

  /** Every row counts, and under DISTINCT no two rows agree. */
  ghost predicate CountGuard(store: Store, a: AggExpr, input: Plan)
    requires a.AggCall?
  {
    && (forall r: nat :: r < TotalRows(store) ==> Counts(store, a, input, r))
    && (CountsDistinct(a) ==> AllDiffer(Tuples(store, a, input), TotalRows(store)))
  }

  ghost predicate AllDiffer(f: nat -> seq<Option<int>>, n: nat) {
    forall i: nat, j: nat :: i < j < n ==> f(i) != f(j)
  }

  ghost predicate Whole(s: set<nat>, n: nat) {
    forall k: nat :: k < n ==> k in s
  }

  ghost function Below(n: nat): (s: set<nat>)
    ensures |s| == n && forall k: nat :: k in s <==> k < n
  {
    if n == 0 then {} else Below(n - 1) + {n - 1}
  }

  /** A part of the rows is all of them exactly when it has as many. */
  lemma PartIsAll(s: set<nat>, n: nat)
    requires forall k :: k in s ==> k < n
    ensures |s| <= n && (|s| == n <==> Whole(s, n))
  {
    var rest := Below(n) - s;
    assert s + rest == Below(n) && s !! rest;
    if |s| == n { assert rest == {}; }
    if Whole(s, n) { assert s == Below(n); }
  }

  /** A part of the rows has as many images as there are rows exactly when it is all and no two agree. */
  lemma {:induction false} ImageSize(s: set<nat>, n: nat, f: nat -> seq<Option<int>>)
    requires forall k :: k in s ==> k < n
    ensures |Image(s, f)| <= n
    ensures |Image(s, f)| == n <==> Whole(s, n) && AllDiffer(f, n)
  {
    if n == 0 {
      assert s == {} && Image(s, f) == {};
    } else if n - 1 !in s {
      ImageSize(s, n - 1, f);
    } else {
      var front := s - {n - 1};
      ImageSize(front, n - 1, f);
      WithLast(s, front, n - 1, f);
    }
  }

  lemma {:induction false} WithLast(s: set<nat>, front: set<nat>, last: nat, f: nat -> seq<Option<int>>)
    requires last in s && front == s - {last} && forall k :: k in front ==> k < last
    ensures |Image(s, f)| == |Image(front, f)| + if f(last) in Image(front, f) then 0 else 1
    ensures Whole(s, last + 1) <==> Whole(front, last)
    ensures Whole(front, last) ==> (AllDiffer(f, last + 1) <==> AllDiffer(f, last) && f(last) !in Image(front, f))
    ensures f(last) in Image(front, f) ==> !AllDiffer(f, last + 1)
  {
    assert Image(s, f) == Image(front, f) + {f(last)};
    if f(last) in Image(front, f) { assert Image(s, f) == Image(front, f); }
    if Whole(front, last) {
      assert forall i: nat :: i < last ==> f(i) in Image(front, f);
    }
    if Whole(s, last + 1) {
      forall k: nat | k < last ensures k in front { assert k in s; }
    }
    if Whole(front, last) {
      forall k: nat | k < last + 1 ensures k in s { assert k < last ==> k in front; }
    }
  }

  /** A COUNT of rows, of a constant, or of a column of the table. */
  predicate CountAnswerable(store: Store, call: AggExpr) {
    && call.AggCall? && call.func == "count"
    && (call.args == [] || call.args[0].LiteralArg?
        || (call.args[0].e.Column?
            && (call.args[0].e.name in store.dataNames || exists k :: 0 <= k < |store.coords| && store.coords[k].name == call.args[0].e.name)))
  }

  ghost predicate AnswersCount(store: Store, a: AggExpr) {
    exists call :: Beneath(a, call) && CountAnswerable(store, call)
  }

  lemma CountOfCall(store: Store, a: AggExpr, call: AggExpr)
    requires Beneath(a, call)
    ensures CountConstant(store, a) == if CountAnswerable(store, call) then Some(TotalRows(store)) else None
  {
    UnwrapsTo(a, call);
  }

  /**
   On a given table a rewritten COUNT, under any aliases, is right if and only if every row counts
   and, under DISTINCT, no two agree.
   */
  lemma CountRewriteIff(store: Store, a: AggExpr, call: AggExpr, input: Plan)
    requires Beneath(a, call) && call.AggCall? && CountConstant(store, a).Some?
    ensures CountConstant(store, a).value == CountMeaning(store, call, input) <==> CountGuard(store, call, input)
  {
    CountOfCall(store, a, call);
    if CountsDistinct(call) {
      ImageSize(CountedRows(store, call, input), TotalRows(store), Tuples(store, call, input));
    } else {
      PartIsAll(CountedRows(store, call, input), TotalRows(store));
    }
  }

  /** No FILTER, no DISTINCT, and no argument that can be null. */
  predicate CountSafe(a: AggExpr, input: Plan)
    requires a.AggCall?
  {
    a.filter.None? && !CountsDistinct(a) && forall k :: 0 <= k < |a.args| ==> NeverNull(a.args[k], input)
  }

  /** Two rows alike: nothing passes a FILTER and every computed value is null. */
  function TwoAlike(column: string): Store {
    Store([CoordColumn("z", [0, 0], None)], [column], (_, _) => 0, (_, _) => None, (_, _) => false)
  }

  lemma TwoAlikeHolds(column: string, name: string)
    ensures var store := TwoAlike(column);
            TotalRows(store) == 2 && InSchema(store, column) && Cell(store, name, 0) == 0 && Cell(store, name, 1) == 0
  {
    var store := TwoAlike(column);
    assert Sizes(store) == [2] && [2][1..] == [];
    assert Product([2]) == 2;
    if CoordIndex(store.coords, name).Some? {
      CellIsSomeValue(store, 0, 0);
      CellIsSomeValue(store, 0, 1);
    }
  }

  lemma AlikeTuples(column: string, a: AggExpr, input: Plan)
    requires a.AggCall? && TotalRows(TwoAlike(column)) == 2
    ensures ArgTuple(TwoAlike(column), a.args, input, 0) == ArgTuple(TwoAlike(column), a.args, input, 1)
  {
    var store := TwoAlike(column);
    forall k | 0 <= k < |a.args| ensures ArgValue(store, a.args[k], input, 0) == ArgValue(store, a.args[k], input, 1) {
      if a.args[k].ExprArg? {
        ExprValue(store, a.args[k].e, input, 0);
        ExprValue(store, a.args[k].e, input, 1);
        if ArgSource(a.args[k].e, input).Some? { TwoAlikeHolds(column, ArgSource(a.args[k].e, input).value); }
      }
    }
  }

  /** The forms the rule accepts for some table. */
  predicate CountForm(a: AggExpr) {
    a.AggCall? && a.func == "count" && (a.args == [] || a.args[0].LiteralArg? || a.args[0].e.Column?)
  }

  lemma UnsafeCount(a: AggExpr, input: Plan, column: string)
    requires Rewritable(input) && CountForm(a) && !CountSafe(a, input) && (a.args != [] && a.args[0].ExprArg? ==> column == a.args[0].e.name)
    ensures var store := TwoAlike(column);
            CountConstant(store, a) == Some(2) && !CountGuard(store, a, input)
  {
    var store := TwoAlike(column);
    TwoAlikeHolds(column, column);
    AlikeTuples(column, a, input);
    assert Tuples(store, a, input)(0) == Tuples(store, a, input)(1);
    if a.filter.None? && !CountsDistinct(a) {
      var k :| 0 <= k < |a.args| && !NeverNull(a.args[k], input);
      NeverNullValue(store, a.args[k], input, 0);
      assert !Counts(store, a, input, 0);
    } else if a.filter.Some? {
      assert !Counts(store, a, input, 0);
    }
  }

  /**
   Over an input that the rule accepts, the rewrite of a COUNT, under any aliases, is right for every
   table if and only if the call has no FILTER and no DISTINCT, and every argument denotes a table
   column or a constant that is not null.
   */
  lemma CountSafeIff(a: AggExpr, call: AggExpr, input: Plan)
    requires Rewritable(input) && Beneath(a, call) && CountForm(call)
    ensures (forall store :: CountConstant(store, a).Some? ==> CountConstant(store, a).value == CountMeaning(store, call, input))
            <==> CountSafe(call, input)
  {
    if CountSafe(call, input) {
      forall store | CountConstant(store, a).Some? ensures CountConstant(store, a).value == CountMeaning(store, call, input) {
        SafeCounts(store, call, input);
        CountRewriteIff(store, a, call, input);
      }
    } else {
      var column := if call.args != [] && call.args[0].ExprArg? then call.args[0].e.name else [];
      UnsafeCount(call, input, column);
      CountOfCall(TwoAlike(column), a, call);
      CountOfCall(TwoAlike(column), call, call);
      CountRewriteIff(TwoAlike(column), a, call, input);
    }
  }

  lemma SafeCounts(store: Store, call: AggExpr, input: Plan)
    requires Rewritable(input) && call.AggCall? && CountSafe(call, input)
    ensures CountGuard(store, call, input)
  {
    forall r: nat | r < TotalRows(store) ensures Counts(store, call, input, r) {
      AcceptedRows(store, input, r);
      forall k | 0 <= k < |call.args| ensures ArgValue(store, call.args[k], input, r).Some? { NeverNullValue(store, call.args[k], input, r); }
    }
  }

  /** `COUNT(*) FILTER (WHERE ...)`: the number of rows, although none passes. */
  lemma CountIgnoresFilter(id: nat)
    ensures var a, input, store := AggCall("count", [], false, Some(id)), TableScan(None), TwoAlike([]);
            Rewritable(input) && CountConstant(store, a) == Some(2) && CountMeaning(store, a, input) == 0
  {
    TwoAlikeHolds([], []);
    var a, input, store := AggCall("count", [], false, Some(id)), TableScan(None), TwoAlike([]);
    assert CountedRows(store, a, input) == {};
  }

  ghost function DistinctValues(store: Store, name: string): set<int> {
    set r | 0 <= r < TotalRows(store) :: Cell(store, name, r)
  }

  ghost predicate DistinctCoord(c: CoordColumn) {
    forall i, j :: 0 <= i < j < |c.values| ==> c.values[i] != c.values[j]
  }

  lemma {:induction false} ElementsCount(v: seq<int>)
    requires forall i, j :: 0 <= i < j < |v| ==> v[i] != v[j]
    ensures |(set x | x in v)| == |v|
  {
    if v != [] {
      ElementsCount(v[1..]);
      assert (set x | x in v) == {v[0]} + (set x | x in v[1..]);
      forall j | 0 <= j < |v[1..]| ensures v[1..][j] != v[0] { assert v[j + 1] != v[0]; }
    }
  }

  /** A coordinate column has as many distinct values as its array, on a table with rows. */
  lemma CoordDistinctValues(store: Store, k: nat)
    requires k < |store.coords| && CoordIndex(store.coords, store.coords[k].name) == Some(k)
    requires TotalRows(store) > 0 && DistinctCoord(store.coords[k])
    ensures |DistinctValues(store, store.coords[k].name)| == |store.coords[k].values|
  {
    var c := store.coords[k];
    var values := set x | x in c.values;
    forall x | x in values ensures x in DistinctValues(store, c.name) {
      var i :| 0 <= i < |c.values| && c.values[i] == x;
      var r := EveryIndexOccurs(store, k, i);
      assert Cell(store, c.name, r) == x;
    }
    forall r | 0 <= r < TotalRows(store) ensures Cell(store, c.name, r) in values { CellIsSomeValue(store, k, r); }
    assert DistinctValues(store, c.name) == values;
    ElementsCount(c.values);
  }

  // ---------------------------------------------------------------------------------------------
  // The rewrites of a whole aggregate node
  // ---------------------------------------------------------------------------------------------

  /**
   The loop of the count rule: all aggregates are COUNTs it can answer, or none is rewritten; each
   value is what its COUNT means exactly if every row counts and, under DISTINCT, no two agree.
   */
  method RewriteCounts(store: Store, grouped: bool, aggs: seq<AggExpr>, input: Plan) returns (r: Option<seq<nat>>)
    ensures r.Some? <==> !grouped && aggs != [] && Rewritable(input)
                         && forall i :: 0 <= i < |aggs| ==> AnswersCount(store, aggs[i])
    ensures r.Some? ==> |r.value| == |aggs|
    ensures r.Some? ==> forall i, call :: 0 <= i < |aggs| && Beneath(aggs[i], call) ==>
                          call.AggCall? && (r.value[i] == CountMeaning(store, call, input) <==> CountGuard(store, call, input))
    ensures r.Some? ==> forall i :: 0 <= i < |aggs| ==> CountConstant(store, aggs[i]) == Some(r.value[i])
  {
    if grouped || aggs == [] || UnwrapToScan(input) != Some(false) { return None; }
    var values: seq<nat> := [];
    for i := 0 to |aggs|
      invariant |values| == i && forall j :: 0 <= j < i ==> CountConstant(store, aggs[j]) == Some(values[j])
      invariant forall j :: 0 <= j < i ==> AnswersCount(store, aggs[j])
      invariant forall j, call :: 0 <= j < i && Beneath(aggs[j], call) ==>
                  call.AggCall? && (values[j] == CountMeaning(store, call, input) <==> CountGuard(store, call, input))
    {
      var c := CountConstant(store, aggs[i]);
      CountAnswers(store, aggs[i], input);
      if c.None? { return None; }
      values := values + [c.value];
    }
    r := Some(values);
  }

  lemma CountAnswers(store: Store, a: AggExpr, input: Plan)
    ensures CountConstant(store, a).Some? <==> AnswersCount(store, a)
    ensures CountConstant(store, a).Some? ==> forall call :: Beneath(a, call) ==>
              call.AggCall? && (CountConstant(store, a).value == CountMeaning(store, call, input) <==> CountGuard(store, call, input))
  {
    UnwrapsTo(a, UnwrapAgg(a));
    CountOfCall(store, a, UnwrapAgg(a));
    forall call | Beneath(a, call) ensures call == UnwrapAgg(a) { UnwrapsTo(a, call); }
    if CountConstant(store, a).Some? { CountRewriteIff(store, a, UnwrapAgg(a), input); }
  }

  /**
   The loop of the MIN/MAX rule: all aggregates are MINs and MAXes it can answer, or none is
   rewritten. It answers every one of a coordinate with recorded bounds, and each value is what its
   call means unless there is a FILTER, no row, or a column that does not denote what it shows.
   */
  method RewriteMinMax(store: Store, grouped: bool, aggs: seq<AggExpr>, input: Plan) returns (r: Option<seq<int>>)
    ensures r.Some? ==> !grouped && aggs != [] && Rewritable(input) && |r.value| == |aggs|
    ensures r.Some? ==> forall i, call :: 0 <= i < |aggs| && Beneath(aggs[i], call) ==> MinMaxAnswers(store, call, input, r.value[i])
    ensures (!grouped && aggs != [] && Rewritable(input)
             && forall i :: 0 <= i < |aggs| ==> exists call :: Beneath(aggs[i], call) && MinMaxAnswerable(store, call, input)) ==> r.Some?
    ensures r.Some? <==> !grouped && aggs != [] && Rewritable(input)
                         && forall i :: 0 <= i < |aggs| ==> MinMaxConstant(store, aggs[i], input).Some?
    ensures r.Some? ==> forall i :: 0 <= i < |aggs| ==> MinMaxConstant(store, aggs[i], input) == Some(r.value[i])
  {
    if grouped || aggs == [] || UnwrapToScan(input) != Some(false) { return None; }
    var values: seq<int> := [];
    for i := 0 to |aggs|
      invariant |values| == i
      invariant forall j :: 0 <= j < i ==> MinMaxConstant(store, aggs[j], input) == Some(values[j])
      invariant forall j, call :: 0 <= j < i && Beneath(aggs[j], call) ==> MinMaxAnswers(store, call, input, values[j])
    {
      var c := MinMaxConstant(store, aggs[i], input);
      forall call | Beneath(aggs[i], call)
        ensures MinMaxAnswerable(store, call, input) ==> c.Some?
        ensures c.Some? ==> MinMaxAnswers(store, call, input, c.value)
      {
        AnswersMinMax(store, aggs[i], call, input);
      }
      if c.None? { return None; }
      values := values + [c.value];
    }
    r := Some(values);
  }
}
