/**
 Filter pushdown: from the WHERE clause's expression trees to per-coordinate bounds, and from
 the bounds to the positions that are read.
 */
module Pushdown {
  import opened Options
  import opened CompactCoords
  import opened RangeSearch
  import opened FilterComposition

  // ---------------------------------------------------------------------------------------------
  // Expressions and their meaning on one row
  // ---------------------------------------------------------------------------------------------

  datatype Op = And | Equal | GtEq | Gt | LtEq | Lt | OtherOp

  datatype Expr =
    | Column(name: string)
    | Literal(value: int)
    | Binary(left: Expr, op: Op, right: Expr)
    | BetweenExpr(arg: Expr, negated: bool, low: Expr, high: Expr)
    | InListExpr(arg: Expr, list: seq<Expr>, negated: bool)
    | Cast(arg: Expr)
    | TryCast(arg: Expr)
    | DatePartCall(field: string, arg: Expr)
    | Unsupported(id: nat)

  datatype Value = IntVal(i: int) | BoolVal(b: bool) | NullVal

  /**
   One row and its surroundings: the columns, which of them hold instants, the calendar, and the
   value of every expression that is not interpreted here.
   */
  datatype World = World(row: string -> Value, timestamps: set<string>, cal: Calendar, other: Expr -> Value)

  function Compare(op: Op, a: int, b: int): bool {
    match op
    case Equal => a == b
    case GtEq => a >= b
    case Gt => a > b
    case LtEq => a <= b
    case Lt => a < b
    case And => false
    case OtherOp => false
  }

  /** The expression is a column of the set, under casts. */
  predicate IsColumnIn(e: Expr, columns: set<string>) {
    match e
    case Column(name) => name in columns
    case Cast(arg) => IsColumnIn(arg, columns)
    case TryCast(arg) => IsColumnIn(arg, columns)
    case _ => false
  }

  /** The expression is a column, under casts. */
  predicate IsColumn(e: Expr) {
    match e
    case Column(_) => true
    case Cast(arg) => IsColumn(arg)
    case TryCast(arg) => IsColumn(arg)
    case _ => false
  }

  /** A literal, or a cast of one. */
  predicate IsLiteral(e: Expr) { e.Literal? || (e.Cast? && e.arg.Literal?) }

  function DatePartValue(w: World, field: string, arg: Expr, v: Value): Value {
    if IsColumnIn(arg, w.timestamps) && v.IntVal? && w.cal(field, v.i).Some? then IntVal(w.cal(field, v.i).value) else NullVal
  }

  /** Casts keep the value. */
  function Eval(e: Expr, w: World): Value {
    match e
    case Column(name) => w.row(name)
    case Literal(value) => IntVal(value)
    case Cast(arg) => Eval(arg, w)
    case TryCast(arg) => Eval(arg, w)
    case DatePartCall(field, arg) => DatePartValue(w, field, arg, Eval(arg, w))
    case Unsupported(_) => w.other(e)
    case Binary(l, op, r) =>
      var a, b := Eval(l, w), Eval(r, w);
      if op.OtherOp? then w.other(e)
      else if op.And? then
        if a == BoolVal(true) && b == BoolVal(true) then BoolVal(true)
        else if a == BoolVal(false) || b == BoolVal(false) then BoolVal(false)
        else NullVal
      else if a.IntVal? && b.IntVal? then BoolVal(Compare(op, a.i, b.i)) else NullVal
    case BetweenExpr(arg, negated, low, high) =>
      var a, lo, hi := Eval(arg, w), Eval(low, w), Eval(high, w);
      if negated then w.other(e)
      else if a.IntVal? && lo.IntVal? && hi.IntVal? then BoolVal(lo.i <= a.i <= hi.i) else NullVal
    case InListExpr(arg, list, negated) =>
      var a := Eval(arg, w);
      if negated then w.other(e)
      else if a.IntVal? then BoolVal(exists k :: 0 <= k < |list| && Eval(list[k], w) == a) else NullVal
  }

  /** A WHERE clause keeps the rows on which it is true, not false or null. */
  predicate Holds(e: Expr, w: World) { Eval(e, w) == BoolVal(true) }

  // ---------------------------------------------------------------------------------------------
  // Extraction
  // ---------------------------------------------------------------------------------------------

  function ColumnName(e: Expr): Option<string> {
    match e
    case Column(name) => Some(name)
    case Cast(arg) => ColumnName(arg)
    case TryCast(arg) => ColumnName(arg)
    case _ => None
  }

  function LiteralValue(e: Expr): Option<int> {
    match e
    case Literal(value) => Some(value)
    case Cast(Literal(value)) => Some(value)
    case _ => None
  }

  function LiteralValues(list: seq<Expr>): Option<seq<int>> {
    if list == [] then Some([])
    else
      var first, rest := LiteralValue(list[0]), LiteralValues(list[1..]);
      if first.Some? && rest.Some? then Some([first.value] + rest.value) else None
  }

  /** Column and literal of a comparison, in either order; the order is not reported. */
  function ColumnLiteral(l: Expr, r: Expr): Option<(string, int)> {
    if ColumnName(l).Some? && LiteralValue(r).Some? then Some((ColumnName(l).value, LiteralValue(r).value))
    else if LiteralValue(l).Some? && ColumnName(r).Some? then Some((ColumnName(r).value, LiteralValue(l).value))
    else None
  }

  /** One update of the table of partial bounds. */
  datatype Write =
    | SetEq(coord: string, value: int)
    | SetLow(coord: string, value: int, inclusive: bool)
    | SetHigh(coord: string, value: int, inclusive: bool)
    | PushPart(coord: string, field: string, part: int)
    | SetIn(coord: string, values: seq<int>)
    | PushPartSet(coord: string, field: string, parts: seq<int>)

  function ComparisonWrites(op: Op, c: string, v: int): seq<Write> {
    match op
    case GtEq => [SetLow(c, v, true)]
    case Gt => [SetLow(c, v, false)]
    case LtEq => [SetHigh(c, v, true)]
    case Lt => [SetHigh(c, v, false)]
    case Equal => [SetEq(c, v)]
    case And => []
    case OtherOp => []
  }

  function DatePartEqWrites(l: Expr, r: Expr, coords: set<string>): seq<Write> {
    match l
    case DatePartCall(field, arg) =>
      if ColumnName(arg).Some? && LiteralValue(r).Some? && ColumnName(arg).value in coords
      then [PushPart(ColumnName(arg).value, field, LiteralValue(r).value)] else []
    case _ => []
  }

  /** The updates `extract_filters` makes for one expression, in order. */
  function Writes(e: Expr, coords: set<string>): seq<Write> {
    match e
    case Binary(l, op, r) =>
      if op.And? then Writes(l, coords) + Writes(r, coords)
      else
        var cl := ColumnLiteral(l, r);
        if cl.Some? then (if cl.value.0 in coords then ComparisonWrites(op, cl.value.0, cl.value.1) else [])
        else if op.Equal? then DatePartEqWrites(l, r, coords)
        else []
    case BetweenExpr(arg, negated, low, high) =>
      var c, lo, hi := ColumnName(arg), LiteralValue(low), LiteralValue(high);
      if !negated && c.Some? && c.value in coords && lo.Some? && hi.Some?
      then [SetLow(c.value, lo.value, true), SetHigh(c.value, hi.value, true)] else []
    case InListExpr(arg, list, negated) =>
      var vs := LiteralValues(list);
      if negated || vs.None? || vs.value == [] then []
      else if ColumnName(arg).Some? then
        (if ColumnName(arg).value in coords then [SetIn(ColumnName(arg).value, vs.value)] else [])
      else
        (match arg
         case DatePartCall(field, col) =>
           if ColumnName(col).Some? && ColumnName(col).value in coords then [PushPartSet(ColumnName(col).value, field, vs.value)] else []
         case _ => [])
    case Cast(arg) => Writes(arg, coords)
    case _ => []
  }

  function AllWrites(filters: seq<Expr>, coords: set<string>): seq<Write> {
    if filters == [] then [] else Writes(filters[0], coords) + AllWrites(filters[1..], coords)
  }

  datatype PartialBounds = PartialBounds(
    eq: Option<int>,
    low: Option<(int, bool)>,
    high: Option<(int, bool)>,
    dateParts: seq<(string, int)>,
    inList: Option<seq<int>>,
    datePartSets: seq<(string, seq<int>)>)

  const NO_BOUNDS := PartialBounds(None, None, None, [], None, [])

  function Entry(table: map<string, PartialBounds>, c: string): PartialBounds {
    if c in table then table[c] else NO_BOUNDS
  }

  function Updated(b: PartialBounds, w: Write): PartialBounds {
    match w
    case SetEq(_, v) => b.(eq := Some(v))
    case SetLow(_, v, i) => b.(low := Some((v, i)))
    case SetHigh(_, v, i) => b.(high := Some((v, i)))
    case PushPart(_, field, part) => b.(dateParts := b.dateParts + [(field, part)])
    case SetIn(_, vs) => b.(inList := Some(vs))
    case PushPartSet(_, field, parts) => b.(datePartSets := b.datePartSets + [(field, parts)])
  }

  function ApplyWrite(table: map<string, PartialBounds>, w: Write): map<string, PartialBounds> {
    table[w.coord := Updated(Entry(table, w.coord), w)]
  }

  function ApplyAll(table: map<string, PartialBounds>, ws: seq<Write>): map<string, PartialBounds>
    decreases |ws|
  {
    if ws == [] then table else ApplyAll(ApplyWrite(table, ws[0]), ws[1..])
  }

  lemma {:induction false} ApplyConcat(table: map<string, PartialBounds>, a: seq<Write>, b: seq<Write>)
    ensures ApplyAll(table, a + b) == ApplyAll(ApplyAll(table, a), b)
    decreases |a|
  {
    if a == [] {
      assert a + b == b;
    } else {
      ApplyConcat(ApplyWrite(table, a[0]), a[1..], b);
      assert (a + b)[1..] == a[1..] + b;
    }
  }

  lemma ApplySingles(table: map<string, PartialBounds>, ws: seq<Write>)
    ensures |ws| == 1 ==> ApplyAll(table, ws) == ApplyWrite(table, ws[0])
    ensures ws == [] ==> ApplyAll(table, ws) == table
  {
    if |ws| == 1 { assert ws[1..] == []; }
  }

  /** The table `parse_coord_filters` threads through the expressions. */
  class BoundsTable {
    var bounds: map<string, PartialBounds>

    constructor ()
      ensures bounds == map[]
    {
      bounds := map[];
    }

    /** The column-against-literal comparisons: each sets one bound of the column's entry. */
    method ExtractComparison(l: Expr, op: Op, r: Expr, coords: set<string>)
      requires !op.And?
      modifies this
      ensures bounds == ApplyAll(old(bounds), Writes(Binary(l, op, r), coords))
    {
      var cl := ColumnLiteral(l, r);
      if cl.Some? && cl.value.0 in coords {
        var (c, v) := cl.value;
        var b := Entry(bounds, c);
        match op
        case Equal => bounds := bounds[c := b.(eq := Some(v))];
        case GtEq => bounds := bounds[c := b.(low := Some((v, true)))];
        case Gt => bounds := bounds[c := b.(low := Some((v, false)))];
        case LtEq => bounds := bounds[c := b.(high := Some((v, true)))];
        case Lt => bounds := bounds[c := b.(high := Some((v, false)))];
        case OtherOp =>
      } else if cl.None? && op.Equal? && l.DatePartCall? && ColumnName(l.arg).Some? && LiteralValue(r).Some? {
        var c := ColumnName(l.arg).value;
        if c in coords {
          var b := Entry(bounds, c);
          bounds := bounds[c := b.(dateParts := b.dateParts + [(l.field, LiteralValue(r).value)])];
        }
      }
      ApplySingles(old(bounds), Writes(Binary(l, op, r), coords));
    }

    /** BETWEEN sets both bounds of the column's entry. */
    method ExtractBetween(e: Expr, coords: set<string>)
      requires e.BetweenExpr?
      modifies this
      ensures bounds == ApplyAll(old(bounds), Writes(e, coords))
    {
      var c, lo, hi := ColumnName(e.arg), LiteralValue(e.low), LiteralValue(e.high);
      if !e.negated && c.Some? && c.value in coords && lo.Some? && hi.Some? {
        ghost var w := Writes(e, coords);
        bounds := bounds[c.value := Entry(bounds, c.value).(low := Some((lo.value, true)))];
        bounds := bounds[c.value := Entry(bounds, c.value).(high := Some((hi.value, true)))];
        assert w[1..] == [w[1]];
        ApplySingles(ApplyWrite(old(bounds), w[0]), w[1..]);
      }
    }

    /** IN sets the column's list, or adds a set of date parts. */
    method ExtractInList(e: Expr, coords: set<string>)
      requires e.InListExpr?
      modifies this
      ensures bounds == ApplyAll(old(bounds), Writes(e, coords))
    {
      var vs := LiteralValues(e.list);
      if !e.negated && vs.Some? && vs.value != [] {
        if ColumnName(e.arg).Some? {
          var c := ColumnName(e.arg).value;
          if c in coords { bounds := bounds[c := Entry(bounds, c).(inList := Some(vs.value))]; }
        } else if e.arg.DatePartCall? && ColumnName(e.arg.arg).Some? {
          var c := ColumnName(e.arg.arg).value;
          if c in coords {
            var b := Entry(bounds, c);
            bounds := bounds[c := b.(datePartSets := b.datePartSets + [(e.arg.field, vs.value)])];
          }
        }
      }
      ApplySingles(old(bounds), Writes(e, coords));
    }

    /** `extract_filters`: recursion through AND and casts, updates at the leaves. */
    method Extract(e: Expr, coords: set<string>)
      modifies this
      ensures bounds == ApplyAll(old(bounds), Writes(e, coords))
      decreases e
    {
      match e
      case Binary(l, op, r) =>
        if op.And? {
          Extract(l, coords);
          Extract(r, coords);
          ApplyConcat(old(bounds), Writes(l, coords), Writes(r, coords));
        } else {
          ExtractComparison(l, op, r, coords);
        }
      case BetweenExpr(_, _, _, _) => ExtractBetween(e, coords);
      case InListExpr(_, _, _) => ExtractInList(e, coords);
      case Cast(arg) => Extract(arg, coords);
      case _ =>
    }

    method ExtractAll(filters: seq<Expr>, coords: set<string>)
      modifies this
      ensures bounds == ApplyAll(old(bounds), AllWrites(filters, coords))
    {
      for k := 0 to |filters|
        invariant ApplyAll(bounds, AllWrites(filters[k..], coords)) == ApplyAll(old(bounds), AllWrites(filters, coords))
      {
        assert filters[k..][1..] == filters[k + 1..];
        ApplyConcat(bounds, Writes(filters[k], coords), AllWrites(filters[k + 1..], coords));
        Extract(filters[k], coords);
      }
    }
  }

  function PartFilters(parts: seq<(string, int)>): seq<FilterKind> {
    if parts == [] then [] else [DatePart(parts[0].0, parts[0].1)] + PartFilters(parts[1..])
  }

  function PartSetFilters(sets: seq<(string, seq<int>)>): seq<FilterKind> {
    if sets == [] then [] else [DatePartSet(sets[0].0, sets[0].1)] + PartSetFilters(sets[1..])
  }

  function RangeFilter(b: PartialBounds): FilterKind {
    Between(if b.low.Some? then Some(b.low.value.0) else None,
            if b.high.Some? then Some(b.high.value.0) else None,
            if b.low.Some? then b.low.value.1 else true,
            if b.high.Some? then b.high.value.1 else true)
  }

  /** `into_filters`: every collected predicate is emitted. */
  function IntoFilters(b: PartialBounds): seq<FilterKind> {
    (if b.eq.Some? then [Eq(b.eq.value)] else [])
    + (if b.low.Some? || b.high.Some? then [RangeFilter(b)] else [])
    + PartFilters(b.dateParts)
    + (if b.inList.Some? then [InList(b.inList.value)] else [])
    + PartSetFilters(b.datePartSets)
  }

  function ParsedBounds(filters: seq<Expr>, coords: set<string>): map<string, PartialBounds> {
    ApplyAll(map[], AllWrites(filters, coords))
  }

  /** The filter list of one coordinate after parsing, if any. */
  function ParseFilters(filters: seq<Expr>, coords: set<string>, c: string): Option<seq<FilterKind>> {
    var table := ParsedBounds(filters, coords);
    if c in table && IntoFilters(table[c]) != [] then Some(IntoFilters(table[c])) else None
  }

  // ---------------------------------------------------------------------------------------------
  // What bounds say of a value
  // ---------------------------------------------------------------------------------------------

  predicate Means(cal: Calendar, ts: bool, w: Write, x: int) {
    match w
    case SetEq(_, v) => x == v
    case SetLow(_, v, i) => AboveLow(x, Some(v), i)
    case SetHigh(_, v, i) => BelowHigh(x, Some(v), i)
    case PushPart(_, field, part) => Matches(cal, ts, DatePart(field, part), x)
    case SetIn(_, vs) => x in vs
    case PushPartSet(_, field, parts) => Matches(cal, ts, DatePartSet(field, parts), x)
  }

  /** The conjunction of everything a table entry holds. */
  ghost predicate BoundsMean(cal: Calendar, ts: bool, b: PartialBounds, x: int) {
    && (b.eq.Some? ==> x == b.eq.value)
    && (b.low.Some? ==> AboveLow(x, Some(b.low.value.0), b.low.value.1))
    && (b.high.Some? ==> BelowHigh(x, Some(b.high.value.0), b.high.value.1))
    && (b.inList.Some? ==> x in b.inList.value)
    && (forall p :: p in b.dateParts ==> Matches(cal, ts, DatePart(p.0, p.1), x))
    && (forall p :: p in b.datePartSets ==> Matches(cal, ts, DatePartSet(p.0, p.1), x))
  }

  lemma {:induction false} AllMatchConcat(cal: Calendar, ts: bool, a: seq<FilterKind>, b: seq<FilterKind>, x: int)
    ensures AllMatch(cal, ts, a + b, x) <==> AllMatch(cal, ts, a, x) && AllMatch(cal, ts, b, x)
  {
    if a == [] {
      assert a + b == b;
    } else {
      AllMatchConcat(cal, ts, a[1..], b, x);
      assert (a + b)[1..] == a[1..] + b;
    }
  }

  lemma {:induction false} PartFiltersMean(cal: Calendar, ts: bool, parts: seq<(string, int)>, x: int)
    ensures AllMatch(cal, ts, PartFilters(parts), x) <==> forall p :: p in parts ==> Matches(cal, ts, DatePart(p.0, p.1), x)
  {
    if parts != [] {
      PartFiltersMean(cal, ts, parts[1..], x);
      assert PartFilters(parts)[1..] == PartFilters(parts[1..]);
      assert forall p :: p in parts <==> p == parts[0] || p in parts[1..];
    }
  }

  lemma {:induction false} PartSetFiltersMean(cal: Calendar, ts: bool, sets: seq<(string, seq<int>)>, x: int)
    ensures AllMatch(cal, ts, PartSetFilters(sets), x) <==> forall p :: p in sets ==> Matches(cal, ts, DatePartSet(p.0, p.1), x)
  {
    if sets != [] {
      PartSetFiltersMean(cal, ts, sets[1..], x);
      assert PartSetFilters(sets)[1..] == PartSetFilters(sets[1..]);
      assert forall p :: p in sets <==> p == sets[0] || p in sets[1..];
    }
  }

  lemma OneFilter(cal: Calendar, ts: bool, f: FilterKind, x: int)
    ensures AllMatch(cal, ts, [f], x) <==> Matches(cal, ts, f, x)
  {
    assert [f][1..] == [];
  }

  /** The emitted filters say exactly what the bounds say. */
  lemma IntoFiltersMean(cal: Calendar, ts: bool, b: PartialBounds, x: int)
    ensures AllMatch(cal, ts, IntoFilters(b), x) <==> BoundsMean(cal, ts, b, x)
  {
    var e := if b.eq.Some? then [Eq(b.eq.value)] else [];
    var r := if b.low.Some? || b.high.Some? then [RangeFilter(b)] else [];
    var p, s := PartFilters(b.dateParts), PartSetFilters(b.datePartSets);
    var l := if b.inList.Some? then [InList(b.inList.value)] else [];
    AllMatchConcat(cal, ts, e + r + p + l, s, x);
    AllMatchConcat(cal, ts, e + r + p, l, x);
    AllMatchConcat(cal, ts, e + r, p, x);
    AllMatchConcat(cal, ts, e, r, x);
    PartFiltersMean(cal, ts, b.dateParts, x);
    PartSetFiltersMean(cal, ts, b.datePartSets, x);
    if b.eq.Some? { OneFilter(cal, ts, Eq(b.eq.value), x); }
    if b.low.Some? || b.high.Some? { OneFilter(cal, ts, RangeFilter(b), x); }
    if b.inList.Some? { OneFilter(cal, ts, InList(b.inList.value), x); }
  }

  // ---------------------------------------------------------------------------------------------
  // Expressions imply their writes, unless the literal came first
  // ---------------------------------------------------------------------------------------------

  predicate IsOrdering(op: Op) { op.GtEq? || op.Gt? || op.LtEq? || op.Lt? }

  /** An ordering comparison on a coordinate with the literal on the left. */
  predicate LiteralFirst(l: Expr, op: Op, r: Expr, coords: set<string>) {
    IsOrdering(op) && IsLiteral(l) && IsColumnIn(r, coords)
  }

  /** No literal-first ordering comparison is reached by the extraction. */
  predicate ColumnFirst(e: Expr, coords: set<string>) {
    match e
    case Binary(l, op, r) => if op.And? then ColumnFirst(l, coords) && ColumnFirst(r, coords) else !LiteralFirst(l, op, r, coords)
    case Cast(arg) => ColumnFirst(arg, coords)
    case _ => true
  }

  ghost predicate CoordsAreInts(w: World, coords: set<string>) {
    forall c :: c in coords ==> w.row(c).IntVal?
  }

  /** The row satisfies an update: its coordinate's value does. */
  predicate RowMeans(w: World, u: Write) {
    w.row(u.coord).IntVal? && Means(w.cal, u.coord in w.timestamps, u, w.row(u.coord).i)
  }

  ghost predicate RowMeansAll(w: World, us: seq<Write>) {
    forall u :: u in us ==> RowMeans(w, u)
  }

  lemma {:induction false} ColumnIs(e: Expr, columns: set<string>)
    ensures IsColumnIn(e, columns) <==> ColumnName(e).Some? && ColumnName(e).value in columns
  {
    match e
    case Cast(arg) => ColumnIs(arg, columns);
    case TryCast(arg) => ColumnIs(arg, columns);
    case _ =>
  }

  lemma {:induction false} SomeColumnIs(e: Expr)
    ensures IsColumn(e) <==> ColumnName(e).Some?
  {
    match e
    case Cast(arg) => SomeColumnIs(arg);
    case TryCast(arg) => SomeColumnIs(arg);
    case _ =>
  }

  lemma LiteralIs(e: Expr)
    ensures IsLiteral(e) <==> LiteralValue(e).Some?
    ensures IsLiteral(e) ==> ColumnName(e).None?
  {
  }

  lemma {:induction false} LiteralsAre(list: seq<Expr>)
    ensures LiteralValues(list).Some? <==> forall k :: 0 <= k < |list| ==> IsLiteral(list[k])
    ensures LiteralValues(list).Some? ==> |LiteralValues(list).value| == |list|
  {
    if list != [] {
      LiteralIs(list[0]);
      LiteralsAre(list[1..]);
      assert forall k :: 0 < k < |list| ==> list[k] == list[1..][k - 1];
      if forall k :: 0 <= k < |list| ==> IsLiteral(list[k]) {
        assert forall k :: 0 <= k < |list[1..]| ==> list[1..][k] == list[k + 1];
      }
    }
  }

  lemma {:induction false} ColumnEval(e: Expr, w: World)
    ensures ColumnName(e).Some? ==> Eval(e, w) == w.row(ColumnName(e).value)
  {
    match e
    case Cast(arg) => ColumnEval(arg, w);
    case TryCast(arg) => ColumnEval(arg, w);
    case _ =>
  }

  lemma LiteralEval(e: Expr, w: World)
    ensures LiteralValue(e).Some? ==> Eval(e, w) == IntVal(LiteralValue(e).value)
  {
  }

  lemma {:induction false} LiteralsEval(list: seq<Expr>, w: World, x: int)
    requires LiteralValues(list).Some?
    ensures x in LiteralValues(list).value <==> exists k :: 0 <= k < |list| && Eval(list[k], w) == IntVal(x)
  {
    if list != [] {
      LiteralEval(list[0], w);
      LiteralsEval(list[1..], w, x);
      if k :| 0 <= k < |list| && Eval(list[k], w) == IntVal(x) {
        assert k > 0 ==> list[k] == list[1..][k - 1];
      }
      if x in LiteralValues(list[1..]).value {
        var k :| 0 <= k < |list[1..]| && Eval(list[1..][k], w) == IntVal(x);
        assert list[k + 1] == list[1..][k];
      }
      if LiteralValue(list[0]).value == x { assert Eval(list[0], w) == IntVal(x); }
    }
  }

  /** A comparison the extraction understands holds exactly when its update does. */
  lemma ComparisonMeans(l: Expr, op: Op, r: Expr, coords: set<string>, w: World)
    requires !op.And? && !op.OtherOp? && CoordsAreInts(w, coords) && !LiteralFirst(l, op, r, coords)
    requires Writes(Binary(l, op, r), coords) != []
    ensures Holds(Binary(l, op, r), w) <==> RowMeansAll(w, Writes(Binary(l, op, r), coords))
  {
    ColumnEval(l, w);
    ColumnEval(r, w);
    LiteralEval(l, w);
    LiteralEval(r, w);
    LiteralIs(l);
    ColumnIs(r, coords);
    var ws := Writes(Binary(l, op, r), coords);
    assert RowMeansAll(w, ws) <==> RowMeans(w, ws[0]);
    if ColumnLiteral(l, r).None? { DatePartEqMeans(l, r, coords, w); }
  }

  lemma DatePartEqMeans(l: Expr, r: Expr, coords: set<string>, w: World)
    requires CoordsAreInts(w, coords) && DatePartEqWrites(l, r, coords) != []
    ensures Holds(Binary(l, Equal, r), w) <==> RowMeans(w, DatePartEqWrites(l, r, coords)[0])
  {
    ColumnEval(l.arg, w);
    ColumnIs(l.arg, w.timestamps);
    LiteralEval(r, w);
    var c, part := ColumnName(l.arg).value, LiteralValue(r).value;
    assert Eval(l.arg, w) == w.row(c) && w.row(c).IntVal?;
    assert Eval(l, w) == DatePartValue(w, l.field, l.arg, w.row(c));
    assert Eval(Binary(l, Equal, r), w) == if Eval(l, w).IntVal? then BoolVal(Eval(l, w).i == part) else NullVal;
  }

  lemma BetweenMeans(e: Expr, coords: set<string>, w: World)
    requires e.BetweenExpr? && CoordsAreInts(w, coords) && Writes(e, coords) != []
    ensures Holds(e, w) <==> RowMeansAll(w, Writes(e, coords))
  {
    ColumnEval(e.arg, w);
    LiteralEval(e.low, w);
    LiteralEval(e.high, w);
    var ws := Writes(e, coords);
    assert RowMeansAll(w, ws) <==> RowMeans(w, ws[0]) && RowMeans(w, ws[1]);
  }

  lemma InListMeans(e: Expr, coords: set<string>, w: World)
    requires e.InListExpr? && CoordsAreInts(w, coords) && Writes(e, coords) != []
    ensures Holds(e, w) <==> RowMeansAll(w, Writes(e, coords))
  {
    ColumnEval(e.arg, w);
    var ws := Writes(e, coords);
    assert RowMeansAll(w, ws) <==> RowMeans(w, ws[0]);
    if e.arg.DatePartCall? {
      ColumnEval(e.arg.arg, w);
      ColumnIs(e.arg.arg, w.timestamps);
    }
    var a := Eval(e.arg, w);
    if a.IntVal? { LiteralsEval(e.list, w, a.i); }
  }

  /** A row that satisfies an expression satisfies every update extracted from it. */
  lemma {:induction false} HoldsImpliesWrites(e: Expr, coords: set<string>, w: World)
    requires CoordsAreInts(w, coords) && ColumnFirst(e, coords) && Holds(e, w)
    ensures RowMeansAll(w, Writes(e, coords))
  {
    if Writes(e, coords) != [] {
      match e
      case Binary(l, op, r) =>
        if op.And? {
          HoldsImpliesWrites(l, coords, w);
          HoldsImpliesWrites(r, coords, w);
        } else if !op.OtherOp? {
          ComparisonMeans(l, op, r, coords, w);
        }
      case BetweenExpr(_, _, _, _) => BetweenMeans(e, coords, w);
      case InListExpr(_, _, _) => InListMeans(e, coords, w);
      case Cast(arg) => HoldsImpliesWrites(arg, coords, w);
      case _ =>
    }
  }

  // ---------------------------------------------------------------------------------------------
  // What is pushed down, told from the expression
  // ---------------------------------------------------------------------------------------------

  /**
   A predicate on one coordinate: a comparison of the column with a literal (an equality in either
   order), a date part equal to a literal, BETWEEN literals, or IN a list of literals, of the column or
   of a date part.
   */
  predicate PushableLeaf(e: Expr, coords: set<string>) {
    match e
    case Binary(l, op, r) =>
      || ((op.Equal? || IsOrdering(op)) && IsColumnIn(l, coords) && IsLiteral(r))
      || (op.Equal? && IsLiteral(l) && IsColumnIn(r, coords))
      || (op.Equal? && l.DatePartCall? && IsColumnIn(l.arg, coords) && IsLiteral(r))
    case BetweenExpr(arg, negated, low, high) => !negated && IsColumnIn(arg, coords) && IsLiteral(low) && IsLiteral(high)
    case InListExpr(arg, list, negated) =>
      && !negated && list != [] && (forall k :: 0 <= k < |list| ==> IsLiteral(list[k]))
      && (IsColumnIn(arg, coords) || (arg.DatePartCall? && IsColumnIn(arg.arg, coords)))
    case _ => false
  }

  /** Such predicates under AND and casts. */
  predicate Pushable(e: Expr, coords: set<string>) {
    match e
    case Binary(l, op, r) => if op.And? then Pushable(l, coords) && Pushable(r, coords) else PushableLeaf(e, coords)
    case Cast(arg) => Pushable(arg, coords)
    case _ => PushableLeaf(e, coords)
  }

  /** A single predicate, with neither AND nor cast above it. */
  predicate IsLeaf(e: Expr) { !(e.Binary? && e.op.And?) && !e.Cast? }

  /** A predicate is extracted exactly when it is pushable, or an ordering comparison with the literal first. */
  lemma LeafWritesIff(e: Expr, coords: set<string>)
    requires IsLeaf(e)
    ensures Writes(e, coords) != [] <==> PushableLeaf(e, coords) || (e.Binary? && LiteralFirst(e.left, e.op, e.right, coords))
    ensures PushableLeaf(e, coords) ==> ColumnFirst(e, coords)
  {
    match e
    case Binary(l, op, r) => ComparisonWritesIff(l, op, r, coords);
    case BetweenExpr(arg, _, low, high) =>
      ColumnIs(arg, coords);
      LiteralIs(low);
      LiteralIs(high);
    case InListExpr(arg, list, _) =>
      ColumnIs(arg, coords);
      LiteralsAre(list);
      if arg.DatePartCall? { ColumnIs(arg.arg, coords); }
    case _ =>
  }

  lemma ComparisonWritesIff(l: Expr, op: Op, r: Expr, coords: set<string>)
    requires !op.And?
    ensures var e := Binary(l, op, r);
            && (Writes(e, coords) != [] <==> PushableLeaf(e, coords) || LiteralFirst(l, op, r, coords))
            && (PushableLeaf(e, coords) ==> !LiteralFirst(l, op, r, coords))
  {
    ColumnIs(l, coords);
    ColumnIs(r, coords);
    LiteralIs(l);
    LiteralIs(r);
    if l.DatePartCall? { ColumnIs(l.arg, coords); }
  }

  /** A pushable predicate holds exactly when its updates do. */
  lemma LeafMeans(e: Expr, coords: set<string>, w: World)
    requires PushableLeaf(e, coords) && CoordsAreInts(w, coords)
    ensures Holds(e, w) <==> RowMeansAll(w, Writes(e, coords))
  {
    LeafWritesIff(e, coords);
    match e
    case Binary(l, op, r) => ComparisonMeans(l, op, r, coords, w);
    case BetweenExpr(_, _, _, _) => BetweenMeans(e, coords, w);
    case InListExpr(_, _, _) => InListMeans(e, coords, w);
  }

  lemma {:induction false} WritesImplyHolds(e: Expr, coords: set<string>, w: World)
    requires CoordsAreInts(w, coords) && Pushable(e, coords)
    requires RowMeansAll(w, Writes(e, coords))
    ensures Holds(e, w)
  {
    match e
    case Binary(l, op, r) =>
      if op.And? {
        WritesImplyHolds(l, coords, w);
        WritesImplyHolds(r, coords, w);
      } else {
        LeafMeans(e, coords, w);
      }
    case Cast(arg) => WritesImplyHolds(arg, coords, w);
    case _ => LeafMeans(e, coords, w);
  }

  lemma {:induction false} PushableFirst(e: Expr, coords: set<string>)
    requires Pushable(e, coords)
    ensures ColumnFirst(e, coords)
  {
    match e
    case Binary(l, op, r) =>
      if op.And? {
        PushableFirst(l, coords);
        PushableFirst(r, coords);
      } else {
        LeafWritesIff(e, coords);
      }
    case Cast(arg) => PushableFirst(arg, coords);
    case _ =>
  }

  lemma {:induction false} AllHoldImplyWrites(filters: seq<Expr>, coords: set<string>, w: World)
    requires CoordsAreInts(w, coords)
    requires forall f :: f in filters ==> ColumnFirst(f, coords) && Holds(f, w)
    ensures RowMeansAll(w, AllWrites(filters, coords))
  {
    if filters != [] {
      HoldsImpliesWrites(filters[0], coords, w);
      AllHoldImplyWrites(filters[1..], coords, w);
    }
  }

  lemma {:induction false} AllWritesImplyHold(filters: seq<Expr>, coords: set<string>, w: World, f: Expr)
    requires CoordsAreInts(w, coords) && f in filters
    requires Pushable(f, coords) && RowMeansAll(w, AllWrites(filters, coords))
    ensures Holds(f, w)
  {
    if f == filters[0] {
      WritesImplyHolds(f, coords, w);
    } else {
      AllWritesImplyHold(filters[1..], coords, w, f);
    }
  }
}
