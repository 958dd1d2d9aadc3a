/** Filters that the table declares it applies exactly, so that the query engine no longer does. */
module ExactFilters {
  import opened Options
  import opened RangeSearch
  import opened Pushdown
  import opened PushdownSoundness
  import opened PushdownExactness
  import opened QueryReads

  /** `extract_date_part_eq`: a date part of a column on the left, a literal on the right. */
  predicate DatePartEq(l: Expr, r: Expr) { l.DatePartCall? && ColumnName(l.arg).Some? && LiteralValue(r).Some? }

  /** `is_date_part_filter`: the equality in either order. */
  predicate IsDatePartFilter(e: Expr) {
    e.Binary? && e.op.Equal? && (DatePartEq(e.left, e.right) || DatePartEq(e.right, e.left))
  }

  /** `supports_filters_pushdown`: which filters are declared exact. */
  function DeclaredExact(filters: seq<Expr>): (r: seq<bool>)
    ensures |r| == |filters| && forall k :: 0 <= k < |r| ==> r[k] == IsDatePartFilter(filters[k])
  {
    seq(|filters|, k requires 0 <= k < |filters| => IsDatePartFilter(filters[k]))
  }

  /** A filter is declared exact exactly when it equates a date part of some column with a literal, in either order. */
  lemma DeclaredExactForms(e: Expr)
    ensures IsDatePartFilter(e) <==>
            e.Binary? && e.op.Equal?
            && ((e.left.DatePartCall? && IsColumn(e.left.arg) && IsLiteral(e.right)) || (IsLiteral(e.left) && e.right.DatePartCall? && IsColumn(e.right.arg)))
  {
    if e.Binary? {
      LiteralIs(e.left);
      LiteralIs(e.right);
      if e.left.DatePartCall? { SomeColumnIs(e.left.arg); }
      if e.right.DatePartCall? { SomeColumnIs(e.right.arg); }
    }
  }

  /** The filter keeps exactly the rows on which it holds. */
  ghost predicate AppliedExactly(e: Expr, g: Grid)
    requires GridOk(g)
  {
    forall p, w :: RowAt(g, p, w) ==> (SelectsRow(CoordRanges(w.cal, [e], g), p) <==> Holds(e, w))
  }

  /** A row on which no date part exists. */
  ghost function UndatedRow(g: Grid): World
    requires |g.names| == |g.values|
  {
    WorldAt((_, _) => None, g, FirstRow(g))
  }

  function FirstRow(g: Grid): (p: seq<nat>)
    ensures |p| == |g.names| && forall k :: 0 <= k < |p| ==> p[k] == 0
  {
    seq(|g.names|, _ => 0)
  }

  /**
   A filter that is declared exact is applied exactly to a grid with rows if and only if the date part
   is on the left and its column is one of the coordinates; any other is not applied at all.
   */
  lemma DeclaredExactIff(e: Expr, g: Grid)
    requires IsDatePartFilter(e) && GridOk(g) && PartsResolvable([e], g)
    requires forall i, j :: 0 <= i < j < |g.names| ==> g.names[i] != g.names[j]
    requires forall k :: 0 <= k < |g.names| ==> g.values[k].Len() > 0
    ensures AppliedExactly(e, g) <==> e.left.DatePartCall? && IsColumnIn(e.left.arg, Names(g))
  {
    DeclaredExactForms(e);
    if e.left.DatePartCall? && IsColumnIn(e.left.arg, Names(g)) {
      forall p, w | RowAt(g, p, w) ensures SelectsRow(CoordRanges(w.cal, [e], g), p) <==> Holds(e, w) { LeafSelectsExactly(e, g, p, w); }
    } else {
      NotApplied(e, g);
    }
  }

  lemma NotApplied(e: Expr, g: Grid)
    requires IsDatePartFilter(e) && GridOk(g) && !(e.left.DatePartCall? && IsColumnIn(e.left.arg, Names(g)))
    requires forall i, j :: 0 <= i < j < |g.names| ==> g.names[i] != g.names[j]
    requires forall k :: 0 <= k < |g.names| ==> g.values[k].Len() > 0
    ensures !AppliedExactly(e, g)
  {
    var p, w := FirstRow(g), UndatedRow(g);
    WorldAtRow((_, _) => None, g, p);
    DeclaredExactForms(e);
    OtherLeafSelectsAll(e, g, p, w);
    UndatedFails(e, w);
  }

  lemma UndatedFails(e: Expr, w: World)
    requires IsDatePartFilter(e) && forall field, x :: w.cal(field, x).None?
    ensures !Holds(e, w)
  {
    if e.left.DatePartCall? { UndatedPart(e.left, w); } else { UndatedPart(e.right, w); }
    assert Eval(e, w) == NullVal;
  }

  lemma UndatedPart(part: Expr, w: World)
    requires part.DatePartCall? && forall field, x :: w.cal(field, x).None?
    ensures Eval(part, w) == NullVal
  {
  }

  /** `6 = date_part('month', time)` is declared exact, but keeps a row of another month. */
  lemma MonthOnTheRightKept()
    ensures var e, g := Binary(Literal(6), Equal, DatePartCall("month", Column("time"))), Grid(["time"], [Explicit([0], true)]);
            var w := World(_ => IntVal(0), {"time"}, (_, _) => Some(1), _ => NullVal);
            IsDatePartFilter(e) && GridOk(g) && RowAt(g, [0], w) && !Holds(e, w) && SelectsRow(CoordRanges(w.cal, [e], g), [0])
  {
    var e, g := Binary(Literal(6), Equal, DatePartCall("month", Column("time"))), Grid(["time"], [Explicit([0], true)]);
    var w := World(_ => IntVal(0), {"time"}, (_, _) => Some(1), _ => NullVal);
    OtherLeafSelectsAll(e, g, [0], w);
  }
}
