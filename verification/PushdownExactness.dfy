/**
 When pushdown keeps exactly the qualifying rows, told from the filter expressions alone: which
 predicates are pushed down, and when a repeated bound forgets nothing.
 */
module PushdownExactness {
  import opened Options
  import opened Selection
  import opened RangeSearch
  import opened FilterComposition
  import opened Pushdown
  import opened PushdownSoundness

  // ---------------------------------------------------------------------------------------------
  // The conjuncts of a filter and the bounds they set
  // ---------------------------------------------------------------------------------------------

  /** The predicates under AND and casts, in order; BETWEEN is two comparisons. */
  function Conjuncts(e: Expr): seq<Expr> {
    match e
    case Binary(l, op, r) => if op.And? then Conjuncts(l) + Conjuncts(r) else [e]
    case BetweenExpr(arg, negated, low, high) => if negated then [e] else [Binary(arg, GtEq, low), Binary(arg, LtEq, high)]
    case Cast(arg) => Conjuncts(arg)
    case _ => [e]
  }

  function AllConjuncts(filters: seq<Expr>): seq<Expr> {
    if filters == [] then [] else Conjuncts(filters[0]) + AllConjuncts(filters[1..])
  }

  /** What a predicate says of a column: its value, a lower or an upper bound, or a list of values. */
  datatype BoundKind = OneValue | FromBelow | FromAbove | OneOf

  predicate Bounds(e: Expr, c: string, kind: BoundKind) {
    match e
    case Binary(l, op, r) =>
      (match kind
       case OneValue => op.Equal? && ((IsColumnIn(l, {c}) && IsLiteral(r)) || (IsLiteral(l) && IsColumnIn(r, {c})))
       case FromBelow => (op.GtEq? || op.Gt?) && IsColumnIn(l, {c}) && IsLiteral(r)
       case FromAbove => (op.LtEq? || op.Lt?) && IsColumnIn(l, {c}) && IsLiteral(r)
       case OneOf => false)
    case InListExpr(arg, _, _) => kind.OneOf? && IsColumnIn(arg, {c})
    case _ => false
  }

  ghost predicate SameBound(a: Expr, b: Expr) {
    exists c, kind :: Bounds(a, c, kind) && Bounds(b, c, kind)
  }

  /** Every row on which `a` holds satisfies `b`. */
  ghost predicate Implies(a: Expr, b: Expr, coords: set<string>) {
    forall w: World :: CoordsAreInts(w, coords) && Holds(a, w) ==> Holds(b, w)
  }

  ghost predicate LastOfBound(cs: seq<Expr>, j: nat)
    requires j < |cs|
  {
    forall k :: j < k < |cs| ==> !SameBound(cs[j], cs[k])
  }

  /** Of the conjuncts that set one bound of one coordinate, the last implies the others. */
  ghost predicate LastImplies(cs: seq<Expr>, coords: set<string>) {
    forall i, j :: 0 <= i < j < |cs| && SameBound(cs[i], cs[j]) && LastOfBound(cs, j) ==> Implies(cs[j], cs[i], coords)
  }

  // ---------------------------------------------------------------------------------------------
  // Conjuncts and updates correspond
  // ---------------------------------------------------------------------------------------------

  /** The conjunct is pushed down as the one update. */
  ghost predicate Pair(e: Expr, u: Write, coords: set<string>) {
    PushableLeaf(e, coords) && Writes(e, coords) == [u]
  }

  ghost predicate Pairs(cs: seq<Expr>, us: seq<Write>, coords: set<string>) {
    |cs| == |us| && forall k :: 0 <= k < |cs| ==> Pair(cs[k], us[k], coords)
  }

  lemma BetweenPairs(e: Expr, coords: set<string>)
    requires e.BetweenExpr? && PushableLeaf(e, coords)
    ensures Pairs(Conjuncts(e), Writes(e, coords), coords)
  {
    ColumnIs(e.arg, coords);
    LiteralIs(e.low);
    LiteralIs(e.high);
  }

  lemma LeafPairs(e: Expr, coords: set<string>)
    requires IsLeaf(e) && !e.BetweenExpr? && PushableLeaf(e, coords)
    ensures |Writes(e, coords)| == 1 && Pair(e, Writes(e, coords)[0], coords)
  {
    LeafWritesIff(e, coords);
  }

  lemma {:induction false} ConjunctsPair(e: Expr, coords: set<string>)
    requires Pushable(e, coords)
    ensures Pairs(Conjuncts(e), Writes(e, coords), coords)
  {
    match e
    case Binary(l, op, r) =>
      if op.And? {
        ConjunctsPair(l, coords);
        ConjunctsPair(r, coords);
      } else {
        LeafPairs(e, coords);
      }
    case BetweenExpr(_, _, _, _) => BetweenPairs(e, coords);
    case Cast(arg) => ConjunctsPair(arg, coords);
    case _ => LeafPairs(e, coords);
  }

  lemma {:induction false} AllConjunctsPair(filters: seq<Expr>, coords: set<string>)
    requires forall f :: f in filters ==> Pushable(f, coords)
    ensures Pairs(AllConjuncts(filters), AllWrites(filters, coords), coords)
  {
    if filters != [] {
      ConjunctsPair(filters[0], coords);
      AllConjunctsPair(filters[1..], coords);
    }
  }

  /** The kind of bound an update sets; date parts accumulate and set none. */
  predicate Sets(u: Write, kind: BoundKind) {
    match kind
    case OneValue => u.SetEq?
    case FromBelow => u.SetLow?
    case FromAbove => u.SetHigh?
    case OneOf => u.SetIn?
  }

  lemma PairBounds(e: Expr, u: Write, coords: set<string>, c: string, kind: BoundKind)
    requires Pair(e, u, coords)
    ensures Bounds(e, c, kind) <==> u.coord == c && Sets(u, kind)
  {
    match e
    case Binary(l, op, r) =>
      ColumnIs(l, {c});
      ColumnIs(r, {c});
      ColumnIs(l, coords);
      ColumnIs(r, coords);
      LiteralIs(l);
      LiteralIs(r);
    case BetweenExpr(_, _, _, _) =>
    case InListExpr(arg, list, _) =>
      ColumnIs(arg, {c});
      ColumnIs(arg, coords);
      LiteralsAre(list);
  }

  lemma SameBoundIs(a: Expr, u: Write, b: Expr, v: Write, coords: set<string>)
    requires Pair(a, u, coords) && Pair(b, v, coords)
    ensures SameBound(a, b) <==> SameSlot(u, v)
  {
    forall c, kind ensures Bounds(a, c, kind) && Bounds(b, c, kind) <==> u.coord == c == v.coord && Sets(u, kind) && Sets(v, kind) {
      PairBounds(a, u, coords, c, kind);
      PairBounds(b, v, coords, c, kind);
    }
    if SameSlot(u, v) {
      var kind := if u.SetEq? then OneValue else if u.SetLow? then FromBelow else if u.SetHigh? then FromAbove else OneOf;
      assert Sets(u, kind) && Sets(v, kind);
      assert Bounds(a, u.coord, kind);
    }
  }

  lemma PairMeans(e: Expr, u: Write, coords: set<string>, w: World)
    requires Pair(e, u, coords) && CoordsAreInts(w, coords)
    ensures Holds(e, w) <==> RowMeans(w, u)
  {
    LeafMeans(e, coords, w);
    assert RowMeansAll(w, [u]) <==> RowMeans(w, [u][0]);
  }

  /** When the last bound of each kind implies the others, a row that satisfies the table satisfies every update. */
  lemma TableReflects(w: World, cs: seq<Expr>, us: seq<Write>, coords: set<string>)
    requires Pairs(cs, us, coords) && LastImplies(cs, coords) && CoordsAreInts(w, coords) && TableMeans(w, ApplyAll(map[], us))
    ensures RowMeansAll(w, us)
  {
    forall u | u in us ensures RowMeans(w, u) {
      var i :| 0 <= i < |us| && us[i] == u;
      var j := LastFrom(us, i);
      LastWins(us, j);
      HeldMeans(w, ApplyAll(map[], us), us[j]);
      if i != j { LaterMeans(w, cs, us, coords, i, j); }
    }
  }

  lemma LaterMeans(w: World, cs: seq<Expr>, us: seq<Write>, coords: set<string>, i: nat, j: nat)
    requires Pairs(cs, us, coords) && LastImplies(cs, coords) && CoordsAreInts(w, coords)
    requires i < j < |us| && SameSlot(us[i], us[j]) && LastOfSlot(us, j) && RowMeans(w, us[j])
    ensures RowMeans(w, us[i])
  {
    SameBoundIs(cs[i], us[i], cs[j], us[j], coords);
    forall k | j < k < |cs| ensures !SameBound(cs[j], cs[k]) { SameBoundIs(cs[j], us[j], cs[k], us[k], coords); }
    PairMeans(cs[j], us[j], coords, w);
    PairMeans(cs[i], us[i], coords, w);
    assert Implies(cs[j], cs[i], coords);
  }

  // ---------------------------------------------------------------------------------------------
  // Exactness
  // ---------------------------------------------------------------------------------------------

  /**
   Pushdown exactness: when every filter is built from pushable predicates, and the last bound of each
   kind implies those it overwrites, the selected positions are exactly those of the rows that
   satisfy every filter.
   */
  lemma PushdownExact(filters: seq<Expr>, g: Grid, p: seq<nat>, w: World)
    requires GridOk(g) && RowAt(g, p, w) && PartsResolvable(filters, g)
    requires (forall f :: f in filters ==> Pushable(f, Names(g))) && LastImplies(AllConjuncts(filters), Names(g))
    ensures SelectsRow(CoordRanges(w.cal, filters, g), p) <==> forall f :: f in filters ==> Holds(f, w)
  {
    CoordsInt(g, p, w);
    if forall f :: f in filters ==> Holds(f, w) {
      forall f | f in filters ensures ColumnFirst(f, Names(g)) { PushableFirst(f, Names(g)); }
      PushdownSound(filters, g, p, w);
    }
    if SelectsRow(CoordRanges(w.cal, filters, g), p) {
      SelectionIsTable(filters, g, p, w);
      AllConjunctsPair(filters, Names(g));
      TableReflects(w, AllConjuncts(filters), AllWrites(filters, Names(g)), Names(g));
      forall f | f in filters ensures Holds(f, w) { AllWritesImplyHold(filters, Names(g), w, f); }
    }
  }

  lemma LeafConjuncts(e: Expr, coords: set<string>)
    requires IsLeaf(e) && PushableLeaf(e, coords)
    ensures Pushable(e, coords) && LastImplies(AllConjuncts([e]), coords)
  {
    var cs := AllConjuncts([e]);
    assert [e][1..] == [] && AllConjuncts([]) == [];
    assert cs == Conjuncts(e) + [];
    if e.BetweenExpr? {
      forall c, kind ensures !(Bounds(cs[0], c, kind) && Bounds(cs[1], c, kind)) {}
      assert !SameBound(cs[0], cs[1]);
    }
  }

  /** Each pushable predicate alone selects exactly the positions of the rows on which it holds. */
  lemma LeafSelectsExactly(e: Expr, g: Grid, p: seq<nat>, w: World)
    requires GridOk(g) && RowAt(g, p, w) && PartsResolvable([e], g)
    requires IsLeaf(e) && PushableLeaf(e, Names(g))
    ensures SelectsRow(CoordRanges(w.cal, [e], g), p) <==> Holds(e, w)
  {
    LeafConjuncts(e, Names(g));
    PushdownExact([e], g, p, w);
    assert e in [e];
  }

  /** A predicate that is not pushable, nor an ordering comparison with the literal first, restricts nothing. */
  lemma OtherLeafSelectsAll(e: Expr, g: Grid, p: seq<nat>, w: World)
    requires GridOk(g) && RowAt(g, p, w) && IsLeaf(e) && !PushableLeaf(e, Names(g))
    requires e.Binary? ==> !LiteralFirst(e.left, e.op, e.right, Names(g))
    ensures SelectsRow(CoordRanges(w.cal, [e], g), p)
  {
    LeafWritesIff(e, Names(g));
    OneFilterWrites(e, Names(g));
    forall k | 0 <= k < |g.names| ensures Resolve(w.cal, ParseFilters([e], Names(g), g.names[k]), g.values[k]) == Some(Range(0, g.values[k].Len())) {
      assert ParsedBounds([e], Names(g)) == map[];
    }
    CoordRangesAre(w.cal, [e], Names(g), g.names, g.values);
  }
}
