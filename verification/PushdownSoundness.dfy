/** Pushdown never loses a qualifying row, and when it keeps only qualifying ones. */
module PushdownSoundness {
  import opened Options
  import opened Selection
  import opened CompactCoords
  import opened RangeSearch
  import opened FilterComposition
  import opened Pushdown

  // ---------------------------------------------------------------------------------------------
  // Bounds tables on one row
  // ---------------------------------------------------------------------------------------------

  ghost predicate EntryMeans(w: World, c: string, b: PartialBounds) {
    w.row(c).IntVal? && BoundsMean(w.cal, c in w.timestamps, b, w.row(c).i)
  }

  /** The row satisfies everything the table holds. */
  ghost predicate TableMeans(w: World, table: map<string, PartialBounds>) {
    forall c :: c in table ==> EntryMeans(w, c, table[c])
  }

  lemma UpdateKeeps(w: World, b: PartialBounds, u: Write)
    requires EntryMeans(w, u.coord, b) && RowMeans(w, u)
    ensures EntryMeans(w, u.coord, Updated(b, u))
  {
  }

  /** Overwriting a bound only forgets one, so a satisfying row stays satisfying. */
  lemma {:induction false} ApplyKeeps(w: World, table: map<string, PartialBounds>, us: seq<Write>)
    requires TableMeans(w, table) && RowMeansAll(w, us)
    ensures TableMeans(w, ApplyAll(table, us))
    decreases |us|
  {
    if us != [] {
      var u := us[0];
      assert RowMeans(w, u);
      UpdateKeeps(w, Entry(table, u.coord), u);
      ApplyKeeps(w, ApplyWrite(table, u), us[1..]);
    }
  }

  // ---------------------------------------------------------------------------------------------
  // Overwritten bounds
  // ---------------------------------------------------------------------------------------------

  /** Both updates set the same single-valued bound of the same coordinate. */
  predicate SameSlot(a: Write, b: Write) {
    a.coord == b.coord &&
    ((a.SetEq? && b.SetEq?) || (a.SetLow? && b.SetLow?) || (a.SetHigh? && b.SetHigh?) || (a.SetIn? && b.SetIn?))
  }

  /** How far an ordering bound reaches into the integers: the least value, or minus the greatest. */
  function Reach(u: Write): int
    requires u.SetLow? || u.SetHigh?
  {
    match u
    case SetLow(_, v, inclusive) => if inclusive then v else v + 1
    case SetHigh(_, v, inclusive) => if inclusive then -v else 1 - v
  }

  /** Every value that meets `a` meets `b`, for two bounds of one kind. */
  predicate Tighter(a: Write, b: Write)
    requires SameSlot(a, b)
  {
    match a
    case SetEq(_, v) => v == b.value
    case SetLow(_, _, _) => Reach(a) >= Reach(b)
    case SetHigh(_, _, _) => Reach(a) >= Reach(b)
    case SetIn(_, vs) => forall v :: v in vs ==> v in b.values
  }

  predicate LastOfSlot(us: seq<Write>, j: nat)
    requires j < |us|
  {
    forall k :: j < k < |us| ==> !SameSlot(us[j], us[k])
  }

  /** A bound that overwrites others of its kind, and is not overwritten itself, is the tightest of them. */
  predicate LastTightest(us: seq<Write>) {
    forall i, j :: 0 <= i < j < |us| && SameSlot(us[i], us[j]) && LastOfSlot(us, j) ==> Tighter(us[j], us[i])
  }

  /** The entry holds what `u` wrote. */
  predicate HoldsWrite(b: PartialBounds, u: Write) {
    match u
    case SetEq(_, v) => b.eq == Some(v)
    case SetLow(_, v, i) => b.low == Some((v, i))
    case SetHigh(_, v, i) => b.high == Some((v, i))
    case SetIn(_, vs) => b.inList == Some(vs)
    case PushPart(_, field, part) => (field, part) in b.dateParts
    case PushPartSet(_, field, parts) => (field, parts) in b.datePartSets
  }

  lemma {:induction false} WriteStays(table: map<string, PartialBounds>, us: seq<Write>, u: Write)
    requires HoldsWrite(Entry(table, u.coord), u) && NoneLike(u, us)
    ensures HoldsWrite(Entry(ApplyAll(table, us), u.coord), u)
    decreases |us|
  {
    if us != [] {
      assert !SameSlot(u, us[0]);
      assert HoldsWrite(Entry(ApplyWrite(table, us[0]), u.coord), u);
      WriteStays(ApplyWrite(table, us[0]), us[1..], u);
    }
  }

  /** Nothing in `back` writes what `u` writes. */
  predicate NoneLike(u: Write, back: seq<Write>) {
    forall k :: 0 <= k < |back| ==> !SameSlot(u, back[k])
  }

  lemma NoneLater(us: seq<Write>, j: nat)
    requires j < |us| && LastOfSlot(us, j)
    ensures NoneLike(us[j], us[j + 1..])
  {
  }

  lemma WrittenLast(us: seq<Write>, front: seq<Write>, u: Write, back: seq<Write>)
    requires us == front + [u] + back && NoneLike(u, back)
    ensures HoldsWrite(Entry(ApplyAll(map[], us), u.coord), u)
  {
    ApplyConcat(map[], front + [u], back);
    ApplyConcat(map[], front, [u]);
    var table := ApplyAll(map[], front);
    ApplySingles(table, [u]);
    WrittenHolds(table, u);
    WriteStays(ApplyWrite(table, u), back, u);
  }

  lemma WrittenHolds(table: map<string, PartialBounds>, u: Write)
    ensures HoldsWrite(Entry(ApplyWrite(table, u), u.coord), u)
  {
  }

  lemma {:induction false} LastWins(us: seq<Write>, j: nat)
    requires j < |us| && LastOfSlot(us, j)
    ensures HoldsWrite(Entry(ApplyAll(map[], us), us[j].coord), us[j])
  {
    NoneLater(us, j);
    WrittenLast(us, us[..j], us[j], us[j + 1..]);
  }

  /** The last update of the slot that `us[i]` writes. */
  ghost function LastFrom(us: seq<Write>, i: nat): (j: nat)
    requires i < |us|
    ensures i <= j < |us| && (i == j || SameSlot(us[i], us[j])) && LastOfSlot(us, j)
    decreases |us| - i
  {
    if k :| i < k < |us| && SameSlot(us[i], us[k]) then LastFrom(us, k) else i
  }

  lemma HeldMeans(w: World, table: map<string, PartialBounds>, u: Write)
    requires TableMeans(w, table) && HoldsWrite(Entry(table, u.coord), u)
    ensures RowMeans(w, u)
  {
    assert u.coord in table;
    assert EntryMeans(w, u.coord, table[u.coord]);
  }

  /** When overwriting only tightens, a row that satisfies the table satisfies every update. */
  lemma ApplyReflects(w: World, us: seq<Write>)
    requires LastTightest(us) && TableMeans(w, ApplyAll(map[], us))
    ensures RowMeansAll(w, us)
  {
    forall u | u in us ensures RowMeans(w, u) {
      var i :| 0 <= i < |us| && us[i] == u;
      var j := LastFrom(us, i);
      LastWins(us, j);
      HeldMeans(w, ApplyAll(map[], us), us[j]);
    }
  }

  /** An ordering bound is met from its reach on. */
  lemma ReachMeans(cal: Calendar, ts: bool, u: Write, x: int)
    requires u.SetLow? || u.SetHigh?
    ensures Means(cal, ts, u, x) <==> Reach(u) <= if u.SetLow? then x else -x
  {
  }

  ghost function Farthest(us: seq<Write>): (m: int)
    requires forall u :: u in us ==> u.SetLow? || u.SetHigh?
    ensures forall u :: u in us ==> Reach(u) <= m
  {
    if us == [] then 0
    else
      var rest := Farthest(us[1..]);
      if Reach(us[0]) >= rest then Reach(us[0]) else rest
  }

  /** A row just within one bound on coordinate `c`, and within all of them elsewhere. */
  ghost function JustWithin(us: seq<Write>, c: string, reach: int, low: bool): World
    requires forall u :: u in us ==> u.SetLow? || u.SetHigh?
  {
    var far := Farthest(us);
    World(x => IntVal(if low then (if x == c then reach else far) else (if x == c then -reach else -far)), {}, (_, _) => None, _ => NullVal)
  }

  lemma {:induction false} OnlyBounds(us: seq<Write>, low: bool, table: map<string, PartialBounds>, c: string)
    requires forall u :: u in us ==> if low then u.SetLow? else u.SetHigh?
    requires c in ApplyAll(table, us) && c !in table
    ensures var b := ApplyAll(table, us)[c];
            exists u :: u in us && u.coord == c && b == Updated(NO_BOUNDS, u) && HoldsWrite(b, u)
    decreases |us|
  {
    var front, last := us[..|us| - 1], us[|us| - 1];
    var before := ApplyAll(table, front);
    ApplyLast(us, table);
    if last.coord == c {
      assert last in us;
      if c in before {
        OnlyBounds(front, low, table, c);
        var u :| u in front && u.coord == c && before[c] == Updated(NO_BOUNDS, u);
        BoundReplaced(u, last, low);
      }
      assert HoldsWrite(Updated(NO_BOUNDS, last), last);
    } else {
      OnlyBounds(front, low, table, c);
    }
  }

  lemma {:induction false} ApplyLast(us: seq<Write>, table: map<string, PartialBounds>)
    requires us != []
    ensures ApplyAll(table, us) == ApplyWrite(ApplyAll(table, us[..|us| - 1]), us[|us| - 1])
  {
    var front, last := us[..|us| - 1], us[|us| - 1];
    assert us == front + [last];
    ApplyConcat(table, front, [last]);
    ApplySingles(ApplyAll(table, front), [last]);
  }

  lemma BoundReplaced(u: Write, last: Write, low: bool)
    requires if low then u.SetLow? && last.SetLow? else u.SetHigh? && last.SetHigh?
    ensures Updated(Updated(NO_BOUNDS, u), last) == Updated(NO_BOUNDS, last)
  {
  }

  /** The row just within the last bound of a coordinate satisfies the whole table. */
  lemma {:induction false} JustWithinTable(us: seq<Write>, j: nat, low: bool)
    requires (forall u :: u in us ==> if low then u.SetLow? else u.SetHigh?) && j < |us| && LastOfSlot(us, j)
    ensures TableMeans(JustWithin(us, us[j].coord, Reach(us[j]), low), ApplyAll(map[], us))
  {
    var w, table := JustWithin(us, us[j].coord, Reach(us[j]), low), ApplyAll(map[], us);
    forall c | c in table ensures EntryMeans(w, c, table[c]) {
      OnlyBounds(us, low, map[], c);
      var u :| u in us && u.coord == c && table[c] == Updated(NO_BOUNDS, u) && HoldsWrite(table[c], u);
      if c == us[j].coord {
        LastWins(us, j);
        assert table[c] == Updated(NO_BOUNDS, us[j]);
        ReachMeans(w.cal, false, us[j], w.row(c).i);
      } else {
        ReachMeans(w.cal, false, u, w.row(c).i);
      }
    }
  }

  /**
   Among lower bounds, or among upper bounds, overwriting keeps the table exact for every row if
   and only if the last bound of each coordinate is the tightest.
   */
  lemma OverwritingExactIff(us: seq<Write>, low: bool)
    requires forall u :: u in us ==> if low then u.SetLow? else u.SetHigh?
    ensures (forall w: World :: TableMeans(w, ApplyAll(map[], us)) ==> RowMeansAll(w, us)) <==> LastTightest(us)
  {
    if LastTightest(us) {
      forall w: World | TableMeans(w, ApplyAll(map[], us)) ensures RowMeansAll(w, us) { ApplyReflects(w, us); }
    } else {
      var i, j :| 0 <= i < j < |us| && SameSlot(us[i], us[j]) && LastOfSlot(us, j) && !Tighter(us[j], us[i]);
      var w := JustWithin(us, us[j].coord, Reach(us[j]), low);
      JustWithinTable(us, j, low);
      ReachMeans(w.cal, false, us[i], w.row(us[i].coord).i);
      assert us[i] in us && !RowMeans(w, us[i]);
      assert !RowMeansAll(w, us);
    }
  }

  // ---------------------------------------------------------------------------------------------
  // A grid of coordinates and one of its rows
  // ---------------------------------------------------------------------------------------------

  datatype Grid = Grid(names: seq<string>, values: seq<CoordValues>)

  ghost predicate GridOk(g: Grid) {
    |g.names| == |g.values| && forall k :: 0 <= k < |g.values| ==> CoordOk(g.values[k])
  }

  function Names(g: Grid): set<string> { set c | c in g.names }

  /** The row at position `p` of the grid, as the world shows it. */
  ghost predicate RowAt(g: Grid, p: seq<nat>, w: World)
    requires GridOk(g)
  {
    && |p| == |g.names|
    && forall k :: 0 <= k < |p| ==>
         && p[k] < g.values[k].Len()
         && w.row(g.names[k]) == IntVal(g.values[k].Vector()[p[k]])
         && (g.names[k] in w.timestamps <==> g.values[k].isTimestamp)
  }

  /** `calculate_coord_ranges`: one selection per coordinate, or None when one is empty. */
  function CoordRangesFrom(cal: Calendar, filters: seq<Expr>, coords: set<string>, names: seq<string>, values: seq<CoordValues>): Option<seq<CoordSelection>>
    requires |names| == |values|
  {
    if names == [] then Some([])
    else
      var sel := Resolve(cal, ParseFilters(filters, coords, names[0]), values[0]);
      var rest := CoordRangesFrom(cal, filters, coords, names[1..], values[1..]);
      if sel.Some? && rest.Some? then Some([sel.value] + rest.value) else None
  }

  function CoordRanges(cal: Calendar, filters: seq<Expr>, g: Grid): Option<seq<CoordSelection>>
    requires |g.names| == |g.values|
  {
    CoordRangesFrom(cal, filters, Names(g), g.names, g.values)
  }

  lemma {:induction false} CoordRangesAre(cal: Calendar, filters: seq<Expr>, coords: set<string>, names: seq<string>, values: seq<CoordValues>)
    requires |names| == |values|
    ensures var r := CoordRangesFrom(cal, filters, coords, names, values);
            && (r.Some? <==> forall k :: 0 <= k < |names| ==> Resolve(cal, ParseFilters(filters, coords, names[k]), values[k]).Some?)
            && (r.Some? ==>
                  && |r.value| == |names|
                  && forall k :: 0 <= k < |names| ==> Resolve(cal, ParseFilters(filters, coords, names[k]), values[k]) == Some(r.value[k]))
  {
    if names != [] {
      CoordRangesAre(cal, filters, coords, names[1..], values[1..]);
      assert forall k :: 0 < k < |names| ==> names[k] == names[1..][k - 1] && values[k] == values[1..][k - 1];
      var r := CoordRangesFrom(cal, filters, coords, names, values);
      if forall k :: 0 <= k < |names| ==> Resolve(cal, ParseFilters(filters, coords, names[k]), values[k]).Some? {
        forall k | 0 <= k < |names[1..]| ensures Resolve(cal, ParseFilters(filters, coords, names[1..][k]), values[1..][k]).Some? {
          assert names[1..][k] == names[k + 1];
        }
      }
    }
  }

  ghost predicate SelectsRow(r: Option<seq<CoordSelection>>, p: seq<nat>) {
    r.Some? && |r.value| == |p| && forall k :: 0 <= k < |p| ==> r.value[k].Has(p[k])
  }

  /** The expression compares a date part of the column, under AND and casts. */
  predicate AsksPart(e: Expr, c: string) {
    match e
    case Binary(l, op, r) =>
      if op.And? then AsksPart(l, c) || AsksPart(r, c) else op.Equal? && l.DatePartCall? && IsColumnIn(l.arg, {c})
    case InListExpr(arg, _, _) => arg.DatePartCall? && IsColumnIn(arg.arg, {c})
    case Cast(arg) => AsksPart(arg, c)
    case _ => false
  }

  /** Date parts are asked only of coordinates whose instants are spelled out. */
  ghost predicate PartsResolvable(filters: seq<Expr>, g: Grid)
    requires |g.names| == |g.values|
  {
    forall k, f :: 0 <= k < |g.names| && f in filters && AsksPart(f, g.names[k]) && g.values[k].isTimestamp ==> g.values[k].Explicit?
  }

  lemma {:induction false} PartWrites(e: Expr, coords: set<string>, u: Write)
    requires u in Writes(e, coords) && (u.PushPart? || u.PushPartSet?)
    ensures AsksPart(e, u.coord)
  {
    match e
    case Binary(l, op, r) =>
      if op.And? {
        if u in Writes(l, coords) { PartWrites(l, coords, u); } else { PartWrites(r, coords, u); }
      } else if l.DatePartCall? {
        ColumnIs(l.arg, {u.coord});
      }
    case InListExpr(arg, _, _) =>
      if arg.DatePartCall? { ColumnIs(arg.arg, {u.coord}); }
    case Cast(arg) => PartWrites(arg, coords, u);
    case _ =>
  }

  lemma {:induction false} AllPartWrites(filters: seq<Expr>, coords: set<string>, u: Write)
    requires u in AllWrites(filters, coords) && (u.PushPart? || u.PushPartSet?)
    ensures exists f :: f in filters && AsksPart(f, u.coord)
  {
    if u in Writes(filters[0], coords) { PartWrites(filters[0], coords, u); } else { AllPartWrites(filters[1..], coords, u); }
  }

  lemma {:induction false} UnaskedParts(table: map<string, PartialBounds>, us: seq<Write>, c: string)
    requires forall u :: u in us && u.coord == c ==> !u.PushPart? && !u.PushPartSet?
    ensures Entry(ApplyAll(table, us), c).dateParts == Entry(table, c).dateParts
    ensures Entry(ApplyAll(table, us), c).datePartSets == Entry(table, c).datePartSets
    decreases |us|
  {
    if us != [] { UnaskedParts(ApplyWrite(table, us[0]), us[1..], c); }
  }

  lemma ParsedResolvable(filters: seq<Expr>, g: Grid, k: nat)
    requires |g.names| == |g.values| && PartsResolvable(filters, g) && k < |g.names|
    ensures var fs := ParseFilters(filters, Names(g), g.names[k]); fs.Some? ==> AllResolvable(fs.value, g.values[k])
  {
    var c, us := g.names[k], AllWrites(filters, Names(g));
    if g.values[k].isTimestamp && g.values[k].Compact? {
      forall u | u in us && u.coord == c ensures !u.PushPart? && !u.PushPartSet? {
        if u.PushPart? || u.PushPartSet? { AllPartWrites(filters, Names(g), u); }
      }
      UnaskedParts(map[], us, c);
      if c in ParsedBounds(filters, Names(g)) { NoPartsResolvable(ParsedBounds(filters, Names(g))[c], g.values[k]); }
    }
  }

  /** A coordinate's selection holds a position exactly when the row satisfies the table entry. */
  lemma ResolvedEntry(filters: seq<Expr>, g: Grid, p: seq<nat>, w: World, k: nat)
    requires GridOk(g) && RowAt(g, p, w) && PartsResolvable(filters, g) && k < |p|
    ensures var r := Resolve(w.cal, ParseFilters(filters, Names(g), g.names[k]), g.values[k]);
            var table := ParsedBounds(filters, Names(g));
            (r.Some? && r.value.Has(p[k])) <==> (g.names[k] in table ==> EntryMeans(w, g.names[k], table[g.names[k]]))
  {
    var c, v := g.names[k], g.values[k];
    var fs := ParseFilters(filters, Names(g), c);
    var table := ParsedBounds(filters, Names(g));
    ParsedResolvable(filters, g, k);
    ResolveExact(w.cal, fs, v);
    if c in table { IntoFiltersMean(w.cal, v.isTimestamp, table[c], v.Vector()[p[k]]); }
  }

  lemma {:induction false} TableKeys(table: map<string, PartialBounds>, us: seq<Write>, c: string)
    ensures c in ApplyAll(table, us) <==> c in table || exists u :: u in us && u.coord == c
    decreases |us|
  {
    if us != [] {
      TableKeys(ApplyWrite(table, us[0]), us[1..], c);
      assert forall u :: u in us <==> u == us[0] || u in us[1..];
    }
  }

  lemma {:induction false} WritesOnCoords(e: Expr, coords: set<string>, u: Write)
    requires u in Writes(e, coords)
    ensures u.coord in coords
  {
    match e
    case Binary(l, op, r) =>
      if op.And? {
        if u in Writes(l, coords) { WritesOnCoords(l, coords, u); } else { WritesOnCoords(r, coords, u); }
      }
    case Cast(arg) => WritesOnCoords(arg, coords, u);
    case _ =>
  }

  lemma {:induction false} AllWritesOnCoords(filters: seq<Expr>, coords: set<string>, u: Write)
    requires u in AllWrites(filters, coords)
    ensures u.coord in coords
  {
    if u in Writes(filters[0], coords) { WritesOnCoords(filters[0], coords, u); } else { AllWritesOnCoords(filters[1..], coords, u); }
  }

  /** All coordinates' selections hold the row exactly when it satisfies the whole table. */
  lemma SelectionIsTable(filters: seq<Expr>, g: Grid, p: seq<nat>, w: World)
    requires GridOk(g) && RowAt(g, p, w) && PartsResolvable(filters, g)
    ensures SelectsRow(CoordRanges(w.cal, filters, g), p) <==> TableMeans(w, ParsedBounds(filters, Names(g)))
  {
    var table := ParsedBounds(filters, Names(g));
    CoordRangesAre(w.cal, filters, Names(g), g.names, g.values);
    forall k | 0 <= k < |p|
      ensures (Resolve(w.cal, ParseFilters(filters, Names(g), g.names[k]), g.values[k]).Some?
               && Resolve(w.cal, ParseFilters(filters, Names(g), g.names[k]), g.values[k]).value.Has(p[k]))
              <==> (g.names[k] in table ==> EntryMeans(w, g.names[k], table[g.names[k]]))
    {
      ResolvedEntry(filters, g, p, w, k);
    }
    forall c | c in table ensures exists k :: 0 <= k < |p| && g.names[k] == c {
      TableKeys(map[], AllWrites(filters, Names(g)), c);
      var u :| u in AllWrites(filters, Names(g)) && u.coord == c;
      AllWritesOnCoords(filters, Names(g), u);
    }
  }

  /**
   Pushdown soundness: a row that satisfies every filter is at a selected position of every
   coordinate, however many bounds were overwritten and sub-expressions ignored.
   */
  lemma PushdownSound(filters: seq<Expr>, g: Grid, p: seq<nat>, w: World)
    requires GridOk(g) && RowAt(g, p, w) && PartsResolvable(filters, g)
    requires forall f :: f in filters ==> ColumnFirst(f, Names(g)) && Holds(f, w)
    ensures SelectsRow(CoordRanges(w.cal, filters, g), p)
  {
    CoordsInt(g, p, w);
    AllHoldImplyWrites(filters, Names(g), w);
    ApplyKeeps(w, map[], AllWrites(filters, Names(g)));
    SelectionIsTable(filters, g, p, w);
  }

  lemma CoordsInt(g: Grid, p: seq<nat>, w: World)
    requires GridOk(g) && RowAt(g, p, w)
    ensures CoordsAreInts(w, Names(g))
  {
    forall c | c in Names(g) ensures w.row(c).IntVal? {
      var k :| 0 <= k < |g.names| && g.names[k] == c;
    }
  }

  // ---------------------------------------------------------------------------------------------
  // Literal-first comparisons
  // ---------------------------------------------------------------------------------------------

  /** A world in which every column holds `x`. */
  function Uniform(x: int): World {
    World(_ => IntVal(x), {}, (_, _) => None, _ => NullVal)
  }

  lemma OneFilterWrites(f: Expr, coords: set<string>)
    ensures AllWrites([f], coords) == Writes(f, coords)
  {
    assert [f][1..] == [] && AllWrites([], coords) == [];
  }

  /** A grid with the one coordinate `c`. */
  function OneAxis(c: string, values: seq<int>): Grid { Grid([c], [Explicit(values, false)]) }

  /** What the table says decides whether the first row of a one-coordinate grid is read. */
  lemma OneAxisSelects(filters: seq<Expr>, c: string, values: seq<int>, g: Grid, w: World, b: PartialBounds)
    requires values != [] && g == OneAxis(c, values) && GridOk(g) && w == Uniform(values[0])
    requires ParsedBounds(filters, {c}) == map[c := b] && b.dateParts == [] && b.datePartSets == []
    ensures RowAt(g, [0], w) && PartsResolvable(filters, g)
    ensures SelectsRow(CoordRanges(w.cal, filters, g), [0]) <==> EntryMeans(w, c, b)
  {
    assert Names(g) == {c};
    SelectionIsTable(filters, g, [0], w);
  }

  lemma NoPartsResolvable(b: PartialBounds, c: CoordValues)
    requires b.dateParts == [] && b.datePartSets == []
    ensures AllResolvable(IntoFilters(b), c)
  {
  }

  /** The row one beyond the literal satisfies a literal-first comparison and is not read. */
  lemma LiteralFirstLoses(l: Expr, op: Op, r: Expr, c: string, x: int)
    requires IsOrdering(op) && ColumnName(l).None? && LiteralValue(l).Some? && ColumnName(r) == Some(c)
    requires x == LiteralValue(l).value + if op.GtEq? || op.Gt? then -1 else 1
    ensures var f, g, w := Binary(l, op, r), OneAxis(c, [x]), Uniform(x);
            && GridOk(g) && RowAt(g, [0], w) && Holds(f, w)
            && !SelectsRow(CoordRanges(w.cal, [f], g), [0])
  {
    var f, g, w := Binary(l, op, r), OneAxis(c, [x]), Uniform(x);
    ColumnEval(r, w);
    LiteralEval(l, w);
    OneAxisOk(c, [x]);
    OneFilterWrites(f, {c});
    var u := Writes(f, {c})[0];
    ApplySingles(map[], [u]);
    OneAxisSelects([f], c, [x], g, w, Updated(NO_BOUNDS, u));
  }

  /**
   Pushing down an ordering comparison of a column and a literal loses no row of any grid exactly
   when the column comes first.
   */
  lemma ComparisonPushdownIff(l: Expr, op: Op, r: Expr)
    requires IsOrdering(op) && ((IsColumn(l) && IsLiteral(r)) || (IsLiteral(l) && IsColumn(r)))
    ensures (forall g, p, w :: GridOk(g) && RowAt(g, p, w) && Holds(Binary(l, op, r), w) ==>
               SelectsRow(CoordRanges(w.cal, [Binary(l, op, r)], g), p))
            <==> IsColumn(l)
  {
    var f := Binary(l, op, r);
    SomeColumnIs(l);
    SomeColumnIs(r);
    LiteralIs(l);
    if IsColumn(l) {
      forall g, p, w | GridOk(g) && RowAt(g, p, w) && Holds(f, w) ensures SelectsRow(CoordRanges(w.cal, [f], g), p) { PushdownSound([f], g, p, w); }
    } else {
      var c, x := ColumnName(r).value, LiteralValue(l).value + if op.GtEq? || op.Gt? then -1 else 1;
      LiteralFirstLoses(l, op, r, c, x);
      assert RowAt(OneAxis(c, [x]), [0], Uniform(x));
    }
  }

  lemma LowestBound(c: string, v: int, x: int)
    ensures EntryMeans(Uniform(x), c, ApplyWrite(map[], SetLow(c, v, true))[c]) <==> v <= x
  {
  }

  lemma AtLeastHolds(c: string, v: int, x: int)
    ensures Holds(Binary(Column(c), GtEq, Literal(v)), Uniform(x)) <==> v <= x
  {
    ColumnEval(Column(c), Uniform(x));
    LiteralEval(Literal(v), Uniform(x));
  }

  lemma OneAxisOk(c: string, values: seq<int>)
    requires |values| == 1 || (|values| == 2 && values[0] < values[1])
    ensures GridOk(OneAxis(c, values))
  {
  }

  /** `3 >= t` on the coordinate t = [2]: the row t = 2 satisfies it and is not read. */
  lemma LiteralFirstLosesRow()
    ensures var f, g, w := Binary(Literal(3), GtEq, Column("t")), OneAxis("t", [2]), Uniform(2);
            && GridOk(g) && RowAt(g, [0], w) && Holds(f, w)
            && !SelectsRow(CoordRanges(w.cal, [f], g), [0])
  {
    LiteralFirstLoses(Literal(3), GtEq, Column("t"), "t", 2);
  }

  lemma OverwrittenTable(a: Expr, b: Expr)
    requires a == Binary(Column("t"), GtEq, Literal(5)) && b == Binary(Column("t"), GtEq, Literal(3))
    ensures ParsedBounds([a, b], {"t"}) == map["t" := ApplyWrite(map[], SetLow("t", 3, true))["t"]]
  {
    var u, v := SetLow("t", 5, true), SetLow("t", 3, true);
    OneFilterWrites(b, {"t"});
    assert [a, b][1..] == [b];
    assert AllWrites([a, b], {"t"}) == [u] + [v];
    ApplyConcat(map[], [u], [v]);
    ApplySingles(map[], [u]);
    ApplySingles(ApplyWrite(map[], u), [v]);
  }

  /** `t >= 5 AND t >= 3`: the second bound overwrites the first, so t = 4 is read although it fails. */
  lemma OverwrittenBoundKeepsMore()
    ensures var filters := [Binary(Column("t"), GtEq, Literal(5)), Binary(Column("t"), GtEq, Literal(3))];
            var g, w := OneAxis("t", [4]), Uniform(4);
            && GridOk(g) && RowAt(g, [0], w) && !Holds(filters[0], w)
            && SelectsRow(CoordRanges(w.cal, filters, g), [0])
  {
    var a, b := Binary(Column("t"), GtEq, Literal(5)), Binary(Column("t"), GtEq, Literal(3));
    OverwrittenTable(a, b);
    OneAxisOk("t", [4]);
    LowestBound("t", 3, 4);
    AtLeastHolds("t", 5, 4);
    OneAxisSelects([a, b], "t", [4], OneAxis("t", [4]), Uniform(4), ApplyWrite(map[], SetLow("t", 3, true))["t"]);
  }

  // ---------------------------------------------------------------------------------------------
  // Early rejection by coordinate bounds
  // ---------------------------------------------------------------------------------------------

  /** One filter against a coordinate's minimum and maximum; inclusivity is not looked at. */
  predicate KindSatisfiable(f: FilterKind, lo: int, hi: int) {
    match f
    case DatePart(_, _) => true
    case DatePartSet(_, _) => true
    case Eq(v) => lo <= v <= hi
    case InList(vs) => exists v :: v in vs && lo <= v <= hi
    case Between(low, high, _, _) => (high.Some? ==> high.value >= lo) && (low.Some? ==> low.value <= hi)
  }

  /** A value of the interval matches the filter; a range is asked for each of its bounds apart, read as closed. */
  ghost predicate SidesMatch(cal: Calendar, f: FilterKind, lo: int, hi: int) {
    match f
    case Between(low, high, _, _) =>
      && (exists x :: lo <= x <= hi && Matches(cal, false, Between(low, None, true, true), x))
      && (exists x :: lo <= x <= hi && Matches(cal, false, Between(None, high, true, true), x))
    case _ => exists x :: lo <= x <= hi && Matches(cal, false, f, x)
  }

  /** The bounds test passes every date part, and another filter exactly when each of its sides has a value in the interval. */
  lemma SatisfiableIff(cal: Calendar, f: FilterKind, lo: int, hi: int)
    requires lo <= hi
    ensures KindSatisfiable(f, lo, hi) <==> f.DatePart? || f.DatePartSet? || SidesMatch(cal, f, lo, hi)
  {
    match f
    case Between(low, high, _, _) =>
      assert Matches(cal, false, Between(low, None, true, true), hi) <==> (low.Some? ==> low.value <= hi);
      assert Matches(cal, false, Between(None, high, true, true), lo) <==> (high.Some? ==> high.value >= lo);
    case Eq(v) => assert Matches(cal, false, f, v);
    case InList(vs) =>
      if KindSatisfiable(f, lo, hi) {
        var v :| v in vs && lo <= v <= hi;
        assert Matches(cal, false, f, v);
      }
    case _ =>
  }

  predicate KindsSatisfiable(fs: seq<FilterKind>, lo: int, hi: int) {
    forall k :: 0 <= k < |fs| ==> KindSatisfiable(fs[k], lo, hi)
  }

  /** A coordinate rejected by its bounds has no matching position, so the scan is empty anyway. */
  lemma {:induction false} EarlyRejectionSound(cal: Calendar, fs: seq<FilterKind>, c: CoordValues, lo: int, hi: int)
    requires CoordOk(c) && AllResolvable(fs, c)
    requires forall i :: 0 <= i < c.Len() ==> lo <= c.Vector()[i] <= hi
    requires !KindsSatisfiable(fs, lo, hi)
    ensures Resolve(cal, Some(fs), c).None?
  {
    var k :| 0 <= k < |fs| && !KindSatisfiable(fs[k], lo, hi);
    ResolveExact(cal, Some(fs), c);
    forall i | 0 <= i < c.Len() ensures !AllMatch(cal, c.isTimestamp, fs, c.Vector()[i]) {
      AllMatchMembers(cal, c.isTimestamp, fs, c.Vector()[i]);
      assert fs[k] in fs;
    }
  }
}
