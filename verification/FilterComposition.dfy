/** AND-composition of the filters on one coordinate. */
module FilterComposition {
  import opened Options
  import opened Selection
  import opened RangeSearch

  /** The running selection after the remaining `filters`; None as soon as nothing is left. */
  function ComposeFrom(cal: Calendar, acc: Option<CoordSelection>, filters: seq<FilterKind>, c: CoordValues): Option<CoordSelection>
    decreases |filters|
  {
    if filters == [] then acc
    else
      var sel := ResolveSingle(cal, filters[0], c);
      if sel.None? then None
      else
        var next := if acc.None? then sel.value else acc.value.Intersect(sel.value);
        if next.IsEmpty() then None else ComposeFrom(cal, Some(next), filters[1..], c)
  }

  function Resolve(cal: Calendar, filters: Option<seq<FilterKind>>, c: CoordValues): Option<CoordSelection> {
    if filters.None? || filters.value == [] then Some(Range(0, c.Len())) else ComposeFrom(cal, None, filters.value, c)
  }

  predicate AllMatch(cal: Calendar, isTimestamp: bool, filters: seq<FilterKind>, x: int) {
    filters == [] || (Matches(cal, isTimestamp, filters[0], x) && AllMatch(cal, isTimestamp, filters[1..], x))
  }

  lemma {:induction false} AllMatchMembers(cal: Calendar, ts: bool, filters: seq<FilterKind>, x: int)
    ensures AllMatch(cal, ts, filters, x) <==> forall f :: f in filters ==> Matches(cal, ts, f, x)
  {
    if filters != [] {
      AllMatchMembers(cal, ts, filters[1..], x);
      assert forall f :: f in filters <==> f == filters[0] || f in filters[1..];
    }
  }

  ghost predicate AllResolvable(filters: seq<FilterKind>, c: CoordValues) {
    forall k :: 0 <= k < |filters| ==> Resolvable(filters[k], c)
  }

  predicate Contiguous(f: FilterKind) { f.Eq? || f.Between? }

  predicate AllContiguous(filters: seq<FilterKind>) {
    filters == [] || (Contiguous(filters[0]) && AllContiguous(filters[1..]))
  }

  lemma {:induction false} AllContiguousMembers(filters: seq<FilterKind>)
    ensures AllContiguous(filters) <==> forall f :: f in filters ==> Contiguous(f)
  {
    if filters != [] {
      AllContiguousMembers(filters[1..]);
      assert forall f :: f in filters <==> f == filters[0] || f in filters[1..];
    }
  }

  /** A running selection: valid, non-empty, and inside the coordinate. */
  ghost predicate Running(acc: Option<CoordSelection>, c: CoordValues) {
    acc.Some? ==> acc.value.Valid() && !acc.value.IsEmpty() && forall i: nat :: acc.value.Has(i) ==> i < c.Len()
  }

  lemma StepExact(cal: Calendar, acc: Option<CoordSelection>, f: FilterKind, c: CoordValues)
    requires CoordOk(c) && Resolvable(f, c) && Running(acc, c)
    ensures var sel := ResolveSingle(cal, f, c);
            sel.Some? ==>
              var next := if acc.None? then sel.value else acc.value.Intersect(sel.value);
              && next.Valid()
              && (next.Range? <==> (acc.Some? ==> acc.value.Range?) && Contiguous(f))
              && (forall i: nat :: next.Has(i) ==> i < c.Len())
              && forall i :: 0 <= i < c.Len() ==>
                   (next.Has(i) <==> (acc.Some? ==> acc.value.Has(i)) && Matches(cal, c.isTimestamp, f, c.Vector()[i]))
  {
    SingleFilterExact(cal, f, c);
    var sel := ResolveSingle(cal, f, c);
    if sel.Some? && acc.Some? { IntersectIsIntersection(acc.value, sel.value); }
  }

  /** What composing means: the positions of `acc` whose value satisfies every filter. */
  ghost predicate Composed(r: Option<CoordSelection>, acc: Option<CoordSelection>, cal: Calendar, filters: seq<FilterKind>, c: CoordValues) {
    && (r.Some? ==>
          && r.value.Valid() && !r.value.IsEmpty()
          && (r.value.Range? <==> (acc.Some? ==> acc.value.Range?) && AllContiguous(filters))
          && forall i: nat :: r.value.Has(i) ==> i < c.Len())
    && forall i :: 0 <= i < c.Len() ==>
         ((acc.Some? ==> acc.value.Has(i)) && AllMatch(cal, c.isTimestamp, filters, c.Vector()[i]) <==> r.Some? && r.value.Has(i))
  }

  lemma {:induction false} ComposeExact(cal: Calendar, acc: Option<CoordSelection>, filters: seq<FilterKind>, c: CoordValues)
    requires CoordOk(c) && AllResolvable(filters, c) && Running(acc, c) && (acc.Some? || filters != [])
    ensures Composed(ComposeFrom(cal, acc, filters, c), acc, cal, filters, c)
    decreases |filters|
  {
    if filters != [] {
      SingleFilterExact(cal, filters[0], c);
      StepExact(cal, acc, filters[0], c);
      var sel := ResolveSingle(cal, filters[0], c);
      if sel.Some? {
        var next := if acc.None? then sel.value else acc.value.Intersect(sel.value);
        EmptyHasNothing(next);
        if !next.IsEmpty() { ComposeExact(cal, Some(next), filters[1..], c); }
      }
    }
  }

  /**
   The resolved selection is the intersection of the filters' positions, sorted and inside the
   coordinate; it is None exactly when filters are given and that intersection is empty.
   */
  lemma ResolveExact(cal: Calendar, filters: Option<seq<FilterKind>>, c: CoordValues)
    requires CoordOk(c) && (filters.Some? ==> AllResolvable(filters.value, c))
    ensures var r, fs := Resolve(cal, filters, c), if filters.Some? then filters.value else [];
            && (r.Some? ==> r.value.Valid() && forall i: nat :: r.value.Has(i) ==> i < c.Len())
            && (forall i :: 0 <= i < c.Len() ==> (AllMatch(cal, c.isTimestamp, fs, c.Vector()[i]) <==> r.Some? && r.value.Has(i)))
            && (r.None? <==> fs != [] && forall i :: 0 <= i < c.Len() ==> !AllMatch(cal, c.isTimestamp, fs, c.Vector()[i]))
  {
    var fs := if filters.Some? then filters.value else [];
    if fs != [] {
      ComposeExact(cal, None, fs, c);
      var r := Resolve(cal, filters, c);
      if r.Some? { EmptyHasNothing(r.value); }
    }
  }

  /** The order in which filters were collected makes no difference, not even to the form. */
  lemma ResolveOrderIndependent(cal: Calendar, a: seq<FilterKind>, b: seq<FilterKind>, c: CoordValues)
    requires CoordOk(c) && AllResolvable(a, c) && multiset(a) == multiset(b)
    ensures Resolve(cal, Some(a), c) == Resolve(cal, Some(b), c)
  {
    SameMembers(a, b);
    if a != [] && b != [] {
      assert AllResolvable(b, c) by {
        forall k | 0 <= k < |b| ensures Resolvable(b[k], c) { assert b[k] in a; }
      }
      ComposeExact(cal, None, a, c);
      ComposeExact(cal, None, b, c);
      var ra, rb := Resolve(cal, Some(a), c), Resolve(cal, Some(b), c);
      forall x ensures AllMatch(cal, c.isTimestamp, a, x) <==> AllMatch(cal, c.isTimestamp, b, x) {
        AllMatchMembers(cal, c.isTimestamp, a, x);
        AllMatchMembers(cal, c.isTimestamp, b, x);
      }
      AllContiguousMembers(a);
      AllContiguousMembers(b);
      if ra.Some? { EmptyHasNothing(ra.value); }
      if rb.Some? { EmptyHasNothing(rb.value); }
      if ra.Some? && rb.Some? { SelectionUnique(ra.value, rb.value); }
    }
  }

  lemma SameMembers(a: seq<FilterKind>, b: seq<FilterKind>)
    requires multiset(a) == multiset(b)
    ensures |a| == |b|
    ensures forall f :: f in a <==> f in b
  {
    assert forall f :: f in a <==> f in multiset(a);
    assert forall f :: f in b <==> f in multiset(b);
    assert |multiset(a)| == |a| && |multiset(b)| == |b|;
  }

  /** The loop of `resolve_coord_selection`, with its early exits. */
  method ResolveSelection(cal: Calendar, filters: Option<seq<FilterKind>>, c: CoordValues) returns (r: Option<CoordSelection>)
    ensures r == Resolve(cal, filters, c)
  {
    if filters.None? || filters.value == [] { return Some(Range(0, c.Len())); }
    var fs := filters.value;
    var acc: Option<CoordSelection> := None;
    for k := 0 to |fs|
      invariant ComposeFrom(cal, acc, fs[k..], c) == ComposeFrom(cal, None, fs, c)
      invariant k > 0 ==> acc.Some?
    {
      assert fs[k..][1..] == fs[k + 1..];
      var sel := ResolveSingle(cal, fs[k], c);
      if sel.None? { return None; }
      var next := if acc.None? then sel.value else acc.value.Intersect(sel.value);
      if next.IsEmpty() { return None; }
      acc := Some(next);
    }
    assert fs[|fs|..] == [];
    return acc;
  }
}
