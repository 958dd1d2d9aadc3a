/** Selected positions of one coordinate, and their AND-composition. */
module Selection {
  import opened Arithmetic

  /** A contiguous slice `[start, end)`, or a list of scattered positions. */
  datatype CoordSelection =
    | Range(start: nat, end: nat)
    | Indices(positions: seq<nat>)
  {
    predicate Has(x: nat) {
      match this
      case Range(s, e) => s <= x < e
      case Indices(v) => x in v
    }

    /** What every producer of selections keeps: slices are ordered, lists strictly ascending. */
    ghost predicate Valid() {
      match this
      case Range(s, e) => s <= e
      case Indices(v) => Ascending(v)
    }

    function Len(): nat
      requires Range? ==> start <= end
    {
      match this
      case Range(s, e) => e - s
      case Indices(v) => |v|
    }

    predicate IsEmpty()
      requires Range? ==> start <= end
    {
      Len() == 0
    }

    function Intersect(other: CoordSelection): CoordSelection {
      match (this, other)
      case (Range(s1, e1), Range(s2, e2)) =>
        var start := Max(s1, s2);
        Range(start, Max(Min(e1, e2), start))
      case (Range(_, _), Indices(v)) => Indices(Keep(v, this))
      case (Indices(v), Range(_, _)) => Indices(Keep(v, other))
      case (Indices(_), Indices(b)) => Indices(Keep(b, this))
    }
  }

  ghost predicate Ascending(v: seq<nat>) {
    forall i, j :: 0 <= i < j < |v| ==> v[i] < v[j]
  }

  /** The members of `v`, in order, that `sel` also selects. */
  function Keep(v: seq<nat>, sel: CoordSelection): (r: seq<nat>)
    ensures forall x :: x in r <==> x in v && sel.Has(x)
    ensures |r| <= |v|
  {
    if v == [] then []
    else if sel.Has(v[0]) then [v[0]] + Keep(v[1..], sel)
    else Keep(v[1..], sel)
  }

  lemma {:induction false} KeepAscending(v: seq<nat>, sel: CoordSelection)
    requires Ascending(v)
    ensures Ascending(Keep(v, sel))
  {
    if v != [] {
      KeepAscending(v[1..], sel);
      var k := Keep(v[1..], sel);
      forall j | 0 <= j < |k| ensures v[0] < k[j] { assert k[j] in v[1..]; }
    }
  }

  /** An ascending list is determined by its members. */
  lemma {:induction false} AscendingUnique(a: seq<nat>, b: seq<nat>)
    requires Ascending(a) && Ascending(b)
    requires forall x :: x in a <==> x in b
    ensures a == b
  {
    assert a != [] ==> a[0] in b;
    assert b != [] ==> b[0] in a;
    if a != [] {
      assert a[0] == b[0];
      forall x ensures x in a[1..] <==> x in b[1..] {
        if x in a[1..] { assert x in b && x != b[0]; }
        if x in b[1..] { assert x in a && x != a[0]; }
      }
      AscendingUnique(a[1..], b[1..]);
      assert a == [a[0]] + a[1..] && b == [b[0]] + b[1..];
    }
  }

  /** Intersection keeps validity and selects exactly the common positions. */
  lemma IntersectIsIntersection(a: CoordSelection, b: CoordSelection)
    requires a.Valid() && b.Valid()
    ensures a.Intersect(b).Valid()
    ensures forall x :: a.Intersect(b).Has(x) <==> a.Has(x) && b.Has(x)
    ensures a.Intersect(b).Range? <==> a.Range? && b.Range?
  {
    if b.Indices? {
      KeepAscending(b.positions, a);
    } else if a.Indices? {
      KeepAscending(a.positions, b);
    }
  }

  /** A non-empty slice, or any list, is determined by its kind and its members. */
  lemma SelectionUnique(a: CoordSelection, b: CoordSelection)
    requires a.Valid() && b.Valid()
    requires a.Range? <==> b.Range?
    requires a.Range? ==> a.start < a.end && b.start < b.end
    requires forall x :: a.Has(x) <==> b.Has(x)
    ensures a == b
  {
    if a.Range? {
      assert a.Has(a.start) && a.Has(a.end - 1) && b.Has(b.start) && b.Has(b.end - 1);
      assert b.Has(a.start) && b.Has(a.end - 1) && a.Has(b.start) && a.Has(b.end - 1);
    } else {
      forall x ensures x in a.positions <==> x in b.positions { assert a.Has(x) <==> b.Has(x); }
      AscendingUnique(a.positions, b.positions);
    }
  }

  lemma IntersectCommutes(a: CoordSelection, b: CoordSelection)
    requires a.Valid() && b.Valid()
    ensures a.Intersect(b) == b.Intersect(a)
  {
    IntersectIsIntersection(a, b);
    IntersectIsIntersection(b, a);
    if a.Indices? && b.Indices? {
      SelectionUnique(a.Intersect(b), b.Intersect(a));
    }
  }

  lemma IntersectAssociates(a: CoordSelection, b: CoordSelection, c: CoordSelection)
    requires a.Valid() && b.Valid() && c.Valid()
    ensures a.Intersect(b).Intersect(c) == a.Intersect(b.Intersect(c))
  {
    IntersectIsIntersection(a, b);
    IntersectIsIntersection(b, c);
    IntersectIsIntersection(a.Intersect(b), c);
    IntersectIsIntersection(a, b.Intersect(c));
    if !(a.Range? && b.Range? && c.Range?) {
      SelectionUnique(a.Intersect(b).Intersect(c), a.Intersect(b.Intersect(c)));
    }
  }

  lemma EmptyHasNothing(a: CoordSelection)
    requires a.Valid()
    ensures a.IsEmpty() <==> forall x: nat :: !a.Has(x)
  {
    if !a.IsEmpty() {
      assert a.Has(if a.Range? then a.start else a.positions[0]);
    }
  }
}
