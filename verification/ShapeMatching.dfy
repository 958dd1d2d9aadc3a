/** Matching a variable's dimensions to coordinates by size, and ordering the coordinates. */
module ShapeMatching {
  import opened Options
  import opened Sequences
  import opened RowMajor

  // ---------------------------------------------------------------------------------------------
  // Greedy matching
  // ---------------------------------------------------------------------------------------------

  /** The first coordinate from `from` on that is unused and has the size. */
  function FirstUnused(sizes: seq<nat>, used: set<nat>, size: nat, from: nat): (r: Option<nat>)
    ensures r.Some? ==> from <= r.value < |sizes| && r.value !in used && sizes[r.value] == size
    ensures r.Some? ==> forall j :: from <= j < r.value && sizes[j] == size ==> j in used
    ensures r.None? ==> forall j :: from <= j < |sizes| && sizes[j] == size ==> j in used
    decreases |sizes| - from
  {
    if from >= |sizes| then None
    else if from !in used && sizes[from] == size then Some(from)
    else FirstUnused(sizes, used, size, from + 1)
  }

  /** `match_shape_to_coords`: a dimension without a free coordinate is passed over. */
  function MatchFrom(shape: seq<nat>, sizes: seq<nat>, used: set<nat>): seq<nat> {
    if shape == [] then []
    else
      var j := FirstUnused(sizes, used, shape[0], 0);
      if j.Some? then [j.value] + MatchFrom(shape[1..], sizes, used + {j.value})
      else MatchFrom(shape[1..], sizes, used)
  }

  /** Distinct coordinates outside `used`, one per dimension, each of the dimension's size. */
  ghost predicate Assignment(f: seq<nat>, shape: seq<nat>, sizes: seq<nat>, used: set<nat>) {
    && |f| == |shape|
    && (forall k :: 0 <= k < |f| ==> f[k] < |sizes| && sizes[f[k]] == shape[k] && f[k] !in used)
    && forall k, l :: 0 <= k < l < |f| ==> f[k] != f[l]
  }

  lemma {:induction false} MatchNotLonger(shape: seq<nat>, sizes: seq<nat>, used: set<nat>)
    ensures |MatchFrom(shape, sizes, used)| <= |shape|
  {
    if shape != [] {
      var j := FirstUnused(sizes, used, shape[0], 0);
      MatchNotLonger(shape[1..], sizes, if j.Some? then used + {j.value} else used);
    }
  }

  /** A full match is an assignment. */
  lemma {:induction false} FullMatchAssigns(shape: seq<nat>, sizes: seq<nat>, used: set<nat>)
    requires |MatchFrom(shape, sizes, used)| == |shape|
    ensures Assignment(MatchFrom(shape, sizes, used), shape, sizes, used)
  {
    if shape != [] {
      var j := FirstUnused(sizes, used, shape[0], 0);
      if j.None? {
        MatchNotLonger(shape[1..], sizes, used);
        assert false;
      }
      FullMatchAssigns(shape[1..], sizes, used + {j.value});
    }
  }

  /** Exchange: whatever the greedy choice took, the rest can still be assigned. */
  lemma Exchange(f: seq<nat>, shape: seq<nat>, sizes: seq<nat>, used: set<nat>, j: nat) returns (g: seq<nat>)
    requires shape != [] && Assignment(f, shape, sizes, used)
    requires j < |sizes| && j !in used && sizes[j] == shape[0]
    ensures Assignment(g, shape[1..], sizes, used + {j})
  {
    if k :| 1 <= k < |f| && f[k] == j {
      g := f[1..][k - 1 := f[0]];
      forall a, b | 0 <= a < b < |g| ensures g[a] != g[b] {
        assert g[a] == if a == k - 1 then f[0] else f[a + 1];
        assert g[b] == if b == k - 1 then f[0] else f[b + 1];
      }
    } else {
      g := f[1..];
    }
  }

  lemma {:induction false} AssignmentIsFound(f: seq<nat>, shape: seq<nat>, sizes: seq<nat>, used: set<nat>)
    requires Assignment(f, shape, sizes, used)
    ensures |MatchFrom(shape, sizes, used)| == |shape|
    decreases |shape|
  {
    if shape != [] {
      var j := FirstUnused(sizes, used, shape[0], 0);
      assert j.Some? by { assert f[0] !in used && sizes[f[0]] == shape[0]; }
      var g := Exchange(f, shape, sizes, used, j.value);
      AssignmentIsFound(g, shape[1..], sizes, used + {j.value});
    }
  }

  /** Greedy matching is complete: it matches every dimension exactly when that is possible. */
  lemma GreedyMatchComplete(shape: seq<nat>, sizes: seq<nat>)
    ensures |MatchFrom(shape, sizes, {})| == |shape| <==> exists f :: Assignment(f, shape, sizes, {})
  {
    if |MatchFrom(shape, sizes, {})| == |shape| { FullMatchAssigns(shape, sizes, {}); }
    if f :| Assignment(f, shape, sizes, {}) { AssignmentIsFound(f, shape, sizes, {}); }
  }

  ghost function UsedSet(used: seq<bool>): set<nat> {
    set k | 0 <= k < |used| && used[k]
  }

  /** The inner loop: the first unused coordinate of a size. */
  method FindUnused(sizes: seq<nat>, used: seq<bool>, size: nat) returns (r: Option<nat>)
    requires |used| == |sizes|
    ensures r == FirstUnused(sizes, UsedSet(used), size, 0)
  {
    var j := 0;
    while j < |sizes|
      invariant 0 <= j <= |sizes|
      invariant FirstUnused(sizes, UsedSet(used), size, 0) == FirstUnused(sizes, UsedSet(used), size, j)
    {
      if !used[j] && sizes[j] == size { return Some(j); }
      j := j + 1;
    }
    return None;
  }

  /** The loops of `match_shape_to_coords`, flipping entries of `used`. */
  method MatchShape(shape: seq<nat>, sizes: seq<nat>) returns (matched: seq<nat>)
    ensures matched == MatchFrom(shape, sizes, {})
  {
    matched := [];
    var used := seq(|sizes|, _ => false);
    assert UsedSet(used) == {};
    for d := 0 to |shape|
      invariant |used| == |sizes|
      invariant matched + MatchFrom(shape[d..], sizes, UsedSet(used)) == MatchFrom(shape, sizes, {})
    {
      assert shape[d..][1..] == shape[d + 1..];
      var j := FindUnused(sizes, used, shape[d]);
      if j.Some? {
        assert UsedSet(used[j.value := true]) == UsedSet(used) + {j.value};
        matched := matched + [j.value];
        used := used[j.value := true];
      }
    }
  }

  // ---------------------------------------------------------------------------------------------
  // Ordering the coordinates
  // ---------------------------------------------------------------------------------------------

  datatype Coord = Coord(name: string, size: nat)

  function Sizes(coords: seq<Coord>): (r: seq<nat>)
    ensures |r| == |coords| && forall k :: 0 <= k < |coords| ==> r[k] == coords[k].size
  {
    seq(|coords|, k requires 0 <= k < |coords| => coords[k].size)
  }

  /** `total_rows`: the product of the coordinate sizes. */
  function TotalRows(coords: seq<Coord>): nat { Product(Sizes(coords)) }

  function Pick(coords: seq<Coord>, m: seq<nat>): (r: seq<Coord>)
    requires forall k :: 0 <= k < |m| ==> m[k] < |coords|
    ensures |r| == |m| && forall k :: 0 <= k < |m| ==> r[k] == coords[m[k]]
  {
    seq(|m|, k requires 0 <= k < |m| => coords[m[k]])
  }

  predicate NameLeq(a: string, b: string) {
    a == [] || (b != [] && (a[0] < b[0] || (a[0] == b[0] && NameLeq(a[1..], b[1..]))))
  }

  function InsertByName(c: Coord, s: seq<Coord>): (r: seq<Coord>)
    ensures |r| == |s| + 1 && multiset(r) == multiset(s) + multiset{c}
  {
    if s == [] then [c]
    else if NameLeq(c.name, s[0].name) then [c] + s
    else
      assert s == [s[0]] + s[1..];
      [s[0]] + InsertByName(c, s[1..])
  }

  function SortByName(s: seq<Coord>): (r: seq<Coord>)
    ensures |r| == |s| && multiset(r) == multiset(s)
  {
    if s == [] then []
    else
      assert s == [s[0]] + s[1..];
      InsertByName(s[0], SortByName(s[1..]))
  }

  ghost predicate ByName(s: seq<Coord>) {
    forall i, j :: 0 <= i < j < |s| ==> NameLeq(s[i].name, s[j].name)
  }

  lemma {:induction false} NameOrder(a: string, b: string, c: string)
    ensures NameLeq(a, b) || NameLeq(b, a)
    ensures NameLeq(a, b) && NameLeq(b, c) ==> NameLeq(a, c)
  {
    if a != [] && b != [] {
      NameOrder(a[1..], b[1..], if c == [] then [] else c[1..]);
    }
  }

  lemma {:induction false} InsertKeepsNameOrder(c: Coord, s: seq<Coord>)
    requires ByName(s)
    ensures ByName(InsertByName(c, s))
  {
    if s != [] {
      if NameLeq(c.name, s[0].name) {
        forall k | 0 <= k < |s| ensures NameLeq(c.name, s[k].name) { NameOrder(c.name, s[0].name, s[k].name); }
      } else {
        InsertKeepsNameOrder(c, s[1..]);
        NameOrder(s[0].name, c.name, c.name);
        var rest := InsertByName(c, s[1..]);
        forall k | 0 <= k < |rest| ensures NameLeq(s[0].name, rest[k].name) { assert rest[k] in multiset(rest); }
      }
    }
  }

  /** The fallback order: alphabetical, with every coordinate kept. */
  lemma {:induction false} SortedByName(s: seq<Coord>)
    ensures ByName(SortByName(s)) && multiset(SortByName(s)) == multiset(s)
  {
    if s != [] {
      SortedByName(s[1..]);
      InsertKeepsNameOrder(s[0], SortByName(s[1..]));
    }
  }

  /** The shape is matched by all coordinates. */
  ghost predicate Fits(shape: seq<nat>, coords: seq<Coord>) {
    |shape| == |coords| && |MatchFrom(shape, Sizes(coords), {})| == |shape|
  }

  ghost predicate Distinct(m: seq<nat>) {
    forall k, l :: 0 <= k < l < |m| ==> m[k] != m[l]
  }

  function Without(m: seq<nat>, k: nat): (r: seq<nat>)
    requires k < |m|
    ensures |r| == |m| - 1 && forall i :: 0 <= i < |r| ==> r[i] == if i < k then m[i] else m[i + 1]
  {
    m[..k] + m[k + 1..]
  }

  lemma WithoutDistinct(m: seq<nat>, k: nat)
    requires Distinct(m) && k < |m|
    ensures Distinct(Without(m, k)) && m[k] !in Without(m, k)
  {
  }

  /** Distinct numbers below `n` are at most `n` many. */
  lemma {:induction false} Pigeonhole(m: seq<nat>, n: nat)
    requires Distinct(m) && forall k :: 0 <= k < |m| ==> m[k] < n
    ensures |m| <= n
    decreases n
  {
    if m != [] {
      assert m[0] < n;
      if k :| 0 <= k < |m| && m[k] == n - 1 {
        WithoutDistinct(m, k);
        Pigeonhole(Without(m, k), n - 1);
      } else {
        Pigeonhole(m, n - 1);
      }
    }
  }

  lemma LargestIsHit(m: seq<nat>, n: nat) returns (k: nat)
    requires n > 0 && |m| == n && Distinct(m) && forall i :: 0 <= i < n ==> m[i] < n
    ensures k < n && m[k] == n - 1
  {
    if j :| 0 <= j < n && m[j] == n - 1 {
      k := j;
    } else {
      Pigeonhole(m, n - 1);
      assert false;
    }
  }

  lemma PickDrop(coords: seq<Coord>, m: seq<nat>, k: nat)
    requires k < |m| && coords != [] && m[k] == |coords| - 1
    requires forall i :: 0 <= i < |m| ==> m[i] < |coords|
    requires forall i :: 0 <= i < |m| && i != k ==> m[i] < |coords| - 1
    ensures var rest := Without(m, k);
            && (forall i :: 0 <= i < |rest| ==> rest[i] < |coords| - 1)
            && Pick(coords, m) == Pick(coords, m)[..k] + [coords[|coords| - 1]] + Pick(coords, m)[k + 1..]
            && Pick(coords[..|coords| - 1], rest) == Pick(coords, m)[..k] + Pick(coords, m)[k + 1..]
  {
  }

  lemma MultisetMiddle(front: seq<Coord>, x: Coord, back: seq<Coord>)
    ensures multiset(front + [x] + back) == multiset(front + back) + multiset{x}
  {
  }

  lemma PickStep(coords: seq<Coord>, m: seq<nat>, k: nat)
    requires k < |m| && coords != [] && m[k] == |coords| - 1
    requires forall i :: 0 <= i < |m| ==> m[i] < |coords|
    requires forall i :: 0 <= i < |m| && i != k ==> m[i] < |coords| - 1
    ensures forall i :: 0 <= i < |m| - 1 ==> Without(m, k)[i] < |coords| - 1
    ensures multiset(Pick(coords, m)) == multiset(Pick(coords[..|coords| - 1], Without(m, k))) + multiset{coords[|coords| - 1]}
  {
    var p := Pick(coords, m);
    PickDrop(coords, m, k);
    MultisetMiddle(p[..k], coords[|coords| - 1], p[k + 1..]);
  }

  /** Picking by a permutation of the indices permutes the coordinates. */
  lemma {:induction false} PickPermutes(coords: seq<Coord>, m: seq<nat>)
    requires |m| == |coords| && Distinct(m) && forall k :: 0 <= k < |m| ==> m[k] < |coords|
    ensures multiset(Pick(coords, m)) == multiset(coords)
    decreases |coords|
  {
    if coords != [] {
      var n := |coords| - 1;
      var k := LargestIsHit(m, |coords|);
      WithoutDistinct(m, k);
      PickStep(coords, m, k);
      PickPermutes(coords[..n], Without(m, k));
      assert coords == coords[..n] + [coords[n]];
    }
  }

  /** The coordinates in the order of the dimensions they match. */
  ghost function Order(shape: seq<nat>, coords: seq<Coord>): (r: seq<Coord>)
    requires Fits(shape, coords)
  {
    FullMatchAssigns(shape, Sizes(coords), {});
    Pick(coords, MatchFrom(shape, Sizes(coords), {}))
  }

  lemma FittedOrder(shape: seq<nat>, coords: seq<Coord>)
    requires Fits(shape, coords)
    ensures multiset(Order(shape, coords)) == multiset(coords) && Sizes(Order(shape, coords)) == shape
  {
    FullMatchAssigns(shape, Sizes(coords), {});
    PickPermutes(coords, MatchFrom(shape, Sizes(coords), {}));
  }

  /** A full match of all coordinates in order, giving up at the first dimension without one. */
  method TryOrder(shape: seq<nat>, coords: seq<Coord>) returns (r: Option<seq<Coord>>)
    requires |shape| == |coords|
    ensures r.Some? <==> Fits(shape, coords)
    ensures r.Some? ==> r.value == Order(shape, coords)
  {
    var sizes := Sizes(coords);
    var used := seq(|sizes|, _ => false);
    assert UsedSet(used) == {};
    var ordered: seq<Coord> := [];
    ghost var m: seq<nat> := [];
    ghost var all := MatchFrom(shape, sizes, {});
    for d := 0 to |shape|
      invariant |used| == |sizes| && |m| == |ordered| == d
      invariant forall k :: 0 <= k < d ==> m[k] < |coords| && ordered[k] == coords[m[k]]
      invariant m + MatchFrom(shape[d..], sizes, UsedSet(used)) == all
    {
      var j := FindUnused(sizes, used, shape[d]);
      MatchStep(shape, sizes, UsedSet(used), d, j);
      if j.None? {
        MatchNotLonger(shape[d + 1..], sizes, UsedSet(used));
        return None;
      }
      assert UsedSet(used[j.value := true]) == UsedSet(used) + {j.value};
      ghost var rest := MatchFrom(shape[d + 1..], sizes, UsedSet(used) + {j.value});
      assert m + ([j.value] + rest) == m + [j.value] + rest;
      ordered := ordered + [coords[j.value]];
      m := m + [j.value];
      used := used[j.value := true];
    }
    assert shape[|shape|..] == [] && m == all;
    assert ordered == Order(shape, coords);
    r := Some(ordered);
  }

  lemma MatchStep(shape: seq<nat>, sizes: seq<nat>, used: set<nat>, d: nat, j: Option<nat>)
    requires d < |shape| && j == FirstUnused(sizes, used, shape[d], 0)
    ensures MatchFrom(shape[d..], sizes, used)
            == if j.Some? then [j.value] + MatchFrom(shape[d + 1..], sizes, used + {j.value})
               else MatchFrom(shape[d + 1..], sizes, used)
  {
    assert shape[d..][1..] == shape[d + 1..];
  }

  lemma SwapFactors(a: int, x: int, p: int)
    ensures a * (x * p) == x * (a * p)
  {
  }

  lemma {:induction false} ProductMiddle(a: seq<nat>, x: nat, b: seq<nat>)
    ensures Product(a + [x] + b) == x * Product(a + b)
  {
    var all := a + [x] + b;
    if a == [] {
      assert all == [x] + b && all[1..] == b && a + b == b;
    } else {
      ProductMiddle(a[1..], x, b);
      assert all[1..] == a[1..] + [x] + b && (a + b)[1..] == a[1..] + b;
      SwapFactors(a[0], x, Product(a[1..] + b));
    }
  }

  lemma TotalRowsMiddle(a: seq<Coord>, x: Coord, b: seq<Coord>)
    ensures TotalRows(a + [x] + b) == x.size * TotalRows(a + b)
  {
    ProductMiddle(Sizes(a), x.size, Sizes(b));
    assert Sizes(a + [x] + b) == Sizes(a) + [x.size] + Sizes(b);
    assert Sizes(a + b) == Sizes(a) + Sizes(b);
  }

  lemma SameWithout(a: seq<Coord>, b: seq<Coord>, x: Coord, front: seq<Coord>, back: seq<Coord>)
    requires a == [x] + b
    requires multiset(a) == multiset(front + [x] + back)
    ensures multiset(b) == multiset(front + back)
  {
    assert multiset(a) == multiset{x} + multiset(b);
    assert multiset(front + [x] + back) == multiset{x} + multiset(front + back);
    assert multiset(b) == multiset(a) - multiset{x};
  }

  /** The row count does not depend on the order of the coordinates. */
  lemma {:induction false} TotalRowsPermutes(a: seq<Coord>, b: seq<Coord>)
    requires multiset(a) == multiset(b)
    ensures TotalRows(a) == TotalRows(b)
    decreases |a|
  {
    if a == [] {
      assert |multiset(b)| == |b|;
      assert b == [];
    } else {
      var x := a[0];
      assert x in multiset(a) && x in multiset(b);
      var j :| 0 <= j < |b| && b[j] == x;
      assert b == b[..j] + [x] + b[j + 1..] && a == [x] + a[1..] && a == [] + [x] + a[1..];
      SameWithout(a, a[1..], x, b[..j], b[j + 1..]);
      TotalRowsPermutes(a[1..], b[..j] + b[j + 1..]);
      TotalRowsMiddle(b[..j], x, b[j + 1..]);
      TotalRowsMiddle([], x, a[1..]);
      assert [] + a[1..] == a[1..];
    }
  }

  // ---------------------------------------------------------------------------------------------
  // When the order is the order of names
  // ---------------------------------------------------------------------------------------------

  ghost predicate DistinctNames(coords: seq<Coord>) {
    forall i, j :: 0 <= i < j < |coords| ==> coords[i].name != coords[j].name
  }

  /** Coordinates of one size are listed in the order of their names. */
  ghost predicate TiesByName(coords: seq<Coord>) {
    forall i, j :: 0 <= i < j < |coords| && coords[i].size == coords[j].size ==> NameLeq(coords[i].name, coords[j].name)
  }

  /** Two coordinates share a size, so that the shape alone does not tell them apart. */
  ghost predicate Ambiguous(coords: seq<Coord>) {
    exists i, j :: 0 <= i < j < |coords| && coords[i].size == coords[j].size
  }

  lemma {:induction false} NameAntisymmetric(a: string, b: string)
    requires NameLeq(a, b) && NameLeq(b, a)
    ensures a == b
  {
    if a != [] {
      NameAntisymmetric(a[1..], b[1..]);
      assert a == [a[0]] + a[1..] && b == [b[0]] + b[1..];
    }
  }

  lemma {:induction false} MatchAvoids(shape: seq<nat>, sizes: seq<nat>, used: set<nat>)
    ensures forall k :: 0 <= k < |MatchFrom(shape, sizes, used)| ==> MatchFrom(shape, sizes, used)[k] !in used
  {
    if shape != [] {
      var j := FirstUnused(sizes, used, shape[0], 0);
      MatchAvoids(shape[1..], sizes, if j.Some? then used + {j.value} else used);
    }
  }

  /** Coordinates of one size are matched in the order they are listed. */
  lemma {:induction false} MatchKeepsOrder(shape: seq<nat>, sizes: seq<nat>, used: set<nat>, a: nat, b: nat)
    requires a < b < |MatchFrom(shape, sizes, used)| == |shape| && shape[a] == shape[b]
    ensures MatchFrom(shape, sizes, used)[a] < MatchFrom(shape, sizes, used)[b]
  {
    var m, j := MatchFrom(shape, sizes, used), FirstUnused(sizes, used, shape[0], 0);
    MatchNotLonger(shape[1..], sizes, used);
    var rest := MatchFrom(shape[1..], sizes, used + {j.value});
    if a > 0 {
      MatchKeepsOrder(shape[1..], sizes, used + {j.value}, a - 1, b - 1);
    } else {
      FullMatchAssigns(shape, sizes, used);
      MatchAvoids(shape[1..], sizes, used + {j.value});
      assert m[b] == rest[b - 1];
      assert m[b] !in used + {j.value} && sizes[m[b]] == shape[0];
    }
  }

  lemma EveryIndexMatched(m: seq<nat>, n: nat, i: nat)
    requires |m| == n && Distinct(m) && i < n && forall k :: 0 <= k < n ==> m[k] < n
    ensures i in m
  {
    if i !in m { Pigeonhole(m + [i], n); }
  }

  lemma OrderTies(shape: seq<nat>, coords: seq<Coord>, i: nat, j: nat)
    requires Fits(shape, coords) && i < j < |coords| && coords[i].size == coords[j].size && ByName(Order(shape, coords))
    ensures NameLeq(coords[i].name, coords[j].name)
  {
    var m := MatchFrom(shape, Sizes(coords), {});
    FullMatchAssigns(shape, Sizes(coords), {});
    EveryIndexMatched(m, |coords|, i);
    EveryIndexMatched(m, |coords|, j);
    var a :| 0 <= a < |m| && m[a] == i;
    var b :| 0 <= b < |m| && m[b] == j;
    if b < a { MatchKeepsOrder(shape, Sizes(coords), {}, b, a); }
    assert Order(shape, coords)[a] == coords[i] && Order(shape, coords)[b] == coords[j];
  }

  /** Matching a shape that is already in name order picks the coordinates in name order. */
  lemma {:induction false} MatchByName(coords: seq<Coord>, n: seq<nat>, shape: seq<nat>, used: set<nat>)
    requires DistinctNames(coords) && TiesByName(coords) && Distinct(n) && |shape| == |n|
    requires forall k :: 0 <= k < |n| ==> n[k] < |coords| && n[k] !in used && shape[k] == coords[n[k]].size
    requires forall i :: 0 <= i < |coords| && i !in used ==> i in n
    requires forall k, l :: 0 <= k < l < |n| ==> NameLeq(coords[n[k]].name, coords[n[l]].name)
    ensures MatchFrom(shape, Sizes(coords), used) == n
    decreases |n|
  {
    if n != [] {
      var j := FirstUnused(Sizes(coords), used, shape[0], 0);
      assert Sizes(coords)[n[0]] == shape[0];
      if j.value != n[0] {
        var t :| 0 <= t < |n| && n[t] == j.value;
        assert NameLeq(coords[n[0]].name, coords[n[t]].name);
        NameAntisymmetric(coords[n[0]].name, coords[j.value].name);
        assert false;
      }
      forall i | 0 <= i < |coords| && i !in used + {n[0]} ensures i in n[1..] { assert i in n; }
      MatchByName(coords, n[1..], shape[1..], used + {n[0]});
      assert n == [n[0]] + n[1..];
    }
  }

  /** The position of each sorted coordinate in the list. */
  lemma SortedPositions(coords: seq<Coord>) returns (n: seq<nat>)
    requires DistinctNames(coords)
    ensures |n| == |coords| && Distinct(n) && forall k :: 0 <= k < |n| ==> n[k] < |coords| && coords[n[k]] == SortByName(coords)[k]
  {
    var s := SortByName(coords);
    SortedByName(coords);
    SameSize(s, coords);
    n := seq(|s|, k requires 0 <= k < |s| => PlaceOf(coords, s[k]));
    forall k, l | 0 <= k < l < |n| ensures n[k] != n[l] {
      if n[k] == n[l] {
        RepeatedTwice(s, k, l);
        OnceIn(coords, s[k]);
        assert false;
      }
    }
  }

  lemma SameSize(a: seq<Coord>, b: seq<Coord>)
    requires multiset(a) == multiset(b)
    ensures |a| == |b| && forall c :: c in a ==> c in b
  {
    assert |multiset(a)| == |a| && |multiset(b)| == |b|;
    forall c | c in a ensures c in b { assert c in multiset(a); }
  }

  ghost function PlaceOf(coords: seq<Coord>, c: Coord): (i: nat)
    ensures c in coords ==> i < |coords| && coords[i] == c
  {
    if i: nat :| i < |coords| && coords[i] == c then i else 0
  }

  lemma {:induction false} OnceIn(s: seq<Coord>, c: Coord)
    requires DistinctNames(s)
    ensures multiset(s)[c] <= 1
  {
    if s != [] {
      OnceIn(s[1..], c);
      assert s == [s[0]] + s[1..];
      if s[0] == c { assert c !in s[1..]; }
    }
  }

  /**
   A fitting variable leaves the coordinates in name order exactly when that order has the
   variable's shape and coordinates of one size are listed by name; sharing a size makes no difference.
   */
  lemma OrderIsByNameIff(shape: seq<nat>, coords: seq<Coord>)
    requires Fits(shape, coords) && DistinctNames(coords)
    ensures Order(shape, coords) == SortByName(coords) <==> Sizes(SortByName(coords)) == shape && TiesByName(coords)
  {
    SortedByName(coords);
    if Order(shape, coords) == SortByName(coords) {
      FittedOrder(shape, coords);
      forall i, j | 0 <= i < j < |coords| && coords[i].size == coords[j].size ensures NameLeq(coords[i].name, coords[j].name) {
        OrderTies(shape, coords, i, j);
      }
    }
    if Sizes(SortByName(coords)) == shape && TiesByName(coords) { ByNameIsOrder(shape, coords); }
  }

  lemma ByNameIsOrder(shape: seq<nat>, coords: seq<Coord>)
    requires Fits(shape, coords) && DistinctNames(coords) && TiesByName(coords) && Sizes(SortByName(coords)) == shape
    ensures Order(shape, coords) == SortByName(coords)
  {
    var s := SortByName(coords);
    SortedByName(coords);
    var n := SortedPositions(coords);
    forall i | 0 <= i < |coords| ensures i in n { EveryIndexMatched(n, |coords|, i); }
    forall k, l | 0 <= k < l < |n| ensures NameLeq(coords[n[k]].name, coords[n[l]].name) {
      assert NameLeq(s[k].name, s[l].name);
    }
    MatchByName(coords, n, shape, {});
  }

  /** Two coordinates of one size, listed b before a: the mapping is ambiguous, and the list order is kept. */
  lemma AmbiguousOrderKept(coords: seq<Coord>)
    requires coords == [Coord("b", 2), Coord("a", 2)]
    ensures Ambiguous(coords) && Fits([2, 2], coords) && Order([2, 2], coords) != SortByName(coords)
  {
    assert coords[0].size == coords[1].size;
    assert Assignment([0, 1], [2, 2], Sizes(coords), {});
    GreedyMatchComplete([2, 2], Sizes(coords));
    assert !NameLeq(coords[0].name, coords[1].name);
    OrderIsByNameIff([2, 2], coords);
  }

  /**
   `infer_coord_order_from_data_vars`: the coordinates in the order of the first variable they
   fit, or by name; always a permutation, so the row count is unchanged, and it is the element
   count of the variable whenever one fits.
   */
  method InferCoordOrder(coords: seq<Coord>, shapes: seq<seq<nat>>) returns (r: seq<Coord>)
    ensures multiset(r) == multiset(coords) && TotalRows(r) == TotalRows(coords)
    ensures coords != [] && (exists i :: 0 <= i < |shapes| && Fits(shapes[i], coords)) ==>
              exists i :: 0 <= i < |shapes| && Fits(shapes[i], coords)
                          && (forall k :: 0 <= k < i ==> !Fits(shapes[k], coords))
                          && r == Order(shapes[i], coords)
                          && Sizes(r) == shapes[i] && TotalRows(coords) == Product(shapes[i])
    ensures coords == [] || (forall i :: 0 <= i < |shapes| ==> !Fits(shapes[i], coords)) ==> r == SortByName(coords)
  {
    if coords == [] || shapes == [] {
      r := SortByName(coords);
      TotalRowsPermutes(r, coords);
      return;
    }
    for i := 0 to |shapes|
      invariant forall k :: 0 <= k < i ==> !Fits(shapes[k], coords)
    {
      if |shapes[i]| != |coords| { continue; }
      var t := TryOrder(shapes[i], coords);
      if t.Some? {
        FittedOrder(shapes[i], coords);
        TotalRowsPermutes(t.value, coords);
        return t.value;
      }
    }
    r := SortByName(coords);
    TotalRowsPermutes(r, coords);
  }
}
