/** Reading a sub-box for a LIMIT: it is a prefix of the whole scan. */
module LimitSubset {
  import opened Arithmetic
  import opened RowMajor

  /** No inner dimension is empty, so that every inner size can be divided by. */
  predicate Divisible(shape: seq<nat>) { shape == [] || Positive(shape[1..]) }

  /** How many steps of each dimension a limit needs. */
  function Takes(shape: seq<nat>, limit: nat): (t: seq<nat>)
    requires Divisible(shape)
    ensures |t| == |shape|
  {
    if shape == [] then []
    else
      ProductPositive(shape[1..]);
      [Min(CeilDiv(limit, Product(shape[1..])), shape[0])] + Takes(shape[1..], limit)
  }

  function Reverse<T>(s: seq<T>): seq<T> {
    if s == [] then [] else Reverse(s[1..]) + [s[0]]
  }

  lemma {:induction false} ReverseSnoc<T>(s: seq<T>, x: T)
    ensures Reverse(s + [x]) == [x] + Reverse(s)
  {
    if s == [] {
      assert s + [x] == [x] && [x][1..] == [];
    } else {
      ReverseSnoc(s[1..], x);
      assert (s + [x])[1..] == s[1..] + [x];
    }
  }

  /** The extents as half-open ranges from 0. */
  function FromZero(takes: seq<nat>): (r: seq<(nat, nat)>)
    ensures |r| == |takes| && forall k :: 0 <= k < |takes| ==> r[k] == (0, takes[k])
  {
    seq(|takes|, k requires 0 <= k < |takes| => (0, takes[k]))
  }

  lemma CeilDivOne(a: nat)
    ensures CeilDiv(a, 1) == a
  {
  }

  /** `calculate_limited_subset`: filled from the last dimension on, then reversed. */
  method LimitedSubset(shape: seq<nat>, limit: nat) returns (ranges: seq<(nat, nat)>)
    requires Divisible(shape)
    ensures ranges == FromZero(Takes(shape, limit))
  {
    ranges := [];
    var i := |shape|;
    while i > 0
      invariant 0 <= i <= |shape|
      invariant Reverse(ranges) == FromZero(Takes(shape[i..], limit))
    {
      i := i - 1;
      ghost var rest := Takes(shape[i + 1..], limit);
      assert shape[i..][1..] == shape[i + 1..];
      var take;
      if i == |shape| - 1 {
        take := Min(limit, shape[i]);
        assert shape[i + 1..] == [];
        CeilDivOne(limit);
      } else {
        ProductPositive(shape[i + 1..]);
        take := Min(CeilDiv(limit, Product(shape[i + 1..])), shape[i]);
      }
      assert Takes(shape[i..], limit) == [take] + rest;
      ReverseSnoc(ranges, (0, take));
      assert [(0, take)] + FromZero(rest) == FromZero([take] + rest);
      ranges := ranges + [(0, take)];
    }
    assert shape[0..] == shape;
    ranges := Reverse(ranges);
  }

  /** `calculate_coord_limits`: the same extents, filled from the first dimension on. */
  method CoordLimits(sizes: seq<nat>, limit: nat) returns (limits: seq<nat>)
    ensures |limits| == |sizes|
    ensures forall k :: 0 <= k < |sizes| ==> limits[k] == Min(CeilDiv(limit, InnerSize(sizes, k)), sizes[k])
    ensures Divisible(sizes) ==> limits == Takes(sizes, limit)
  {
    limits := [];
    for i := 0 to |sizes|
      invariant |limits| == i
      invariant forall k :: 0 <= k < i ==> limits[k] == Min(CeilDiv(limit, InnerSize(sizes, k)), sizes[k])
    {
      limits := limits + [Min(CeilDiv(limit, InnerSize(sizes, i)), sizes[i])];
    }
    if Divisible(sizes) {
      forall k | 0 <= k < |sizes| ensures limits[k] == Takes(sizes, limit)[k] { TakesAt(sizes, limit, k); }
    }
  }

  lemma {:induction false} TakesAt(sizes: seq<nat>, limit: nat, k: nat)
    requires Divisible(sizes) && k < |sizes|
    ensures Takes(sizes, limit)[k] == Min(CeilDiv(limit, InnerSize(sizes, k)), sizes[k])
  {
    if k == 0 {
      ProductPositive(sizes[1..]);
    } else {
      TakesAt(sizes[1..], limit, k - 1);
      assert sizes[1..][k..] == sizes[k + 1..];
    }
  }

  /**
   The extents are the least box from 0 that holds the first `limit` rows: along each dimension they
   hold the indices of those rows, and the last index they hold is on one of them.
   */
  lemma TakesLeast(shape: seq<nat>, limit: nat, k: nat)
    requires Positive(shape) && k < |shape|
    ensures var t, rows := Takes(shape, limit)[k], Min(limit, Product(shape));
            && (forall r :: 0 <= r < rows ==> CoordKey(r, k, shape) < t)
            && (t > 0 ==> exists r :: 0 <= r < rows && CoordKey(r, k, shape) == t - 1)
  {
    var p, n := InnerSize(shape, k), shape[k];
    TakesAt(shape, limit, k);
    forall r | 0 <= r < Min(limit, Product(shape)) ensures CoordKey(r, k, shape) < Takes(shape, limit)[k] {
      KeyBelow(r, p, n, limit);
    }
    if Takes(shape, limit)[k] > 0 {
      BlocksFit(shape, k);
      var r := LastKey(p, n, limit, Product(shape));
      assert CoordKey(r, k, shape) == Takes(shape, limit)[k] - 1;
    }
  }

  lemma KeyBelow(r: nat, p: nat, n: nat, limit: nat)
    requires p > 0 && n > 0 && r < limit
    ensures (r / p) % n < Min(CeilDiv(limit, p), n)
  {
    CeilDivBounds(limit, p);
    DivBetween(r, p, 0, CeilDiv(limit, p));
    if r / p < n { SmallMod(r / p, n); }
  }

  lemma LastKey(p: nat, n: nat, limit: nat, total: nat) returns (r: nat)
    requires p > 0 && n * p <= total && Min(CeilDiv(limit, p), n) > 0
    ensures r < Min(limit, total) && (r / p) % n == Min(CeilDiv(limit, p), n) - 1
  {
    var q := CeilDiv(limit, p);
    var last := Min(q, n) - 1;
    r := last * p;
    MultipleKey(last, p, n);
    assert r < limit by {
      CeilDivBounds(limit, p);
      MulMono(last, q - 1, p);
    }
    assert r < total by {
      MulMono(last, n - 1, p);
      assert n * p == (n - 1) * p + p;
    }
  }

  lemma MultipleKey(key: nat, p: nat, n: nat)
    requires p > 0 && key < n
    ensures (key * p / p) % n == key
  {
    assert (key + 1) * p == key * p + p;
    DivUnique(key * p, p, key);
    SmallMod(key, n);
  }

  /** One whole run of coordinate `k` fits in the grid. */
  lemma {:induction false} BlocksFit(shape: seq<nat>, k: nat)
    requires Positive(shape) && k < |shape|
    ensures shape[k] * InnerSize(shape, k) <= Product(shape)
  {
    ProductPositive(shape[k + 1..]);
    if k > 0 {
      BlocksFit(shape[1..], k - 1);
      assert shape[1..][k..] == shape[k + 1..];
      MulMono(1, shape[0], Product(shape[1..]));
    }
  }

  // ---------------------------------------------------------------------------------------------
  // The prefix property
  // ---------------------------------------------------------------------------------------------

  /** All rows of a grid as index tuples, in row-major order. */
  ghost function Rows(sizes: seq<nat>): (rows: seq<seq<nat>>)
    ensures |rows| == Product(sizes)
    ensures Positive(sizes) ==> forall r :: 0 <= r < |rows| ==> rows[r] == Unflatten(r, sizes)
  {
    if Positive(sizes) then seq(Product(sizes), (r: nat) => Unflatten(r, sizes))
    else ProductZero(sizes); []
  }

  /** A limit that reaches the whole grid takes the whole grid. */
  lemma {:induction false} TakesAll(shape: seq<nat>, limit: nat)
    requires Positive(shape) && limit >= Product(shape)
    ensures Takes(shape, limit) == shape
  {
    if shape != [] {
      var p := Product(shape[1..]);
      ProductPositive(shape[1..]);
      MulMono(1, shape[0], p);
      TakesAll(shape[1..], limit);
      EnoughSlices(limit, p, shape[0]);
    }
  }

  lemma EnoughSlices(limit: nat, p: nat, n: nat)
    requires p > 0 && n > 0 && limit >= n * p
    ensures CeilDiv(limit, p) >= n
  {
    assert (n - 1) * p == n * p - p;
    CeilDivLeast(limit, p, n - 1);
  }

  lemma OneSlice(limit: nat, p: nat)
    requires 0 < limit <= p
    ensures CeilDiv(limit, p) == 1
  {
    CeilDivUnique(limit, p, 1);
  }

  lemma {:induction false} TakesBelow(shape: seq<nat>, limit: nat)
    requires Positive(shape)
    ensures Product(Takes(shape, limit)) <= Product(shape)
  {
    if shape != [] {
      TakesBelow(shape[1..], limit);
      var t := Takes(shape, limit);
      assert t[1..] == Takes(shape[1..], limit);
      MulMono(Product(t[1..]), Product(shape[1..]), t[0]);
      MulMono(t[0], shape[0], Product(shape[1..]));
    }
  }

  /** The sub-box holds at least as many rows as the limit asks for, or all there are. */
  lemma {:induction false} TakesEnough(shape: seq<nat>, limit: nat)
    requires Positive(shape)
    ensures Product(Takes(shape, limit)) >= Min(limit, Product(shape))
  {
    if shape != [] && limit > 0 {
      var p, t := Product(shape[1..]), Takes(shape, limit);
      assert t[1..] == Takes(shape[1..], limit);
      ProductPositive(shape[1..]);
      TakesEnough(shape[1..], limit);
      if limit >= p {
        TakesAll(shape[1..], limit);
        CeilDivBounds(limit, p);
      } else {
        OneSlice(limit, p);
        assert t[0] == 1;
      }
    }
  }

  /** Row `r` of the sub-box is row `r` of the whole grid. */
  lemma {:induction false} TakesPrefix(shape: seq<nat>, limit: nat, r: nat)
    requires Positive(shape) && Positive(Takes(shape, limit)) && r < Product(Takes(shape, limit))
    ensures Unflatten(r, Takes(shape, limit)) == Unflatten(r, shape)
  {
    if shape != [] {
      var p, t := Product(shape[1..]), Takes(shape, limit);
      var tail := Takes(shape[1..], limit);
      assert t[1..] == tail;
      assert Positive(tail) by { assert forall k :: 0 <= k < |tail| ==> tail[k] == t[k + 1]; }
      ProductPositive(shape[1..]);
      UnflattenCons(r, t);
      UnflattenCons(r, shape);
      if limit >= p {
        TakesAll(shape[1..], limit);
        SameHead(r, p, t[0], shape[0]);
      } else {
        PositiveLimit(shape, limit);
        OneSlice(limit, p);
        assert t[0] == 1 && Product(t) == Product(tail);
        TakesBelow(shape[1..], limit);
        TakesPrefix(shape[1..], limit, r);
        FirstSlice(r, p, shape[0]);
        FirstSlice(r, Product(tail), 1);
      }
    }
  }

  lemma SameHead(r: nat, p: nat, t: nat, n: nat)
    requires p > 0 && r < t * p && t <= n
    ensures (r / p) % t == (r / p) % n
  {
    RowParts(r, p, t);
    SmallMod(r / p, n);
  }

  lemma FirstSlice(r: nat, p: nat, n: nat)
    requires r < p && n > 0
    ensures (r / p) % n == 0
  {
    DivUnique(r, p, 0);
    SmallMod(0, n);
  }

  lemma PositiveLimit(shape: seq<nat>, limit: nat)
    requires shape != [] && Positive(shape) && Positive(Takes(shape, limit))
    ensures limit > 0
  {
    ProductPositive(shape[1..]);
    CeilDivUnique(0, Product(shape[1..]), 0);
    assert Takes(shape, limit)[0] == Min(CeilDiv(limit, Product(shape[1..])), shape[0]);
  }

  function Truncate<T>(s: seq<T>, n: nat): seq<T> {
    if n < |s| then s[..n] else s
  }

  lemma EmptyTakes(shape: seq<nat>, limit: nat)
    requires Divisible(shape) && !Positive(shape)
    ensures Product(shape) == 0 == Product(Takes(shape, limit))
  {
    assert forall k :: 0 < k < |shape| ==> shape[k] == shape[1..][k - 1];
    assert shape[0] == 0;
    assert Takes(shape, limit)[0] == 0;
  }

  /**
   LIMIT refinement: the sub-box, read in row-major order, is a prefix of the whole scan that
   holds enough rows, so reading it and truncating equals truncating the whole scan.
   */
  lemma LimitRefines(shape: seq<nat>, limit: nat)
    requires Divisible(shape)
    ensures Rows(Takes(shape, limit)) <= Rows(shape)
    ensures |Rows(Takes(shape, limit))| >= Min(limit, Product(shape))
    ensures Truncate(Rows(Takes(shape, limit)), limit) == Truncate(Rows(shape), limit)
  {
    var t := Takes(shape, limit);
    if !Positive(shape) {
      EmptyTakes(shape, limit);
      return;
    }
    TakesBelow(shape, limit);
    TakesEnough(shape, limit);
    if Positive(t) {
      forall r | 0 <= r < |Rows(t)| ensures Rows(t)[r] == Rows(shape)[r] {
        TakesPrefix(shape, limit, r);
      }
    }
  }
}
