/** Row-major flattening: row numbers, index tuples and coordinate keys. */
module RowMajor {
  import opened Arithmetic

  function Product(sizes: seq<nat>): nat {
    if sizes == [] then 1 else sizes[0] * Product(sizes[1..])
  }

  predicate Positive(sizes: seq<nat>) {
    forall k :: 0 <= k < |sizes| ==> sizes[k] > 0
  }

  predicate InGrid(idx: seq<nat>, sizes: seq<nat>) {
    |idx| == |sizes| && forall k :: 0 <= k < |sizes| ==> idx[k] < sizes[k]
  }

  /** Rows below one step of coordinate `k`; a zero product counts as one. */
  function InnerSize(sizes: seq<nat>, k: nat): (r: nat)
    requires k < |sizes|
    ensures r > 0
  {
    var inner := Product(sizes[k + 1..]);
    if inner == 0 then 1 else inner
  }

  /** `compute_coord_key`: the index of coordinate `k` on a row. */
  function CoordKey(row: nat, k: nat, sizes: seq<nat>): nat
    requires k < |sizes| && sizes[k] > 0
  {
    (row / InnerSize(sizes, k)) % sizes[k]
  }

  /** The index tuple of a row. */
  function Unflatten(row: nat, sizes: seq<nat>): (idx: seq<nat>)
    requires Positive(sizes)
    ensures |idx| == |sizes| && forall k :: 0 <= k < |sizes| ==> idx[k] == CoordKey(row, k, sizes)
  {
    seq(|sizes|, k requires 0 <= k < |sizes| => CoordKey(row, k, sizes))
  }

  /** The row of an index tuple. */
  function Flat(idx: seq<nat>, sizes: seq<nat>): nat
    requires |idx| == |sizes|
  {
    if idx == [] then 0 else idx[0] * Product(sizes[1..]) + Flat(idx[1..], sizes[1..])
  }

  /** The reverse loop of `indices_to_flat_index`. */
  method IndicesToFlat(idx: seq<nat>, chunksPerDim: seq<nat>) returns (flat: nat)
    requires |idx| <= |chunksPerDim|
    ensures flat == Flat(idx, chunksPerDim[..|idx|])
  {
    var sizes := chunksPerDim[..|idx|];
    flat := 0;
    var stride := 1;
    var i := |idx|;
    while i > 0
      invariant 0 <= i <= |idx|
      invariant stride == Product(sizes[i..])
      invariant flat == Flat(idx[i..], sizes[i..])
    {
      i := i - 1;
      assert idx[i..][1..] == idx[i + 1..] && sizes[i..][1..] == sizes[i + 1..];
      flat := flat + idx[i] * stride;
      stride := stride * chunksPerDim[i];
    }
    assert idx[0..] == idx && sizes[0..] == sizes;
  }

  lemma {:induction false} ProductPositive(sizes: seq<nat>)
    requires Positive(sizes)
    ensures Product(sizes) > 0
  {
    if sizes != [] {
      ProductPositive(sizes[1..]);
      MulMono(1, Product(sizes[1..]), sizes[0]);
    }
  }

  lemma {:induction false} ProductZero(sizes: seq<nat>)
    requires !Positive(sizes)
    ensures Product(sizes) == 0
  {
    if sizes[0] != 0 {
      var k :| 0 <= k < |sizes| && sizes[k] == 0;
      assert sizes[1..][k - 1] == 0;
      ProductZero(sizes[1..]);
    }
  }

  /** Keys of the inner coordinates are keys of the inner grid. */
  lemma KeyTail(row: nat, k: nat, sizes: seq<nat>)
    requires 0 < k < |sizes| && sizes[k] > 0
    ensures CoordKey(row, k, sizes) == CoordKey(row, k - 1, sizes[1..])
  {
    assert sizes[k + 1..] == sizes[1..][k..];
  }

  lemma KeyHead(row: nat, sizes: seq<nat>)
    requires sizes != [] && Positive(sizes)
    ensures Product(sizes[1..]) > 0
    ensures CoordKey(row, 0, sizes) == (row / Product(sizes[1..])) % sizes[0]
  {
    ProductPositive(sizes[1..]);
  }

  lemma DivShift(c: nat, inner: nat, f: nat)
    requires inner > 0
    ensures (c * inner + f) / inner == c + f / inner
  {
    var q := f / inner;
    DivBounds(f, inner);
    assert (c + q) * inner == c * inner + q * inner;
    assert (c + q + 1) * inner == c * inner + (q + 1) * inner;
    DivUnique(c * inner + f, inner, c + q);
  }

  lemma ModShift(m: nat, n: nat, q: nat)
    requires n > 0
    ensures (m * n + q) % n == q % n
  {
    var d := q / n;
    DivBounds(q, n);
    assert (m + d) * n == m * n + d * n && (m + d + 1) * n == m * n + (d + 1) * n;
    DivUnique(m * n + q, n, m + d);
    assert (m * n + q) % n == m * n + q - (m + d) * n;
  }

  /** Whole grids in front of a row do not change its keys. */
  lemma {:induction false} KeyShift(m: nat, f: nat, k: nat, sizes: seq<nat>)
    requires k < |sizes| && Positive(sizes)
    ensures CoordKey(m * Product(sizes) + f, k, sizes) == CoordKey(f, k, sizes)
    decreases k
  {
    if k == 0 {
      KeyShiftHead(m, f, sizes);
    } else {
      var row := m * Product(sizes) + f;
      ShiftRegroups(m, sizes);
      assert row == (m * sizes[0]) * Product(sizes[1..]) + f;
      KeyTail(row, k, sizes);
      KeyTail(f, k, sizes);
      KeyShift(m * sizes[0], f, k - 1, sizes[1..]);
    }
  }

  lemma ShiftRegroups(m: nat, sizes: seq<nat>)
    requires sizes != []
    ensures m * Product(sizes) == (m * sizes[0]) * Product(sizes[1..])
  {
    MulAssoc(m, sizes[0], Product(sizes[1..]));
  }

  lemma KeyShiftHead(m: nat, f: nat, sizes: seq<nat>)
    requires sizes != [] && Positive(sizes)
    ensures CoordKey(m * Product(sizes) + f, 0, sizes) == CoordKey(f, 0, sizes)
  {
    ShiftRegroups(m, sizes);
    ProductPositive(sizes[1..]);
    HeadShift(m * Product(sizes) + f, m, f, sizes, Product(sizes[1..]));
  }

  lemma HeadShift(row: nat, m: nat, f: nat, sizes: seq<nat>, inner: nat)
    requires sizes != [] && Positive(sizes) && inner > 0 && inner == Product(sizes[1..])
    requires row == (m * sizes[0]) * inner + f
    ensures CoordKey(row, 0, sizes) == CoordKey(f, 0, sizes)
  {
    DivShift(m * sizes[0], inner, f);
    ModShift(m, sizes[0], f / inner);
    SameHead(row, f, sizes, inner);
  }

  lemma SameHead(row: nat, f: nat, sizes: seq<nat>, inner: nat)
    requires sizes != [] && Positive(sizes) && inner > 0 && inner == Product(sizes[1..])
    requires (row / inner) % sizes[0] == (f / inner) % sizes[0]
    ensures CoordKey(row, 0, sizes) == CoordKey(f, 0, sizes)
  {
    KeyHead(row, sizes);
    KeyHead(f, sizes);
  }

  lemma UnflattenCons(row: nat, sizes: seq<nat>)
    requires sizes != [] && Positive(sizes)
    ensures Product(sizes[1..]) > 0
    ensures Unflatten(row, sizes) == [(row / Product(sizes[1..])) % sizes[0]] + Unflatten(row, sizes[1..])
  {
    KeyHead(row, sizes);
    forall k | 0 < k < |sizes| ensures Unflatten(row, sizes)[k] == Unflatten(row, sizes[1..])[k - 1] {
      KeyTail(row, k, sizes);
    }
  }

  lemma UnflattenShift(m: nat, f: nat, sizes: seq<nat>)
    requires Positive(sizes)
    ensures Unflatten(m * Product(sizes) + f, sizes) == Unflatten(f, sizes)
  {
    forall k | 0 <= k < |sizes|
      ensures Unflatten(m * Product(sizes) + f, sizes)[k] == Unflatten(f, sizes)[k]
    {
      KeyShift(m, f, k, sizes);
    }
  }

  lemma FlatStep(i: nat, f: nat, p: nat, n: nat)
    requires f < p && i < n
    ensures i * p + f < n * p
    ensures (i * p + f) / p == i && i % n == i
  {
    assert (i + 1) * p == i * p + p;
    MulMono(i + 1, n, p);
    DivUnique(i * p + f, p, i);
    SmallMod(i, n);
  }

  /** Flattening an index tuple of the grid and taking the row's keys gives the tuple back. */
  lemma {:induction false} KeysInvertFlat(idx: seq<nat>, sizes: seq<nat>)
    requires InGrid(idx, sizes)
    ensures Positive(sizes) && Flat(idx, sizes) < Product(sizes)
    ensures Unflatten(Flat(idx, sizes), sizes) == idx
  {
    if idx != [] {
      var p, f := Product(sizes[1..]), Flat(idx[1..], sizes[1..]);
      KeysInvertFlat(idx[1..], sizes[1..]);
      assert Positive(sizes) by {
        assert forall k :: 0 < k < |sizes| ==> sizes[k] == sizes[1..][k - 1];
      }
      FlatStep(idx[0], f, p, sizes[0]);
      UnflattenCons(Flat(idx, sizes), sizes);
      UnflattenShift(idx[0], f, sizes[1..]);
      assert idx == [idx[0]] + idx[1..];
    }
  }

  lemma SmallMod(x: nat, n: nat)
    requires x < n
    ensures x % n == x
  {
  }

  /** Every row of the grid has an index tuple in the grid, which flattens back to the row. */
  lemma {:induction false} FlatInvertsKeys(row: nat, sizes: seq<nat>)
    requires Positive(sizes) && row < Product(sizes)
    ensures InGrid(Unflatten(row, sizes), sizes)
    ensures Flat(Unflatten(row, sizes), sizes) == row
  {
    if sizes != [] {
      var p := Product(sizes[1..]);
      UnflattenCons(row, sizes);
      RowParts(row, p, sizes[0]);
      var q, f := row / p, row % p;
      UnflattenShift(q, f, sizes[1..]);
      FlatInvertsKeys(f, sizes[1..]);
      var idx := Unflatten(row, sizes);
      assert idx[0] == q && idx[1..] == Unflatten(f, sizes[1..]);
      assert forall k :: 0 < k < |sizes| ==> idx[k] == idx[1..][k - 1] && sizes[k] == sizes[1..][k - 1];
    }
  }

  lemma RowParts(row: nat, p: nat, n: nat)
    requires p > 0 && row < n * p
    ensures row == (row / p) * p + row % p && row % p < p
    ensures row / p < n && (row / p) % n == row / p
  {
    DivBetween(row, p, 0, n);
    SmallMod(row / p, n);
  }

  /** Rows and index tuples correspond one to one. */
  lemma RowsBijective(a: nat, b: nat, sizes: seq<nat>)
    requires Positive(sizes) && a < Product(sizes) && b < Product(sizes)
    ensures Unflatten(a, sizes) == Unflatten(b, sizes) <==> a == b
  {
    FlatInvertsKeys(a, sizes);
    FlatInvertsKeys(b, sizes);
  }

  /** Different chunks of the grid have different reference positions. */
  lemma FlatInjective(a: seq<nat>, b: seq<nat>, sizes: seq<nat>)
    requires InGrid(a, sizes) && InGrid(b, sizes)
    ensures Flat(a, sizes) == Flat(b, sizes) <==> a == b
  {
    KeysInvertFlat(a, sizes);
    KeysInvertFlat(b, sizes);
  }

  /** Row-major order is lexicographic order: the last coordinate varies fastest. */
  ghost predicate LexLess(a: seq<nat>, b: seq<nat>)
    requires |a| == |b|
  {
    a != [] && (a[0] < b[0] || (a[0] == b[0] && LexLess(a[1..], b[1..])))
  }

  lemma {:induction false} FlatOrdered(a: seq<nat>, b: seq<nat>, sizes: seq<nat>)
    requires InGrid(a, sizes) && InGrid(b, sizes)
    ensures Flat(a, sizes) < Flat(b, sizes) <==> LexLess(a, b)
  {
    if a != [] {
      var p := Product(sizes[1..]);
      KeysInvertFlat(a[1..], sizes[1..]);
      KeysInvertFlat(b[1..], sizes[1..]);
      FlatOrdered(a[1..], b[1..], sizes[1..]);
      LeadDecides(a[0], b[0], p, Flat(a[1..], sizes[1..]), Flat(b[1..], sizes[1..]));
    }
  }

  lemma LeadDecides(i: nat, j: nat, p: nat, f: nat, g: nat)
    requires f < p && g < p
    ensures i * p + f < j * p + g <==> i < j || (i == j && f < g)
  {
    if i < j {
      MulMono(i + 1, j, p);
    } else if j < i {
      MulMono(j + 1, i, p);
    }
  }
}
