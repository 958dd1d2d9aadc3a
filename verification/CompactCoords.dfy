/** Arithmetic coordinate encodings, which stand for the vector they expand to. */
module CompactCoords {
  import opened Options
  import opened Arithmetic

  /** `value[i] = first + i * step` for `i < len`. */
  datatype Encoding = ArithmeticInt(first: int, step: int, len: nat) {
    function ValueAt(i: nat): int { first + i * step }

    function Expand(): (v: seq<int>)
      ensures |v| == len && forall i :: 0 <= i < len ==> v[i] == ValueAt(i)
    {
      seq(len, i requires 0 <= i < len => ValueAt(i))
    }

    function Slice(start: nat, end: nat): Encoding
      requires start <= end
    {
      ArithmeticInt(first + start * step, step, end - start)
    }

    function Gather(indices: seq<nat>): (v: seq<int>)
      ensures |v| == |indices| && forall i :: 0 <= i < |indices| ==> v[i] == ValueAt(indices[i])
    {
      seq(|indices|, i requires 0 <= i < |indices| => ValueAt(indices[i]))
    }
  }

  // ---------------------------------------------------------------------------------------------
  // Detection, slicing, gathering
  // ---------------------------------------------------------------------------------------------

  ghost predicate IsArithmetic(values: seq<int>, first: int, step: int) {
    forall i :: 0 <= i < |values| ==> values[i] == first + i * step
  }

  /** `try_as_compact_i64`: succeeds exactly on the non-empty arithmetic sequences. */
  method TryAsCompact(values: seq<int>) returns (r: Option<Encoding>)
    ensures r.Some? ==> r.value.Expand() == values && (|values| == 1 ==> r.value.step == 0)
    ensures r.Some? <==> values != [] && exists first, step :: IsArithmetic(values, first, step)
  {
    if values == [] { return None; }
    if |values| == 1 {
      assert IsArithmetic(values, values[0], 0);
      return Some(ArithmeticInt(values[0], 0, 1));
    }
    var first, step := values[0], values[1] - values[0];
    for i := 0 to |values|
      invariant forall k :: 0 <= k < i ==> values[k] == first + k * step
    {
      if values[i] != first + i * step {
        NotArithmetic(values, i);
        return None;
      }
    }
    assert IsArithmetic(values, first, step);
    r := Some(ArithmeticInt(first, step, |values|));
  }

  lemma NotArithmetic(values: seq<int>, i: nat)
    requires 2 <= |values| && i < |values| && values[i] != values[0] + i * (values[1] - values[0])
    ensures !exists first, step :: IsArithmetic(values, first, step)
  {
    if first, step :| IsArithmetic(values, first, step) {
      assert values[0] == first + 0 * step && values[1] == first + 1 * step;
      assert values[i] == first + i * step;
    }
  }

  /** Slicing the encoding slices the vector. */
  lemma SliceExpands(c: Encoding, start: nat, end: nat)
    requires start <= end <= c.len
    ensures c.Slice(start, end).Expand() == c.Expand()[start..end]
  {
    forall i | 0 <= i < end - start ensures c.Slice(start, end).Expand()[i] == c.Expand()[start..end][i] {
      assert c.first + start * c.step + i * c.step == c.first + (start + i) * c.step;
    }
  }

  /** Gathering from the encoding gathers from the vector. */
  lemma GatherExpands(c: Encoding, indices: seq<nat>)
    requires forall k :: 0 <= k < |indices| ==> indices[k] < c.len
    ensures |c.Gather(indices)| == |indices|
    ensures forall k :: 0 <= k < |indices| ==> c.Gather(indices)[k] == c.Expand()[indices[k]]
  {
  }

  // ---------------------------------------------------------------------------------------------
  // Searching a vector
  // ---------------------------------------------------------------------------------------------

  /** The predicate whose first failure a partition point finds. */
  datatype Cut = Less(t: int) | AtMost(t: int) | Greater(t: int) | AtLeast(t: int) {
    predicate Holds(x: int) {
      match this
      case Less(_) => x < t
      case AtMost(_) => x <= t
      case Greater(_) => x > t
      case AtLeast(_) => x >= t
    }
  }

  /** The first index whose value fails the cut. */
  function PartitionPoint(v: seq<int>, cut: Cut): (k: nat)
    ensures k <= |v|
    ensures forall i :: 0 <= i < k ==> cut.Holds(v[i])
    ensures k < |v| ==> !cut.Holds(v[k])
  {
    if v == [] || !cut.Holds(v[0]) then 0 else 1 + PartitionPoint(v[1..], cut)
  }

  lemma PartitionPointIs(v: seq<int>, cut: Cut, k: nat)
    requires k <= |v| && (forall i :: 0 <= i < k ==> cut.Holds(v[i])) && (k < |v| ==> !cut.Holds(v[k]))
    ensures PartitionPoint(v, cut) == k
  {
  }

  /** The first index holding `t`. */
  function FirstIndex(v: seq<int>, t: int): (r: Option<nat>)
    ensures r.Some? ==> r.value < |v| && v[r.value] == t && forall i :: 0 <= i < r.value ==> v[i] != t
    ensures r.None? ==> t !in v
  {
    if v == [] then None
    else if v[0] == t then Some(0)
    else
      var rest := FirstIndex(v[1..], t);
      if rest.Some? then Some(rest.value + 1) else None
  }

  // ---------------------------------------------------------------------------------------------
  // Closed forms
  // ---------------------------------------------------------------------------------------------

  function Ceil(x: real): int { -((-x).Floor) }

  function Ratio(d: int, s: int): real
    requires s != 0
  {
    d as real / s as real
  }

  function Clamp(i: int, len: nat): nat { if i < 0 then 0 else if i > len then len else i }

  /** The distance from 1.0 to the next larger 64-bit float. */
  const EPSILON: real := 1.0 / 4503599627370496.0

  function LowerBound(c: Encoding, t: int): nat {
    if c.step == 0 then (if c.first >= t then 0 else c.len)
    else Clamp(Ceil(Ratio(t - c.first, c.step)), c.len)
  }

  function UpperBound(c: Encoding, t: int): nat {
    if c.step == 0 then (if c.first <= t then c.len else 0)
    else Clamp(Ratio(t - c.first, c.step).Floor + 1, c.len)
  }

  datatype BoundKind = FirstLeq | FirstLt

  /** The cut a descending bound looks for. */
  function DescendingCut(t: int, kind: BoundKind, inclusive: bool): Cut {
    match (kind, inclusive)
    case (FirstLeq, true) => Greater(t)
    case (FirstLeq, false) => AtLeast(t)
    case (FirstLt, true) => AtLeast(t)
    case (FirstLt, false) => Greater(t)
  }

  function DescendingIndex(diff: real, kind: BoundKind, inclusive: bool, eps: real): int {
    match (kind, inclusive)
    case (FirstLeq, true) => Ceil(diff)
    case (FirstLeq, false) => Ceil(diff + eps)
    case (FirstLt, true) => diff.Floor + 1
    case (FirstLt, false) => Ceil(diff)
  }

  function DescendingBound(c: Encoding, t: int, kind: BoundKind, inclusive: bool, eps: real): nat {
    if c.step == 0 then
      match (kind, inclusive)
      case (FirstLeq, true) => if c.first <= t then 0 else c.len
      case (FirstLeq, false) => if c.first < t then 0 else c.len
      case (FirstLt, true) => if c.first >= t then c.len else 0
      case (FirstLt, false) => if c.first > t then c.len else 0
    else
      Clamp(DescendingIndex(Ratio(c.first - t, -c.step), kind, inclusive, eps), c.len)
  }

  /** A negative quotient casts to a huge unsigned index, beyond every length. */
  function CompactIndex(c: Encoding, t: int): Option<nat> {
    if c.step == 0 then (if t == c.first then Some(0) else None)
    else if (t - c.first) % c.step != 0 then None
    else
      var index := (t - c.first) / c.step;
      if 0 <= index < c.len then Some(index) else None
  }

  // ---------------------------------------------------------------------------------------------
  // The closed forms agree with a search of the expanded vector
  // ---------------------------------------------------------------------------------------------

  lemma DivAdd(x: real, y: real, s: real)
    requires s > 0.0
    ensures (x + y) / s == x / s + y / s
  {
  }

  lemma DivSelf(x: real, s: real)
    requires s > 0.0
    ensures (x * s) / s == x
  {
  }

  lemma DivOrder(x: real, y: real, s: real)
    requires s > 0.0
    ensures x <= y ==> x / s <= y / s
    ensures x > 0.0 ==> x / s > 0.0
  {
  }

  lemma RatioAdd(a: int, b: int, s: int)
    requires s > 0
    ensures Ratio(a + b, s) == Ratio(a, s) + Ratio(b, s)
  {
    DivAdd(a as real, b as real, s as real);
  }

  lemma RatioWhole(f: int, s: int)
    requires s > 0
    ensures Ratio(f * s, s) == f as real
  {
    DivSelf(f as real, s as real);
    assert (f * s) as real == f as real * s as real;
  }

  /** A remainder's fraction lies in [0, 1 - 1/s], and is 0 only for remainder 0. */
  lemma RatioOfRemainder(r: int, s: int)
    requires s > 0 && 0 <= r < s
    ensures r == 0 ==> Ratio(r, s) == 0.0
    ensures r > 0 ==> Ratio(r, s) > 0.0
    ensures 0.0 < Ratio(1, s)
    ensures Ratio(s - 1, s) == 1.0 - Ratio(1, s)
    ensures Ratio(r, s) <= 1.0 - Ratio(1, s)
  {
    RatioAdd(s - 1, 1, s);
    RatioWhole(1, s);
    DivOrder(r as real, (s - 1) as real, s as real);
    DivOrder(1.0, 1.0, s as real);
  }

  /** Floor and ceiling of an exact quotient, with and without an epsilon. */
  lemma RatioRounds(d: int, s: int, f: int, r: int, eps: real)
    requires s > 0 && d == f * s + r && 0 <= r < s
    ensures Ratio(d, s).Floor == f
    ensures Ceil(Ratio(d, s)) == if r == 0 then f else f + 1
    ensures 0.0 < eps <= Ratio(1, s) ==> Ceil(Ratio(d, s) + eps) == f + 1
  {
    RatioAdd(f * s, r, s);
    RatioWhole(f, s);
    RatioOfRemainder(r, s);
  }

  /** `i` is at or past the ceiling exactly when `i * s` reaches `d`. */
  lemma CeilReaches(d: int, s: int, i: int)
    requires s > 0
    ensures Ceil(Ratio(d, s)) <= i <==> d <= i * s
  {
    var f, r := d / s, d % s;
    RatioRounds(d, s, f, r, 0.0);
    if r == 0 { MulCancel(f, i, s); } else { DivBetween(d, s, i, i); }
    assert i * s == d ==> r == 0 by { if i * s == d { ExactQuotient(i, s); } }
  }

  /** `i` is at or before the floor exactly when `i * s` does not exceed `d`. */
  lemma FloorReaches(d: int, s: int, i: int)
    requires s > 0
    ensures i <= Ratio(d, s).Floor <==> i * s <= d
  {
    RatioRounds(d, s, d / s, d % s, 0.0);
    DivBetween(d, s, i, i);
  }

  /** Adding a small epsilon before the ceiling makes the bound exclusive. */
  lemma EpsilonCeil(d: int, s: int, eps: real)
    requires s > 0 && 0.0 < eps <= Ratio(1, s)
    ensures Ceil(Ratio(d, s) + eps) == Ratio(d, s).Floor + 1
  {
    RatioRounds(d, s, d / s, d % s, eps);
  }

  lemma LowerBoundAgrees(c: Encoding, t: int)
    requires c.step >= 0
    ensures LowerBound(c, t) == PartitionPoint(c.Expand(), Less(t))
  {
    var k := LowerBound(c, t);
    if c.step > 0 {
      forall i: nat | i < c.len ensures c.ValueAt(i) < t <==> i < Ceil(Ratio(t - c.first, c.step)) {
        CeilReaches(t - c.first, c.step, i);
      }
    }
    PartitionPointIs(c.Expand(), Less(t), k);
  }

  lemma UpperBoundAgrees(c: Encoding, t: int)
    requires c.step >= 0
    ensures UpperBound(c, t) == PartitionPoint(c.Expand(), AtMost(t))
  {
    var k := UpperBound(c, t);
    if c.step > 0 {
      forall i: nat | i < c.len ensures c.ValueAt(i) <= t <==> i <= Ratio(t - c.first, c.step).Floor {
        FloorReaches(t - c.first, c.step, i);
      }
    }
    PartitionPointIs(c.Expand(), AtMost(t), k);
  }

  /** Where the descending closed form puts index `i`. */
  lemma DescendingReaches(c: Encoding, t: int, kind: BoundKind, inclusive: bool, eps: real, i: nat)
    requires c.step < 0 && 0.0 < eps <= Ratio(1, -c.step)
    ensures i < DescendingIndex(Ratio(c.first - t, -c.step), kind, inclusive, eps)
            <==> DescendingCut(t, kind, inclusive).Holds(c.ValueAt(i))
  {
    var d, s := c.first - t, -c.step;
    CeilReaches(d, s, i);
    FloorReaches(d, s, i);
    EpsilonCeil(d, s, eps);
    assert i * s == -(i * c.step);
  }

  lemma DescendingBoundAgrees(c: Encoding, t: int, kind: BoundKind, inclusive: bool, eps: real)
    requires c.step <= 0 && (c.step < 0 ==> 0.0 < eps <= Ratio(1, -c.step))
    ensures DescendingBound(c, t, kind, inclusive, eps) == PartitionPoint(c.Expand(), DescendingCut(t, kind, inclusive))
  {
    var k, cut := DescendingBound(c, t, kind, inclusive, eps), DescendingCut(t, kind, inclusive);
    if c.step < 0 {
      forall i: nat | i < c.len
        ensures i < DescendingIndex(Ratio(c.first - t, -c.step), kind, inclusive, eps) <==> cut.Holds(c.ValueAt(i))
      {
        DescendingReaches(c, t, kind, inclusive, eps, i);
      }
    }
    PartitionPointIs(c.Expand(), cut, k);
  }

  /** The exclusive descending bound is right for every literal exactly when `eps <= 1 / |step|`. */
  lemma EpsilonIff(c: Encoding, eps: real)
    requires c.step < 0 && c.len >= 2 && 0.0 < eps
    ensures (forall t :: DescendingBound(c, t, FirstLeq, false, eps) == PartitionPoint(c.Expand(), AtLeast(t)))
            <==> eps <= Ratio(1, -c.step)
  {
    var s := -c.step;
    if eps <= Ratio(1, s) {
      forall t ensures DescendingBound(c, t, FirstLeq, false, eps) == PartitionPoint(c.Expand(), AtLeast(t)) {
        DescendingBoundAgrees(c, t, FirstLeq, false, eps);
      }
    } else {
      var t := c.first - (s - 1);
      EpsilonTooLarge(s, eps);
      assert c.Expand()[0] == c.first && c.Expand()[1] == c.first - s;
      PartitionPointIs(c.Expand(), AtLeast(t), 1);
      assert DescendingBound(c, t, FirstLeq, false, eps) >= 2;
    }
  }

  lemma EpsilonTooLarge(s: int, eps: real)
    requires s > 0 && eps > Ratio(1, s)
    ensures Ceil(Ratio(s - 1, s) + eps) >= 2
  {
    RatioOfRemainder(s - 1, s);
  }

  lemma CompactIndexAgrees(c: Encoding, t: int)
    requires c.len > 0 || c.step != 0
    ensures CompactIndex(c, t) == FirstIndex(c.Expand(), t)
  {
    var v := c.Expand();
    if c.step == 0 {
      assert forall i :: 0 <= i < |v| ==> v[i] == c.first;
    } else {
      var r := FirstIndex(v, t);
      if r.Some? {
        QuotientFinds(c, t, r.value);
      } else if CompactIndex(c, t).Some? {
        QuotientFound(c, t);
        assert false;
      }
    }
  }

  /** The lookup agrees for every value if and only if the encoding is not an empty constant, which answers index 0. */
  lemma CompactIndexIff(c: Encoding)
    ensures (forall t :: CompactIndex(c, t) == FirstIndex(c.Expand(), t)) <==> c.len > 0 || c.step != 0
  {
    if c.len > 0 || c.step != 0 {
      forall t ensures CompactIndex(c, t) == FirstIndex(c.Expand(), t) { CompactIndexAgrees(c, t); }
    } else {
      assert CompactIndex(c, c.first) == Some(0);
      assert FirstIndex(c.Expand(), c.first) == None;
    }
  }

  lemma QuotientFinds(c: Encoding, t: int, i: nat)
    requires c.step != 0 && i < c.len && c.ValueAt(i) == t
    ensures CompactIndex(c, t) == Some(i)
  {
    assert t - c.first == i * c.step;
    ExactQuotient(i, c.step);
  }

  lemma QuotientFound(c: Encoding, t: int)
    requires c.step != 0 && CompactIndex(c, t).Some?
    ensures CompactIndex(c, t).value < c.len && c.Expand()[CompactIndex(c, t).value] == t
  {
  }

  lemma ExactQuotient(i: int, s: int)
    requires s != 0
    ensures (i * s) % s == 0 && (i * s) / s == i
  {
    var q, r := (i * s) / s, (i * s) % s;
    assert i * s == q * s + r;
    assert r == (i - q) * s;
    NoSmallMultiple(i - q, s);
  }

  lemma NoSmallMultiple(d: int, s: int)
    requires 0 <= d * s < if s > 0 then s else -s
    ensures d == 0
  {
    var t := if s > 0 then s else -s;
    if d > 0 { MulMono(1, d, t); }
    if d < 0 { MulMono(d, -1, t); }
    assert d * s == d * t || d * s == -(d * t);
  }
}
