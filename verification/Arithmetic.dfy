/** Ceiling division and the few non-linear facts the planner's arithmetic rests on. */
module Arithmetic {

  function Min(a: int, b: int): int { if a <= b then a else b }

  function Max(a: int, b: int): int { if a >= b then a else b }

  /** Multiplication of naturals. */
  function Times(a: nat, b: nat): nat {
    MulMono(0, a, b);
    a * b
  }

  /** Rust's `div_ceil` on unsigned integers. */
  function CeilDiv(a: nat, b: nat): nat
    requires b > 0
  {
    (a + b - 1) / b
  }

  lemma CeilDivBounds(a: nat, b: nat)
    requires b > 0
    ensures (CeilDiv(a, b) - 1) * b < a <= CeilDiv(a, b) * b
    ensures a > 0 ==> CeilDiv(a, b) > 0
  {
    var x := a + b - 1;
    DivBounds(x, b);
    assert (x / b - 1) * b == (x / b) * b - b;
    assert (x / b + 1) * b == (x / b) * b + b;
  }

  lemma MulMono(a: int, b: int, c: int)
    requires a <= b && 0 <= c
    ensures a * c <= b * c && c * a <= c * b
  {
  }

  lemma MulAssoc(a: int, b: int, c: int)
    ensures (a * b) * c == a * (b * c)
  {
  }

  lemma DivUnique(x: int, d: int, q: int)
    requires d > 0 && q * d <= x < (q + 1) * d
    ensures x / d == q
  {
    var r := x / d;
    assert r * d <= x < (r + 1) * d;
    if r < q { MulMono(r + 1, q, d); }
    if r > q { MulMono(q + 1, r, d); }
  }

  lemma DivBounds(x: int, d: int)
    requires d > 0
    ensures (x / d) * d <= x < (x / d + 1) * d
  {
  }

  lemma DivMono(x: int, y: int, d: int)
    requires d > 0 && x <= y
    ensures x / d <= y / d
  {
    if x / d > y / d {
      DivBounds(x, d);
      DivBounds(y, d);
      MulMono(y / d + 1, x / d, d);
    }
  }

  /** `x / d` lies between the chunk boundaries that enclose `x`. */
  lemma DivBetween(x: int, d: int, lo: int, hi: int)
    requires d > 0
    ensures lo * d <= x <==> lo <= x / d
    ensures x < hi * d <==> x / d < hi
  {
    DivBounds(x, d);
    if lo <= x / d { MulMono(lo, x / d, d); } else { MulMono(x / d + 1, lo, d); }
    if x / d < hi { MulMono(x / d + 1, hi, d); } else { MulMono(hi, x / d, d); }
  }

  lemma CeilDivUnique(a: nat, b: nat, q: nat)
    requires b > 0 && (q - 1) * b < a <= q * b
    ensures CeilDiv(a, b) == q
  {
    var r := CeilDiv(a, b);
    CeilDivBounds(a, b);
    if r < q { MulMono(r, q - 1, b); }
    if r > q { MulMono(q, r - 1, b); }
  }

  /** The least `q` with `a <= q * b`. */
  lemma CeilDivLeast(a: nat, b: nat, q: nat)
    requires b > 0
    ensures a <= q * b <==> CeilDiv(a, b) <= q
  {
    var r := CeilDiv(a, b);
    CeilDivBounds(a, b);
    if r <= q { MulMono(r, q, b); } else { MulMono(q, r - 1, b); }
  }

  /** Splitting `n` things into groups of `ceil(n / p)` needs at most `p` groups. */
  lemma CeilDivTwice(n: nat, p: nat)
    requires p > 0 && n > 0
    ensures CeilDiv(n, p) > 0
    ensures CeilDiv(n, CeilDiv(n, p)) <= p
  {
    var per := CeilDiv(n, p);
    CeilDivBounds(n, p);
    assert n <= per * p == p * per;
    CeilDivLeast(n, per, p);
  }

  lemma MulCancel(a: int, b: int, c: int)
    requires 0 < c
    ensures a * c <= b * c <==> a <= b
    ensures a * c == b * c <==> a == b
  {
    if a <= b { MulMono(a, b, c); } else { MulMono(b + 1, a, c); }
  }
}
