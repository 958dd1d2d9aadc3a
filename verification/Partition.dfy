/**
 Partition planning on one axis: cutting a surviving selection on chunk boundaries, and
 dealing the resulting partitions out to worker tasks.
 */
module Partition {
  import opened Arithmetic
  import opened Selection

  /** What one partition reads: its outer slice, and slices of further coordinates. */
  datatype PartitionSpec = PartitionSpec(outer: CoordSelection, extra: seq<(nat, CoordSelection)>) {
    ghost predicate Valid() {
      outer.Valid() && forall i :: 0 <= i < |extra| ==> extra[i].1.Valid()
    }

    /** A box is empty when any of its axes selects nothing. */
    predicate IsEmpty()
      requires outer.Range? ==> outer.start <= outer.end
      requires forall i :: 0 <= i < |extra| ==> extra[i].1.Range? ==> extra[i].1.start <= extra[i].1.end
    {
      outer.IsEmpty() || exists i :: 0 <= i < |extra| && extra[i].1.IsEmpty()
    }
  }

  function FromOuter(sel: CoordSelection): PartitionSpec { PartitionSpec(sel, []) }

  const EMPTY_SPEC := FromOuter(Range(0, 0))

  // ---------------------------------------------------------------------------------------------
  // What a split of one axis promises
  // ---------------------------------------------------------------------------------------------

  /**
   The pieces together select exactly what `sel` selects, and any two of them lie in
   different chunks, the earlier piece in the lower ones. Hence they are disjoint, and no
   chunk is read for two pieces.
   */
  ghost predicate ExactSplit(pieces: seq<CoordSelection>, sel: CoordSelection, chunk: nat)
    requires chunk > 0
  {
    && |pieces| >= 1
    && (forall i :: 0 <= i < |pieces| ==> pieces[i].Valid())
    && (forall i, x: nat :: 0 <= i < |pieces| && pieces[i].Has(x) ==> sel.Has(x))
    && (forall x: nat :: sel.Has(x) ==> exists i :: 0 <= i < |pieces| && pieces[i].Has(x))
    && ChunkSeparated(pieces, chunk)
  }

  ghost predicate ChunkSeparated(pieces: seq<CoordSelection>, chunk: nat)
    requires chunk > 0
  {
    forall i, j, x: nat, y: nat :: 0 <= i < j < |pieces| && pieces[i].Has(x) && pieces[j].Has(y) ==> x / chunk < y / chunk
  }

  // ---------------------------------------------------------------------------------------------
  // Contiguous ranges
  // ---------------------------------------------------------------------------------------------

  /** Where chunk number `i` begins. */
  function ChunkStart(chunk: nat): nat -> nat {
    (i: nat) => i * chunk
  }

  /** `[s, e)` cut from chunk `c` on, `per` chunks to a piece; `stop` is one past the last chunk. */
  function CutsFrom(c: nat, stop: nat, per: nat, at: nat -> nat, s: nat, e: nat): seq<(nat, nat)>
    requires per > 0
    decreases stop - c
  {
    if c >= stop then []
    else
      var next := Min(c + per, stop);
      [(Max(at(c), s), Min(at(next), e))] + CutsFrom(next, stop, per, at, s, e)
  }

  /** How many chunks go into one piece when `n` chunks are spread over `target` pieces. */
  function ChunksPerPiece(n: nat, target: nat): (per: nat)
    requires n > 0
    ensures per > 0
    ensures CeilDiv(n, per) <= Max(1, Min(target, n))
    ensures (per - 1) * Max(1, Min(target, n)) < n
  {
    CeilDivBounds(n, Max(1, Min(target, n)));
    CeilDivTwice(n, Max(1, Min(target, n)));
    CeilDiv(n, Max(1, Min(target, n)))
  }

  function RangeCuts(s: nat, e: nat, chunk: nat, target: nat): seq<(nat, nat)> {
    if e <= s then [(s, s)]
    else if chunk == 0 then [(s, e)]
    else
      var first := s / chunk;
      var stop := (e - 1) / chunk + 1;
      assert first < stop by { DivMono(s, e - 1, chunk); }
      CutsFrom(first, stop, ChunksPerPiece(stop - first, target), ChunkStart(chunk), s, e)
  }

  /** Consecutive non-empty slices that start at `s` and end at `e`. */
  ghost predicate Tiles(cuts: seq<(nat, nat)>, s: nat, e: nat)
  {
    && |cuts| > 0
    && cuts[0].0 == s < cuts[0].1
    && if |cuts| == 1 then cuts[0].1 == e else Tiles(cuts[1..], cuts[0].1, e)
  }

  /** Every cut but the first starts where some chunk starts. */
  ghost predicate Aligned(cuts: seq<(nat, nat)>, at: nat -> nat) {
    forall i :: 0 < i < |cuts| ==> Starts(at, cuts[i].0)
  }

  ghost predicate Starts(at: nat -> nat, x: nat) {
    exists k: nat :: at(k) == x
  }

  ghost predicate Increasing(at: nat -> nat) {
    forall i: nat, j: nat :: i < j ==> at(i) < at(j)
  }

  lemma ChunkStartIncreases(chunk: nat)
    requires chunk > 0
    ensures Increasing(ChunkStart(chunk))
  {
    forall i: nat, j: nat | i < j ensures ChunkStart(chunk)(i) < ChunkStart(chunk)(j) {
      MulMono(i + 1, j, chunk);
    }
  }

  lemma CeilDivPeel(n: nat, per: nat)
    requires per > 0 && n > 0
    ensures CeilDiv(n, per) == 1 + CeilDiv(n - Min(per, n), per)
  {
    var q := CeilDiv(n - Min(per, n), per);
    CeilDivBounds(n - Min(per, n), per);
    if n <= per {
      CeilDivUnique(0, per, 0);
    } else {
      assert q * per == (q - 1) * per + per && (q + 1) * per == q * per + per;
    }
    CeilDivUnique(n, per, q + 1);
  }

  lemma {:induction false} CutsFromLength(c: nat, stop: nat, per: nat, at: nat -> nat, s: nat, e: nat)
    requires per > 0 && c <= stop
    ensures |CutsFrom(c, stop, per, at, s, e)| == CeilDiv(stop - c, per)
    decreases stop - c
  {
    if c < stop {
      CeilDivPeel(stop - c, per);
      CutsFromLength(Min(c + per, stop), stop, per, at, s, e);
    } else {
      CeilDivUnique(0, per, 0);
    }
  }

  lemma {:induction false} CutsFromTile(c: nat, stop: nat, per: nat, at: nat -> nat, s: nat, e: nat)
    requires per > 0 && c < stop && s < e && Increasing(at)
    requires at(stop - 1) < e <= at(stop) && s < at(c + 1)
    ensures Tiles(CutsFrom(c, stop, per, at, s, e), Max(at(c), s), e)
    ensures Aligned(CutsFrom(c, stop, per, at, s, e), at)
    decreases stop - c
  {
    var next := Min(c + per, stop);
    var rest := CutsFrom(next, stop, per, at, s, e);
    var cuts := CutsFrom(c, stop, per, at, s, e);
    assert at(c) < at(next) && at(c) <= at(stop - 1) && at(c + 1) <= at(next);
    if next < stop {
      assert at(next) <= at(stop - 1) && at(c + 1) < at(next + 1);
      CutsFromTile(next, stop, per, at, s, e);
      assert Starts(at, rest[0].0);
      assert cuts[1..] == rest;
      forall i | 0 < i < |cuts| ensures Starts(at, cuts[i].0) { assert cuts[i] == rest[i - 1]; }
    }
  }

  /** A range is tiled on chunk boundaries by at most `target` pieces (at least one). */
  lemma {:induction false} RangeCutsTile(s: nat, e: nat, chunk: nat, target: nat)
    requires s < e
    ensures Tiles(RangeCuts(s, e, chunk, target), s, e)
    ensures Aligned(RangeCuts(s, e, chunk, target), ChunkStart(chunk))
    ensures |RangeCuts(s, e, chunk, target)| <= Max(1, target)
    ensures chunk > 0 ==> |RangeCuts(s, e, chunk, target)| <= (e - 1) / chunk - s / chunk + 1
  {
    if chunk > 0 {
      var first, stop := s / chunk, (e - 1) / chunk + 1;
      DivMono(s, e - 1, chunk);
      DivBounds(s, chunk);
      DivBounds(e - 1, chunk);
      var per := ChunksPerPiece(stop - first, target);
      ChunkStartIncreases(chunk);
      CutsFromTile(first, stop, per, ChunkStart(chunk), s, e);
      CutsFromLength(first, stop, per, ChunkStart(chunk), s, e);
    }
  }

  /** The cut lies inside `n` consecutive chunks. */
  ghost predicate Within(cut: (nat, nat), at: nat -> nat, n: nat) {
    exists k: nat :: at(k) <= cut.0 && cut.1 <= at(k + n)
  }

  lemma {:induction false} CutsFromSpan(c: nat, stop: nat, per: nat, at: nat -> nat, s: nat, e: nat, i: nat)
    requires per > 0 && Increasing(at) && i < |CutsFrom(c, stop, per, at, s, e)|
    ensures Within(CutsFrom(c, stop, per, at, s, e)[i], at, per)
    decreases stop - c
  {
    var next := Min(c + per, stop);
    if i > 0 {
      CutsFromSpan(next, stop, per, at, s, e, i - 1);
    } else {
      var cut := CutsFrom(c, stop, per, at, s, e)[0];
      assert at(next) <= at(c + per);
      assert at(c) <= cut.0 && cut.1 <= at(c + per);
    }
  }

  lemma RangeCutsAre(s: nat, e: nat, chunk: nat, target: nat, first: nat, n: nat)
    requires s < e && chunk > 0 && first == s / chunk && first + n == (e - 1) / chunk + 1
    ensures n > 0 && RangeCuts(s, e, chunk, target) == CutsFrom(first, first + n, ChunksPerPiece(n, target), ChunkStart(chunk), s, e)
  {
    DivMono(s, e - 1, chunk);
  }

  /** No piece spans more of the range's `n` chunks than an even spread over the pieces needs. */
  lemma RangeCutsBalanced(s: nat, e: nat, chunk: nat, target: nat, first: nat, n: nat)
    requires s < e && chunk > 0 && first == s / chunk && first + n == (e - 1) / chunk + 1
    ensures n > 0
    ensures forall cut :: cut in RangeCuts(s, e, chunk, target) ==> Within(cut, ChunkStart(chunk), ChunksPerPiece(n, target))
  {
    RangeCutsAre(s, e, chunk, target, first, n);
    CutsWithin(first, first + n, ChunksPerPiece(n, target), chunk, s, e);
  }

  lemma CutsWithin(first: nat, stop: nat, per: nat, chunk: nat, s: nat, e: nat)
    requires per > 0 && chunk > 0
    ensures forall cut :: cut in CutsFrom(first, stop, per, ChunkStart(chunk), s, e) ==> Within(cut, ChunkStart(chunk), per)
  {
    ChunkStartIncreases(chunk);
    var cuts := CutsFrom(first, stop, per, ChunkStart(chunk), s, e);
    forall i | 0 <= i < |cuts| ensures Within(cuts[i], ChunkStart(chunk), per) {
      CutsFromSpan(first, stop, per, ChunkStart(chunk), s, e, i);
    }
  }

  /** Cut `i` takes the `per` chunks from chunk `k` on. */
  ghost predicate TakesFrom(cuts: seq<(nat, nat)>, i: nat, k: nat, per: nat, at: nat -> nat, s: nat, e: nat)
    requires i < |cuts|
  {
    cuts[i] == (Max(at(k), s), Min(at(k + per), e))
  }

  /** The i-th piece begins `i * per` chunks after the first. */
  lemma {:induction false} CutsFromAt(c: nat, stop: nat, per: nat, at: nat -> nat, s: nat, e: nat, i: nat, k: nat)
    requires per > 0 && Increasing(at) && e <= at(stop) && i < |CutsFrom(c, stop, per, at, s, e)| && k == c + i * per
    ensures TakesFrom(CutsFrom(c, stop, per, at, s, e), i, k, per, at, s, e)
    decreases stop - c
  {
    var next := Min(c + per, stop);
    if i > 0 {
      assert i * per == per + (i - 1) * per;
      CutsFromAt(next, stop, per, at, s, e, i - 1, k);
    } else {
      assert next < c + per ==> at(stop) < at(c + per);
    }
  }

  /** How many of `n` chunks each piece takes when they are spread evenly over at most `most` pieces. */
  ghost function EvenShare(n: nat, most: nat): (per: nat)
    ensures per > 0
  {
    Max(1, CeilDiv(n, Max(1, Min(most, n))))
  }

  /** With room for two pieces, several chunks make several. */
  lemma SeveralPieces(n: nat, most: nat)
    requires n > 1 && most > 1
    ensures EvenShare(n, most) < n && CeilDiv(n, EvenShare(n, most)) > 1
  {
    var p := Min(most, n);
    MulMono(2, p, n - 1);
    CeilDivLeast(n, p, n - 1);
    CeilDivBounds(n, p);
    CeilDivLeast(n, EvenShare(n, most), 1);
  }

  /** Where piece `i` begins and ends. */
  ghost function EvenPiece(first: nat, per: nat, chunk: nat, s: nat, e: nat, i: nat): (nat, nat) {
    (Max((first + i * per) * chunk, s), Min((first + i * per + per) * chunk, e))
  }

  /**
   The pieces in closed form: the `n` chunks that the range meets are dealt out evenly, so there
   are `ceil(n / ceil(n / p))` pieces for `p = max(1, min(target, n))`, each of `ceil(n / p)`
   chunks clipped to the range.
   */
  lemma RangeCutsExact(s: nat, e: nat, chunk: nat, target: nat, first: nat, n: nat)
    requires s < e && chunk > 0 && first == s / chunk && first + n == (e - 1) / chunk + 1
    ensures n > 0 && |RangeCuts(s, e, chunk, target)| == CeilDiv(n, EvenShare(n, target))
    ensures forall i :: 0 <= i < |RangeCuts(s, e, chunk, target)| ==>
              RangeCuts(s, e, chunk, target)[i] == EvenPiece(first, EvenShare(n, target), chunk, s, e, i)
  {
    RangeCutsAre(s, e, chunk, target, first, n);
    LastChunkEnds(e, chunk, first + n);
    CutsAreEven(RangeCuts(s, e, chunk, target), s, e, chunk, target, first, n);
  }

  lemma CutsAreEven(cuts: seq<(nat, nat)>, s: nat, e: nat, chunk: nat, target: nat, first: nat, n: nat)
    requires n > 0 && chunk > 0 && e <= ChunkStart(chunk)(first + n)
    requires cuts == CutsFrom(first, first + n, ChunksPerPiece(n, target), ChunkStart(chunk), s, e)
    ensures |cuts| == CeilDiv(n, EvenShare(n, target))
    ensures forall i :: 0 <= i < |cuts| ==> cuts[i] == EvenPiece(first, EvenShare(n, target), chunk, s, e, i)
  {
    ShareIs(n, target);
    ChunkStartIncreases(chunk);
    CutsExact(first, first + n, EvenShare(n, target), ChunkStart(chunk), s, e);
    PiecesAt(cuts, first, EvenShare(n, target), chunk, s, e);
  }

  lemma ShareIs(n: nat, target: nat)
    requires n > 0
    ensures ChunksPerPiece(n, target) == EvenShare(n, target)
  {
  }

  lemma LastChunkEnds(e: nat, chunk: nat, stop: nat)
    requires e > 0 && chunk > 0 && stop == (e - 1) / chunk + 1
    ensures e <= ChunkStart(chunk)(stop)
  {
    DivBounds(e - 1, chunk);
  }

  lemma CutsExact(first: nat, stop: nat, per: nat, at: nat -> nat, s: nat, e: nat)
    requires per > 0 && first <= stop && Increasing(at) && e <= at(stop)
    ensures |CutsFrom(first, stop, per, at, s, e)| == CeilDiv(stop - first, per)
    ensures TakesInTurn(CutsFrom(first, stop, per, at, s, e), first, per, at, s, e)
  {
    CutsFromLength(first, stop, per, at, s, e);
    forall i | 0 <= i < |CutsFrom(first, stop, per, at, s, e)|
      ensures TakesFrom(CutsFrom(first, stop, per, at, s, e), i, first + Times(i, per), per, at, s, e)
    {
      CutsFromAt(first, stop, per, at, s, e, i, first + Times(i, per));
    }
  }

  ghost predicate TakesInTurn(cuts: seq<(nat, nat)>, first: nat, per: nat, at: nat -> nat, s: nat, e: nat) {
    forall i :: 0 <= i < |cuts| ==> TakesFrom(cuts, i, first + Times(i, per), per, at, s, e)
  }

  lemma PiecesAt(cuts: seq<(nat, nat)>, first: nat, per: nat, chunk: nat, s: nat, e: nat)
    requires TakesInTurn(cuts, first, per, ChunkStart(chunk), s, e)
    ensures forall i :: 0 <= i < |cuts| ==> cuts[i] == EvenPiece(first, per, chunk, s, e, i)
  {
    forall i | 0 <= i < |cuts| ensures cuts[i] == EvenPiece(first, per, chunk, s, e, i) {
      assert TakesFrom(cuts, i, first + Times(i, per), per, ChunkStart(chunk), s, e);
    }
  }

  /** The range lies in one chunk, or is empty, or its chunking is unknown. */
  predicate OneChunk(s: nat, e: nat, chunk: nat) {
    e <= s || chunk == 0 || s / chunk == (e - 1) / chunk
  }

  /** A range is one piece for every target if and only if it lies in one chunk. */
  lemma OneChunkIff(s: nat, e: nat, chunk: nat)
    ensures (forall target: nat :: |RangeCuts(s, e, chunk, target)| == 1) <==> OneChunk(s, e, chunk)
  {
    if OneChunk(s, e, chunk) {
      forall target: nat ensures |RangeCuts(s, e, chunk, target)| == 1 {
        if s < e { RangeCutsTile(s, e, chunk, target); }
      }
    } else {
      ManyChunks(s, e, chunk);
    }
  }

  lemma ManyChunks(s: nat, e: nat, chunk: nat)
    requires !OneChunk(s, e, chunk)
    ensures exists target: nat :: |RangeCuts(s, e, chunk, target)| != 1
  {
    DivMono(s, e - 1, chunk);
    var first: nat, n: nat := s / chunk, (e - 1) / chunk + 1 - s / chunk;
    RangeCutsAre(s, e, chunk, n, first, n);
    OneByOne(first, n, ChunkStart(chunk), s, e);
    assert |RangeCuts(s, e, chunk, n)| != 1;
  }

  lemma OneByOne(first: nat, n: nat, at: nat -> nat, s: nat, e: nat)
    requires n > 0
    ensures |CutsFrom(first, first + n, ChunksPerPiece(n, n), at, s, e)| == n
  {
    CeilDivUnique(n, n, 1);
    CeilDivUnique(n, 1, n);
    CutsFromLength(first, first + n, 1, at, s, e);
  }

  function ToRanges(cuts: seq<(nat, nat)>): (r: seq<CoordSelection>)
    ensures |r| == |cuts|
    ensures forall i :: 0 <= i < |cuts| ==> r[i] == Range(cuts[i].0, cuts[i].1)
  {
    seq(|cuts|, i requires 0 <= i < |cuts| => Range(cuts[i].0, cuts[i].1))
  }

  ghost predicate InSome(cuts: seq<(nat, nat)>, x: nat) {
    exists i :: 0 <= i < |cuts| && cuts[i].0 <= x < cuts[i].1
  }

  lemma {:induction false} TilesBounds(cuts: seq<(nat, nat)>, s: nat, e: nat)
    requires Tiles(cuts, s, e)
    ensures forall i :: 0 <= i < |cuts| ==> s <= cuts[i].0 < cuts[i].1 <= e
    ensures forall i, j :: 0 <= i < j < |cuts| ==> cuts[i].1 <= cuts[j].0
    ensures forall x: nat :: s <= x < e ==> InSome(cuts, x)
  {
    if |cuts| == 1 {
      forall x: nat | s <= x < e ensures InSome(cuts, x) {
        assert cuts[0].0 <= x < cuts[0].1;
      }
    } else {
      var rest := cuts[1..];
      TilesBounds(rest, cuts[0].1, e);
      assert forall i :: 0 < i < |cuts| ==> cuts[i] == rest[i - 1];
      forall x: nat | s <= x < e ensures InSome(cuts, x) {
        if x < cuts[0].1 {
          assert cuts[0].0 <= x < cuts[0].1;
        } else {
          assert InSome(rest, x);
          var i :| 0 <= i < |rest| && rest[i].0 <= x < rest[i].1;
          assert cuts[i + 1] == rest[i];
        }
      }
    }
  }

  /** Tiling on chunk boundaries is an exact split. */
  lemma TilesSplitExactly(cuts: seq<(nat, nat)>, s: nat, e: nat, chunk: nat)
    requires chunk > 0 && Tiles(cuts, s, e) && Aligned(cuts, ChunkStart(chunk))
    ensures ExactSplit(ToRanges(cuts), Range(s, e), chunk)
  {
    TilesBounds(cuts, s, e);
    var p := ToRanges(cuts);
    forall i, j, x: nat, y: nat | 0 <= i < j < |p| && p[i].Has(x) && p[j].Has(y) ensures x / chunk < y / chunk {
      BoundarySeparates(x, y, cuts[j].0, chunk);
    }
    forall x: nat | Range(s, e).Has(x) ensures exists i :: 0 <= i < |p| && p[i].Has(x) {
      assert InSome(cuts, x);
      var i :| 0 <= i < |cuts| && cuts[i].0 <= x < cuts[i].1;
      assert p[i].Has(x);
    }
  }

  lemma BoundarySeparates(x: nat, y: nat, boundary: nat, chunk: nat)
    requires chunk > 0 && Starts(ChunkStart(chunk), boundary) && x < boundary <= y
    ensures x / chunk < y / chunk
  {
    var b: nat :| ChunkStart(chunk)(b) == boundary;
    DivBetween(x, chunk, b, b);
    DivBetween(y, chunk, b, b);
  }

  /** `split_range`: chunk-aligned pieces that tile the range, at most `target` of them. */
  method SplitRange(s: nat, e: nat, chunk: nat, target: nat) returns (out: seq<(nat, nat)>)
    ensures out == RangeCuts(s, e, chunk, target)
    ensures s < e ==> Tiles(out, s, e) && Aligned(out, ChunkStart(chunk)) && |out| <= Max(1, target)
  {
    out := CutRange(s, e, chunk, target);
    if s < e { RangeCutsTile(s, e, chunk, target); }
  }

  method CutRange(s: nat, e: nat, chunk: nat, target: nat) returns (out: seq<(nat, nat)>)
    ensures out == RangeCuts(s, e, chunk, target)
  {
    if e <= s { return [(s, s)]; }
    if chunk == 0 { return [(s, e)]; }
    var first := s / chunk;
    var last := (e - 1) / chunk;
    DivMono(s, e - 1, chunk);
    out := CutLoop(first, last, ChunksPerPiece(last - first + 1, target), ChunkStart(chunk), s, e);
  }

  /** The `while` loop of `split_range`, from chunk `first` to chunk `last` inclusive. */
  method CutLoop(first: nat, last: nat, per: nat, at: nat -> nat, s: nat, e: nat) returns (out: seq<(nat, nat)>)
    requires first <= last && per > 0
    ensures out == CutsFrom(first, last + 1, per, at, s, e)
  {
    out := [];
    var c := first;
    while c <= last
      invariant first <= c <= last + 1
      invariant out + CutsFrom(c, last + 1, per, at, s, e) == CutsFrom(first, last + 1, per, at, s, e)
      decreases last + 1 - c
    {
      var next := Min(c + per, last + 1);
      var cut := (Max(at(c), s), Min(at(next), e));
      assert out + ([cut] + CutsFrom(next, last + 1, per, at, s, e)) == out + [cut] + CutsFrom(next, last + 1, per, at, s, e);
      out := out + [cut];
      c := next;
    }
  }

  // ---------------------------------------------------------------------------------------------
  // Planning a whole axis without a filter
  // ---------------------------------------------------------------------------------------------

  function AxisCutsFrom(c: nat, n: nat, per: nat, at: nat -> nat, len: nat): seq<(nat, nat)>
    requires per > 0
    decreases n - c
  {
    if c >= n then []
    else
      var next := Min(c + per, n);
      [(at(c), Min(at(next), len))] + AxisCutsFrom(next, n, per, at, len)
  }

  function AxisCuts(len: nat, chunkLen: nat, target: nat): seq<(nat, nat)> {
    if len == 0 then [(0, 0)]
    else
      var chunk := if chunkLen == 0 then len else chunkLen;
      var n := CeilDiv(len, chunk);
      AxisCutsFrom(0, n, ChunksPerPiece(n, target), ChunkStart(chunk), len)
  }

  /** `plan_partitions` as outer-only partition specifications. */
  function PlanPartitions(len: nat, chunkLen: nat, target: nat): seq<PartitionSpec> {
    Specs(ToRanges(AxisCuts(len, chunkLen, target)))
  }

  function Specs(pieces: seq<CoordSelection>): (r: seq<PartitionSpec>)
    ensures |r| == |pieces|
    ensures forall i :: 0 <= i < |pieces| ==> r[i] == FromOuter(pieces[i])
  {
    seq(|pieces|, i requires 0 <= i < |pieces| => FromOuter(pieces[i]))
  }

  lemma {:induction false} AxisCutsFromAgree(c: nat, n: nat, per: nat, at: nat -> nat, len: nat)
    requires per > 0
    ensures AxisCutsFrom(c, n, per, at, len) == CutsFrom(c, n, per, at, 0, len)
    decreases n - c
  {
    if c < n { AxisCutsFromAgree(Min(c + per, n), n, per, at, len); }
  }

  /** Two planners agree: a filter that keeps the whole axis plans exactly like no filter. */
  lemma PlannersAgree(len: nat, chunkLen: nat, target: nat)
    ensures AxisCuts(len, chunkLen, target) == RangeCuts(0, len, chunkLen, target)
  {
    if len > 0 {
      var chunk := if chunkLen == 0 then len else chunkLen;
      var n := CeilDiv(len, chunk);
      CeilDivBounds(len, chunk);
      var per := ChunksPerPiece(n, target);
      AxisCutsFromAgree(0, n, per, ChunkStart(chunk), len);
      if chunkLen == 0 {
        CeilDivUnique(len, len, 1);
        SingleCut(per, len);
      } else {
        DivUnique(len - 1, chunk, n - 1);
        DivUnique(0, chunk, 0);
      }
    }
  }

  /** The number of chunks along an axis; an axis of unknown chunking is one chunk. */
  function ChunkCount(len: nat, chunkLen: nat): nat {
    if len == 0 then 0 else CeilDiv(len, if chunkLen == 0 then len else chunkLen)
  }

  /** At most one piece per chunk, and one for each when the target allows it. */
  lemma AxisCutsCount(len: nat, chunkLen: nat, target: nat)
    ensures |AxisCuts(len, chunkLen, target)| <= Max(1, ChunkCount(len, chunkLen))
    ensures len > 0 && target >= ChunkCount(len, chunkLen) ==> |AxisCuts(len, chunkLen, target)| == ChunkCount(len, chunkLen)
  {
    if len > 0 {
      var chunk := if chunkLen == 0 then len else chunkLen;
      var n := ChunkCount(len, chunkLen);
      CeilDivBounds(len, chunk);
      var per := ChunksPerPiece(n, target);
      AxisCutsFromAgree(0, n, per, ChunkStart(chunk), len);
      CutsFromLength(0, n, per, ChunkStart(chunk), 0, len);
      if target >= n {
        CeilDivUnique(n, n, 1);
        CeilDivUnique(n, 1, n);
      }
    }
  }

  lemma SingleCut(per: nat, len: nat)
    requires per > 0 && len > 0
    ensures CutsFrom(0, 1, per, ChunkStart(len), 0, len) == [(0, len)]
  {
    assert CutsFrom(1, 1, per, ChunkStart(len), 0, len) == [];
    assert ChunkStart(len)(0) == 0 && ChunkStart(len)(1) == len;
  }

  /** The loop of `plan_partitions`. */
  method PlanAxis(len: nat, chunkLen: nat, target: nat) returns (specs: seq<PartitionSpec>)
    ensures specs == PlanPartitions(len, chunkLen, target)
    ensures 1 <= |specs| <= Max(1, target)
    ensures len > 0 ==> Tiles(RangeCuts(0, len, chunkLen, target), 0, len)
  {
    PlannersAgree(len, chunkLen, target);
    if len == 0 { return [FromOuter(Range(0, 0))]; }
    RangeCutsTile(0, len, chunkLen, target);
    var chunk := if chunkLen == 0 then len else chunkLen;
    CeilDivBounds(len, chunk);
    var n := CeilDiv(len, chunk);
    specs := AxisLoop(n, ChunksPerPiece(n, target), ChunkStart(chunk), len);
  }

  /** The `while` loop of `plan_partitions` over `n` chunks. */
  method AxisLoop(n: nat, per: nat, at: nat -> nat, len: nat) returns (specs: seq<PartitionSpec>)
    requires per > 0
    ensures specs == Specs(ToRanges(AxisCutsFrom(0, n, per, at, len)))
  {
    specs := [];
    var c := 0;
    ghost var done: seq<(nat, nat)> := [];
    while c < n
      invariant 0 <= c <= n
      invariant done + AxisCutsFrom(c, n, per, at, len) == AxisCutsFrom(0, n, per, at, len)
      invariant specs == Specs(ToRanges(done))
      decreases n - c
    {
      var next := Min(c + per, n);
      var cut := (at(c), Min(at(next), len));
      assert done + ([cut] + AxisCutsFrom(next, n, per, at, len)) == done + [cut] + AxisCutsFrom(next, n, per, at, len);
      specs := specs + [FromOuter(Range(cut.0, cut.1))];
      done := done + [cut];
      c := next;
    }
    assert done == AxisCutsFrom(0, n, per, at, len);
  }
}
