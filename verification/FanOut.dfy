/** Fanning a scan out over inner axes when the outer axis alone under-fills the target. */
module FanOut {
  import opened Options
  import opened Arithmetic
  import opened Sequences
  import opened Selection
  import opened Partition
  import opened BoxProduct

  datatype CoordMeta = CoordMeta(name: string, size: nat)

  /** A data variable: its shape, and its chunk shape and dimension names when known. */
  datatype VarMeta = VarMeta(shape: seq<nat>, chunks: Option<seq<nat>>, dims: Option<seq<string>>)

  /** An inner axis worth splitting. */
  datatype Candidate = Candidate(coord: nat, nChunks: nat, extent: nat, chunk: nat)

  // ---------------------------------------------------------------------------------------------
  // Axes and their coordinates
  // ---------------------------------------------------------------------------------------------

  function PositionByName(coords: seq<CoordMeta>, name: string): (r: Option<nat>)
    ensures r.Some? ==> r.value < |coords| && coords[r.value].name == name
                        && forall i :: 0 <= i < r.value ==> coords[i].name != name
    ensures r.Some? <==> exists i :: 0 <= i < |coords| && coords[i].name == name
  {
    if coords == [] then None
    else if coords[0].name == name then Some(0)
    else
      var rest := PositionByName(coords[1..], name);
      assert forall i :: 0 < i < |coords| ==> coords[i] == coords[1..][i - 1];
      if rest.Some? then Some(rest.value + 1) else None
  }

  /** The first coordinate with the axis' dimension name, if there is one. */
  function CoordIndexForAxis(v: VarMeta, axis: nat, coords: seq<CoordMeta>): (r: Option<nat>)
    ensures r.Some? <==> v.dims.Some? && axis < |v.dims.value| && exists i :: 0 <= i < |coords| && coords[i].name == v.dims.value[axis]
    ensures r.Some? ==> r.value < |coords| && coords[r.value].name == v.dims.value[axis]
                        && forall i :: 0 <= i < r.value ==> coords[i].name != v.dims.value[axis]
  {
    if v.dims.None? || axis >= |v.dims.value| then None else PositionByName(coords, v.dims.value[axis])
  }

  /** The chunk length along `axis`; an unchunked axis is one chunk. */
  function ChunkLen(v: VarMeta, axis: nat): (r: nat)
    requires axis < |v.shape|
    ensures r > 0
  {
    Max(1, if v.chunks.Some? && axis < |v.chunks.value| then v.chunks.value[axis] else v.shape[axis])
  }

  /** The axis as a candidate, unless it is unnamed, filtered, or a single chunk. */
  function AxisCandidate(v: VarMeta, axis: nat, coords: seq<CoordMeta>, filtered: set<string>): (r: Option<Candidate>)
    requires axis < |v.shape|
  {
    var idx := CoordIndexForAxis(v, axis, coords);
    if idx.None? || coords[idx.value].name in filtered then None
    else
      var n := CeilDiv(v.shape[axis], ChunkLen(v, axis));
      if n > 1 then Some(Candidate(idx.value, n, v.shape[axis], ChunkLen(v, axis))) else None
  }

  function CandidatesFrom(v: VarMeta, axis: nat, coords: seq<CoordMeta>, filtered: set<string>): seq<Candidate>
    decreases |v.shape| - axis
  {
    if axis >= |v.shape| then []
    else
      var c := AxisCandidate(v, axis, coords, filtered);
      (if c.Some? then [c.value] else []) + CandidatesFrom(v, axis + 1, coords, filtered)
  }

  /** Most-chunked first, ties by coordinate index. */
  predicate Before(a: Candidate, b: Candidate) {
    a.nChunks > b.nChunks || (a.nChunks == b.nChunks && a.coord <= b.coord)
  }

  function Insert(c: Candidate, sorted: seq<Candidate>): (r: seq<Candidate>)
    ensures multiset(r) == multiset(sorted) + multiset{c}
  {
    if sorted == [] then [c]
    else if Before(c, sorted[0]) then [c] + sorted
    else
      assert sorted == [sorted[0]] + sorted[1..];
      [sorted[0]] + Insert(c, sorted[1..])
  }

  function SortCandidates(cs: seq<Candidate>): (r: seq<Candidate>)
    ensures multiset(r) == multiset(cs)
  {
    if cs == [] then []
    else
      assert cs == [cs[0]] + cs[1..];
      Insert(cs[0], SortCandidates(cs[1..]))
  }

  ghost predicate InOrder(cs: seq<Candidate>) {
    forall i, j :: 0 <= i < j < |cs| ==> Before(cs[i], cs[j])
  }

  /** Chunk counts never rise, and candidates of one count come by rising coordinate. */
  ghost predicate Ordered(cs: seq<Candidate>) {
    && (forall i, j :: 0 <= i < j < |cs| ==> cs[i].nChunks >= cs[j].nChunks)
    && (forall i, j :: 0 <= i < j < |cs| && cs[i].nChunks == cs[j].nChunks ==> cs[i].coord <= cs[j].coord)
  }

  lemma {:induction false} InsertKeepsOrder(c: Candidate, sorted: seq<Candidate>)
    requires InOrder(sorted)
    ensures InOrder(Insert(c, sorted))
  {
    if sorted != [] && !Before(c, sorted[0]) {
      var rest := Insert(c, sorted[1..]);
      InsertKeepsOrder(c, sorted[1..]);
      forall k | 0 <= k < |rest| ensures Before(sorted[0], rest[k]) {
        assert rest[k] in multiset(rest);
      }
    }
  }

  lemma {:induction false} SortOrders(cs: seq<Candidate>)
    ensures InOrder(SortCandidates(cs))
  {
    if cs != [] {
      SortOrders(cs[1..]);
      InsertKeepsOrder(cs[0], SortCandidates(cs[1..]));
    }
  }

  /** The greedy loop meets the candidates most-chunked first, and meets each of them. */
  lemma CandidatesSorted(cs: seq<Candidate>)
    ensures Ordered(SortCandidates(cs)) && multiset(SortCandidates(cs)) == multiset(cs)
  {
    SortOrders(cs);
    var sorted := SortCandidates(cs);
    forall i, j | 0 <= i < j < |sorted|
      ensures sorted[i].nChunks >= sorted[j].nChunks && (sorted[i].nChunks == sorted[j].nChunks ==> sorted[i].coord <= sorted[j].coord)
    {
      assert Before(sorted[i], sorted[j]);
    }
  }

  // ---------------------------------------------------------------------------------------------
  // The greedy choice of splits
  // ---------------------------------------------------------------------------------------------

  function SplitPieces(c: Candidate, allowed: nat): seq<CoordSelection> {
    ToRanges(AxisCuts(c.extent, c.chunk, Min(c.nChunks, allowed)))
  }

  /** The axes chosen from `cs` when `acc` inner boxes exist already and `budget` are allowed. */
  function GreedySplits(cs: seq<Candidate>, budget: nat, acc: nat): seq<SplitAxis>
    requires acc > 0
  {
    if cs == [] || budget / acc <= 1 then []
    else
      var pieces := SplitPieces(cs[0], budget / acc);
      if |pieces| <= 1 then GreedySplits(cs[1..], budget, acc)
      else [SplitAxis(cs[0].coord, pieces)] + GreedySplits(cs[1..], budget, Grown(acc, |pieces|))
  }

  /** The inner axes `fan_out_inner` splits; none when it declines. */
  function ChosenAxes(outers: seq<PartitionSpec>, v: VarMeta, coords: seq<CoordMeta>, filtered: set<string>, target: nat): seq<SplitAxis>
    requires forall s :: s in outers ==> s.extra == [] && (s.outer.Range? ==> s.outer.start <= s.outer.end)
  {
    if |outers| == 0 || |outers| >= target || (|outers| == 1 && outers[0].IsEmpty()) then []
    else GreedySplits(SortCandidates(CandidatesFrom(v, 1, coords, filtered)), target / |outers|, 1)
  }

  function FanOutInner(outers: seq<PartitionSpec>, v: VarMeta, coords: seq<CoordMeta>, filtered: set<string>, target: nat): seq<PartitionSpec>
    requires forall s :: s in outers ==> s.extra == [] && (s.outer.Range? ==> s.outer.start <= s.outer.end)
  {
    var axes := ChosenAxes(outers, v, coords, filtered, target);
    if axes == [] then outers else Boxes(outers, Combos(axes))
  }

  // ---------------------------------------------------------------------------------------------
  // The budget
  // ---------------------------------------------------------------------------------------------

  lemma PiecesWithinAllowance(c: Candidate, allowed: nat)
    requires c.chunk > 0 && allowed > 1
    ensures 1 <= |SplitPieces(c, allowed)| <= allowed
  {
    PlannersAgree(c.extent, c.chunk, Min(c.nChunks, allowed));
    if c.extent > 0 { RangeCutsTile(0, c.extent, c.chunk, Min(c.nChunks, allowed)); }
  }

  lemma SpendAllowance(budget: nat, acc: nat, n: nat)
    requires acc > 0 && n <= budget / acc
    ensures acc * n <= budget
  {
    DivBounds(budget, acc);
    MulMono(n, budget / acc, acc);
  }

  lemma {:induction false} ProductCons(ax: SplitAxis, rest: seq<SplitAxis>)
    ensures ProductOfLengths([ax] + rest) == |ax.pieces| * ProductOfLengths(rest)
  {
    var all := [ax] + rest;
    if rest == [] {
      assert all[..|all| - 1] == [] && all[|all| - 1] == ax;
    } else {
      var last := |rest| - 1;
      ProductCons(ax, rest[..last]);
      assert all[..|all| - 1] == [ax] + rest[..last] && all[|all| - 1] == rest[last];
      MulAssoc(|ax.pieces|, ProductOfLengths(rest[..last]), |rest[last].pieces|);
    }
  }

  lemma {:induction false} GreedyWithinBudget(cs: seq<Candidate>, budget: nat, acc: nat)
    requires 0 < acc <= budget && forall c :: c in cs ==> c.chunk > 0
    ensures acc * ProductOfLengths(GreedySplits(cs, budget, acc)) <= budget
    decreases |cs|, 1
  {
    if cs != [] && budget / acc > 1 {
      var pieces := SplitPieces(cs[0], budget / acc);
      PiecesWithinAllowance(cs[0], budget / acc);
      if |pieces| <= 1 {
        GreedyWithinBudget(cs[1..], budget, acc);
      } else {
        var ax := SplitAxis(cs[0].coord, pieces);
        GreedyStepWithinBudget(cs[1..], budget, acc, ax);
      }
    }
  }

  lemma GreedyStepWithinBudget(cs: seq<Candidate>, budget: nat, acc: nat, ax: SplitAxis)
    requires 0 < acc <= budget && 1 < |ax.pieces| <= budget / acc && forall c :: c in cs ==> c.chunk > 0
    ensures acc * |ax.pieces| > 0
    ensures acc * ProductOfLengths([ax] + GreedySplits(cs, budget, acc * |ax.pieces|)) <= budget
    decreases |cs|, 2
  {
    SpendAllowance(budget, acc, |ax.pieces|);
    MulMono(1, |ax.pieces|, acc);
    GreedyWithinBudget(cs, budget, acc * |ax.pieces|);
    var rest := GreedySplits(cs, budget, acc * |ax.pieces|);
    ProductCons(ax, rest);
    MulAssoc(acc, |ax.pieces|, ProductOfLengths(rest));
  }

  lemma {:induction false} CandidatesSound(v: VarMeta, axis: nat, coords: seq<CoordMeta>, filtered: set<string>, c: Candidate)
    requires c in CandidatesFrom(v, axis, coords, filtered)
    ensures exists a :: axis <= a < |v.shape| && AxisCandidate(v, a, coords, filtered) == Some(c)
    decreases |v.shape| - axis
  {
    if AxisCandidate(v, axis, coords, filtered) != Some(c) {
      CandidatesSound(v, axis + 1, coords, filtered, c);
    }
  }

  /** Fan-out never plans more partitions than the target, unless the outer split already did. */
  lemma FanOutWithinTarget(outers: seq<PartitionSpec>, v: VarMeta, coords: seq<CoordMeta>, filtered: set<string>, target: nat)
    requires forall s :: s in outers ==> s.extra == [] && (s.outer.Range? ==> s.outer.start <= s.outer.end)
    ensures |FanOutInner(outers, v, coords, filtered, target)| <= Max(|outers|, target)
  {
    var axes := ChosenAxes(outers, v, coords, filtered, target);
    if axes != [] {
      var cs := SortCandidates(CandidatesFrom(v, 1, coords, filtered));
      var budget := target / |outers|;
      forall c | c in cs ensures c.chunk > 0 {
        assert c in multiset(cs);
        CandidatesSound(v, 1, coords, filtered, c);
      }
      DivBetween(target, |outers|, 1, 0);
      GreedyWithinBudget(cs, budget, 1);
      CombosLength(axes);
      BoxesLength(outers, Combos(axes));
      DivBounds(target, |outers|);
      MulMono(|Combos(axes)|, budget, |outers|);
    }
  }

  // ---------------------------------------------------------------------------------------------
  // The chosen axes are exact splits of distinct coordinates
  // ---------------------------------------------------------------------------------------------

  ghost predicate DistinctCandidates(cs: seq<Candidate>) {
    forall i, j :: 0 <= i < j < |cs| ==> cs[i].coord != cs[j].coord
  }

  ghost predicate DistinctAxes(axes: seq<SplitAxis>) {
    forall i, j :: 0 <= i < j < |axes| ==> axes[i].coord != axes[j].coord
  }

  ghost predicate DistinctDims(v: VarMeta) {
    v.dims.Some? ==> forall i, j :: 0 <= i < j < |v.dims.value| ==> v.dims.value[i] != v.dims.value[j]
  }

  lemma {:induction false} CandidatesDistinct(v: VarMeta, axis: nat, coords: seq<CoordMeta>, filtered: set<string>)
    requires DistinctDims(v)
    ensures DistinctCandidates(CandidatesFrom(v, axis, coords, filtered))
    decreases |v.shape| - axis
  {
    if axis < |v.shape| {
      CandidatesDistinct(v, axis + 1, coords, filtered);
      var c := AxisCandidate(v, axis, coords, filtered);
      var rest := CandidatesFrom(v, axis + 1, coords, filtered);
      if c.Some? {
        forall j | 0 <= j < |rest| ensures rest[j].coord != c.value.coord {
          CandidatesSound(v, axis + 1, coords, filtered, rest[j]);
        }
      }
    }
  }

  /** Distinctness read off the multiset, which sorting preserves. */
  lemma DistinctPermuted(a: seq<Candidate>, b: seq<Candidate>)
    requires multiset(a) == multiset(b) && DistinctCandidates(a)
    ensures DistinctCandidates(b)
  {
    forall i, j | 0 <= i < j < |b| ensures b[i].coord != b[j].coord {
      if b[i].coord == b[j].coord {
        assert b[i] in multiset(b) && b[j] in multiset(b);
        assert b[i] in a && b[j] in a;
        assert b[i] == b[j];
        RepeatedTwice(b, i, j);
        OccursOnce(a, b[i]);
        assert false;
      }
    }
  }

  lemma {:induction false} OccursOnce(a: seq<Candidate>, c: Candidate)
    requires DistinctCandidates(a)
    ensures multiset(a)[c] <= 1
  {
    if a != [] {
      OccursOnce(a[1..], c);
      assert a == [a[0]] + a[1..];
      if a[0] == c { assert c !in a[1..]; }
    }
  }

  lemma {:induction false} GreedyAxes(cs: seq<Candidate>, budget: nat, acc: nat, k: nat)
    requires acc > 0 && k < |GreedySplits(cs, budget, acc)| && forall c :: c in cs ==> c.chunk > 0 && c.extent > 0
    ensures var ax := GreedySplits(cs, budget, acc)[k];
            && |ax.pieces| > 1
            && exists c :: c in cs && c.coord == ax.coord && ExactSplit(ax.pieces, Range(0, c.extent), c.chunk)
  {
    var pieces := SplitPieces(cs[0], budget / acc);
    GreedyStep(cs, budget, acc, pieces);
    var ax := GreedySplits(cs, budget, acc)[k];
    if |pieces| <= 1 {
      GreedyAxes(cs[1..], budget, acc, k);
      var c :| c in cs[1..] && c.coord == ax.coord && ExactSplit(ax.pieces, Range(0, c.extent), c.chunk);
      assert c in cs;
    } else if k > 0 {
      GreedyAxes(cs[1..], budget, Grown(acc, |pieces|), k - 1);
      var c :| c in cs[1..] && c.coord == ax.coord && ExactSplit(ax.pieces, Range(0, c.extent), c.chunk);
      assert c in cs;
    } else {
      PiecesExact(cs[0], budget / acc);
      assert cs[0] in cs;
    }
  }

  lemma PiecesExact(c: Candidate, allowed: nat)
    requires c.chunk > 0 && c.extent > 0
    ensures ExactSplit(SplitPieces(c, allowed), Range(0, c.extent), c.chunk)
  {
    PlannersAgree(c.extent, c.chunk, Min(c.nChunks, allowed));
    RangeCutsTile(0, c.extent, c.chunk, Min(c.nChunks, allowed));
    TilesSplitExactly(AxisCuts(c.extent, c.chunk, Min(c.nChunks, allowed)), 0, c.extent, c.chunk);
  }

  lemma {:induction false} GreedyDistinct(cs: seq<Candidate>, budget: nat, acc: nat)
    requires acc > 0 && DistinctCandidates(cs)
    ensures DistinctAxes(GreedySplits(cs, budget, acc))
    ensures forall k :: 0 <= k < |GreedySplits(cs, budget, acc)| ==>
              exists i :: 0 <= i < |cs| && cs[i].coord == GreedySplits(cs, budget, acc)[k].coord
  {
    if cs != [] && budget / acc > 1 {
      var pieces := SplitPieces(cs[0], budget / acc);
      var rest := GreedySplits(cs[1..], budget, if |pieces| <= 1 then acc else acc * |pieces|);
      GreedyDistinct(cs[1..], budget, if |pieces| <= 1 then acc else acc * |pieces|);
      var all := GreedySplits(cs, budget, acc);
      forall k | 0 <= k < |rest| ensures exists i :: 0 < i < |cs| && cs[i].coord == rest[k].coord {
        var i :| 0 <= i < |cs[1..]| && cs[1..][i].coord == rest[k].coord;
        assert cs[i + 1].coord == rest[k].coord;
      }
      if |pieces| > 1 {
        assert forall k :: 0 < k < |all| ==> all[k] == rest[k - 1];
        assert all[0].coord == cs[0].coord;
      }
    }
  }

  /**
   Every chosen axis belongs to a named, unfiltered inner axis of the variable, and its pieces
   split that axis exactly on its chunks; no coordinate is chosen twice.
   */
  lemma ChosenAxesExact(outers: seq<PartitionSpec>, v: VarMeta, coords: seq<CoordMeta>, filtered: set<string>, target: nat)
    requires forall s :: s in outers ==> s.extra == [] && (s.outer.Range? ==> s.outer.start <= s.outer.end)
    requires DistinctDims(v)
    ensures DistinctAxes(ChosenAxes(outers, v, coords, filtered, target))
    ensures forall k :: 0 <= k < |ChosenAxes(outers, v, coords, filtered, target)| ==>
              AxisFrom(ChosenAxes(outers, v, coords, filtered, target)[k], v, coords, filtered)
  {
    if ChosenAxes(outers, v, coords, filtered, target) != [] {
      var raw := CandidatesFrom(v, 1, coords, filtered);
      CandidatesDistinct(v, 1, coords, filtered);
      ChosenFrom(raw, SortCandidates(raw), target / |outers|, v, coords, filtered);
    }
  }

  lemma ChosenFrom(raw: seq<Candidate>, cs: seq<Candidate>, budget: nat, v: VarMeta, coords: seq<CoordMeta>, filtered: set<string>)
    requires raw == CandidatesFrom(v, 1, coords, filtered) && multiset(cs) == multiset(raw) && DistinctCandidates(raw)
    ensures DistinctAxes(GreedySplits(cs, budget, 1))
    ensures forall k :: 0 <= k < |GreedySplits(cs, budget, 1)| ==> AxisFrom(GreedySplits(cs, budget, 1)[k], v, coords, filtered)
  {
    DistinctPermuted(raw, cs);
    GreedyDistinct(cs, budget, 1);
    forall c | c in cs ensures c in raw {
      assert c in multiset(cs);
      assert c in multiset(raw);
    }
    forall k | 0 <= k < |GreedySplits(cs, budget, 1)| ensures AxisFrom(GreedySplits(cs, budget, 1)[k], v, coords, filtered) {
      GreedyAxisFrom(raw, cs, budget, k, v, coords, filtered);
    }
  }

  lemma GreedyAxisFrom(raw: seq<Candidate>, cs: seq<Candidate>, budget: nat, k: nat, v: VarMeta, coords: seq<CoordMeta>, filtered: set<string>)
    requires raw == CandidatesFrom(v, 1, coords, filtered) && (forall c :: c in cs ==> c in raw)
    requires k < |GreedySplits(cs, budget, 1)|
    ensures AxisFrom(GreedySplits(cs, budget, 1)[k], v, coords, filtered)
  {
    forall c | c in cs ensures c.chunk > 0 && c.extent > 0 { CandidateFacts(c, v, coords, filtered); }
    GreedyAxes(cs, budget, 1, k);
    var ax := GreedySplits(cs, budget, 1)[k];
    var c :| c in cs && c.coord == ax.coord && ExactSplit(ax.pieces, Range(0, c.extent), c.chunk);
    CandidateAxis(c, ax, v, coords, filtered);
  }

  lemma CandidateFacts(c: Candidate, v: VarMeta, coords: seq<CoordMeta>, filtered: set<string>)
    requires c in CandidatesFrom(v, 1, coords, filtered)
    ensures c.chunk > 0 && c.extent > 0
  {
    CandidatesSound(v, 1, coords, filtered, c);
    CeilDivUnique(0, c.chunk, 0);
  }

  lemma CandidateAxis(c: Candidate, ax: SplitAxis, v: VarMeta, coords: seq<CoordMeta>, filtered: set<string>)
    requires c in CandidatesFrom(v, 1, coords, filtered) && c.chunk > 0 && c.extent > 0
    requires c.coord == ax.coord && |ax.pieces| > 1 && ExactSplit(ax.pieces, Range(0, c.extent), c.chunk)
    ensures AxisFrom(ax, v, coords, filtered)
  {
    CandidatesSound(v, 1, coords, filtered, c);
    var a :| 1 <= a < |v.shape| && AxisCandidate(v, a, coords, filtered) == Some(c);
    assert AxisIs(ax, v, a, coords, filtered);
  }

  /** `ax` splits some inner axis exactly; that axis is named, unfiltered and of several chunks. */
  ghost predicate AxisFrom(ax: SplitAxis, v: VarMeta, coords: seq<CoordMeta>, filtered: set<string>) {
    exists a :: 1 <= a < |v.shape| && AxisIs(ax, v, a, coords, filtered)
  }

  ghost predicate AxisIs(ax: SplitAxis, v: VarMeta, a: nat, coords: seq<CoordMeta>, filtered: set<string>)
    requires a < |v.shape|
  {
    && AxisCandidate(v, a, coords, filtered).Some?
    && CoordIndexForAxis(v, a, coords) == Some(ax.coord)
    && ax.coord < |coords|
    && coords[ax.coord].name !in filtered
    && v.shape[a] > 0
    && |ax.pieces| > 1
    && ExactSplit(ax.pieces, Range(0, v.shape[a]), ChunkLen(v, a))
  }

  /** The pieces of a chosen axis are ranges that begin at different positions. */
  lemma ChosenPiecesDiffer(outers: seq<PartitionSpec>, v: VarMeta, coords: seq<CoordMeta>, filtered: set<string>, target: nat, i: nat, m: nat, n: nat)
    requires forall s :: s in outers ==> s.extra == [] && (s.outer.Range? ==> s.outer.start <= s.outer.end)
    requires i < |ChosenAxes(outers, v, coords, filtered, target)|
    requires m < n < |ChosenAxes(outers, v, coords, filtered, target)[i].pieces|
    ensures ChosenAxes(outers, v, coords, filtered, target)[i].pieces[m] != ChosenAxes(outers, v, coords, filtered, target)[i].pieces[n]
  {
    var cs := SortCandidates(CandidatesFrom(v, 1, coords, filtered));
    SortedCountable(v, coords, filtered);
    GreedyPiecesDiffer(cs, target / |outers|, 1, i, m, n);
  }

  lemma {:induction false} GreedyPiecesDiffer(cs: seq<Candidate>, budget: nat, acc: nat, i: nat, m: nat, n: nat)
    requires acc > 0 && (forall c :: c in cs ==> Countable(c))
    requires i < |GreedySplits(cs, budget, acc)| && m < n < |GreedySplits(cs, budget, acc)[i].pieces|
    ensures GreedySplits(cs, budget, acc)[i].pieces[m] != GreedySplits(cs, budget, acc)[i].pieces[n]
  {
    var allowed := budget / acc;
    var pieces := SplitPieces(cs[0], allowed);
    GreedyStep(cs, budget, acc, pieces);
    var all := GreedySplits(cs, budget, acc);
    if |pieces| <= 1 {
      GreedyPiecesDiffer(cs[1..], budget, acc, i, m, n);
    } else if i > 0 {
      var grown := Grown(acc, |pieces|);
      var rest := GreedySplits(cs[1..], budget, grown);
      assert all[i] == rest[i - 1];
      GreedyPiecesDiffer(cs[1..], budget, grown, i - 1, m, n);
    } else {
      assert all[i].pieces == pieces;
      PiecesStartApart(cs[0], allowed, m, n);
    }
  }

  lemma PiecesStartApart(c: Candidate, allowed: nat, m: nat, n: nat)
    requires Countable(c) && m < n < |SplitPieces(c, allowed)|
    ensures SplitPieces(c, allowed)[m] != SplitPieces(c, allowed)[n]
  {
    SecondChunk(c.extent, c.chunk, c.nChunks);
    PlannersAgree(c.extent, c.chunk, Min(c.nChunks, allowed));
    RangeCutsTile(0, c.extent, c.chunk, Min(c.nChunks, allowed));
    TilesBounds(AxisCuts(c.extent, c.chunk, Min(c.nChunks, allowed)), 0, c.extent);
  }

  // ---------------------------------------------------------------------------------------------
  // How much of the budget is used
  // ---------------------------------------------------------------------------------------------

  /** The axis is named after an unfiltered coordinate, and its known chunks are shorter than it is. */
  predicate OffersChunks(v: VarMeta, a: nat, coords: seq<CoordMeta>, filtered: set<string>) {
    && a < |v.shape|
    && v.dims.Some? && a < |v.dims.value|
    && (exists k :: 0 <= k < |coords| && coords[k].name == v.dims.value[a])
    && v.dims.value[a] !in filtered
    && v.chunks.Some? && a < |v.chunks.value| && Max(1, v.chunks.value[a]) < v.shape[a]
  }

  /** `c` describes axis `a`: its coordinate, how many chunks it has, its length and theirs. */
  ghost predicate Describes(c: Candidate, v: VarMeta, a: nat, coords: seq<CoordMeta>)
    requires a < |v.shape| && v.dims.Some? && a < |v.dims.value| && v.chunks.Some? && a < |v.chunks.value|
  {
    && c.coord < |coords| && coords[c.coord].name == v.dims.value[a]
    && (forall k :: 0 <= k < c.coord ==> coords[k].name != v.dims.value[a])
    && c.extent == v.shape[a] && c.chunk == Max(1, v.chunks.value[a])
    && (c.nChunks - 1) * c.chunk < c.extent <= c.nChunks * c.chunk
  }

  /** The candidates are the inner axes that offer chunks, described as they are. */
  lemma CandidateIff(v: VarMeta, a: nat, coords: seq<CoordMeta>, filtered: set<string>)
    requires a < |v.shape|
    ensures AxisCandidate(v, a, coords, filtered).Some? <==> OffersChunks(v, a, coords, filtered)
    ensures AxisCandidate(v, a, coords, filtered).Some? ==> Describes(AxisCandidate(v, a, coords, filtered).value, v, a, coords)
  {
    CeilDivBounds(v.shape[a], ChunkLen(v, a));
    CeilDivLeast(v.shape[a], ChunkLen(v, a), 1);
  }

  /** Every inner axis that offers chunks is met by the greedy loop, and nothing else is. */
  lemma CandidatesAre(v: VarMeta, coords: seq<CoordMeta>, filtered: set<string>, c: Candidate)
    ensures c in SortCandidates(CandidatesFrom(v, 1, coords, filtered))
            <==> exists a :: 1 <= a < |v.shape| && OffersChunks(v, a, coords, filtered) && Describes(c, v, a, coords)
  {
    var raw := CandidatesFrom(v, 1, coords, filtered);
    assert c in multiset(SortCandidates(raw)) <==> c in multiset(raw);
    if c in raw {
      CandidatesSound(v, 1, coords, filtered, c);
      var a :| 1 <= a < |v.shape| && AxisCandidate(v, a, coords, filtered) == Some(c);
      CandidateIff(v, a, coords, filtered);
      assert OffersChunks(v, a, coords, filtered) && Describes(c, v, a, coords);
    }
    if a :| 1 <= a < |v.shape| && OffersChunks(v, a, coords, filtered) && Describes(c, v, a, coords) {
      CandidateIff(v, a, coords, filtered);
      DescribesOnce(c, AxisCandidate(v, a, coords, filtered).value, v, a, coords);
      CandidatesComplete(v, 1, coords, filtered, a);
    }
  }

  lemma DescribesOnce(c: Candidate, d: Candidate, v: VarMeta, a: nat, coords: seq<CoordMeta>)
    requires a < |v.shape| && v.dims.Some? && a < |v.dims.value| && v.chunks.Some? && a < |v.chunks.value|
    requires Describes(c, v, a, coords) && Describes(d, v, a, coords)
    ensures c == d
  {
    CeilDivUnique(c.extent, c.chunk, c.nChunks);
    CeilDivUnique(d.extent, d.chunk, d.nChunks);
  }

  /** The candidate's `n` chunks dealt out evenly over at most `most` pieces, in order. */
  ghost predicate SplitEvenly(pieces: seq<CoordSelection>, c: Candidate, most: nat) {
    var per := EvenShare(c.nChunks, most);
    && |pieces| == CeilDiv(c.nChunks, per)
    && forall i :: 0 <= i < |pieces| ==> pieces[i] == Range(i * per * c.chunk, Min((i * per + per) * c.chunk, c.extent))
  }

  lemma PiecesEven(c: Candidate, allowed: nat)
    requires Countable(c) && allowed > 1
    ensures SplitEvenly(SplitPieces(c, allowed), c, allowed) && |SplitPieces(c, allowed)| > 1
  {
    var n, most := c.nChunks, Min(c.nChunks, allowed);
    SecondChunk(c.extent, c.chunk, n);
    PlannersAgree(c.extent, c.chunk, most);
    CeilDivBounds(c.extent, c.chunk);
    DivUnique(c.extent - 1, c.chunk, n - 1);
    DivUnique(0, c.chunk, 0);
    RangeCutsExact(0, c.extent, c.chunk, most, 0, n);
    assert EvenShare(n, most) == EvenShare(n, allowed);
    SeveralPieces(n, allowed);
    EvenRanges(AxisCuts(c.extent, c.chunk, most), EvenShare(n, allowed), c.chunk, c.extent);
  }

  lemma EvenRanges(cuts: seq<(nat, nat)>, per: nat, chunk: nat, extent: nat)
    requires forall i :: 0 <= i < |cuts| ==> cuts[i] == EvenPiece(0, per, chunk, 0, extent, i)
    ensures forall i :: 0 <= i < |cuts| ==> ToRanges(cuts)[i] == Range(i * per * chunk, Min((i * per + per) * chunk, extent))
  {
    forall i | 0 <= i < |cuts| ensures ToRanges(cuts)[i] == Range(i * per * chunk, Min((i * per + per) * chunk, extent)) {
      MulMono(0, i, per);
      MulMono(0, i * per, chunk);
    }
  }

  /** How many more pieces fit when there are `product` boxes. */
  ghost function Allowance(budget: nat, product: nat): nat {
    if product == 0 then 0 else budget / product
  }

  ghost function AllowedAt(axes: seq<SplitAxis>, k: nat, budget: nat, acc: nat): nat
    requires k <= |axes|
  {
    Allowance(budget, acc * ProductOfLengths(axes[..k]))
  }

  /**
   The greedy choice told from its outcome, with `acc` boxes before it: the axes are the leading
   candidates, each split evenly over as many pieces as still fit, and at least two fit; if a
   candidate is left over, two do not.
   */
  ghost predicate FillsGreedily(axes: seq<SplitAxis>, cs: seq<Candidate>, budget: nat, acc: nat) {
    && |axes| <= |cs|
    && (forall k :: 0 <= k < |axes| ==> AxisFills(axes[k], cs[k], AllowedAt(axes, k, budget, acc)))
    && (|axes| < |cs| ==> AllowedAt(axes, |axes|, budget, acc) < 2)
  }

  ghost predicate AxisFills(ax: SplitAxis, c: Candidate, most: nat) {
    most >= 2 && ax.coord == c.coord && SplitEvenly(ax.pieces, c, most)
  }

  lemma {:induction false} GreedyFills(cs: seq<Candidate>, budget: nat, acc: nat)
    requires acc > 0 && forall c :: c in cs ==> Countable(c)
    ensures FillsGreedily(GreedySplits(cs, budget, acc), cs, budget, acc)
    ensures forall k :: 0 <= k < |GreedySplits(cs, budget, acc)| ==> |GreedySplits(cs, budget, acc)[k].pieces| > 1
  {
    if cs != [] && budget / acc > 1 {
      var pieces := SplitPieces(cs[0], budget / acc);
      PiecesEven(cs[0], budget / acc);
      GreedyStep(cs, budget, acc, pieces);
      GreedyFills(cs[1..], budget, Grown(acc, |pieces|));
      FillsStep(cs, budget, acc, SplitAxis(cs[0].coord, pieces), GreedySplits(cs[1..], budget, Grown(acc, |pieces|)));
    }
  }

  lemma FillsStep(cs: seq<Candidate>, budget: nat, acc: nat, ax: SplitAxis, rest: seq<SplitAxis>)
    requires acc > 0 && cs != []
    requires AxisFills(ax, cs[0], Allowance(budget, acc))
    requires FillsGreedily(rest, cs[1..], budget, Times(acc, |ax.pieces|))
    ensures FillsGreedily([ax] + rest, cs, budget, acc)
  {
    var all := [ax] + rest;
    forall k | 0 <= k < |all| ensures AxisFills(all[k], cs[k], AllowedAt(all, k, budget, acc)) {
      if k == 0 {
        assert all[..0] == [];
      } else {
        GrownAllowance(budget, acc, ax, rest, k - 1);
        assert all[k] == rest[k - 1] && cs[k] == cs[1..][k - 1];
      }
    }
    GrownAllowance(budget, acc, ax, rest, |rest|);
  }

  lemma GrownAllowance(budget: nat, acc: nat, ax: SplitAxis, rest: seq<SplitAxis>, k: nat)
    requires k <= |rest|
    ensures AllowedAt([ax] + rest, k + 1, budget, acc) == AllowedAt(rest, k, budget, Times(acc, |ax.pieces|))
  {
    assert ([ax] + rest)[..k + 1] == [ax] + rest[..k];
    ProductCons(ax, rest[..k]);
    MulAssoc(acc, |ax.pieces|, ProductOfLengths(rest[..k]));
  }

  /** Fan-out applies: there are outer pieces, they select something, and twice as many fit the target. */
  predicate Applies(outers: seq<PartitionSpec>, target: nat)
    requires forall s :: s in outers ==> s.extra == [] && (s.outer.Range? ==> s.outer.start <= s.outer.end)
  {
    0 < |outers| && 2 * |outers| <= target && !(|outers| == 1 && outers[0].IsEmpty())
  }

  /**
   `fan_out_inner` told from its outcome: the candidates, most-chunked first, are split evenly
   over as many pieces as the target leaves for each outer piece, until two more do not fit.
   */
  lemma ChosenAxesFill(outers: seq<PartitionSpec>, v: VarMeta, coords: seq<CoordMeta>, filtered: set<string>, target: nat)
    requires forall s :: s in outers ==> s.extra == [] && (s.outer.Range? ==> s.outer.start <= s.outer.end)
    ensures FillsBudget(ChosenAxes(outers, v, coords, filtered, target), SortCandidates(CandidatesFrom(v, 1, coords, filtered)),
                        if Applies(outers, target) then Allowance(target, |outers|) else 0)
  {
    var cs := SortCandidates(CandidatesFrom(v, 1, coords, filtered));
    ChosenAxesAre(outers, v, coords, filtered, target, cs);
    if Applies(outers, target) {
      SortedCountable(v, coords, filtered);
      GreedyFills(cs, Allowance(target, |outers|), 1);
    }
  }

  /** A budget of none chooses nothing. */
  ghost predicate FillsBudget(axes: seq<SplitAxis>, cs: seq<Candidate>, budget: nat) {
    if budget == 0 then axes == [] else FillsGreedily(axes, cs, budget, 1)
  }

  lemma ChosenAxesAre(outers: seq<PartitionSpec>, v: VarMeta, coords: seq<CoordMeta>, filtered: set<string>, target: nat, cs: seq<Candidate>)
    requires forall s :: s in outers ==> s.extra == [] && (s.outer.Range? ==> s.outer.start <= s.outer.end)
    requires cs == SortCandidates(CandidatesFrom(v, 1, coords, filtered))
    ensures ChosenAxes(outers, v, coords, filtered, target)
            == if Applies(outers, target) then GreedySplits(cs, Allowance(target, |outers|), 1) else []
  {
    if |outers| > 0 { RoomForTwo(|outers|, target); }
  }

  /** There are as many boxes as outer pieces times the pieces of the chosen axes. */
  lemma FanOutCount(outers: seq<PartitionSpec>, v: VarMeta, coords: seq<CoordMeta>, filtered: set<string>, target: nat)
    requires forall s :: s in outers ==> s.extra == [] && (s.outer.Range? ==> s.outer.start <= s.outer.end)
    ensures |FanOutInner(outers, v, coords, filtered, target)|
            == |outers| * ProductOfLengths(ChosenAxes(outers, v, coords, filtered, target))
  {
    BoxCount(outers, ChosenAxes(outers, v, coords, filtered, target));
  }

  lemma BoxCount(outers: seq<PartitionSpec>, axes: seq<SplitAxis>)
    ensures |if axes == [] then outers else Boxes(outers, Combos(axes))| == |outers| * ProductOfLengths(axes)
  {
    CombosLength(axes);
    BoxesLength(outers, Combos(axes));
  }

  lemma RoomForTwo(n: nat, target: nat)
    requires n > 0
    ensures 2 * n <= target <==> target / n / 1 > 1
    ensures 2 * n <= target ==> n < target
  {
    DivBetween(target, n, 2, 2);
  }

  /** Fan-out leaves no scan without partitions. */
  lemma SomePartition(outers: seq<PartitionSpec>, v: VarMeta, coords: seq<CoordMeta>, filtered: set<string>, target: nat)
    requires forall s :: s in outers ==> s.extra == [] && (s.outer.Range? ==> s.outer.start <= s.outer.end)
    requires |outers| > 0
    ensures |FanOutInner(outers, v, coords, filtered, target)| > 0
  {
    var cs, axes := SortCandidates(CandidatesFrom(v, 1, coords, filtered)), ChosenAxes(outers, v, coords, filtered, target);
    FanOutCount(outers, v, coords, filtered, target);
    ChosenAxesAre(outers, v, coords, filtered, target, cs);
    if Applies(outers, target) {
      SortedCountable(v, coords, filtered);
      GreedyFills(cs, Allowance(target, |outers|), 1);
    }
    if axes != [] { ManyBoxes(axes); }
    MulMono(1, ProductOfLengths(axes), |outers|);
  }

  /** Whether axis `a`'s coordinate is among the chosen ones. */
  ghost predicate Chosen(axes: seq<SplitAxis>, v: VarMeta, a: nat, coords: seq<CoordMeta>)
    requires v.dims.Some? && a < |v.dims.value|
  {
    exists k :: 0 <= k < |axes| && axes[k].coord < |coords| && coords[axes[k].coord].name == v.dims.value[a]
  }

  /**
   The target is made use of: where fan-out applies, an axis that offers chunks at least doubles
   the number of boxes, and is left whole only when the boxes already more than half fill the target.
   */
  lemma FanOutUsesTarget(outers: seq<PartitionSpec>, v: VarMeta, coords: seq<CoordMeta>, filtered: set<string>, target: nat, a: nat)
    requires forall s :: s in outers ==> s.extra == [] && (s.outer.Range? ==> s.outer.start <= s.outer.end)
    requires Applies(outers, target) && 1 <= a && OffersChunks(v, a, coords, filtered)
    ensures |FanOutInner(outers, v, coords, filtered, target)| >= 2 * |outers|
    ensures Chosen(ChosenAxes(outers, v, coords, filtered, target), v, a, coords)
            || 2 * |FanOutInner(outers, v, coords, filtered, target)| > target
  {
    var cs, axes := SortCandidates(CandidatesFrom(v, 1, coords, filtered)), ChosenAxes(outers, v, coords, filtered, target);
    ChosenAxesFill(outers, v, coords, filtered, target);
    FanOutCount(outers, v, coords, filtered, target);
    SortedCountable(v, coords, filtered);
    CandidateIff(v, a, coords, filtered);
    CandidateSorted(v, coords, filtered, a);
    var i :| 0 <= i < |cs| && cs[i] == AxisCandidate(v, a, coords, filtered).value;
    DivBetween(target, |outers|, 2, 2);
    SomeAxis(axes, cs, target / |outers|);
    MulMono(2, ProductOfLengths(axes), |outers|);
    if i < |axes| {
      assert AxisFills(axes[i], cs[i], AllowedAt(axes, i, target / |outers|, 1));
    } else {
      assert axes[..|axes|] == axes;
      LittleLeft(|outers|, ProductOfLengths(axes), target);
    }
  }

  lemma LittleLeft(n: nat, product: nat, target: nat)
    requires n > 0 && product > 0 && Allowance(target / n, product) < 2
    ensures 2 * (n * product) > target
  {
    DivBounds(target, n);
    DivBetween(target / n, product, 2, 2);
    MulMono(target / n + 1, 2 * product, n);
    MulAssoc(2, product, n);
  }

  lemma {:induction false} SomeAxis(axes: seq<SplitAxis>, cs: seq<Candidate>, budget: nat)
    requires cs != [] && budget >= 2 && (forall c :: c in cs ==> Countable(c)) && FillsGreedily(axes, cs, budget, 1)
    ensures axes != [] && ProductOfLengths(axes) >= 2
  {
    assert axes[..|axes|] == axes;
    forall k | 0 <= k < |axes| ensures |axes[k].pieces| > 1 {
      assert AxisFills(axes[k], cs[k], AllowedAt(axes, k, budget, 1)) && cs[k] in cs;
      SeveralPieces(cs[k].nChunks, AllowedAt(axes, k, budget, 1));
    }
    ManyBoxes(axes);
  }

  lemma {:induction false} ManyBoxes(axes: seq<SplitAxis>)
    requires axes != [] && forall k :: 0 <= k < |axes| ==> |axes[k].pieces| > 1
    ensures ProductOfLengths(axes) >= 2
  {
    var last := |axes| - 1;
    if last > 0 { ManyBoxes(axes[..last]); }
    MulMono(1, ProductOfLengths(axes[..last]), |axes[last].pieces|);
  }

  // ---------------------------------------------------------------------------------------------
  // A budget that splits every candidate into its chunks
  // ---------------------------------------------------------------------------------------------

  ghost predicate Countable(c: Candidate) {
    c.chunk > 0 && c.nChunks == CeilDiv(c.extent, c.chunk) && c.nChunks > 1
  }

  ghost function ProductOfChunks(cs: seq<Candidate>): nat {
    if cs == [] then 1 else cs[0].nChunks * ProductOfChunks(cs[1..])
  }

  ghost function FullSplit(c: Candidate): SplitAxis { SplitAxis(c.coord, SplitPieces(c, c.nChunks)) }

  ghost function FullSplits(cs: seq<Candidate>): seq<SplitAxis> {
    if cs == [] then [] else [FullSplit(cs[0])] + FullSplits(cs[1..])
  }

  lemma OneChunkPerPiece(n: nat)
    requires n > 0
    ensures ChunksPerPiece(n, Min(n, n)) == 1
  {
    CeilDivUnique(n, n, 1);
  }

  lemma OneCutPerChunk(n: nat, at: nat -> nat, len: nat)
    requires n > 1
    ensures var cuts := AxisCutsFrom(0, n, 1, at, len);
            |cuts| == n && cuts[0] == (at(0), Min(at(1), len)) && cuts[1] == (at(1), Min(at(2), len))
  {
    AxisCutsFromAgree(0, n, 1, at, len);
    CutsFromLength(0, n, 1, at, 0, len);
    CeilDivUnique(n, 1, n);
    assert AxisCutsFrom(0, n, 1, at, len)[1] == AxisCutsFrom(1, n, 1, at, len)[0];
  }

  /** With room for one piece per chunk, there is one, and the second begins at the second chunk. */
  lemma FullPieces(c: Candidate)
    requires Countable(c)
    ensures |SplitPieces(c, c.nChunks)| == c.nChunks
    ensures SplitPieces(c, c.nChunks)[0].Has(c.chunk - 1) && SplitPieces(c, c.nChunks)[1].Has(c.chunk)
  {
    var n, at := c.nChunks, ChunkStart(c.chunk);
    SecondChunk(c.extent, c.chunk, n);
    OneChunkPerPiece(n);
    OneCutPerChunk(n, at, c.extent);
    assert AxisCuts(c.extent, c.chunk, Min(n, n)) == AxisCutsFrom(0, n, 1, at, c.extent);
    assert at(0) == 0 && at(1) == c.chunk && at(2) == 2 * c.chunk;
  }

  lemma SecondChunk(extent: nat, chunk: nat, n: nat)
    requires chunk > 0 && n == CeilDiv(extent, chunk) && n > 1
    ensures extent > chunk
  {
    CeilDivBounds(extent, chunk);
    MulMono(1, n - 1, chunk);
  }

  lemma {:induction false} ProductOfChunksPositive(cs: seq<Candidate>)
    requires forall c :: c in cs ==> c.nChunks > 1
    ensures ProductOfChunks(cs) >= 1 && (cs != [] ==> ProductOfChunks(cs) >= cs[0].nChunks)
  {
    if cs != [] {
      ProductOfChunksPositive(cs[1..]);
      MulMono(1, ProductOfChunks(cs[1..]), cs[0].nChunks);
    }
  }

  /** A budget for all chunks of all candidates splits each candidate into its chunks. */
  lemma {:induction false} GreedyTakesAll(cs: seq<Candidate>, budget: nat, acc: nat)
    requires acc > 0 && (forall c :: c in cs ==> Countable(c)) && acc * ProductOfChunks(cs) <= budget
    ensures GreedySplits(cs, budget, acc) == FullSplits(cs)
  {
    if cs != [] {
      var n, rest := cs[0].nChunks, ProductOfChunks(cs[1..]);
      ProductOfChunksPositive(cs);
      EnoughAllowed(budget, acc, n, ProductOfChunks(cs));
      var pieces := SplitPieces(cs[0], budget / acc);
      FullPieces(cs[0]);
      assert pieces == SplitPieces(cs[0], n);
      GreedyStep(cs, budget, acc, pieces);
      MulAssoc(acc, n, rest);
      GreedyTakesAll(cs[1..], budget, Grown(acc, n));
    }
  }

  lemma EnoughAllowed(budget: nat, acc: nat, n: nat, product: nat)
    requires acc > 0 && n <= product && acc * product <= budget
    ensures budget / acc >= n
  {
    MulMono(n, product, acc);
    DivBetween(budget, acc, n, 0);
  }

  lemma {:induction false} FullSplitsHave(cs: seq<Candidate>, c: Candidate)
    requires c in cs
    ensures FullSplit(c) in FullSplits(cs)
  {
    if c != cs[0] { FullSplitsHave(cs[1..], c); }
  }

  lemma {:induction false} CandidatesComplete(v: VarMeta, axis: nat, coords: seq<CoordMeta>, filtered: set<string>, a: nat)
    requires axis <= a < |v.shape| && AxisCandidate(v, a, coords, filtered).Some?
    ensures AxisCandidate(v, a, coords, filtered).value in CandidatesFrom(v, axis, coords, filtered)
    decreases a - axis
  {
    if axis < a { CandidatesComplete(v, axis + 1, coords, filtered, a); }
  }

  /** How many inner boxes a scan has when every candidate is split into its chunks. */
  ghost function AllChunks(v: VarMeta, coords: seq<CoordMeta>, filtered: set<string>): nat {
    ProductOfChunks(SortCandidates(CandidatesFrom(v, 1, coords, filtered)))
  }

  lemma SortedCountable(v: VarMeta, coords: seq<CoordMeta>, filtered: set<string>)
    ensures forall c :: c in SortCandidates(CandidatesFrom(v, 1, coords, filtered)) ==> Countable(c)
  {
    var raw := CandidatesFrom(v, 1, coords, filtered);
    forall c | c in SortCandidates(raw) ensures Countable(c) {
      assert c in multiset(SortCandidates(raw));
      assert c in multiset(raw);
      CandidatesSound(v, 1, coords, filtered, c);
    }
  }

  /** Given the room, fan-out splits every candidate axis into its chunks. */
  lemma FullFanOut(outers: seq<PartitionSpec>, v: VarMeta, coords: seq<CoordMeta>, filtered: set<string>, target: nat, a: nat)
    requires forall s :: s in outers ==> s.extra == [] && (s.outer.Range? ==> s.outer.start <= s.outer.end)
    requires 0 < |outers| && !(|outers| == 1 && outers[0].IsEmpty())
    requires |outers| * AllChunks(v, coords, filtered) <= target
    requires 1 <= a < |v.shape| && AxisCandidate(v, a, coords, filtered).Some?
    ensures FullSplit(AxisCandidate(v, a, coords, filtered).value) in ChosenAxes(outers, v, coords, filtered, target)
  {
    var cs := SortCandidates(CandidatesFrom(v, 1, coords, filtered));
    CandidateSorted(v, coords, filtered, a);
    SortedCountable(v, coords, filtered);
    ProductOfChunksPositive(cs);
    FullBudget(|outers|, ProductOfChunks(cs), target);
    GreedyTakesAll(cs, target / |outers|, 1);
    FullSplitsHave(cs, AxisCandidate(v, a, coords, filtered).value);
  }

  lemma CandidateSorted(v: VarMeta, coords: seq<CoordMeta>, filtered: set<string>, a: nat)
    requires 1 <= a < |v.shape| && AxisCandidate(v, a, coords, filtered).Some?
    ensures AxisCandidate(v, a, coords, filtered).value in SortCandidates(CandidatesFrom(v, 1, coords, filtered))
  {
    var c, raw := AxisCandidate(v, a, coords, filtered).value, CandidatesFrom(v, 1, coords, filtered);
    CandidatesComplete(v, 1, coords, filtered, a);
    assert c in multiset(raw);
    assert c in multiset(SortCandidates(raw));
  }

  /** Room for `product` boxes per outer slice, of which there are then fewer than the target. */
  lemma FullBudget(n: nat, product: nat, target: nat)
    requires n > 0 && product > 1 && n * product <= target
    ensures n < target && target / n >= product
  {
    MulMono(2, product, n);
    DivBetween(target, n, product, 0);
  }

  // ---------------------------------------------------------------------------------------------
  // The loops
  // ---------------------------------------------------------------------------------------------

  method CollectCandidates(v: VarMeta, coords: seq<CoordMeta>, filtered: set<string>) returns (candidates: seq<Candidate>)
    ensures candidates == CandidatesFrom(v, 1, coords, filtered)
  {
    candidates := [];
    var axis := 1;
    while axis < |v.shape|
      invariant 1 <= axis
      invariant candidates + CandidatesFrom(v, axis, coords, filtered) == CandidatesFrom(v, 1, coords, filtered)
      decreases |v.shape| - axis
    {
      var c := AxisCandidate(v, axis, coords, filtered);
      var found := if c.Some? then [c.value] else [];
      ghost var rest := CandidatesFrom(v, axis + 1, coords, filtered);
      CandidatesStep(v, axis, coords, filtered, found);
      assert candidates + (found + rest) == candidates + found + rest;
      candidates := candidates + found;
      axis := axis + 1;
    }
  }

  lemma CandidatesStep(v: VarMeta, axis: nat, coords: seq<CoordMeta>, filtered: set<string>, found: seq<Candidate>)
    requires axis < |v.shape|
    requires found == if AxisCandidate(v, axis, coords, filtered).Some? then [AxisCandidate(v, axis, coords, filtered).value] else []
    ensures CandidatesFrom(v, axis, coords, filtered) == found + CandidatesFrom(v, axis + 1, coords, filtered)
  {
  }

  /** The outer selections of an axis plan. */
  method PlanPieces(c: Candidate, allowed: nat) returns (pieces: seq<CoordSelection>)
    requires c.chunk > 0
    ensures pieces == SplitPieces(c, allowed)
  {
    var specs := PlanAxis(c.extent, c.chunk, Min(c.nChunks, allowed));
    pieces := seq(|specs|, k requires 0 <= k < |specs| => specs[k].outer);
  }

  /** What one turn of the greedy loop does to the axes still to be chosen. */
  lemma GreedyStep(cs: seq<Candidate>, budget: nat, acc: nat, pieces: seq<CoordSelection>)
    requires acc > 0 && cs != [] && budget / acc > 1 && pieces == SplitPieces(cs[0], budget / acc)
    ensures |pieces| <= 1 ==> GreedySplits(cs, budget, acc) == GreedySplits(cs[1..], budget, acc)
    ensures |pieces| > 1 ==>
              GreedySplits(cs, budget, acc)
              == [SplitAxis(cs[0].coord, pieces)] + GreedySplits(cs[1..], budget, Grown(acc, |pieces|))
  {
  }

  /** One candidate's turn: the axis it adds, if any, and the product afterwards. */
  method TakeAxis(cs: seq<Candidate>, budget: nat, acc: nat) returns (axes: seq<SplitAxis>, grown: nat, stop: bool)
    requires acc > 0 && cs != [] && cs[0].chunk > 0
    ensures stop ==> GreedySplits(cs, budget, acc) == []
    ensures grown > 0 && (!stop ==> axes + GreedySplits(cs[1..], budget, grown) == GreedySplits(cs, budget, acc))
  {
    axes, grown, stop := [], acc, false;
    var allowed := budget / acc;
    if allowed <= 1 { return axes, grown, true; }
    var pieces := PlanPieces(cs[0], allowed);
    GreedyStep(cs, budget, acc, pieces);
    if |pieces| > 1 {
      axes := [SplitAxis(cs[0].coord, pieces)];
      grown := Grown(acc, |pieces|);
    }
  }

  method ChooseSplits(candidates: seq<Candidate>, budget: nat) returns (axes: seq<SplitAxis>)
    requires forall c :: c in candidates ==> c.chunk > 0
    ensures axes == GreedySplits(candidates, budget, 1)
  {
    axes := [];
    var acc := 1;
    var i := 0;
    ghost var all, rest := GreedySplits(candidates, budget, 1), GreedySplits(candidates, budget, 1);
    while i < |candidates|
      invariant 0 <= i <= |candidates| && acc > 0
      invariant rest == GreedySplits(candidates[i..], budget, acc) && axes + rest == all
      decreases |candidates| - i
    {
      var more, grown, stop := TakeAxis(candidates[i..], budget, acc);
      if stop { break; }
      assert candidates[i..][1..] == candidates[i + 1..];
      ghost var later := GreedySplits(candidates[i + 1..], budget, grown);
      assert axes + (more + later) == axes + more + later;
      axes, acc, i, rest := axes + more, grown, i + 1, later;
    }
  }

  function Grown(acc: nat, n: nat): (r: nat)
    requires acc > 0 && n > 1
    ensures r == acc * n > 0
  {
    MulMono(1, n, acc);
    acc * n
  }

  method InnerCombos(axes: seq<SplitAxis>) returns (combos: seq<Extra>)
    ensures combos == Combos(axes)
  {
    combos := [[]];
    for n := 0 to |axes|
      invariant combos == Combos(axes[..n])
    {
      var next: seq<Extra> := [];
      for i := 0 to |combos|
        invariant next + ExtendAll(combos[i..], axes[n].coord, axes[n].pieces)
                  == ExtendAll(combos, axes[n].coord, axes[n].pieces)
      {
        var row := ExtendOneLoop(combos[i], axes[n].coord, axes[n].pieces);
        assert combos[i..][1..] == combos[i + 1..];
        ghost var rest := ExtendAll(combos[i + 1..], axes[n].coord, axes[n].pieces);
        assert next + (row + rest) == next + row + rest;
        next := next + row;
      }
      assert axes[..n + 1][..n] == axes[..n];
      combos := next;
    }
    assert axes[..|axes|] == axes;
  }

  method ExtendOneLoop(combo: Extra, coord: nat, pieces: seq<CoordSelection>) returns (row: seq<Extra>)
    ensures row == ExtendOne(combo, coord, pieces)
  {
    row := [];
    for i := 0 to |pieces|
      invariant row + ExtendOne(combo, coord, pieces[i..]) == ExtendOne(combo, coord, pieces)
    {
      assert pieces[i..][1..] == pieces[i + 1..];
      ghost var rest := ExtendOne(combo, coord, pieces[i + 1..]);
      var next := combo + [(coord, pieces[i])];
      assert row + ([next] + rest) == row + [next] + rest;
      row := row + [next];
    }
  }

  method CrossBoxes(outers: seq<PartitionSpec>, combos: seq<Extra>) returns (boxes: seq<PartitionSpec>)
    ensures boxes == Boxes(outers, combos)
  {
    boxes := [];
    for i := 0 to |outers|
      invariant boxes + Boxes(outers[i..], combos) == Boxes(outers, combos)
    {
      var row: seq<PartitionSpec> := [];
      for j := 0 to |combos|
        invariant row + BoxRow(outers[i].outer, combos[j..]) == BoxRow(outers[i].outer, combos)
      {
        assert combos[j..][1..] == combos[j + 1..];
        var box := PartitionSpec(outers[i].outer, combos[j]);
        ghost var rest := BoxRow(outers[i].outer, combos[j + 1..]);
        assert row + ([box] + rest) == row + [box] + rest;
        row := row + [box];
      }
      assert outers[i..][1..] == outers[i + 1..];
      ghost var rest := Boxes(outers[i + 1..], combos);
      assert boxes + (row + rest) == boxes + row + rest;
      boxes := boxes + row;
    }
  }

  /** `fan_out_inner`: its loops compute the product, within the target. */
  method FanOutScan(outers: seq<PartitionSpec>, v: VarMeta, coords: seq<CoordMeta>, filtered: set<string>, target: nat)
    returns (specs: seq<PartitionSpec>)
    requires |outers| > 0
    requires forall s :: s in outers ==> s.extra == [] && (s.outer.Range? ==> s.outer.start <= s.outer.end)
    ensures specs == FanOutInner(outers, v, coords, filtered, target)
    ensures |specs| <= Max(|outers|, target)
  {
    FanOutWithinTarget(outers, v, coords, filtered, target);
    if |outers| >= target || (|outers| == 1 && outers[0].IsEmpty()) { return outers; }
    var budget := target / |outers|;
    if budget <= 1 { return outers; }
    var candidates := CollectCandidates(v, coords, filtered);
    candidates := SortCandidates(candidates);
    forall c | c in candidates ensures c.chunk > 0 {
      assert c in multiset(candidates);
      CandidatesSound(v, 1, coords, filtered, c);
    }
    var axes := ChooseSplits(candidates, budget);
    if axes == [] { return outers; }
    var combos := InnerCombos(axes);
    specs := CrossBoxes(outers, combos);
  }
}
