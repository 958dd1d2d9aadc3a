/** Splitting a scattered, sorted index list without dividing any chunk. */
module IndexPacking {
  import opened Arithmetic
  import opened Selection
  import opened Partition

  /** The chunk a position lies in. */
  function ChunkOf(chunk: nat): nat -> nat
    requires chunk > 0
  {
    (x: nat) => x / chunk
  }

  ghost predicate Monotone(id: nat -> nat) {
    forall x: nat, y: nat :: x <= y ==> id(x) <= id(y)
  }

  lemma ChunkOfMonotone(chunk: nat)
    requires chunk > 0
    ensures Monotone(ChunkOf(chunk))
  {
    forall x: nat, y: nat | x <= y ensures ChunkOf(chunk)(x) <= ChunkOf(chunk)(y) {
      DivMono(x, y, chunk);
    }
  }

  function Flatten(groups: seq<seq<nat>>): seq<nat> {
    if groups == [] then [] else groups[0] + Flatten(groups[1..])
  }

  lemma {:induction false} FlattenHas(groups: seq<seq<nat>>, x: nat)
    ensures x in Flatten(groups) <==> exists i :: 0 <= i < |groups| && x in groups[i]
  {
    if groups != [] {
      FlattenHas(groups[1..], x);
      if i :| 0 <= i < |groups| && x in groups[i] {
        assert i > 0 ==> x in groups[1..][i - 1];
      }
      if x in Flatten(groups[1..]) {
        var i :| 0 <= i < |groups[1..]| && x in groups[1..][i];
        assert x in groups[i + 1];
      }
      assert x in groups[0] ==> 0 <= 0 < |groups|;
    }
  }

  ghost predicate AllNonEmpty(groups: seq<seq<nat>>) {
    forall i :: 0 <= i < |groups| ==> groups[i] != []
  }

  ghost predicate Below(front: seq<nat>, back: seq<nat>, id: nat -> nat) {
    forall x, y :: x in front && y in back ==> id(x) < id(y)
  }

  /** Members of an earlier group have a smaller chunk than members of a later one. */
  ghost predicate Separated(groups: seq<seq<nat>>, id: nat -> nat) {
    groups == [] || (Below(groups[0], Flatten(groups[1..]), id) && Separated(groups[1..], id))
  }

  lemma {:induction false} SeparatedPair(groups: seq<seq<nat>>, id: nat -> nat, i: nat, j: nat, x: nat, y: nat)
    requires Separated(groups, id) && i < j < |groups| && x in groups[i] && y in groups[j]
    ensures id(x) < id(y)
  {
    if i == 0 {
      assert y in groups[1..][j - 1];
      FlattenHas(groups[1..], y);
    } else {
      SeparatedPair(groups[1..], id, i - 1, j - 1, x, y);
    }
  }

  // ---------------------------------------------------------------------------------------------
  // Runs of indices that share a chunk
  // ---------------------------------------------------------------------------------------------

  /** The runs of `v[start..]`, where `v[start..i]` is already known to share a chunk. */
  function RunsFrom(v: seq<nat>, start: nat, i: nat, id: nat -> nat): seq<seq<nat>>
    requires start < i <= |v|
    decreases |v| - i
  {
    if i == |v| then [v[start..i]]
    else if id(v[i]) != id(v[start]) then [v[start..i]] + RunsFrom(v, i, i + 1, id)
    else RunsFrom(v, start, i + 1, id)
  }

  ghost predicate Uniform(g: seq<nat>, id: nat -> nat) {
    forall m :: 0 <= m < |g| ==> id(g[m]) == id(g[0])
  }

  lemma FlattenCons(g: seq<nat>, groups: seq<seq<nat>>)
    ensures Flatten([g] + groups) == g + Flatten(groups)
  {
    assert ([g] + groups)[1..] == groups;
  }

  lemma {:induction false} RunsFlatten(v: seq<nat>, start: nat, i: nat, id: nat -> nat)
    requires start < i <= |v|
    ensures Flatten(RunsFrom(v, start, i, id)) == v[start..]
    ensures AllNonEmpty(RunsFrom(v, start, i, id))
    decreases |v| - i
  {
    if i == |v| {
      FlattenCons(v[start..i], []);
      assert RunsFrom(v, start, i, id) == [v[start..i]] + [];
    } else if id(v[i]) != id(v[start]) {
      RunsFlatten(v, i, i + 1, id);
      FlattenCons(v[start..i], RunsFrom(v, i, i + 1, id));
      assert v[start..i] + v[i..] == v[start..];
    } else {
      RunsFlatten(v, start, i + 1, id);
    }
  }

  lemma {:induction false} RunsUniform(v: seq<nat>, start: nat, i: nat, id: nat -> nat)
    requires start < i <= |v|
    requires forall m :: start <= m < i ==> id(v[m]) == id(v[start])
    ensures forall k :: 0 <= k < |RunsFrom(v, start, i, id)| ==> Uniform(RunsFrom(v, start, i, id)[k], id)
    decreases |v| - i
  {
    assert Uniform(v[start..i], id);
    if i < |v| {
      if id(v[i]) != id(v[start]) {
        RunsUniform(v, i, i + 1, id);
      } else {
        RunsUniform(v, start, i + 1, id);
      }
    }
  }

  /** Where the chunk changes, everything before lies in earlier chunks. */
  lemma CutBelow(v: seq<nat>, start: nat, i: nat, id: nat -> nat)
    requires start < i < |v| && Ascending(v) && Monotone(id) && id(v[i]) != id(v[start])
    requires forall m :: start <= m < i ==> id(v[m]) == id(v[start])
    ensures Below(v[start..i], v[i..], id)
  {
    forall x, y | x in v[start..i] && y in v[i..] ensures id(x) < id(y) {
      assert id(v[start]) <= id(v[i]) <= id(y);
    }
  }

  lemma {:induction false} RunsSeparated(v: seq<nat>, start: nat, i: nat, id: nat -> nat)
    requires start < i <= |v| && Ascending(v) && Monotone(id)
    requires forall m :: start <= m < i ==> id(v[m]) == id(v[start])
    ensures Separated(RunsFrom(v, start, i, id), id)
    decreases |v| - i
  {
    if i == |v| {
      assert RunsFrom(v, start, i, id)[1..] == [];
    } else {
      if id(v[i]) != id(v[start]) {
        RunsSeparated(v, i, i + 1, id);
        RunsFlatten(v, i, i + 1, id);
        assert RunsFrom(v, start, i, id)[1..] == RunsFrom(v, i, i + 1, id);
        CutBelow(v, start, i, id);
      } else {
        RunsSeparated(v, start, i + 1, id);
      }
    }
  }

  ghost function ChunkSet(v: seq<nat>, id: nat -> nat): set<nat> {
    set x | x in v :: id(x)
  }

  lemma ChunkSetConcat(a: seq<nat>, b: seq<nat>, id: nat -> nat)
    ensures ChunkSet(a + b, id) == ChunkSet(a, id) + ChunkSet(b, id)
  {
    assert forall x :: x in a + b <==> x in a || x in b;
  }

  lemma UniformChunkSet(g: seq<nat>, id: nat -> nat)
    requires g != [] && Uniform(g, id)
    ensures ChunkSet(g, id) == {id(g[0])}
  {
    assert g[0] in g;
  }

  /** There are as many runs as occupied chunks. */
  lemma {:induction false} RunsCountChunks(groups: seq<seq<nat>>, id: nat -> nat)
    requires AllNonEmpty(groups) && Separated(groups, id)
    requires forall k :: 0 <= k < |groups| ==> Uniform(groups[k], id)
    ensures |groups| == |ChunkSet(Flatten(groups), id)|
  {
    if groups != [] {
      var rest := groups[1..];
      RunsCountChunks(rest, id);
      ChunkSetConcat(groups[0], Flatten(rest), id);
      UniformChunkSet(groups[0], id);
      assert id(groups[0][0]) !in ChunkSet(Flatten(rest), id) by {
        assert groups[0][0] in groups[0];
      }
    }
  }

  // ---------------------------------------------------------------------------------------------
  // Greedy packing of the runs
  // ---------------------------------------------------------------------------------------------

  /** Packs the remaining `groups` behind the open piece `cur`, `made` pieces being closed. */
  function Pack(groups: seq<seq<nat>>, cur: seq<nat>, made: nat, p: nat, per: nat): seq<seq<nat>> {
    if groups == [] then
      if cur == [] then [] else [cur]
    else
      var grown := cur + groups[0];
      if |grown| >= per && made + 1 < p && |groups| - 1 >= p - (made + 1) then
        [grown] + Pack(groups[1..], [], made + 1, p, per)
      else
        Pack(groups[1..], grown, made, p, per)
  }

  lemma {:induction false} PackKeepsChunks(groups: seq<seq<nat>>, cur: seq<nat>, made: nat, p: nat, per: nat, id: nat -> nat)
    requires made < p && AllNonEmpty(groups) && Separated(groups, id) && Below(cur, Flatten(groups), id)
    ensures Flatten(Pack(groups, cur, made, p, per)) == cur + Flatten(groups)
    ensures AllNonEmpty(Pack(groups, cur, made, p, per))
    ensures Separated(Pack(groups, cur, made, p, per), id)
    ensures |Pack(groups, cur, made, p, per)| <= p - made
  {
    if groups != [] {
      var grown := cur + groups[0];
      var rest := groups[1..];
      assert cur + Flatten(groups) == grown + Flatten(rest);
      assert Below(grown, Flatten(rest), id);
      if |grown| >= per && made + 1 < p && |groups| - 1 >= p - (made + 1) {
        PackKeepsChunks(rest, [], made + 1, p, per, id);
        var packed := Pack(rest, [], made + 1, p, per);
        assert [] + Flatten(rest) == Flatten(rest);
        assert ([grown] + packed)[1..] == packed;
      } else {
        PackKeepsChunks(rest, grown, made, p, per, id);
      }
    } else if cur != [] {
      assert [cur][1..] == [];
    }
  }

  function SplitIndices(v: seq<nat>, chunkLen: nat, target: nat): seq<seq<nat>> {
    if v == [] then [[]]
    else
      var groups := RunsFrom(v, 0, 1, ChunkOf(Max(1, chunkLen)));
      var p := Max(1, Min(target, |groups|));
      Pack(groups, [], 0, p, CeilDiv(|v|, p))
  }

  /**
   Greedy packing: the pieces concatenate to the input, none is empty, no chunk's indices are
   divided, and there are at most as many as the target and as the occupied chunks.
   */
  lemma {:induction false} SplitIndicesPacks(v: seq<nat>, chunkLen: nat, target: nat)
    requires Ascending(v)
    ensures Flatten(SplitIndices(v, chunkLen, target)) == v
    ensures v != [] ==> AllNonEmpty(SplitIndices(v, chunkLen, target))
    ensures Separated(SplitIndices(v, chunkLen, target), ChunkOf(Max(1, chunkLen)))
    ensures |SplitIndices(v, chunkLen, target)| >= 1
    ensures |SplitIndices(v, chunkLen, target)|
            <= Max(1, Min(target, |ChunkSet(v, ChunkOf(Max(1, chunkLen)))|))
  {
    if v == [] {
      assert SplitIndices(v, chunkLen, target)[1..] == [];
    } else {
      var id := ChunkOf(Max(1, chunkLen));
      ChunkOfMonotone(Max(1, chunkLen));
      var groups := RunsFrom(v, 0, 1, id);
      RunsAre(v, groups, id);
      var p := Max(1, Min(target, |groups|));
      PackKeepsChunks(groups, [], 0, p, CeilDiv(|v|, p), id);
      assert [] + v == v;
    }
  }

  /** The runs are those of all of `v`, one for each of its chunks. */
  lemma RunsAre(v: seq<nat>, groups: seq<seq<nat>>, id: nat -> nat)
    requires Ascending(v) && Monotone(id) && v != [] && groups == RunsFrom(v, 0, 1, id)
    ensures Flatten(groups) == v && AllNonEmpty(groups) && Separated(groups, id)
    ensures |groups| == |ChunkSet(v, id)|
  {
    RunsFlatten(v, 0, 1, id);
    RunsUniform(v, 0, 1, id);
    RunsSeparated(v, 0, 1, id);
    assert v[0..] == v;
    RunsCountChunks(groups, id);
  }

  // ---------------------------------------------------------------------------------------------
  // The packing told from its pieces
  // ---------------------------------------------------------------------------------------------

  /** A piece of `held` indices may close: it has the size, and the chunks left fill the pieces still owed. */
  predicate Ready(held: nat, chunksLeft: nat, made: nat, p: nat, per: nat) {
    held >= per && made + 1 < p && chunksLeft >= p - (made + 1)
  }

  /** At no earlier chunk boundary could the piece have closed. */
  ghost predicate NoEarlier(piece: seq<nat>, later: seq<nat>, made: nat, p: nat, per: nat, id: nat -> nat) {
    forall i :: 0 < i < |piece| && id(piece[i - 1]) != id(piece[i]) ==> !Ready(i, |ChunkSet(piece[i..] + later, id)|, made, p, per)
  }

  /** Every piece closes at the first chunk boundary at which it may, and the last one nowhere. */
  ghost predicate ClosesFirst(pieces: seq<seq<nat>>, made: nat, p: nat, per: nat, id: nat -> nat) {
    pieces == [] ||
    var later := Flatten(pieces[1..]);
    && NoEarlier(pieces[0], later, made, p, per, id)
    && (|pieces| > 1 ==> Ready(|pieces[0]|, |ChunkSet(later, id)|, made, p, per))
    && ClosesFirst(pieces[1..], made + 1, p, per, id)
  }

  ghost predicate RunsOf(groups: seq<seq<nat>>, id: nat -> nat) {
    AllNonEmpty(groups) && Separated(groups, id) && forall k :: 0 <= k < |groups| ==> Uniform(groups[k], id)
  }

  lemma {:induction false} PackClosesFirst(groups: seq<seq<nat>>, cur: seq<nat>, made: nat, p: nat, per: nat, id: nat -> nat)
    requires made < p && RunsOf(groups, id) && Below(cur, Flatten(groups), id)
    requires NoEarlier(cur, Flatten(groups), made, p, per, id) && (cur != [] ==> !Ready(|cur|, |groups|, made, p, per))
    ensures ClosesFirst(Pack(groups, cur, made, p, per), made, p, per, id)
    decreases |groups|
  {
    if groups == [] {
      assert [cur][1..] == [];
    } else {
      var grown, rest := cur + groups[0], groups[1..];
      RunsCountChunks(rest, id);
      NoEarlierGrown(groups, cur, made, p, per, id);
      if Ready(|grown|, |rest|, made, p, per) {
        var packed := Pack(rest, [], made + 1, p, per);
        PackClosesFirst(rest, [], made + 1, p, per, id);
        PackKeepsChunks(rest, [], made + 1, p, per, id);
        assert [] + Flatten(rest) == Flatten(rest);
        assert ([grown] + packed)[1..] == packed;
      } else {
        PackClosesFirst(rest, grown, made, p, per, id);
      }
    }
  }

  lemma NoEarlierGrown(groups: seq<seq<nat>>, cur: seq<nat>, made: nat, p: nat, per: nat, id: nat -> nat)
    requires groups != [] && RunsOf(groups, id) && NoEarlier(cur, Flatten(groups), made, p, per, id)
    requires cur != [] ==> !Ready(|cur|, |groups|, made, p, per)
    ensures NoEarlier(cur + groups[0], Flatten(groups[1..]), made, p, per, id)
  {
    var grown, later := cur + groups[0], Flatten(groups[1..]);
    RunsCountChunks(groups, id);
    assert Uniform(groups[0], id);
    forall i | 0 < i < |grown| && id(grown[i - 1]) != id(grown[i])
      ensures !Ready(i, |ChunkSet(grown[i..] + later, id)|, made, p, per)
    {
      if i <= |cur| {
        DropGrown(cur, groups[0], later, i);
        if i == |cur| { assert cur[i..] + Flatten(groups) == Flatten(groups); }
      } else {
        InsideGroup(cur, groups[0], i, id);
        assert false;
      }
    }
  }

  lemma InsideGroup(cur: seq<nat>, group: seq<nat>, i: nat, id: nat -> nat)
    requires |cur| < i < |cur| + |group| && Uniform(group, id)
    ensures id((cur + group)[i - 1]) == id((cur + group)[i])
  {
    assert (cur + group)[i - 1] == group[i - 1 - |cur|] && (cur + group)[i] == group[i - |cur|];
  }

  lemma DropGrown(cur: seq<nat>, group: seq<nat>, later: seq<nat>, i: nat)
    requires 0 < i <= |cur|
    ensures (cur + group)[i..] + later == cur[i..] + (group + later)
    ensures (cur + group)[i - 1] == cur[i - 1] && (i < |cur| ==> (cur + group)[i] == cur[i])
  {
  }

  /** The number of pieces a target asks for, and how many indices each should hold. */
  ghost function Owed(v: seq<nat>, target: nat, id: nat -> nat): (p: nat)
    ensures p > 0
  {
    Max(1, Min(target, |ChunkSet(v, id)|))
  }

  /** `pieces` cut `v` on chunk boundaries, each as early as it holds its share and enough chunks are left. */
  ghost predicate PacksGreedily(pieces: seq<seq<nat>>, v: seq<nat>, target: nat, id: nat -> nat) {
    && Flatten(pieces) == v && AllNonEmpty(pieces) && Separated(pieces, id)
    && ClosesFirst(pieces, 0, Owed(v, target, id), CeilDiv(|v|, Owed(v, target, id)), id)
  }

  lemma {:induction false} ClosesFirstOnce(a: seq<seq<nat>>, b: seq<seq<nat>>, made: nat, p: nat, per: nat, id: nat -> nat)
    requires Flatten(a) == Flatten(b) && AllNonEmpty(a) && AllNonEmpty(b) && Separated(a, id) && Separated(b, id)
    requires ClosesFirst(a, made, p, per, id) && ClosesFirst(b, made, p, per, id)
    ensures a == b
    decreases |a|
  {
    if a == [] || b == [] {
      assert a == b == [];
    } else {
      NotShorter(a, b, made, p, per, id);
      NotShorter(b, a, made, p, per, id);
      assert a[0] == Flatten(a)[..|a[0]|] && b[0] == Flatten(b)[..|b[0]|];
      assert Flatten(a[1..]) == Flatten(a)[|a[0]|..] && Flatten(b[1..]) == Flatten(b)[|b[0]|..];
      ClosesFirstOnce(a[1..], b[1..], made + 1, p, per, id);
      assert a == [a[0]] + a[1..] && b == [b[0]] + b[1..];
    }
  }

  lemma NotShorter(a: seq<seq<nat>>, b: seq<seq<nat>>, made: nat, p: nat, per: nat, id: nat -> nat)
    requires a != [] && b != [] && Flatten(a) == Flatten(b) && AllNonEmpty(a) && Separated(a, id)
    requires ClosesFirst(a, made, p, per, id) && ClosesFirst(b, made, p, per, id)
    ensures |a[0]| >= |b[0]|
  {
    if |a[0]| < |b[0]| {
      BoundaryInside(a[0], Flatten(a[1..]), b[0], Flatten(b[1..]), id);
      assert false;
    }
  }

  /** A shorter first piece ends at a chunk boundary inside the longer one. */
  lemma BoundaryInside(x: seq<nat>, xs: seq<nat>, y: seq<nat>, ys: seq<nat>, id: nat -> nat)
    requires x + xs == y + ys && x != [] && Below(x, xs, id) && |x| < |y|
    ensures id(y[|x| - 1]) < id(y[|x|]) && y[|x|..] + ys == xs != []
  {
    SameRest(x, xs, y, ys);
    assert xs[0] in xs && x[|x| - 1] in x;
  }

  lemma SameRest(x: seq<nat>, xs: seq<nat>, y: seq<nat>, ys: seq<nat>)
    requires x + xs == y + ys && |x| < |y|
    ensures y[|x|..] + ys == xs && xs != [] && xs[0] == y[|x|]
    ensures forall k :: 0 <= k < |x| ==> y[k] == x[k]
  {
    assert (x + xs)[|x|..] == xs && (y + ys)[|x|..] == y[|x|..] + ys;
    assert forall k :: 0 <= k < |x| ==> (x + xs)[k] == (y + ys)[k];
  }

  /**
   The split in full: its pieces are the one way to cut the list on chunk boundaries in which each
   piece closes as soon as it holds its share and enough chunks are left for the others.
   */
  lemma SplitIndicesIff(v: seq<nat>, chunkLen: nat, target: nat, pieces: seq<seq<nat>>)
    requires Ascending(v) && v != []
    ensures pieces == SplitIndices(v, chunkLen, target) <==> PacksGreedily(pieces, v, target, ChunkOf(Max(1, chunkLen)))
  {
    var id := ChunkOf(Max(1, chunkLen));
    ChunkOfMonotone(Max(1, chunkLen));
    var groups := RunsFrom(v, 0, 1, id);
    RunsAre(v, groups, id);
    RunsUniform(v, 0, 1, id);
    var p := Owed(v, target, id);
    PackClosesFirst(groups, [], 0, p, CeilDiv(|v|, p), id);
    SplitIndicesPacks(v, chunkLen, target);
    if PacksGreedily(pieces, v, target, id) {
      ClosesFirstOnce(pieces, SplitIndices(v, chunkLen, target), 0, p, CeilDiv(|v|, p), id);
    }
  }

  /** Some run of leading groups closes a piece: with `held` it has the size, and enough groups remain. */
  predicate Closes(groups: seq<seq<nat>>, held: nat, p: nat, per: nat) {
    groups != [] &&
    ((held + |groups[0]| >= per && p > 1 && |groups| - 1 >= p - 1) || Closes(groups[1..], held + |groups[0]|, p, per))
  }

  lemma {:induction false} PackNonEmpty(groups: seq<seq<nat>>, cur: seq<nat>, made: nat, p: nat, per: nat)
    requires AllNonEmpty(groups) && (groups != [] || cur != [])
    ensures |Pack(groups, cur, made, p, per)| >= 1
    decreases |groups|
  {
    if groups != [] { PackNonEmpty(groups[1..], cur + groups[0], made, p, per); }
  }

  /** Packing makes one piece exactly when nothing closes one before the end. */
  lemma {:induction false} OnePieceIff(groups: seq<seq<nat>>, cur: seq<nat>, p: nat, per: nat)
    requires AllNonEmpty(groups) && (groups != [] || cur != [])
    ensures |Pack(groups, cur, 0, p, per)| == 1 <==> !Closes(groups, |cur|, p, per)
    decreases |groups|
  {
    if groups != [] {
      var grown, rest := cur + groups[0], groups[1..];
      if |grown| >= per && p > 1 && |groups| - 1 >= p - 1 {
        PackNonEmpty(rest, [], 1, p, per);
      } else {
        OnePieceIff(rest, grown, p, per);
      }
    }
  }

  /** How many indices the first `k` groups hold. */
  function Held(groups: seq<seq<nat>>, k: nat): nat
    requires k <= |groups|
  {
    if k == 0 then 0 else |groups[0]| + Held(groups[1..], k - 1)
  }

  /** A piece closes exactly when the groups that leave just enough others hold its size. */
  lemma {:induction false} ClosesIff(groups: seq<seq<nat>>, held: nat, p: nat, per: nat)
    requires p > 1
    ensures Closes(groups, held, p, per) <==> |groups| >= p && held + Held(groups, |groups| - p + 1) >= per
    decreases |groups|
  {
    if groups != [] { ClosesIff(groups[1..], held + |groups[0]|, p, per); }
  }

  lemma {:induction false} NeverClosesOne(groups: seq<seq<nat>>, held: nat, per: nat)
    ensures !Closes(groups, held, 1, per)
    decreases |groups|
  {
    if groups != [] { NeverClosesOne(groups[1..], held + |groups[0]|, per); }
  }

  /** Of `n` indices, the chunks that leave `p - 1` others hold less than the `p`-th part. */
  predicate HeldLate(groups: seq<seq<nat>>, n: nat, p: nat)
    requires 1 < p <= |groups|
  {
    p * Held(groups, |groups| - p + 1) < n
  }

  /** The indices lie so late that the leading chunks never hold a fair share. */
  predicate Undivided(v: seq<nat>, chunkLen: nat) {
    v == [] ||
    var groups := RunsFrom(v, 0, 1, ChunkOf(Max(1, chunkLen)));
    forall p :: 1 < p <= |groups| ==> HeldLate(groups, |v|, p)
  }

  lemma FairShare(groups: seq<seq<nat>>, n: nat, p: nat)
    requires 1 < p <= |groups|
    ensures Closes(groups, 0, p, CeilDiv(n, p)) <==> !HeldLate(groups, n, p)
  {
    ClosesIff(groups, 0, p, CeilDiv(n, p));
    CeilDivLeast(n, p, Held(groups, |groups| - p + 1));
  }

  lemma OnePieceAt(v: seq<nat>, chunkLen: nat, target: nat, groups: seq<seq<nat>>)
    requires v != [] && groups == RunsFrom(v, 0, 1, ChunkOf(Max(1, chunkLen)))
    ensures |groups| >= 1
    ensures var p := Max(1, Min(target, |groups|));
            |SplitIndices(v, chunkLen, target)| == 1 <==> !Closes(groups, 0, p, CeilDiv(|v|, p))
  {
    RunsFlatten(v, 0, 1, ChunkOf(Max(1, chunkLen)));
    assert v[0..] == v;
    assert groups != [];
    var p := Max(1, Min(target, |groups|));
    OnePieceIff(groups, [], p, CeilDiv(|v|, p));
  }

  /** An index list is one piece for every target if and only if its leading chunks never hold a fair share. */
  lemma UndividedIff(v: seq<nat>, chunkLen: nat)
    ensures (forall target: nat :: |SplitIndices(v, chunkLen, target)| == 1) <==> Undivided(v, chunkLen)
  {
    if v != [] {
      var groups := RunsFrom(v, 0, 1, ChunkOf(Max(1, chunkLen)));
      if Undivided(v, chunkLen) {
        forall target: nat ensures |SplitIndices(v, chunkLen, target)| == 1 {
          OnePieceAt(v, chunkLen, target, groups);
          var p := Max(1, Min(target, |groups|));
          if p > 1 { FairShare(groups, |v|, p); } else { NeverClosesOne(groups, 0, CeilDiv(|v|, 1)); }
        }
      } else {
        var p :| 1 < p <= |groups| && !HeldLate(groups, |v|, p);
        FairShare(groups, |v|, p);
        OnePieceAt(v, chunkLen, p, groups);
        assert |SplitIndices(v, chunkLen, p)| != 1;
      }
    }
  }

  /** The two loops of `split_indices`. */
  method SplitIndexList(v: seq<nat>, chunkLen: nat, target: nat) returns (out: seq<seq<nat>>)
    ensures out == SplitIndices(v, chunkLen, target)
    ensures Ascending(v) ==> Flatten(out) == v
  {
    if Ascending(v) { SplitIndicesPacks(v, chunkLen, target); }
    if v == [] { return [[]]; }
    var id := ChunkOf(if chunkLen == 0 then 1 else chunkLen);
    var groups := CollectRuns(v, id);
    var p := Max(1, Min(target, |groups|));
    out := PackGroups(groups, p, CeilDiv(|v|, p));
  }

  method CollectRuns(v: seq<nat>, id: nat -> nat) returns (groups: seq<seq<nat>>)
    requires v != []
    ensures groups == RunsFrom(v, 0, 1, id)
  {
    groups := [];
    var start := 0;
    for i := 1 to |v|
      invariant start < i
      invariant groups + RunsFrom(v, start, i, id) == RunsFrom(v, 0, 1, id)
    {
      if id(v[i]) != id(v[start]) {
        var rest := RunsFrom(v, i, i + 1, id);
        assert groups + ([v[start..i]] + rest) == groups + [v[start..i]] + rest;
        groups := groups + [v[start..i]];
        start := i;
      }
    }
    assert v[start..|v|] == v[start..];
    groups := groups + [v[start..]];
  }

  method PackGroups(groups: seq<seq<nat>>, p: nat, per: nat) returns (out: seq<seq<nat>>)
    ensures out == Pack(groups, [], 0, p, per)
  {
    out := [];
    var cur: seq<nat> := [];
    for gi := 0 to |groups|
      invariant out + Pack(groups[gi..], cur, |out|, p, per) == Pack(groups, [], 0, p, per)
    {
      assert groups[gi..][1..] == groups[gi + 1..];
      cur := cur + groups[gi];
      var groupsLeft := |groups| - gi - 1;
      if |cur| >= per && |out| + 1 < p && groupsLeft >= p - (|out| + 1) {
        var rest := Pack(groups[gi + 1..], [], |out| + 1, p, per);
        assert out + ([cur] + rest) == out + [cur] + rest;
        out := out + [cur];
        cur := [];
      }
    }
    if cur != [] { out := out + [cur]; }
  }

  // ---------------------------------------------------------------------------------------------
  // Any selection
  // ---------------------------------------------------------------------------------------------

  function ToIndices(lists: seq<seq<nat>>): (r: seq<CoordSelection>)
    ensures |r| == |lists|
    ensures forall i :: 0 <= i < |lists| ==> r[i] == Indices(lists[i])
  {
    seq(|lists|, i requires 0 <= i < |lists| => Indices(lists[i]))
  }

  function SplitSelection(sel: CoordSelection, chunkLen: nat, target: nat): seq<CoordSelection> {
    match sel
    case Range(s, e) => ToRanges(RangeCuts(s, e, chunkLen, target))
    case Indices(v) => ToIndices(SplitIndices(v, chunkLen, target))
  }

  lemma {:induction false} FlattenAscending(groups: seq<seq<nat>>, k: nat)
    requires k < |groups| && Ascending(Flatten(groups))
    ensures Ascending(groups[k])
  {
    var f := Flatten(groups);
    if k == 0 {
      assert forall i :: 0 <= i < |groups[0]| ==> groups[0][i] == f[i];
    } else {
      var rest := Flatten(groups[1..]);
      assert forall i :: 0 <= i < |rest| ==> rest[i] == f[|groups[0]| + i];
      FlattenAscending(groups[1..], k - 1);
    }
  }

  /** The pieces of `[s, e)`: its chunks dealt out evenly, over as many pieces as the target allows. */
  ghost predicate CutsEvenly(pieces: seq<CoordSelection>, s: nat, e: nat, chunk: nat, target: nat)
    requires s < e && chunk > 0
  {
    var first, n := s / chunk, (e - 1) / chunk + 1 - s / chunk;
    n > 0 && EvenRanges(pieces, first, EvenShare(n, target), n, chunk, s, e)
  }

  ghost predicate EvenRanges(pieces: seq<CoordSelection>, first: nat, per: nat, n: nat, chunk: nat, s: nat, e: nat)
    requires per > 0
  {
    && |pieces| == CeilDiv(n, per)
    && forall i :: 0 <= i < |pieces| ==> pieces[i] == Range(EvenPiece(first, per, chunk, s, e, i).0, EvenPiece(first, per, chunk, s, e, i).1)
  }

  /**
   What a split at a target is: an even deal of a range's chunks, the greedy packing of a list, and
   a single piece of what is empty or of unknown chunking.
   */
  ghost predicate SplitsAt(pieces: seq<CoordSelection>, sel: CoordSelection, chunk: nat, target: nat) {
    match sel
    case Range(s, e) =>
      if e <= s then pieces == [Range(s, s)]
      else if chunk == 0 then pieces == [sel]
      else CutsEvenly(pieces, s, e, chunk, target)
    case Indices(v) =>
      if v == [] then pieces == [sel]
      else
        && (forall i :: 0 <= i < |pieces| ==> pieces[i].Indices?)
        && PacksGreedily(Lists(pieces), v, target, ChunkOf(Max(1, chunk)))
  }

  function Lists(pieces: seq<CoordSelection>): (lists: seq<seq<nat>>)
    ensures |lists| == |pieces|
  {
    seq(|pieces|, i requires 0 <= i < |pieces| => if pieces[i].Indices? then pieces[i].positions else [])
  }

  /** The split of any selection at any target. */
  lemma SplitSelectionIs(sel: CoordSelection, chunkLen: nat, target: nat)
    requires sel.Valid()
    ensures SplitsAt(SplitSelection(sel, chunkLen, target), sel, chunkLen, target)
  {
    match sel
    case Range(s, e) =>
      if s < e && chunkLen > 0 {
        DivMono(s, e - 1, chunkLen);
        RangeCutsExact(s, e, chunkLen, target, s / chunkLen, (e - 1) / chunkLen + 1 - s / chunkLen);
      }
    case Indices(v) =>
      var lists := SplitIndices(v, chunkLen, target);
      assert Lists(ToIndices(lists)) == lists;
      if v != [] { SplitIndicesIff(v, chunkLen, target, lists); }
  }

  /** Every split is exact, owns its chunks, respects the target and wastes no piece. */
  lemma SplitIsExact(sel: CoordSelection, chunkLen: nat, target: nat)
    requires sel.Valid()
    ensures ExactSplit(SplitSelection(sel, chunkLen, target), sel, Max(1, chunkLen))
    ensures |SplitSelection(sel, chunkLen, target)| <= Max(1, target)
    ensures !sel.IsEmpty() ==> forall i :: 0 <= i < |SplitSelection(sel, chunkLen, target)| ==>
              SplitSelection(sel, chunkLen, target)[i].Valid() && !SplitSelection(sel, chunkLen, target)[i].IsEmpty()
  {
    match sel
    case Range(s, e) => RangeSplitIsExact(s, e, chunkLen, target);
    case Indices(v) => IndexSplitIsExact(v, chunkLen, target);
  }

  lemma DivSpread(s: nat, d: nat, chunk: nat)
    requires chunk > 0
    ensures (s + d) / chunk - s / chunk <= d
  {
    DivBounds(s, chunk);
    MulMono(1, chunk, d);
    var q := s / chunk + d + 1;
    assert q * chunk == (s / chunk + 1) * chunk + d * chunk;
    DivBetween(s + d, chunk, 0, q);
  }

  lemma {:induction false} ChunkSetSize(v: seq<nat>, id: nat -> nat)
    ensures |ChunkSet(v, id)| <= |v|
  {
    if v == [] {
      assert ChunkSet(v, id) == {};
    } else {
      ChunkSetSize(v[1..], id);
      ChunkSetConcat([v[0]], v[1..], id);
      assert v == [v[0]] + v[1..];
      assert ChunkSet([v[0]], id) == {id(v[0])};
    }
  }

  /** However large the target, there are no more pieces than positions (and always one). */
  lemma SplitCount(sel: CoordSelection, chunkLen: nat, target: nat)
    requires sel.Valid()
    ensures |SplitSelection(sel, chunkLen, target)| <= Max(1, sel.Len())
  {
    match sel
    case Range(s, e) =>
      if s < e {
        RangeCutsTile(s, e, chunkLen, target);
        if chunkLen > 0 { DivSpread(s, e - 1 - s, chunkLen); }
      }
    case Indices(v) =>
      SplitIndicesPacks(v, chunkLen, target);
      ChunkSetSize(v, ChunkOf(Max(1, chunkLen)));
  }

  lemma RangeSplitIsExact(s: nat, e: nat, chunkLen: nat, target: nat)
    requires s <= e
    ensures var pieces := ToRanges(RangeCuts(s, e, chunkLen, target));
            && ExactSplit(pieces, Range(s, e), Max(1, chunkLen))
            && |pieces| <= Max(1, target)
            && (s < e ==> forall i :: 0 <= i < |pieces| ==> pieces[i].Valid() && !pieces[i].IsEmpty())
  {
    var cuts := RangeCuts(s, e, chunkLen, target);
    if s < e {
      RangeCutsTile(s, e, chunkLen, target);
      TilesBounds(cuts, s, e);
      assert chunkLen == 0 ==> cuts == [(s, e)];
      TilesSplitExactly(cuts, s, e, Max(1, chunkLen));
    }
  }

  lemma IndexSplitIsExact(v: seq<nat>, chunkLen: nat, target: nat)
    requires Ascending(v)
    ensures var pieces := ToIndices(SplitIndices(v, chunkLen, target));
            && ExactSplit(pieces, Indices(v), Max(1, chunkLen))
            && |pieces| <= Max(1, target)
            && (v != [] ==> forall i :: 0 <= i < |pieces| ==> pieces[i].Valid() && !pieces[i].IsEmpty())
  {
    var lists := SplitIndices(v, chunkLen, target);
    var pieces := ToIndices(lists);
    var chunk := Max(1, chunkLen);
    SplitIndicesPacks(v, chunkLen, target);
    forall i | 0 <= i < |pieces| ensures pieces[i].Valid() { FlattenAscending(lists, i); }
    forall i, x: nat | 0 <= i < |pieces| && pieces[i].Has(x) ensures Indices(v).Has(x) { FlattenHas(lists, x); }
    forall x: nat | Indices(v).Has(x) ensures exists i :: 0 <= i < |pieces| && pieces[i].Has(x) {
      FlattenHas(lists, x);
      var i :| 0 <= i < |lists| && x in lists[i];
      assert pieces[i].Has(x);
    }
    forall i, j, x: nat, y: nat | 0 <= i < j < |pieces| && pieces[i].Has(x) && pieces[j].Has(y)
      ensures x / chunk < y / chunk
    {
      SeparatedPair(lists, ChunkOf(chunk), i, j, x, y);
    }
  }
}
