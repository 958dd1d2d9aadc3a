/** The physical optimizer rule that pushes limits into scans. */
module LimitRule {
  import opened Options

  /** A physical plan, as far as the rule tells nodes apart. */
  datatype Plan =
    | Scan(limit: Option<nat>)
    | Coalesce(fetch: Option<nat>, child: Plan)
    | GlobalLimit(skip: nat, fetch: Option<nat>, child: Plan)
    | LocalLimit(rows: nat, child: Plan)
    | Node(name: string, children: seq<Plan>)

  function MinOpt(a: Option<nat>, b: Option<nat>): Option<nat> {
    if a.None? then b else if b.None? then a else Some(if a.value <= b.value then a.value else b.value)
  }

  /** `extract_limit_from_node`. */
  function NodeLimit(p: Plan): Option<nat> {
    match p
    case Coalesce(fetch, _) => fetch
    case GlobalLimit(_, fetch, _) => fetch
    case LocalLimit(rows, _) => Some(rows)
    case Scan(_) => None
    case Node(_, _) => None
  }

  /** `find_limit_anywhere`. */
  function FindLimit(p: Plan): Option<nat>
    decreases p, 0
  {
    match p
    case Scan(_) => None
    case Coalesce(_, c) => MinOpt(NodeLimit(p), FindLimit(c))
    case GlobalLimit(_, _, c) => MinOpt(NodeLimit(p), FindLimit(c))
    case LocalLimit(_, c) => MinOpt(NodeLimit(p), FindLimit(c))
    case Node(_, cs) => FindLimits(cs)
  }

  function FindLimits(ps: seq<Plan>): Option<nat>
    decreases ps, 1
  {
    if ps == [] then None else MinOpt(FindLimit(ps[0]), FindLimits(ps[1..]))
  }

  /** `push_limit_to_zarr`. */
  function Push(p: Plan, limit: Option<nat>): Plan
    decreases p, 0
  {
    match p
    case Scan(current) =>
      if limit.Some? && (current.None? || limit.value < current.value) then Scan(limit) else p
    case Coalesce(fetch, c) => Coalesce(fetch, Push(c, MinOpt(limit, NodeLimit(p))))
    case GlobalLimit(skip, fetch, c) => GlobalLimit(skip, fetch, Push(c, MinOpt(limit, NodeLimit(p))))
    case LocalLimit(rows, c) => LocalLimit(rows, Push(c, MinOpt(limit, NodeLimit(p))))
    case Node(name, cs) => Node(name, PushAll(cs, limit))
  }

  function PushAll(ps: seq<Plan>, limit: Option<nat>): seq<Plan>
    decreases ps, 1
  {
    if ps == [] then [] else [Push(ps[0], limit)] + PushAll(ps[1..], limit)
  }

  function Optimize(p: Plan): Plan { Push(p, FindLimit(p)) }

  // ---------------------------------------------------------------------------------------------
  // Every scan ends with the least limit
  // ---------------------------------------------------------------------------------------------

  function Values(n: Option<nat>): set<nat> { if n.Some? then {n.value} else {} }

  /** All limits in the tree: the fetches of coalesces and global limits, and the rows of local limits. */
  function Limits(p: Plan): set<nat>
    decreases p, 0
  {
    match p
    case Scan(_) => {}
    case Coalesce(fetch, c) => Values(fetch) + Limits(c)
    case GlobalLimit(_, fetch, c) => Values(fetch) + Limits(c)
    case LocalLimit(rows, c) => {rows} + Limits(c)
    case Node(_, cs) => AllLimits(cs)
  }

  function AllLimits(ps: seq<Plan>): set<nat>
    decreases ps, 1
  {
    if ps == [] then {} else Limits(ps[0]) + AllLimits(ps[1..])
  }

  ghost predicate IsLeast(m: Option<nat>, s: set<nat>) {
    if m.None? then s == {} else m.value in s && forall n :: n in s ==> m.value <= n
  }

  lemma MinOptIsLeast(a: Option<nat>, s: set<nat>, b: Option<nat>, t: set<nat>)
    requires IsLeast(a, s) && IsLeast(b, t)
    ensures IsLeast(MinOpt(a, b), s + t)
  {
  }

  lemma {:induction false} FindLimitIsLeast(p: Plan)
    ensures IsLeast(FindLimit(p), Limits(p))
    decreases p, 0
  {
    match p
    case Scan(_) =>
    case Coalesce(fetch, c) => FindLimitIsLeast(c); MinOptIsLeast(fetch, Values(fetch), FindLimit(c), Limits(c));
    case GlobalLimit(_, fetch, c) => FindLimitIsLeast(c); MinOptIsLeast(fetch, Values(fetch), FindLimit(c), Limits(c));
    case LocalLimit(rows, c) => FindLimitIsLeast(c); MinOptIsLeast(Some(rows), {rows}, FindLimit(c), Limits(c));
    case Node(_, cs) => FindLimitsAreLeast(cs);
  }

  lemma {:induction false} FindLimitsAreLeast(ps: seq<Plan>)
    ensures IsLeast(FindLimits(ps), AllLimits(ps))
    decreases ps, 1
  {
    if ps != [] {
      FindLimitIsLeast(ps[0]);
      FindLimitsAreLeast(ps[1..]);
      MinOptIsLeast(FindLimit(ps[0]), Limits(ps[0]), FindLimits(ps[1..]), AllLimits(ps[1..]));
    }
  }

  /** The plan with one and the same limit merged into every scan and nothing else changed. */
  function Capped(p: Plan, limit: Option<nat>): Plan
    decreases p, 0
  {
    match p
    case Scan(current) => Scan(MinOpt(current, limit))
    case Coalesce(fetch, c) => Coalesce(fetch, Capped(c, limit))
    case GlobalLimit(skip, fetch, c) => GlobalLimit(skip, fetch, Capped(c, limit))
    case LocalLimit(rows, c) => LocalLimit(rows, Capped(c, limit))
    case Node(name, cs) => Node(name, AllCapped(cs, limit))
  }

  function AllCapped(ps: seq<Plan>, limit: Option<nat>): seq<Plan>
    decreases ps, 1
  {
    if ps == [] then [] else [Capped(ps[0], limit)] + AllCapped(ps[1..], limit)
  }

  /** No limit of the set undercuts `limit`. */
  ghost predicate NoLower(limit: Option<nat>, s: set<nat>) {
    if limit.None? then s == {} else forall n :: n in s ==> limit.value <= n
  }

  lemma {:induction false} PushIsCap(p: Plan, limit: Option<nat>)
    requires NoLower(limit, Limits(p))
    ensures Push(p, limit) == Capped(p, limit)
    decreases p, 0
  {
    match p
    case Scan(_) =>
    case Coalesce(_, c) => assert MinOpt(limit, NodeLimit(p)) == limit; PushIsCap(c, limit);
    case GlobalLimit(_, _, c) => assert MinOpt(limit, NodeLimit(p)) == limit; PushIsCap(c, limit);
    case LocalLimit(_, c) => assert MinOpt(limit, NodeLimit(p)) == limit; PushIsCap(c, limit);
    case Node(_, cs) => PushAllIsCap(cs, limit);
  }

  lemma {:induction false} PushAllIsCap(ps: seq<Plan>, limit: Option<nat>)
    requires NoLower(limit, AllLimits(ps))
    ensures PushAll(ps, limit) == AllCapped(ps, limit)
    decreases ps, 1
  {
    if ps != [] {
      PushIsCap(ps[0], limit);
      PushAllIsCap(ps[1..], limit);
    }
  }

  /**
   The rule keeps the plan's shape and every node, and gives every scan the minimum of its old
   limit and all limits of the whole tree.
   */
  lemma OptimizeCapsScans(p: Plan)
    ensures IsLeast(FindLimit(p), Limits(p))
    ensures Optimize(p) == Capped(p, FindLimit(p))
  {
    FindLimitIsLeast(p);
    PushIsCap(p, FindLimit(p));
  }

  lemma {:induction false} CappedLimits(p: Plan, limit: Option<nat>)
    ensures FindLimit(Capped(p, limit)) == FindLimit(p)
    ensures Capped(Capped(p, limit), limit) == Capped(p, limit)
    decreases p, 0
  {
    match p
    case Scan(_) =>
    case Coalesce(_, c) => CappedLimits(c, limit);
    case GlobalLimit(_, _, c) => CappedLimits(c, limit);
    case LocalLimit(_, c) => CappedLimits(c, limit);
    case Node(_, cs) => AllCappedLimits(cs, limit);
  }

  lemma {:induction false} AllCappedLimits(ps: seq<Plan>, limit: Option<nat>)
    ensures FindLimits(AllCapped(ps, limit)) == FindLimits(ps)
    ensures AllCapped(AllCapped(ps, limit), limit) == AllCapped(ps, limit)
    decreases ps, 1
  {
    if ps != [] {
      CappedLimits(ps[0], limit);
      AllCappedLimits(ps[1..], limit);
      assert AllCapped(ps, limit)[1..] == AllCapped(ps[1..], limit);
    }
  }

  /** Running the rule again changes nothing. */
  lemma OptimizeIdempotent(p: Plan)
    ensures Optimize(Optimize(p)) == Optimize(p)
  {
    OptimizeCapsScans(p);
    CappedLimits(p, FindLimit(p));
    OptimizeCapsScans(Capped(p, FindLimit(p)));
  }

  // ---------------------------------------------------------------------------------------------
  // Running a chain of limit and coalesce nodes over one partitioned scan
  // ---------------------------------------------------------------------------------------------

  /** A row, by the positions its columns show. */
  type Row = seq<nat>

  type Streams = seq<seq<Row>>

  function Truncate(s: seq<Row>, n: Option<nat>): seq<Row> {
    if n.Some? && n.value < |s| then s[..n.value] else s
  }

  function TruncateAll(x: Streams, n: Option<nat>): (y: Streams)
    ensures |y| == |x| && forall i :: 0 <= i < |x| ==> y[i] == Truncate(x[i], n)
  {
    seq(|x|, i requires 0 <= i < |x| => Truncate(x[i], n))
  }

  /** Partitions arrive in any interleaving. */
  ghost predicate Interleaves(x: Streams, m: seq<Row>)
    decreases |m|
  {
    if m == [] then forall i :: 0 <= i < |x| ==> x[i] == []
    else exists i :: 0 <= i < |x| && TakesFrom(x, m, i)
  }

  ghost predicate TakesFrom(x: Streams, m: seq<Row>, i: nat)
    requires m != [] && i < |x|
    decreases |m|, 0
  {
    x[i] != [] && x[i][0] == m[0] && Interleaves(x[i := x[i][1..]], m[1..])
  }

  predicate IsChain(p: Plan) {
    match p
    case Scan(_) => true
    case Coalesce(_, c) => IsChain(c)
    case GlobalLimit(skip, _, c) => skip == 0 && IsChain(c)
    case LocalLimit(_, c) => IsChain(c)
    case Node(_, _) => false
  }

  /** `out` is one of the streams the chain may emit when every scan is a truncation of `data`. */
  ghost predicate Runs(p: Plan, data: Streams, out: Streams) {
    match p
    case Scan(limit) => out == TruncateAll(data, limit)
    case LocalLimit(n, c) => exists x :: Runs(c, data, x) && out == TruncateAll(x, Some(n))
    case GlobalLimit(skip, fetch, c) =>
      exists x :: Runs(c, data, x) && |x| == 1 && out == [Truncate(if skip <= |x[0]| then x[0][skip..] else [], fetch)]
    case Coalesce(fetch, c) =>
      exists x, m :: Runs(c, data, x) && Interleaves(x, m) && out == [Truncate(m, fetch)]
    case Node(_, _) => false
  }

  /** The streams agree on the first `n` rows of every partition. */
  ghost predicate Alike(x: Streams, y: Streams, n: nat) {
    |x| == |y| && forall i :: 0 <= i < |x| ==> Truncate(x[i], Some(n)) == Truncate(y[i], Some(n))
  }

  lemma TruncateTwice(s: seq<Row>, a: Option<nat>, b: Option<nat>)
    ensures Truncate(Truncate(s, a), b) == Truncate(s, MinOpt(a, b))
  {
  }

  lemma AlikeShorter(s: seq<Row>, t: seq<Row>, n: nat, k: nat)
    requires Truncate(s, Some(n)) == Truncate(t, Some(n)) && k <= n
    ensures Truncate(s, Some(k)) == Truncate(t, Some(k))
  {
    TruncateTwice(s, Some(n), Some(k));
    TruncateTwice(t, Some(n), Some(k));
  }

  lemma AlikeTruncated(s: seq<Row>, t: seq<Row>, n: nat, k: Option<nat>)
    requires Truncate(s, Some(n)) == Truncate(t, Some(n))
    ensures Truncate(Truncate(s, k), Some(n)) == Truncate(Truncate(t, k), Some(n))
  {
    TruncateTwice(s, k, Some(n));
    TruncateTwice(t, k, Some(n));
    TruncateTwice(s, Some(n), k);
    TruncateTwice(t, Some(n), k);
  }

  lemma TruncateTail(s: seq<Row>, n: nat)
    requires s != [] && n > 0
    ensures Truncate(s, Some(n)) == [s[0]] + Truncate(s[1..], Some(n - 1))
  {
    assert s == [s[0]] + s[1..];
  }

  ghost function TotalRows(x: Streams): nat {
    if x == [] then 0 else |x[0]| + TotalRows(x[1..])
  }

  lemma {:induction false} TotalRowsShrinks(x: Streams, i: nat)
    requires i < |x| && x[i] != []
    ensures TotalRows(x[i := x[i][1..]]) == TotalRows(x) - 1
  {
    if i > 0 {
      TotalRowsShrinks(x[1..], i - 1);
      assert x[i := x[i][1..]][1..] == x[1..][i - 1 := x[i][1..]];
    } else {
      assert x[0 := x[0][1..]][1..] == x[1..];
    }
  }

  lemma InterleavingExists(x: Streams)
    ensures exists m :: Interleaves(x, m)
    decreases TotalRows(x)
  {
    if i :| 0 <= i < |x| && x[i] != [] {
      TotalRowsShrinks(x, i);
      InterleavingExists(x[i := x[i][1..]]);
      var m :| Interleaves(x[i := x[i][1..]], m);
      var all := [x[i][0]] + m;
      assert all[1..] == m;
      assert TakesFrom(x, all, i);
      assert Interleaves(x, all);
    } else {
      assert Interleaves(x, []);
    }
  }

  lemma AlikeStep(x: Streams, y: Streams, n: nat, i: nat)
    requires n > 0 && i < |x| && Alike(x, y, n) && x[i] != []
    ensures y[i] != [] && y[i][0] == x[i][0]
    ensures Alike(x[i := x[i][1..]], y[i := y[i][1..]], n - 1)
  {
    assert Truncate(x[i], Some(n)) == Truncate(y[i], Some(n));
    TruncateTail(x[i], n);
    assert y[i] != [];
    TruncateTail(y[i], n);
    var a, b := x[i := x[i][1..]], y[i := y[i][1..]];
    forall j | 0 <= j < |a| ensures Truncate(a[j], Some(n - 1)) == Truncate(b[j], Some(n - 1)) {
      if j != i { AlikeShorter(x[j], y[j], n, n - 1); }
    }
  }

  /** Alike streams can be interleaved alike: the first `n` rows may be taken in the same order. */
  lemma {:induction false} AlikeInterleaves(x: Streams, y: Streams, n: nat, m: seq<Row>) returns (k: seq<Row>)
    requires Alike(x, y, n) && Interleaves(x, m)
    ensures Interleaves(y, k) && Truncate(k, Some(n)) == Truncate(m, Some(n))
    decreases n
  {
    if n == 0 {
      InterleavingExists(y);
      k :| Interleaves(y, k);
    } else if m == [] {
      k := [];
      forall i | 0 <= i < |y| ensures y[i] == [] { assert Truncate(x[i], Some(n)) == Truncate(y[i], Some(n)); }
    } else {
      var i :| 0 <= i < |x| && TakesFrom(x, m, i);
      AlikeStep(x, y, n, i);
      var rest := AlikeInterleaves(x[i := x[i][1..]], y[i := y[i][1..]], n - 1, m[1..]);
      k := [m[0]] + rest;
      assert k[1..] == rest;
      assert TakesFrom(y, k, i);
      TruncateTail(k, n);
      TruncateTail(m, n);
    }
  }

  /** Chains whose scan data agree on the first `n` rows emit streams that agree on them. */
  lemma {:induction false} AlikeRuns(p: Plan, d: Streams, e: Streams, n: nat, x: Streams) returns (y: Streams)
    requires IsChain(p) && Alike(d, e, n) && Runs(p, d, x)
    ensures Runs(p, e, y) && Alike(x, y, n)
    decreases p
  {
    match p
    case Scan(limit) =>
      y := TruncateAll(e, limit);
      forall i | 0 <= i < |d| ensures Truncate(x[i], Some(n)) == Truncate(y[i], Some(n)) { AlikeTruncated(d[i], e[i], n, limit); }
    case LocalLimit(k, c) =>
      var a :| Runs(c, d, a) && x == TruncateAll(a, Some(k));
      var b := AlikeRuns(c, d, e, n, a);
      y := TruncateAll(b, Some(k));
      forall i | 0 <= i < |a| ensures Truncate(x[i], Some(n)) == Truncate(y[i], Some(n)) { AlikeTruncated(a[i], b[i], n, Some(k)); }
    case GlobalLimit(skip, fetch, c) =>
      var a :| Runs(c, d, a) && |a| == 1 && x == [Truncate(if skip <= |a[0]| then a[0][skip..] else [], fetch)];
      var b := AlikeRuns(c, d, e, n, a);
      assert a[0][0..] == a[0] && b[0][0..] == b[0];
      y := [Truncate(b[0], fetch)];
      AlikeTruncated(a[0], b[0], n, fetch);
    case Coalesce(fetch, c) =>
      var a, m :| Runs(c, d, a) && Interleaves(a, m) && x == [Truncate(m, fetch)];
      var b := AlikeRuns(c, d, e, n, a);
      var k := AlikeInterleaves(a, b, n, m);
      y := [Truncate(k, fetch)];
      AlikeTruncated(m, k, n, fetch);
  }

  /** What a chain emits depends only on as many rows per partition as its least limit. */
  lemma {:induction false} LeastLimitSuffices(p: Plan, d: Streams, e: Streams, least: nat, out: Streams)
    requires IsChain(p) && FindLimit(p) == Some(least) && Alike(d, e, least) && Runs(p, d, out)
    ensures Runs(p, e, out)
    decreases p, 1
  {
    match p
    case LocalLimit(k, c) =>
      var a :| Runs(c, d, a) && out == TruncateAll(a, Some(k));
      LocalSuffices(k, c, d, e, least, a);
    case GlobalLimit(skip, fetch, c) =>
      var a :| Runs(c, d, a) && |a| == 1 && out == [Truncate(if skip <= |a[0]| then a[0][skip..] else [], fetch)];
      GlobalSuffices(fetch, c, d, e, least, a);
    case Coalesce(fetch, c) =>
      var a, m :| Runs(c, d, a) && Interleaves(a, m) && out == [Truncate(m, fetch)];
      CoalesceSuffices(fetch, c, d, e, least, a, m);
  }

  lemma LocalSuffices(k: nat, c: Plan, d: Streams, e: Streams, least: nat, a: Streams)
    requires IsChain(c) && FindLimit(LocalLimit(k, c)) == Some(least) && Alike(d, e, least) && Runs(c, d, a)
    ensures Runs(LocalLimit(k, c), e, TruncateAll(a, Some(k)))
    decreases c, 2
  {
    if FindLimit(c) == Some(least) { LeastLimitSuffices(c, d, e, least, a); } else { OwnLocalLimit(k, c, d, e, a); }
  }

  lemma GlobalSuffices(fetch: Option<nat>, c: Plan, d: Streams, e: Streams, least: nat, a: Streams)
    requires IsChain(c) && FindLimit(GlobalLimit(0, fetch, c)) == Some(least) && Alike(d, e, least) && Runs(c, d, a) && |a| == 1
    ensures Runs(GlobalLimit(0, fetch, c), e, [Truncate(a[0][0..], fetch)])
    decreases c, 2
  {
    if FindLimit(c) == Some(least) { LeastLimitSuffices(c, d, e, least, a); } else { OwnGlobalLimit(least, c, d, e, a); }
  }

  lemma CoalesceSuffices(fetch: Option<nat>, c: Plan, d: Streams, e: Streams, least: nat, a: Streams, m: seq<Row>)
    requires IsChain(c) && FindLimit(Coalesce(fetch, c)) == Some(least) && Alike(d, e, least) && Runs(c, d, a) && Interleaves(a, m)
    ensures Runs(Coalesce(fetch, c), e, [Truncate(m, fetch)])
    decreases c, 2
  {
    if FindLimit(c) == Some(least) { LeastLimitSuffices(c, d, e, least, a); } else { OwnFetch(least, c, d, e, a, m); }
  }

  lemma OwnLocalLimit(k: nat, c: Plan, d: Streams, e: Streams, a: Streams)
    requires IsChain(c) && Alike(d, e, k) && Runs(c, d, a)
    ensures Runs(LocalLimit(k, c), e, TruncateAll(a, Some(k)))
  {
    var b := AlikeRuns(c, d, e, k, a);
    assert TruncateAll(a, Some(k)) == TruncateAll(b, Some(k));
  }

  lemma OwnGlobalLimit(k: nat, c: Plan, d: Streams, e: Streams, a: Streams)
    requires IsChain(c) && Alike(d, e, k) && Runs(c, d, a) && |a| == 1
    ensures Runs(GlobalLimit(0, Some(k), c), e, [Truncate(a[0][0..], Some(k))])
  {
    var b := AlikeRuns(c, d, e, k, a);
    assert a[0][0..] == a[0] && b[0][0..] == b[0];
  }

  lemma OwnFetch(k: nat, c: Plan, d: Streams, e: Streams, a: Streams, m: seq<Row>)
    requires IsChain(c) && Alike(d, e, k) && Runs(c, d, a) && Interleaves(a, m)
    ensures Runs(Coalesce(Some(k), c), e, [Truncate(m, Some(k))])
  {
    var b := AlikeRuns(c, d, e, k, a);
    var n := AlikeInterleaves(a, b, k, m);
  }

  /** Capping the scan is the same as truncating what it holds. */
  lemma {:induction false} CapIsTruncation(p: Plan, limit: Option<nat>, data: Streams, out: Streams)
    requires IsChain(p)
    ensures IsChain(Capped(p, limit))
    ensures Runs(Capped(p, limit), data, out) <==> Runs(p, TruncateAll(data, limit), out)
    decreases p
  {
    match p
    case Scan(current) =>
      var a, b := TruncateAll(data, MinOpt(current, limit)), TruncateAll(TruncateAll(data, limit), current);
      forall i | 0 <= i < |data| ensures a[i] == b[i] { TruncateTwice(data[i], limit, current); }
      assert a == b;
    case LocalLimit(k, c) =>
      forall x ensures Runs(Capped(c, limit), data, x) <==> Runs(c, TruncateAll(data, limit), x) { CapIsTruncation(c, limit, data, x); }
      CapIsTruncation(c, limit, data, out);
    case GlobalLimit(_, _, c) =>
      forall x ensures Runs(Capped(c, limit), data, x) <==> Runs(c, TruncateAll(data, limit), x) { CapIsTruncation(c, limit, data, x); }
      CapIsTruncation(c, limit, data, out);
    case Coalesce(_, c) =>
      forall x ensures Runs(Capped(c, limit), data, x) <==> Runs(c, TruncateAll(data, limit), x) { CapIsTruncation(c, limit, data, x); }
      CapIsTruncation(c, limit, data, out);
  }

  lemma TruncatedAlike(data: Streams, n: nat)
    ensures Alike(data, TruncateAll(data, Some(n)), n) && Alike(TruncateAll(data, Some(n)), data, n)
  {
    forall i | 0 <= i < |data| ensures Truncate(TruncateAll(data, Some(n))[i], Some(n)) == Truncate(data[i], Some(n)) {
      TruncateTwice(data[i], Some(n), Some(n));
    }
  }

  /** Over rows that a limit only truncates, a chain may emit the same streams before and after the rule. */
  lemma TruncationPreserved(p: Plan, data: Streams, out: Streams)
    requires IsChain(p)
    ensures Runs(p, data, out) <==> Runs(Optimize(p), data, out)
  {
    var least := FindLimit(p);
    OptimizeCapsScans(p);
    CapIsTruncation(p, least, data, out);
    if least.Some? {
      TruncatedAlike(data, least.value);
      if Runs(p, data, out) { LeastLimitSuffices(p, data, TruncateAll(data, least), least.value, out); }
      if Runs(p, TruncateAll(data, least), out) { LeastLimitSuffices(p, TruncateAll(data, least), data, least.value, out); }
    } else {
      assert TruncateAll(data, least) == data;
    }
  }

  // ---------------------------------------------------------------------------------------------
  // Scans that read other rows under a limit
  // ---------------------------------------------------------------------------------------------

  /** What the partitions of a scan hold without a limit, and with one before it truncates. */
  datatype Source = Source(full: Streams, limited: Streams)

  function Plain(data: Streams): Source { Source(data, data) }

  function ScanRows(src: Source, limit: Option<nat>): Streams {
    if limit.None? then src.full else TruncateAll(src.limited, limit)
  }

  /** Limits, offsets and coalesces over one scan. */
  predicate IsPipe(p: Plan) {
    match p
    case Scan(_) => true
    case Coalesce(_, c) => IsPipe(c)
    case GlobalLimit(_, _, c) => IsPipe(c)
    case LocalLimit(_, c) => IsPipe(c)
    case Node(_, _) => false
  }

  lemma {:induction false} ChainIsPipe(p: Plan)
    requires IsChain(p)
    ensures IsPipe(p)
  {
    match p
    case Scan(_) =>
    case Coalesce(_, c) => ChainIsPipe(c);
    case GlobalLimit(_, _, c) => ChainIsPipe(c);
    case LocalLimit(_, c) => ChainIsPipe(c);
  }

  function ScanLimit(p: Plan): Option<nat>
    requires IsPipe(p)
  {
    match p
    case Scan(limit) => limit
    case Coalesce(_, c) => ScanLimit(c)
    case GlobalLimit(_, _, c) => ScanLimit(c)
    case LocalLimit(_, c) => ScanLimit(c)
  }

  /** `out` is one of the streams the plan may emit over the source. */
  ghost predicate Emits(p: Plan, src: Source, out: Streams) {
    match p
    case Scan(limit) => out == ScanRows(src, limit)
    case LocalLimit(n, c) => exists x :: Emits(c, src, x) && out == TruncateAll(x, Some(n))
    case GlobalLimit(skip, fetch, c) =>
      exists x :: Emits(c, src, x) && |x| == 1 && out == [Truncate(if skip <= |x[0]| then x[0][skip..] else [], fetch)]
    case Coalesce(fetch, c) =>
      exists x, m :: Emits(c, src, x) && Interleaves(x, m) && out == [Truncate(m, fetch)]
    case Node(_, _) => false
  }

  /** The rows the plan's scan truncates. */
  function RowsRead(p: Plan, src: Source): Streams
    requires IsPipe(p)
  {
    if ScanLimit(p).None? then src.full else src.limited
  }

  lemma {:induction false} EmitsRuns(p: Plan, src: Source, out: Streams)
    requires IsPipe(p)
    ensures Emits(p, src, out) <==> Runs(p, RowsRead(p, src), out)
    decreases p
  {
    match p
    case Scan(limit) => if limit.None? { assert TruncateAll(src.full, None) == src.full; }
    case LocalLimit(n, c) => forall x ensures Emits(c, src, x) <==> Runs(c, RowsRead(c, src), x) { EmitsRuns(c, src, x); }
    case GlobalLimit(_, _, c) => forall x ensures Emits(c, src, x) <==> Runs(c, RowsRead(c, src), x) { EmitsRuns(c, src, x); }
    case Coalesce(_, c) => forall x ensures Emits(c, src, x) <==> Runs(c, RowsRead(c, src), x) { EmitsRuns(c, src, x); }
  }

  lemma {:induction false} CappedScan(p: Plan, limit: Option<nat>)
    requires IsPipe(p)
    ensures IsPipe(Capped(p, limit)) && ScanLimit(Capped(p, limit)) == MinOpt(ScanLimit(p), limit)
  {
    match p
    case Scan(_) =>
    case Coalesce(_, c) => CappedScan(c, limit);
    case GlobalLimit(_, _, c) => CappedScan(c, limit);
    case LocalLimit(_, c) => CappedScan(c, limit);
  }

  /** Nothing is pushed into an unlimited scan, or what is pushed cuts both readings to the same rows. */
  ghost predicate PushHarmless(p: Plan, src: Source)
    requires IsPipe(p)
  {
    ScanLimit(p).Some? || FindLimit(p).None? || Alike(src.full, src.limited, FindLimit(p).value)
  }

  /**
   Limit push-down preserves results: an offset-free chain over any partitioned scan may emit
   exactly the same streams before and after the rule, if limited and unlimited readings agree as
   far as the pushed limit reaches.
   */
  lemma OptimizePreservesChains(p: Plan, src: Source, out: Streams)
    requires IsChain(p) && IsPipe(p) && PushHarmless(p, src)
    ensures Emits(p, src, out) <==> Emits(Optimize(p), src, out)
  {
    var least, q := FindLimit(p), Optimize(p);
    OptimizeCapsScans(p);
    CappedScan(p, least);
    EmitsRuns(p, src, out);
    EmitsRuns(q, src, out);
    TruncationPreserved(p, RowsRead(q, src), out);
    if ScanLimit(p).None? && least.Some? {
      AlikeBoth(src.full, src.limited, least.value);
      if Runs(p, src.full, out) { LeastLimitSuffices(p, src.full, src.limited, least.value, out); }
      if Runs(p, src.limited, out) { LeastLimitSuffices(p, src.limited, src.full, least.value, out); }
    }
  }

  lemma AlikeBoth(x: Streams, y: Streams, n: nat)
    requires Alike(x, y, n)
    ensures Alike(y, x, n)
  {
  }

  ghost function Longest(x: Streams): (n: nat)
    ensures forall i :: 0 <= i < |x| ==> |x[i]| <= n
  {
    if x == [] then 0
    else
      var rest := Longest(x[1..]);
      assert forall i :: 0 < i < |x| ==> x[i] == x[1..][i - 1];
      if |x[0]| >= rest then |x[0]| else rest
  }

  /** Every offset-free chain keeps its results if and only if the scan reads the same rows with a limit as without. */
  lemma PushdownPreservedIff(src: Source)
    ensures (forall p, out :: IsChain(p) ==> (Emits(p, src, out) <==> Emits(Optimize(p), src, out))) <==> src.full == src.limited
  {
    if src.full == src.limited {
      forall p, out | IsChain(p) ensures Emits(p, src, out) <==> Emits(Optimize(p), src, out) {
        ChainIsPipe(p);
        if FindLimit(p).Some? { assert Alike(src.full, src.limited, FindLimit(p).value); }
        OptimizePreservesChains(p, src, out);
      }
    } else {
      var n := Longest(src.full) + Longest(src.limited);
      var p := LocalLimit(n, Scan(None));
      LocalOverScan(n, src);
      assert Emits(p, src, src.full) && !Emits(Optimize(p), src, src.full);
    }
  }

  lemma LocalOverScan(n: nat, src: Source)
    requires n >= Longest(src.full) && n >= Longest(src.limited)
    ensures var p := LocalLimit(n, Scan(None));
            && (forall out :: Emits(p, src, out) <==> out == src.full)
            && (forall out :: Emits(Optimize(p), src, out) <==> out == src.limited)
  {
    var p := LocalLimit(n, Scan(None));
    assert FindLimit(Scan(None)) == None && FindLimit(p) == Some(n);
    assert MinOpt(Some(n), NodeLimit(p)) == Some(n) && Push(Scan(None), Some(n)) == Scan(Some(n));
    assert Optimize(p) == LocalLimit(n, Scan(Some(n)));
    assert TruncateAll(src.full, Some(n)) == src.full && TruncateAll(src.limited, Some(n)) == src.limited;
    assert Emits(Scan(None), src, src.full) && Emits(Scan(Some(n)), src, src.limited);
  }

  // ---------------------------------------------------------------------------------------------
  // Offsets: one partition, through any nesting of limits and coalesces
  // ---------------------------------------------------------------------------------------------

  /** The rows from position `from` on, up to `until`. */
  function Slice(s: seq<Row>, from: nat, until: Option<nat>): seq<Row> {
    var t := Truncate(s, until);
    if from <= |t| then t[from..] else []
  }

  function Plus(a: nat, b: Option<nat>): Option<nat> {
    if b.None? then None else Some(a + b.value)
  }

  /** The first position that the pipe lets through. */
  function Start(p: Plan): nat
    requires IsPipe(p)
  {
    match p
    case Scan(_) => 0
    case Coalesce(_, c) => Start(c)
    case GlobalLimit(skip, _, c) => Start(c) + skip
    case LocalLimit(_, c) => Start(c)
  }

  /** The position at which it stops, if it does. */
  function Stop(p: Plan): Option<nat>
    requires IsPipe(p)
  {
    match p
    case Scan(limit) => limit
    case Coalesce(fetch, c) => MinOpt(Stop(c), Plus(Start(c), fetch))
    case GlobalLimit(skip, fetch, c) => MinOpt(Stop(c), Plus(Start(c) + skip, fetch))
    case LocalLimit(n, c) => MinOpt(Stop(c), Some(Start(c) + n))
  }

  lemma SliceTruncated(s: seq<Row>, a: nat, b: Option<nat>, n: Option<nat>)
    ensures Truncate(Slice(s, a, b), n) == Slice(s, a, MinOpt(b, Plus(a, n)))
  {
  }

  lemma SliceSkipped(s: seq<Row>, a: nat, b: Option<nat>, skip: nat)
    ensures var t := Slice(s, a, b); (if skip <= |t| then t[skip..] else []) == Slice(s, a + skip, b)
  {
  }

  lemma {:induction false} OneInterleaving(x: seq<Row>, m: seq<Row>)
    ensures Interleaves([x], m) <==> m == x
    decreases |m|
  {
    assert [x][0] == x;
    if m != [] && x == [] {
      assert forall i :: 0 <= i < |[x]| ==> !TakesFrom([x], m, i);
    } else if m != [] {
      assert [x][0 := x[1..]] == [x[1..]];
      OneInterleaving(x[1..], m[1..]);
      assert TakesFrom([x], m, 0) <==> x[0] == m[0] && m[1..] == x[1..];
      assert m == [m[0]] + m[1..] && x == [x[0]] + x[1..];
    }
  }

  /** The plan emits one stream of one partition, `w`. */
  ghost predicate RunsOnly(c: Plan, s: seq<Row>, w: seq<Row>) {
    forall x :: Runs(c, [s], x) <==> x == [w]
  }

  lemma LocalWindow(n: nat, c: Plan, s: seq<Row>, w: seq<Row>)
    requires RunsOnly(c, s, w)
    ensures RunsOnly(LocalLimit(n, c), s, Truncate(w, Some(n)))
  {
    assert TruncateAll([w], Some(n)) == [Truncate(w, Some(n))];
    assert Runs(c, [s], [w]);
  }

  lemma GlobalWindow(skip: nat, fetch: Option<nat>, c: Plan, s: seq<Row>, w: seq<Row>)
    requires RunsOnly(c, s, w)
    ensures RunsOnly(GlobalLimit(skip, fetch, c), s, Truncate(if skip <= |w| then w[skip..] else [], fetch))
  {
    assert Runs(c, [s], [w]);
  }

  lemma CoalesceWindow(fetch: Option<nat>, c: Plan, s: seq<Row>, w: seq<Row>)
    requires RunsOnly(c, s, w)
    ensures RunsOnly(Coalesce(fetch, c), s, Truncate(w, fetch))
  {
    forall m ensures Interleaves([w], m) <==> m == w { OneInterleaving(w, m); }
    assert Runs(c, [s], [w]) && Interleaves([w], w);
  }

  /** What a pipe lets through of one partition, node by node. */
  function Window(p: Plan, s: seq<Row>): seq<Row>
    requires IsPipe(p)
  {
    match p
    case Scan(limit) => Truncate(s, limit)
    case LocalLimit(n, c) => Truncate(Window(c, s), Some(n))
    case GlobalLimit(skip, fetch, c) => Truncate(if skip <= |Window(c, s)| then Window(c, s)[skip..] else [], fetch)
    case Coalesce(fetch, c) => Truncate(Window(c, s), fetch)
  }

  /** Over one partition a pipe emits exactly its window. */
  lemma {:induction false} RunsWindow(p: Plan, s: seq<Row>)
    requires IsPipe(p)
    ensures RunsOnly(p, s, Window(p, s))
    decreases p
  {
    match p
    case Scan(limit) => assert TruncateAll([s], limit) == [Truncate(s, limit)];
    case LocalLimit(n, c) =>
      RunsWindow(c, s);
      LocalWindow(n, c, s, Window(c, s));
    case GlobalLimit(skip, fetch, c) =>
      RunsWindow(c, s);
      GlobalWindow(skip, fetch, c, s, Window(c, s));
    case Coalesce(fetch, c) =>
      RunsWindow(c, s);
      CoalesceWindow(fetch, c, s, Window(c, s));
  }

  lemma SliceWhole(s: seq<Row>, limit: Option<nat>)
    ensures Slice(s, 0, limit) == Truncate(s, limit)
  {
  }

  lemma LocalSlice(n: nat, c: Plan, s: seq<Row>)
    requires IsPipe(c) && Window(c, s) == Slice(s, Start(c), Stop(c))
    ensures Window(LocalLimit(n, c), s) == Slice(s, Start(LocalLimit(n, c)), Stop(LocalLimit(n, c)))
  {
    SliceTruncated(s, Start(c), Stop(c), Some(n));
  }

  lemma GlobalSlice(skip: nat, fetch: Option<nat>, c: Plan, s: seq<Row>)
    requires IsPipe(c) && Window(c, s) == Slice(s, Start(c), Stop(c))
    ensures Window(GlobalLimit(skip, fetch, c), s)
         == Slice(s, Start(GlobalLimit(skip, fetch, c)), Stop(GlobalLimit(skip, fetch, c)))
  {
    PageOfSlice(s, Start(c), Stop(c), skip, fetch);
  }

  lemma CoalesceSlice(fetch: Option<nat>, c: Plan, s: seq<Row>)
    requires IsPipe(c) && Window(c, s) == Slice(s, Start(c), Stop(c))
    ensures Window(Coalesce(fetch, c), s) == Slice(s, Start(Coalesce(fetch, c)), Stop(Coalesce(fetch, c)))
  {
    SliceTruncated(s, Start(c), Stop(c), fetch);
  }

  /** The window is the slice between its start and its stop. */
  lemma {:induction false} WindowIsSlice(p: Plan, s: seq<Row>)
    requires IsPipe(p)
    ensures Window(p, s) == Slice(s, Start(p), Stop(p))
    decreases p
  {
    if p.Scan? {
      SliceWhole(s, p.limit);
    } else {
      WindowIsSlice(p.child, s);
      match p
      case LocalLimit(n, c) => LocalSlice(n, c, s);
      case GlobalLimit(skip, fetch, c) => GlobalSlice(skip, fetch, c, s);
      case Coalesce(fetch, c) => CoalesceSlice(fetch, c, s);
    }
  }

  lemma PageOfSlice(s: seq<Row>, a: nat, b: Option<nat>, skip: nat, fetch: Option<nat>)
    ensures var w := Slice(s, a, b);
            Truncate(if skip <= |w| then w[skip..] else [], fetch) == Slice(s, a + skip, MinOpt(b, Plus(a + skip, fetch)))
  {
    SliceSkipped(s, a, b, skip);
    SliceTruncated(s, a + skip, b, fetch);
  }

  lemma {:induction false} CappedStart(p: Plan, limit: Option<nat>)
    requires IsPipe(p) && IsPipe(Capped(p, limit))
    ensures Start(Capped(p, limit)) == Start(p)
  {
    match p
    case Scan(_) =>
    case Coalesce(_, c) => CappedStart(c, limit);
    case GlobalLimit(_, _, c) => CappedStart(c, limit);
    case LocalLimit(_, c) => CappedStart(c, limit);
  }

  lemma {:induction false} CappedStop(p: Plan, limit: Option<nat>)
    requires IsPipe(p) && IsPipe(Capped(p, limit))
    ensures Stop(Capped(p, limit)) == MinOpt(Stop(p), limit)
  {
    if !p.Scan? {
      CappedStart(p.child, limit);
      CappedStop(p.child, limit);
      OuterStop(p, limit);
    }
  }

  /** Where the topmost node of a pipe stops, on its own. */
  function Bound(p: Plan): Option<nat>
    requires IsPipe(p)
  {
    match p
    case Scan(limit) => limit
    case Coalesce(fetch, c) => Plus(Start(c), fetch)
    case GlobalLimit(skip, fetch, c) => Plus(Start(c) + skip, fetch)
    case LocalLimit(n, c) => Some(Start(c) + n)
  }

  lemma StopIs(p: Plan)
    requires IsPipe(p) && !p.Scan?
    ensures Stop(p) == MinOpt(Stop(p.child), Bound(p))
  {
  }

  lemma CappedChild(p: Plan, limit: Option<nat>)
    requires IsPipe(p) && !p.Scan?
    ensures !Capped(p, limit).Scan? && !Capped(p, limit).Node? && Capped(p, limit).child == Capped(p.child, limit)
  {
  }

  lemma SameBound(p: Plan, limit: Option<nat>)
    requires IsPipe(p) && !p.Scan? && IsPipe(Capped(p, limit)) && IsPipe(Capped(p.child, limit)) && Start(Capped(p.child, limit)) == Start(p.child)
    ensures Bound(Capped(p, limit)) == Bound(p)
  {
  }

  lemma OuterStop(p: Plan, limit: Option<nat>)
    requires IsPipe(p) && !p.Scan? && IsPipe(Capped(p, limit)) && IsPipe(Capped(p.child, limit))
    requires Start(Capped(p.child, limit)) == Start(p.child) && Stop(Capped(p.child, limit)) == MinOpt(Stop(p.child), limit)
    ensures Stop(Capped(p, limit)) == MinOpt(Stop(p), limit)
  {
    CappedChild(p, limit);
    SameBound(p, limit);
    StopIs(p);
    StopIs(Capped(p, limit));
    MinOptSwaps(Stop(p.child), limit, Bound(p));
  }

  lemma MinOptSwaps(a: Option<nat>, b: Option<nat>, c: Option<nat>)
    ensures MinOpt(MinOpt(a, b), c) == MinOpt(MinOpt(a, c), b)
  {
  }

  /** The pushed limit ends nowhere inside the pipe's window. */
  predicate WindowKept(p: Plan)
    requires IsPipe(p)
  {
    FindLimit(p).None? || (Stop(p).Some? && (Stop(p).value <= FindLimit(p).value || Stop(p).value <= Start(p)))
  }

  lemma PipeWindow(p: Plan, s: seq<Row>, out: Streams)
    requires IsPipe(p)
    ensures Emits(p, Plain([s]), out) <==> out == [Slice(s, Start(p), Stop(p))]
    ensures Emits(Optimize(p), Plain([s]), out) <==> out == [Slice(s, Start(p), MinOpt(Stop(p), FindLimit(p)))]
  {
    OptimizeCapsScans(p);
    CappedScan(p, FindLimit(p));
    CappedStart(p, FindLimit(p));
    CappedStop(p, FindLimit(p));
    EmitsRuns(p, Plain([s]), out);
    EmitsRuns(Optimize(p), Plain([s]), out);
    RunsWindow(p, s);
    RunsWindow(Optimize(p), s);
    WindowIsSlice(p, s);
    WindowIsSlice(Optimize(p), s);
  }

  /**
   Over one partition any pipe of limits, offsets and coalesces keeps its rows if and only if the
   least limit ends nowhere inside its window: the rule forgets to add the offsets.
   */
  lemma {:induction false} OffsetPreservedIff(p: Plan)
    requires IsPipe(p)
    ensures (forall s, out :: Emits(p, Plain([s]), out) <==> Emits(Optimize(p), Plain([s]), out)) <==> WindowKept(p)
  {
    var a, b, n := Start(p), Stop(p), FindLimit(p);
    if WindowKept(p) {
      forall s, out ensures Emits(p, Plain([s]), out) <==> Emits(Optimize(p), Plain([s]), out) {
        PipeWindow(p, s, out);
        assert Slice(s, a, b) == Slice(s, a, MinOpt(b, n));
      }
    } else {
      var far := if n.value >= a then n.value + 1 else a + 1;
      var s: seq<Row> := seq(far, _ => []);
      var out := [Slice(s, a, b)];
      PipeWindow(p, s, out);
      assert |Slice(s, a, b)| == far - a && |Slice(s, a, MinOpt(b, n))| < far - a;
    }
  }
}
