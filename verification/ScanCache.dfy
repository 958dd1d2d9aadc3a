/**
 The cache a scan's partitions share, as a protocol: a mutex-guarded directory of once-cells, each
 with one permit to fill it. Every interleaving of callers is a run of the state machine below.
 */
module ScanCache {
  import opened Options

  /** A once-cell: its value when set, its permits, and whether its semaphore is closed. */
  datatype Once<V> = Once(value: Option<V>, permits: nat, closed: bool)

  /** Where a caller stands in asking for a path; `id` is the cell it was handed. */
  datatype Caller<V> =
    | Idle
    | Locked(path: string)
    | Handed(path: string, id: nat)
    | Queued(path: string, id: nat)
    | Permitted(path: string, id: nat)
    | Storing(path: string, id: nat, value: V)
    | Done(path: string, id: nat, value: V)
    | Failed(path: string)

  datatype State<V> = State(lock: Option<nat>, dir: map<string, nat>, cells: seq<Once<V>>, callers: map<nat, Caller<V>>)

  /**
   What a caller may do next: lock the directory, look its cell up and unlock, find the value
   set, find it unset and queue, take the permit and read, store what it read, close the
   semaphore, fail, be woken by the closing; and be cancelled wherever its future is suspended.
   */
  datatype Action<V> =
    | Lock(caller: nat, path: string)
    | Lookup(caller: nat, path: string)
    | Hit(caller: nat, path: string)
    | Miss(caller: nat, path: string)
    | Acquire(caller: nat, path: string)
    | Store(caller: nat, path: string, value: V)
    | Close(caller: nat, path: string)
    | Fail(caller: nat, path: string)
    | Wake(caller: nat, path: string)
    | Cancel(caller: nat, path: string)

  const FRESH_PERMITS: nat := 1

  function CallerAt<V>(s: State<V>, c: nat): Caller<V> {
    if c in s.callers then s.callers[c] else Idle
  }

  function Move<V>(s: State<V>, c: nat, caller: Caller<V>): State<V> {
    s.(callers := s.callers[c := caller])
  }

  function SetCell<V>(s: State<V>, id: nat, cell: Once<V>): State<V>
    requires id < |s.cells|
  {
    s.(cells := s.cells[id := cell])
  }

  /** Get-or-insert, under the lock. */
  function LookupCell<V>(s: State<V>, c: nat, p: string): State<V> {
    var unlocked := s.(lock := None);
    if p in s.dir then Move(unlocked, c, Handed(p, s.dir[p]))
    else Move(unlocked.(dir := s.dir[p := |s.cells|], cells := s.cells + [Once(None, FRESH_PERMITS, false)]), c, Handed(p, |s.cells|))
  }

  /** The cell a caller was handed, if it still deals with it. */
  function CellOf<V>(s: State<V>, c: nat): (r: Option<nat>)
    ensures r.Some? ==> r.value < |s.cells|
  {
    match CallerAt(s, c)
    case Handed(_, id) => if id < |s.cells| then Some(id) else None
    case Queued(_, id) => if id < |s.cells| then Some(id) else None
    case Permitted(_, id) => if id < |s.cells| then Some(id) else None
    case Storing(_, id, _) => if id < |s.cells| then Some(id) else None
    case _ => None
  }

  /** The caller gives its permit back. */
  function Return<V>(s: State<V>, id: nat, c: nat, caller: Caller<V>): State<V>
    requires id < |s.cells|
  {
    var cell := s.cells[id];
    Move(SetCell(s, id, cell.(permits := cell.permits + 1)), c, caller)
  }

  /** One atomic step, if it is enabled. */
  function Step<V(==)>(s: State<V>, a: Action<V>): Option<State<V>> {
    var c, caller := a.caller, CallerAt(s, a.caller);
    var id := CellOf(s, c);
    match a
    case Lock(_, p) =>
      if s.lock.None? && (caller.Idle? || caller.Done? || caller.Failed?) then Some(Move(s.(lock := Some(c)), c, Locked(p))) else None
    case Lookup(_, p) =>
      if caller == Locked(p) && s.lock == Some(c) then Some(LookupCell(s, c, p)) else None
    case Hit(_, p) =>
      if caller.Handed? && caller.path == p && id.Some? && s.cells[id.value].value.Some?
      then Some(Move(s, c, Done(p, id.value, s.cells[id.value].value.value))) else None
    case Miss(_, p) =>
      if caller.Handed? && caller.path == p && id.Some? && s.cells[id.value].value.None? then Some(Move(s, c, Queued(p, id.value))) else None
    case Acquire(_, p) =>
      if caller.Queued? && caller.path == p && id.Some? && s.cells[id.value].permits > 0 && !s.cells[id.value].closed
      then Some(Move(SetCell(s, id.value, s.cells[id.value].(permits := s.cells[id.value].permits - 1)), c, Permitted(p, id.value))) else None
    case Store(_, p, v) =>
      if caller.Permitted? && caller.path == p && id.Some?
      then Some(Move(SetCell(s, id.value, s.cells[id.value].(value := Some(v))), c, Storing(p, id.value, v))) else None
    case Close(_, p) =>
      if caller.Storing? && caller.path == p && id.Some?
      then Some(Move(SetCell(s, id.value, s.cells[id.value].(closed := true)), c, Done(p, id.value, caller.value))) else None
    case Fail(_, p) =>
      if caller.Permitted? && caller.path == p && id.Some? then Some(Return(s, id.value, c, Failed(p))) else None
    case Wake(_, p) =>
      if caller.Queued? && caller.path == p && id.Some? && s.cells[id.value].closed && s.cells[id.value].value.Some?
      then Some(Move(s, c, Done(p, id.value, s.cells[id.value].value.value))) else None
    case Cancel(_, p) =>
      if (caller.Handed? || caller.Queued?) && caller.path == p then Some(Move(s, c, Idle))
      else if caller.Permitted? && caller.path == p && id.Some? then Some(Return(s, id.value, c, Idle))
      else None
  }

  function Initial<V>(): State<V> { State(None, map[], [], map[]) }

  /** The state after a run, if every step of it was enabled. */
  function Run<V(==)>(trace: seq<Action<V>>): Option<State<V>> {
    if trace == [] then Some(Initial())
    else
      var before := Run(trace[..|trace| - 1]);
      if before.None? then None else Step(before.value, trace[|trace| - 1])
  }

  // ---------------------------------------------------------------------------------------------
  // What every step keeps
  // ---------------------------------------------------------------------------------------------

  /** The caller has the cell's permit. */
  ghost predicate Holds<V>(s: State<V>, c: nat, id: nat) {
    (CallerAt(s, c).Permitted? && CallerAt(s, c).id == id) || (CallerAt(s, c).Storing? && CallerAt(s, c).id == id)
  }

  ghost predicate HasCell<V>(caller: Caller<V>) {
    caller.Handed? || caller.Queued? || caller.Permitted? || caller.Storing? || caller.Done?
  }

  /** The directory gives every path its own cell, and callers hold the cell of their path. */
  ghost predicate DirOk<V>(s: State<V>) {
    && (forall p :: p in s.dir ==> s.dir[p] < |s.cells|)
    && (forall p, q :: p in s.dir && q in s.dir && s.dir[p] == s.dir[q] ==> p == q)
    && (forall c :: HasCell(CallerAt(s, c)) ==> CallerAt(s, c).path in s.dir && s.dir[CallerAt(s, c).path] == CallerAt(s, c).id)
  }

  /** A cell has at most one permit, in the cell or in the hands of one caller. */
  ghost predicate PermitsOk<V>(s: State<V>) {
    && (forall id :: 0 <= id < |s.cells| ==> s.cells[id].permits <= 1)
    && (forall id, c :: 0 <= id < |s.cells| && Holds(s, c, id) ==> s.cells[id].permits == 0 && !s.cells[id].closed)
    && (forall id, b, c :: 0 <= id < |s.cells| && Holds(s, b, id) && Holds(s, c, id) ==> b == c)
    && (forall id :: 0 <= id < |s.cells| && s.cells[id].permits == 0 && !s.cells[id].closed ==> Held(s, id))
  }

  ghost predicate Held<V>(s: State<V>, id: nat) {
    exists c :: Holds(s, c, id)
  }

  /** Reading finds the cell unset; a set cell has no permit left; whoever has a value has the cell's. */
  ghost predicate ValuesOk<V>(s: State<V>) {
    && (forall c :: CallerAt(s, c).Permitted? && CallerAt(s, c).id < |s.cells| ==> s.cells[CallerAt(s, c).id].value.None?)
    && (forall c :: CallerAt(s, c).Storing? && CallerAt(s, c).id < |s.cells| ==> s.cells[CallerAt(s, c).id].value == Some(CallerAt(s, c).value))
    && (forall c :: CallerAt(s, c).Done? && CallerAt(s, c).id < |s.cells| ==> s.cells[CallerAt(s, c).id].value == Some(CallerAt(s, c).value))
    && (forall id :: 0 <= id < |s.cells| && s.cells[id].value.Some? ==> s.cells[id].permits == 0)
    && (forall id :: 0 <= id < |s.cells| && s.cells[id].closed ==> s.cells[id].value.Some?)
  }

  ghost predicate Inv<V>(s: State<V>) { DirOk(s) && PermitsOk(s) && ValuesOk(s) }

  /** The caller is handed the cell of its path. */
  ghost predicate Placed<V>(s: State<V>, caller: Caller<V>) {
    HasCell(caller) ==> caller.path in s.dir && s.dir[caller.path] == caller.id
  }

  /** A step that changes at most one cell and one caller. */
  ghost predicate Changes<V>(s: State<V>, t: State<V>, c: nat, id: nat) {
    && t.dir == s.dir && |t.cells| == |s.cells| && (forall k :: 0 <= k < |s.cells| && k != id ==> t.cells[k] == s.cells[k])
    && forall d :: d != c ==> CallerAt(t, d) == CallerAt(s, d)
  }

  lemma ChangeKeepsDir<V>(s: State<V>, t: State<V>, c: nat, id: nat)
    requires DirOk(s) && Changes(s, t, c, id) && Placed(s, CallerAt(t, c))
    ensures DirOk(t)
  {
    forall d | HasCell(CallerAt(t, d)) ensures CallerAt(t, d).path in t.dir && t.dir[CallerAt(t, d).path] == CallerAt(t, d).id {
      if d != c { assert HasCell(CallerAt(s, d)); }
    }
  }

  /** The permit stays where it is, moves from the cell to the caller, or back, or is forgotten. */
  ghost predicate PermitMoves<V>(s: State<V>, t: State<V>, c: nat, id: nat)
    requires id < |s.cells| == |t.cells|
  {
    var was, now := s.cells[id], t.cells[id];
    || (now.permits == was.permits && now.closed == was.closed && (Holds(t, c, id) <==> Holds(s, c, id)))
    || (was.permits == 1 && now.permits == 0 && !was.closed && !now.closed && Holds(t, c, id))
    || (now.permits == was.permits + 1 && !now.closed && Holds(s, c, id) && !Holds(t, c, id))
    || (now.permits == was.permits && now.closed && Holds(s, c, id) && !Holds(t, c, id))
  }

  lemma ChangeKeepsPermits<V>(s: State<V>, t: State<V>, c: nat, id: nat)
    requires PermitsOk(s) && Changes(s, t, c, id) && id < |s.cells| && PermitMoves(s, t, c, id)
    requires forall k :: 0 <= k < |s.cells| && k != id ==> (Holds(t, c, k) <==> Holds(s, c, k))
    ensures PermitsOk(t)
  {
    assert forall k, d :: d != c ==> (Holds(t, d, k) <==> Holds(s, d, k));
    forall k | 0 <= k < |t.cells| && t.cells[k].permits == 0 && !t.cells[k].closed ensures Held(t, k) {
      if !Holds(t, c, k) {
        assert s.cells[k].permits == 0 && !s.cells[k].closed;
        assert Held(s, k);
        var d :| Holds(s, d, k);
        assert Holds(t, d, k);
      }
    }
  }

  /** What the caller's new standing says about the cell's value. */
  ghost predicate ValueFits<V>(caller: Caller<V>, id: nat, cell: Once<V>) {
    && (caller.Permitted? && caller.id == id ==> cell.value.None?)
    && (caller.Storing? && caller.id == id ==> cell.value == Some(caller.value))
    && (caller.Done? && caller.id == id ==> cell.value == Some(caller.value))
    && (cell.value.Some? ==> cell.permits == 0)
    && (cell.closed ==> cell.value.Some?)
  }

  lemma ChangeKeepsValues<V>(s: State<V>, t: State<V>, c: nat, id: nat)
    requires ValuesOk(s) && PermitsOk(s) && Changes(s, t, c, id) && id < |s.cells|
    requires ValueFits(CallerAt(t, c), id, t.cells[id])
    requires CallerAt(t, c).Permitted? || CallerAt(t, c).Storing? || CallerAt(t, c).Done? ==> CallerAt(t, c).id == id
    requires t.cells[id].value == s.cells[id].value || (Holds(s, c, id) && s.cells[id].value.None?)
    ensures ValuesOk(t)
  {
    forall d | CallerAt(t, d).Permitted? && CallerAt(t, d).id < |t.cells| ensures t.cells[CallerAt(t, d).id].value.None? {
      if d != c && CallerAt(t, d).id == id { assert Holds(s, d, id); }
    }
    forall d | CallerAt(t, d).Storing? && CallerAt(t, d).id < |t.cells| ensures t.cells[CallerAt(t, d).id].value == Some(CallerAt(t, d).value) {
      if d != c && CallerAt(t, d).id == id { assert Holds(s, d, id); }
    }
  }

  /** A step that changes no cell and neither takes nor gives up a permit. */
  lemma PlainStep<V>(s: State<V>, t: State<V>, c: nat)
    requires Inv(s) && t.dir == s.dir && t.cells == s.cells && (forall d :: d != c ==> CallerAt(t, d) == CallerAt(s, d))
    requires var n := CallerAt(t, c); Placed(s, n) && !n.Permitted? && !n.Storing? && (n.Done? ==> n.id < |s.cells| && s.cells[n.id].value == Some(n.value))
    requires !CallerAt(s, c).Permitted? && !CallerAt(s, c).Storing?
    ensures Inv(t)
  {
    assert forall k, d :: Holds(t, d, k) <==> Holds(s, d, k);
    PlainKeepsDir(s, t, c);
    PlainKeepsPermits(s, t);
  }

  lemma PlainKeepsDir<V>(s: State<V>, t: State<V>, c: nat)
    requires DirOk(s) && t.dir == s.dir && t.cells == s.cells && (forall d :: d != c ==> CallerAt(t, d) == CallerAt(s, d)) && Placed(s, CallerAt(t, c))
    ensures DirOk(t)
  {
    ChangeKeepsDir(s, t, c, 0);
  }

  lemma PlainKeepsPermits<V>(s: State<V>, t: State<V>)
    requires PermitsOk(s) && t.cells == s.cells && forall k, d :: Holds(t, d, k) <==> Holds(s, d, k)
    ensures PermitsOk(t)
  {
    forall k | 0 <= k < |t.cells| && t.cells[k].permits == 0 && !t.cells[k].closed ensures Held(t, k) {
      assert Held(s, k);
      var d :| Holds(s, d, k);
      assert Holds(t, d, k);
    }
  }

  /** A step that changes the cell the caller was handed. */
  lemma CellStep<V>(s: State<V>, t: State<V>, c: nat, id: nat)
    requires Inv(s) && Changes(s, t, c, id) && id < |s.cells| && Placed(s, CallerAt(t, c)) && PermitMoves(s, t, c, id)
    requires forall k :: 0 <= k < |s.cells| && k != id ==> (Holds(t, c, k) <==> Holds(s, c, k))
    requires ValueFits(CallerAt(t, c), id, t.cells[id])
    requires CallerAt(t, c).Permitted? || CallerAt(t, c).Storing? || CallerAt(t, c).Done? ==> CallerAt(t, c).id == id
    requires t.cells[id].value == s.cells[id].value || (Holds(s, c, id) && s.cells[id].value.None?)
    ensures Inv(t)
  {
    ChangeKeepsDir(s, t, c, id);
    ChangeKeepsPermits(s, t, c, id);
    ChangeKeepsValues(s, t, c, id);
  }

  /** A new cell is unset, has its permit, and belongs to the one path that asked. */
  lemma LookupStep<V>(s: State<V>, c: nat, p: string)
    requires Inv(s) && CallerAt(s, c) == Locked(p)
    ensures Inv(LookupCell(s, c, p))
  {
    var t := LookupCell(s, c, p);
    assert forall d :: d != c ==> CallerAt(t, d) == CallerAt(s, d);
    if p in s.dir {
      PlainStep(s, t, c);
    } else {
      InsertKeepsDir(s, t, c, p);
      InsertKeepsRest(s, t, c, p);
    }
  }

  lemma InsertKeepsDir<V>(s: State<V>, t: State<V>, c: nat, p: string)
    requires DirOk(s) && p !in s.dir && t.dir == s.dir[p := |s.cells|] && |t.cells| == |s.cells| + 1
    requires CallerAt(t, c) == Handed(p, |s.cells|) && forall d :: d != c ==> CallerAt(t, d) == CallerAt(s, d)
    ensures DirOk(t)
  {
    forall d | HasCell(CallerAt(t, d)) ensures CallerAt(t, d).path in t.dir && t.dir[CallerAt(t, d).path] == CallerAt(t, d).id {
      if d != c { assert HasCell(CallerAt(s, d)); }
    }
  }

  lemma InsertKeepsRest<V>(s: State<V>, t: State<V>, c: nat, p: string)
    requires Inv(s) && t.cells == s.cells + [Once(None, FRESH_PERMITS, false)] && !HasCell(CallerAt(s, c))
    requires CallerAt(t, c) == Handed(p, |s.cells|) && forall d :: d != c ==> CallerAt(t, d) == CallerAt(s, d)
    ensures PermitsOk(t) && ValuesOk(t)
  {
    assert forall k, d :: Holds(t, d, k) <==> Holds(s, d, k);
    forall k, d | 0 <= k < |t.cells| && Holds(t, d, k) ensures k < |s.cells| {
      assert HasCell(CallerAt(s, d));
    }
    forall k | 0 <= k < |t.cells| && t.cells[k].permits == 0 && !t.cells[k].closed ensures Held(t, k) {
      assert Held(s, k);
      var d :| Holds(s, d, k);
      assert Holds(t, d, k);
    }
    forall d | HasCell(CallerAt(t, d)) && d != c ensures CallerAt(t, d).id < |s.cells| { assert HasCell(CallerAt(s, d)); }
  }

  lemma StepKeepsInv<V>(s: State<V>, a: Action<V>)
    requires Inv(s) && Step(s, a).Some?
    ensures Inv(Step(s, a).value)
  {
    var t, c := Step(s, a).value, a.caller;
    var caller := CallerAt(s, c);
    assert HasCell(caller) ==> caller.path in s.dir && s.dir[caller.path] == caller.id;
    if a.Lookup? {
      LookupStep(s, c, a.path);
    } else if a.Acquire? || a.Store? || a.Close? || a.Fail? || (a.Cancel? && caller.Permitted?) {
      CellMoves(s, a);
    } else {
      PlainStep(s, t, c);
    }
  }

  lemma {:induction false} CellMoves<V>(s: State<V>, a: Action<V>)
    requires Inv(s) && Step(s, a).Some?
    requires a.Acquire? || a.Store? || a.Close? || a.Fail? || (a.Cancel? && CallerAt(s, a.caller).Permitted?)
    ensures Inv(Step(s, a).value)
  {
    var t, c := Step(s, a).value, a.caller;
    var caller := CallerAt(s, c);
    assert HasCell(caller);
    var id := caller.id;
    assert caller.Permitted? || caller.Storing? ==> Holds(s, c, id);
    assert forall k :: 0 <= k < |s.cells| && k != id ==> (Holds(t, c, k) <==> Holds(s, c, k));
    CellStep(s, t, c, id);
  }

  lemma {:induction false} RunKeepsInv<V>(trace: seq<Action<V>>)
    requires Run(trace).Some?
    ensures Inv(Run(trace).value)
  {
    if trace != [] {
      var front, a := trace[..|trace| - 1], trace[|trace| - 1];
      RunKeepsInv(front);
      StepKeepsInv(Run(front).value, a);
    }
  }

  /** The directory is locked exactly by the caller that is looking its cell up. */
  ghost predicate LockOk<V>(s: State<V>) {
    forall c: nat :: CallerAt(s, c).Locked? <==> s.lock == Some(c)
  }

  lemma {:induction false} RunKeepsLock<V>(trace: seq<Action<V>>)
    requires Run(trace).Some?
    ensures LockOk(Run(trace).value)
  {
    if trace != [] {
      var front, a := trace[..|trace| - 1], trace[|trace| - 1];
      RunKeepsLock(front);
      StepKeepsLock(Run(front).value, a);
    }
  }

  lemma StepKeepsLock<V>(s: State<V>, a: Action<V>)
    requires LockOk(s) && Step(s, a).Some?
    ensures LockOk(Step(s, a).value)
  {
    var t := Step(s, a).value;
    assert forall c :: c != a.caller ==> CallerAt(t, c) == CallerAt(s, c);
  }

  // ---------------------------------------------------------------------------------------------
  // The cell of a path
  // ---------------------------------------------------------------------------------------------

  /** The cell of a path; one that nobody asked for yet is as good as fresh. */
  function CellAt<V>(s: State<V>, p: string): Once<V> {
    if p in s.dir && s.dir[p] < |s.cells| then s.cells[s.dir[p]] else Once(None, FRESH_PERMITS, false)
  }

  /** A step on one path leaves every other path's cell alone. */
  lemma OtherPathsUntouched<V>(s: State<V>, a: Action<V>, q: string)
    requires Inv(s) && Step(s, a).Some? && q != a.path
    ensures CellAt(Step(s, a).value, q) == CellAt(s, q)
  {
    var caller := CallerAt(s, a.caller);
    assert HasCell(caller) ==> caller.path in s.dir && s.dir[caller.path] == caller.id;
  }

  /** How a step changes the cell of its own path. */
  lemma OwnPath<V>(s: State<V>, a: Action<V>)
    requires Inv(s) && Step(s, a).Some?
    ensures var was, now := CellAt(s, a.path), CellAt(Step(s, a).value, a.path);
            match a
            case Acquire(_, _) => was.permits == 1 && was.value.None? && now == was.(permits := 0)
            case Store(_, _, v) => was.permits == 0 && was.value.None? && now == was.(value := Some(v))
            case Close(_, _) => was.value.Some? && now == was.(closed := true)
            case Fail(_, _) => was.permits == 0 && was.value.None? && now == was.(permits := 1)
            case Cancel(c, _) => if CallerAt(s, c).Permitted? then was.permits == 0 && was.value.None? && now == was.(permits := 1) else now == was
            case _ => now == was
  {
    var caller := CallerAt(s, a.caller);
    assert HasCell(caller) ==> caller.path in s.dir && s.dir[caller.path] == caller.id;
    assert caller.Permitted? || caller.Storing? ==> Holds(s, a.caller, caller.id);
  }

  /** A value, once set, is never changed, and its cell never replaced. */
  lemma SetIsStable<V>(s: State<V>, a: Action<V>, p: string)
    requires Inv(s) && Step(s, a).Some? && CellAt(s, p).value.Some?
    ensures CellAt(Step(s, a).value, p).value == CellAt(s, p).value
  {
    if p != a.path { OtherPathsUntouched(s, a, p); } else { OwnPath(s, a); }
  }

  // ---------------------------------------------------------------------------------------------
  // Counting reads
  // ---------------------------------------------------------------------------------------------

  predicate Starts<V>(a: Action<V>, p: string) { a.Acquire? && a.path == p }

  predicate Succeeds<V>(a: Action<V>, p: string) { a.Store? && a.path == p }

  /** The action gives up a read of the path: it fails, or the reader is cancelled. */
  predicate GivesUp<V(==)>(s: State<V>, a: Action<V>, p: string) {
    a.path == p && (a.Fail? || (a.Cancel? && CallerAt(s, a.caller).Permitted?))
  }

  function Reads<V>(trace: seq<Action<V>>, p: string): nat {
    if trace == [] then 0 else Reads(trace[..|trace| - 1], p) + if Starts(trace[|trace| - 1], p) then 1 else 0
  }

  function Successes<V>(trace: seq<Action<V>>, p: string): nat {
    if trace == [] then 0 else Successes(trace[..|trace| - 1], p) + if Succeeds(trace[|trace| - 1], p) then 1 else 0
  }

  function Abandoned<V(==)>(trace: seq<Action<V>>, p: string): nat {
    if trace == [] then 0
    else
      var front, a := trace[..|trace| - 1], trace[|trace| - 1];
      Abandoned(front, p) + if Run(front).Some? && GivesUp(Run(front).value, a, p) then 1 else 0
  }

  function InFlight<V>(s: State<V>, p: string): nat { if CellAt(s, p).permits == 0 && CellAt(s, p).value.None? then 1 else 0 }

  function Filled<V>(s: State<V>, p: string): nat { if CellAt(s, p).value.Some? then 1 else 0 }

  lemma StepConserves<V>(s: State<V>, a: Action<V>, p: string)
    requires Inv(s) && Step(s, a).Some?
    ensures var t := Step(s, a).value;
            var started, succeeded, gaveUp :=
              if Starts(a, p) then 1 else 0, if Succeeds(a, p) then 1 else 0, if GivesUp(s, a, p) then 1 else 0;
            && Filled(t, p) == Filled(s, p) + succeeded
            && InFlight(t, p) + succeeded + gaveUp == InFlight(s, p) + started
  {
    if p != a.path { OtherPathsUntouched(s, a, p); } else { OwnPath(s, a); }
  }

  /** Reads are conserved: each one is in flight, has succeeded or was abandoned. */
  lemma {:induction false} ReadsAreConserved<V>(trace: seq<Action<V>>, p: string)
    requires Run(trace).Some?
    ensures Successes(trace, p) == Filled(Run(trace).value, p)
    ensures Reads(trace, p) == InFlight(Run(trace).value, p) + Successes(trace, p) + Abandoned(trace, p)
  {
    if trace != [] {
      var front, a := trace[..|trace| - 1], trace[|trace| - 1];
      ReadsAreConserved(front, p);
      RunKeepsInv(front);
      StepConserves(Run(front).value, a, p);
    }
  }

  ghost predicate Wrote<V>(trace: seq<Action<V>>, p: string, v: V) {
    exists i :: 0 <= i < |trace| && trace[i].Store? && trace[i].path == p && trace[i].value == v
  }

  /** A cell's value is the result of a successful read. */
  lemma {:induction false} ValuesComeFromReads<V>(trace: seq<Action<V>>, p: string)
    requires Run(trace).Some? && CellAt(Run(trace).value, p).value.Some?
    ensures Wrote(trace, p, CellAt(Run(trace).value, p).value.value)
  {
    if trace != [] {
      var last := |trace| - 1;
      var front, a := trace[..last], trace[last];
      RunKeepsInv(front);
      if p != a.path { OtherPathsUntouched(Run(front).value, a, p); } else { OwnPath(Run(front).value, a); }
      if Succeeds(a, p) {
        assert trace[last].value == CellAt(Run(trace).value, p).value.value;
      } else {
        ValuesComeFromReads(front, p);
        var v := CellAt(Run(front).value, p).value.value;
        var i :| 0 <= i < |front| && front[i].Store? && front[i].path == p && front[i].value == v;
        assert trace[i] == front[i];
      }
    }
  }

  // ---------------------------------------------------------------------------------------------
  // The promises
  // ---------------------------------------------------------------------------------------------

  lemma ServedValue<V>(s: State<V>, c: nat)
    requires Inv(s) && CallerAt(s, c).Done?
    ensures CellAt(s, CallerAt(s, c).path).value == Some(CallerAt(s, c).value)
  {
    assert HasCell(CallerAt(s, c));
  }

  lemma OneReader<V>(s: State<V>, a: nat, b: nat)
    requires Inv(s) && CallerAt(s, a).Permitted? && CallerAt(s, b).Permitted? && CallerAt(s, a).path == CallerAt(s, b).path
    ensures a == b
  {
    assert HasCell(CallerAt(s, a)) && HasCell(CallerAt(s, b));
    assert Holds(s, a, CallerAt(s, a).id) && Holds(s, b, CallerAt(s, a).id);
  }

  /**
   Single flight: in every run, at most one caller at a time reads a path, at most one read
   succeeds, and every caller that was served got the value of that one read.
   */
  lemma SingleFlight<V>(trace: seq<Action<V>>, p: string)
    requires Run(trace).Some?
    ensures var s := Run(trace).value;
            && (forall a, b :: CallerAt(s, a).Permitted? && CallerAt(s, b).Permitted? && CallerAt(s, a).path == p == CallerAt(s, b).path ==> a == b)
            && Successes(trace, p) <= 1
            && (forall c :: CallerAt(s, c).Done? && CallerAt(s, c).path == p ==>
                  Successes(trace, p) == 1 && Wrote(trace, p, CallerAt(s, c).value))
            && (forall a, b :: CallerAt(s, a).Done? && CallerAt(s, b).Done? && CallerAt(s, a).path == p == CallerAt(s, b).path ==>
                  CallerAt(s, a).value == CallerAt(s, b).value)
  {
    var s := Run(trace).value;
    RunKeepsInv(trace);
    ReadsAreConserved(trace, p);
    if CellAt(s, p).value.Some? { ValuesComeFromReads(trace, p); }
    forall c | CallerAt(s, c).Done? && CallerAt(s, c).path == p ensures CellAt(s, p).value == Some(CallerAt(s, c).value) { ServedValue(s, c); }
    forall a, b | CallerAt(s, a).Permitted? && CallerAt(s, b).Permitted? && CallerAt(s, a).path == p == CallerAt(s, b).path ensures a == b {
      OneReader(s, a, b);
    }
  }

  /** Without failures and cancellations a path is read at most once, however many ask. */
  lemma ReadOnceUnlessAbandoned<V>(trace: seq<Action<V>>, p: string)
    requires Run(trace).Some? && Abandoned(trace, p) == 0
    ensures Reads(trace, p) <= 1
  {
    ReadsAreConserved(trace, p);
  }

  /** Taking the permit finds the cell unset, and closing the semaphore finds it set. */
  lemma PermitMeansUnset<V>(trace: seq<Action<V>>, c: nat)
    requires Run(trace).Some?
    ensures var s := Run(trace).value;
            && (CallerAt(s, c).Permitted? ==> CellAt(s, CallerAt(s, c).path).value.None?)
            && (forall p :: CellAt(s, p).closed ==> CellAt(s, p).value.Some?)
  {
    RunKeepsInv(trace);
    assert HasCell(CallerAt(Run(trace).value, c)) ==> CallerAt(Run(trace).value, c).path in Run(trace).value.dir;
  }

  /** A failed read leaves the cell open, and whoever queues for it may read next. */
  lemma {:induction false} FailureAllowsRetry<V>(trace: seq<Action<V>>, c: nat, p: string)
    requires Run(trace).Some? && Step(Run(trace).value, Fail(c, p)).Some?
    ensures var t := Step(Run(trace).value, Fail(c, p)).value;
            && CellAt(t, p).value.None? && CallerAt(t, c) == Failed(p)
            && forall d :: CallerAt(t, d).Queued? && CallerAt(t, d).path == p ==> Step(t, Acquire(d, p)).Some?
  {
    var s := Run(trace).value;
    var t := Step(s, Fail(c, p)).value;
    RunKeepsInv(trace);
    StepKeepsInv(s, Fail(c, p));
    OwnPath(s, Fail(c, p));
    forall d | CallerAt(t, d).Queued? && CallerAt(t, d).path == p ensures Step(t, Acquire(d, p)).Some? {
      assert HasCell(CallerAt(t, d));
    }
  }

  /**
   A queued caller can always take the permit or be woken, or another caller has the permit and
   can store or fail, or has stored and can close.
   */
  lemma WaitingIsNeverStuck<V>(trace: seq<Action<V>>, c: nat, p: string, v: V)
    requires Run(trace).Some? && CallerAt(Run(trace).value, c).Queued? && CallerAt(Run(trace).value, c).path == p
    ensures var s := Run(trace).value;
            || Step(s, Acquire(c, p)).Some?
            || Step(s, Wake(c, p)).Some?
            || (exists r :: Step(s, Store(r, p, v)).Some? && Step(s, Fail(r, p)).Some?)
            || (exists r :: Step(s, Close(r, p)).Some?)
  {
    var s := Run(trace).value;
    RunKeepsInv(trace);
    assert HasCell(CallerAt(s, c));
    var id := CallerAt(s, c).id;
    if s.cells[id].permits == 0 && !s.cells[id].closed {
      assert Held(s, id);
      var r :| Holds(s, r, id);
      HolderMoves(s, r, id, p, v);
    }
  }

  lemma HolderMoves<V>(s: State<V>, r: nat, id: nat, p: string, v: V)
    requires Inv(s) && Holds(s, r, id) && p in s.dir && s.dir[p] == id
    ensures (Step(s, Store(r, p, v)).Some? && Step(s, Fail(r, p)).Some?) || Step(s, Close(r, p)).Some?
  {
    assert HasCell(CallerAt(s, r));
  }

  /** A caller that was handed a cell, or has the lock, can always go on; so can one that waits for the lock's holder. */
  lemma LockIsReleased<V>(trace: seq<Action<V>>, c: nat, p: string)
    requires Run(trace).Some?
    ensures var s := Run(trace).value;
            && (CallerAt(s, c) == Locked(p) ==> Step(s, Lookup(c, p)).Some?)
            && (CallerAt(s, c).Handed? && CallerAt(s, c).path == p ==> Step(s, Hit(c, p)).Some? || Step(s, Miss(c, p)).Some?)
            && (s.lock.Some? ==> exists q :: CallerAt(s, s.lock.value) == Locked(q) && Step(s, Lookup(s.lock.value, q)).Some?)
  {
    var s := Run(trace).value;
    RunKeepsInv(trace);
    RunKeepsLock(trace);
    assert HasCell(CallerAt(s, c)) ==> CallerAt(s, c).path in s.dir;
    if s.lock.Some? {
      var q := CallerAt(s, s.lock.value).path;
      assert CallerAt(s, s.lock.value) == Locked(q);
    }
  }

  // ---------------------------------------------------------------------------------------------
  // Whoever asks can be served
  // ---------------------------------------------------------------------------------------------

  /** The caller is not asking for anything: it never did, or its last request ended. */
  predicate Free<V>(caller: Caller<V>) { caller.Idle? || caller.Done? || caller.Failed? }

  /** The caller has the path's value, and so has the cell. */
  ghost predicate Served<V>(s: State<V>, c: nat, p: string, v: V) {
    CallerAt(s, c).Done? && CallerAt(s, c).path == p && CallerAt(s, c).value == v && CellAt(s, p).value == Some(v)
  }

  lemma RunOne<V>(trace: seq<Action<V>>, a: Action<V>)
    requires Run(trace).Some?
    ensures Run(trace + [a]) == Step(Run(trace).value, a)
  {
    assert (trace + [a])[..|trace|] == trace;
  }

  /** While the lock is free, a free caller locks, looks its path up and is handed the path's cell as it is. */
  lemma LockThenLookup<V>(s: State<V>, c: nat, p: string)
    requires Inv(s) && s.lock.None? && Free(CallerAt(s, c))
    ensures var locked := Step(s, Lock(c, p));
            && locked.Some? && Step(locked.value, Lookup(c, p)).Some?
            && var t := Step(locked.value, Lookup(c, p)).value;
               && t.lock.None? && CallerAt(t, c).Handed? && CallerAt(t, c).path == p && CellAt(t, p) == CellAt(s, p)
               && forall d :: d != c ==> CallerAt(t, d) == CallerAt(s, d)
  {
    assert p in s.dir ==> s.dir[p] < |s.cells|;
  }

  /** The same over runs. */
  lemma Asks<V>(trace: seq<Action<V>>, c: nat, p: string) returns (asked: seq<Action<V>>)
    requires Run(trace).Some? && Run(trace).value.lock.None? && Free(CallerAt(Run(trace).value, c))
    ensures asked == trace + [Lock(c, p), Lookup(c, p)] && Run(asked).Some?
    ensures var s, t := Run(trace).value, Run(asked).value;
            && t.lock.None? && CallerAt(t, c).Handed? && CallerAt(t, c).path == p && CellAt(t, p) == CellAt(s, p)
            && (forall d :: d != c ==> CallerAt(t, d) == CallerAt(s, d))
  {
    RunKeepsInv(trace);
    LockThenLookup(Run(trace).value, c, p);
    RunOne(trace, Lock(c, p));
    RunOne(trace + [Lock(c, p)], Lookup(c, p));
    asked := trace + [Lock(c, p), Lookup(c, p)];
    assert asked == trace + [Lock(c, p)] + [Lookup(c, p)];
  }

  /** The cell a caller deals with is its path's. */
  lemma OwnCell<V>(trace: seq<Action<V>>, c: nat)
    requires Run(trace).Some? && HasCell(CallerAt(Run(trace).value, c))
    ensures var s, caller := Run(trace).value, CallerAt(Run(trace).value, c);
            caller.id < |s.cells| && CellAt(s, caller.path) == s.cells[caller.id]
  {
    RunKeepsInv(trace);
  }

  /**
   In every reachable state in which nobody looks a cell up, a caller that asks for a path that was
   read is served its value at once.
   */
  lemma SharedValueIsServed<V>(trace: seq<Action<V>>, c: nat, p: string, v: V)
    requires Run(trace).Some? && Run(trace).value.lock.None? && Free(CallerAt(Run(trace).value, c))
    requires CellAt(Run(trace).value, p).value == Some(v)
    ensures var served := Run(trace + [Lock(c, p), Lookup(c, p), Hit(c, p)]); served.Some? && Served(served.value, c, p, v)
  {
    var asked := Asks(trace, c, p);
    OwnCell(asked, c);
    RunOne(asked, Hit(c, p));
    assert trace + [Lock(c, p), Lookup(c, p), Hit(c, p)] == asked + [Hit(c, p)];
  }

  /** A caller with the permit reads, stores and is served what it read. */
  lemma ReaderIsServed<V>(trace: seq<Action<V>>, c: nat, p: string, v: V)
    requires Run(trace).Some? && CallerAt(Run(trace).value, c).Permitted? && CallerAt(Run(trace).value, c).path == p
    ensures var served := Run(trace + [Store(c, p, v), Close(c, p)]); served.Some? && Served(served.value, c, p, v)
  {
    OwnCell(trace, c);
    RunOne(trace, Store(c, p, v));
    OwnCell(trace + [Store(c, p, v)], c);
    RunOne(trace + [Store(c, p, v)], Close(c, p));
    assert trace + [Store(c, p, v), Close(c, p)] == trace + [Store(c, p, v)] + [Close(c, p)];
  }

  /**
   In every reachable state in which nobody looks a cell up, a caller that asks for a path that was
   not read and that nobody is reading reads it itself, and is served what it read.
   */
  lemma FirstAskerReads<V>(trace: seq<Action<V>>, c: nat, p: string, v: V)
    requires Run(trace).Some? && Run(trace).value.lock.None? && Free(CallerAt(Run(trace).value, c))
    requires CellAt(Run(trace).value, p).value.None? && CellAt(Run(trace).value, p).permits > 0
    ensures var served := Run(trace + [Lock(c, p), Lookup(c, p), Miss(c, p), Acquire(c, p), Store(c, p, v), Close(c, p)]);
            served.Some? && Served(served.value, c, p, v)
  {
    var asked := Asks(trace, c, p);
    OwnCell(asked, c);
    RunOne(asked, Miss(c, p));
    Permits(asked + [Miss(c, p)], c, p);
    ReaderIsServed(asked + [Miss(c, p)] + [Acquire(c, p)], c, p, v);
    assert trace + [Lock(c, p), Lookup(c, p), Miss(c, p), Acquire(c, p), Store(c, p, v), Close(c, p)]
        == asked + [Miss(c, p)] + [Acquire(c, p)] + [Store(c, p, v), Close(c, p)];
  }

  /** A queued caller takes a permit that is there. */
  lemma Permits<V>(trace: seq<Action<V>>, c: nat, p: string)
    requires Run(trace).Some? && CallerAt(Run(trace).value, c).Queued? && CallerAt(Run(trace).value, c).path == p
    requires CellAt(Run(trace).value, p).permits > 0
    ensures Run(trace + [Acquire(c, p)]).Some?
    ensures CallerAt(Run(trace + [Acquire(c, p)]).value, c).Permitted? && CallerAt(Run(trace + [Acquire(c, p)]).value, c).path == p
  {
    OwnCell(trace, c);
    RunKeepsInv(trace);
    RunOne(trace, Acquire(c, p));
  }

  /** After a failed read whoever asks next may try again, be it the caller that failed or another. */
  lemma FailureLetsOthersIn<V>(trace: seq<Action<V>>, c: nat, p: string, d: nat, v: V)
    requires Run(trace).Some? && Step(Run(trace).value, Fail(c, p)).Some? && Run(trace).value.lock.None?
    requires d == c || Free(CallerAt(Run(trace).value, d))
    ensures var served := Run(trace + [Fail(c, p)] + [Lock(d, p), Lookup(d, p), Miss(d, p), Acquire(d, p), Store(d, p, v), Close(d, p)]);
            served.Some? && Served(served.value, d, p, v)
  {
    RunKeepsInv(trace);
    RunOne(trace, Fail(c, p));
    OwnPath(Run(trace).value, Fail(c, p));
    FirstAskerReads(trace + [Fail(c, p)], d, p, v);
  }

  /** Some continuation of the run serves the caller its path. */
  ghost predicate CanBeServed<V(!new)>(trace: seq<Action<V>>, c: nat, p: string) {
    exists more: seq<Action<V>> :: EndsServed(trace + more, c, p)
  }

  ghost predicate EndsServed<V>(trace: seq<Action<V>>, c: nat, p: string) {
    Run(trace).Some? && CallerAt(Run(trace).value, c).Done? && CallerAt(Run(trace).value, c).path == p
  }

  lemma ServedBy<V(!new)>(trace: seq<Action<V>>, more: seq<Action<V>>, c: nat, p: string)
    requires CanBeServed(trace + more, c, p)
    ensures CanBeServed(trace, c, p)
  {
    var rest: seq<Action<V>> :| EndsServed(trace + more + rest, c, p);
    assert trace + more + rest == trace + (more + rest);
  }

  lemma ServedNow<V(!new)>(trace: seq<Action<V>>, more: seq<Action<V>>, c: nat, p: string)
    requires EndsServed(trace + more, c, p)
    ensures CanBeServed(trace, c, p)
  {
  }

  /** A caller that has the permit, or has stored, finishes by itself. */
  lemma HolderCloses<V>(trace: seq<Action<V>>, r: nat, p: string, v: V) returns (more: seq<Action<V>>)
    requires Run(trace).Some? && (CallerAt(Run(trace).value, r).Permitted? || CallerAt(Run(trace).value, r).Storing?)
    requires CallerAt(Run(trace).value, r).path == p
    ensures EndsServed(trace + more, r, p) && CellAt(Run(trace + more).value, p).closed
    ensures forall d :: d != r ==> CallerAt(Run(trace + more).value, d) == CallerAt(Run(trace).value, d)
  {
    var s := Run(trace).value;
    OwnCell(trace, r);
    if CallerAt(s, r).Permitted? {
      RunOne(trace, Store(r, p, v));
      OwnCell(trace + [Store(r, p, v)], r);
      RunOne(trace + [Store(r, p, v)], Close(r, p));
      more := [Store(r, p, v), Close(r, p)];
      assert trace + more == trace + [Store(r, p, v)] + [Close(r, p)];
    } else {
      RunOne(trace, Close(r, p));
      more := [Close(r, p)];
    }
    OwnCell(trace + more, r);
  }

  lemma QueuedServed<V(!new)>(trace: seq<Action<V>>, c: nat, p: string, v: V)
    requires Run(trace).Some? && CallerAt(Run(trace).value, c).Queued? && CallerAt(Run(trace).value, c).path == p
    ensures CanBeServed(trace, c, p)
  {
    var s := Run(trace).value;
    OwnCell(trace, c);
    RunKeepsInv(trace);
    if CellAt(s, p).closed {
      RunOne(trace, Wake(c, p));
      ServedNow(trace, [Wake(c, p)], c, p);
    } else if CellAt(s, p).permits > 0 {
      Permits(trace, c, p);
      var more := HolderCloses(trace + [Acquire(c, p)], c, p, v);
      ServedNow(trace + [Acquire(c, p)], more, c, p);
      ServedBy(trace, [Acquire(c, p)], c, p);
    } else {
      assert Held(s, CallerAt(s, c).id);
      var r :| Holds(s, r, CallerAt(s, c).id);
      OwnCell(trace, r);
      assert CallerAt(s, r).path == p by { assert HasCell(CallerAt(s, r)); }
      var more := HolderCloses(trace, r, p, v);
      Woken(trace + more, c, p);
      ServedBy(trace, more, c, p);
    }
  }

  lemma Woken<V(!new)>(trace: seq<Action<V>>, c: nat, p: string)
    requires Run(trace).Some? && CallerAt(Run(trace).value, c).Queued? && CallerAt(Run(trace).value, c).path == p
    requires CellAt(Run(trace).value, p).closed
    ensures CanBeServed(trace, c, p)
  {
    OwnCell(trace, c);
    RunKeepsInv(trace);
    RunOne(trace, Wake(c, p));
    ServedNow(trace, [Wake(c, p)], c, p);
  }

  lemma HandedServed<V(!new)>(trace: seq<Action<V>>, c: nat, p: string, v: V)
    requires Run(trace).Some? && CallerAt(Run(trace).value, c).Handed? && CallerAt(Run(trace).value, c).path == p
    ensures CanBeServed(trace, c, p)
  {
    OwnCell(trace, c);
    if CellAt(Run(trace).value, p).value.Some? {
      RunOne(trace, Hit(c, p));
      ServedNow(trace, [Hit(c, p)], c, p);
    } else {
      RunOne(trace, Miss(c, p));
      QueuedServed(trace + [Miss(c, p)], c, p, v);
      ServedBy(trace, [Miss(c, p)], c, p);
    }
  }

  lemma LockedServed<V(!new)>(trace: seq<Action<V>>, c: nat, p: string, v: V)
    requires Run(trace).Some? && CallerAt(Run(trace).value, c) == Locked(p)
    ensures CanBeServed(trace, c, p)
  {
    RunKeepsLock(trace);
    RunOne(trace, Lookup(c, p));
    HandedServed(trace + [Lookup(c, p)], c, p, v);
    ServedBy(trace, [Lookup(c, p)], c, p);
  }

  /** A free caller asks as soon as whoever has the lock has looked its cell up. */
  lemma FreeServed<V(!new)>(trace: seq<Action<V>>, c: nat, p: string, v: V)
    requires Run(trace).Some? && Free(CallerAt(Run(trace).value, c))
    ensures CanBeServed(trace, c, p)
  {
    var s := Run(trace).value;
    RunKeepsLock(trace);
    if s.lock.None? {
      var asked := Asks(trace, c, p);
      HandedServed(asked, c, p, v);
      ServedBy(trace, [Lock(c, p), Lookup(c, p)], c, p);
    } else {
      var h := s.lock.value;
      assert CallerAt(s, h).Locked?;
      var q := CallerAt(s, h).path;
      RunOne(trace, Lookup(h, q));
      var asked := Asks(trace + [Lookup(h, q)], c, p);
      HandedServed(asked, c, p, v);
      ServedBy(trace + [Lookup(h, q)], [Lock(c, p), Lookup(c, p)], c, p);
      ServedBy(trace, [Lookup(h, q)], c, p);
    }
  }

  /**
   No reachable state shuts a caller out: one that asks for nothing can still be served any path,
   and one that is asking can still be served the path it asks for.
   */
  lemma NobodyIsShutOut<V(!new)>(trace: seq<Action<V>>, c: nat, p: string, v: V)
    requires Run(trace).Some?
    requires var caller := CallerAt(Run(trace).value, c); !Free(caller) ==> caller.path == p
    ensures CanBeServed(trace, c, p)
  {
    var caller := CallerAt(Run(trace).value, c);
    match caller
    case Locked(_) => LockedServed(trace, c, p, v);
    case Handed(_, _) => HandedServed(trace, c, p, v);
    case Queued(_, _) => QueuedServed(trace, c, p, v);
    case Permitted(_, _) =>
      var more := HolderCloses(trace, c, p, v);
      ServedNow(trace, more, c, p);
    case Storing(_, _, _) =>
      var more := HolderCloses(trace, c, p, v);
      ServedNow(trace, more, c, p);
    case _ => FreeServed(trace, c, p, v);
  }

  /** A caller that waits or reads can be cancelled at any time; the cell is then as before, its permit given back. */
  lemma CancelGivesBack<V>(trace: seq<Action<V>>, c: nat, p: string)
    requires Run(trace).Some?
    requires var caller := CallerAt(Run(trace).value, c); (caller.Handed? || caller.Queued? || caller.Permitted?) && caller.path == p
    ensures var s, t := Run(trace).value, Step(Run(trace).value, Cancel(c, p));
            && t.Some? && CallerAt(t.value, c).Idle?
            && CellAt(t.value, p) == if CallerAt(s, c).Permitted? then CellAt(s, p).(permits := 1) else CellAt(s, p)
  {
    OwnCell(trace, c);
    RunKeepsInv(trace);
    OwnPath(Run(trace).value, Cancel(c, p));
  }
}
